/**
 Conflicts on exclusive resources in the schedule projection: a sweep over the start and end times of
 the occurrences that use one resource.
 Source: backend/internal/controlplane/projection.go.
 */
module Projection {
  import opened Common
  import opened Sets

  /** One planned run of a schedule; its id is unique and it takes up the times `start <= t < end`. */
  datatype Occurrence = Occurrence(id: string, start: int, end: int) {
    predicate At(t: int) {
      start <= t < end
    }
    predicate Overlaps(other: Occurrence) {
      start < other.end && other.start < end
    }
  }

  datatype Event = Event(at: int, isStart: bool, occurrence: Occurrence)

  datatype Conflict = Conflict(start: int, end: int, occurrences: set<Occurrence>) {
    predicate Covers(t: int) {
      start <= t < end
    }
    predicate Meets(o: Occurrence) {
      start < o.end && o.start < end
    }
  }

  /** What `projectScheduleInput` produces: distinct ids, and every occurrence ends after it starts. */
  ghost predicate Projected(occurrences: seq<Occurrence>) {
    && (forall i :: 0 <= i < |occurrences| ==> occurrences[i].start < occurrences[i].end)
    && (forall i, j :: 0 <= i < j < |occurrences| ==> occurrences[i].id != occurrences[j].id)
  }

  /** Two different occurrences want the resource at time `t`. */
  ghost predicate Busy(occurrences: seq<Occurrence>, t: int) {
    exists i, j :: 0 <= i < j < |occurrences| && occurrences[i].At(t) && occurrences[j].At(t)
  }

  // ---- Events ----

  predicate Before(a: Event, b: Event) {
    a.at < b.at || (a.at == b.at && (!a.isStart || b.isStart))
  }

  ghost predicate Sorted(events: seq<Event>) {
    forall i, j :: 0 <= i < j < |events| ==> events[i].at <= events[j].at
  }

  ghost predicate IsEventOf(e: Event, occurrences: seq<Occurrence>) {
    e.occurrence in occurrences && e.at == if e.isStart then e.occurrence.start else e.occurrence.end
  }

  /** The events are the start and the end of every occurrence and nothing else. */
  ghost predicate EventsOf(events: seq<Event>, occurrences: seq<Occurrence>) {
    && (forall k :: 0 <= k < |events| ==> IsEventOf(events[k], occurrences))
    && (forall o :: o in occurrences ==> Event(o.start, true, o) in events && Event(o.end, false, o) in events)
  }

  function InsertEvent(events: seq<Event>, e: Event): seq<Event> {
    if events == [] || Before(events[|events| - 1], e) then events + [e]
    else InsertEvent(events[..|events| - 1], e) + [events[|events| - 1]]
  }

  lemma {:induction false} InsertEventSorts(events: seq<Event>, e: Event)
    requires Sorted(events)
    ensures Sorted(InsertEvent(events, e))
    ensures forall x :: x in InsertEvent(events, e) <==> x in events || x == e
    decreases |events|
  {
    if events == [] || Before(events[|events| - 1], e) {
    } else {
      var init, last := events[..|events| - 1], events[|events| - 1];
      InsertEventSorts(init, e);
      assert events == init + [last];
      var inserted := InsertEvent(init, e);
      forall k | 0 <= k < |inserted|
        ensures inserted[k].at <= last.at
      {
        assert inserted[k] in inserted;
      }
    }
  }

  function WithEvents(events: seq<Event>, o: Occurrence): seq<Event> {
    InsertEvent(InsertEvent(events, Event(o.start, true, o)), Event(o.end, false, o))
  }

  lemma WithEventsOf(events: seq<Event>, occurrences: seq<Occurrence>, o: Occurrence)
    requires Sorted(events) && EventsOf(events, occurrences)
    ensures Sorted(WithEvents(events, o)) && EventsOf(WithEvents(events, o), occurrences + [o])
  {
    var begun := InsertEvent(events, Event(o.start, true, o));
    InsertEventSorts(events, Event(o.start, true, o));
    InsertEventSorts(begun, Event(o.end, false, o));
    OneMoreOccurrence(occurrences, o, events, WithEvents(events, o));
  }

  /** `projectionEvents` */
  method ProjectionEvents(occurrences: seq<Occurrence>) returns (events: seq<Event>)
    ensures Sorted(events) && EventsOf(events, occurrences)
  {
    events := [];
    for i := 0 to |occurrences|
      invariant Sorted(events) && EventsOf(events, occurrences[..i])
    {
      WithEventsOf(events, occurrences[..i], occurrences[i]);
      assert occurrences[..i + 1] == occurrences[..i] + [occurrences[i]];
      events := WithEvents(events, occurrences[i]);
    }
    assert occurrences[..|occurrences|] == occurrences;
  }

  lemma OneMoreOccurrence(occurrences: seq<Occurrence>, o: Occurrence, events: seq<Event>, more: seq<Event>)
    requires EventsOf(events, occurrences)
    requires forall x :: x in more <==> x in events || x == Event(o.start, true, o) || x == Event(o.end, false, o)
    ensures EventsOf(more, occurrences + [o])
  {
    forall k | 0 <= k < |more|
      ensures IsEventOf(more[k], occurrences + [o])
    {
      assert more[k] in more;
    }
  }

  // ---- One group of simultaneous events ----

  function EndedTo(group: seq<Event>, n: nat): set<string>
    requires n <= |group|
  {
    if n == 0 then {}
    else if group[n - 1].isStart then EndedTo(group, n - 1)
    else EndedTo(group, n - 1) + {group[n - 1].occurrence.id}
  }

  function StartedTo(group: seq<Event>, n: nat): map<string, Occurrence>
    requires n <= |group|
  {
    if n == 0 then map[]
    else if group[n - 1].isStart then StartedTo(group, n - 1)[group[n - 1].occurrence.id := group[n - 1].occurrence]
    else StartedTo(group, n - 1)
  }

  /** The ids that end in a group of events. */
  function Ended(group: seq<Event>): set<string> {
    EndedTo(group, |group|)
  }

  /** The occurrences that start in a group of events, by id. */
  function Started(group: seq<Event>): map<string, Occurrence> {
    StartedTo(group, |group|)
  }

  lemma AddLater(m: map<string, Occurrence>, s: map<string, Occurrence>, id: string, o: Occurrence)
    ensures (m + s)[id := o] == m + s[id := o]
  {
  }

  /** `updateActiveOccurrences`: ends first, then starts. */
  method UpdateActive(active: map<string, Occurrence>, group: seq<Event>) returns (updated: map<string, Occurrence>)
    ensures updated == (active - Ended(group)) + Started(group)
  {
    updated := active;
    for k := 0 to |group|
      invariant updated == active - EndedTo(group, k)
    {
      if !group[k].isStart {
        updated := updated - {group[k].occurrence.id};
      }
    }
    ghost var kept := updated;
    for k := 0 to |group|
      invariant updated == kept + StartedTo(group, k)
    {
      if group[k].isStart {
        AddLater(kept, StartedTo(group, k), group[k].occurrence.id, group[k].occurrence);
        updated := updated[group[k].occurrence.id := group[k].occurrence];
      }
    }
  }

  /** The occurrences under way just before time `t`. */
  ghost predicate Reaches(o: Occurrence, t: int) {
    o.start < t <= o.end
  }

  /** `active` maps the ids of the occurrences under way just before `t` to them. */
  ghost predicate Tracks(active: map<string, Occurrence>, occurrences: seq<Occurrence>, t: int) {
    && (forall id :: id in active ==> active[id] in occurrences && active[id].id == id && Reaches(active[id], t))
    && (forall o :: o in occurrences && Reaches(o, t) ==> o.id in active && active[o.id] == o)
  }

  /** No occurrence starts or ends strictly between `a` and `b`. */
  ghost predicate Quiet(occurrences: seq<Occurrence>, a: int, b: int) {
    forall o :: o in occurrences ==> (o.start <= a || b <= o.start) && (o.end <= a || b <= o.end)
  }

  /** `group` holds all the events at time `a`, as the sweep cuts them out. */
  ghost predicate GroupAt(group: seq<Event>, occurrences: seq<Occurrence>, a: int) {
    && (forall k :: 0 <= k < |group| ==> IsEventOf(group[k], occurrences) && group[k].at == a)
    && (forall o :: o in occurrences && o.start == a ==> Event(a, true, o) in group)
    && (forall o :: o in occurrences && o.end == a ==> Event(a, false, o) in group)
  }

  lemma SameId(occurrences: seq<Occurrence>, o: Occurrence, p: Occurrence)
    requires Projected(occurrences) && o in occurrences && p in occurrences && o.id == p.id
    ensures o == p
  {
    var i :| 0 <= i < |occurrences| && occurrences[i] == o;
    var j :| 0 <= j < |occurrences| && occurrences[j] == p;
    assert i == j;
  }

  lemma {:induction false} StartedFrom(group: seq<Event>, n: nat, id: string) returns (k: nat)
    requires n <= |group| && id in StartedTo(group, n)
    ensures k < n && group[k].isStart && group[k].occurrence == StartedTo(group, n)[id] && group[k].occurrence.id == id
    decreases n
  {
    k := n - 1;
    if !group[k].isStart || group[k].occurrence.id != id {
      k := StartedFrom(group, n - 1, id);
    }
  }

  lemma {:induction false} StartedHas(group: seq<Event>, n: nat, k: nat)
    requires k < n <= |group| && group[k].isStart
    ensures group[k].occurrence.id in StartedTo(group, n)
    decreases n
  {
    if k < n - 1 {
      StartedHas(group, n - 1, k);
    }
  }

  lemma {:induction false} EndedFrom(group: seq<Event>, n: nat, id: string)
    requires n <= |group|
    ensures id in EndedTo(group, n) <==> exists k :: 0 <= k < n && !group[k].isStart && group[k].occurrence.id == id
    decreases n
  {
    if n > 0 {
      EndedFrom(group, n - 1, id);
    }
  }

  /** An occurrence that starts at `a` is the one the group has under its id. */
  lemma StartsInGroup(group: seq<Event>, occurrences: seq<Occurrence>, a: int, o: Occurrence)
    requires Projected(occurrences) && GroupAt(group, occurrences, a) && o in occurrences
    ensures o.id in Started(group) <==> o.start == a
    ensures o.id in Started(group) ==> Started(group)[o.id] == o
  {
    if o.start == a {
      var k :| 0 <= k < |group| && group[k] == Event(a, true, o);
      StartedHas(group, |group|, k);
    }
    if o.id in Started(group) {
      var k := StartedFrom(group, |group|, o.id);
      assert IsEventOf(group[k], occurrences);
      SameId(occurrences, o, group[k].occurrence);
    }
  }

  lemma EndsInGroup(group: seq<Event>, occurrences: seq<Occurrence>, a: int, o: Occurrence)
    requires Projected(occurrences) && GroupAt(group, occurrences, a) && o in occurrences
    ensures o.id in Ended(group) <==> o.end == a
  {
    EndedFrom(group, |group|, o.id);
    if o.end == a {
      var k :| 0 <= k < |group| && group[k] == Event(a, false, o);
    }
    if o.id in Ended(group) {
      var k :| 0 <= k < |group| && !group[k].isStart && group[k].occurrence.id == o.id;
      assert IsEventOf(group[k], occurrences);
      SameId(occurrences, o, group[k].occurrence);
    }
  }

  /** Processing the group at `a` moves the active map past it. */
  lemma GroupTracks(active: map<string, Occurrence>, group: seq<Event>, occurrences: seq<Occurrence>, a: int, b: int)
    requires Projected(occurrences) && GroupAt(group, occurrences, a)
    requires a < b && Quiet(occurrences, a, b)
    requires Tracks(active, occurrences, a)
    ensures Tracks((active - Ended(group)) + Started(group), occurrences, b)
  {
    var updated := (active - Ended(group)) + Started(group);
    forall id | id in updated
      ensures updated[id] in occurrences && updated[id].id == id && Reaches(updated[id], b)
    {
      if id in Started(group) {
        var k := StartedFrom(group, |group|, id);
        assert IsEventOf(group[k], occurrences);
        assert exists i :: 0 <= i < |occurrences| && occurrences[i] == updated[id];
      } else {
        EndsInGroup(group, occurrences, a, active[id]);
      }
    }
    forall o | o in occurrences && Reaches(o, b)
      ensures o.id in updated && updated[o.id] == o
    {
      StartsInGroup(group, occurrences, a, o);
      EndsInGroup(group, occurrences, a, o);
    }
  }

  lemma TwoKeys(s: set<string>, x: string, y: string)
    requires x in s && y in s && x != y
    ensures |s| >= 2
  {
    assert {x, y} <= s;
    SubsetCount({x, y}, s);
  }

  /** Between two event times the resource is busy exactly when two occurrences are active. */
  lemma BusyWhenTwoActive(active: map<string, Occurrence>, occurrences: seq<Occurrence>, a: int, b: int, t: int)
    requires Projected(occurrences) && Quiet(occurrences, a, b) && Tracks(active, occurrences, b)
    requires a <= t < b
    ensures Busy(occurrences, t) <==> |active| >= 2
  {
    if Busy(occurrences, t) {
      var i, j :| 0 <= i < j < |occurrences| && occurrences[i].At(t) && occurrences[j].At(t);
      assert Reaches(occurrences[i], b) && Reaches(occurrences[j], b);
      TwoKeys(active.Keys, occurrences[i].id, occurrences[j].id);
      assert |active.Keys| == |active|;
    }
    if |active| >= 2 {
      assert |active.Keys| == |active|;
      var x := Member(active.Keys);
      assert |active.Keys - {x}| == |active.Keys| - 1;
      var y := Member(active.Keys - {x});
      var i :| 0 <= i < |occurrences| && occurrences[i] == active[x];
      var j :| 0 <= j < |occurrences| && occurrences[j] == active[y];
      assert occurrences[i].At(t) && occurrences[j].At(t);
      if j < i {
        assert occurrences[j].At(t) && occurrences[i].At(t);
      }
    }
  }

  // ---- What the sweep has found so far ----

  ghost predicate Covered(conflicts: seq<Conflict>, t: int) {
    exists k :: 0 <= k < |conflicts| && conflicts[k].Covers(t)
  }

  ghost predicate Separate(conflicts: seq<Conflict>) {
    && (forall k :: 0 <= k < |conflicts| ==> conflicts[k].start < conflicts[k].end)
    && (forall k, m :: 0 <= k < m < |conflicts| ==> conflicts[k].end < conflicts[m].start)
  }

  /** The conflict lists exactly the occurrences that take part in it. */
  ghost predicate Lists(c: Conflict, occurrences: seq<Occurrence>) {
    forall o :: o in c.occurrences <==> o in occurrences && c.Meets(o)
  }

  ghost predicate Found(conflicts: seq<Conflict>, occurrences: seq<Occurrence>, upTo: int) {
    && Separate(conflicts)
    && (forall k :: 0 <= k < |conflicts| ==> conflicts[k].end <= upTo && Lists(conflicts[k], occurrences))
    && (forall t :: t < upTo ==> (Covered(conflicts, t) <==> Busy(occurrences, t)))
  }

  lemma StaysIdle(conflicts: seq<Conflict>, occurrences: seq<Occurrence>, active: map<string, Occurrence>, a: int, b: int)
    requires Projected(occurrences) && Found(conflicts, occurrences, a)
    requires a < b && Quiet(occurrences, a, b) && Tracks(active, occurrences, b) && |active| < 2
    ensures Found(conflicts, occurrences, b)
  {
    forall t | t < b
      ensures Covered(conflicts, t) <==> Busy(occurrences, t)
    {
      if a <= t {
        BusyWhenTwoActive(active, occurrences, a, b, t);
      }
    }
  }

  lemma ActiveValues(active: map<string, Occurrence>, occurrences: seq<Occurrence>, b: int, o: Occurrence)
    requires Tracks(active, occurrences, b)
    ensures o in active.Values <==> o in occurrences && Reaches(o, b)
  {
    if o in occurrences && Reaches(o, b) {
      assert active[o.id] in active.Values;
    }
  }

  lemma Opens(conflicts: seq<Conflict>, occurrences: seq<Occurrence>, active: map<string, Occurrence>, a: int, b: int)
    requires Projected(occurrences) && Found(conflicts, occurrences, a)
    requires forall k :: 0 <= k < |conflicts| ==> conflicts[k].end < a
    requires a < b && Quiet(occurrences, a, b) && Tracks(active, occurrences, b) && |active| >= 2
    ensures Found(conflicts + [Conflict(a, b, active.Values)], occurrences, b)
  {
    var c := Conflict(a, b, active.Values);
    var more := conflicts + [c];
    forall o
      ensures o in c.occurrences <==> o in occurrences && c.Meets(o)
    {
      ActiveValues(active, occurrences, b, o);
    }
    forall t | t < b
      ensures Covered(more, t) <==> Busy(occurrences, t)
    {
      if a <= t {
        BusyWhenTwoActive(active, occurrences, a, b, t);
        assert more[|conflicts|].Covers(t);
      } else {
        CoveredBefore(conflicts, c, t);
      }
    }
  }

  lemma CoveredBefore(conflicts: seq<Conflict>, c: Conflict, t: int)
    ensures Covered(conflicts + [c], t) <==> Covered(conflicts, t) || c.Covers(t)
  {
    var more := conflicts + [c];
    if Covered(conflicts, t) {
      var k :| 0 <= k < |conflicts| && conflicts[k].Covers(t);
      assert more[k].Covers(t);
    }
    if c.Covers(t) {
      assert more[|conflicts|].Covers(t);
    }
  }

  lemma Extends(conflicts: seq<Conflict>, last: Conflict, occurrences: seq<Occurrence>, active: map<string, Occurrence>, a: int, b: int)
    requires Projected(occurrences) && Found(conflicts + [last], occurrences, a)
    requires last.end == a
    requires a < b && Quiet(occurrences, a, b) && Tracks(active, occurrences, b) && |active| >= 2
    ensures Found(conflicts + [Conflict(last.start, b, last.occurrences + active.Values)], occurrences, b)
  {
    var c := Conflict(last.start, b, last.occurrences + active.Values);
    var before, after := conflicts + [last], conflicts + [c];
    assert before[|conflicts|] == last;
    assert Lists(last, occurrences);
    forall o
      ensures o in c.occurrences <==> o in occurrences && c.Meets(o)
    {
      ActiveValues(active, occurrences, b, o);
    }
    forall k | 0 <= k < |after|
      ensures after[k].start < after[k].end <= b && Lists(after[k], occurrences)
    {
      assert before[k].start < before[k].end;
    }
    assert Separate(after) by {
      forall k, m | 0 <= k < m < |after|
        ensures after[k].end < after[m].start
      {
        assert before[k].end < before[m].start;
      }
    }
    forall t | t < b
      ensures Covered(after, t) <==> Busy(occurrences, t)
    {
      CoveredBefore(conflicts, last, t);
      CoveredBefore(conflicts, c, t);
      if a <= t {
        BusyWhenTwoActive(active, occurrences, a, b, t);
      }
    }
  }

  // ---- The sweep ----

  /** Index `i` is where a group of simultaneous events begins, or the end of the list. */
  ghost predicate Boundary(events: seq<Event>, i: nat) {
    i <= |events| && (0 < i < |events| ==> events[i - 1].at < events[i].at)
  }

  /** The time the sweep looks at next; past the last event, any later time. */
  ghost predicate Frontier(events: seq<Event>, i: nat, t: int) {
    i <= |events| && if i < |events| then t == events[i].at else forall k :: 0 <= k < |events| ==> events[k].at < t
  }

  /** Every event lies before the group, in it, or no earlier than the next group. */
  lemma EventPlace(events: seq<Event>, i: nat, j: nat, b: int, e: Event)
    requires Sorted(events) && e in events
    requires i < j && Boundary(events, i) && Boundary(events, j) && Frontier(events, j, b)
    requires forall k :: i <= k < j ==> events[k].at == events[i].at
    ensures events[i].at < b
    ensures e.at <= events[i].at || b <= e.at
    ensures e.at == events[i].at ==> e in events[i..j]
  {
    var k :| 0 <= k < |events| && events[k] == e;
    if k < i {
      assert events[k].at <= events[i - 1].at;
    } else if k < j {
      assert events[i..j][k - i] == e;
    } else {
      assert events[j].at <= events[k].at;
    }
  }

  lemma CutGroup(events: seq<Event>, occurrences: seq<Occurrence>, i: nat, j: nat, b: int)
    requires Sorted(events) && EventsOf(events, occurrences)
    requires i < j && Boundary(events, i) && Boundary(events, j) && Frontier(events, j, b)
    requires forall k :: i <= k < j ==> events[k].at == events[i].at
    ensures GroupAt(events[i..j], occurrences, events[i].at)
    ensures Quiet(occurrences, events[i].at, b) && events[i].at < b
  {
    EventPlace(events, i, j, b, events[i]);
    forall o | o in occurrences
      ensures (o.start <= events[i].at || b <= o.start) && (o.end <= events[i].at || b <= o.end)
      ensures o.start == events[i].at ==> Event(o.start, true, o) in events[i..j]
      ensures o.end == events[i].at ==> Event(o.end, false, o) in events[i..j]
    {
      EventPlace(events, i, j, b, Event(o.start, true, o));
      EventPlace(events, i, j, b, Event(o.end, false, o));
    }
  }

  lemma NothingYet(events: seq<Event>, occurrences: seq<Occurrence>, t: int)
    requires Sorted(events) && EventsOf(events, occurrences) && Frontier(events, 0, t)
    ensures Tracks(map[], occurrences, t) && Found([], occurrences, t)
  {
    forall o | o in occurrences
      ensures t <= o.start
    {
      assert Event(o.start, true, o) in events;
    }
  }

  lemma NothingAfter(events: seq<Event>, occurrences: seq<Occurrence>, t: int)
    requires EventsOf(events, occurrences) && Frontier(events, |events|, t)
    ensures forall later :: t <= later ==> !Busy(occurrences, later)
  {
    forall o | o in occurrences
      ensures o.end < t
    {
      assert Event(o.end, false, o) in events;
    }
  }

  /**
   The conflicts of one resource: the maximal stretches of time during which two occurrences want it,
   each with exactly the occurrences that meet it.
   */
  ghost predicate Exact(conflicts: seq<Conflict>, occurrences: seq<Occurrence>) {
    && Separate(conflicts)
    && (forall k :: 0 <= k < |conflicts| ==> Lists(conflicts[k], occurrences))
    && (forall t :: Covered(conflicts, t) <==> Busy(occurrences, t))
  }

  function Opened(current: Option<Conflict>): seq<Conflict> {
    if current.Some? then [current.value] else []
  }

  method GroupEnd(events: seq<Event>, i: nat) returns (j: nat)
    requires i < |events| && Sorted(events)
    ensures i < j && Boundary(events, j)
    ensures forall k :: i <= k < j ==> events[k].at == events[i].at
  {
    j := i + 1;
    while j < |events| && events[j].at == events[i].at
      invariant i < j <= |events|
      invariant forall k :: i <= k < j ==> events[k].at == events[i].at
    {
      j := j + 1;
    }
  }

  /** What holds between two groups of events, `frontier` being the time of the next group. */
  ghost predicate Sweeping(
    occurrences: seq<Occurrence>, frontier: int, atEnd: bool,
    active: map<string, Occurrence>, current: Option<Conflict>, result: seq<Conflict>)
  {
    && Tracks(active, occurrences, frontier)
    && Found(result + Opened(current), occurrences, frontier)
    && (current.Some? ==> !atEnd && current.value.end == frontier)
    && (current.None? ==> forall k :: 0 <= k < |result| ==> result[k].end < frontier)
  }

  /** The rest of the loop body of `conflictsForResource`, once the active occurrences are updated. */
  method CloseOrExtend(
    ghost occurrences: seq<Occurrence>, at: int, nextAt: Option<int>, active: map<string, Occurrence>,
    before: Option<Conflict>, found: seq<Conflict>, ghost next: int)
      returns (current: Option<Conflict>, result: seq<Conflict>)
    requires Projected(occurrences) && at < next && Quiet(occurrences, at, next) && Tracks(active, occurrences, next)
    requires nextAt.Some? ==> nextAt.value == next
    requires nextAt.None? ==> |active| < 2
    requires Found(found + Opened(before), occurrences, at)
    requires before.Some? ==> before.value.end == at
    requires before.None? ==> forall k :: 0 <= k < |found| ==> found[k].end < at
    ensures Sweeping(occurrences, next, nextAt.None?, active, current, result)
  {
    current, result := before, found;
    if nextAt.None? || nextAt.value <= at || |active| < 2 {
      StaysIdle(found + Opened(before), occurrences, active, at, next);
      if current.Some? {
        result := result + [current.value];
        current := None;
      }
      assert result + Opened(None) == found + Opened(before);
    } else if current.None? {
      assert found + [] == found;
      Opens(found, occurrences, active, at, next);
      current := Some(Conflict(at, nextAt.value, active.Values));
    } else {
      Extends(found, before.value, occurrences, active, at, next);
      current := Some(Conflict(current.value.start, nextAt.value, current.value.occurrences + active.Values));
    }
  }

  /** The first half of the loop body: find the group of simultaneous events and update the active map. */
  method NextGroup(events: seq<Event>, ghost occurrences: seq<Occurrence>, i: nat, active: map<string, Occurrence>)
      returns (j: nat, updated: map<string, Occurrence>, nextAt: Option<int>, ghost next: int)
    requires Projected(occurrences) && Sorted(events) && EventsOf(events, occurrences)
    requires i < |events| && Boundary(events, i) && Tracks(active, occurrences, events[i].at)
    ensures i < j && Boundary(events, j) && Frontier(events, j, next)
    ensures events[i].at < next && Quiet(occurrences, events[i].at, next) && Tracks(updated, occurrences, next)
    ensures nextAt == if j < |events| then Some(next) else None
    ensures nextAt.None? ==> updated == map[]
  {
    j := GroupEnd(events, i);
    next := if j < |events| then events[j].at else events[i].at + 1;
    CutGroup(events, occurrences, i, j, next);
    GroupTracks(active, events[i..j], occurrences, events[i].at, next);
    updated := UpdateActive(active, events[i..j]);
    nextAt := if j < |events| then Some(events[j].at) else None;
    if j == |events| {
      LastGroupEndsAll(events, occurrences, updated, next);
    }
  }

  /** `conflictsForResource` */
  method ConflictsForResource(occurrences: seq<Occurrence>) returns (result: seq<Conflict>)
    requires Projected(occurrences)
    ensures Exact(result, occurrences)
  {
    var events := ProjectionEvents(occurrences);
    var active: map<string, Occurrence> := map[];
    var current: Option<Conflict> := None;
    result := [];
    var i := 0;
    ghost var frontier := if events == [] then 0 else events[0].at;
    NothingYet(events, occurrences, frontier);
    assert result + Opened(current) == [];
    while i < |events|
      invariant Boundary(events, i) && Frontier(events, i, frontier)
      invariant Sweeping(occurrences, frontier, i == |events|, active, current, result)
    {
      var j, updated, nextAt, next := NextGroup(events, occurrences, i, active);
      current, result := CloseOrExtend(occurrences, events[i].at, nextAt, updated, current, result, next);
      i, active, frontier := j, updated, next;
    }
    assert result + Opened(None) == result;
    NothingAfter(events, occurrences, frontier);
    FoundIsExact(result, occurrences, frontier);
  }

  lemma LastGroupEndsAll(events: seq<Event>, occurrences: seq<Occurrence>, active: map<string, Occurrence>, t: int)
    requires EventsOf(events, occurrences) && Frontier(events, |events|, t) && Tracks(active, occurrences, t)
    ensures active == map[]
  {
    forall o | o in occurrences
      ensures !Reaches(o, t)
    {
      assert Event(o.end, false, o) in events;
    }
  }

  lemma FoundIsExact(conflicts: seq<Conflict>, occurrences: seq<Occurrence>, upTo: int)
    requires Found(conflicts, occurrences, upTo)
    requires forall t :: upTo <= t ==> !Busy(occurrences, t)
    ensures Exact(conflicts, occurrences)
  {
    forall t
      ensures Covered(conflicts, t) <==> Busy(occurrences, t)
    {
    }
  }

  // ---- The answer is determined ----

  ghost predicate SameCover(a: seq<Conflict>, b: seq<Conflict>) {
    forall t :: Covered(a, t) <==> Covered(b, t)
  }

  lemma CoveredFrom(conflicts: seq<Conflict>, t: int)
    requires Separate(conflicts) && conflicts != [] && Covered(conflicts, t)
    ensures conflicts[0].start <= t
    ensures conflicts[0].end <= t ==> conflicts[0].end < t && Covered(conflicts[1..], t)
  {
    var k :| 0 <= k < |conflicts| && conflicts[k].Covers(t);
    if k > 0 {
      assert conflicts[0].start < conflicts[0].end < conflicts[k].start;
      assert conflicts[1..][k - 1] == conflicts[k];
    }
  }

  lemma CoveredByRest(conflicts: seq<Conflict>, t: int)
    requires Separate(conflicts) && conflicts != [] && Covered(conflicts[1..], t)
    ensures Covered(conflicts, t) && conflicts[0].end < t
  {
    var k :| 0 <= k < |conflicts[1..]| && conflicts[1..][k].Covers(t);
    assert conflicts[k + 1].Covers(t);
  }

  /** Two separated lists that cover the same times begin with the same stretch. */
  lemma FirstsAgree(a: seq<Conflict>, b: seq<Conflict>)
    requires Separate(a) && Separate(b) && SameCover(a, b) && a != []
    ensures b != [] && a[0].start >= b[0].start && a[0].end >= b[0].end
  {
    assert a[0].Covers(a[0].start) && Covered(a, a[0].start);
    CoveredFrom(b, a[0].start);
    if a[0].end < b[0].end {
      var t := a[0].end;
      assert b[0].Covers(t) && Covered(b, t);
      CoveredFrom(a, t);
    }
  }

  lemma {:induction false} CoverDetermines(a: seq<Conflict>, b: seq<Conflict>, k: nat)
    requires Separate(a) && Separate(b) && SameCover(a, b) && k < |a|
    ensures k < |b| && a[k].start == b[k].start && a[k].end == b[k].end
    decreases k
  {
    FirstsAgree(a, b);
    FirstsAgree(b, a);
    if k > 0 {
      forall t
        ensures Covered(a[1..], t) <==> Covered(b[1..], t)
      {
        if Covered(a[1..], t) {
          CoveredByRest(a, t);
          CoveredFrom(b, t);
        }
        if Covered(b[1..], t) {
          CoveredByRest(b, t);
          CoveredFrom(a, t);
        }
      }
      CoverDetermines(a[1..], b[1..], k - 1);
    }
  }

  /** There is one exact answer: any two exact lists of conflicts are the same list. */
  lemma ExactIsUnique(a: seq<Conflict>, b: seq<Conflict>, occurrences: seq<Occurrence>)
    requires Exact(a, occurrences) && Exact(b, occurrences)
    ensures a == b
  {
    forall k | 0 <= k < |a|
      ensures k < |b| && a[k] == b[k]
    {
      CoverDetermines(a, b, k);
      assert Lists(a[k], occurrences) && Lists(b[k], occurrences);
      assert a[k].occurrences == b[k].occurrences;
    }
    if a != [] {
      CoverDetermines(a, b, |a| - 1);
    }
    if b != [] {
      CoverDetermines(b, a, |b| - 1);
    }
    assert |a| == |b|;
  }

  // ---- What a conflict means for an occurrence ----

  ghost predicate Involved(conflicts: seq<Conflict>, o: Occurrence) {
    exists k :: 0 <= k < |conflicts| && o in conflicts[k].occurrences
  }

  ghost predicate Clashes(occurrences: seq<Occurrence>, o: Occurrence) {
    exists p :: p in occurrences && p != o && p.Overlaps(o)
  }

  lemma InvolvedMeansClashing(conflicts: seq<Conflict>, occurrences: seq<Occurrence>, o: Occurrence)
    requires Projected(occurrences) && Exact(conflicts, occurrences) && o in occurrences && Involved(conflicts, o)
    ensures Clashes(occurrences, o)
  {
    var k :| 0 <= k < |conflicts| && o in conflicts[k].occurrences;
    var c := conflicts[k];
    assert Lists(c, occurrences);
    var t := if o.start < c.start then c.start else o.start;
    assert c.Covers(t) && Covered(conflicts, t);
    var i, j :| 0 <= i < j < |occurrences| && occurrences[i].At(t) && occurrences[j].At(t);
    var p := if occurrences[i] == o then occurrences[j] else occurrences[i];
    assert p in occurrences && p != o && p.Overlaps(o);
  }

  lemma ClashingMeansBusy(occurrences: seq<Occurrence>, o: Occurrence, p: Occurrence)
    requires o in occurrences && p in occurrences && p != o && p.Overlaps(o)
    requires o.start < o.end && p.start < p.end
    ensures var t := if o.start < p.start then p.start else o.start;
            Busy(occurrences, t) && o.At(t)
  {
    var t := if o.start < p.start then p.start else o.start;
    var i :| 0 <= i < |occurrences| && occurrences[i] == o;
    var j :| 0 <= j < |occurrences| && occurrences[j] == p;
    var first, second := if i < j then i else j, if i < j then j else i;
    assert occurrences[first].At(t) && occurrences[second].At(t);
  }

  /** An occurrence is listed in some conflict exactly when another one overlaps it. */
  lemma InvolvedExactlyWhenClashing(conflicts: seq<Conflict>, occurrences: seq<Occurrence>, o: Occurrence)
    requires Projected(occurrences) && Exact(conflicts, occurrences) && o in occurrences
    ensures Involved(conflicts, o) <==> Clashes(occurrences, o)
  {
    if Involved(conflicts, o) {
      InvolvedMeansClashing(conflicts, occurrences, o);
    }
    if Clashes(occurrences, o) {
      var p :| p in occurrences && p != o && p.Overlaps(o);
      ClashingMeansBusy(occurrences, o, p);
      var t := if o.start < p.start then p.start else o.start;
      assert Covered(conflicts, t);
      var k :| 0 <= k < |conflicts| && conflicts[k].Covers(t);
      assert Lists(conflicts[k], occurrences);
    }
  }

  // ---- The whole projection ----

  /** An occurrence with the ids of the exclusive resources its task uses. */
  datatype Window = Window(occurrence: Occurrence, resources: set<string>)

  /** What `projectScheduleInput` promises, said of the windows. */
  ghost predicate ProjectedWindows(windows: seq<Window>) {
    && (forall i :: 0 <= i < |windows| ==> windows[i].occurrence.start < windows[i].occurrence.end)
    && (forall i, j :: 0 <= i < j < |windows| ==> windows[i].occurrence.id != windows[j].occurrence.id)
  }

  /** The occurrences among the first `n` windows that use one resource, in order. */
  function UsersTo(windows: seq<Window>, n: nat, resource: string): seq<Occurrence>
    requires n <= |windows|
  {
    if n == 0 then []
    else UsersTo(windows, n - 1, resource) + if resource in windows[n - 1].resources then [windows[n - 1].occurrence] else []
  }

  function UsersOf(windows: seq<Window>, resource: string): seq<Occurrence> {
    UsersTo(windows, |windows|, resource)
  }

  function Get(byResource: map<string, seq<Occurrence>>, resource: string): seq<Occurrence> {
    if resource in byResource then byResource[resource] else []
  }

  ghost predicate UsedAt(windows: seq<Window>, i: int, resource: string, o: Occurrence) {
    0 <= i < |windows| && windows[i].occurrence == o && resource in windows[i].resources
  }

  lemma {:induction false} UserAmong(windows: seq<Window>, n: nat, resource: string, o: Occurrence)
    requires n <= |windows|
    ensures o in UsersTo(windows, n, resource) <==> exists i :: 0 <= i < n && UsedAt(windows, i, resource, o)
  {
    if n > 0 {
      UserAmong(windows, n - 1, resource, o);
      assert UsedAt(windows, n - 1, resource, o) <==>
             windows[n - 1].occurrence == o && resource in windows[n - 1].resources;
    }
  }

  lemma UserIsWindow(windows: seq<Window>, resource: string, o: Occurrence)
    ensures o in UsersOf(windows, resource) <==>
            exists i :: 0 <= i < |windows| && windows[i].occurrence == o && resource in windows[i].resources
  {
    UserAmong(windows, |windows|, resource, o);
    if i :| 0 <= i < |windows| && windows[i].occurrence == o && resource in windows[i].resources {
      assert UsedAt(windows, i, resource, o);
    }
  }

  lemma {:induction false} UsersAmongProjected(windows: seq<Window>, n: nat, resource: string)
    requires n <= |windows| && ProjectedWindows(windows)
    ensures Projected(UsersTo(windows, n, resource))
  {
    if n > 0 {
      UsersAmongProjected(windows, n - 1, resource);
      var users := UsersTo(windows, n - 1, resource);
      forall k | 0 <= k < |users|
        ensures users[k].id != windows[n - 1].occurrence.id
      {
        UserAmong(windows, n - 1, resource, users[k]);
      }
    }
  }

  lemma UsersProjected(windows: seq<Window>, resource: string)
    requires ProjectedWindows(windows)
    ensures Projected(UsersOf(windows, resource))
  {
    UsersAmongProjected(windows, |windows|, resource);
  }

  /** Window `i` overlaps another window that needs one of its exclusive resources. */
  ghost predicate Contended(windows: seq<Window>, i: nat)
    requires i < |windows|
  {
    exists j, r :: 0 <= j < |windows| && j != i && r in windows[i].resources && r in windows[j].resources
                && windows[j].occurrence.Overlaps(windows[i].occurrence)
  }

  lemma ContendedByResource(windows: seq<Window>, i: nat)
    requires ProjectedWindows(windows) && i < |windows|
    ensures Contended(windows, i) <==>
            exists r :: r in windows[i].resources && Clashes(UsersOf(windows, r), windows[i].occurrence)
  {
    var o := windows[i].occurrence;
    if Contended(windows, i) {
      var j, r :| 0 <= j < |windows| && j != i && r in windows[i].resources && r in windows[j].resources
               && windows[j].occurrence.Overlaps(o);
      var p := windows[j].occurrence;
      UserIsWindow(windows, r, p);
      assert p in UsersOf(windows, r) && p != o && p.Overlaps(o);
    }
    if r :| r in windows[i].resources && Clashes(UsersOf(windows, r), o) {
      var p :| p in UsersOf(windows, r) && p != o && p.Overlaps(o);
      UserIsWindow(windows, r, p);
      var j :| 0 <= j < |windows| && windows[j].occurrence == p && r in windows[j].resources;
      assert j != i;
    }
  }

  method AddWindow(before: map<string, seq<Occurrence>>, window: Window) returns (byResource: map<string, seq<Occurrence>>)
    ensures forall r | r in window.resources :: Get(byResource, r) == Get(before, r) + [window.occurrence]
    ensures forall r | r !in window.resources :: Get(byResource, r) == Get(before, r)
  {
    byResource := before;
    var unvisited := window.resources;
    while unvisited != {}
      invariant unvisited <= window.resources
      invariant forall r | r in window.resources - unvisited :: Get(byResource, r) == Get(before, r) + [window.occurrence]
      invariant forall r | r !in window.resources - unvisited :: Get(byResource, r) == Get(before, r)
      decreases |unvisited|
    {
      var r := Pick(unvisited);
      byResource := byResource[r := Get(byResource, r) + [window.occurrence]];
      unvisited := unvisited - {r};
    }
  }

  /** Grouping the windows by resource, as the first loop of `BuildScheduleProjection` does. */
  method GroupByResource(windows: seq<Window>) returns (byResource: map<string, seq<Occurrence>>)
    ensures forall r :: Get(byResource, r) == UsersOf(windows, r)
  {
    byResource := map[];
    for i := 0 to |windows|
      invariant forall r :: Get(byResource, r) == UsersTo(windows, i, r)
    {
      byResource := AddWindow(byResource, windows[i]);
    }
  }

  ghost predicate FlaggedBy(conflicts: seq<Conflict>, id: string) {
    exists k, o :: 0 <= k < |conflicts| && o in conflicts[k].occurrences && o.id == id
  }

  method FlagConflicts(conflicts: seq<Conflict>, before: set<string>) returns (conflicted: set<string>)
    ensures forall id :: id in conflicted <==> id in before || FlaggedBy(conflicts, id)
  {
    conflicted := before;
    for k := 0 to |conflicts|
      invariant forall id :: id in conflicted <==> id in before || FlaggedBy(conflicts[..k], id)
    {
      var ids := set o | o in conflicts[k].occurrences :: o.id;
      forall id
        ensures FlaggedBy(conflicts[..k + 1], id) <==> FlaggedBy(conflicts[..k], id) || id in ids
      {
        FlaggedByOneMore(conflicts, k, id);
      }
      conflicted := conflicted + ids;
    }
    assert conflicts[..|conflicts|] == conflicts;
  }

  lemma FlaggedByOneMore(conflicts: seq<Conflict>, k: nat, id: string)
    requires k < |conflicts|
    ensures FlaggedBy(conflicts[..k + 1], id) <==>
            FlaggedBy(conflicts[..k], id) || id in (set o | o in conflicts[k].occurrences :: o.id)
  {
    var before, after := conflicts[..k], conflicts[..k + 1];
    if FlaggedBy(before, id) {
      var j, o :| 0 <= j < |before| && o in before[j].occurrences && o.id == id;
      assert after[j] == before[j];
    }
    if FlaggedBy(after, id) {
      var j, o :| 0 <= j < |after| && o in after[j].occurrences && o.id == id;
      if j < k {
        assert before[j] == after[j];
      }
    }
    if id in (set o | o in conflicts[k].occurrences :: o.id) {
      assert after[k] == conflicts[k];
    }
  }

  /** Flagging by id is flagging the occurrence: ids are unique. */
  lemma FlaggedIsInvolved(conflicts: seq<Conflict>, occurrences: seq<Occurrence>, windows: seq<Window>, r: string, i: nat)
    requires ProjectedWindows(windows) && i < |windows|
    requires occurrences == UsersOf(windows, r) && Exact(conflicts, occurrences)
    ensures FlaggedBy(conflicts, windows[i].occurrence.id) <==>
            r in windows[i].resources && Clashes(occurrences, windows[i].occurrence)
  {
    var o := windows[i].occurrence;
    UsersProjected(windows, r);
    UserIsWindow(windows, r, o);
    if r in windows[i].resources {
      InvolvedExactlyWhenClashing(conflicts, occurrences, o);
    }
    if FlaggedBy(conflicts, o.id) {
      var k, p :| 0 <= k < |conflicts| && p in conflicts[k].occurrences && p.id == o.id;
      assert Lists(conflicts[k], occurrences);
      UserIsWindow(windows, r, p);
      var j :| 0 <= j < |windows| && windows[j].occurrence == p && r in windows[j].resources;
      assert i == j;
    }
  }

  /**
   The part of `BuildScheduleProjection` after the windows are known: the conflicts of every resource, and
   the ids of the segments to mark. A segment is marked exactly when another one overlaps it and needs one
   of its exclusive resources.
   */
  method BuildProjection(windows: seq<Window>) returns (conflicts: map<string, seq<Conflict>>, conflicted: set<string>)
    requires ProjectedWindows(windows)
    ensures forall r :: r in conflicts ==> Exact(conflicts[r], UsersOf(windows, r))
    ensures forall r :: r !in conflicts ==> UsersOf(windows, r) == []
    ensures forall i :: 0 <= i < |windows| ==> (windows[i].occurrence.id in conflicted <==> Contended(windows, i))
  {
    var byResource := GroupByResource(windows);
    conflicts, conflicted := map[], {};
    var unvisited := byResource.Keys;
    while unvisited != {}
      invariant unvisited <= byResource.Keys
      invariant conflicts.Keys == byResource.Keys - unvisited
      invariant forall r :: r in conflicts ==> Exact(conflicts[r], UsersOf(windows, r))
      invariant forall id :: id in conflicted <==> Flagged(conflicts, id)
      decreases |unvisited|
    {
      var r := Pick(unvisited);
      assert byResource[r] == Get(byResource, r);
      UsersProjected(windows, r);
      var found := ConflictsForResource(byResource[r]);
      conflicted := FlagConflicts(found, conflicted);
      FlagsOfOneMore(conflicts, r, found);
      conflicts := conflicts[r := found];
      unvisited := unvisited - {r};
    }
    forall r | r !in conflicts
      ensures UsersOf(windows, r) == []
    {
      assert Get(byResource, r) == UsersOf(windows, r);
    }
    forall i | 0 <= i < |windows|
      ensures windows[i].occurrence.id in conflicted <==> Contended(windows, i)
    {
      MarkedExactlyWhenContended(windows, conflicts, i);
    }
  }

  ghost predicate Flagged(conflicts: map<string, seq<Conflict>>, id: string) {
    exists r :: r in conflicts && FlaggedBy(conflicts[r], id)
  }

  lemma FlagsOfOneMore(conflicts: map<string, seq<Conflict>>, r: string, found: seq<Conflict>)
    requires r !in conflicts
    ensures forall id :: Flagged(conflicts[r := found], id) <==> Flagged(conflicts, id) || FlaggedBy(found, id)
  {
    var more := conflicts[r := found];
    forall id
      ensures Flagged(more, id) <==> Flagged(conflicts, id) || FlaggedBy(found, id)
    {
      if q :| q in conflicts && FlaggedBy(conflicts[q], id) {
        assert q in more && FlaggedBy(more[q], id);
      }
      if FlaggedBy(found, id) {
        assert r in more && FlaggedBy(more[r], id);
      }
    }
  }

  lemma MarkedExactlyWhenContended(windows: seq<Window>, conflicts: map<string, seq<Conflict>>, i: nat)
    requires ProjectedWindows(windows) && i < |windows|
    requires forall r :: r in conflicts ==> Exact(conflicts[r], UsersOf(windows, r))
    requires forall r :: r !in conflicts ==> UsersOf(windows, r) == []
    ensures Flagged(conflicts, windows[i].occurrence.id) <==> Contended(windows, i)
  {
    var o := windows[i].occurrence;
    ContendedByResource(windows, i);
    if r :| r in conflicts && FlaggedBy(conflicts[r], o.id) {
      FlaggedIsInvolved(conflicts[r], UsersOf(windows, r), windows, r, i);
    }
    if r :| r in windows[i].resources && Clashes(UsersOf(windows, r), o) {
      assert r in conflicts;
      FlaggedIsInvolved(conflicts[r], UsersOf(windows, r), windows, r, i);
    }
  }
}
