/**
 The queue of due schedules: a claim takes any schedule whose fire time has come and catches it up past
 the present in steps of its interval.
 Source: backend/internal/controlplane/due.go. Times and intervals are nanoseconds.
 */
module DueSchedules {
  import opened Arithmetic
  import opened Common
  import opened Sets

  datatype Schedule = Schedule(id: string, nextFire: int, interval: int, occurrenceAt: int) {
    predicate IsDue(now: int) {
      nextFire <= now
    }
  }

  type Items = map<string, Schedule>

  ghost predicate ValidItems(items: Items) {
    forall id :: id in items ==> items[id].id == id && items[id].interval > 0
  }

  /** Where catching up from `next` past `now` ends. */
  function Advance(next: int, interval: int, now: int): int
    requires interval > 0
  {
    if next > now then next else next + ((now - next) / interval + 1) * interval
  }

  /** The fire time `k` intervals after `next`. */
  function GridPoint(next: int, interval: int, k: nat): int {
    next + k * interval
  }

  /** Catching up reaches the least point of the schedule's own grid that is later than `now`. */
  lemma AdvanceIsLeast(next: int, interval: int, now: int, k: nat)
    requires interval > 0
    ensures Advance(next, interval, now) > now
    ensures exists steps: nat :: Advance(next, interval, now) == GridPoint(next, interval, steps)
    ensures GridPoint(next, interval, k) > now ==> Advance(next, interval, now) <= GridPoint(next, interval, k)
  {
    if next > now {
      assert Advance(next, interval, now) == GridPoint(next, interval, 0);
      MulMonotone(0, k, interval);
    } else {
      var q := (now - next) / interval;
      assert q * interval <= now - next < q * interval + interval;
      assert Advance(next, interval, now) == GridPoint(next, interval, q + 1);
      if k <= q {
        MulMonotone(k, q, interval);
      } else {
        MulMonotone(q + 1, k, interval);
      }
    }
  }

  lemma AdvanceOnce(next: int, interval: int, now: int)
    requires interval > 0 && next <= now
    ensures Advance(next + interval, interval, now) == Advance(next, interval, now)
  {
    var q := (now - next) / interval;
    assert q * interval <= now - next < q * interval + interval;
    if next + interval > now {
      assert q == 0;
    } else {
      DivisionUnique(now - next - interval, interval, q - 1);
      assert (now - next - interval) / interval == q - 1;
      assert (q - 1 + 1) * interval + interval == (q + 1) * interval;
    }
  }

  class DueScheduleQueue {
    var items: Items

    constructor ()
      ensures items == map[]
    {
      items := map[];
    }

    method Add(schedule: Schedule)
      modifies this
      ensures items == Added(old(items), schedule)
      ensures items == if schedule.id != "" && schedule.interval > 0 then old(items)[schedule.id := schedule] else old(items)
    {
      if schedule.id == "" || schedule.interval <= 0 {
        return;
      }
      items := items[schedule.id := schedule];
    }

    /** The loop that advances `NextFire`. */
    method CatchUp(next: int, interval: int, now: int) returns (advanced: int)
      requires interval > 0
      ensures advanced == Advance(next, interval, now)
    {
      advanced := next;
      while advanced <= now
        invariant Advance(advanced, interval, now) == Advance(next, interval, now)
        decreases now - advanced
      {
        AdvanceOnce(advanced, interval, now);
        advanced := advanced + interval;
      }
    }

    /** `Claim`: ranges over the map in no particular order and takes the first due schedule it meets. */
    method Claim(now: int) returns (claimed: Option<Schedule>)
      requires ValidItems(items)
      modifies this
      ensures claimed.Some? ==>
                && claimed.value.id in old(items) && old(items)[claimed.value.id].nextFire <= now
                && items == Claimed(old(items), claimed.value.id, now)
                && claimed.value == items[claimed.value.id].(occurrenceAt := old(items)[claimed.value.id].nextFire)
      ensures claimed.None? ==> items == old(items) && forall id :: id in items ==> items[id].nextFire > now
    {
      var unvisited := items.Keys;
      while unvisited != {}
        invariant unvisited <= items.Keys && items == old(items)
        invariant forall id :: id in items && id !in unvisited ==> !items[id].IsDue(now)
        decreases |unvisited|
      {
        var id := Pick(unvisited);
        var schedule := items[id];
        if schedule.nextFire <= now {
          var occurrence := schedule.nextFire;
          var next := CatchUp(schedule.nextFire, schedule.interval, now);
          schedule := schedule.(nextFire := next);
          items := items[id := schedule];
          return Some(schedule.(occurrenceAt := occurrence));
        }
        unvisited := unvisited - {id};
      }
      claimed := None;
    }
  }

  function Added(items: Items, schedule: Schedule): Items {
    if schedule.id == "" || schedule.interval <= 0 then items else items[schedule.id := schedule]
  }

  function Claimed(items: Items, id: string, now: int): Items
    requires id in items && items[id].interval > 0
  {
    items[id := items[id].(nextFire := Advance(items[id].nextFire, items[id].interval, now))]
  }

  // ---- Draining at one instant ----

  function Due(items: Items, now: int): set<string> {
    set id | id in items && items[id].IsDue(now)
  }

  /** The claims taken one after another at `now`, in the order `ids`; none is possible unless due. */
  ghost predicate CanDrain(items: Items, now: int, ids: seq<string>)
    requires ValidItems(items)
    decreases |ids|
  {
    ids != [] ==> ids[0] in Due(items, now) && CanDrain(Claimed(items, ids[0], now), now, ids[1..])
  }

  function Drained(items: Items, now: int, ids: seq<string>): (r: Items)
    requires ValidItems(items) && CanDrain(items, now, ids)
    ensures ValidItems(r)
    decreases |ids|
  {
    if ids == [] then items else Drained(Claimed(items, ids[0], now), now, ids[1..])
  }

  lemma ClaimRemovesDue(items: Items, now: int, id: string)
    requires ValidItems(items) && id in Due(items, now)
    ensures ValidItems(Claimed(items, id, now))
    ensures Due(Claimed(items, id, now), now) == Due(items, now) - {id}
  {
    AdvanceIsLeast(items[id].nextFire, items[id].interval, now, 0);
  }

  /** Each claim at one instant takes a different due schedule out of those that were due. */
  lemma {:induction false} DrainRemoves(items: Items, now: int, ids: seq<string>)
    requires ValidItems(items) && CanDrain(items, now, ids)
    ensures forall k :: 0 <= k < |ids| ==> ids[k] in Due(items, now)
    ensures forall k, m :: 0 <= k < m < |ids| ==> ids[k] != ids[m]
    ensures forall id :: id in Due(Drained(items, now, ids), now) <==> id in Due(items, now) && id !in ids
    decreases |ids|
  {
    if ids != [] {
      var rest := ids[1..];
      ClaimRemovesDue(items, now, ids[0]);
      DrainRemoves(Claimed(items, ids[0], now), now, rest);
      assert forall k :: 1 <= k < |ids| ==> ids[k] == rest[k - 1];
      assert forall id :: id in ids <==> id == ids[0] || id in rest;
    }
  }

  /**
   Repeated claims at one instant return each due schedule exactly once, in any order, and stop when
   none is left: the claims stop exactly when every schedule due at the start has been claimed.
   */
  lemma ExactlyOnceDrain(items: Items, now: int, ids: seq<string>)
    requires ValidItems(items) && CanDrain(items, now, ids)
    ensures forall k, m :: 0 <= k < m < |ids| ==> ids[k] != ids[m]
    ensures Due(Drained(items, now, ids), now) == {} <==> (set id | id in ids) == Due(items, now)
  {
    DrainRemoves(items, now, ids);
    var left, taken := Due(Drained(items, now, ids), now), set id | id in ids;
    forall id
      ensures id in taken ==> id in Due(items, now)
      ensures id in Due(items, now) ==> id in left || id in taken
      ensures id in left ==> id !in taken
    {
    }
  }

  // ---- Whole runs ----

  datatype Event = EvAdd(schedule: Schedule) | EvClaim(now: int, id: string)

  ghost predicate Possible(items: Items, e: Event) {
    e.EvClaim? ==> e.id in Due(items, e.now)
  }

  ghost function Apply(items: Items, e: Event): (r: Items)
    requires ValidItems(items) && Possible(items, e)
    ensures ValidItems(r)
  {
    match e
    case EvAdd(schedule) => Added(items, schedule)
    case EvClaim(now, id) => Claimed(items, id, now)
  }

  ghost predicate Feasible(events: seq<Event>)
    decreases |events|, 0
  {
    events != [] ==>
      && Feasible(events[..|events| - 1])
      && Possible(After(events[..|events| - 1]), events[|events| - 1])
  }

  /** The queue after a run that began empty. */
  ghost function After(events: seq<Event>): (items: Items)
    requires Feasible(events)
    ensures ValidItems(items)
    decreases |events|, 1
  {
    if events == [] then map[] else Apply(After(events[..|events| - 1]), events[|events| - 1])
  }

  lemma {:induction false} PrefixFeasible(events: seq<Event>, k: nat)
    requires Feasible(events) && k <= |events|
    ensures Feasible(events[..k])
    decreases |events|
  {
    if k < |events| {
      PrefixFeasible(events[..|events| - 1], k);
      assert events[..|events| - 1][..k] == events[..k];
    } else {
      assert events[..k] == events;
    }
  }

  /** Between positions `i` and `j` the schedule is never added again. */
  ghost predicate NotReadded(events: seq<Event>, i: nat, j: nat, id: string)
    requires j <= |events|
  {
    forall k :: i <= k < j && events[k].EvAdd? ==> events[k].schedule.id != id
  }

  /** From one point of the grid on: the same interval, no earlier, and a whole number of steps later. */
  ghost predicate OnGrid(s: Schedule, from: int, interval: int) {
    s.interval == interval && exists steps: nat :: s.nextFire == GridPoint(from, interval, steps)
  }

  lemma AdvanceStaysOnGrid(s: Schedule, from: int, now: int)
    requires s.interval > 0 && OnGrid(s, from, s.interval)
    ensures OnGrid(s.(nextFire := Advance(s.nextFire, s.interval, now)), from, s.interval)
  {
    AdvanceIsLeast(s.nextFire, s.interval, now, 0);
    var a: nat :| s.nextFire == GridPoint(from, s.interval, a);
    var b: nat :| Advance(s.nextFire, s.interval, now) == GridPoint(s.nextFire, s.interval, b);
    assert (a + b) * s.interval == a * s.interval + b * s.interval;
    assert Advance(s.nextFire, s.interval, now) == GridPoint(from, s.interval, a + b);
  }

  lemma {:induction false} StaysOnGrid(events: seq<Event>, i: nat, id: string, from: int, interval: int)
    requires Feasible(events) && i <= |events| && NotReadded(events, i, |events|, id)
    requires Feasible(events[..i])
    requires id in After(events[..i]) && OnGrid(After(events[..i])[id], from, interval)
    ensures id in After(events) && OnGrid(After(events)[id], from, interval)
    decreases |events|
  {
    if i < |events| {
      var init, last := events[..|events| - 1], events[|events| - 1];
      assert init[..i] == events[..i];
      StaysOnGrid(init, i, id, from, interval);
      if last.EvClaim? && last.id == id {
        AdvanceStaysOnGrid(After(init)[id], from, last.now);
      }
    } else {
      assert events[..i] == events;
    }
  }

  /** The fire time that the claim at position `k` hands out. */
  ghost function Occurrence(events: seq<Event>, k: nat): int
    requires k < |events| && Feasible(events[..k]) && Possible(After(events[..k]), events[k]) && events[k].EvClaim?
  {
    After(events[..k])[events[k].id].nextFire
  }

  lemma EventPossible(events: seq<Event>, k: nat)
    requires Feasible(events) && k < |events|
    ensures Feasible(events[..k]) && Possible(After(events[..k]), events[k])
  {
    PrefixFeasible(events, k);
    PrefixFeasible(events, k + 1);
    assert events[..k + 1][..k] == events[..k];
  }

  /**
   Over a whole run, as long as a schedule is not added again, its occurrence times strictly increase
   and stay on one grid: an occurrence is no later than the claim that hands it out, and the next one is
   later than that claim by the clock it used.
   */
  lemma OccurrencesIncrease(events: seq<Event>, i: nat, j: nat, id: string)
    requires Feasible(events) && i < j < |events| && NotReadded(events, i, j, id)
    requires events[i].EvClaim? && events[i].id == id && events[j].EvClaim? && events[j].id == id
    ensures Feasible(events[..i]) && Possible(After(events[..i]), events[i])
    ensures Feasible(events[..j]) && Possible(After(events[..j]), events[j])
    ensures Occurrence(events, i) <= events[i].now < Occurrence(events, j) <= events[j].now
    ensures OnGrid(After(events[..j])[id], Occurrence(events, i), After(events[..i])[id].interval)
  {
    EventPossible(events, i);
    EventPossible(events, j);
    var s := After(events[..i])[id];
    PrefixFeasible(events, i + 1);
    assert events[..i + 1][..i] == events[..i];
    var claimed := After(events[..i + 1])[id];
    assert s.nextFire == GridPoint(s.nextFire, s.interval, 0);
    AdvanceStaysOnGrid(s, s.nextFire, events[i].now);
    AdvanceIsLeast(s.nextFire, s.interval, events[i].now, 0);
    assert claimed.nextFire == GridPoint(claimed.nextFire, s.interval, 0);
    var run := events[..j];
    assert run[..i + 1] == events[..i + 1];
    StaysOnGrid(run, i + 1, id, s.nextFire, s.interval);
    StaysOnGrid(run, i + 1, id, claimed.nextFire, s.interval);
    var steps: nat :| After(run)[id].nextFire == GridPoint(claimed.nextFire, s.interval, steps);
    MulMonotone(0, steps, s.interval);
  }
}
