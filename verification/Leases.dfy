/**
 Exclusive resource leases with fencing tokens, over every run of the in-memory service.
 Times are nanoseconds since the Unix epoch; the clock is read before the lock is taken.
 Source: backend/internal/api/infrastructure.go, AcquireLease to resourceLeaseActive.
 */
module Leases {
  import opened Common
  import opened Text
  import opened Durations
  import opened Calendar

  /** 0000-01-01T00:00:00Z and 10000-01-01T00:00:00Z: RFC 3339 writes the year in four digits. */
  const FIRST_SECOND: int := -62_167_219_200
  const END_SECOND: int := 253_402_300_800

  /** The two bounds are the first seconds of the years 0 and 10000, counted in days of the calendar from the Unix epoch. */
  lemma BoundsAreYears()
    ensures FIRST_SECOND == (ClosedForm(0) - ClosedForm(1970)) * 86_400
    ensures END_SECOND == (ClosedForm(10_000) - ClosedForm(1970)) * 86_400
  {
  }

  type Outcome<T> = Result<T, Error>
  datatype Error = InvalidLease | ResourceNotFound | LeaseConflict | LeaseOwner | ResourceInUse

  /** A stored RFC 3339 timestamp in UTC, without a fraction, or the empty string. */
  datatype Stamp = Blank | At(second: int)

  function Format(time: int): Stamp {
    At(time / SECOND)
  }

  /** `time.Parse(time.RFC3339, ...)`; a year outside four digits does not parse. */
  function Parse(stamp: Stamp): Option<int> {
    if stamp.At? && FIRST_SECOND <= stamp.second < END_SECOND then Some(stamp.second * SECOND) else None
  }

  type Id = string

  datatype Resource = Resource(holder: string, expiresAt: Stamp, fencingToken: int, activeReferences: nat)

  type Resources = map<Id, Resource>

  /** A resource as it is created: free, and with no token issued. */
  const NEW_RESOURCE := Resource("", Blank, 0, 0)

  /** `resourceLeaseActive` */
  predicate LeaseActive(item: Resource, now: int) {
    if item.holder == "" then false
    else
      var expires := Parse(item.expiresAt);
      expires.None? || now < expires.value
  }

  function Granted(item: Resource, holder: string, ttl: Duration, now: int): Resource {
    Resource(holder, Format(now + ttl), item.fencingToken + 1, item.activeReferences)
  }

  /** The duration `acquireResourceLease` asks for; a missing or zero number of seconds means thirty. */
  function RequestedTtl(ttlSeconds: int): Duration {
    Seconds(if ttlSeconds == 0 then 30 else ttlSeconds)
  }

  /** `AcquireLease` */
  function Acquire(resources: Resources, id: Id, holder: string, ttl: Duration, now: int): (Resources, Outcome<Resource>) {
    if TrimSpace(holder) == "" || ttl <= 0 then (resources, Err(InvalidLease))
    else if id !in resources then (resources, Err(ResourceNotFound))
    else if LeaseActive(resources[id], now) then (resources, Err(LeaseConflict))
    else
      var item := Granted(resources[id], holder, ttl, now);
      (resources[id := item], Ok(item))
  }

  /** `ReleaseLease` */
  function Release(resources: Resources, id: Id, holder: string, token: int): (Resources, Outcome<()>) {
    if id !in resources then (resources, Err(ResourceNotFound))
    else if resources[id].holder != holder || resources[id].fencingToken != token then (resources, Err(LeaseOwner))
    else (resources[id := resources[id].(holder := "", expiresAt := Blank)], Ok(()))
  }

  /** The DELETE branch of `resourceInMemoryPath` */
  function Delete(resources: Resources, id: Id, now: int): (Resources, Outcome<()>) {
    if id !in resources then (resources, Err(ResourceNotFound))
    else if resources[id].activeReferences > 0 || LeaseActive(resources[id], now) then (resources, Err(ResourceInUse))
    else (resources - {id}, Ok(()))
  }

  // ---- How long a lease blocks others ----

  /** Whether a lease granted at `now` for `ttl` gets an expiry that can be read back. */
  predicate Representable(now: int, ttl: Duration) {
    FIRST_SECOND * SECOND <= now + ttl < END_SECOND * SECOND
  }

  /**
   A lease of duration `ttl` blocks for more than `ttl` less one second and at most `ttl`, because the
   stored expiry drops the fraction of a second; an expiry outside the four-digit years blocks forever.
   */
  lemma LeaseLifetime(item: Resource, holder: string, ttl: Duration, now: int, later: int)
    requires holder != ""
    ensures var granted := Granted(item, holder, ttl, now);
            && (!Representable(now, ttl) ==> LeaseActive(granted, later))
            && (Representable(now, ttl) ==>
                  && (LeaseActive(granted, later) ==> later < now + ttl)
                  && (later <= now + ttl - SECOND ==> LeaseActive(granted, later)))
  {
    var second := (now + ttl) / SECOND;
    assert second * SECOND <= now + ttl < second * SECOND + SECOND;
  }

  /** A readable lease blocks exactly until the last whole second of its duration. */
  lemma ActiveUntilWholeSecond(item: Resource, holder: string, ttl: Duration, now: int, later: int)
    requires holder != "" && Representable(now, ttl)
    ensures LeaseActive(Granted(item, holder, ttl, now), later) <==> later < (now + ttl) / SECOND * SECOND
  {
  }

  /** A lease protects its holder for the whole of its duration exactly when that ends on a whole second. */
  lemma FullyProtected(item: Resource, holder: string, ttl: Duration, now: int)
    requires holder != "" && ttl > 0 && Representable(now, ttl)
    ensures (forall later :: now <= later < now + ttl ==> LeaseActive(Granted(item, holder, ttl, now), later)) <==>
            (now + ttl) % SECOND == 0
  {
    var end := now + ttl;
    ActiveUntilWholeSecond(item, holder, ttl, now, end - 1);
    forall later | now <= later < end && end % SECOND == 0
      ensures LeaseActive(Granted(item, holder, ttl, now), later)
    {
      ActiveUntilWholeSecond(item, holder, ttl, now, later);
    }
  }

  /** A lease blocks nobody exactly when no whole second lies within its duration. */
  lemma BlocksNobody(item: Resource, holder: string, ttl: Duration, now: int)
    requires holder != "" && ttl > 0
    ensures (forall later :: now <= later ==> !LeaseActive(Granted(item, holder, ttl, now), later)) <==>
            Representable(now, ttl) && (now + ttl) / SECOND * SECOND <= now
    ensures Representable(now, ttl) && (now + ttl) / SECOND * SECOND <= now ==> ttl < SECOND
  {
    if Representable(now, ttl) {
      ActiveUntilWholeSecond(item, holder, ttl, now, now);
      forall later | now <= later && (now + ttl) / SECOND * SECOND <= now
        ensures !LeaseActive(Granted(item, holder, ttl, now), later)
      {
        ActiveUntilWholeSecond(item, holder, ttl, now, later);
      }
    } else {
      LeaseLifetime(item, holder, ttl, now, now);
    }
  }

  /** A request for a number of seconds that fits gets that duration, and then blocks at least at once. */
  lemma RequestedLeaseBlocks(item: Resource, holder: string, ttlSeconds: int, now: int)
    requires holder != "" && 0 <= ttlSeconds <= MAX_DURATION / SECOND
    ensures RequestedTtl(ttlSeconds) == (if ttlSeconds == 0 then 30 else ttlSeconds) * SECOND
    ensures LeaseActive(Granted(item, holder, RequestedTtl(ttlSeconds), now), now)
  {
    SecondsExact(if ttlSeconds == 0 then 30 else ttlSeconds);
    LeaseLifetime(item, holder, RequestedTtl(ttlSeconds), now, now);
  }

  /** A lease of one second that blocks for one nanosecond. */
  lemma OneSecondCanLastOneNanosecond(item: Resource)
    ensures var granted := Granted(item, "a", RequestedTtl(1), 999_999_999);
            LeaseActive(granted, 999_999_999) && !LeaseActive(granted, 1_000_000_000)
  {
  }

  /** A number of seconds that wraps around to 512 nanoseconds: two holders get the resource at one instant. */
  lemma TwoHoldersAtOnce(id: Id)
    ensures RequestedTtl(20_211_507_185_753_197) == 512
    ensures var ttl := RequestedTtl(20_211_507_185_753_197);
            var (resources, first) := Acquire(map[id := NEW_RESOURCE], id, "a", ttl, 100);
            first.Ok? && Acquire(resources, id, "b", ttl, 100).1.Ok?
  {
    assert TrimSpace("a") == "a" && TrimSpace("b") == "b" by {
      TrimTrims(IsSpace, "a");
      TrimTrims(IsSpace, "b");
    }
  }

  /** Clock readings from which no duration leads out of the four-digit years; the last is in the year 9707. */
  predicate OrdinaryClock(now: int) {
    FIRST_SECOND * SECOND <= now && now + MAX_DURATION < END_SECOND * SECOND
  }

  /** Every lease that lasts beyond all clocks was granted at a clock reading outside the ordinary ones; there is one. */
  lemma EndlessNeedsOddClock(item: Resource, holder: string, ttl: Duration, now: int)
    requires holder != "" && ttl > 0
    ensures (forall later :: LeaseActive(Granted(item, holder, ttl, now), later)) ==> !OrdinaryClock(now)
    ensures var odd := END_SECOND * SECOND - MAX_DURATION;
            !OrdinaryClock(odd) && forall later :: LeaseActive(Granted(item, holder, MAX_DURATION, odd), later)
  {
    LeaseLifetime(item, holder, ttl, now, now + ttl);
    var odd := END_SECOND * SECOND - MAX_DURATION;
    forall later
      ensures LeaseActive(Granted(item, holder, MAX_DURATION, odd), later)
    {
      LeaseLifetime(item, holder, MAX_DURATION, odd, later);
    }
  }

  // ---- Runs ----

  /** A grant as the history remembers it: when it was made, when it ends, when it was given back. */
  datatype Grant = Grant(id: Id, holder: string, token: int, ttl: Duration, read: int, at: int, expires: Option<int>, released: Option<int>) {
    ghost predicate EndedBy(time: int) {
      (released.Some? && released.value <= time) || (expires.Some? && expires.value <= time)
    }

    /** Released by then, or within a second of the end of the duration it was given, or past a whole-second end. */
    ghost predicate OverInTime(time: int) {
      || (released.Some? && released.value <= time)
      || (read + ttl - SECOND < time && ((read + ttl) % SECOND == 0 ==> read + ttl <= time))
    }
  }

  datatype Operation =
    | OpCreate(id: Id)
    | OpAcquire(id: Id, holder: string, ttl: Duration)
    | OpRelease(id: Id, holder: string, token: int)
    | OpDelete(id: Id)

  /** `read` is the clock reading the operation works with, `at` the moment it holds the lock. */
  datatype Event = Event(op: Operation, read: int, at: int)

  datatype World = World(
    resources: Resources,
    used: set<Id>,
    grants: seq<Grant>,
    last: map<Id, nat>,
    clock: int)

  /** Locks are taken in order of time, clocks are read before, and created ids are fresh. */
  ghost predicate Possible(w: World, e: Event) {
    w.clock <= e.at && e.read <= e.at && (e.op.OpCreate? ==> e.op.id !in w.used)
  }

  ghost function Step(w: World, e: Event): World {
    var w := w.(clock := e.at);
    match e.op
    case OpCreate(id) =>
      w.(resources := w.resources[id := NEW_RESOURCE], used := w.used + {id})
    case OpAcquire(id, holder, ttl) =>
      var (resources, result) := Acquire(w.resources, id, holder, ttl, e.read);
      if result.Err? then w
      else
        var item := result.value;
        var grant := Grant(id, holder, item.fencingToken, ttl, e.read, e.at, Parse(item.expiresAt), None);
        w.(resources := resources, grants := w.grants + [grant], last := w.last[id := |w.grants|])
    case OpRelease(id, holder, token) =>
      var (resources, result) := Release(w.resources, id, holder, token);
      if result.Err? then w
      else if w.resources[id].holder != "" && id in w.last && w.last[id] < |w.grants| then
        var i := w.last[id];
        w.(resources := resources, grants := w.grants[i := w.grants[i].(released := Some(e.at))])
      else w.(resources := resources)
    case OpDelete(id) =>
      w.(resources := Delete(w.resources, id, e.read).0)
  }

  /** The service starts empty at time `start`. */
  ghost function Run(start: int, events: seq<Event>): World
    decreases |events|
  {
    if events == [] then World(map[], {}, [], map[], start)
    else Step(Run(start, events[..|events| - 1]), events[|events| - 1])
  }

  ghost predicate Feasible(start: int, events: seq<Event>)
    decreases |events|
  {
    events != [] ==>
      && Feasible(start, events[..|events| - 1])
      && Possible(Run(start, events[..|events| - 1]), events[|events| - 1])
  }

  function Count(grants: seq<Grant>, id: Id): nat {
    if grants == [] then 0
    else Count(grants[..|grants| - 1], id) + if grants[|grants| - 1].id == id then 1 else 0
  }

  // ---- The invariant ----

  /** What the record of a resource says about the last grant of it. */
  ghost predicate Agrees(item: Resource, grant: Grant) {
    && grant.token == item.fencingToken
    && (item.holder == "" ==> grant.released.Some?)
    && (item.holder != "" ==>
          grant.holder == item.holder && grant.released.None? && grant.expires == Parse(item.expiresAt) && item.expiresAt.At?)
  }

  ghost predicate RecordOk(w: World, id: Id)
    requires id in w.resources
  {
    var item := w.resources[id];
    && item.fencingToken == Count(w.grants, id)
    && (if id in w.last then w.last[id] < |w.grants| && w.grants[w.last[id]].id == id && Agrees(item, w.grants[w.last[id]])
        else item.fencingToken == 0 && item.holder == "")
  }

  ghost predicate GrantOk(w: World, i: nat)
    requires i < |w.grants|
  {
    var g := w.grants[i];
    && g.id in w.last && i <= w.last[g.id]
    && g.read <= g.at <= w.clock
    && g.expires == Parse(Format(g.read + g.ttl))
    && (g.released.Some? ==> g.released.value <= w.clock)
    && g.token == Count(w.grants[..i], g.id) + 1
    && ((g.id in w.resources && i == w.last[g.id]) || g.EndedBy(w.clock))
  }

  /** Two leases of one resource: the earlier one was over before the later one was granted. */
  ghost predicate Apart(earlier: Grant, later: Grant) {
    earlier.id == later.id ==> earlier.token < later.token && earlier.EndedBy(later.at)
  }

  ghost predicate Inv(w: World) {
    && w.resources.Keys <= w.used && w.last.Keys <= w.used
    && (forall id :: id in w.resources ==> RecordOk(w, id))
    && (forall i :: 0 <= i < |w.grants| ==> GrantOk(w, i))
    && (forall i, j :: 0 <= i < j < |w.grants| ==> Apart(w.grants[i], w.grants[j]))
  }

  lemma TickKeepsInv(w: World, at: int)
    requires Inv(w) && w.clock <= at
    ensures Inv(w.(clock := at))
  {
    var v := w.(clock := at);
    forall id | id in v.resources
      ensures RecordOk(v, id)
    {
      assert RecordOk(w, id);
    }
    forall i | 0 <= i < |v.grants|
      ensures GrantOk(v, i)
    {
      assert GrantOk(w, i);
    }
  }

  lemma CreateKeepsInv(w: World, id: Id)
    requires Inv(w) && id !in w.used
    ensures Inv(w.(resources := w.resources[id := NEW_RESOURCE], used := w.used + {id}))
  {
    var v := w.(resources := w.resources[id := NEW_RESOURCE], used := w.used + {id});
    NeverGranted(w, id, |w.grants|);
    assert w.grants[..|w.grants|] == w.grants;
    forall other | other in v.resources
      ensures RecordOk(v, other)
    {
      if other != id {
        assert RecordOk(w, other);
      }
    }
    forall i | 0 <= i < |v.grants|
      ensures GrantOk(v, i)
    {
      assert GrantOk(w, i);
    }
  }

  lemma {:induction false} NeverGranted(w: World, id: Id, n: nat)
    requires Inv(w) && id !in w.used && n <= |w.grants|
    ensures Count(w.grants[..n], id) == 0
  {
    if n > 0 {
      NeverGranted(w, id, n - 1);
      assert GrantOk(w, n - 1);
      assert w.grants[..n][..n - 1] == w.grants[..n - 1];
    }
  }

  lemma DeleteKeepsInv(w: World, id: Id, read: int)
    requires Inv(w) && read <= w.clock
    ensures Inv(w.(resources := Delete(w.resources, id, read).0))
  {
    var v := w.(resources := Delete(w.resources, id, read).0);
    forall other | other in v.resources
      ensures RecordOk(v, other)
    {
      assert RecordOk(w, other);
    }
    forall i | 0 <= i < |v.grants|
      ensures GrantOk(v, i)
    {
      assert GrantOk(w, i);
      if w.grants[i].id == id && id in w.resources {
        assert RecordOk(w, id);
      }
    }
  }

  /** Marking the last grant of a held resource as released and clearing the record. */
  lemma GivingBackKeepsInv(w: World, id: Id)
    requires Inv(w) && id in w.resources && w.resources[id].holder != ""
    ensures id in w.last && w.last[id] < |w.grants|
    ensures var k := w.last[id];
            Inv(w.(resources := w.resources[id := w.resources[id].(holder := "", expiresAt := Blank)],
                   grants := w.grants[k := w.grants[k].(released := Some(w.clock))]))
  {
    assert RecordOk(w, id);
    var k := w.last[id];
    var v := w.(resources := w.resources[id := w.resources[id].(holder := "", expiresAt := Blank)],
                grants := w.grants[k := w.grants[k].(released := Some(w.clock))]);
    SameIdsSameCounts(w.grants, v.grants);
    forall other | other in v.resources
      ensures RecordOk(v, other)
    {
      assert RecordOk(w, other);
    }
    forall i | 0 <= i < |v.grants|
      ensures GrantOk(v, i)
    {
      assert GrantOk(w, i);
      SameIdsSameCounts(w.grants[..i], v.grants[..i]);
    }
    ReleasedStaysApart(w, k);
  }

  lemma ReleasedStaysApart(w: World, k: nat)
    requires Inv(w) && k < |w.grants| && w.grants[k].released.None?
    ensures var grants := w.grants[k := w.grants[k].(released := Some(w.clock))];
            forall i, j :: 0 <= i < j < |grants| ==> Apart(grants[i], grants[j])
  {
    var grants := w.grants[k := w.grants[k].(released := Some(w.clock))];
    forall i, j | 0 <= i < j < |grants|
      ensures Apart(grants[i], grants[j])
    {
      assert Apart(w.grants[i], w.grants[j]);
    }
  }

  lemma ReleaseKeepsInv(w: World, id: Id, holder: string, token: int, read: int)
    requires Inv(w)
    ensures Inv(Step(w, Event(OpRelease(id, holder, token), read, w.clock)))
  {
    var v := Step(w, Event(OpRelease(id, holder, token), read, w.clock));
    if Release(w.resources, id, holder, token).1.Ok? {
      if w.resources[id].holder != "" {
        GivingBackKeepsInv(w, id);
      } else {
        forall other | other in v.resources
          ensures RecordOk(v, other)
        {
          assert RecordOk(w, other);
        }
        forall i | 0 <= i < |v.grants|
          ensures GrantOk(v, i)
        {
          assert GrantOk(w, i);
        }
      }
    }
  }

  lemma {:induction false} SameIdsSameCounts(a: seq<Grant>, b: seq<Grant>)
    requires |a| == |b| && forall i :: 0 <= i < |a| ==> a[i].id == b[i].id
    ensures forall id :: Count(a, id) == Count(b, id)
    decreases |a|
  {
    if a != [] {
      SameIdsSameCounts(a[..|a| - 1], b[..|b| - 1]);
    }
  }

  /** When an acquisition succeeds, every earlier lease of the resource is over. */
  lemma GrantedMeansOthersEnded(w: World, id: Id, holder: string, ttl: Duration, read: int, i: nat)
    requires Inv(w) && read <= w.clock
    requires Acquire(w.resources, id, holder, ttl, read).1.Ok?
    requires i < |w.grants| && w.grants[i].id == id
    ensures w.grants[i].EndedBy(w.clock)
    ensures w.grants[i].token <= w.resources[id].fencingToken
  {
    assert RecordOk(w, id);
    assert GrantOk(w, i);
    EarlierTokens(w, i, id);
  }

  lemma AcquireKeepsGrants(w: World, id: Id, holder: string, ttl: Duration, read: int, i: nat)
    requires Inv(w) && read <= w.clock
    requires Acquire(w.resources, id, holder, ttl, read).1.Ok?
    requires i <= |w.grants|
    ensures var v := Step(w, Event(OpAcquire(id, holder, ttl), read, w.clock));
            GrantOk(v, i) && (i < |w.grants| ==> Apart(v.grants[i], v.grants[|w.grants|]))
  {
    var v := Step(w, Event(OpAcquire(id, holder, ttl), read, w.clock));
    assert v.grants[..i] == w.grants[..i];
    assert RecordOk(w, id);
    if i < |w.grants| {
      assert GrantOk(w, i);
      if w.grants[i].id == id {
        GrantedMeansOthersEnded(w, id, holder, ttl, read, i);
      }
    } else {
      assert w.grants[..i] == w.grants;
    }
  }

  lemma AcquireKeepsRecords(w: World, id: Id, holder: string, ttl: Duration, read: int, other: Id)
    requires Inv(w) && other in w.resources
    requires Acquire(w.resources, id, holder, ttl, read).1.Ok?
    ensures RecordOk(Step(w, Event(OpAcquire(id, holder, ttl), read, w.clock)), other)
  {
    var v := Step(w, Event(OpAcquire(id, holder, ttl), read, w.clock));
    assert v.grants[..|w.grants|] == w.grants;
    BlankIsNotAHolder(holder);
    assert RecordOk(w, other);
  }

  lemma AcquireKeepsInv(w: World, id: Id, holder: string, ttl: Duration, read: int)
    requires Inv(w) && read <= w.clock
    ensures Inv(Step(w, Event(OpAcquire(id, holder, ttl), read, w.clock)))
  {
    var v := Step(w, Event(OpAcquire(id, holder, ttl), read, w.clock));
    if Acquire(w.resources, id, holder, ttl, read).1.Ok? {
      forall other | other in v.resources
        ensures RecordOk(v, other)
      {
        AcquireKeepsRecords(w, id, holder, ttl, read, other);
      }
      forall i | 0 <= i < |v.grants|
        ensures GrantOk(v, i) && (i < |w.grants| ==> Apart(v.grants[i], v.grants[|w.grants|]))
      {
        AcquireKeepsGrants(w, id, holder, ttl, read, i);
      }
    }
  }

  lemma BlankIsNotAHolder(holder: string)
    ensures TrimSpace(holder) != "" ==> holder != ""
  {
  }

  lemma EarlierTokens(w: World, i: nat, id: Id)
    requires Inv(w) && i < |w.grants| && w.grants[i].id == id && id in w.resources
    ensures w.grants[i].token <= w.resources[id].fencingToken
  {
    assert GrantOk(w, i) && RecordOk(w, id);
    CountGrows(w.grants, i, id);
  }

  lemma {:induction false} CountGrows(grants: seq<Grant>, i: nat, id: Id)
    requires i < |grants| && grants[i].id == id
    ensures Count(grants[..i], id) < Count(grants, id)
    decreases |grants|
  {
    var init := grants[..|grants| - 1];
    if i < |init| {
      CountGrows(init, i, id);
      assert init[..i] == grants[..i];
    }
  }

  lemma {:induction false} InvHolds(start: int, events: seq<Event>)
    requires Feasible(start, events)
    ensures Inv(Run(start, events))
    decreases |events|
  {
    if events != [] {
      var init, e := events[..|events| - 1], events[|events| - 1];
      InvHolds(start, init);
      var w := Run(start, init);
      TickKeepsInv(w, e.at);
      var ticked := w.(clock := e.at);
      match e.op
      case OpCreate(id) => CreateKeepsInv(ticked, id);
      case OpAcquire(id, holder, ttl) => AcquireKeepsInv(ticked, id, holder, ttl, e.read);
      case OpRelease(id, holder, token) => ReleaseKeepsInv(ticked, id, holder, token, e.read);
      case OpDelete(id) => DeleteKeepsInv(ticked, id, e.read);
    }
  }

  // ---- Main results ----

  /**
   Mutual exclusion and fencing. In every feasible run, of two leases granted on one resource the
   earlier had been released or had expired when the later was granted, and the tokens of a resource's
   leases are 1, 2, 3, ... in the order of the grants.
   */
  lemma MutualExclusion(start: int, events: seq<Event>, i: nat, j: nat)
    requires Feasible(start, events)
    requires i < j < |Run(start, events).grants|
    requires Run(start, events).grants[i].id == Run(start, events).grants[j].id
    ensures var grants := Run(start, events).grants;
            && grants[i].EndedBy(grants[j].at)
            && grants[i].token < grants[j].token
            && grants[j].token == Count(grants[..j], grants[j].id) + 1
  {
    InvHolds(start, events);
    var w := Run(start, events);
    assert Apart(w.grants[i], w.grants[j]);
    assert GrantOk(w, j);
  }

  /**
   Exclusion in time. A later lease of the resource is granted only after the earlier one was released, or
   less than a second before the end of the duration it was given, and not before that end when the
   duration ends on a whole second.
   */
  lemma {:induction false} ExclusionInTime(start: int, events: seq<Event>, i: nat, j: nat)
    requires Feasible(start, events)
    requires i < j < |Run(start, events).grants|
    requires Run(start, events).grants[i].id == Run(start, events).grants[j].id
    ensures Run(start, events).grants[i].OverInTime(Run(start, events).grants[j].at)
  {
    InvHolds(start, events);
    ApartInTime(Run(start, events), i, j);
  }

  lemma ApartInTime(w: World, i: nat, j: nat)
    requires Inv(w) && i < j < |w.grants| && w.grants[i].id == w.grants[j].id
    ensures w.grants[i].OverInTime(w.grants[j].at)
  {
    assert Apart(w.grants[i], w.grants[j]) && GrantOk(w, i);
    EndedIsOverInTime(w.grants[i], w.grants[j].at);
  }

  lemma EndedIsOverInTime(g: Grant, at: int)
    requires g.expires == Parse(Format(g.read + g.ttl)) && g.EndedBy(at)
    ensures g.OverInTime(at)
  {
  }

  /** One nanosecond after a lease of one second was granted, another holder can get the resource. */
  lemma LeasesCanOverlap() returns (events: seq<Event>)
    ensures Feasible(0, events) && |Run(0, events).grants| == 2
    ensures var (earlier, later) := (Run(0, events).grants[0], Run(0, events).grants[1]);
            && earlier.id == later.id && earlier.holder != later.holder && earlier.released.None?
            && earlier.ttl == SECOND && later.at == earlier.read + 1
  {
    var create := Event(OpCreate("r"), 0, 0);
    var first := Event(OpAcquire("r", "a", SECOND), 999_999_999, 999_999_999);
    var second := Event(OpAcquire("r", "b", SECOND), 1_000_000_000, 1_000_000_000);
    events := [create, first, second];
    assert events[..2] == [create, first] && [create, first][..1] == [create] && [create][..0] == [];
    TrimTrims(IsSpace, "a");
    TrimTrims(IsSpace, "b");
    assert Feasible(0, []);
    var w0 := Run(0, []);
    var w1 := Run(0, [create]);
    assert w1 == Step(w0, create) && Feasible(0, [create]);
    var w2 := Run(0, [create, first]);
    assert w2 == Step(w1, first) && Feasible(0, [create, first]);
    var w3 := Run(0, events);
    assert w3 == Step(w2, second);
  }

  /** A release carrying the token of an earlier lease changes nothing, whoever sends it. */
  lemma StaleReleaseIsRefused(start: int, events: seq<Event>, i: nat, j: nat, holder: string)
    requires Feasible(start, events)
    requires i < j < |Run(start, events).grants|
    requires Run(start, events).grants[i].id == Run(start, events).grants[j].id
    ensures var w := Run(start, events);
            var (resources, result) := Release(w.resources, w.grants[i].id, holder, w.grants[i].token);
            result.Err? && resources == w.resources
  {
    InvHolds(start, events);
    var w := Run(start, events);
    var id := w.grants[i].id;
    assert Apart(w.grants[i], w.grants[j]);
    if id in w.resources {
      EarlierTokens(w, j, id);
    }
  }

  // ---- Who may do what ----

  /** The resource has a lease that was not given back; it may have expired. */
  ghost predicate Standing(w: World, id: Id) {
    id in w.last && w.last[id] < |w.grants| && w.grants[w.last[id]].released.None?
  }

  /** Who holds a resource according to the history: the holder of its last lease, or nobody. */
  ghost function HolderOf(w: World, id: Id): string {
    if Standing(w, id) then w.grants[w.last[id]].holder else ""
  }

  lemma RecordTellsHistory(w: World, id: Id)
    requires Inv(w) && id in w.resources
    ensures w.resources[id].holder == HolderOf(w, id) && w.resources[id].fencingToken == Count(w.grants, id)
  {
    assert RecordOk(w, id);
  }

  lemma ReleaseByHistory(w: World, id: Id, holder: string, token: int)
    requires Inv(w)
    ensures var (resources, result) := Release(w.resources, id, holder, token);
            && (result.Ok? <==> id in w.resources && holder == HolderOf(w, id) && token == Count(w.grants, id))
            && (result.Err? ==> resources == w.resources && result.error == if id in w.resources then LeaseOwner else ResourceNotFound)
            && (result.Ok? ==>
                  && resources.Keys == w.resources.Keys
                  && resources[id].holder == "" && resources[id].fencingToken == token
                  && forall other :: other in resources && other != id ==> resources[other] == w.resources[other])
  {
    if id in w.resources {
      RecordTellsHistory(w, id);
    }
  }

  /**
   In every run a release succeeds exactly when it comes from the holder of the resource's last lease and
   carries the last token issued. It then frees the record, keeps its token and touches no other; a refused
   release changes nothing.
   */
  lemma {:induction false} ReleaseExactly(start: int, events: seq<Event>, id: Id, holder: string, token: int)
    requires Feasible(start, events)
    ensures var w := Run(start, events);
            var (resources, result) := Release(w.resources, id, holder, token);
            && (result.Ok? <==> id in w.resources && holder == HolderOf(w, id) && token == Count(w.grants, id))
            && (result.Err? ==> resources == w.resources && result.error == if id in w.resources then LeaseOwner else ResourceNotFound)
            && (result.Ok? ==>
                  && resources.Keys == w.resources.Keys
                  && resources[id].holder == "" && resources[id].fencingToken == token
                  && forall other :: other in resources && other != id ==> resources[other] == w.resources[other])
  {
    InvHolds(start, events);
    ReleaseByHistory(Run(start, events), id, holder, token);
  }

  /** A lease in the history is marked as given back only by a release with its own resource, holder and token. */
  lemma ReleasedOnlyByHolder(w: World, e: Event, i: nat)
    requires Inv(w) && Possible(w, e) && i < |w.grants|
    ensures var v := Step(w, e);
            && i < |v.grants|
            && v.grants[i] == w.grants[i].(released := v.grants[i].released)
            && (v.grants[i].released != w.grants[i].released ==>
                  && e.op == OpRelease(w.grants[i].id, w.grants[i].holder, w.grants[i].token)
                  && w.grants[i].released.None? && v.grants[i].released == Some(e.at))
  {
    if e.op.OpRelease? && e.op.id in w.resources {
      assert RecordOk(w, e.op.id);
    }
  }

  /** A rightful release is accepted: the holder gives the last lease of a resource back at any time. */
  lemma RightfulReleaseWorks(w: World, id: Id, read: int, at: int)
    requires Inv(w) && id in w.resources && Standing(w, id) && Possible(w, Event(OpRelease(id, "", 0), read, at))
    ensures var g := w.grants[w.last[id]];
            var v := Step(w, Event(OpRelease(id, g.holder, g.token), read, at));
            v.grants[w.last[id]].released == Some(at) && v.resources[id].holder == "" && HolderOf(v, id) == ""
  {
    assert RecordOk(w, id);
  }

  /** The last lease of a resource, if any, was given back or has expired by the clock reading. */
  ghost predicate Free(w: World, id: Id, read: int) {
    Standing(w, id) ==> w.grants[w.last[id]].expires.Some? && w.grants[w.last[id]].expires.value <= read
  }

  lemma AcquireByHistory(w: World, id: Id, holder: string, ttl: Duration, read: int)
    requires Inv(w)
    ensures var (resources, result) := Acquire(w.resources, id, holder, ttl, read);
            && (result.Ok? <==> !AllSpace(IsSpace, holder) && ttl > 0 && id in w.resources && Free(w, id, read))
            && (result.Err? ==>
                  && resources == w.resources
                  && result.error == if AllSpace(IsSpace, holder) || ttl <= 0 then InvalidLease
                                     else if id in w.resources then LeaseConflict else ResourceNotFound)
            && (result.Ok? ==>
                  && resources.Keys == w.resources.Keys && result.value == resources[id]
                  && resources[id].holder == holder && resources[id].fencingToken == Count(w.grants, id) + 1
                  && resources[id].activeReferences == w.resources[id].activeReferences
                  && forall other :: other in resources && other != id ==> resources[other] == w.resources[other])
  {
    BlankExactly(IsSpace, holder);
    if id in w.resources {
      assert RecordOk(w, id);
    }
  }

  /**
   In every run an acquisition succeeds exactly for a holder that is not blank, a positive duration and an
   existing resource whose last lease was given back or has expired. The record then names the holder and
   the next token, and no other record changes; a refused acquisition changes nothing.
   */
  lemma {:induction false} AcquireExactly(start: int, events: seq<Event>, id: Id, holder: string, ttl: Duration, read: int)
    requires Feasible(start, events)
    ensures var w := Run(start, events);
            var (resources, result) := Acquire(w.resources, id, holder, ttl, read);
            && (result.Ok? <==> !AllSpace(IsSpace, holder) && ttl > 0 && id in w.resources && Free(w, id, read))
            && (result.Err? ==>
                  && resources == w.resources
                  && result.error == if AllSpace(IsSpace, holder) || ttl <= 0 then InvalidLease
                                     else if id in w.resources then LeaseConflict else ResourceNotFound)
            && (result.Ok? ==>
                  && resources.Keys == w.resources.Keys && result.value == resources[id]
                  && resources[id].holder == holder && resources[id].fencingToken == Count(w.grants, id) + 1
                  && resources[id].activeReferences == w.resources[id].activeReferences
                  && forall other :: other in resources && other != id ==> resources[other] == w.resources[other])
  {
    InvHolds(start, events);
    AcquireByHistory(Run(start, events), id, holder, ttl, read);
  }

  lemma DeleteByHistory(w: World, id: Id, read: int)
    requires Inv(w)
    ensures var (resources, result) := Delete(w.resources, id, read);
            && (result.Ok? <==> id in w.resources && w.resources[id].activeReferences == 0 && Free(w, id, read))
            && resources == (if result.Ok? then w.resources - {id} else w.resources)
            && (result.Err? ==> result.error == if id in w.resources then ResourceInUse else ResourceNotFound)
  {
    if id in w.resources {
      assert RecordOk(w, id);
    }
  }

  /** In every run a deletion succeeds exactly for an existing resource that nothing refers to and no lease holds. */
  lemma {:induction false} DeleteExactly(start: int, events: seq<Event>, id: Id, read: int)
    requires Feasible(start, events)
    ensures var w := Run(start, events);
            var (resources, result) := Delete(w.resources, id, read);
            && (result.Ok? <==> id in w.resources && w.resources[id].activeReferences == 0 && Free(w, id, read))
            && resources == (if result.Ok? then w.resources - {id} else w.resources)
            && (result.Err? ==> result.error == if id in w.resources then ResourceInUse else ResourceNotFound)
  {
    InvHolds(start, events);
    DeleteByHistory(Run(start, events), id, read);
  }

  /** A deleted resource leaves no lease behind that is still running. */
  lemma DeletedMeansEnded(start: int, events: seq<Event>, i: nat)
    requires Feasible(start, events)
    requires i < |Run(start, events).grants|
    requires Run(start, events).grants[i].id !in Run(start, events).resources
    ensures Run(start, events).grants[i].EndedBy(Run(start, events).clock)
  {
    InvHolds(start, events);
    assert GrantOk(Run(start, events), i);
  }

  /** While a record names a holder its expiry is a written timestamp, never the empty string. */
  lemma {:induction false} HeldMeansStamped(start: int, events: seq<Event>, id: Id)
    requires Feasible(start, events)
    requires id in Run(start, events).resources && Run(start, events).resources[id].holder != ""
    ensures Run(start, events).resources[id].expiresAt.At?
  {
    InvHolds(start, events);
    assert RecordOk(Run(start, events), id);
  }

  ghost predicate OrdinaryClocks(events: seq<Event>) {
    forall k :: 0 <= k < |events| ==> OrdinaryClock(events[k].read)
  }

  ghost predicate OrdinaryGrants(grants: seq<Grant>) {
    forall i :: 0 <= i < |grants| ==> grants[i].ttl > 0 && OrdinaryClock(grants[i].read)
  }

  lemma {:induction false} GrantsAreOrdinary(start: int, events: seq<Event>)
    requires OrdinaryClocks(events)
    ensures OrdinaryGrants(Run(start, events).grants)
    decreases |events|
  {
    if events != [] {
      GrantsAreOrdinary(start, events[..|events| - 1]);
    }
  }

  /** With ordinary clocks every held record has an expiry that can be read: the parse-error branch is never taken. */
  lemma {:induction false} HeldMeansReadable(start: int, events: seq<Event>, id: Id)
    requires Feasible(start, events) && OrdinaryClocks(events)
    requires id in Run(start, events).resources && Run(start, events).resources[id].holder != ""
    ensures Parse(Run(start, events).resources[id].expiresAt).Some?
  {
    InvHolds(start, events);
    GrantsAreOrdinary(start, events);
    var w := Run(start, events);
    assert RecordOk(w, id);
    assert GrantOk(w, w.last[id]);
  }

  /**
   In every run a held resource refuses others exactly until the expiry of the lease that holds it, which
   lies less than a second before the end of its duration, or for ever when that end has no four-digit year.
   */
  lemma {:induction false} HeldBlocksForItsLifetime(start: int, events: seq<Event>, id: Id, other: string, ttl: Duration, now: int)
    requires Feasible(start, events)
    requires id in Run(start, events).resources && Run(start, events).resources[id].holder != ""
    requires TrimSpace(other) != "" && ttl > 0
    ensures var w := Run(start, events);
            && id in w.last && w.last[id] < |w.grants|
            && var g := w.grants[w.last[id]];
               && g.id == id && g.holder == w.resources[id].holder && g.token == w.resources[id].fencingToken && g.released.None?
               && (g.expires.Some? <==> Representable(g.read, g.ttl))
               && (g.expires.Some? ==> g.read + g.ttl - SECOND < g.expires.value <= g.read + g.ttl)
               && (Acquire(w.resources, id, other, ttl, now).1 == Err(LeaseConflict) <==>
                   g.expires.None? || now < g.expires.value)
  {
    InvHolds(start, events);
    var w := Run(start, events);
    assert RecordOk(w, id);
    var g := w.grants[w.last[id]];
    assert GrantOk(w, w.last[id]);
    var second := (g.read + g.ttl) / SECOND;
    assert second * SECOND <= g.read + g.ttl < second * SECOND + SECOND;
  }

  /** A record that names a holder, whose last grant was made by an ordinary clock. */
  ghost predicate HeldOrdinarily(w: World, id: Id) {
    && Inv(w) && id in w.resources && w.resources[id].holder != "" && id in w.last
    && w.last[id] < |w.grants| && w.grants[w.last[id]].ttl > 0 && OrdinaryClock(w.grants[w.last[id]].read)
  }

  lemma RefusedUntil(w: World, id: Id, other: string, ttl: Duration, now: int)
    requires HeldOrdinarily(w, id) && TrimSpace(other) != "" && ttl > 0
    ensures var g := w.grants[w.last[id]];
            Acquire(w.resources, id, other, ttl, now).1 == Err(LeaseConflict) <==> now < (g.read + g.ttl) / SECOND * SECOND
  {
    assert RecordOk(w, id) && GrantOk(w, w.last[id]);
  }

  ghost predicate RefusedThroughout(w: World, id: Id, other: string, ttl: Duration, from: int, end: int) {
    forall now :: from <= now < end ==> Acquire(w.resources, id, other, ttl, now).1 == Err(LeaseConflict)
  }

  /** The holder's last grant keeps others out for its whole duration exactly when that ends on a whole second. */
  ghost predicate ProtectedExactly(w: World, id: Id, other: string, ttl: Duration) {
    && id in w.last && w.last[id] < |w.grants|
    && var g := w.grants[w.last[id]];
       RefusedThroughout(w, id, other, ttl, g.read, g.read + g.ttl) <==> (g.read + g.ttl) % SECOND == 0
  }

  lemma RefusedThroughoutExactly(w: World, id: Id, other: string, ttl: Duration)
    requires HeldOrdinarily(w, id) && TrimSpace(other) != "" && ttl > 0
    ensures ProtectedExactly(w, id, other, ttl)
  {
    var g := w.grants[w.last[id]];
    var end := g.read + g.ttl;
    RefusedUntil(w, id, other, ttl, end - 1);
    forall now | g.read <= now < end && end % SECOND == 0
      ensures Acquire(w.resources, id, other, ttl, now).1 == Err(LeaseConflict)
    {
      RefusedUntil(w, id, other, ttl, now);
    }
  }

  /**
   In every run with ordinary clocks: others are refused for the whole duration the holder was given
   exactly when that duration ends on a whole second.
   */
  lemma {:induction false} HeldForTheGivenTime(start: int, events: seq<Event>, id: Id, other: string, ttl: Duration)
    requires Feasible(start, events) && OrdinaryClocks(events)
    requires id in Run(start, events).resources && Run(start, events).resources[id].holder != ""
    requires TrimSpace(other) != "" && ttl > 0
    ensures ProtectedExactly(Run(start, events), id, other, ttl)
  {
    InvHolds(start, events);
    GrantsAreOrdinary(start, events);
    HeldIsProtected(Run(start, events), id, other, ttl);
  }

  lemma HeldIsProtected(w: World, id: Id, other: string, ttl: Duration)
    requires Inv(w) && OrdinaryGrants(w.grants) && id in w.resources && w.resources[id].holder != ""
    requires TrimSpace(other) != "" && ttl > 0
    ensures ProtectedExactly(w, id, other, ttl)
  {
    HeldIsOrdinary(w, id);
    RefusedThroughoutExactly(w, id, other, ttl);
  }

  lemma HeldIsOrdinary(w: World, id: Id)
    requires Inv(w) && OrdinaryGrants(w.grants) && id in w.resources && w.resources[id].holder != ""
    ensures HeldOrdinarily(w, id)
  {
    assert RecordOk(w, id);
  }
}
