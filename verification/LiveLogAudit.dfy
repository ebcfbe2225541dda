/**
 Audit events of live log views, at most one per key and window: a reservation under a lock, the store
 outside it, and a second locked section that gives the reservation up when the store fails.
 Source: backend/internal/api/audit.go, AddLiveLog.
 */
module LiveLogAudit {
  import opened Sets
  import opened Durations

  const WINDOW: int := 5 * 60 * SECOND

  type Key = string

  /** The entries less than a window old. */
  function Fresh(entries: map<Key, int>, now: int): map<Key, int> {
    map key | key in entries && now - entries[key] < WINDOW :: entries[key]
  }

  // ---- Runs ----

  datatype Status = Storing | Stored | Failed

  /** A call that got the reservation. */
  datatype Call = Call(key: Key, at: int, status: Status) {
    predicate Live() {
      status != Failed
    }
  }

  datatype World = World(entries: map<Key, int>, calls: seq<Call>, clock: int)

  datatype Action =
    | Ask(key: Key, now: int)
    | Finish(call: nat, ok: bool, now: int)

  ghost predicate Possible(w: World, a: Action) {
    w.clock <= a.now && (a.Finish? ==> a.call < |w.calls| && w.calls[a.call].status == Storing)
  }

  ghost function Step(w: World, a: Action): World
    requires Possible(w, a)
  {
    match a
    case Ask(key, now) =>
      var recent := Fresh(w.entries, now);
      if key in recent then World(recent, w.calls, now)
      else World(recent[key := now], w.calls + [Call(key, now, Storing)], now)
    case Finish(i, ok, now) =>
      World(if ok then w.entries else w.entries - {w.calls[i].key},
        w.calls[i := w.calls[i].(status := if ok then Stored else Failed)], now)
  }

  ghost function Run(start: int, actions: seq<Action>): World
    requires Feasible(start, actions)
    decreases |actions|, 1
  {
    if actions == [] then World(map[], [], start)
    else Step(Run(start, actions[..|actions| - 1]), actions[|actions| - 1])
  }

  ghost predicate Feasible(start: int, actions: seq<Action>)
    decreases |actions|, 0
  {
    actions != [] ==>
      && Feasible(start, actions[..|actions| - 1])
      && Possible(Run(start, actions[..|actions| - 1]), actions[|actions| - 1])
  }

  // ---- The code ----

  class LiveLogs {
    var entries: map<Key, int>
    /** The calls that got the reservation, and the time of the last step. */
    ghost var calls: seq<Call>
    ghost var clock: int

    constructor (ghost start: int)
      ensures Value() == World(map[], [], start)
    {
      entries, calls, clock := map[], [], start;
    }

    ghost function Value(): World
      reads this
    {
      World(entries, calls, clock)
    }

    /** The first locked section of `AddLiveLog`: whether this call is the one to store the event. */
    method Reserve(key: Key, now: int) returns (reserved: bool)
      requires clock <= now
      modifies this
      ensures Value() == Step(old(Value()), Ask(key, now))
      ensures reserved <==> key !in Fresh(old(entries), now)
    {
      var unvisited := entries.Keys;
      while unvisited != {}
        invariant unvisited <= old(entries).Keys && calls == old(calls)
        invariant entries == map k | k in old(entries) && (k in unvisited || now - old(entries)[k] < WINDOW) :: old(entries)[k]
        decreases |unvisited|
      {
        var existing := Pick(unvisited);
        if now - entries[existing] >= WINDOW {
          entries := entries - {existing};
        }
        unvisited := unvisited - {existing};
      }
      clock := now;
      assert entries == Fresh(old(entries), now);
      if key in entries && now - entries[key] < WINDOW {
        return false;
      }
      entries, calls := entries[key := now], calls + [Call(key, now, Storing)];
      reserved := true;
    }

    /** The rest of `AddLiveLog` once the store has answered: a failure gives the key's reservation up. */
    method Conclude(key: Key, ok: bool, ghost call: nat, ghost now: int)
      requires Possible(Value(), Finish(call, ok, now)) && calls[call].key == key
      modifies this
      ensures Value() == Step(old(Value()), Finish(call, ok, now))
    {
      if !ok {
        entries := entries - {key};
      }
      calls, clock := calls[call := calls[call].(status := if ok then Stored else Failed)], now;
    }
  }

  // ---- A refused call is covered by another ----

  ghost predicate Backed(w: World, key: Key)
    requires key in w.entries
  {
    exists i :: 0 <= i < |w.calls| && w.calls[i].key == key && w.calls[i].Live() && w.calls[i].at == w.entries[key]
  }

  ghost predicate AllBacked(w: World) {
    forall key :: key in w.entries ==> Backed(w, key)
  }

  lemma StepKeepsBacked(w: World, a: Action)
    requires AllBacked(w) && Possible(w, a)
    ensures AllBacked(Step(w, a))
  {
    var v := Step(w, a);
    forall key | key in v.entries
      ensures Backed(v, key)
    {
      if key in w.entries && v.entries[key] == w.entries[key] {
        assert Backed(w, key);
        var i :| 0 <= i < |w.calls| && w.calls[i].key == key && w.calls[i].Live() && w.calls[i].at == w.entries[key];
        assert v.calls[i].key == key && v.calls[i].at == w.calls[i].at;
      } else {
        assert v.calls[|w.calls|].key == key;
      }
    }
  }

  lemma {:induction false} BackedHolds(start: int, actions: seq<Action>)
    requires Feasible(start, actions)
    ensures AllBacked(Run(start, actions))
    decreases |actions|
  {
    if actions != [] {
      var init := actions[..|actions| - 1];
      BackedHolds(start, init);
      StepKeepsBacked(Run(start, init), actions[|init|]);
    }
  }

  /** In every run, a call without a reservation follows one less than a window old whose store has not failed. */
  lemma {:induction false} RefusedMeansRecent(start: int, actions: seq<Action>, key: Key, now: int)
    requires Feasible(start, actions) && Run(start, actions).clock <= now
    requires Step(Run(start, actions), Ask(key, now)).calls == Run(start, actions).calls
    ensures exists i :: 0 <= i < |Run(start, actions).calls| && Run(start, actions).calls[i].key == key
                     && Run(start, actions).calls[i].Live() && now - Run(start, actions).calls[i].at < 300 * SECOND
  {
    BackedHolds(start, actions);
    assert Backed(Run(start, actions), key);
  }

  // ---- One event per window ----

  ghost predicate Apart(a: Call, b: Call) {
    a.key == b.key && a.Live() && b.Live() ==> b.at - a.at >= WINDOW
  }

  ghost predicate Spaced(calls: seq<Call>) {
    forall i, j :: 0 <= i < j < |calls| ==> Apart(calls[i], calls[j])
  }

  /** A live call less than a window old holds its entry. */
  ghost predicate Holds(w: World, i: nat)
    requires i < |w.calls|
  {
    var call := w.calls[i];
    && call.at <= w.clock
    && (call.Live() && w.clock - call.at < WINDOW ==> call.key in w.entries && w.entries[call.key] == call.at)
  }

  ghost predicate Inv(w: World) {
    Spaced(w.calls) && forall i :: 0 <= i < |w.calls| ==> Holds(w, i)
  }

  /** A failing store gives up the reservation that another call still needs. */
  ghost predicate Steals(w: World, a: Action)
    requires Possible(w, a)
  {
    a.Finish? && !a.ok && exists j :: Victim(w, a.call, j, a.now)
  }

  ghost predicate Victim(w: World, i: nat, j: int, now: int)
    requires i < |w.calls|
  {
    0 <= j < |w.calls| && j != i && w.calls[j].key == w.calls[i].key && w.calls[j].Live() && now - w.calls[j].at < WINDOW
  }

  lemma AskKeepsInv(w: World, key: Key, now: int)
    requires Inv(w) && w.clock <= now
    ensures Inv(Step(w, Ask(key, now)))
  {
    var v := Step(w, Ask(key, now));
    forall i | 0 <= i < |w.calls|
      ensures Holds(v, i) && (|v.calls| > |w.calls| ==> Apart(v.calls[i], v.calls[|w.calls|]))
    {
      assert Holds(w, i) && v.calls[i] == w.calls[i];
    }
  }

  lemma FinishKeepsInv(w: World, a: Action)
    requires Inv(w) && Possible(w, a) && a.Finish? && !Steals(w, a)
    ensures Inv(Step(w, a))
  {
    var v := Step(w, a);
    forall i | 0 <= i < |v.calls|
      ensures Holds(v, i)
    {
      assert Holds(w, i);
      assert !a.ok ==> !Victim(w, a.call, i, a.now);
    }
    FinishKeepsSpaced(w, a);
  }

  lemma FinishKeepsSpaced(w: World, a: Action)
    requires Spaced(w.calls) && Possible(w, a) && a.Finish?
    ensures Spaced(Step(w, a).calls)
  {
    var v := Step(w, a);
    forall i, j | 0 <= i < j < |v.calls|
      ensures Apart(v.calls[i], v.calls[j])
    {
      assert Apart(w.calls[i], w.calls[j]);
    }
  }

  /** A step keeps the invariant exactly when it does not steal a reservation. */
  lemma InvKeptExactly(w: World, a: Action)
    requires Inv(w) && Possible(w, a)
    ensures Inv(Step(w, a)) <==> !Steals(w, a)
  {
    if Steals(w, a) {
      var j :| Victim(w, a.call, j, a.now);
      assert !Holds(Step(w, a), j);
    } else if a.Finish? {
      FinishKeepsInv(w, a);
    } else {
      AskKeepsInv(w, a.key, a.now);
    }
  }

  /** The next request for a key finds its calls still apart. */
  ghost predicate RoomFor(w: World, key: Key) {
    Spaced(Step(w, Ask(key, w.clock)).calls)
  }

  /** After a failure the very next request for the key is too early exactly when the failure stole a reservation. */
  lemma StealShowsAtOnce(w: World, a: Action)
    requires Inv(w) && Possible(w, a) && a.Finish? && !a.ok
    ensures !RoomFor(Step(w, a), w.calls[a.call].key) <==> Steals(w, a)
  {
    var v := Step(w, a);
    var key := w.calls[a.call].key;
    if Steals(w, a) {
      var j :| Victim(w, a.call, j, a.now);
      var next := Step(v, Ask(key, v.clock));
      assert next.calls[j] == w.calls[j] && next.calls[|w.calls|] == Call(key, a.now, Storing);
      assert !Apart(next.calls[j], next.calls[|w.calls|]);
    } else {
      FinishKeepsInv(w, a);
      AskKeepsInv(v, key, v.clock);
    }
  }

  ghost predicate NeverSteals(start: int, actions: seq<Action>)
    requires Feasible(start, actions)
    decreases |actions|
  {
    actions != [] ==>
      && NeverSteals(start, actions[..|actions| - 1])
      && !Steals(Run(start, actions[..|actions| - 1]), actions[|actions| - 1])
  }

  lemma {:induction false} InvHolds(start: int, actions: seq<Action>)
    requires Feasible(start, actions) && NeverSteals(start, actions)
    ensures Inv(Run(start, actions))
    decreases |actions|
  {
    if actions != [] {
      var init := actions[..|actions| - 1];
      InvHolds(start, init);
      InvKeptExactly(Run(start, init), actions[|init|]);
    }
  }

  /** In every run without a stolen reservation, two events stored for one key were reserved a window apart. */
  lemma OnePerWindow(start: int, actions: seq<Action>, i: nat, j: nat)
    requires Feasible(start, actions) && NeverSteals(start, actions)
    requires i < j < |Run(start, actions).calls|
    requires Run(start, actions).calls[i].status == Stored && Run(start, actions).calls[j].status == Stored
    requires Run(start, actions).calls[i].key == Run(start, actions).calls[j].key
    ensures Run(start, actions).calls[j].at - Run(start, actions).calls[i].at >= 300 * SECOND
  {
    InvHolds(start, actions);
    assert Apart(Run(start, actions).calls[i], Run(start, actions).calls[j]);
  }

  /** At every point of the run the next request, for whatever key, finds the calls of the key apart. */
  ghost predicate AlwaysRoom(start: int, actions: seq<Action>)
    requires Feasible(start, actions)
    decreases |actions|
  {
    && (actions != [] ==> AlwaysRoom(start, actions[..|actions| - 1]))
    && forall key :: RoomFor(Run(start, actions), key)
  }

  /** Over whole runs: one event per window is kept, whatever is asked next, exactly when no reservation is stolen. */
  lemma {:induction false} OnePerWindowExactly(start: int, actions: seq<Action>)
    requires Feasible(start, actions)
    ensures AlwaysRoom(start, actions) <==> NeverSteals(start, actions)
    decreases |actions|
  {
    var w := Run(start, actions);
    if actions != [] {
      var init, a := actions[..|actions| - 1], actions[|actions| - 1];
      OnePerWindowExactly(start, init);
      if NeverSteals(start, init) {
        InvHolds(start, init);
        StepLeavesRoom(Run(start, init), a);
      }
    }
    if NeverSteals(start, actions) {
      InvHolds(start, actions);
      InvLeavesRoom(w);
    }
  }

  lemma InvLeavesRoom(w: World)
    requires Inv(w)
    ensures forall key :: RoomFor(w, key)
  {
    forall key
      ensures RoomFor(w, key)
    {
      AskKeepsInv(w, key, w.clock);
    }
  }

  lemma StepLeavesRoom(w: World, a: Action)
    requires Inv(w) && Possible(w, a)
    ensures Steals(w, a) ==> exists key :: !RoomFor(Step(w, a), key)
  {
    if Steals(w, a) {
      StealShowsAtOnce(w, a);
    }
  }

  /** A store that fails does so less than a window after its reservation. */
  ghost predicate Timely(w: World, a: Action)
    requires Possible(w, a)
  {
    a.Finish? && !a.ok ==> a.now - w.calls[a.call].at < WINDOW
  }

  lemma NoVictim(w: World, i: nat, j: nat, now: int)
    requires Inv(w) && i < |w.calls| && j < |w.calls| && w.clock <= now && w.calls[i].Live() && now - w.calls[i].at < WINDOW
    ensures !Victim(w, i, j, now)
  {
    assert Holds(w, i) && Holds(w, j);
    assert j < i ==> Apart(w.calls[j], w.calls[i]);
    assert i < j ==> Apart(w.calls[i], w.calls[j]);
  }

  lemma TimelyNeverSteals(w: World, a: Action)
    requires Inv(w) && Possible(w, a) && Timely(w, a)
    ensures !Steals(w, a)
  {
    if a.Finish? && !a.ok {
      forall j: nat | j < |w.calls|
        ensures !Victim(w, a.call, j, a.now)
      {
        NoVictim(w, a.call, j, a.now);
      }
    }
  }

  ghost predicate AllTimely(start: int, actions: seq<Action>)
    requires Feasible(start, actions)
    decreases |actions|
  {
    actions != [] ==>
      && AllTimely(start, actions[..|actions| - 1])
      && Timely(Run(start, actions[..|actions| - 1]), actions[|actions| - 1])
  }

  /** Stores that fail within the window steal nothing. */
  lemma {:induction false} TimelyRuns(start: int, actions: seq<Action>)
    requires Feasible(start, actions) && AllTimely(start, actions)
    ensures NeverSteals(start, actions)
    decreases |actions|
  {
    if actions != [] {
      var init := actions[..|actions| - 1];
      TimelyRuns(start, init);
      InvHolds(start, init);
      TimelyNeverSteals(Run(start, init), actions[|init|]);
    }
  }

  // ---- Which refused views keep an event ----

  /** What later steps keep of the calls made so far: their key and time, and that they failed. */
  ghost predicate Continues(calls: seq<Call>, later: seq<Call>) {
    |calls| <= |later| && forall i :: 0 <= i < |calls| ==>
      later[i].key == calls[i].key && later[i].at == calls[i].at && (later[i].Live() ==> calls[i].Live())
  }

  lemma {:induction false} RunContinues(start: int, actions: seq<Action>, k: nat)
    requires Feasible(start, actions) && k <= |actions|
    ensures Feasible(start, actions[..k]) && Continues(Run(start, actions[..k]).calls, Run(start, actions).calls)
    decreases |actions|
  {
    if k < |actions| {
      var init := actions[..|actions| - 1];
      assert init[..k] == actions[..k];
      RunContinues(start, init, k);
    } else {
      assert actions[..k] == actions;
    }
  }

  /** Call `i` holds the entry for which a view of `key` at `now` is refused. */
  ghost predicate Refuser(w: World, key: Key, now: int, i: nat) {
    && i < |w.calls| && w.calls[i].key == key && w.calls[i].Live()
    && now - w.calls[i].at < WINDOW && w.clock <= now
  }

  /** Among the calls made before the view, one within the window has stored its event. */
  ghost predicate Covered(calls: seq<Call>, n: nat, key: Key, now: int) {
    exists k :: 0 <= k < n <= |calls| && calls[k].key == key && calls[k].status == Stored && now - calls[k].at < WINDOW
  }

  lemma CoveredByRefuser(w: World, later: seq<Call>, key: Key, now: int, i: nat)
    requires Inv(w) && Refuser(w, key, now, i) && Continues(w.calls, later)
    ensures Covered(later, |w.calls|, key, now) <==> later[i].status == Stored
  {
    if k :| 0 <= k < |w.calls| && later[k].key == key && later[k].status == Stored && now - later[k].at < WINDOW {
      assert Holds(w, k) && Holds(w, i);
      if k != i {
        assert Apart(w.calls[if k < i then k else i], w.calls[if k < i then i else k]);
      }
    }
  }

  /**
   A refused view ends up with an event exactly when the store of the one call that made the code refuse
   it succeeds: in every run, after every continuation.
   */
  lemma {:induction false} RefusedViewKeepsEventExactly(start: int, actions: seq<Action>, n: nat, key: Key, now: int) returns (i: nat)
    requires Feasible(start, actions) && n <= |actions|
    requires Feasible(start, actions[..n]) && NeverSteals(start, actions[..n]) && Run(start, actions[..n]).clock <= now
    requires Step(Run(start, actions[..n]), Ask(key, now)).calls == Run(start, actions[..n]).calls
    ensures Refuser(Run(start, actions[..n]), key, now, i) && i < |Run(start, actions).calls|
    ensures Covered(Run(start, actions).calls, |Run(start, actions[..n]).calls|, key, now) <==>
            Run(start, actions).calls[i].status == Stored
  {
    var w := Run(start, actions[..n]);
    InvHolds(start, actions[..n]);
    BackedHolds(start, actions[..n]);
    i := RefuserOf(w, key, now);
    RunContinues(start, actions, n);
    CoveredByRefuser(w, Run(start, actions).calls, key, now, i);
  }

  lemma RefuserOf(w: World, key: Key, now: int) returns (i: nat)
    requires AllBacked(w) && w.clock <= now && Step(w, Ask(key, now)).calls == w.calls
    ensures Refuser(w, key, now, i)
  {
    assert Backed(w, key);
    i :| 0 <= i < |w.calls| && w.calls[i].key == key && w.calls[i].Live() && w.calls[i].at == w.entries[key];
  }

  // ---- What can go wrong ----

  lemma RunSnoc(start: int, actions: seq<Action>, a: Action)
    requires Feasible(start, actions) && Possible(Run(start, actions), a)
    ensures Feasible(start, actions + [a]) && Run(start, actions + [a]) == Step(Run(start, actions), a)
  {
    var all := actions + [a];
    assert all[..|all| - 1] == actions;
  }

  /**
   A store that fails a window late gives up the reservation of a later call: the next one stores a
   second event a moment after the first.
   */
  lemma LateFailureStoresTwice(key: Key) returns (actions: seq<Action>)
    ensures Feasible(0, actions) && |Run(0, actions).calls| == 3
    ensures var calls := Run(0, actions).calls;
            && calls[1] == Call(key, WINDOW, Stored) && calls[2] == Call(key, WINDOW + 1, Stored)
  {
    actions := [];
    RunSnoc(0, actions, Ask(key, 0));
    actions := actions + [Ask(key, 0)];
    RunSnoc(0, actions, Ask(key, WINDOW));
    actions := actions + [Ask(key, WINDOW)];
    RunSnoc(0, actions, Finish(0, false, WINDOW));
    actions := actions + [Finish(0, false, WINDOW)];
    RunSnoc(0, actions, Ask(key, WINDOW + 1));
    actions := actions + [Ask(key, WINDOW + 1)];
    RunSnoc(0, actions, Finish(1, true, WINDOW + 1));
    actions := actions + [Finish(1, true, WINDOW + 1)];
    RunSnoc(0, actions, Finish(2, true, WINDOW + 1));
    actions := actions + [Finish(2, true, WINDOW + 1)];
  }

  /** A view that was refused because another was being stored leaves no event when that store fails. */
  lemma RefusedCanBeLost(key: Key) returns (actions: seq<Action>)
    ensures Feasible(0, actions) && AllTimely(0, actions) && |actions| == 3 && actions[0].Ask? && actions[1].Ask?
    ensures Run(0, actions).calls == [Call(key, 0, Failed)] && Run(0, actions).entries == map[]
  {
    var one, two, three := [Ask(key, 0)], [Ask(key, 0), Ask(key, 1)], [Ask(key, 0), Ask(key, 1), Finish(0, false, 1)];
    assert three[..2] == two && two[..1] == one && one[..0] == [];
    RunSnoc(0, [], Ask(key, 0));
    assert [] + one == one;
    RunSnoc(0, one, Ask(key, 1));
    assert one + [Ask(key, 1)] == two;
    RunSnoc(0, two, Finish(0, false, 1));
    assert two + [Finish(0, false, 1)] == three;
    assert AllTimely(0, []) && AllTimely(0, one) && AllTimely(0, two);
    actions := three;
  }
}
