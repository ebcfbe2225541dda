/**
 `Plane.Run`: every component runs in its own goroutine, an error goes to a buffered channel and cancels
 the others, and once all are done the first error in the channel is returned.
 Source: backend/internal/controlplane/controlplane.go.
 */
module FanIn {
  import opened Common

  type Error = string

  /** Where the goroutine of one component is; `err` is what the component returned, if anything. */
  datatype Stage =
    | Running
    | Returned(err: Option<Error>)
    | Sent(err: Option<Error>)
    | Cancelled(err: Option<Error>)
    | Finished(err: Option<Error>)

  datatype State = State(stages: seq<Stage>, channel: seq<Error>, cancelled: bool, result: Option<Option<Error>>)

  function Init(n: nat): State {
    State(seq(n, _ => Running), [], false, None)
  }

  datatype Action =
    | Return(i: nat, err: Option<Error>)
    | Send(i: nat)
    | Cancel(i: nat)
    | Finish(i: nat)
    | Collect

  /** A goroutine can take its next step; a send also needs room in the channel. */
  ghost predicate Possible(s: State, a: Action) {
    match a
    case Return(i, _) => i < |s.stages| && s.stages[i].Running?
    case Send(i) => WantsToSend(s, i) && |s.channel| < |s.stages|
    case Cancel(i) => i < |s.stages| && s.stages[i].Sent?
    case Finish(i) => i < |s.stages| && (s.stages[i].Cancelled? || s.stages[i] == Returned(None))
    case Collect => s.result.None? && forall i :: 0 <= i < |s.stages| ==> s.stages[i].Finished?
  }

  ghost predicate WantsToSend(s: State, i: nat) {
    i < |s.stages| && s.stages[i].Returned? && s.stages[i].err.Some?
  }

  ghost function Step(s: State, a: Action): State
    requires Possible(s, a)
  {
    match a
    case Return(i, err) => s.(stages := s.stages[i := Returned(err)])
    case Send(i) => s.(stages := s.stages[i := Sent(s.stages[i].err)], channel := s.channel + [s.stages[i].err.value])
    case Cancel(i) => s.(stages := s.stages[i := Cancelled(s.stages[i].err)], cancelled := true)
    case Finish(i) => s.(stages := s.stages[i := Finished(s.stages[i].err)])
    case Collect => s.(result := Some(if s.channel == [] then None else Some(s.channel[0])))
  }

  ghost predicate Feasible(n: nat, actions: seq<Action>)
    decreases |actions|, 0
  {
    actions != [] ==>
      && Feasible(n, actions[..|actions| - 1])
      && Possible(Run(n, actions[..|actions| - 1]), actions[|actions| - 1])
  }

  ghost function Run(n: nat, actions: seq<Action>): State
    requires Feasible(n, actions)
    decreases |actions|, 1
  {
    if actions == [] then Init(n) else Step(Run(n, actions[..|actions| - 1]), actions[|actions| - 1])
  }

  /** The errors sent, component by component: they fill the channel. */
  predicate HasSent(stage: Stage) {
    (stage.Sent? || stage.Cancelled? || stage.Finished?) && stage.err.Some?
  }

  predicate HasCancelled(stage: Stage) {
    (stage.Cancelled? || stage.Finished?) && stage.err.Some?
  }

  ghost predicate SomeCancelled(stages: seq<Stage>) {
    exists i :: 0 <= i < |stages| && HasCancelled(stages[i])
  }

  lemma SomeCancelledUpdate(stages: seq<Stage>, i: nat, stage: Stage)
    requires i < |stages| && (HasCancelled(stages[i]) ==> HasCancelled(stage))
    ensures SomeCancelled(stages[i := stage]) <==> SomeCancelled(stages) || HasCancelled(stage)
  {
    var after := stages[i := stage];
    assert after[i] == stage;
    if SomeCancelled(stages) {
      var k :| 0 <= k < |stages| && HasCancelled(stages[k]);
      assert k != i ==> after[k] == stages[k];
    }
  }

  function SentCount(stages: seq<Stage>): nat {
    if stages == [] then 0 else SentCount(stages[..|stages| - 1]) + if HasSent(stages[|stages| - 1]) then 1 else 0
  }

  lemma {:induction false} SentCountUpdate(stages: seq<Stage>, i: nat, stage: Stage)
    requires i < |stages|
    ensures SentCount(stages[i := stage]) == SentCount(stages) - (if HasSent(stages[i]) then 1 else 0) + (if HasSent(stage) then 1 else 0)
    decreases |stages|
  {
    var init := stages[..|stages| - 1];
    if i < |init| {
      SentCountUpdate(init, i, stage);
      assert stages[i := stage][..|init|] == init[i := stage];
    } else {
      assert stages[i := stage][..|init|] == init;
    }
  }

  /** A component that has not sent leaves room for itself. */
  lemma {:induction false} RoomForSender(stages: seq<Stage>, i: nat)
    requires i < |stages| && !HasSent(stages[i])
    ensures SentCount(stages) < |stages|
    decreases |stages|
  {
    var init := stages[..|stages| - 1];
    SentCountBound(init);
    if i < |init| {
      RoomForSender(init, i);
    }
  }

  lemma {:induction false} SentCountBound(stages: seq<Stage>)
    ensures SentCount(stages) <= |stages|
    decreases |stages|
  {
    if stages != [] {
      SentCountBound(stages[..|stages| - 1]);
    }
  }

  lemma {:induction false} NoneSent(stages: seq<Stage>)
    ensures SentCount(stages) == 0 <==> forall i :: 0 <= i < |stages| ==> !HasSent(stages[i])
    decreases |stages|
  {
    if stages != [] {
      NoneSent(stages[..|stages| - 1]);
    }
  }

  ghost predicate Inv(n: nat, s: State) {
    && |s.stages| == n
    && |s.channel| == SentCount(s.stages)
    && (forall i :: 0 <= i < n && (s.stages[i].Sent? || s.stages[i].Cancelled?) ==> s.stages[i].err.Some?)
    && (s.cancelled <==> SomeCancelled(s.stages))
    && (s.result.Some? ==> (forall i :: 0 <= i < n ==> s.stages[i].Finished?)
                           && s.result.value == if s.channel == [] then None else Some(s.channel[0]))
  }

  lemma StepKeepsInv(n: nat, s: State, a: Action)
    requires Inv(n, s) && Possible(s, a)
    ensures Inv(n, Step(s, a))
  {
    if !a.Collect? {
      var i, t := a.i, Step(s, a);
      SentCountUpdate(s.stages, i, t.stages[i]);
      SomeCancelledUpdate(s.stages, i, t.stages[i]);
    }
  }

  lemma {:induction false} InvHolds(n: nat, actions: seq<Action>)
    requires Feasible(n, actions)
    ensures Inv(n, Run(n, actions))
    decreases |actions|
  {
    if actions == [] {
      NoneSent(Init(n).stages);
    } else {
      var init := actions[..|actions| - 1];
      InvHolds(n, init);
      StepKeepsInv(n, Run(n, init), actions[|init|]);
    }
  }

  /** No goroutine ever blocks on the channel: whenever one wants to send, there is room. */
  lemma SendNeverBlocks(n: nat, actions: seq<Action>, i: nat)
    requires Feasible(n, actions) && WantsToSend(Run(n, actions), i)
    ensures Possible(Run(n, actions), Send(i))
  {
    InvHolds(n, actions);
    RoomForSender(Run(n, actions).stages, i);
  }

  /** Once every component is done, the context is cancelled exactly when one of them failed. */
  lemma CancelledExactlyOnError(n: nat, actions: seq<Action>)
    requires Feasible(n, actions)
    requires forall i :: 0 <= i < n ==> i < |Run(n, actions).stages| && Run(n, actions).stages[i].Finished?
    ensures var s := Run(n, actions);
            s.cancelled <==> exists i :: 0 <= i < |s.stages| && s.stages[i] != Finished(None)
  {
    InvHolds(n, actions);
  }

  /** The result is nil exactly when no component failed, and otherwise the first error that was sent. */
  lemma FirstErrorWins(n: nat, actions: seq<Action>)
    requires Feasible(n, actions) && Run(n, actions).result.Some?
    ensures var s := Run(n, actions);
            && (s.result.value.None? <==> forall i :: 0 <= i < |s.stages| ==> s.stages[i] == Finished(None))
            && (s.result.value.Some? ==> s.channel != [] && s.result.value.value == s.channel[0])
  {
    InvHolds(n, actions);
    NoneSent(Run(n, actions).stages);
  }

  /** The error sent first stays at the head of the channel through the rest of the run. */
  lemma {:induction false} FirstSentStaysFirst(n: nat, actions: seq<Action>, k: nat)
    requires Feasible(n, actions) && k <= |actions| && Feasible(n, actions[..k])
    requires Run(n, actions[..k]).channel != []
    ensures Run(n, actions).channel != [] && Run(n, actions).channel[0] == Run(n, actions[..k]).channel[0]
    decreases |actions|
  {
    if k < |actions| {
      var init := actions[..|actions| - 1];
      assert init[..k] == actions[..k];
      FirstSentStaysFirst(n, init, k);
    } else {
      assert actions[..k] == actions;
    }
  }

  lemma {:induction false} PrefixFeasible(n: nat, actions: seq<Action>, k: nat)
    requires Feasible(n, actions) && k <= |actions|
    ensures Feasible(n, actions[..k])
    decreases |actions|
  {
    if k < |actions| {
      var init := actions[..|actions| - 1];
      assert init[..k] == actions[..k];
      PrefixFeasible(n, init, k);
    } else {
      assert actions[..k] == actions;
    }
  }

  /** The place of the first send in a run, or its length. */
  function FirstSend(actions: seq<Action>): (k: nat)
    ensures k <= |actions| && (k < |actions| ==> actions[k].Send?)
    ensures forall j :: 0 <= j < k ==> !actions[j].Send?
  {
    if actions == [] || actions[0].Send? then 0 else 1 + FirstSend(actions[1..])
  }

  lemma {:induction false} NothingSent(n: nat, actions: seq<Action>)
    requires Feasible(n, actions) && forall j :: 0 <= j < |actions| ==> !actions[j].Send?
    ensures Run(n, actions).channel == []
    decreases |actions|
  {
    if actions != [] {
      NothingSent(n, actions[..|actions| - 1]);
    }
  }

  lemma SendFills(n: nat, actions: seq<Action>, k: nat)
    requires Feasible(n, actions) && k < |actions| && actions[k].Send?
    requires Feasible(n, actions[..k]) && Run(n, actions[..k]).channel == []
    ensures WantsToSend(Run(n, actions[..k]), actions[k].i)
    ensures Feasible(n, actions[..k + 1])
    ensures Run(n, actions[..k + 1]).channel == [Run(n, actions[..k]).stages[actions[k].i].err.value]
  {
    PrefixFeasible(n, actions, k + 1);
    assert actions[..k + 1][..k] == actions[..k];
  }

  /** The result is the error that the component of the run's first send had returned, and nil exactly without a send. */
  lemma ResultIsFirstSend(n: nat, actions: seq<Action>)
    requires Feasible(n, actions) && Run(n, actions).result.Some?
    ensures var k := FirstSend(actions);
            && Feasible(n, actions[..k])
            && (Run(n, actions).result == Some(None) <==> k == |actions|)
            && (k < |actions| ==>
                  && WantsToSend(Run(n, actions[..k]), actions[k].i)
                  && Run(n, actions).result == Some(Run(n, actions[..k]).stages[actions[k].i].err))
  {
    var k := FirstSend(actions);
    PrefixFeasible(n, actions, k);
    NothingSent(n, actions[..k]);
    InvHolds(n, actions);
    if k < |actions| {
      SendFills(n, actions, k);
      FirstSentStaysFirst(n, actions, k + 1);
    } else {
      assert actions[..k] == actions;
    }
  }
}
