/**
 The API client's single-flight token refresh: requests that come back unauthorised share one refresh,
 then retry once. Each step is what the client does between two awaits.
 Source: frontend/src/api.ts, ApiClient.request and refresh.
 */
module TokenRefresh {
  import opened Common

  datatype Phase = Fetching | Waiting(flight: nat) | Done(ok: bool)

  /**
   One call of `request`; `joined` and `saw` record the refresh it waited for and what that told it,
   `replies` the replies to its own fetches.
   */
  datatype Request = Request(
    toRefresh: bool, retried: bool, fetches: nat, phase: Phase, joined: Option<nat>, saw: Option<bool>, replies: seq<Reply>)

  /** The promise chain of one refresh: fetch, true or false, session-expired callback, clearing the field. */
  datatype Flight = InFlight | Answered(ok: bool) | Notified(ok: bool) | Settled(ok: bool)

  datatype State = State(requests: seq<Request>, flights: seq<Flight>, refreshPromise: Option<nat>, expiredCalls: nat, fetches: nat)

  const START := State([], [], None, 0, 0)

  datatype Reply = Success | Unauthorized | Failure

  datatype Action =
    | Start(toRefresh: bool)
    | Respond(request: nat, reply: Reply)
    | Answer(ok: bool)
    | Notify
    | Settle
    | Resume(request: nat)

  ghost predicate Possible(s: State, a: Action) {
    match a
    case Start(_) => true
    case Respond(r, _) => r < |s.requests| && s.requests[r].phase == Fetching
    case Answer(_) => s.refreshPromise.Some? && s.refreshPromise.value < |s.flights| && s.flights[s.refreshPromise.value].InFlight?
    case Notify => s.refreshPromise.Some? && s.refreshPromise.value < |s.flights| && s.flights[s.refreshPromise.value].Answered?
    case Settle => s.refreshPromise.Some? && s.refreshPromise.value < |s.flights| && s.flights[s.refreshPromise.value].Notified?
    case Resume(r) =>
      && r < |s.requests| && s.requests[r].phase.Waiting?
      && s.requests[r].phase.flight < |s.flights| && s.flights[s.requests[r].phase.flight].Settled?
  }

  /** `refresh`: join the refresh in progress or start one. */
  function Joined(s: State, r: nat): State
    requires r < |s.requests|
  {
    var s := if s.refreshPromise.Some? then s
             else s.(flights := s.flights + [InFlight], refreshPromise := Some(|s.flights|), fetches := s.fetches + 1);
    var f := s.refreshPromise.value;
    s.(requests := s.requests[r := s.requests[r].(phase := Waiting(f), joined := Some(f))])
  }

  ghost function Step(s: State, a: Action): State
    requires Possible(s, a)
  {
    match a
    case Start(toRefresh) =>
      s.(requests := s.requests + [Request(toRefresh, false, 1, Fetching, None, None, [])], fetches := s.fetches + 1)
    case Respond(r, reply) =>
      var request := s.requests[r].(replies := s.requests[r].replies + [reply]);
      var s := s.(requests := s.requests[r := request]);
      if reply == Unauthorized && !request.retried && !request.toRefresh then Joined(s, r)
      else s.(requests := s.requests[r := request.(phase := Done(reply == Success))])
    case Answer(ok) =>
      s.(flights := s.flights[s.refreshPromise.value := Answered(ok)])
    case Notify =>
      var ok := s.flights[s.refreshPromise.value].ok;
      s.(flights := s.flights[s.refreshPromise.value := Notified(ok)], expiredCalls := s.expiredCalls + if ok then 0 else 1)
    case Settle =>
      s.(flights := s.flights[s.refreshPromise.value := Settled(s.flights[s.refreshPromise.value].ok)], refreshPromise := None)
    case Resume(r) =>
      var request := s.requests[r];
      if s.flights[request.phase.flight].ok then
        s.(requests := s.requests[r := request.(retried := true, fetches := request.fetches + 1, phase := Fetching, saw := Some(true))],
           fetches := s.fetches + 1)
      else
        s.(requests := s.requests[r := request.(phase := Done(false), saw := Some(false))])
  }

  ghost predicate Feasible(actions: seq<Action>)
    decreases |actions|, 0
  {
    actions != [] ==>
      && Feasible(actions[..|actions| - 1])
      && Possible(Run(actions[..|actions| - 1]), actions[|actions| - 1])
  }

  ghost function Run(actions: seq<Action>): State
    requires Feasible(actions)
    decreases |actions|, 1
  {
    if actions == [] then START else Step(Run(actions[..|actions| - 1]), actions[|actions| - 1])
  }

  /** Refreshes whose failure has been reported. */
  function Reported(flights: seq<Flight>): nat {
    if flights == [] then 0
    else
      var last := flights[|flights| - 1];
      Reported(flights[..|flights| - 1]) + if (last.Notified? || last.Settled?) && !last.ok then 1 else 0
  }

  function Fetches(requests: seq<Request>): nat {
    if requests == [] then 0 else Fetches(requests[..|requests| - 1]) + requests[|requests| - 1].fetches
  }

  // ---- The invariant ----

  ghost predicate RequestOk(s: State, q: Request) {
    && q.fetches == (if q.retried then 2 else 1)
    && (q.retried <==> q.saw == Some(true))
    && (q.joined.Some? ==> q.joined.value < |s.flights|)
    && (q.saw.Some? ==> q.joined.Some? && s.flights[q.joined.value] == Settled(q.saw.value))
    && (q.phase.Waiting? ==> q.joined == Some(q.phase.flight) && q.saw.None?)
    && (q.saw == Some(false) ==> q.phase.Done?)
    && RepliesOk(q)
  }

  /** How far a request has come is told by the replies to its fetches and by what it was told of the refresh. */
  ghost predicate RepliesOk(q: Request) {
    match q.phase
    case Fetching => (q.saw == None && q.replies == []) || (q.saw == Some(true) && q.replies == [Unauthorized] && !q.toRefresh)
    case Waiting(_) => q.saw == None && q.replies == [Unauthorized] && !q.toRefresh
    case Done(ok) =>
      match q.saw
      case None => |q.replies| == 1 && ok == (q.replies[0] == Success) && (q.replies[0] != Unauthorized || q.toRefresh)
      case Some(false) => q.replies == [Unauthorized] && !q.toRefresh && !ok
      case Some(true) => |q.replies| == 2 && q.replies[0] == Unauthorized && !q.toRefresh && ok == (q.replies[1] == Success)
  }

  ghost predicate Inv(s: State) {
    && (s.refreshPromise.Some? ==> s.refreshPromise.value < |s.flights|)
    && (forall f :: 0 <= f < |s.flights| ==> (!s.flights[f].Settled? <==> s.refreshPromise == Some(f)))
    && (forall r :: 0 <= r < |s.requests| ==> RequestOk(s, s.requests[r]))
    && s.expiredCalls == Reported(s.flights)
    && s.fetches == Fetches(s.requests) + |s.flights|
  }

  lemma {:induction false} ReportedUpdate(flights: seq<Flight>, f: nat, flight: Flight)
    requires f < |flights|
    ensures Reported(flights[f := flight]) == Reported(flights) - Reported([flights[f]]) + Reported([flight])
    decreases |flights|
  {
    var init, last := flights[..|flights| - 1], flights[|flights| - 1];
    assert [flights[f]][..0] == [] && [flight][..0] == [];
    if f < |init| {
      ReportedUpdate(init, f, flight);
      assert flights[f := flight][..|init|] == init[f := flight];
    } else {
      assert flights[f := flight][..|init|] == init;
    }
  }

  lemma {:induction false} FetchesUpdate(requests: seq<Request>, r: nat, request: Request)
    requires r < |requests|
    ensures Fetches(requests[r := request]) == Fetches(requests) - requests[r].fetches + request.fetches
    decreases |requests|
  {
    var init := requests[..|requests| - 1];
    if r < |init| {
      FetchesUpdate(init, r, request);
      assert requests[r := request][..|init|] == init[r := request];
    } else {
      assert requests[r := request][..|init|] == init;
    }
  }

  /** Replacing one request keeps the invariant when the new one is in order and the fetches add up. */
  lemma RequestChange(s: State, r: nat, request: Request)
    requires Inv(s) && r < |s.requests| && RequestOk(s, request)
    ensures Inv(s.(requests := s.requests[r := request], fetches := s.fetches - s.requests[r].fetches + request.fetches))
  {
    FetchesUpdate(s.requests, r, request);
    FetchesAtLeast(s.requests, r);
    var t := s.(requests := s.requests[r := request], fetches := s.fetches - s.requests[r].fetches + request.fetches);
    forall k | 0 <= k < |t.requests|
      ensures RequestOk(t, t.requests[k])
    {
      assert RequestOk(s, if k == r then request else s.requests[k]);
    }
  }

  lemma {:induction false} FetchesAtLeast(requests: seq<Request>, r: nat)
    requires r < |requests|
    ensures requests[r].fetches <= Fetches(requests)
    decreases |requests|
  {
    if r < |requests| - 1 {
      FetchesAtLeast(requests[..|requests| - 1], r);
    }
  }

  lemma FlightChange(s: State, flight: Flight)
    requires Inv(s) && s.refreshPromise.Some? && !s.flights[s.refreshPromise.value].Settled?
    ensures var f := s.refreshPromise.value;
            var calls := s.expiredCalls - Reported([s.flights[f]]) + Reported([flight]);
            calls >= 0 && Inv(s.(flights := s.flights[f := flight], expiredCalls := calls,
                                 refreshPromise := if flight.Settled? then None else s.refreshPromise))
  {
    var f := s.refreshPromise.value;
    ReportedUpdate(s.flights, f, flight);
    var t := s.(flights := s.flights[f := flight], expiredCalls := Reported(s.flights[f := flight]),
                refreshPromise := if flight.Settled? then None else s.refreshPromise);
    forall k | 0 <= k < |t.requests|
      ensures RequestOk(t, t.requests[k])
    {
      assert RequestOk(s, s.requests[k]);
    }
  }

  lemma NewFlightKeepsInv(s: State)
    requires Inv(s) && s.refreshPromise.None?
    ensures Inv(s.(flights := s.flights + [InFlight], refreshPromise := Some(|s.flights|), fetches := s.fetches + 1))
  {
    var t := s.(flights := s.flights + [InFlight], refreshPromise := Some(|s.flights|), fetches := s.fetches + 1);
    assert t.flights[..|s.flights|] == s.flights;
    forall k | 0 <= k < |t.requests|
      ensures RequestOk(t, t.requests[k])
    {
      assert RequestOk(s, s.requests[k]);
    }
  }

  lemma StartKeepsInv(s: State, toRefresh: bool)
    requires Inv(s)
    ensures Inv(Step(s, Start(toRefresh)))
  {
    var t := Step(s, Start(toRefresh));
    assert t.requests[..|s.requests|] == s.requests;
    forall k | 0 <= k < |t.requests|
      ensures RequestOk(t, t.requests[k])
    {
      if k < |s.requests| {
        assert RequestOk(s, s.requests[k]);
      }
    }
  }

  lemma RespondKeepsInv(s: State, r: nat, reply: Reply)
    requires Inv(s) && Possible(s, Respond(r, reply))
    ensures Inv(Step(s, Respond(r, reply)))
  {
    var request := s.requests[r].(replies := s.requests[r].replies + [reply]);
    assert RequestOk(s, s.requests[r]);
    if reply == Unauthorized && !request.retried && !request.toRefresh {
      JoinKeepsInv(s, r, request);
    } else {
      RequestChange(s, r, request.(phase := Done(reply == Success)));
      assert Step(s, Respond(r, reply)).requests == s.requests[r := request.(phase := Done(reply == Success))];
    }
  }

  lemma JoinKeepsInv(s: State, r: nat, request: Request)
    requires Inv(s) && r < |s.requests| && s.requests[r].phase == Fetching && RequestOk(s, s.requests[r])
    requires request == s.requests[r].(replies := [Unauthorized]) && !request.retried && !request.toRefresh
    ensures Inv(Joined(s.(requests := s.requests[r := request]), r))
  {
    var t := s;
    if s.refreshPromise.None? {
      NewFlightKeepsInv(s);
      t := s.(flights := s.flights + [InFlight], refreshPromise := Some(|s.flights|), fetches := s.fetches + 1);
    }
    var f := t.refreshPromise.value;
    var waiting := request.(phase := Waiting(f), joined := Some(f));
    RequestChange(t, r, waiting);
    assert Joined(s.(requests := s.requests[r := request]), r).requests == s.requests[r := waiting];
  }

  lemma ResumeKeepsInv(s: State, r: nat)
    requires Inv(s) && Possible(s, Resume(r))
    ensures Inv(Step(s, Resume(r)))
  {
    var request := s.requests[r];
    assert RequestOk(s, request);
    if s.flights[request.phase.flight].ok {
      RequestChange(s, r, request.(retried := true, fetches := request.fetches + 1, phase := Fetching, saw := Some(true)));
    } else {
      RequestChange(s, r, request.(phase := Done(false), saw := Some(false)));
    }
  }

  lemma StepKeepsInv(s: State, a: Action)
    requires Inv(s) && Possible(s, a)
    ensures Inv(Step(s, a))
  {
    match a
    case Start(toRefresh) => StartKeepsInv(s, toRefresh);
    case Respond(r, reply) => RespondKeepsInv(s, r, reply);
    case Answer(ok) => FlightChange(s, Answered(ok));
    case Notify => FlightChange(s, Notified(s.flights[s.refreshPromise.value].ok));
    case Settle => FlightChange(s, Settled(s.flights[s.refreshPromise.value].ok));
    case Resume(r) => ResumeKeepsInv(s, r);
  }

  lemma {:induction false} InvHolds(actions: seq<Action>)
    requires Feasible(actions)
    ensures Inv(Run(actions))
    decreases |actions|
  {
    if actions != [] {
      var init := actions[..|actions| - 1];
      InvHolds(init);
      StepKeepsInv(Run(init), actions[|init|]);
    }
  }

  // ---- Main results ----

  /** In every interleaving at most one refresh is under way. */
  lemma SingleFlight(actions: seq<Action>, f: nat, g: nat)
    requires Feasible(actions)
    requires f < |Run(actions).flights| && g < |Run(actions).flights|
    requires !Run(actions).flights[f].Settled? && !Run(actions).flights[g].Settled?
    ensures f == g
  {
    InvHolds(actions);
  }

  /** All requests that waited for one refresh were told the same, namely how it ended. */
  lemma SharedOutcome(actions: seq<Action>, q: nat, r: nat)
    requires Feasible(actions)
    requires q < |Run(actions).requests| && r < |Run(actions).requests|
    requires var s := Run(actions);
             s.requests[q].joined == s.requests[r].joined && s.requests[q].saw.Some? && s.requests[r].saw.Some?
    ensures Run(actions).requests[q].saw == Run(actions).requests[r].saw
  {
    InvHolds(actions);
    var s := Run(actions);
    assert RequestOk(s, s.requests[q]) && RequestOk(s, s.requests[r]);
  }

  /** A request fetches once, and a second time exactly when it was told that the refresh succeeded. */
  lemma AtMostTwoFetches(actions: seq<Action>, r: nat)
    requires Feasible(actions) && r < |Run(actions).requests|
    ensures Run(actions).requests[r].fetches == if Run(actions).requests[r].saw == Some(true) then 2 else 1
  {
    InvHolds(actions);
    assert RequestOk(Run(actions), Run(actions).requests[r]);
  }

  /**
   The outcome of a finished request. A first reply other than 401, or any reply to the refresh endpoint
   itself, decides. A 401 makes the request wait for a refresh: a failed one fails it, and after a
   successful one the reply to the retry decides, whatever it is.
   */
  lemma OutcomeExactly(actions: seq<Action>, r: nat)
    requires Feasible(actions) && r < |Run(actions).requests|
    ensures RepliesOk(Run(actions).requests[r])
  {
    InvHolds(actions);
    assert RequestOk(Run(actions), Run(actions).requests[r]);
  }

  /** A first 401 starts a refresh when none is under way, joins the one that is, and leaves the request waiting for it. */
  lemma UnauthorizedWaits(s: State, r: nat)
    requires Possible(s, Respond(r, Unauthorized)) && !s.requests[r].retried && !s.requests[r].toRefresh
    ensures var v := Step(s, Respond(r, Unauthorized));
            && v.refreshPromise.Some? && v.requests[r].phase == Waiting(v.refreshPromise.value)
            && (if s.refreshPromise.Some? then v.refreshPromise == s.refreshPromise && v.flights == s.flights
                else v.refreshPromise.value == |s.flights| && v.flights == s.flights + [InFlight])
            && forall q :: 0 <= q < |s.requests| && q != r ==> v.requests[q] == s.requests[q]
  {
  }

  function Failed(flights: seq<Flight>): nat {
    if flights == [] then 0
    else Failed(flights[..|flights| - 1]) + if flights[|flights| - 1] == Settled(false) then 1 else 0
  }

  lemma {:induction false} ReportedWhenSettled(flights: seq<Flight>)
    requires forall f :: 0 <= f < |flights| ==> flights[f].Settled?
    ensures Reported(flights) == Failed(flights)
    decreases |flights|
  {
    if flights != [] {
      ReportedWhenSettled(flights[..|flights| - 1]);
    }
  }

  /** Whenever no refresh is under way, the session-expired callback has fired once per failed refresh. */
  lemma ExpiredOncePerFailure(actions: seq<Action>)
    requires Feasible(actions) && Run(actions).refreshPromise.None?
    ensures Run(actions).expiredCalls == Failed(Run(actions).flights)
  {
    InvHolds(actions);
    ReportedWhenSettled(Run(actions).flights);
  }

  /** Every network call is accounted for: the requests' own fetches and one for each refresh. */
  lemma FetchesAddUp(actions: seq<Action>)
    requires Feasible(actions)
    ensures Run(actions).fetches == Fetches(Run(actions).requests) + |Run(actions).flights|
  {
    InvHolds(actions);
  }
}
