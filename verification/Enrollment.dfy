/**
 Runner enrollment with one-use tokens, key binding and permanent archival, over every run of the
 in-memory service.
 Source: backend/internal/api/infrastructure.go, the in-memory half of the runner operations.
 */
module Enrollment {
  import opened Common
  import opened Text

  type RunnerId = string
  type Token = string
  type KeyId = string

  const DEFAULT_CAPACITY: int := 10

  type Outcome<T> = Result<T, Error>
  datatype Error = EnrollmentNotFound | EnrollmentExpired | EnrollmentUsed | KeyAlreadyBound | RunnerNotFound | ActionNotFound | RunnerArchived

  datatype Desired = Enabled | Disabled | Draining | RevokedByOperator
  datatype Observed = Pending | Online | Offline | Revoked

  datatype Runner = Runner(
    name: string, poolId: string, pool: string, desired: Desired, observed: Observed, capacity: int,
    heartbeat: Option<int>, natsEndpoint: string, controlPlaneUrl: string, isArchived: bool, isDeleted: bool)
  {
    predicate Gone() {
      isArchived || isDeleted
    }
  }

  datatype Enrolled = Enrolled(runner: RunnerId, expires: int, used: bool)

  datatype State = State(runners: map<RunnerId, Runner>, enrollments: map<Token, Enrolled>, keys: map<RunnerId, KeyId>)

  datatype Input = Input(runner: RunnerId, name: string, poolId: string, natsEndpoint: string, controlPlaneUrl: string, capacity: Option<int>)

  // ---- Operations ----

  /** The tokens still waiting to be used by one runner. */
  function Waiting(s: State, runner: RunnerId): set<Token> {
    set t | t in s.enrollments && s.enrollments[t].runner == runner && !s.enrollments[t].used
  }

  function TokensOf(s: State, runner: RunnerId): set<Token> {
    set t | t in s.enrollments && s.enrollments[t].runner == runner
  }

  /** The runner record an accepted enrollment leaves behind. */
  function Registered(s: State, input: Input, poolName: string): Runner {
    var known := input.runner in s.runners;
    var item := if known then s.runners[input.runner]
                else Runner(input.name, input.poolId, poolName, Enabled, Pending, 0, None,
                            TrimSpace(input.natsEndpoint), input.controlPlaneUrl, false, false);
    var item := if TrimSpace(input.natsEndpoint) != "" then item.(natsEndpoint := TrimSpace(input.natsEndpoint)) else item;
    var item := if input.controlPlaneUrl != "" then item.(controlPlaneUrl := input.controlPlaneUrl) else item;
    if input.capacity.Some? then item.(capacity := input.capacity.value)
    else if !known then item.(capacity := DEFAULT_CAPACITY)
    else item
  }

  /** `saveInMemoryEnrollment`: the token is stored before the archived runner is refused. */
  function Enroll(s: State, input: Input, token: Token, expiry: int, poolName: string): (State, Outcome<()>) {
    var enrollments := (s.enrollments - Waiting(s, input.runner))[token := Enrolled(input.runner, expiry, false)];
    var stored := s.(enrollments := enrollments);
    if input.runner in s.runners && s.runners[input.runner].Gone() then (stored, Err(RunnerArchived))
    else (stored.(runners := s.runners[input.runner := Registered(s, input, poolName)]), Ok(()))
  }

  function Accepted(s: State, token: Token): State
    requires token in s.enrollments && s.enrollments[token].runner in s.runners
  {
    var runner := s.enrollments[token].runner;
    s.(enrollments := s.enrollments[token := s.enrollments[token].(used := true)],
       runners := s.runners[runner := s.runners[runner].(observed := Pending, heartbeat := None)])
  }

  /** The checks shared by both ways of consuming a token. */
  function Refusal(s: State, token: Token, now: int): Option<Error> {
    if token !in s.enrollments then Some(EnrollmentNotFound)
    else if s.enrollments[token].used then Some(EnrollmentUsed)
    else if now >= s.enrollments[token].expires then Some(EnrollmentExpired)
    else if s.enrollments[token].runner !in s.runners then Some(EnrollmentNotFound)
    else None
  }

  /** `ConsumeEnrollment` */
  function Consume(s: State, token: Token, now: int): (State, Outcome<Runner>) {
    var refusal := Refusal(s, token, now);
    if refusal.Some? then (s, Err(refusal.value))
    else
      var accepted := Accepted(s, token);
      (accepted, Ok(accepted.runners[s.enrollments[token].runner]))
  }

  ghost predicate BoundElsewhere(s: State, runner: RunnerId, key: KeyId) {
    exists other :: other in s.keys && other != runner && s.keys[other] == key
  }

  /** `consumeEnrollmentWithKey` */
  ghost function ConsumeWithKey(s: State, token: Token, now: int, key: KeyId): (State, Outcome<Runner>) {
    var refusal := Refusal(s, token, now);
    if refusal.Some? then (s, Err(refusal.value))
    else
      var runner := s.enrollments[token].runner;
      if BoundElsewhere(s, runner, key) then (s, Err(KeyAlreadyBound))
      else
        var accepted := Accepted(s, token);
        (accepted.(keys := s.keys[runner := key]), Ok(accepted.runners[runner]))
  }

  datatype Change = Change(capacity: Option<int>, natsEndpoint: Option<string>, controlPlaneUrl: Option<string>)

  function Changed(item: Runner, change: Change): Runner {
    var item := if change.capacity.Some? then item.(capacity := change.capacity.value) else item;
    var item := if change.natsEndpoint.Some? then item.(natsEndpoint := TrimSpace(change.natsEndpoint.value)) else item;
    if change.controlPlaneUrl.Some? then item.(controlPlaneUrl := TrimSlashes(TrimSpace(change.controlPlaneUrl.value))) else item
  }

  /** `strings.TrimRight(s, "/")` */
  function TrimSlashes(s: string): string {
    if s != "" && s[|s| - 1] == '/' then TrimSlashes(s[..|s| - 1]) else s
  }

  /** `updateRunnerInMemory` */
  function Update(s: State, id: RunnerId, change: Change): (State, Outcome<Runner>) {
    if id !in s.runners || s.runners[id].Gone() then (s, Err(RunnerNotFound))
    else
      var item := Changed(s.runners[id], change);
      (s.(runners := s.runners[id := item]), Ok(item))
  }

  /** `runnerInMemoryAction`; an unknown action carries no state. */
  function SetDesired(s: State, id: RunnerId, state: Option<Desired>): (State, Outcome<Runner>) {
    if state.None? then (s, Err(ActionNotFound))
    else if id !in s.runners || s.runners[id].Gone() then (s, Err(RunnerNotFound))
    else
      var item := s.runners[id].(desired := state.value);
      var item := if state.value == Enabled && item.observed == Revoked then item.(observed := Offline) else item;
      (s.(runners := s.runners[id := item]), Ok(item))
  }

  function ArchivedRunner(item: Runner): Runner {
    item.(isArchived := true, isDeleted := true, desired := Disabled, observed := Offline, heartbeat := None)
  }

  /** The in-memory half of `deleteRunner` */
  function Archive(s: State, id: RunnerId): (State, Outcome<()>) {
    if id !in s.runners then (s, Err(RunnerNotFound))
    else
      (s.(runners := s.runners[id := ArchivedRunner(s.runners[id])], enrollments := s.enrollments - TokensOf(s, id)), Ok(()))
  }

  /** The in-memory half of `poolDelete`: archived runners met before a live one lose their pool. */
  function DetachPool(s: State, pool: string, visited: set<RunnerId>): State {
    s.(runners := map id | id in s.runners ::
         if id in visited && s.runners[id].Gone() && s.runners[id].poolId == pool
         then s.runners[id].(poolId := "", pool := "") else s.runners[id])
  }

  ghost predicate PoolInUse(s: State, pool: string) {
    exists id :: id in s.runners && s.runners[id].poolId == pool && !s.runners[id].Gone()
  }

  lemma DetachOne(s: State, pool: string, visited: set<RunnerId>, id: RunnerId)
    requires id in s.runners && id !in visited
    ensures var r := s.runners[id];
            var before, after := DetachPool(s, pool, visited).runners, DetachPool(s, pool, visited + {id}).runners;
            && before[id] == r
            && after == if r.Gone() && r.poolId == pool then before[id := r.(poolId := "", pool := "")] else before
  {
  }

  predicate Stale(item: Runner, now: int, maxAge: int) {
    item.heartbeat.Some? && now - item.heartbeat.value > maxAge
  }

  /** `MarkStale` */
  function MarkStale(s: State, now: int, maxAge: int): State {
    s.(runners := map id | id in s.runners ::
         if Stale(s.runners[id], now, maxAge) then s.runners[id].(observed := Offline) else s.runners[id])
  }

  // ---- Runs ----

  datatype Action =
    | ActEnroll(input: Input, token: Token, expiry: int, poolName: string)
    | ActConsume(token: Token, now: int)
    | ActConsumeWithKey(token: Token, now: int, key: KeyId)
    | ActUpdate(id: RunnerId, change: Change)
    | ActSetDesired(id: RunnerId, state: Option<Desired>)
    | ActArchive(id: RunnerId)
    | ActDetachPool(pool: string, visited: set<RunnerId>)
    | ActMarkStale(now: int, maxAge: int)

  /** Which runner a token was issued to, and until when. */
  datatype Issue = Issue(runner: RunnerId, expiry: int)

  /** A consumption that bound a runner to a key. */
  datatype Binding = Binding(runner: RunnerId, key: KeyId)

  /**
   The service's state and the record of the run: the tokens generated, the tokens consumed and the
   bindings made, in order, and the tokens that were issued and neither consumed nor withdrawn since.
   */
  datatype World = World(s: State, issued: set<Token>, consumed: seq<Token>, bindings: seq<Binding>, live: map<Token, Issue>)

  const START := World(State(map[], map[], map[]), {}, [], [], map[])

  /** A new enrollment or the archiving of a runner withdraws its live tokens. */
  function Withdrawn(live: map<Token, Issue>, runner: RunnerId): map<Token, Issue> {
    map t | t in live && live[t].runner != runner :: live[t]
  }

  function TakenFrom(live: map<Token, Issue>, token: Token): map<Token, Issue> {
    live - {token}
  }

  /** Tokens are 32 random bytes: no two enrollments get the same one. */
  ghost predicate Possible(w: World, a: Action) {
    a.ActEnroll? ==> a.token !in w.issued
  }

  ghost function Step(w: World, a: Action): World {
    match a
    case ActEnroll(input, token, expiry, poolName) =>
      w.(s := Enroll(w.s, input, token, expiry, poolName).0, issued := w.issued + {token},
         live := Withdrawn(w.live, input.runner)[token := Issue(input.runner, expiry)])
    case ActConsume(token, now) =>
      var (s, result) := Consume(w.s, token, now);
      if result.Err? then w.(s := s)
      else w.(s := s, consumed := w.consumed + [token], live := TakenFrom(w.live, token))
    case ActConsumeWithKey(token, now, key) =>
      var (s, result) := ConsumeWithKey(w.s, token, now, key);
      if result.Err? then w.(s := s)
      else
        w.(s := s, consumed := w.consumed + [token], live := TakenFrom(w.live, token),
           bindings := w.bindings + [Binding(w.s.enrollments[token].runner, key)])
    case ActUpdate(id, change) => w.(s := Update(w.s, id, change).0)
    case ActSetDesired(id, state) => w.(s := SetDesired(w.s, id, state).0)
    case ActArchive(id) => w.(s := Archive(w.s, id).0, live := Withdrawn(w.live, id))
    case ActDetachPool(pool, visited) => w.(s := DetachPool(w.s, pool, visited))
    case ActMarkStale(now, maxAge) => w.(s := MarkStale(w.s, now, maxAge))
  }

  ghost function Run(w: World, actions: seq<Action>): World
    decreases |actions|
  {
    if actions == [] then w else Step(Run(w, actions[..|actions| - 1]), actions[|actions| - 1])
  }

  ghost predicate Feasible(w: World, actions: seq<Action>)
    decreases |actions|
  {
    actions != [] ==>
      && Feasible(w, actions[..|actions| - 1])
      && Possible(Run(w, actions[..|actions| - 1]), actions[|actions| - 1])
  }

  // ---- Enrollment safety ----

  ghost predicate TokensKnown(w: World) {
    && w.s.enrollments.Keys <= w.issued
    && forall t :: t in w.s.enrollments ==> w.s.enrollments[t].runner in w.s.runners
  }

  ghost predicate OneWaiting(s: State) {
    forall t, u | t in s.enrollments && u in s.enrollments ::
      !s.enrollments[t].used && !s.enrollments[u].used && s.enrollments[t].runner == s.enrollments[u].runner ==> t == u
  }

  ghost predicate ConsumedOnce(w: World) {
    && (forall i, j :: 0 <= i < j < |w.consumed| ==> w.consumed[i] != w.consumed[j])
    && (forall t :: t in w.consumed ==> t in w.issued)
    && (forall t :: t in w.consumed && t in w.s.enrollments ==> w.s.enrollments[t].used)
  }

  ghost predicate KeysExclusive(s: State) {
    forall a, b :: a in s.keys && b in s.keys && s.keys[a] == s.keys[b] ==> a == b
  }

  ghost predicate Inv(w: World) {
    TokensKnown(w) && OneWaiting(w.s) && ConsumedOnce(w) && KeysExclusive(w.s)
  }

  lemma EnrollKeepsInv(w: World, input: Input, token: Token, expiry: int, poolName: string)
    requires Inv(w) && token !in w.issued
    ensures Inv(Step(w, ActEnroll(input, token, expiry, poolName)))
  {
  }

  lemma AcceptedKeepsInv(w: World, token: Token)
    requires Inv(w) && token in w.s.enrollments && !w.s.enrollments[token].used
    ensures Inv(w.(s := Accepted(w.s, token), consumed := w.consumed + [token]))
  {
  }

  lemma StepKeepsInv(w: World, a: Action)
    requires Inv(w) && Possible(w, a)
    ensures Inv(Step(w, a))
  {
    match a
    case ActEnroll(input, token, expiry, poolName) => EnrollKeepsInv(w, input, token, expiry, poolName);
    case ActConsume(token, now) =>
      if Refusal(w.s, token, now).None? { AcceptedKeepsInv(w, token); }
    case ActConsumeWithKey(token, now, key) =>
      if Refusal(w.s, token, now).None? { AcceptedKeepsInv(w, token); }
    case _ =>
  }

  /**
   In every run each token is consumed at most once, a runner has at most one token waiting, every
   stored enrollment names a known runner, and no two runners are bound to one key.
   */
  lemma {:induction false} EnrollmentSafety(actions: seq<Action>)
    requires Feasible(START, actions)
    ensures Inv(Run(START, actions))
    decreases |actions|
  {
    if actions != [] {
      var init := actions[..|actions| - 1];
      EnrollmentSafety(init);
      StepKeepsInv(Run(START, init), actions[|init|]);
    }
  }

  // ---- Which tokens can be consumed ----

  /** The stored enrollments waiting to be used are the live tokens of the record. */
  ghost predicate LiveRecorded(w: World) {
    && (forall t :: t in w.live <==> t in w.s.enrollments && !w.s.enrollments[t].used)
    && (forall t :: t in w.live ==> w.s.enrollments[t].runner == w.live[t].runner && w.s.enrollments[t].expires == w.live[t].expiry)
  }

  lemma EnrollKeepsLive(w: World, input: Input, token: Token, expiry: int, poolName: string)
    requires LiveRecorded(w)
    ensures LiveRecorded(Step(w, ActEnroll(input, token, expiry, poolName)))
  {
  }

  lemma ConsumeKeepsLive(w: World, a: Action)
    requires LiveRecorded(w) && (a.ActConsume? || a.ActConsumeWithKey?)
    ensures LiveRecorded(Step(w, a))
  {
  }

  lemma ArchiveKeepsLive(w: World, id: RunnerId)
    requires TokensKnown(w) && LiveRecorded(w)
    ensures LiveRecorded(Step(w, ActArchive(id)))
  {
  }

  lemma StepKeepsLive(w: World, a: Action)
    requires Inv(w) && LiveRecorded(w) && Possible(w, a)
    ensures LiveRecorded(Step(w, a))
  {
    match a
    case ActEnroll(input, token, expiry, poolName) => EnrollKeepsLive(w, input, token, expiry, poolName);
    case ActConsume(_, _) => ConsumeKeepsLive(w, a);
    case ActConsumeWithKey(_, _, _) => ConsumeKeepsLive(w, a);
    case ActArchive(id) => ArchiveKeepsLive(w, id);
    case _ => assert Step(w, a).live == w.live && Step(w, a).s.enrollments == w.s.enrollments;
  }

  lemma {:induction false} LiveHolds(actions: seq<Action>)
    requires Feasible(START, actions)
    ensures LiveRecorded(Run(START, actions))
    decreases |actions|
  {
    if actions != [] {
      var init := actions[..|actions| - 1];
      EnrollmentSafety(init);
      LiveHolds(init);
      StepKeepsLive(Run(START, init), actions[|init|]);
    }
  }

  /** Exactly the given runner has changed, by becoming pending without a heartbeat. */
  ghost predicate OnlyPending(before: map<RunnerId, Runner>, after: map<RunnerId, Runner>, id: RunnerId) {
    && id in before && after.Keys == before.Keys
    && after[id] == before[id].(observed := Pending, heartbeat := None)
    && forall other :: other in before && other != id ==> after[other] == before[other]
  }

  lemma ConsumeByRecord(w: World, token: Token, now: int)
    requires Inv(w) && LiveRecorded(w)
    ensures var (s, result) := Consume(w.s, token, now);
            && (result.Ok? <==> token in w.live && now < w.live[token].expiry)
            && (result.Err? ==> s == w.s)
            && (result.Ok? ==> OnlyPending(w.s.runners, s.runners, w.live[token].runner) && result.value == s.runners[w.live[token].runner]
                               && s.keys == w.s.keys)
  {
  }

  /**
   In every run a token can be consumed exactly when it was issued, has neither been consumed nor withdrawn
   since by a new enrollment or the archiving of its runner, and has not expired. Its runner becomes pending
   and nothing else about any runner changes; a refusal changes nothing.
   */
  lemma {:induction false} ConsumeExactly(actions: seq<Action>, token: Token, now: int)
    requires Feasible(START, actions)
    ensures var w := Run(START, actions);
            var (s, result) := Consume(w.s, token, now);
            && (result.Ok? <==> token in w.live && now < w.live[token].expiry)
            && (result.Err? ==> s == w.s)
            && (result.Ok? ==> OnlyPending(w.s.runners, s.runners, w.live[token].runner) && result.value == s.runners[w.live[token].runner]
                               && s.keys == w.s.keys)
  {
    EnrollmentSafety(actions);
    LiveHolds(actions);
    ConsumeByRecord(Run(START, actions), token, now);
  }

  /** Why a token is refused: it is unknown or was withdrawn, it was used and is still stored, or it has expired. */
  lemma {:induction false} RefusalsExactly(actions: seq<Action>, token: Token, now: int)
    requires Feasible(START, actions)
    ensures var w := Run(START, actions);
            var result := Consume(w.s, token, now).1;
            && (token !in w.issued ==> result == Err(EnrollmentNotFound))
            && (token in w.live && now >= w.live[token].expiry ==> result == Err(EnrollmentExpired))
            && (token in w.consumed ==> result == Err(if token in w.s.enrollments then EnrollmentUsed else EnrollmentNotFound))
  {
    EnrollmentSafety(actions);
    LiveHolds(actions);
  }

  // ---- Key bindings ----

  /** The key a runner was last bound to among the first `n` bindings. */
  function LastKey(bindings: seq<Binding>, n: nat, runner: RunnerId): Option<KeyId>
    requires n <= |bindings|
  {
    if n == 0 then None
    else if bindings[n - 1].runner == runner then Some(bindings[n - 1].key)
    else LastKey(bindings, n - 1, runner)
  }

  /** The binding of a runner that stands. */
  function BoundTo(w: World, runner: RunnerId): Option<KeyId> {
    LastKey(w.bindings, |w.bindings|, runner)
  }

  lemma {:induction false} LastKeySame(a: seq<Binding>, b: seq<Binding>, n: nat, runner: RunnerId)
    requires n <= |a| && n <= |b| && forall i :: 0 <= i < n ==> a[i] == b[i]
    ensures LastKey(a, n, runner) == LastKey(b, n, runner)
  {
    if n > 0 {
      LastKeySame(a, b, n - 1, runner);
    }
  }

  /** The stored keys are the bindings that stand. */
  ghost predicate KeysRecorded(w: World) {
    && (forall r :: r in w.s.keys ==> BoundTo(w, r) == Some(w.s.keys[r]))
    && (forall r :: BoundTo(w, r).Some? ==> r in w.s.keys)
  }

  lemma BindingAdded(w: World, v: World, b: Binding)
    requires v.bindings == w.bindings + [b]
    ensures forall r :: BoundTo(v, r) == if r == b.runner then Some(b.key) else BoundTo(w, r)
  {
    forall r
      ensures BoundTo(v, r) == if r == b.runner then Some(b.key) else BoundTo(w, r)
    {
      LastKeySame(v.bindings, w.bindings, |w.bindings|, r);
    }
  }

  lemma StepKeepsKeys(w: World, a: Action)
    requires KeysRecorded(w)
    ensures KeysRecorded(Step(w, a))
  {
    var v := Step(w, a);
    if a.ActConsumeWithKey? && ConsumeWithKey(w.s, a.token, a.now, a.key).1.Ok? {
      BindingAdded(w, v, Binding(w.s.enrollments[a.token].runner, a.key));
    } else {
      assert v.bindings == w.bindings && v.s.keys == w.s.keys;
    }
  }

  lemma {:induction false} KeysHold(actions: seq<Action>)
    ensures KeysRecorded(Run(START, actions))
    decreases |actions|
  {
    if actions != [] {
      KeysHold(actions[..|actions| - 1]);
      StepKeepsKeys(Run(START, actions[..|actions| - 1]), actions[|actions| - 1]);
    }
  }

  /** Another runner is bound to the key. */
  ghost predicate KeyTaken(w: World, runner: RunnerId, key: KeyId) {
    exists other :: other != runner && BoundTo(w, other) == Some(key)
  }

  lemma ConsumeWithKeyByRecord(w: World, token: Token, now: int, key: KeyId)
    requires Inv(w) && LiveRecorded(w) && KeysRecorded(w)
    ensures var (s, result) := ConsumeWithKey(w.s, token, now, key);
            && (result.Ok? <==> token in w.live && now < w.live[token].expiry && !KeyTaken(w, w.live[token].runner, key))
            && (result.Err? ==> s == w.s)
            && (result.Ok? ==> OnlyPending(w.s.runners, s.runners, w.live[token].runner) && s.keys == w.s.keys[w.live[token].runner := key]
                               && result.value == s.runners[w.live[token].runner])
  {
    if token in w.live {
      var runner := w.live[token].runner;
      if other :| other != runner && BoundTo(w, other) == Some(key) {
        assert other in w.s.keys && w.s.keys[other] == key;
      }
    }
  }

  /**
   In every run a token can be consumed with a key exactly when it can be consumed and no other runner's
   binding to that key stands. The runner is then bound to exactly that key and every other binding is as
   it was; a refusal changes nothing.
   */
  lemma {:induction false} ConsumeWithKeyExactly(actions: seq<Action>, token: Token, now: int, key: KeyId)
    requires Feasible(START, actions)
    ensures var w := Run(START, actions);
            var (s, result) := ConsumeWithKey(w.s, token, now, key);
            && (result.Ok? <==> token in w.live && now < w.live[token].expiry && !KeyTaken(w, w.live[token].runner, key))
            && (result.Err? ==> s == w.s)
            && (result.Ok? ==> OnlyPending(w.s.runners, s.runners, w.live[token].runner) && s.keys == w.s.keys[w.live[token].runner := key]
                               && result.value == s.runners[w.live[token].runner])
  {
    EnrollmentSafety(actions);
    LiveHolds(actions);
    KeysHold(actions);
    ConsumeWithKeyByRecord(Run(START, actions), token, now, key);
  }

  /** In every run the bindings that stand are to pairwise different keys, and they are what the service stores. */
  lemma {:induction false} BindingsAreExclusive(actions: seq<Action>, r: RunnerId, q: RunnerId)
    requires Feasible(START, actions) && r != q && BoundTo(Run(START, actions), r).Some?
    ensures BoundTo(Run(START, actions), q) != BoundTo(Run(START, actions), r)
    ensures r in Run(START, actions).s.keys && BoundTo(Run(START, actions), r) == Some(Run(START, actions).s.keys[r])
  {
    EnrollmentSafety(actions);
    KeysHold(actions);
  }

  // ---- What each operation changes of a runner ----

  lemma {:induction false} TrimSlashesCuts(s: string) returns (slashes: string)
    ensures s == TrimSlashes(s) + slashes && (forall i :: 0 <= i < |slashes| ==> slashes[i] == '/')
    ensures TrimSlashes(s) != "" ==> TrimSlashes(s)[|TrimSlashes(s)| - 1] != '/'
    decreases |s|
  {
    slashes := "";
    if s != "" && s[|s| - 1] == '/' {
      var rest := TrimSlashesCuts(s[..|s| - 1]);
      slashes := rest + ['/'];
    }
  }

  /** An update that reaches the runner. */
  predicate Updates(a: Action, id: RunnerId, before: Runner) {
    a.ActUpdate? && a.id == id && !before.isArchived && !before.isDeleted
  }

  predicate Enrolls(a: Action, id: RunnerId, before: Runner) {
    a.ActEnroll? && a.input.runner == id && !before.isArchived && !before.isDeleted
  }

  predicate Commands(a: Action, id: RunnerId, before: Runner) {
    a.ActSetDesired? && a.id == id && a.state.Some? && !before.isArchived && !before.isDeleted
  }

  /** The step consumed a token of the runner. */
  ghost predicate Consumes(w: World, a: Action, id: RunnerId) {
    && (a.ActConsume? || a.ActConsumeWithKey?) && a.token in w.s.enrollments
    && w.s.enrollments[a.token].runner == id && Step(w, a).consumed != w.consumed
  }

  /** The desired state is changed by commands and by archiving only. */
  lemma DesiredChanges(w: World, a: Action, id: RunnerId)
    requires id in w.s.runners
    ensures id in Step(w, a).s.runners
    ensures var before, after := w.s.runners[id], Step(w, a).s.runners[id];
            && after.desired == (if a == ActArchive(id) then Disabled else if Commands(a, id, before) then a.state.value else before.desired)
  {
  }

  /** The flags of archival are set by archiving only, and the name never changes. */
  lemma FlagsChange(w: World, a: Action, id: RunnerId)
    requires id in w.s.runners
    ensures id in Step(w, a).s.runners
    ensures var before, after := w.s.runners[id], Step(w, a).s.runners[id];
            && after.name == before.name
            && after.isArchived == (before.isArchived || a == ActArchive(id))
            && after.isDeleted == (before.isDeleted || a == ActArchive(id))
  {
  }

  /** The capacity is changed by updates and by enrollments that give one, only. */
  lemma CapacityChanges(w: World, a: Action, id: RunnerId)
    requires id in w.s.runners
    ensures id in Step(w, a).s.runners
    ensures var before, after := w.s.runners[id], Step(w, a).s.runners[id];
            after.capacity == if Updates(a, id, before) && a.change.capacity.Some? then a.change.capacity.value
                              else if Enrolls(a, id, before) && a.input.capacity.Some? then a.input.capacity.value
                              else before.capacity
  {
  }

  /** The addresses are changed by updates and by enrollments that give them, only. */
  lemma AddressesChange(w: World, a: Action, id: RunnerId)
    requires id in w.s.runners
    ensures id in Step(w, a).s.runners
    ensures var before, after := w.s.runners[id], Step(w, a).s.runners[id];
            && after.natsEndpoint == (if Updates(a, id, before) && a.change.natsEndpoint.Some? then TrimSpace(a.change.natsEndpoint.value)
                                      else if Enrolls(a, id, before) && TrimSpace(a.input.natsEndpoint) != "" then TrimSpace(a.input.natsEndpoint)
                                      else before.natsEndpoint)
            && after.controlPlaneUrl == (if Updates(a, id, before) && a.change.controlPlaneUrl.Some?
                                         then TrimSlashes(TrimSpace(a.change.controlPlaneUrl.value))
                                         else if Enrolls(a, id, before) && a.input.controlPlaneUrl != "" then a.input.controlPlaneUrl
                                         else before.controlPlaneUrl)
  {
  }

  /** A runner goes offline by archiving, by a stale heartbeat or by enabling it again after a revocation, and pending by a token. */
  lemma ObservedChanges(w: World, a: Action, id: RunnerId)
    requires id in w.s.runners
    ensures id in Step(w, a).s.runners
    ensures var before, after := w.s.runners[id], Step(w, a).s.runners[id];
            var offline := || a == ActArchive(id)
                           || (a.ActMarkStale? && before.heartbeat.Some? && a.now - before.heartbeat.value > a.maxAge)
                           || (Commands(a, id, before) && a.state.value == Enabled && before.observed == Revoked);
            && after.observed == (if offline then Offline else if Consumes(w, a, id) then Pending else before.observed)
            && after.heartbeat == (if a == ActArchive(id) || Consumes(w, a, id) then None else before.heartbeat)
  {
    if a.ActConsume? || a.ActConsumeWithKey? {
      assert w.consumed + [a.token] != w.consumed by { assert |w.consumed + [a.token]| > |w.consumed|; }
    }
  }

  /** A runner leaves its pool only archived, when the pool goes. */
  lemma PoolChanges(w: World, a: Action, id: RunnerId)
    requires id in w.s.runners
    ensures id in Step(w, a).s.runners
    ensures var before, after := w.s.runners[id], Step(w, a).s.runners[id];
            if a.ActDetachPool? && id in a.visited && (before.isArchived || before.isDeleted) && before.poolId == a.pool
            then after.poolId == "" && after.pool == "" else after.poolId == before.poolId && after.pool == before.pool
  {
  }

  /** Updates and commands reach exactly the known runners that are not archived, archiving every known runner. */
  lemma OutcomesExactly(s: State, id: RunnerId, change: Change, state: Option<Desired>)
    ensures var live := id in s.runners && !s.runners[id].isArchived && !s.runners[id].isDeleted;
            && (Update(s, id, change).1.Ok? <==> live) && (Update(s, id, change).1.Err? ==> Update(s, id, change).0 == s)
            && (SetDesired(s, id, state).1.Ok? <==> live && state.Some?) && (SetDesired(s, id, state).1.Err? ==> SetDesired(s, id, state).0 == s)
            && (live ==> Update(s, id, change).1.value == Update(s, id, change).0.runners[id])
            && (live && state.Some? ==> SetDesired(s, id, state).1.value == SetDesired(s, id, state).0.runners[id])
            && (Archive(s, id).1.Ok? <==> id in s.runners)
  {
  }

  /** A runner appears only by its first enrollment, enabled, pending, and with a capacity of ten unless another was given. */
  lemma RunnersAppear(w: World, a: Action, id: RunnerId)
    requires id !in w.s.runners
    ensures id in Step(w, a).s.runners <==> a.ActEnroll? && a.input.runner == id
    ensures id in Step(w, a).s.runners ==>
              var added := Step(w, a).s.runners[id];
              && added.name == a.input.name && added.poolId == a.input.poolId && added.pool == a.poolName
              && added.desired == Enabled && added.observed == Pending && added.heartbeat == None
              && added.capacity == (if a.input.capacity.Some? then a.input.capacity.value else 10)
              && added.natsEndpoint == TrimSpace(a.input.natsEndpoint) && added.controlPlaneUrl == a.input.controlPlaneUrl
              && !added.isArchived && !added.isDeleted
  {
  }

  // ---- Withdrawn tokens ----

  ghost predicate Dead(w: World, token: Token) {
    token in w.issued && token !in w.s.enrollments
  }

  lemma StepKeepsDead(w: World, a: Action, token: Token)
    requires Possible(w, a) && Dead(w, token)
    ensures Dead(Step(w, a), token)
    ensures multiset(Step(w, a).consumed)[token] == multiset(w.consumed)[token]
  {
    if Step(w, a).consumed != w.consumed {
      assert Step(w, a).consumed == w.consumed + [a.token];
    }
  }

  /** A token that is no longer stored can never be consumed again, whatever happens next. */
  lemma {:induction false} WithdrawnForever(w: World, actions: seq<Action>, token: Token)
    requires Feasible(w, actions) && Dead(w, token)
    ensures Dead(Run(w, actions), token)
    ensures multiset(Run(w, actions).consumed)[token] == multiset(w.consumed)[token]
    decreases |actions|
  {
    if actions != [] {
      var init := actions[..|actions| - 1];
      WithdrawnForever(w, init, token);
      StepKeepsDead(Run(w, init), actions[|init|], token);
    }
  }

  lemma EnrollmentWithdraws(w: World, input: Input, token: Token, expiry: int, poolName: string, old': Token)
    requires Inv(w) && token !in w.issued && old' in Waiting(w.s, input.runner)
    ensures Dead(Step(w, ActEnroll(input, token, expiry, poolName)), old')
  {
  }

  lemma ArchivingWithdraws(w: World, id: RunnerId, token: Token)
    requires Inv(w) && token in TokensOf(w.s, id)
    ensures Dead(Step(w, ActArchive(id)), token)
  {
  }

  lemma DeadUnconsumed(w: World, more: seq<Action>, token: Token)
    requires Feasible(w, more) && Dead(w, token) && token !in w.consumed
    ensures token !in Run(w, more).consumed
  {
    WithdrawnForever(w, more, token);
    assert multiset(w.consumed)[token] == 0;
    assert token in Run(w, more).consumed ==> multiset(Run(w, more).consumed)[token] > 0;
  }

  /** In every run, a token that was waiting when its runner was enrolled again is never consumed afterwards. */
  lemma {:induction false} ReplacedTokenIsNeverConsumed(
    actions: seq<Action>, input: Input, token: Token, expiry: int, poolName: string, more: seq<Action>, waiting: Token)
    requires Feasible(START, actions) && token !in Run(START, actions).issued
    requires waiting in Waiting(Run(START, actions).s, input.runner)
    requires Feasible(Step(Run(START, actions), ActEnroll(input, token, expiry, poolName)), more)
    ensures waiting !in Run(Step(Run(START, actions), ActEnroll(input, token, expiry, poolName)), more).consumed
  {
    EnrollmentSafety(actions);
    var w := Run(START, actions);
    EnrollmentWithdraws(w, input, token, expiry, poolName, waiting);
    DeadUnconsumed(Step(w, ActEnroll(input, token, expiry, poolName)), more, waiting);
  }

  /** In every run, a token that was waiting when its runner was archived is never consumed afterwards. */
  lemma {:induction false} ArchivedTokenIsNeverConsumed(actions: seq<Action>, id: RunnerId, more: seq<Action>, waiting: Token)
    requires Feasible(START, actions) && waiting in Waiting(Run(START, actions).s, id)
    requires Feasible(Step(Run(START, actions), ActArchive(id)), more)
    ensures waiting !in Run(Step(Run(START, actions), ActArchive(id)), more).consumed
  {
    EnrollmentSafety(actions);
    var w := Run(START, actions);
    ArchivingWithdraws(w, id, waiting);
    DeadUnconsumed(Step(w, ActArchive(id)), more, waiting);
  }

  // ---- Archival is permanent ----

  ghost predicate Archived(s: State, id: RunnerId) {
    id in s.runners && s.runners[id].isArchived && s.runners[id].isDeleted && s.runners[id].desired == Disabled
  }

  lemma StepKeepsArchived(w: World, a: Action, id: RunnerId)
    requires Archived(w.s, id)
    ensures Archived(Step(w, a).s, id)
  {
  }

  /** What every step keeps, every run keeps. */
  lemma {:induction false} KeptByRuns(w: World, actions: seq<Action>, kept: World -> bool)
    requires kept(w)
    requires forall v, a :: kept(v) ==> kept(Step(v, a))
    ensures kept(Run(w, actions))
    decreases |actions|
  {
    if actions != [] {
      KeptByRuns(w, actions[..|actions| - 1], kept);
    }
  }

  /** Once archived, a runner stays archived, deleted and disabled through every later operation. */
  lemma {:induction false} ArchivalIsPermanent(w: World, id: RunnerId, actions: seq<Action>)
    requires Archived(w.s, id)
    ensures Archived(Run(w, actions).s, id)
  {
    forall v: World, a | Archived(v.s, id)
      ensures Archived(Step(v, a).s, id)
    {
      StepKeepsArchived(v, a, id);
    }
    KeptByRuns(w, actions, (v: World) => Archived(v.s, id));
  }

  lemma ArchiveArchives(s: State, id: RunnerId)
    requires id in s.runners
    ensures Archived(Archive(s, id).0, id)
  {
  }

  /** From the moment it is archived on, whatever happens. */
  lemma {:induction false} ArchivedForever(w: World, id: RunnerId, more: seq<Action>)
    requires id in w.s.runners
    ensures Archived(Run(Step(w, ActArchive(id)), more).s, id)
  {
    ArchiveArchives(w.s, id);
    ArchivalIsPermanent(Step(w, ActArchive(id)), id, more);
  }

  /** Archiving leaves a runner without tokens; only an enrollment for it stores one again. */
  lemma TokensReturnOnlyByEnrolling(w: World, a: Action, id: RunnerId)
    requires Archived(w.s, id) && TokensOf(w.s, id) == {}
    ensures TokensOf(Step(w, a).s, id) != {} <==> a.ActEnroll? && a.input.runner == id
  {
    if a.ActEnroll? && a.input.runner == id {
      assert a.token in TokensOf(Step(w, a).s, id);
    } else {
      forall t
        ensures t !in TokensOf(Step(w, a).s, id)
      {
        assert t !in TokensOf(w.s, id);
      }
    }
  }

  /**
   A refused enrollment is for an archived runner, and yet usable: its token is stored, and consuming it
   succeeds exactly until it expires, showing the archived runner as pending.
   */
  lemma RefusedEnrollmentIsUsable(w: World, input: Input, token: Token, expiry: int, poolName: string, now: int)
    ensures var (s, answer) := Enroll(w.s, input, token, expiry, poolName);
            var (after, result) := Consume(s, token, now);
            answer.Err? ==>
              && (result.Ok? <==> now < expiry)
              && (result.Ok? ==> result.value.observed == Pending)
              && (Archived(w.s, input.runner) ==> Archived(after, input.runner))
    ensures Enroll(w.s, input, token, expiry, poolName).1.Err? <==>
            input.runner in w.s.runners && (w.s.runners[input.runner].isArchived || w.s.runners[input.runner].isDeleted)
  {
  }
}
