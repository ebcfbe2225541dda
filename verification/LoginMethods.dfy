/**
 A login method always remains: the settings handler and the provider handler each refuse to switch off
 the last one.
 Source: backend/internal/api/auth_admin.go and the in-memory half of backend/internal/api/oidc_auth.go.
 */
module LoginMethods {
  import opened Common
  import opened Sets

  /** Provider keys and whether each provider is enabled. */
  type Providers = map<string, bool>

  /** The services behind `AuthAdminService`; each may be absent. */
  datatype Admin = Admin(auth: Option<bool>, password: Option<bool>, oidc: Option<Providers>)

  function Enabled(providers: Providers): set<string> {
    set key | key in providers && providers[key]
  }

  /** `EnabledCount` */
  method EnabledCount(providers: Providers) returns (count: nat)
    ensures count == |Enabled(providers)|
  {
    count := 0;
    var unvisited := providers.Keys;
    ghost var counted: set<string> := {};
    while unvisited != {}
      invariant unvisited <= providers.Keys
      invariant counted == Enabled(providers) - unvisited && count == |counted|
      decreases |unvisited|
    {
      var key := Pick(unvisited);
      if providers[key] {
        count := count + 1;
        counted := counted + {key};
      }
      unvisited := unvisited - {key};
    }
    assert Enabled(providers) - {} == Enabled(providers);
  }

  function SSOCount(a: Admin): nat {
    if a.oidc.Some? then |Enabled(a.oidc.value)| else 0
  }

  /** The flag as the settings handler reads it: the auth service first. */
  function SettingsFlag(a: Admin): bool {
    if a.auth.Some? then a.auth.value else a.password.Some? && a.password.value
  }

  /** The flag as the provider handler reads it: the password service first. */
  function ProviderFlag(a: Admin): bool {
    if a.password.Some? then a.password.value else a.auth.Some? && a.auth.value
  }

  /** A settings request; the last two fields say whether the two stores would fail. */
  datatype Settings = Settings(enabled: Option<bool>, otherAuthField: bool, lockdown: Option<bool>, authStoreFails: bool, lockdownStoreFails: bool)

  predicate AuthChanged(input: Settings) {
    input.enabled.Some? || input.otherAuthField
  }

  function NewFlag(a: Admin, input: Settings): bool {
    if input.enabled.Some? then input.enabled.value else SettingsFlag(a)
  }

  /** The guard of `authSettingsHandler` */
  predicate SettingsRefused(a: Admin, input: Settings) {
    || (a.auth.None? && a.password.None?)
    || (AuthChanged(input) && !NewFlag(a, input) && SSOCount(a) == 0)
  }

  /** `authSettingsHandler` with `persistAuthSettings` */
  function ApplySettings(a: Admin, input: Settings): Admin {
    if SettingsRefused(a, input) then a
    else if a.auth.Some? && AuthChanged(input) && input.authStoreFails then a
    else
      var saved := if a.auth.Some? && AuthChanged(input) then a.(auth := Some(NewFlag(a, input))) else a;
      if a.auth.Some? && input.lockdown.Some? && input.lockdownStoreFails then saved
      else if a.password.Some? && AuthChanged(input) then saved.(password := Some(NewFlag(a, input)))
      else saved
  }

  /** `addAuthProvider` with the in-memory `saveProvider`; `valid` is the outcome of its other checks. */
  function AddProvider(a: Admin, key: string, enabled: bool, valid: bool): Admin {
    if a.oidc.None? then a
    else
      var providers := a.oidc.value;
      if key in providers && providers[key] && !enabled && !ProviderFlag(a) && SSOCount(a) == 1 then a
      else if !valid then a
      else a.(oidc := Some(providers[key := enabled]))
  }

  lemma SwitchOff(providers: Providers, key: string, enabled: bool)
    ensures |Enabled(providers[key := enabled])|
            == |Enabled(providers)| - (if key in Enabled(providers) then 1 else 0) + (if enabled then 1 else 0)
  {
    var after := Enabled(providers[key := enabled]);
    var others := Enabled(providers) - {key};
    assert after == if enabled then others + {key} else others;
    if key in Enabled(providers) {
      assert Enabled(providers) == others + {key};
    } else {
      assert Enabled(providers) == others;
    }
  }

  /** Both services agree where both exist, and password login or a provider is enabled. */
  ghost predicate Safe(a: Admin) {
    && (a.auth.Some? && a.password.Some? ==> a.auth == a.password)
    && (SettingsFlag(a) || SSOCount(a) > 0)
  }

  lemma AddProviderKeepsSafe(a: Admin, key: string, enabled: bool, valid: bool)
    requires Safe(a)
    ensures Safe(AddProvider(a, key, enabled, valid))
  {
    if a.oidc.Some? {
      SwitchOff(a.oidc.value, key, enabled);
    }
  }

  /** The one way the settings handler breaks it: it stops between its two stores with a changed flag. */
  predicate HalfSaved(a: Admin, input: Settings) {
    && a.auth.Some? && a.password.Some?
    && !SettingsRefused(a, input) && AuthChanged(input) && !input.authStoreFails
    && input.lockdown.Some? && input.lockdownStoreFails
    && NewFlag(a, input) != a.password.value
  }

  lemma SettingsKeepSafeExactly(a: Admin, input: Settings)
    requires Safe(a)
    ensures Safe(ApplySettings(a, input)) <==> !HalfSaved(a, input)
  {
  }

  /**
   A settings request that changes the flag, is not refused and meets no failing store leaves the flag asked
   for in every configured password service, and the providers as they were. It is refused exactly when no
   service is configured or it would switch password login off with no provider enabled.
   */
  lemma SettingsTakeEffect(a: Admin, input: Settings, flag: bool)
    requires input.enabled == Some(flag) && !input.authStoreFails && !input.lockdownStoreFails
    ensures var after := ApplySettings(a, input);
            var refused := (a.auth.None? && a.password.None?) || (!flag && (a.oidc.None? || Enabled(a.oidc.value) == {}));
            && after.oidc == a.oidc
            && (refused ==> after == a)
            && (!refused ==>
                  && (a.auth.Some? ==> after.auth == Some(flag)) && (a.password.Some? ==> after.password == Some(flag))
                  && (a.auth.None? ==> after.auth.None?) && (a.password.None? ==> after.password.None?))
  {
    if a.oidc.Some? {
      assert |Enabled(a.oidc.value)| == 0 <==> Enabled(a.oidc.value) == {};
    }
  }

  /** A valid provider request stores its state unless it would switch the last login method off, and nothing else. */
  lemma ProviderTakesEffect(a: Admin, key: string, enabled: bool)
    requires a.oidc.Some?
    ensures var after := AddProvider(a, key, enabled, true);
            var last := !enabled && Enabled(a.oidc.value) == {key} && !ProviderFlag(a);
            && after.auth == a.auth && after.password == a.password
            && after.oidc == if last then a.oidc else Some(a.oidc.value[key := enabled])
  {
    OnlyOne(Enabled(a.oidc.value), key);
  }

  lemma OnlyOne(s: set<string>, key: string)
    ensures s == {key} <==> key in s && |s| == 1
  {
    if key in s && |s| == 1 {
      var rest := s - {key};
      assert s == rest + {key};
      assert |rest| == 0;
    }
  }

  // ---- Runs ----

  datatype Action = ChangeSettings(input: Settings) | SaveProvider(key: string, enabled: bool, valid: bool)

  function Step(a: Admin, action: Action): Admin {
    match action
    case ChangeSettings(input) => ApplySettings(a, input)
    case SaveProvider(key, enabled, valid) => AddProvider(a, key, enabled, valid)
  }

  function Run(a: Admin, actions: seq<Action>): Admin
    decreases |actions|
  {
    if actions == [] then a else Step(Run(a, actions[..|actions| - 1]), actions[|actions| - 1])
  }

  /** One of the two password services is configured, as the control plane does. */
  predicate OneService(a: Admin) {
    a.auth.None? || a.password.None?
  }

  /** With one password service, no sequence of requests, failing stores included, locks everybody out. */
  lemma {:induction false} LoginMethodRemains(a: Admin, actions: seq<Action>)
    requires Safe(a) && OneService(a)
    ensures Safe(Run(a, actions)) && OneService(Run(a, actions))
    decreases |actions|
  {
    if actions != [] {
      var init := actions[..|actions| - 1];
      LoginMethodRemains(a, init);
      var before := Run(a, init);
      match actions[|init|]
      case ChangeSettings(input) => SettingsKeepSafeExactly(before, input);
      case SaveProvider(key, enabled, valid) => AddProviderKeepsSafe(before, key, enabled, valid);
    }
  }

  /** With both services a half-saved change makes the two guards disagree, and the last method goes. */
  lemma BothServicesCanLockOut(key: string)
    ensures var start := Admin(Some(true), Some(true), Some(map[key := true]));
            var end := Run(start, [ChangeSettings(Settings(Some(false), false, Some(true), false, true)), SaveProvider(key, false, true)]);
            Safe(start) && !SettingsFlag(end) && SSOCount(end) == 0
  {
    var providers := map[key := true];
    assert Enabled(providers) == {key};
    var start := Admin(Some(true), Some(true), Some(providers));
    var change := ChangeSettings(Settings(Some(false), false, Some(true), false, true));
    var save := SaveProvider(key, false, true);
    assert [change, save][..1] == [change] && [change][..0] == [];
    var half := Run(start, [change]);
    assert half == Step(Run(start, []), change);
    assert half == Admin(Some(false), Some(true), Some(providers));
    assert Enabled(providers[key := false]) == {};
  }

  // ---- Requests that overlap ----

  /** What a request that passed its guard is about to store. */
  datatype Write = SetFlag(value: bool) | SetProvider(key: string, enabled: bool)

  /** The one password flag and the providers, and the requests between their guard and their store. */
  datatype Shared = Shared(flag: bool, providers: Providers, pending: seq<Write>)

  predicate Remains(s: Shared) {
    s.flag || |Enabled(s.providers)| > 0
  }

  /** The guard of the handler that stores `write`, on the present state. */
  predicate Passes(s: Shared, write: Write) {
    match write
    case SetFlag(value) => value || |Enabled(s.providers)| > 0
    case SetProvider(key, enabled) =>
      !(key in s.providers && s.providers[key] && !enabled && !s.flag && |Enabled(s.providers)| == 1)
  }

  function Stored(s: Shared, write: Write): Shared {
    match write
    case SetFlag(value) => s.(flag := value)
    case SetProvider(key, enabled) => s.(providers := s.providers[key := enabled])
  }

  /** A change of the settings without a new flag stores the flag as it was read. */
  datatype SharedAction = CheckFlag(flag: Option<bool>) | CheckProvider(key: string, enabled: bool) | Commit(i: nat) | Abandon(i: nat)

  function Requested(s: Shared, a: SharedAction): Write
    requires a.CheckFlag? || a.CheckProvider?
  {
    match a
    case CheckFlag(flag) => SetFlag(if flag.Some? then flag.value else s.flag)
    case CheckProvider(key, enabled) => SetProvider(key, enabled)
  }

  function Dropped(s: Shared, i: nat): Shared
    requires i < |s.pending|
  {
    s.(pending := s.pending[..i] + s.pending[i + 1..])
  }

  function SharedStep(s: Shared, a: SharedAction): Shared {
    match a
    case Commit(i) => if i < |s.pending| then Stored(Dropped(s, i), s.pending[i]) else s
    case Abandon(i) => if i < |s.pending| then Dropped(s, i) else s
    case _ =>
      var write := Requested(s, a);
      if Passes(s, write) then s.(pending := s.pending + [write]) else s
  }

  function SharedRun(s: Shared, actions: seq<SharedAction>): Shared
    decreases |actions|
  {
    if actions == [] then s else SharedStep(SharedRun(s, actions[..|actions| - 1]), actions[|actions| - 1])
  }

  /** Storing keeps a login method exactly when the handler's guard would still let it pass. */
  lemma StoredKeepsExactly(s: Shared, write: Write)
    requires Remains(s)
    ensures Remains(Stored(s, write)) <==> Passes(s, write)
  {
    if write.SetProvider? {
      SwitchOff(s.providers, write.key, write.enabled);
    }
  }

  /** A store whose guard no longer holds. */
  predicate Stale(s: Shared, a: SharedAction) {
    a.Commit? && a.i < |s.pending| && !Passes(s, s.pending[a.i])
  }

  ghost predicate AlwaysRemains(s: Shared, actions: seq<SharedAction>)
    decreases |actions|
  {
    Remains(SharedRun(s, actions)) && (actions != [] ==> AlwaysRemains(s, actions[..|actions| - 1]))
  }

  ghost predicate NeverStale(s: Shared, actions: seq<SharedAction>)
    decreases |actions|
  {
    actions != [] ==>
      && NeverStale(s, actions[..|actions| - 1])
      && !Stale(SharedRun(s, actions[..|actions| - 1]), actions[|actions| - 1])
  }

  lemma StepRemainsExactly(s: Shared, a: SharedAction)
    requires Remains(s)
    ensures Remains(SharedStep(s, a)) <==> !Stale(s, a)
  {
    if a.Commit? && a.i < |s.pending| {
      StoredKeepsExactly(Dropped(s, a.i), s.pending[a.i]);
    }
  }

  /** In every run of overlapping requests a login method remains throughout exactly when no store is stale. */
  lemma {:induction false} RemainsExactlyUnlessStale(s: Shared, actions: seq<SharedAction>)
    requires Remains(s)
    ensures AlwaysRemains(s, actions) <==> NeverStale(s, actions)
    decreases |actions|
  {
    if actions != [] {
      var init := actions[..|actions| - 1];
      RemainsExactlyUnlessStale(s, init);
      if AlwaysRemains(s, init) {
        StepRemainsExactly(SharedRun(s, init), actions[|init|]);
      }
    }
  }

  /** Every request begins when no other is under way. */
  ghost predicate Serial(s: Shared, actions: seq<SharedAction>)
    decreases |actions|
  {
    actions != [] ==>
      && Serial(s, actions[..|actions| - 1])
      && (actions[|actions| - 1].CheckFlag? || actions[|actions| - 1].CheckProvider? ==>
            SharedRun(s, actions[..|actions| - 1]).pending == [])
  }

  /** At most one request is under way, and its guard holds. */
  ghost predicate OneAtATime(s: Shared) {
    Remains(s) && |s.pending| <= 1 && (s.pending != [] ==> Passes(s, s.pending[0]))
  }

  lemma SerialStep(s: Shared, a: SharedAction)
    requires OneAtATime(s) && (a.CheckFlag? || a.CheckProvider? ==> s.pending == [])
    ensures OneAtATime(SharedStep(s, a)) && !Stale(s, a)
  {
    StepRemainsExactly(s, a);
  }

  /** Requests that do not overlap leave a login method. */
  lemma {:induction false} SerialRequestsRemain(s: Shared, actions: seq<SharedAction>)
    requires Remains(s) && s.pending == [] && Serial(s, actions)
    ensures OneAtATime(SharedRun(s, actions)) && NeverStale(s, actions)
    decreases |actions|
  {
    if actions != [] {
      var init := actions[..|actions| - 1];
      SerialRequestsRemain(s, init);
      SerialStep(SharedRun(s, init), actions[|init|]);
    }
  }

  /** With one password service: two administrators each switch off what the other's guard relied on. */
  lemma OverlapCanLockOut(key: string)
    ensures var start := Shared(true, map[key := true], []);
            Remains(start) && !Remains(SharedRun(start, [CheckFlag(Some(false)), CheckProvider(key, false), Commit(0), Commit(0)]))
  {
    var providers := map[key := true];
    assert Enabled(providers) == {key} && Enabled(providers[key := false]) == {};
    var start := Shared(true, providers, []);
    var a, b, c := CheckFlag(Some(false)), CheckProvider(key, false), Commit(0);
    assert [a, b, c, c][..3] == [a, b, c] && [a, b, c][..2] == [a, b] && [a, b][..1] == [a] && [a][..0] == [];
    assert SharedRun(start, []) == start;
    assert SharedRun(start, [a]) == start.(pending := [SetFlag(false)]);
    assert SharedRun(start, [a, b]) == start.(pending := [SetFlag(false), SetProvider(key, false)]);
    assert SharedRun(start, [a, b, c]) == Shared(false, providers, [SetProvider(key, false)]);
    assert SharedRun(start, [a, b, c, c]) == Shared(false, providers[key := false], []);
  }

  /** The state the overlapping requests share, for a service with one password flag. */
  function SharedOf(a: Admin): Shared
    requires a.oidc.Some?
  {
    Shared(SettingsFlag(a), a.oidc.value, [])
  }

  /** A handler that runs alone is its check followed by its store. */
  lemma HandlersRunAlone(a: Admin, input: Settings, key: string, enabled: bool)
    requires OneService(a) && (a.auth.Some? || a.password.Some?) && a.oidc.Some?
    ensures AuthChanged(input) && !input.authStoreFails && (a.auth.None? || input.lockdown.None? || !input.lockdownStoreFails) ==>
              SharedOf(ApplySettings(a, input)) == SharedStep(SharedStep(SharedOf(a), CheckFlag(input.enabled)), Commit(0))
    ensures SharedOf(AddProvider(a, key, enabled, true)) == SharedStep(SharedStep(SharedOf(a), CheckProvider(key, enabled)), Commit(0))
  {
  }
}
