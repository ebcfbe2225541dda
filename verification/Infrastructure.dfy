/**
 The in-memory `InfrastructureService`: maps changed in place under a mutex. Each method is one
 critical section; its new state is the one `Leases` and `Enrollment` prove their theorems about.
 Source: backend/internal/api/infrastructure.go.
 */
module Infrastructure {
  import opened Common
  import opened Sets
  import Text
  import opened Durations
  import L = Leases
  import E = Enrollment

  class InfrastructureService {
    var resources: L.Resources
    var runners: map<E.RunnerId, E.Runner>
    var pools: map<string, string>
    var enrollments: map<E.Token, E.Enrolled>
    var runnerKeys: map<E.RunnerId, E.KeyId>

    constructor ()
      ensures resources == map[] && Runners() == E.START.s
    {
      resources, runners, enrollments, runnerKeys := map[], map[], map[], map[];
      pools := map["default" := "default"];
    }

    ghost function Runners(): E.State
      reads this
    {
      E.State(runners, enrollments, runnerKeys)
    }

    /** The in-memory half of `resourceCreate`; the id is random. */
    method CreateResource(id: L.Id)
      modifies `resources
      ensures resources == old(resources)[id := L.NEW_RESOURCE]
    {
      resources := resources[id := L.Resource("", L.Blank, 0, 0)];
    }

    method AcquireLease(id: L.Id, holder: string, ttl: Duration, now: int) returns (result: L.Outcome<L.Resource>)
      modifies `resources
      ensures (resources, result) == L.Acquire(old(resources), id, holder, ttl, now)
    {
      if Text.TrimSpace(holder) == "" || ttl <= 0 {
        return Err(L.InvalidLease);
      }
      if id !in resources {
        return Err(L.ResourceNotFound);
      }
      var item := resources[id];
      if L.LeaseActive(item, now) {
        return Err(L.LeaseConflict);
      }
      item := item.(holder := holder);
      item := item.(expiresAt := L.Format(now + ttl));
      item := item.(fencingToken := item.fencingToken + 1);
      resources := resources[id := item];
      result := Ok(item);
    }

    method ReleaseLease(id: L.Id, holder: string, fencingToken: int) returns (result: L.Outcome<()>)
      modifies `resources
      ensures (resources, result) == L.Release(old(resources), id, holder, fencingToken)
    {
      if id !in resources {
        return Err(L.ResourceNotFound);
      }
      var item := resources[id];
      if item.holder != holder || item.fencingToken != fencingToken {
        return Err(L.LeaseOwner);
      }
      item := item.(holder := "", expiresAt := L.Blank);
      resources := resources[id := item];
      result := Ok(());
    }

    method DeleteResource(id: L.Id, now: int) returns (result: L.Outcome<()>)
      modifies `resources
      ensures (resources, result) == L.Delete(old(resources), id, now)
    {
      if id !in resources {
        return Err(L.ResourceNotFound);
      }
      var item := resources[id];
      if item.activeReferences > 0 || L.LeaseActive(item, now) {
        return Err(L.ResourceInUse);
      }
      resources := resources - {id};
      result := Ok(());
    }

    /** The loop of `saveInMemoryEnrollment` */
    method DropWaiting(runner: E.RunnerId)
      modifies `enrollments
      ensures enrollments == old(enrollments) - E.Waiting(old(Runners()), runner)
    {
      ghost var waiting := E.Waiting(Runners(), runner);
      var unvisited := enrollments.Keys;
      while unvisited != {}
        invariant unvisited <= old(enrollments).Keys
        invariant enrollments == old(enrollments) - (waiting - unvisited)
        decreases |unvisited|
      {
        var existing := Pick(unvisited);
        var item := enrollments[existing];
        if item.runner == runner && !item.used {
          enrollments := enrollments - {existing};
        }
        unvisited := unvisited - {existing};
      }
      assert waiting - {} == waiting;
    }

    /** `saveInMemoryEnrollment` */
    method SaveEnrollment(input: E.Input, token: E.Token, expiry: int, poolName: string) returns (result: E.Outcome<()>)
      modifies `runners, `enrollments
      ensures (Runners(), result) == E.Enroll(old(Runners()), input, token, expiry, poolName)
    {
      DropWaiting(input.runner);
      enrollments := enrollments[token := E.Enrolled(input.runner, expiry, false)];
      var ok := input.runner in runners;
      if ok && (runners[input.runner].isArchived || runners[input.runner].isDeleted) {
        return Err(E.RunnerArchived);
      }
      var item;
      if ok {
        item := runners[input.runner];
      } else {
        item := E.Runner(input.name, input.poolId, poolName, E.Enabled, E.Pending, 0, None,
                         Text.TrimSpace(input.natsEndpoint), input.controlPlaneUrl, false, false);
      }
      if Text.TrimSpace(input.natsEndpoint) != "" {
        item := item.(natsEndpoint := Text.TrimSpace(input.natsEndpoint));
      }
      if input.controlPlaneUrl != "" {
        item := item.(controlPlaneUrl := input.controlPlaneUrl);
      }
      if input.capacity.Some? || !ok {
        item := item.(capacity := E.DEFAULT_CAPACITY);
        if input.capacity.Some? {
          item := item.(capacity := input.capacity.value);
        }
      }
      runners := runners[input.runner := item];
      result := Ok(());
    }

    method ConsumeEnrollment(token: E.Token, now: int) returns (result: E.Outcome<E.Runner>)
      modifies `runners, `enrollments
      ensures (Runners(), result) == E.Consume(old(Runners()), token, now)
    {
      if token !in enrollments {
        return Err(E.EnrollmentNotFound);
      }
      var item := enrollments[token];
      if item.used {
        return Err(E.EnrollmentUsed);
      }
      if !(now < item.expires) {
        return Err(E.EnrollmentExpired);
      }
      if item.runner !in runners {
        return Err(E.EnrollmentNotFound);
      }
      enrollments := enrollments[token := item.(used := true)];
      var runner := runners[item.runner].(observed := E.Pending, heartbeat := None);
      runners := runners[item.runner := runner];
      result := Ok(runner);
    }

    method ConsumeEnrollmentWithKey(token: E.Token, now: int, keyId: E.KeyId) returns (result: E.Outcome<E.Runner>)
      modifies `runners, `enrollments, `runnerKeys
      ensures (Runners(), result) == E.ConsumeWithKey(old(Runners()), token, now, keyId)
    {
      if token !in enrollments {
        return Err(E.EnrollmentNotFound);
      }
      var item := enrollments[token];
      if item.used {
        return Err(E.EnrollmentUsed);
      }
      if !(now < item.expires) {
        return Err(E.EnrollmentExpired);
      }
      if item.runner !in runners {
        return Err(E.EnrollmentNotFound);
      }
      var unvisited := runnerKeys.Keys;
      while unvisited != {}
        invariant unvisited <= runnerKeys.Keys && Runners() == old(Runners())
        invariant forall other :: other in runnerKeys.Keys - unvisited && other != item.runner ==> runnerKeys[other] != keyId
        decreases |unvisited|
      {
        var runnerId := Pick(unvisited);
        if runnerId != item.runner && runnerKeys[runnerId] == keyId {
          return Err(E.KeyAlreadyBound);
        }
        unvisited := unvisited - {runnerId};
      }
      assert !E.BoundElsewhere(Runners(), item.runner, keyId);
      enrollments := enrollments[token := item.(used := true)];
      var runner := runners[item.runner].(observed := E.Pending, heartbeat := None);
      runners := runners[item.runner := runner];
      runnerKeys := runnerKeys[item.runner := keyId];
      result := Ok(runner);
    }

    method UpdateRunner(id: E.RunnerId, input: E.Change) returns (result: E.Outcome<E.Runner>)
      modifies `runners
      ensures (Runners(), result) == E.Update(old(Runners()), id, input)
    {
      if id !in runners || runners[id].isArchived || runners[id].isDeleted {
        return Err(E.RunnerNotFound);
      }
      var item := runners[id];
      if input.capacity.Some? {
        item := item.(capacity := input.capacity.value);
      }
      if input.natsEndpoint.Some? {
        item := item.(natsEndpoint := Text.TrimSpace(input.natsEndpoint.value));
      }
      if input.controlPlaneUrl.Some? {
        item := item.(controlPlaneUrl := E.TrimSlashes(Text.TrimSpace(input.controlPlaneUrl.value)));
      }
      runners := runners[id := item];
      result := Ok(item);
    }

    method RunnerAction(id: E.RunnerId, state: Option<E.Desired>) returns (result: E.Outcome<E.Runner>)
      modifies `runners
      ensures (Runners(), result) == E.SetDesired(old(Runners()), id, state)
    {
      if state.None? {
        return Err(E.ActionNotFound);
      }
      if id !in runners || runners[id].isArchived || runners[id].isDeleted {
        return Err(E.RunnerNotFound);
      }
      var item := runners[id].(desired := state.value);
      if state.value == E.Enabled && item.observed == E.Revoked {
        item := item.(observed := E.Offline);
      }
      runners := runners[id := item];
      result := Ok(item);
    }

    method DeleteRunner(id: E.RunnerId) returns (result: E.Outcome<()>)
      modifies `runners, `enrollments
      ensures (Runners(), result) == E.Archive(old(Runners()), id)
    {
      if id !in runners {
        return Err(E.RunnerNotFound);
      }
      var runner := runners[id];
      runner := runner.(isArchived := true, isDeleted := true);
      runner := runner.(desired := E.Disabled, observed := E.Offline);
      runner := runner.(heartbeat := None);
      runners := runners[id := runner];
      DropTokens(id);
      result := Ok(());
    }

    /** The loop of `deleteRunner` */
    method DropTokens(runner: E.RunnerId)
      modifies `enrollments
      ensures enrollments == old(enrollments) - E.TokensOf(old(Runners()), runner)
    {
      ghost var tokens := E.TokensOf(Runners(), runner);
      var unvisited := enrollments.Keys;
      while unvisited != {}
        invariant unvisited <= old(enrollments).Keys
        invariant enrollments == old(enrollments) - (tokens - unvisited)
        decreases |unvisited|
      {
        var token := Pick(unvisited);
        if enrollments[token].runner == runner {
          enrollments := enrollments - {token};
        }
        unvisited := unvisited - {token};
      }
      assert tokens - {} == tokens;
    }

    /** `poolDelete`: refused as soon as a live runner is met, keeping what was done before. */
    method DeletePool(id: string) returns (deleted: bool, ghost visited: set<E.RunnerId>)
      modifies `runners, `pools
      ensures Runners() == E.DetachPool(old(Runners()), id, visited)
      ensures deleted <==> id in old(pools) && !E.PoolInUse(old(Runners()), id)
      ensures pools == if deleted then old(pools) - {id} else old(pools)
    {
      visited, deleted := {}, false;
      assert E.DetachPool(Runners(), id, {}).runners == runners;
      if id in pools {
        deleted, visited := DetachRunners(id);
        if deleted {
          pools := pools - {id};
        }
      }
    }

    /** The loop of `poolDelete` */
    method DetachRunners(id: string) returns (all: bool, ghost visited: set<E.RunnerId>)
      modifies `runners
      ensures Runners() == E.DetachPool(old(Runners()), id, visited)
      ensures all <==> !E.PoolInUse(old(Runners()), id)
    {
      ghost var before := Runners();
      assert E.DetachPool(before, id, {}).runners == runners;
      visited := {};
      var unvisited := runners.Keys;
      while unvisited != {}
        invariant unvisited <= before.runners.Keys && visited == before.runners.Keys - unvisited
        invariant runners == E.DetachPool(before, id, visited).runners
        invariant forall r :: r in visited && before.runners[r].poolId == id ==> before.runners[r].Gone()
        decreases |unvisited|
      {
        var runnerId := Pick(unvisited);
        E.DetachOne(before, id, visited, runnerId);
        var runner := runners[runnerId];
        if runner.poolId == id {
          if !runner.isArchived && !runner.isDeleted {
            return false, visited;
          }
          runners := runners[runnerId := runner.(poolId := "", pool := "")];
        }
        visited, unvisited := visited + {runnerId}, unvisited - {runnerId};
      }
      all := true;
    }

    method MarkStale(now: int, maxAge: int)
      modifies `runners
      ensures Runners() == E.MarkStale(old(Runners()), now, maxAge)
    {
      var unvisited := runners.Keys;
      while unvisited != {}
        invariant unvisited <= old(runners).Keys
        invariant runners == map id | id in old(runners) ::
            if id !in unvisited && E.Stale(old(runners)[id], now, maxAge) then old(runners)[id].(observed := E.Offline) else old(runners)[id]
        decreases |unvisited|
      {
        var id := Pick(unvisited);
        var runner := runners[id];
        if runner.heartbeat.Some? && now - runner.heartbeat.value > maxAge {
          runners := runners[id := runner.(observed := E.Offline)];
        }
        unvisited := unvisited - {id};
      }
    }
  }
}
