/**
 `memoryRoleRepository`: three maps changed in place under a mutex. Every method leaves the state that
 the functions of `Roles` describe, so the theorems there are about this class.
 Source: backend/internal/api/memory_roles.go and uniqueStrings in backend/internal/api/roles.go.
 */
module RoleRepository {
  import opened Common
  import opened Sets
  import opened Roles
  import Text

  method UniqueStrings(values: seq<string>) returns (out: seq<string>)
    ensures out == Unique(values)
  {
    var seen: set<string> := {};
    out := [];
    for i := 0 to |values|
      invariant out == Unique(values[..i])
      invariant forall v :: v in seen <==> v in out
    {
      assert values[..i + 1][..i] == values[..i];
      var value := Text.TrimSpace(values[i]);
      if value != "" && value !in seen {
        seen := seen + {value};
        out := out + [value];
      }
    }
    assert values[..|values|] == values;
  }

  /** The clearing loop when the users in `unvisited` are still to come. */
  ghost function ClearedExcept(assignments: Assignments, unvisited: set<UserId>, id: RoleId, sourceType: string): Assignments {
    map user | user in assignments && (user in unvisited || Without(assignments[user], id, sourceType) != map[]) ::
      if user in unvisited then assignments[user] else Without(assignments[user], id, sourceType)
  }

  lemma ClearUser(assignments: Assignments, unvisited: set<UserId>, id: RoleId, sourceType: string, user: UserId)
    requires user in unvisited && user in assignments
    ensures var before := ClearedExcept(assignments, unvisited, id, sourceType);
            var rows := Without(assignments[user], id, sourceType);
            && user in before && before[user] == assignments[user]
            && ClearedExcept(assignments, unvisited - {user}, id, sourceType)
               == if rows == map[] then before - {user} else before[user := rows]
  {
  }

  class MemoryRoleRepository {
    var roles: map<RoleId, Role>
    var byName: map<string, RoleId>
    var assignments: Assignments
    /** The base64url encoding inside `store.SSOAssignmentKey`. */
    const enc: string -> string

    constructor (enc: string -> string)
      ensures Value() == EMPTY && this.enc == enc
    {
      roles, byName, assignments := map[], map[], map[];
      this.enc := enc;
    }

    ghost function Value(): Repo
      reads this
    {
      Repo(roles, byName, assignments)
    }

    method EnsureRole(id: RoleId, name: string, description: string, system: bool, permissions: seq<string>)
        returns (outcome: Outcome)
      modifies this
      ensures (Value(), outcome) == Ensure(old(Value()), id, name, description, system, permissions)
    {
      var unique := UniqueStrings(permissions);
      if id in roles {
        roles := roles[id := roles[id].(permissions := unique)];
        return Ok(());
      }
      var normalized := Normalize(name);
      var existing := if normalized in byName then byName[normalized] else "";
      if existing != "" && existing != id {
        return Err(RoleExists);
      }
      roles := roles[id := Role(normalized, description, system, unique)];
      byName := byName[normalized := id];
      outcome := Ok(());
    }

    method RenameRole(id: RoleId, name: string) returns (outcome: Outcome)
      modifies this
      ensures (Value(), outcome) == Rename(old(Value()), id, name)
    {
      if id !in roles {
        return Err(RoleNotFound);
      }
      var role := roles[id];
      if role.system {
        return Err(SystemRoleImmutable);
      }
      var normalized := Normalize(name);
      var existing := if normalized in byName then byName[normalized] else "";
      if existing != "" && existing != id {
        return Err(RoleExists);
      }
      byName := byName - {role.name};
      role := role.(name := normalized);
      roles, byName := roles[id := role], byName[normalized := id];
      outcome := Ok(());
    }

    method SetPermissions(id: RoleId, permissions: seq<string>) returns (outcome: Outcome)
      modifies this
      ensures (Value(), outcome) == ReplacePermissions(old(Value()), id, permissions)
    {
      if id !in roles {
        return Err(RoleNotFound);
      }
      if roles[id].system {
        return Err(SystemRoleImmutable);
      }
      var unique := UniqueStrings(permissions);
      roles := roles[id := roles[id].(permissions := unique)];
      outcome := Ok(());
    }

    method DeleteRole(id: RoleId) returns (outcome: Outcome)
      modifies this
      ensures (Value(), outcome) == Delete(old(Value()), id)
    {
      if id !in roles {
        return Err(RoleNotFound);
      }
      var role := roles[id];
      if role.system {
        return Err(SystemRoleImmutable);
      }
      roles := roles - {id};
      byName := byName - {role.name};
      RemoveKey(id);
      outcome := Ok(());
    }

    /** The loop of `Delete` */
    method RemoveKey(id: RoleId)
      modifies `assignments
      ensures assignments == map user | user in old(assignments) :: old(assignments)[user] - {id}
    {
      var unvisited := assignments.Keys;
      while unvisited != {}
        invariant unvisited <= old(assignments).Keys
        invariant assignments == map user | user in old(assignments) ::
            if user in unvisited then old(assignments)[user] else old(assignments)[user] - {id}
        decreases |unvisited|
      {
        var user := Pick(unvisited);
        assignments := assignments[user := assignments[user] - {id}];
        unvisited := unvisited - {user};
      }
    }

    method AssignRole(user: UserId, id: RoleId, sourceType: string, sourceKey: string) returns (outcome: Outcome)
      modifies this
      ensures (Value(), outcome) == Assign(old(Value()), user, id, sourceType, sourceKey)
    {
      if id !in roles {
        return Err(RoleNotFound);
      }
      Store(Assignment(user, id, sourceType, sourceKey));
      outcome := Ok(());
    }

    /** Inserting a row, creating the user's map when there is none. */
    method Store(row: Assignment)
      modifies `assignments
      ensures assignments == Put(old(assignments), row)
    {
      if row.user !in assignments {
        assignments := assignments[row.user := map[]];
      }
      var key := Key(row.role, row.sourceType, row.sourceKey);
      assignments := assignments[row.user := assignments[row.user][key := row]];
    }

    method Unassign(user: UserId, id: RoleId) returns (outcome: Outcome)
      modifies this
      ensures (Value(), outcome) == UnassignSource(old(Value()), user, id, "manual")
    {
      outcome := UnassignFrom(user, id, "manual");
    }

    /** `UnassignSource` */
    method UnassignFrom(user: UserId, id: RoleId, sourceType: string) returns (outcome: Outcome)
      modifies this
      ensures (Value(), outcome) == UnassignSource(old(Value()), user, id, sourceType)
    {
      if user !in assignments {
        assert Without(map[], id, sourceType) == map[];
        return Err(AssignmentNotFound);
      }
      var rows, removed := DropRows(assignments[user], id, sourceType);
      if !removed {
        return Err(AssignmentNotFound);
      }
      assignments := assignments[user := rows];
      outcome := Ok(());
    }

    /** Deleting from one user's rows those of one role and source. */
    method DropRows(rows: map<string, Assignment>, id: RoleId, sourceType: string)
        returns (kept: map<string, Assignment>, removed: bool)
      ensures kept == Without(rows, id, sourceType)
      ensures removed <==> kept != rows
    {
      kept, removed := rows, false;
      var unvisited := rows.Keys;
      while unvisited != {}
        invariant unvisited <= rows.Keys
        invariant kept == map key | key in rows && (key in unvisited || !FromSource(rows[key], id, sourceType)) :: rows[key]
        invariant removed <==> exists key :: key in rows && key !in unvisited && FromSource(rows[key], id, sourceType)
        decreases |unvisited|
      {
        var key := Pick(unvisited);
        if rows[key].role == id && rows[key].sourceType == sourceType {
          kept := kept - {key};
          removed := true;
        }
        unvisited := unvisited - {key};
      }
      if removed {
        var key :| key in rows && FromSource(rows[key], id, sourceType);
        assert key !in kept;
      }
    }

    method ReplaceSourceAssignments(id: RoleId, sourceType: string, userIds: seq<UserId>) returns (outcome: Outcome)
      modifies this
      ensures (Value(), outcome) == ReplaceSource(old(Value()), id, sourceType, userIds)
    {
      if id !in roles {
        return Err(RoleNotFound);
      }
      ClearSource(id, sourceType);
      var users := UniqueStrings(userIds);
      ghost var cleared := assignments;
      for i := 0 to |users|
        invariant assignments == PutAll(cleared, id, sourceType, users[..i])
        invariant roles == old(roles) && byName == old(byName)
      {
        assert users[..i + 1][..i] == users[..i];
        Store(Assignment(users[i], id, sourceType, users[i]));
      }
      assert users[..|users|] == users;
      outcome := Ok(());
    }

    /** The nested loops of `ReplaceSourceAssignments` */
    method ClearSource(id: RoleId, sourceType: string)
      modifies `assignments
      ensures assignments == Cleared(old(assignments), id, sourceType)
    {
      ghost var start := assignments;
      var unvisited := assignments.Keys;
      while unvisited != {}
        invariant unvisited <= start.Keys
        invariant assignments == ClearedExcept(start, unvisited, id, sourceType)
        decreases |unvisited|
      {
        var user := Pick(unvisited);
        var rows, _ := DropRows(assignments[user], id, sourceType);
        ClearUser(start, unvisited, id, sourceType, user);
        if |rows| == 0 {
          assignments := assignments - {user};
        } else {
          assignments := assignments[user := rows];
        }
        unvisited := unvisited - {user};
      }
    }

    method ReplaceSSOAssignments(user: UserId, provider: string, grants: seq<Grant>) returns (outcome: Outcome)
      modifies this
      ensures (Value(), outcome) == ReplaceSSO(enc, old(Value()), user, provider, grants)
    {
      WithdrawProvider(user, provider);
      outcome := Ok(());
      ghost var start := Value();
      for i := 0 to |grants|
        invariant (Value(), outcome) == PutGrants(enc, start, user, provider, grants[..i])
        invariant outcome.Ok?
      {
        assert grants[..i + 1][..i] == grants[..i];
        if grants[i].role == "" || grants[i].group == "" {
          continue;
        }
        if grants[i].role !in roles {
          GrantsStop(enc, start, user, provider, grants, i + 1);
          return Err(RoleNotFound);
        }
        Store(Assignment(user, grants[i].role, "sso", SSOKey(enc, provider, grants[i].group)));
      }
      assert grants[..|grants|] == grants;
    }

    /** The deletion loop of `ReplaceSSOAssignments` */
    method WithdrawProvider(user: UserId, provider: string)
      modifies `assignments
      ensures assignments == Withdrawn(enc, old(assignments), user, provider)
    {
      if user !in assignments {
        return;
      }
      var kept := DropProvider(assignments[user], provider);
      assignments := assignments[user := kept];
    }

    method DropProvider(rows: map<string, Assignment>, provider: string) returns (kept: map<string, Assignment>)
      ensures kept == WithoutProvider(enc, rows, provider)
    {
      kept := rows;
      var prefix := SSOKey(enc, provider, "");
      var unvisited := rows.Keys;
      while unvisited != {}
        invariant unvisited <= rows.Keys
        invariant forall key :: key in kept <==> key in rows && (key in unvisited || !FromProvider(enc, rows[key], provider))
        invariant forall key :: key in kept ==> kept[key] == rows[key]
        decreases |unvisited|
      {
        var key := Pick(unvisited);
        if rows[key].sourceType == "sso" && HasPrefix(rows[key].sourceKey, prefix) {
          kept := kept - {key};
        }
        unvisited := unvisited - {key};
      }
    }

    method FindByName(name: string) returns (found: Option<Role>)
      ensures found.Some? <==> Roles.FindByName(Value(), name).Some?
      ensures found.Some? ==> found.value == roles[Roles.FindByName(Value(), name).value]
    {
      var normalized := Normalize(name);
      var id := if normalized in byName then byName[normalized] else "";
      found := if id in roles then Some(roles[id]) else None;
    }

    /** `UserRoles`, without the final sort: a blank record stands for a role that no longer exists. */
    method UserRoles(user: UserId) returns (records: seq<RoleRecord>, ghost ids: seq<RoleId>, held: set<Assignment>)
      requires Keyed(assignments)
      ensures Lists(Value(), user, records, ids)
      ensures forall row :: row in held <==> HasRow(assignments, row) && row.user == user
    {
      var rows := if user in assignments then assignments[user] else map[];
      var found: map<RoleId, RoleRecord> := map[];
      held := {};
      var unvisited := rows.Keys;
      while unvisited != {}
        invariant unvisited <= rows.Keys
        invariant forall id :: id in found <==> exists key :: key in rows.Keys - unvisited && rows[key].role == id
        invariant forall id :: id in found ==> found[id] == RecordOf(Value(), id)
        invariant forall row :: row in held <==> exists key :: key in rows.Keys - unvisited && rows[key] == row
        decreases |unvisited|
      {
        var key := Pick(unvisited);
        held := held + {rows[key]};
        var id := rows[key].role;
        if id !in found {
          found := found[id := if id in roles then RoleRecord(id, roles[id]) else BLANK];
        }
        unvisited := unvisited - {key};
      }
      records, ids := ListValues(found);
      forall id
        ensures id in ids <==> HoldsRole(Value(), user, id)
      {
        HeldByKey(Value(), user, id);
      }
      forall row
        ensures row in held <==> HasRow(assignments, row) && row.user == user
      {
        RowByKey(assignments, user, row);
      }
    }

    /** `EffectivePermissions`, without the final sort: the result is the set of the user's permissions. */
    method EffectivePermissions(user: UserId) returns (permissions: set<string>)
      requires Keyed(assignments)
      ensures forall p :: p in permissions <==> Permitted(Value(), user, p)
    {
      permissions := {};
      var rows := if user in assignments then assignments[user] else map[];
      var unvisited := rows.Keys;
      while unvisited != {}
        invariant unvisited <= rows.Keys
        invariant forall p :: p in permissions <==> exists key :: key in rows.Keys - unvisited && Grants(Value(), rows[key], p)
        decreases |unvisited|
      {
        var key := Pick(unvisited);
        var granted := if rows[key].role in roles then roles[rows[key].role].permissions else [];
        ghost var before := permissions;
        permissions := AddAll(permissions, granted);
        forall p
          ensures p in permissions <==> exists k :: k in rows.Keys - (unvisited - {key}) && Grants(Value(), rows[k], p)
        {
          assert p in granted <==> Grants(Value(), rows[key], p);
        }
        unvisited := unvisited - {key};
      }
      forall p
        ensures p in permissions <==> Permitted(Value(), user, p)
      {
        PermittedByKey(Value(), user, p);
      }
    }
  }

  /** The second loop of `UserRoles`: the values of a map in some order of its keys. */
  method ListValues(found: map<RoleId, RoleRecord>) returns (records: seq<RoleRecord>, ghost ids: seq<RoleId>)
    ensures |records| == |ids| && Distinct(ids) && (forall id :: id in ids <==> id in found)
    ensures forall i :: 0 <= i < |ids| ==> ids[i] in found && records[i] == found[ids[i]]
  {
    records, ids := [], [];
    var unvisited := found.Keys;
    while unvisited != {}
      invariant unvisited <= found.Keys && |records| == |ids| && Distinct(ids)
      invariant forall id :: id in ids <==> id in found.Keys - unvisited
      invariant forall i :: 0 <= i < |ids| ==> ids[i] in found && records[i] == found[ids[i]]
      decreases |unvisited|
    {
      var id := Pick(unvisited);
      assert forall k :: 0 <= k < |ids| ==> ids[k] in ids;
      records, ids := records + [found[id]], ids + [id];
      unvisited := unvisited - {id};
    }
  }

  lemma RowByKey(assignments: Assignments, user: UserId, row: Assignment)
    requires Keyed(assignments)
    ensures HasRow(assignments, row) && row.user == user <==> exists key :: key in RowsOf(assignments, user) && RowsOf(assignments, user)[key] == row
  {
    var rows := RowsOf(assignments, user);
    if key :| key in rows && rows[key] == row {
      assert KeyedRow(rows[key], user, key);
    }
  }

  method AddAll(before: set<string>, values: seq<string>) returns (after: set<string>)
    ensures forall v :: v in after <==> v in before || v in values
  {
    after := before;
    for i := 0 to |values|
      invariant forall v :: v in after <==> v in before || v in values[..i]
    {
      assert values[..i + 1] == values[..i] + [values[i]];
      after := after + {values[i]};
    }
    assert values[..|values|] == values;
  }

  lemma PermittedByKey(repo: Repo, user: UserId, p: string)
    requires Keyed(repo.assignments)
    ensures Permitted(repo, user, p) <==>
            exists key :: key in RowsOf(repo.assignments, user) && Grants(repo, RowsOf(repo.assignments, user)[key], p)
  {
    var rows := RowsOf(repo.assignments, user);
    if key :| key in rows && Grants(repo, rows[key], p) {
      assert KeyedRow(rows[key], user, key);
      assert HasRow(repo.assignments, rows[key]);
    }
  }

  /** Once a grant names an unknown role, the remaining grants change nothing. */
  lemma {:induction false} GrantsStop(enc: string -> string, repo: Repo, user: UserId, provider: string, grants: seq<Grant>, i: nat)
    requires i <= |grants| && PutGrants(enc, repo, user, provider, grants[..i]).1.Err?
    ensures PutGrants(enc, repo, user, provider, grants) == PutGrants(enc, repo, user, provider, grants[..i])
    decreases |grants|
  {
    if i < |grants| {
      var init := grants[..|grants| - 1];
      assert init[..i] == grants[..i];
      GrantsStop(enc, repo, user, provider, init, i);
    } else {
      assert grants[..i] == grants;
    }
  }
}
