/**
 Roles, their name index and the assignments of users to roles through several sources.
 Source: backend/internal/api/memory_roles.go.
 */
module Roles {
  import opened Common
  import opened Text

  type RoleId = string
  type UserId = string

  datatype Error = RoleExists | RoleNotFound | SystemRoleImmutable | AssignmentNotFound

  type Outcome = Result<(), Error>

  datatype Role = Role(name: string, description: string, system: bool, permissions: seq<string>)

  datatype Assignment = Assignment(user: UserId, role: RoleId, sourceType: string, sourceKey: string)

  type Assignments = map<UserId, map<string, Assignment>>

  datatype Repo = Repo(roles: map<RoleId, Role>, byName: map<string, RoleId>, assignments: Assignments)

  const EMPTY := Repo(map[], map[], map[])

  /** `normalizeRoleName` */
  function Normalize(name: string): string {
    ToLower(TrimSpace(name))
  }

  /** `uniqueStrings`: trimmed, non-empty, first occurrence of each. */
  function Unique(values: seq<string>): seq<string> {
    if values == [] then []
    else
      var before := Unique(values[..|values| - 1]);
      var value := TrimSpace(values[|values| - 1]);
      if value != "" && value !in before then before + [value] else before
  }

  lemma {:induction false} UniqueHas(values: seq<string>, value: string)
    ensures value in Unique(values) <==> value != "" && exists i :: 0 <= i < |values| && TrimSpace(values[i]) == value
    decreases |values|
  {
    if values != [] {
      var init := values[..|values| - 1];
      UniqueHas(init, value);
      if exists i :: 0 <= i < |init| && TrimSpace(init[i]) == value {
        var i :| 0 <= i < |init| && TrimSpace(init[i]) == value;
        assert values[i] == init[i];
      }
    }
  }

  lemma {:induction false} UniqueIsDistinct(values: seq<string>)
    ensures forall i, j :: 0 <= i < j < |Unique(values)| ==> Unique(values)[i] != Unique(values)[j]
    decreases |values|
  {
    if values != [] {
      UniqueIsDistinct(values[..|values| - 1]);
    }
  }

  // ---- Role operations ----

  /** Go reads a missing map key as the zero value, here the empty id. */
  function IdOf(repo: Repo, name: string): RoleId {
    if name in repo.byName then repo.byName[name] else ""
  }

  predicate NameTaken(repo: Repo, name: string, id: RoleId) {
    IdOf(repo, name) != "" && IdOf(repo, name) != id
  }

  /** `Ensure`, and with `system == false` also `Create` */
  function Ensure(repo: Repo, id: RoleId, name: string, description: string, system: bool, permissions: seq<string>): (Repo, Outcome) {
    if id in repo.roles then
      (repo.(roles := repo.roles[id := repo.roles[id].(permissions := Unique(permissions))]), Ok(()))
    else if NameTaken(repo, Normalize(name), id) then (repo, Err(RoleExists))
    else
      (repo.(roles := repo.roles[id := Role(Normalize(name), description, system, Unique(permissions))],
             byName := repo.byName[Normalize(name) := id]),
       Ok(()))
  }

  /** The two checks that every change of an existing role begins with. */
  function Refusal(repo: Repo, id: RoleId): Option<Error> {
    if id !in repo.roles then Some(RoleNotFound)
    else if repo.roles[id].system then Some(SystemRoleImmutable)
    else None
  }

  function Rename(repo: Repo, id: RoleId, name: string): (Repo, Outcome) {
    var refusal := Refusal(repo, id);
    if refusal.Some? then (repo, Err(refusal.value))
    else if NameTaken(repo, Normalize(name), id) then (repo, Err(RoleExists))
    else
      var role := repo.roles[id];
      (repo.(roles := repo.roles[id := role.(name := Normalize(name))],
             byName := (repo.byName - {role.name})[Normalize(name) := id]),
       Ok(()))
  }

  function ReplacePermissions(repo: Repo, id: RoleId, permissions: seq<string>): (Repo, Outcome) {
    var refusal := Refusal(repo, id);
    if refusal.Some? then (repo, Err(refusal.value))
    else (repo.(roles := repo.roles[id := repo.roles[id].(permissions := Unique(permissions))]), Ok(()))
  }

  /** Deletion removes assignment rows by the bare role id, which is not how they are keyed. */
  function Delete(repo: Repo, id: RoleId): (Repo, Outcome) {
    var refusal := Refusal(repo, id);
    if refusal.Some? then (repo, Err(refusal.value))
    else
      (Repo(repo.roles - {id}, repo.byName - {repo.roles[id].name},
            map user | user in repo.assignments :: repo.assignments[user] - {id}),
       Ok(()))
  }

  /** `FindByName` */
  function FindByName(repo: Repo, name: string): Option<RoleId> {
    var id := IdOf(repo, Normalize(name));
    if id in repo.roles then Some(id) else None
  }

  // ---- Assignment operations ----

  /** The map key of a row: role, source type and source key joined by NUL. */
  function Key(role: RoleId, sourceType: string, sourceKey: string): string {
    role + (['\0'] + (sourceType + (['\0'] + sourceKey)))
  }

  function RowsOf(assignments: Assignments, user: UserId): map<string, Assignment> {
    if user in assignments then assignments[user] else map[]
  }

  function Put(assignments: Assignments, row: Assignment): Assignments {
    assignments[row.user := RowsOf(assignments, row.user)[Key(row.role, row.sourceType, row.sourceKey) := row]]
  }

  function Assign(repo: Repo, user: UserId, role: RoleId, sourceType: string, sourceKey: string): (Repo, Outcome) {
    if role !in repo.roles then (repo, Err(RoleNotFound))
    else (repo.(assignments := Put(repo.assignments, Assignment(user, role, sourceType, sourceKey))), Ok(()))
  }

  predicate FromSource(row: Assignment, role: RoleId, sourceType: string) {
    row.role == role && row.sourceType == sourceType
  }

  function Without(rows: map<string, Assignment>, role: RoleId, sourceType: string): map<string, Assignment> {
    map key | key in rows && !FromSource(rows[key], role, sourceType) :: rows[key]
  }

  /** `UnassignSource`; `Unassign` is the source type "manual". */
  function UnassignSource(repo: Repo, user: UserId, role: RoleId, sourceType: string): (Repo, Outcome) {
    var rows := RowsOf(repo.assignments, user);
    if Without(rows, role, sourceType) == rows then (repo, Err(AssignmentNotFound))
    else (repo.(assignments := repo.assignments[user := Without(rows, role, sourceType)]), Ok(()))
  }

  /** The first loop of `ReplaceSourceAssignments`: users left without rows disappear. */
  function Cleared(assignments: Assignments, role: RoleId, sourceType: string): Assignments {
    map user | user in assignments && Without(assignments[user], role, sourceType) != map[] ::
      Without(assignments[user], role, sourceType)
  }

  function PutAll(assignments: Assignments, role: RoleId, sourceType: string, users: seq<UserId>): Assignments {
    if users == [] then assignments
    else
      var user := users[|users| - 1];
      Put(PutAll(assignments, role, sourceType, users[..|users| - 1]), Assignment(user, role, sourceType, user))
  }

  function ReplaceSource(repo: Repo, role: RoleId, sourceType: string, users: seq<UserId>): (Repo, Outcome) {
    if role !in repo.roles then (repo, Err(RoleNotFound))
    else (repo.(assignments := PutAll(Cleared(repo.assignments, role, sourceType), role, sourceType, Unique(users))), Ok(()))
  }

  // ---- Single sign-on ----

  datatype Grant = Grant(role: RoleId, group: string)

  /** `store.SSOAssignmentKey`, over the base64url encoding `enc`. */
  function SSOKey(enc: string -> string, provider: string, group: string): string {
    enc(provider) + (['.'] + enc(group))
  }

  predicate HasPrefix(s: string, prefix: string) {
    prefix <= s
  }

  predicate FromProvider(enc: string -> string, row: Assignment, provider: string) {
    row.sourceType == "sso" && HasPrefix(row.sourceKey, SSOKey(enc, provider, ""))
  }

  function WithoutProvider(enc: string -> string, rows: map<string, Assignment>, provider: string): map<string, Assignment> {
    map key | key in rows && !FromProvider(enc, rows[key], provider) :: rows[key]
  }

  /** The insertion loop of `ReplaceSSOAssignments`; it stops at the first unknown role. */
  function PutGrants(enc: string -> string, repo: Repo, user: UserId, provider: string, grants: seq<Grant>): (Repo, Outcome) {
    if grants == [] then (repo, Ok(()))
    else
      var (before, outcome) := PutGrants(enc, repo, user, provider, grants[..|grants| - 1]);
      var grant := grants[|grants| - 1];
      if outcome.Err? || grant.role == "" || grant.group == "" then (before, outcome)
      else if grant.role !in before.roles then (before, Err(RoleNotFound))
      else
        (before.(assignments := Put(before.assignments, Assignment(user, grant.role, "sso", SSOKey(enc, provider, grant.group)))),
         Ok(()))
  }

  /** The deletion loop of `ReplaceSSOAssignments` */
  function Withdrawn(enc: string -> string, assignments: Assignments, user: UserId, provider: string): Assignments {
    if user in assignments then assignments[user := WithoutProvider(enc, assignments[user], provider)] else assignments
  }

  function ReplaceSSO(enc: string -> string, repo: Repo, user: UserId, provider: string, grants: seq<Grant>): (Repo, Outcome) {
    PutGrants(enc, repo.(assignments := Withdrawn(enc, repo.assignments, user, provider)), user, provider, grants)
  }

  // ---- The name index ----

  /** The name index and the role table are inverse to each other. */
  ghost predicate Indexed(repo: Repo) {
    && (forall id :: id in repo.roles ==> repo.roles[id].name in repo.byName && repo.byName[repo.roles[id].name] == id)
    && (forall name :: name in repo.byName ==> repo.byName[name] in repo.roles && repo.roles[repo.byName[name]].name == name)
  }

  ghost predicate Healthy(repo: Repo) {
    Indexed(repo) && "" !in repo.roles
  }

  /** Creating a role keeps the index healthy exactly unless it creates one with an empty id. */
  lemma EnsureKeepsIndex(repo: Repo, id: RoleId, name: string, description: string, system: bool, permissions: seq<string>)
    requires Healthy(repo)
    ensures Healthy(Ensure(repo, id, name, description, system, permissions).0)
       <==> id != "" || Normalize(name) in repo.byName
  {
  }

  /** With an empty id the uniqueness check no longer sees the name, and a second role takes it. */
  lemma EmptyIdBreaksIndex(name: string, id: RoleId)
    requires id != ""
    ensures var one := Ensure(EMPTY, "", name, "", false, []).0;
            var (two, outcome) := Ensure(one, id, name, "", false, []);
            outcome.Ok? && !Indexed(two)
  {
    var one := Ensure(EMPTY, "", name, "", false, []).0;
    var two := Ensure(one, id, name, "", false, []).0;
    assert two.roles[""].name == Normalize(name) && two.byName[Normalize(name)] == id;
  }

  lemma RenameKeepsIndex(repo: Repo, id: RoleId, name: string)
    requires Healthy(repo)
    ensures Healthy(Rename(repo, id, name).0)
  {
  }

  lemma DeleteKeepsIndex(repo: Repo, id: RoleId)
    requires Healthy(repo)
    ensures Healthy(Delete(repo, id).0)
  {
  }

  /** Looking a name up finds the role that has it, and finds nothing when none has. */
  lemma FindByNameFinds(repo: Repo, name: string)
    requires Healthy(repo)
    ensures FindByName(repo, name).Some? <==> exists id :: id in repo.roles && repo.roles[id].name == Normalize(name)
    ensures FindByName(repo, name).Some? ==> repo.roles[FindByName(repo, name).value].name == Normalize(name)
  {
    if id :| id in repo.roles && repo.roles[id].name == Normalize(name) {
      assert repo.byName[Normalize(name)] == id;
    }
  }

  // ---- The assignments as a set of rows ----

  predicate NulFree(s: string) {
    '\0' !in s
  }

  /** `row` is stored somewhere for its user. */
  ghost predicate HasRow(assignments: Assignments, row: Assignment) {
    row.user in assignments && exists key :: key in assignments[row.user] && assignments[row.user][key] == row
  }

  /** Every row is stored under its own user and its own key. */
  ghost predicate Keyed(assignments: Assignments) {
    forall user | user in assignments ::
      forall key | key in assignments[user] :: KeyedRow(assignments[user][key], user, key)
  }

  ghost predicate KeyedRow(row: Assignment, user: UserId, key: string) {
    && row.user == user && key == Key(row.role, row.sourceType, row.sourceKey)
    && NulFree(row.role) && NulFree(row.sourceType)
  }

  lemma SplitAtNul(a: string, b: string, x: string, y: string)
    requires NulFree(a) && NulFree(x) && a + (['\0'] + b) == x + (['\0'] + y)
    ensures a == x && b == y
  {
    var s, t := a + (['\0'] + b), x + (['\0'] + y);
    assert s[|a|] == '\0' && t[|x|] == '\0';
    assert forall k :: 0 <= k < |x| ==> t[k] == x[k] && x[k] in x;
    assert forall k :: 0 <= k < |a| ==> s[k] == a[k] && a[k] in a;
    assert a == s[..|a|] && x == t[..|x|];
    assert b == s[|a| + 1..] && y == t[|x| + 1..];
  }

  /** Without NUL in role ids and source types, the key determines the row. */
  lemma KeyDetermines(a: Assignment, b: Assignment)
    requires NulFree(a.role) && NulFree(a.sourceType) && NulFree(b.role) && NulFree(b.sourceType)
    requires a.user == b.user && Key(a.role, a.sourceType, a.sourceKey) == Key(b.role, b.sourceType, b.sourceKey)
    ensures a == b
  {
    SplitAtNul(a.role, a.sourceType + (['\0'] + a.sourceKey), b.role, b.sourceType + (['\0'] + b.sourceKey));
    SplitAtNul(a.sourceType, a.sourceKey, b.sourceType, b.sourceKey);
  }

  function KeyOf(a: Assignment): string {
    Key(a.role, a.sourceType, a.sourceKey)
  }

  /** No other row of the user shares the key of `a`. */
  ghost predicate KeyIsUnique(a: Assignment) {
    forall b: Assignment :: b.user == a.user && KeyOf(b) == KeyOf(a) ==> b == a
  }

  lemma KeyParts(a: Assignment)
    ensures var key, m, n := KeyOf(a), |a.role|, |a.role| + 1 + |a.sourceType|;
            && |key| == n + 1 + |a.sourceKey| && key[m] == '\0' && key[n] == '\0'
            && key[..m] == a.role && key[m + 1..n] == a.sourceType && key[n + 1..] == a.sourceKey
  {
  }

  lemma KeyNuls(a: Assignment, i: nat)
    requires NulFree(a.role) && NulFree(a.sourceType) && NulFree(a.sourceKey) && i < |KeyOf(a)|
    ensures KeyOf(a)[i] == '\0' <==> i == |a.role| || i == |a.role| + 1 + |a.sourceType|
  {
    var key, m, n := KeyOf(a), |a.role|, |a.role| + 1 + |a.sourceType|;
    KeyParts(a);
    assert i < m ==> key[i] == a.role[i];
    assert m < i < n ==> key[i] == a.sourceType[i - m - 1];
    assert n < i ==> key[i] == a.sourceKey[i - n - 1];
  }

  lemma NulFreeKeyIsUnique(a: Assignment, b: Assignment)
    requires NulFree(a.role) && NulFree(a.sourceType) && NulFree(a.sourceKey) && b.user == a.user && KeyOf(b) == KeyOf(a)
    ensures b == a
  {
    KeyParts(a);
    KeyParts(b);
    KeyNuls(a, |b.role|);
    KeyNuls(a, |b.role| + 1 + |b.sourceType|);
  }

  /** A text cut at one of its NULs. */
  lemma CutAtNul(s: string) returns (x: string, y: string)
    requires !NulFree(s)
    ensures s == x + (['\0'] + y)
  {
    var i :| 0 <= i < |s| && s[i] == '\0';
    x, y := s[..i], s[i + 1..];
  }

  lemma Regroup(a: string, b: string, c: string, d: string)
    ensures Key(a + (['\0'] + b), c, d) == Key(a, b, c + (['\0'] + d)) == Key(a, b + (['\0'] + c), d)
  {
  }

  /** A NUL anywhere in the parts leaves the same key to a different row. */
  lemma NulSharesKey(a: Assignment) returns (b: Assignment)
    requires !NulFree(a.role) || !NulFree(a.sourceType) || !NulFree(a.sourceKey)
    ensures b.user == a.user && b != a && KeyOf(b) == KeyOf(a)
  {
    if !NulFree(a.role) {
      var x, y := CutAtNul(a.role);
      b := Assignment(a.user, x, y, a.sourceType + (['\0'] + a.sourceKey));
      Regroup(x, y, a.sourceType, a.sourceKey);
      assert |b.role| < |a.role|;
    } else if !NulFree(a.sourceType) {
      var x, y := CutAtNul(a.sourceType);
      b := Assignment(a.user, a.role + (['\0'] + x), y, a.sourceKey);
      Regroup(a.role, x, y, a.sourceKey);
      assert |b.role| > |a.role|;
    } else {
      var x, y := CutAtNul(a.sourceKey);
      b := Assignment(a.user, a.role + (['\0'] + a.sourceType), x, y);
      Regroup(a.role, a.sourceType, x, y);
      assert |b.role| > |a.role|;
    }
  }

  /** A row has its key for itself exactly when none of the three parts contains NUL. */
  lemma KeyIsUniqueExactly(a: Assignment)
    ensures KeyIsUnique(a) <==> NulFree(a.role) && NulFree(a.sourceType) && NulFree(a.sourceKey)
  {
    if NulFree(a.role) && NulFree(a.sourceType) && NulFree(a.sourceKey) {
      forall b: Assignment | b.user == a.user && KeyOf(b) == KeyOf(a)
        ensures b == a
      {
        NulFreeKeyIsUnique(a, b);
      }
    } else {
      var b := NulSharesKey(a);
    }
  }

  lemma PutKeepsKeyed(assignments: Assignments, row: Assignment)
    requires Keyed(assignments) && NulFree(row.role) && NulFree(row.sourceType)
    ensures Keyed(Put(assignments, row))
  {
  }

  /** Storing a row adds it and disturbs no other. */
  lemma PutAddsRow(assignments: Assignments, row: Assignment, other: Assignment)
    requires Keyed(assignments) && NulFree(row.role) && NulFree(row.sourceType)
    ensures HasRow(Put(assignments, row), other) <==> HasRow(assignments, other) || other == row
  {
    var after := Put(assignments, row);
    var key := Key(row.role, row.sourceType, row.sourceKey);
    assert after[row.user][key] == row;
    if HasRow(assignments, other) && other.user == row.user {
      var k :| k in assignments[other.user] && assignments[other.user][k] == other;
      assert KeyedRow(other, other.user, k);
      if k == key {
        KeyDetermines(row, other);
      } else {
        assert after[row.user][k] == other;
      }
    }
    if HasRow(after, other) && other.user == row.user && other != row {
      var k :| k in after[other.user] && after[other.user][k] == other;
      assert k in assignments[other.user] && assignments[other.user][k] == other;
    }
  }

  lemma UnassignRemovesRows(repo: Repo, user: UserId, role: RoleId, sourceType: string, row: Assignment)
    requires Keyed(repo.assignments)
    ensures var after := UnassignSource(repo, user, role, sourceType).0;
            && Keyed(after.assignments)
            && (HasRow(after.assignments, row) <==>
                HasRow(repo.assignments, row) && !(row.user == user && FromSource(row, role, sourceType)))
  {
    var rows := RowsOf(repo.assignments, user);
    var after := UnassignSource(repo, user, role, sourceType).0.assignments;
    if HasRow(repo.assignments, row) && row.user == user {
      var k :| k in rows && rows[k] == row;
      if !FromSource(row, role, sourceType) {
        assert k in Without(rows, role, sourceType) && Without(rows, role, sourceType)[k] == row;
      } else {
        assert k !in Without(rows, role, sourceType);
      }
    }
  }

  lemma ClearedKeepsOthers(assignments: Assignments, role: RoleId, sourceType: string, row: Assignment)
    requires Keyed(assignments)
    ensures Keyed(Cleared(assignments, role, sourceType))
    ensures HasRow(Cleared(assignments, role, sourceType), row) <==> HasRow(assignments, row) && !FromSource(row, role, sourceType)
  {
    var after := Cleared(assignments, role, sourceType);
    if HasRow(assignments, row) && !FromSource(row, role, sourceType) {
      var rows := assignments[row.user];
      var k :| k in rows && rows[k] == row;
      assert k in Without(rows, role, sourceType) && Without(rows, role, sourceType)[k] == row;
      assert row.user in after;
    }
  }

  lemma {:induction false} PutAllAddsRows(assignments: Assignments, role: RoleId, sourceType: string, users: seq<UserId>, row: Assignment)
    requires Keyed(assignments) && NulFree(role) && NulFree(sourceType)
    ensures Keyed(PutAll(assignments, role, sourceType, users))
    ensures HasRow(PutAll(assignments, role, sourceType, users), row) <==>
            HasRow(assignments, row) || (FromSource(row, role, sourceType) && row.sourceKey == row.user && row.user in users)
    decreases |users|
  {
    if users != [] {
      var init, last := users[..|users| - 1], users[|users| - 1];
      PutAllAddsRows(assignments, role, sourceType, init, row);
      var before := PutAll(assignments, role, sourceType, init);
      PutKeepsKeyed(before, Assignment(last, role, sourceType, last));
      PutAddsRow(before, Assignment(last, role, sourceType, last), row);
      assert row.user in users <==> row.user in init || row.user == last;
    }
  }

  /**
   Source isolation: replacing one source of one role leaves exactly the requested users holding the
   role through it, and every row of another role or source as it was.
   */
  lemma SourceIsolation(repo: Repo, role: RoleId, sourceType: string, users: seq<UserId>, row: Assignment)
    requires Keyed(repo.assignments) && NulFree(role) && NulFree(sourceType)
    requires role in repo.roles
    ensures var after := ReplaceSource(repo, role, sourceType, users).0.assignments;
            HasRow(after, row) <==>
              if FromSource(row, role, sourceType) then row.sourceKey == row.user && row.user in Unique(users)
              else HasRow(repo.assignments, row)
  {
    ClearedKeepsOthers(repo.assignments, role, sourceType, row);
    PutAllAddsRows(Cleared(repo.assignments, role, sourceType), role, sourceType, Unique(users), row);
  }

  lemma KeyHasNul(role: RoleId, sourceType: string, sourceKey: string)
    ensures !NulFree(Key(role, sourceType, sourceKey))
  {
    assert Key(role, sourceType, sourceKey)[|role|] == '\0';
  }

  /** Deleting a role leaves every assignment row in place, those of the deleted role included. */
  lemma DeleteKeepsRows(repo: Repo, id: RoleId)
    requires Keyed(repo.assignments) && NulFree(id)
    ensures Delete(repo, id).0.assignments == repo.assignments
  {
    forall user | user in repo.assignments
      ensures repo.assignments[user] - {id} == repo.assignments[user]
    {
      var rows := repo.assignments[user];
      forall key | key in rows
        ensures key != id
      {
        assert KeyedRow(rows[key], user, key);
        KeyHasNul(rows[key].role, rows[key].sourceType, rows[key].sourceKey);
      }
    }
  }

  // ---- Effective permissions ----

  /** The permissions a user has: the union over the user's rows whose role still exists. */
  ghost predicate Permitted(repo: Repo, user: UserId, permission: string) {
    exists row :: HasRow(repo.assignments, row) && row.user == user && Grants(repo, row, permission)
  }

  ghost predicate Grants(repo: Repo, row: Assignment, permission: string) {
    row.role in repo.roles && permission in repo.roles[row.role].permissions
  }

  /** After a role is deleted a user keeps exactly what the rows of other roles grant. */
  lemma DeleteRevokes(repo: Repo, id: RoleId, user: UserId, permission: string)
    requires Keyed(repo.assignments) && NulFree(id) && Refusal(repo, id).None?
    ensures Permitted(Delete(repo, id).0, user, permission) <==>
            exists row :: HasRow(repo.assignments, row) && row.user == user && row.role != id && Grants(repo, row, permission)
  {
    var after := Delete(repo, id).0;
    DeleteKeepsRows(repo, id);
    if Permitted(after, user, permission) {
      var row :| HasRow(after.assignments, row) && row.user == user && Grants(after, row, permission);
      assert row.role != id && Grants(repo, row, permission);
    }
    if row :| HasRow(repo.assignments, row) && row.user == user && row.role != id && Grants(repo, row, permission) {
      assert Grants(after, row, permission);
    }
  }

  /** The user has a row of the role, whether or not the role exists. */
  ghost predicate HoldsRole(repo: Repo, user: UserId, id: RoleId) {
    exists row :: HasRow(repo.assignments, row) && row.user == user && row.role == id
  }

  /** Who gains a permission from the creation of a role: exactly the users with rows left over from that id. */
  lemma CreationGrants(
    repo: Repo, id: RoleId, name: string, description: string, system: bool, permissions: seq<string>, user: UserId, permission: string)
    requires id !in repo.roles && Ensure(repo, id, name, description, system, permissions).1.Ok?
    ensures Permitted(Ensure(repo, id, name, description, system, permissions).0, user, permission) <==>
            Permitted(repo, user, permission) || (permission in Unique(permissions) && HoldsRole(repo, user, id))
  {
    var created := Ensure(repo, id, name, description, system, permissions).0;
    if Permitted(created, user, permission) {
      var row :| HasRow(created.assignments, row) && row.user == user && Grants(created, row, permission);
      assert row.role != id ==> Grants(repo, row, permission);
    }
    if row :| HasRow(repo.assignments, row) && row.user == user && Grants(repo, row, permission) {
      assert Grants(created, row, permission);
    }
    if permission in Unique(permissions) && HoldsRole(repo, user, id) {
      var row :| HasRow(repo.assignments, row) && row.user == user && row.role == id;
      assert Grants(created, row, permission);
    }
  }

  /**
   Deletion is not lasting: when a role is created under the id of a deleted one, exactly the users who
   had the old role get its permissions, beside what their other roles grant.
   */
  lemma RecreationRestores(repo: Repo, id: RoleId, name: string, permissions: seq<string>, user: UserId, permission: string)
    requires Keyed(repo.assignments) && NulFree(id) && Refusal(repo, id).None?
    requires Ensure(Delete(repo, id).0, id, name, "", false, permissions).1.Ok?
    ensures Permitted(Ensure(Delete(repo, id).0, id, name, "", false, permissions).0, user, permission) <==>
            || (exists row :: HasRow(repo.assignments, row) && row.user == user && row.role != id && Grants(repo, row, permission))
            || (permission in Unique(permissions) && HoldsRole(repo, user, id))
  {
    DeleteKeepsRows(repo, id);
    DeleteRevokes(repo, id, user, permission);
    var deleted := Delete(repo, id).0;
    CreationGrants(deleted, id, name, "", false, permissions, user, permission);
    SameRowsSameRoles(repo, deleted, user, id);
  }

  lemma SameRowsSameRoles(repo: Repo, other: Repo, user: UserId, id: RoleId)
    requires repo.assignments == other.assignments
    ensures HoldsRole(repo, user, id) <==> HoldsRole(other, user, id)
  {
  }

  /** Some value of the request trims to the permission. */
  ghost predicate Asked(permissions: seq<string>, permission: string) {
    permission != "" && exists i :: 0 <= i < |permissions| && TrimSpace(permissions[i]) == permission
  }

  /** A row of another role grants the permission to the user. */
  ghost predicate GrantedElsewhere(repo: Repo, user: UserId, id: RoleId, permission: string) {
    exists row :: HasRow(repo.assignments, row) && row.user == user && row.role != id && Grants(repo, row, permission)
  }

  lemma NewPermissions(repo: Repo, after: Repo, id: RoleId, permissions: seq<string>, user: UserId, permission: string)
    requires id in repo.roles && after.assignments == repo.assignments
    requires after.roles == repo.roles[id := repo.roles[id].(permissions := Unique(permissions))]
    ensures Permitted(after, user, permission) <==>
            GrantedElsewhere(repo, user, id, permission) || (HoldsRole(repo, user, id) && Asked(permissions, permission))
  {
    UniqueHas(permissions, permission);
    if Permitted(after, user, permission) {
      var row :| HasRow(after.assignments, row) && row.user == user && Grants(after, row, permission);
      assert row.role != id ==> Grants(repo, row, permission);
    }
    if row :| HasRow(repo.assignments, row) && row.user == user && row.role != id && Grants(repo, row, permission) {
      assert Grants(after, row, permission);
    }
    if row :| HasRow(repo.assignments, row) && row.user == user && row.role == id {
      assert Asked(permissions, permission) ==> Grants(after, row, permission);
    }
  }

  /**
   Replacing the permissions of a role succeeds exactly for an existing role that is not a system role.
   Afterwards a user has a permission exactly when a row of another role grants it, or the user has a row
   of this role and the request asks for it: what the role granted before is gone.
   */
  lemma ReplacementGrants(repo: Repo, id: RoleId, permissions: seq<string>, user: UserId, permission: string)
    ensures var (after, outcome) := ReplacePermissions(repo, id, permissions);
            && (outcome.Ok? <==> id in repo.roles && !repo.roles[id].system)
            && (outcome.Err? ==> after == repo && outcome.error == if id in repo.roles then SystemRoleImmutable else RoleNotFound)
            && (outcome.Ok? ==>
                  (Permitted(after, user, permission) <==>
                   GrantedElsewhere(repo, user, id, permission) || (HoldsRole(repo, user, id) && Asked(permissions, permission))))
  {
    if id in repo.roles && !repo.roles[id].system {
      NewPermissions(repo, ReplacePermissions(repo, id, permissions).0, id, permissions, user, permission);
    }
  }

  /** Ensuring a role that exists replaces its permissions in the same way, also for a system role, and nothing else of it. */
  lemma EnsuringGrants(repo: Repo, id: RoleId, name: string, description: string, system: bool, permissions: seq<string>, user: UserId, permission: string)
    requires id in repo.roles
    ensures var (after, outcome) := Ensure(repo, id, name, description, system, permissions);
            && outcome.Ok? && after.byName == repo.byName
            && id in after.roles && after.roles[id].(permissions := []) == repo.roles[id].(permissions := [])
            && (Permitted(after, user, permission) <==>
                GrantedElsewhere(repo, user, id, permission) || (HoldsRole(repo, user, id) && Asked(permissions, permission)))
  {
    NewPermissions(repo, Ensure(repo, id, name, description, system, permissions).0, id, permissions, user, permission);
  }

  /** A new role is found by its name in any case and has the properties it was created with. */
  lemma CreationTakesEffect(repo: Repo, id: RoleId, name: string, description: string, system: bool, permissions: seq<string>)
    requires Healthy(repo) && id !in repo.roles && id != ""
    ensures var (after, outcome) := Ensure(repo, id, name, description, system, permissions);
            && (outcome.Ok? <==> forall other :: other in repo.roles ==> repo.roles[other].name != Normalize(name))
            && (outcome.Err? ==> after == repo)
            && (outcome.Ok? ==>
                  && FindByName(after, name) == Some(id) && after.assignments == repo.assignments
                  && after.roles.Keys == repo.roles.Keys + {id}
                  && after.roles[id].name == Normalize(name) && after.roles[id].description == description && after.roles[id].system == system
                  && forall other :: other in repo.roles ==> after.roles[other] == repo.roles[other])
  {
    if Normalize(name) in repo.byName {
      assert repo.roles[repo.byName[Normalize(name)]].name == Normalize(name);
    }
  }

  /**
   A rename succeeds exactly for an existing role that is not a system role when no other role has the new
   name. The role is then found by the new name and, unless it is the same, no role by the old one; nobody's
   permissions change.
   */
  lemma RenameTakesEffect(repo: Repo, id: RoleId, name: string, user: UserId, permission: string)
    requires Healthy(repo)
    ensures var (after, outcome) := Rename(repo, id, name);
            && (outcome.Ok? <==> && id in repo.roles && !repo.roles[id].system
                                 && forall other :: other in repo.roles && other != id ==> repo.roles[other].name != Normalize(name))
            && (outcome.Err? ==>
                  && after == repo
                  && outcome.error == if id !in repo.roles then RoleNotFound else if repo.roles[id].system then SystemRoleImmutable else RoleExists)
            && (outcome.Ok? ==>
                  && FindByName(after, name) == Some(id) && after.roles[id].name == Normalize(name)
                  && (repo.roles[id].name != Normalize(name) ==> repo.roles[id].name !in after.byName)
                  && (forall other :: other in repo.roles && other != id ==> other in after.roles && after.roles[other] == repo.roles[other])
                  && after.assignments == repo.assignments)
            && (Permitted(after, user, permission) <==> Permitted(repo, user, permission))
  {
    var after := Rename(repo, id, name).0;
    if Normalize(name) in repo.byName {
      assert repo.roles[repo.byName[Normalize(name)]].name == Normalize(name);
    }
    if row :| HasRow(repo.assignments, row) && row.user == user && Grants(repo, row, permission) {
      assert Grants(after, row, permission);
    }
    if row :| HasRow(after.assignments, row) && row.user == user && Grants(after, row, permission) {
      assert Grants(repo, row, permission);
    }
  }

  /** Names that differ in white space at the ends and in the case of letters are one name. */
  lemma NamesIgnoreCase(name: string, left: string, written: string, right: string)
    requires IsLower(name) && IsTrimmed(IsSpace, written) && SameButForCase(written, name)
    requires AllSpace(IsSpace, left) && AllSpace(IsSpace, right) && written != ""
    ensures Normalize(left + written + right) == name
  {
    TrimFinds(IsSpace, left, written, right);
    ToLowerUndoesCase(written, name);
  }

  /** An assignment succeeds exactly for an existing role, and then adds its row and disturbs no other. */
  lemma AssignAdds(repo: Repo, user: UserId, role: RoleId, sourceType: string, sourceKey: string, row: Assignment)
    requires Keyed(repo.assignments) && NulFree(role) && NulFree(sourceType)
    ensures var (after, outcome) := Assign(repo, user, role, sourceType, sourceKey);
            && (outcome.Ok? <==> role in repo.roles)
            && after.roles == repo.roles && after.byName == repo.byName
            && (HasRow(after.assignments, row) <==>
                HasRow(repo.assignments, row) || (outcome.Ok? && row == Assignment(user, role, sourceType, sourceKey)))
  {
    if role in repo.roles {
      PutAddsRow(repo.assignments, Assignment(user, role, sourceType, sourceKey), row);
    }
  }

  /** Removing a source is refused exactly when the user has no row of that role through it. */
  lemma UnassignRefusedExactly(repo: Repo, user: UserId, role: RoleId, sourceType: string)
    requires Keyed(repo.assignments)
    ensures UnassignSource(repo, user, role, sourceType).1.Ok? <==>
            exists row :: HasRow(repo.assignments, row) && row.user == user && row.role == role && row.sourceType == sourceType
  {
    var rows := RowsOf(repo.assignments, user);
    if row :| HasRow(repo.assignments, row) && row.user == user && row.role == role && row.sourceType == sourceType {
      var key :| key in rows && rows[key] == row;
      assert key !in Without(rows, role, sourceType);
    }
    if Without(rows, role, sourceType) != rows {
      var key :| key in rows && FromSource(rows[key], role, sourceType);
      assert KeyedRow(rows[key], user, key) && HasRow(repo.assignments, rows[key]);
    }
  }

  /** A role is deleted exactly when it exists and is not a system role; the other roles stay. */
  lemma DeleteTakesEffect(repo: Repo, id: RoleId)
    requires Healthy(repo)
    ensures var (after, outcome) := Delete(repo, id);
            && (outcome.Ok? <==> id in repo.roles && !repo.roles[id].system)
            && (outcome.Err? ==> after == repo && outcome.error == if id in repo.roles then SystemRoleImmutable else RoleNotFound)
            && (outcome.Ok? ==> after.roles == repo.roles - {id} && FindByName(after, repo.roles[id].name) != Some(id))
  {
  }

  // ---- The roles of a user ----

  datatype RoleRecord = RoleRecord(id: RoleId, role: Role)

  /** What Go reads for a missing role. */
  const BLANK := RoleRecord("", Role("", "", false, []))

  function RecordOf(repo: Repo, id: RoleId): RoleRecord {
    if id in repo.roles then RoleRecord(id, repo.roles[id]) else BLANK
  }

  /** The deleted roles of which the user still has a row. */
  function DeletedRoles(repo: Repo, user: UserId): set<RoleId> {
    var rows := RowsOf(repo.assignments, user);
    set key | key in rows && rows[key].role !in repo.roles :: rows[key].role
  }

  ghost predicate Distinct(ids: seq<RoleId>) {
    forall i, j :: 0 <= i < j < |ids| ==> ids[i] != ids[j]
  }

  /** The records of the roles of which the user has a row, one for each, in the order of `ids`. */
  ghost predicate Lists(repo: Repo, user: UserId, records: seq<RoleRecord>, ids: seq<RoleId>) {
    && |records| == |ids| && Distinct(ids)
    && (forall id :: id in ids <==> HoldsRole(repo, user, id))
    && forall i :: 0 <= i < |ids| ==> records[i] == RecordOf(repo, ids[i])
  }

  lemma HeldByKey(repo: Repo, user: UserId, id: RoleId)
    requires Keyed(repo.assignments)
    ensures HoldsRole(repo, user, id) <==> exists key :: key in RowsOf(repo.assignments, user) && RowsOf(repo.assignments, user)[key].role == id
  {
    var rows := RowsOf(repo.assignments, user);
    if key :| key in rows && rows[key].role == id {
      assert KeyedRow(rows[key], user, key);
      assert HasRow(repo.assignments, rows[key]);
    }
  }

  /** The ids among the first `n` that name no role. */
  function MissingTo(repo: Repo, ids: seq<RoleId>, n: nat): set<RoleId>
    requires n <= |ids|
  {
    if n == 0 then {} else MissingTo(repo, ids, n - 1) + if ids[n - 1] in repo.roles then {} else {ids[n - 1]}
  }

  lemma {:induction false} MissingAre(repo: Repo, ids: seq<RoleId>, n: nat, id: RoleId)
    requires n <= |ids|
    ensures id in MissingTo(repo, ids, n) <==> id !in repo.roles && exists i :: 0 <= i < n && ids[i] == id
  {
    if n > 0 {
      MissingAre(repo, ids, n - 1, id);
    }
  }

  lemma {:induction false} BlanksCount(repo: Repo, records: seq<RoleRecord>, ids: seq<RoleId>, n: nat)
    requires n <= |ids| == |records| && Distinct(ids) && "" !in repo.roles
    requires forall i :: 0 <= i < |ids| ==> records[i] == RecordOf(repo, ids[i])
    ensures multiset(records[..n])[BLANK] == |MissingTo(repo, ids, n)|
  {
    if n > 0 {
      BlanksCount(repo, records, ids, n - 1);
      assert records[..n] == records[..n - 1] + [records[n - 1]];
      MissingAre(repo, ids, n - 1, ids[n - 1]);
    }
  }

  /** A user is listed with one blank role for each deleted role the user still has a row of. */
  lemma BlankForEachDeleted(repo: Repo, user: UserId, records: seq<RoleRecord>, ids: seq<RoleId>)
    requires Keyed(repo.assignments) && Healthy(repo) && Lists(repo, user, records, ids)
    ensures multiset(records)[BLANK] == |DeletedRoles(repo, user)|
    ensures BLANK in records <==> exists id :: HoldsRole(repo, user, id) && id !in repo.roles
  {
    BlanksCount(repo, records, ids, |ids|);
    assert records[..|ids|] == records;
    var rows := RowsOf(repo.assignments, user);
    forall id
      ensures id in DeletedRoles(repo, user) <==> id in MissingTo(repo, ids, |ids|)
    {
      MissingAre(repo, ids, |ids|, id);
      HeldByKey(repo, user, id);
    }
    assert DeletedRoles(repo, user) == MissingTo(repo, ids, |ids|);
    assert BLANK in records <==> exists i :: 0 <= i < |ids| && ids[i] !in repo.roles;
    if id :| HoldsRole(repo, user, id) && id !in repo.roles {
      assert id in ids;
    }
  }

  /** Deleting a role adds a blank role to the list of exactly the users who had it. */
  lemma DeletionLeavesBlank(repo: Repo, id: RoleId, user: UserId)
    requires Keyed(repo.assignments) && NulFree(id) && Refusal(repo, id).None?
    ensures DeletedRoles(Delete(repo, id).0, user) == DeletedRoles(repo, user) + if HoldsRole(repo, user, id) then {id} else {}
  {
    DeleteKeepsRows(repo, id);
    HeldByKey(repo, user, id);
  }

  /** Removing one source of a role takes away exactly what no other row grants. */
  lemma UnassignKeepsOtherGrants(repo: Repo, user: UserId, role: RoleId, sourceType: string, who: UserId, permission: string)
    requires Keyed(repo.assignments)
    ensures Permitted(UnassignSource(repo, user, role, sourceType).0, who, permission) <==>
            exists row :: HasRow(repo.assignments, row) && row.user == who && Grants(repo, row, permission)
                       && !(row.user == user && FromSource(row, role, sourceType))
  {
    var after := UnassignSource(repo, user, role, sourceType).0;
    if Permitted(after, who, permission) {
      var row :| HasRow(after.assignments, row) && row.user == who && Grants(after, row, permission);
      UnassignRemovesRows(repo, user, role, sourceType, row);
      assert Grants(repo, row, permission);
    }
    if row :| HasRow(repo.assignments, row) && row.user == who && Grants(repo, row, permission) && !(row.user == user && FromSource(row, role, sourceType)) {
      UnassignRemovesRows(repo, user, role, sourceType, row);
      assert Grants(after, row, permission);
    }
  }

  // ---- Single sign-on sources ----

  /** What the base64url encoding without padding guarantees. */
  ghost predicate LawfulEncoding(enc: string -> string) {
    && enc("") == ""
    && (forall s :: '.' !in enc(s))
    && (forall s, t :: enc(s) == enc(t) ==> s == t)
  }

  /** The prefix test picks out one provider's keys and no other's. */
  lemma ProviderPrefix(enc: string -> string, provider: string, other: string, group: string)
    requires LawfulEncoding(enc)
    ensures HasPrefix(SSOKey(enc, other, group), SSOKey(enc, provider, "")) <==> other == provider
  {
    var p, q := enc(provider), enc(other);
    var prefix, key := SSOKey(enc, provider, ""), SSOKey(enc, other, group);
    assert prefix == p + ['.'];
    if HasPrefix(key, prefix) {
      assert key[|p|] == '.' && key[..|p|] == p && key[|q|] == '.' && key[..|q|] == q;
      assert forall k :: 0 <= k < |p| ==> key[k] == p[k] && p[k] in p;
      assert forall k :: 0 <= k < |q| ==> key[k] == q[k] && q[k] in q;
      assert p == q;
    }
  }

  /** There is such an encoding: dots and backslashes escaped. */
  lemma LawfulEncodingExists()
    ensures LawfulEncoding(s => Escape('.', 'd', s))
  {
    forall s ensures '.' !in Escape('.', 'd', s) {
      EscapeHides('.', 'd', s);
    }
    forall s, t | Escape('.', 'd', s) == Escape('.', 'd', t) ensures s == t {
      UnescapeInverts('.', 'd', s);
      UnescapeInverts('.', 'd', t);
    }
  }

  /** A grant that is skipped or names an existing role. */
  predicate Known(repo: Repo, grant: Grant) {
    grant.role != "" && grant.group != "" ==> grant.role in repo.roles
  }

  ghost predicate AllKnown(repo: Repo, grants: seq<Grant>) {
    forall i :: 0 <= i < |grants| ==> Known(repo, grants[i])
  }

  /** The grants before the first that names an unknown role. */
  ghost function Stored(repo: Repo, grants: seq<Grant>): seq<Grant>
    decreases |grants|
  {
    if AllKnown(repo, grants) then grants else Stored(repo, grants[..|grants| - 1])
  }

  lemma {:induction false} StoredStops(repo: Repo, grants: seq<Grant>)
    ensures var n := |Stored(repo, grants)|;
            && n <= |grants| && Stored(repo, grants) == grants[..n] && AllKnown(repo, grants[..n])
            && (n < |grants| ==> !Known(repo, grants[n]))
    decreases |grants|
  {
    if AllKnown(repo, grants) {
      assert grants[..|grants|] == grants;
    } else {
      var init := grants[..|grants| - 1];
      StoredStops(repo, init);
      var n := |Stored(repo, init)|;
      assert init[..n] == grants[..n];
    }
  }

  lemma KnownInit(repo: Repo, grants: seq<Grant>)
    requires grants != []
    ensures AllKnown(repo, grants) <==> AllKnown(repo, grants[..|grants| - 1]) && Known(repo, grants[|grants| - 1])
  {
    var init := grants[..|grants| - 1];
    assert forall i :: 0 <= i < |init| ==> init[i] == grants[i];
  }

  /** The insertion loop stores the grants before the first unknown role, and fails exactly when there is one. */
  lemma {:induction false} PutGrantsStores(enc: string -> string, repo: Repo, user: UserId, provider: string, grants: seq<Grant>, row: Assignment)
    requires Keyed(repo.assignments) && forall id :: id in repo.roles ==> NulFree(id)
    ensures var (after, outcome) := PutGrants(enc, repo, user, provider, grants);
            && Keyed(after.assignments) && after.roles == repo.roles && after.byName == repo.byName
            && (outcome.Ok? <==> AllKnown(repo, grants))
            && (HasRow(after.assignments, row) <==> HasRow(repo.assignments, row) || IsGrant(enc, row, user, provider, Stored(repo, grants)))
    decreases |grants|
  {
    if grants != [] {
      var init, last := grants[..|grants| - 1], grants[|grants| - 1];
      PutGrantsStores(enc, repo, user, provider, init, row);
      KnownInit(repo, grants);
      if AllKnown(repo, grants) {
        var before := PutGrants(enc, repo, user, provider, init).0;
        GrantsGrow(enc, row, user, provider, grants);
        if last.role != "" && last.group != "" {
          var added := Assignment(user, last.role, "sso", SSOKey(enc, provider, last.group));
          PutKeepsKeyed(before.assignments, added);
          PutAddsRow(before.assignments, added, row);
        }
      }
    }
  }

  /** `row` is what one of the grants asks for. */
  ghost predicate IsGrant(enc: string -> string, row: Assignment, user: UserId, provider: string, grants: seq<Grant>) {
    exists i :: 0 <= i < |grants| && grants[i].role != "" && grants[i].group != ""
             && row == Assignment(user, grants[i].role, "sso", SSOKey(enc, provider, grants[i].group))
  }

  lemma GrantsGrow(enc: string -> string, row: Assignment, user: UserId, provider: string, grants: seq<Grant>)
    requires grants != []
    ensures var init, last := grants[..|grants| - 1], grants[|grants| - 1];
            IsGrant(enc, row, user, provider, grants) <==>
              || IsGrant(enc, row, user, provider, init)
              || (last.role != "" && last.group != "" && row == Assignment(user, last.role, "sso", SSOKey(enc, provider, last.group)))
  {
    var init := grants[..|grants| - 1];
    if IsGrant(enc, row, user, provider, init) {
      var i :| 0 <= i < |init| && init[i].role != "" && init[i].group != ""
            && row == Assignment(user, init[i].role, "sso", SSOKey(enc, provider, init[i].group));
      assert grants[i] == init[i];
    }
  }

  /**
   A login through one provider takes away that provider's rows of the user, stores the grants before the
   first unknown role, and leaves all other rows alone; it fails exactly when there is an unknown role.
   */
  lemma ProviderIsolation(enc: string -> string, repo: Repo, user: UserId, provider: string, grants: seq<Grant>, row: Assignment)
    requires Keyed(repo.assignments) && forall id :: id in repo.roles ==> NulFree(id)
    ensures ReplaceSSO(enc, repo, user, provider, grants).1.Ok? <==> AllKnown(repo, grants)
    ensures HasRow(ReplaceSSO(enc, repo, user, provider, grants).0.assignments, row) <==>
            || IsGrant(enc, row, user, provider, Stored(repo, grants))
            || (HasRow(repo.assignments, row) && !(row.user == user && FromProvider(enc, row, provider)))
  {
    var withdrawn := repo.(assignments := Withdrawn(enc, repo.assignments, user, provider));
    WithdrawnRows(enc, repo.assignments, user, provider, row);
    PutGrantsStores(enc, withdrawn, user, provider, grants, row);
    StoredByRoles(repo, withdrawn, grants);
  }

  lemma {:induction false} StoredByRoles(repo: Repo, other: Repo, grants: seq<Grant>)
    requires repo.roles == other.roles
    ensures Stored(repo, grants) == Stored(other, grants) && (AllKnown(repo, grants) <==> AllKnown(other, grants))
    decreases |grants|
  {
    assert forall i :: 0 <= i < |grants| ==> (Known(repo, grants[i]) <==> Known(other, grants[i]));
    if !AllKnown(repo, grants) {
      StoredByRoles(repo, other, grants[..|grants| - 1]);
    }
  }

  /** A login, failed or not, leaves the rows of every other provider and of every other source type as they were. */
  lemma OtherSourcesUntouched(
    enc: string -> string, repo: Repo, user: UserId, provider: string, grants: seq<Grant>, row: Assignment, other: string, group: string)
    requires Keyed(repo.assignments) && forall id :: id in repo.roles ==> NulFree(id)
    requires LawfulEncoding(enc)
    requires row.sourceType != "sso" || (row.sourceKey == SSOKey(enc, other, group) && other != provider)
    ensures HasRow(ReplaceSSO(enc, repo, user, provider, grants).0.assignments, row) <==> HasRow(repo.assignments, row)
  {
    ProviderIsolation(enc, repo, user, provider, grants, row);
    ProviderPrefix(enc, provider, other, group);
    var stored := Stored(repo, grants);
    if IsGrant(enc, row, user, provider, stored) {
      var i :| 0 <= i < |stored| && stored[i].role != "" && stored[i].group != ""
            && row == Assignment(user, stored[i].role, "sso", SSOKey(enc, provider, stored[i].group));
      ProviderPrefix(enc, provider, provider, stored[i].group);
    }
  }

  /** A login whose first grant names an unknown role fails, and has taken all of the provider's rows away. */
  lemma FailedLoginRevokes(enc: string -> string, repo: Repo, user: UserId, provider: string, grants: seq<Grant>, row: Assignment)
    requires Keyed(repo.assignments) && forall id :: id in repo.roles ==> NulFree(id)
    requires grants != [] && !Known(repo, grants[0])
    requires row.user == user && FromProvider(enc, row, provider)
    ensures ReplaceSSO(enc, repo, user, provider, grants).1.Err?
    ensures !HasRow(ReplaceSSO(enc, repo, user, provider, grants).0.assignments, row)
  {
    ProviderIsolation(enc, repo, user, provider, grants, row);
    StoredStops(repo, grants);
  }

  lemma WithdrawnRows(enc: string -> string, assignments: Assignments, user: UserId, provider: string, row: Assignment)
    requires Keyed(assignments)
    ensures var kept := Withdrawn(enc, assignments, user, provider);
            && Keyed(kept)
            && (HasRow(kept, row) <==> HasRow(assignments, row) && !(row.user == user && FromProvider(enc, row, provider)))
  {
    var kept := Withdrawn(enc, assignments, user, provider);
    if HasRow(assignments, row) && row.user == user && !FromProvider(enc, row, provider) {
      var k :| k in assignments[user] && assignments[user][k] == row;
      assert k in kept[user] && kept[user][k] == row;
    }
  }

  // ---- Runs ----

  datatype Action =
    | ActEnsure(id: RoleId, name: string, description: string, system: bool, permissions: seq<string>)
    | ActRename(id: RoleId, name: string)
    | ActReplacePermissions(id: RoleId, permissions: seq<string>)
    | ActDelete(id: RoleId)
    | ActAssign(user: UserId, id: RoleId, sourceType: string, sourceKey: string)
    | ActUnassign(user: UserId, id: RoleId, sourceType: string)
    | ActReplaceSource(id: RoleId, sourceType: string, users: seq<UserId>)
    | ActReplaceSSO(user: UserId, provider: string, grants: seq<Grant>)

  /** Callers pass generated role ids and constant source types: not empty, and without NUL. */
  predicate Legal(a: Action) {
    && (a.ActEnsure? ==> a.id != "" && NulFree(a.id))
    && (a.ActAssign? || a.ActReplaceSource? ==> NulFree(a.sourceType))
  }

  function Step(enc: string -> string, repo: Repo, a: Action): Repo {
    match a
    case ActEnsure(id, name, description, system, permissions) => Ensure(repo, id, name, description, system, permissions).0
    case ActRename(id, name) => Rename(repo, id, name).0
    case ActReplacePermissions(id, permissions) => ReplacePermissions(repo, id, permissions).0
    case ActDelete(id) => Delete(repo, id).0
    case ActAssign(user, id, sourceType, sourceKey) => Assign(repo, user, id, sourceType, sourceKey).0
    case ActUnassign(user, id, sourceType) => UnassignSource(repo, user, id, sourceType).0
    case ActReplaceSource(id, sourceType, users) => ReplaceSource(repo, id, sourceType, users).0
    case ActReplaceSSO(user, provider, grants) => ReplaceSSO(enc, repo, user, provider, grants).0
  }

  function Run(enc: string -> string, repo: Repo, actions: seq<Action>): Repo
    decreases |actions|
  {
    if actions == [] then repo else Step(enc, Run(enc, repo, actions[..|actions| - 1]), actions[|actions| - 1])
  }

  ghost predicate Inv(repo: Repo) {
    && Healthy(repo)
    && Keyed(repo.assignments)
    && (forall id :: id in repo.roles ==> NulFree(id))
  }

  const SOME_ROW := Assignment("", "", "", "")

  lemma StepKeepsInv(enc: string -> string, repo: Repo, a: Action)
    requires Inv(repo) && Legal(a)
    ensures Inv(Step(enc, repo, a))
  {
    match a
    case ActEnsure(id, name, description, system, permissions) => EnsureKeepsIndex(repo, id, name, description, system, permissions);
    case ActRename(id, name) => RenameKeepsIndex(repo, id, name);
    case ActReplacePermissions(id, permissions) =>
    case ActDelete(id) =>
      if Refusal(repo, id).None? {
        DeleteKeepsIndex(repo, id);
        DeleteKeepsRows(repo, id);
      }
    case ActAssign(user, id, sourceType, sourceKey) =>
      if id in repo.roles {
        PutKeepsKeyed(repo.assignments, Assignment(user, id, sourceType, sourceKey));
      }
    case ActUnassign(user, id, sourceType) => UnassignRemovesRows(repo, user, id, sourceType, SOME_ROW);
    case ActReplaceSource(id, sourceType, users) =>
      if id in repo.roles {
        ClearedKeepsOthers(repo.assignments, id, sourceType, SOME_ROW);
        PutAllAddsRows(Cleared(repo.assignments, id, sourceType), id, sourceType, Unique(users), SOME_ROW);
      }
    case ActReplaceSSO(user, provider, grants) =>
      WithdrawnRows(enc, repo.assignments, user, provider, SOME_ROW);
      PutGrantsStores(enc, repo.(assignments := Withdrawn(enc, repo.assignments, user, provider)), user, provider, grants, SOME_ROW);
  }

  /** In every run the name index stays the inverse of the role table and every row keeps its key. */
  lemma {:induction false} InvHolds(enc: string -> string, actions: seq<Action>)
    requires forall i :: 0 <= i < |actions| ==> Legal(actions[i])
    ensures Inv(Run(enc, EMPTY, actions))
    decreases |actions|
  {
    if actions != [] {
      var init := actions[..|actions| - 1];
      InvHolds(enc, init);
      StepKeepsInv(enc, Run(enc, EMPTY, init), actions[|init|]);
    }
  }

  ghost predicate IsSystemRole(repo: Repo, id: RoleId, name: string) {
    id in repo.roles && repo.roles[id].system && repo.roles[id].name == name
  }

  lemma StepKeepsSystemRole(enc: string -> string, repo: Repo, a: Action, id: RoleId, name: string)
    requires IsSystemRole(repo, id, name)
    ensures IsSystemRole(Step(enc, repo, a), id, name)
  {
    if a.ActReplaceSSO? {
      PutGrantsKeepsRoles(enc, repo.(assignments := Withdrawn(enc, repo.assignments, a.user, a.provider)), a.user, a.provider, a.grants);
    }
  }

  lemma {:induction false} PutGrantsKeepsRoles(enc: string -> string, repo: Repo, user: UserId, provider: string, grants: seq<Grant>)
    ensures PutGrants(enc, repo, user, provider, grants).0.roles == repo.roles
    decreases |grants|
  {
    if grants != [] {
      PutGrantsKeepsRoles(enc, repo, user, provider, grants[..|grants| - 1]);
    }
  }

  /** A system role is never renamed, deleted or turned into an ordinary one, whatever is requested. */
  lemma {:induction false} SystemRolesStay(enc: string -> string, repo: Repo, actions: seq<Action>, id: RoleId, name: string)
    requires IsSystemRole(repo, id, name)
    ensures IsSystemRole(Run(enc, repo, actions), id, name)
    decreases |actions|
  {
    if actions != [] {
      var init := actions[..|actions| - 1];
      SystemRolesStay(enc, repo, init, id, name);
      StepKeepsSystemRole(enc, Run(enc, repo, init), actions[|init|], id, name);
    }
  }
}
