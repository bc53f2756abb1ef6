/** Role-based access control: permission closure over an inheritance graph
    that may have cycles and dangling role names (libs/auth/rbac.go). */
module Rbac {
  import opened Results

  type Permission = string

  datatype Error = RoleNotFound | PermissionNotFound | AccessDenied

  datatype RoleData = RoleData(permissions: seq<Permission>, inherits: seq<string>)

  type Graph = map<string, RoleData>

  // ---------------------------------------------------------------------
  // Reference semantics: plain graph reachability
  // ---------------------------------------------------------------------

  /** A walk along Inherits. Every node but the last must exist; the last one
      may be a dangling name. */
  ghost predicate Walk(g: Graph, path: seq<string>) {
    |path| > 0 &&
    forall i :: 0 <= i < |path| - 1 ==> path[i] in g && path[i + 1] in g[path[i]].inherits
  }

  ghost predicate WalkFromTo(g: Graph, path: seq<string>, from: string, to: string) {
    Walk(g, path) && path[0] == from && path[|path| - 1] == to
  }

  ghost predicate Reaches(g: Graph, from: string, to: string) {
    exists path :: WalkFromTo(g, path, from, to)
  }

  /** Some existing role reachable from `role` carries the permission directly. */
  ghost predicate Grants(g: Graph, role: string, p: Permission) {
    exists r :: r in g && Reaches(g, role, r) && p in g[r].permissions
  }

  /** Superadmin needs no permission of its own. */
  ghost predicate Holds(g: Graph, role: string, p: Permission) {
    role == SUPERADMIN || Grants(g, role, p)
  }

  const SUPERADMIN: string := "superadmin"

  /** Direct permissions of the existing roles among `names`. */
  ghost function PermissionsOf(g: Graph, names: set<string>): set<Permission> {
    set n, p | n in names && n in g && p in g[n].permissions :: p
  }

  ghost function Elements<T>(s: seq<T>): set<T> {
    set x | x in s
  }

  ghost predicate NoDuplicates<T>(s: seq<T>) {
    forall i, j :: 0 <= i < j < |s| ==> s[i] != s[j]
  }

  lemma ReachesSelf(g: Graph, role: string)
    ensures Reaches(g, role, role)
  {
    assert WalkFromTo(g, [role], role, role);
  }

  lemma ReachesThroughParent(g: Graph, role: string, parent: string, to: string)
    requires role in g && parent in g[role].inherits && Reaches(g, parent, to)
    ensures Reaches(g, role, to)
  {
    var path :| WalkFromTo(g, path, parent, to);
    assert WalkFromTo(g, [role] + path, role, to);
  }

  /** A set of names that contains every parent of its existing members. */
  ghost predicate Closed(g: Graph, names: set<string>) {
    forall n, m :: n in names && n in g && m in g[n].inherits ==> m in names
  }

  lemma {:induction false} ClosedContainsWalk(g: Graph, names: set<string>, path: seq<string>)
    requires Closed(g, names) && Walk(g, path) && path[0] in names
    ensures path[|path| - 1] in names
    decreases |path|
  {
    if |path| > 1 {
      var rest := path[1..];
      assert forall i :: 0 <= i < |rest| ==> rest[i] == path[i + 1];
      ClosedContainsWalk(g, names, rest);
    }
  }

  /** A closed set made of names reachable from a role is its whole reach, so
      the permissions collected over it are exactly the granted ones. */
  lemma ClosureGrants(g: Graph, role: string, names: set<string>)
    requires Closed(g, names) && role in names
    requires forall n :: n in names ==> Reaches(g, role, n)
    ensures forall p :: p in PermissionsOf(g, names) <==> Grants(g, role, p)
  {
    forall p | Grants(g, role, p) ensures p in PermissionsOf(g, names) {
      var r :| r in g && Reaches(g, role, r) && p in g[r].permissions;
      var path :| WalkFromTo(g, path, role, r);
      ClosedContainsWalk(g, names, path);
    }
  }

  /** A search from `role` that took the visited names from `before` to `after`:
      it only visited names the role reaches and left no parent of a newly
      visited role unvisited. */
  ghost predicate Explored(g: Graph, role: string, before: set<string>, after: set<string>) {
    before + {role} <= after &&
    (forall n :: n in after - before ==> Reaches(g, role, n)) &&
    (forall n, m :: n in after - before && n in g && m in g[n].inherits ==> m in after)
  }

  /** The same search midway, with the first i parents of `role` behind it. */
  ghost predicate Exploring(g: Graph, role: string, before: set<string>, now: set<string>, i: nat)
    requires role in g && i <= |g[role].inherits|
  {
    role !in before && before + {role} <= now &&
    (forall n :: n in now - before ==> Reaches(g, role, n)) &&
    (forall k :: 0 <= k < i ==> g[role].inherits[k] in now) &&
    (forall n, m :: n in now - before && n != role && n in g && m in g[n].inherits ==> m in now)
  }

  lemma PermissionsOfOne(g: Graph, role: string)
    ensures PermissionsOf(g, {role}) == if role in g then Elements(g[role].permissions) else {}
    ensures PermissionsOf(g, {}) == {} == Elements<Permission>([]) && NoDuplicates<Permission>([])
  {
  }

  lemma AlreadyExplored(g: Graph, role: string, names: set<string>)
    requires role in names
    ensures Explored(g, role, names, names)
  {
  }

  /** The search has marked its own role and nothing else. */
  lemma BeginExploring(g: Graph, role: string, before: set<string>)
    requires role !in before
    ensures role in g ==> Exploring(g, role, before, before + {role}, 0)
    ensures role !in g ==> Explored(g, role, before, before + {role})
  {
    ReachesSelf(g, role);
  }

  lemma FinishExploring(g: Graph, role: string, before: set<string>, now: set<string>)
    requires role in g && Exploring(g, role, before, now, |g[role].inherits|)
    ensures Explored(g, role, before, now)
  {
  }

  lemma ExploredGrows(g: Graph, role: string, before: set<string>, after: set<string>)
    requires Explored(g, role, before, after)
    ensures before + {role} <= after
  {
  }

  /** Exploring one more parent, whatever its siblings have already visited. */
  lemma ExploreParent(g: Graph, role: string, before: set<string>, now: set<string>, after: set<string>, i: nat)
    requires role in g && i < |g[role].inherits|
    requires Exploring(g, role, before, now, i)
    requires Explored(g, g[role].inherits[i], now, after)
    ensures Exploring(g, role, before, after, i + 1)
    ensures PermissionsOf(g, after - before) ==
            PermissionsOf(g, now - before) + PermissionsOf(g, after - now)
  {
    forall n | n in after - now ensures Reaches(g, role, n) {
      ReachesThroughParent(g, role, g[role].inherits[i], n);
    }
    assert after - before == (now - before) + (after - now);
  }

  // ---------------------------------------------------------------------
  // Properties of the reference semantics
  // ---------------------------------------------------------------------

  /** Two graphs that differ only in the order (or repetition) of their
      Inherits and Permissions lists. */
  ghost predicate SameUpToOrder(g: Graph, h: Graph) {
    g.Keys == h.Keys &&
    forall n :: n in g ==>
      Elements(g[n].inherits) == Elements(h[n].inherits) &&
      Elements(g[n].permissions) == Elements(h[n].permissions)
  }

  lemma WalkUpToOrder(g: Graph, h: Graph, path: seq<string>)
    requires SameUpToOrder(g, h) && Walk(g, path)
    ensures Walk(h, path)
  {
    forall i | 0 <= i < |path| - 1 ensures path[i] in h && path[i + 1] in h[path[i]].inherits {
      assert path[i] in g;
      assert path[i + 1] in Elements(g[path[i]].inherits);
    }
  }

  lemma GrantsUpToOrder(g: Graph, h: Graph, role: string, p: Permission)
    requires SameUpToOrder(g, h) && Grants(g, role, p)
    ensures Grants(h, role, p)
  {
    var r :| r in g && Reaches(g, role, r) && p in g[r].permissions;
    var path :| WalkFromTo(g, path, role, r);
    WalkUpToOrder(g, h, path);
    assert WalkFromTo(h, path, role, r);
    assert p in Elements(g[r].permissions);
  }

  /** What a role is granted does not depend on the order of the lists. */
  lemma GrantsIgnoresOrder(g: Graph, h: Graph, role: string, p: Permission)
    requires SameUpToOrder(g, h)
    ensures Grants(g, role, p) <==> Grants(h, role, p)
  {
    if Grants(g, role, p) {
      GrantsUpToOrder(g, h, role, p);
    }
    if Grants(h, role, p) {
      GrantsUpToOrder(h, g, role, p);
    }
  }

  /** Adding one permission to one role grants exactly that permission, and
      exactly to the roles that reach it. */
  lemma AddedPermissionReach(g: Graph, h: Graph, role: string, p: Permission, x: string, q: Permission)
    requires role in g && g.Keys == h.Keys
    requires forall n :: n in g ==> g[n].inherits == h[n].inherits
    requires forall n :: n in g && n != role ==> g[n].permissions == h[n].permissions
    requires Elements(h[role].permissions) == Elements(g[role].permissions) + {p}
    ensures Grants(h, x, q) <==> Grants(g, x, q) || (q == p && Reaches(g, x, role))
  {
    forall a, b ensures Reaches(g, a, b) <==> Reaches(h, a, b) {
      SameReach(g, h, a, b);
      SameReach(h, g, a, b);
    }
    assert forall y :: y in h[role].permissions <==> y in Elements(h[role].permissions);
    assert forall y :: y in g[role].permissions <==> y in Elements(g[role].permissions);
    if Grants(g, x, q) {
      var r :| r in g && Reaches(g, x, r) && q in g[r].permissions;
      assert q in h[r].permissions;
    }
    if q == p && Reaches(g, x, role) {
      assert q in h[role].permissions;
    }
  }

  lemma SameReach(g: Graph, h: Graph, a: string, b: string)
    requires g.Keys == h.Keys && forall n :: n in g ==> g[n].inherits == h[n].inherits
    ensures Reaches(g, a, b) ==> Reaches(h, a, b)
  {
    if Reaches(g, a, b) {
      var path :| WalkFromTo(g, path, a, b);
      forall i | 0 <= i < |path| - 1 ensures path[i] in h && path[i + 1] in h[path[i]].inherits {
        assert path[i] in g && path[i + 1] in g[path[i]].inherits;
      }
      assert WalkFromTo(h, path, a, b);
    }
  }

  /** After a role is removed, its name is a dangling parent: whatever is still
      granted comes over a walk that never passes through it. */
  lemma RemovedRoleReach(g: Graph, gone: string, x: string, q: Permission)
    ensures Grants(g - {gone}, x, q) <==>
            exists r, path :: r in g && gone !in path && WalkFromTo(g, path, x, r) && q in g[r].permissions
  {
    var h := g - {gone};
    if Grants(h, x, q) {
      var r :| r in h && Reaches(h, x, r) && q in h[r].permissions;
      var path :| WalkFromTo(h, path, x, r);
      forall i | 0 <= i < |path| ensures path[i] != gone {
        if i < |path| - 1 {
          assert path[i] in h;
        }
      }
      forall i | 0 <= i < |path| - 1 ensures path[i] in g && path[i + 1] in g[path[i]].inherits {
        assert path[i] in h;
      }
      assert WalkFromTo(g, path, x, r);
    }
    if r, path :| r in g && gone !in path && WalkFromTo(g, path, x, r) && q in g[r].permissions {
      assert r == path[|path| - 1] && r in path;
      assert WalkFromTo(h, path, x, r);
      assert r in h && Reaches(h, x, r) && q in h[r].permissions;
    }
  }

  // ---------------------------------------------------------------------
  // The manager
  // ---------------------------------------------------------------------

  class Role {
    var name: string
    var permissions: seq<Permission>
    var inherits: seq<string>

    constructor (name: string, permissions: seq<Permission>, inherits: seq<string>)
      ensures this.name == name && this.permissions == permissions && this.inherits == inherits
    {
      this.name, this.permissions, this.inherits := name, permissions, inherits;
    }
  }

  /** The `visited` map that one search shares across all its branches. */
  class VisitedNames {
    var names: set<string>

    constructor ()
      ensures names == {}
    {
      names := {};
    }
  }

  class RBACManager {
    var roles: map<string, Role>

    /** Every role is filed under its own name, so no two names share a role. */
    ghost predicate Valid()
      reads this, roles.Values
    {
      forall n :: n in roles ==> roles[n].name == n
    }

    ghost function Inheritance(): Graph
      reads this, roles.Values
    {
      map n | n in roles :: RoleData(roles[n].permissions, roles[n].inherits)
    }

    constructor ()
      ensures Valid() && Inheritance() == map[]
    {
      roles := map[];
    }

    method AddRole(role: Role)
      requires Valid()
      modifies this
      ensures Valid()
      ensures Inheritance() == old(Inheritance())[role.name := RoleData(role.permissions, role.inherits)]
    {
      ghost var g := Inheritance();
      roles := roles[role.name := role];
      ghost var expected := g[role.name := RoleData(role.permissions, role.inherits)];
      assert Inheritance() == expected by {
        assert Inheritance().Keys == roles.Keys == expected.Keys;
        assert forall n :: n in g && n != role.name ==> Inheritance()[n] == g[n];
      }
    }

    method GetAllPermissionsRecursive(roleName: string, visited: VisitedNames)
      returns (r: Result<seq<Permission>, Error>)
      modifies visited
      ensures Explored(Inheritance(), roleName, old(visited.names), visited.names)
      ensures roleName in old(visited.names) ==> visited.names == old(visited.names)
      ensures r.Err? <==> roleName !in old(visited.names) && roleName !in roles
      ensures r.Err? ==> r.error == RoleNotFound && visited.names == old(visited.names) + {roleName}
      // the answer covers the newly visited roles only
      ensures r.Ok? ==> (
        NoDuplicates(r.value) &&
        Elements(r.value) == PermissionsOf(Inheritance(), visited.names - old(visited.names)))
      decreases roles.Keys - visited.names
    {
      hide Reaches, Exploring, Explored, PermissionsOf, Elements, NoDuplicates;
      if roleName in visited.names {
        assert visited.names - visited.names == {};
        PermissionsOfOne(Inheritance(), roleName);
        AlreadyExplored(Inheritance(), roleName, visited.names);
        return Ok([]);
      }
      ghost var g, before := Inheritance(), visited.names;
      visited.names := visited.names + {roleName};
      assert visited.names - before == {roleName};
      BeginExploring(g, roleName, before);
      PermissionsOfOne(g, roleName);

      if roleName !in roles {
        return Err(RoleNotFound);
      }
      var role := roles[roleName];
      assert g[roleName] == RoleData(role.permissions, role.inherits);

      var permSet := AddAll({}, role.permissions);

      for i := 0 to |role.inherits|
        invariant Exploring(g, roleName, before, visited.names, i)
        invariant before + {roleName} <= visited.names && permSet == PermissionsOf(g, visited.names - before)
      {
        ghost var soFar := visited.names;
        var inherited := GetAllPermissionsRecursive(role.inherits[i], visited);
        ExploredGrows(g, role.inherits[i], soFar, visited.names);
        ExploreParent(g, roleName, before, soFar, visited.names, i);
        if inherited.Err? {
          assert visited.names - soFar == {role.inherits[i]};
          PermissionsOfOne(g, role.inherits[i]);
          continue;
        }
        permSet := AddAll(permSet, inherited.value);
      }

      FinishExploring(g, roleName, before, visited.names);
      var permissions := ToSlice(permSet);
      return Ok(permissions);
    }

    /** The answer is graph reachability, although every inner call of the
        search only sees what its predecessors left unvisited. */
    method GetAllPermissions(roleName: string) returns (r: Result<seq<Permission>, Error>)
      ensures r.Err? <==> roleName !in Inheritance()
      ensures r.Err? ==> r.error == RoleNotFound
      ensures r.Ok? ==> NoDuplicates(r.value)
      ensures r.Ok? ==> forall p :: p in r.value <==> Grants(Inheritance(), roleName, p)
    {
      var visited := new VisitedNames();
      r := GetAllPermissionsRecursive(roleName, visited);
      if r.Ok? {
        assert visited.names - {} == visited.names;
        ClosureGrants(Inheritance(), roleName, visited.names);
        assert forall p :: p in r.value <==> p in Elements(r.value);
      }
    }

    method HasPermission(roleName: string, permission: Permission) returns (b: bool)
      ensures b <==> Holds(Inheritance(), roleName, permission)
      ensures b <==> roleName == "superadmin" || Grants(Inheritance(), roleName, permission)
    {
      if roleName == SUPERADMIN {
        return true;
      }
      var r := GetAllPermissions(roleName);
      if r.Err? {
        if Grants(Inheritance(), roleName, permission) {
          OnlyExistingRolesAreGranted(Inheritance(), roleName, permission);
        }
        return false;
      }
      for i := 0 to |r.value|
        invariant permission !in r.value[..i]
      {
        if r.value[i] == permission {
          return true;
        }
      }
      assert r.value[..|r.value|] == r.value;
      return false;
    }

    method HasAnyPermission(roleName: string, permissions: seq<Permission>) returns (b: bool)
      ensures b <==> exists p :: p in permissions && Holds(Inheritance(), roleName, p)
    {
      for i := 0 to |permissions|
        invariant forall p :: p in permissions[..i] ==> !Holds(Inheritance(), roleName, p)
      {
        var has := HasPermission(roleName, permissions[i]);
        if has {
          return true;
        }
      }
      assert permissions[..|permissions|] == permissions;
      return false;
    }

    method HasAllPermissions(roleName: string, permissions: seq<Permission>) returns (b: bool)
      ensures b <==> forall p :: p in permissions ==> Holds(Inheritance(), roleName, p)
    {
      for i := 0 to |permissions|
        invariant forall p :: p in permissions[..i] ==> Holds(Inheritance(), roleName, p)
      {
        var has := HasPermission(roleName, permissions[i]);
        if !has {
          return false;
        }
      }
      assert permissions[..|permissions|] == permissions;
      return true;
    }

    method CheckAccess(userRoles: seq<string>, permission: Permission) returns (r: Result<(), Error>)
      ensures r.Ok? <==> exists role :: role in userRoles && Holds(Inheritance(), role, permission)
      ensures r.Ok? <==>
        exists role :: role in userRoles && (role == "superadmin" || Grants(Inheritance(), role, permission))
      ensures r.Err? ==> r.error == AccessDenied
    {
      for i := 0 to |userRoles|
        invariant forall role :: role in userRoles[..i] ==> !Holds(Inheritance(), role, permission)
      {
        var has := HasPermission(userRoles[i], permission);
        if has {
          return Ok(());
        }
      }
      assert userRoles[..|userRoles|] == userRoles;
      return Err(AccessDenied);
    }

    method CheckAnyAccess(userRoles: seq<string>, permissions: seq<Permission>) returns (r: Result<(), Error>)
      ensures r.Ok? <==> exists role, p ::
                role in userRoles && p in permissions && Holds(Inheritance(), role, p)
      ensures r.Err? ==> r.error == AccessDenied
    {
      for i := 0 to |userRoles|
        invariant forall role, p ::
          role in userRoles[..i] && p in permissions ==> !Holds(Inheritance(), role, p)
      {
        var has := HasAnyPermission(userRoles[i], permissions);
        if has {
          return Ok(());
        }
      }
      assert userRoles[..|userRoles|] == userRoles;
      return Err(AccessDenied);
    }

    method RemoveRole(name: string) returns (r: Result<(), Error>)
      requires Valid()
      modifies this
      ensures Valid()
      ensures r.Ok? <==> name in old(roles)
      ensures r.Err? ==> r.error == RoleNotFound
      ensures Inheritance() == old(Inheritance()) - {name}
    {
      if name !in roles {
        return Err(RoleNotFound);
      }
      roles := roles - {name};
      return Ok(());
    }

    /** Afterwards exactly the roles that reach roleName have gained exactly
        this permission. */
    method AddPermissionToRole(roleName: string, permission: Permission) returns (r: Result<(), Error>)
      requires Valid()
      modifies roles.Values
      ensures Valid() && roles == old(roles)
      ensures r.Ok? <==> roleName in roles
      ensures r.Err? ==> r.error == RoleNotFound && Inheritance() == old(Inheritance())
      ensures r.Ok? ==> forall x, q :: Grants(Inheritance(), x, q) <==>
                old(Grants(Inheritance(), x, q)) || (q == permission && old(Reaches(Inheritance(), x, roleName)))
      // no other role is touched, and no duplicate is introduced
      ensures r.Ok? ==> Inheritance() == old(Inheritance())[roleName := Inheritance()[roleName]]
      ensures r.Ok? ==> Inheritance()[roleName].inherits == old(Inheritance()[roleName].inherits)
      ensures r.Ok? && old(NoDuplicates(roles[roleName].permissions)) ==> NoDuplicates(roles[roleName].permissions)
    {
      if roleName !in roles {
        return Err(RoleNotFound);
      }
      ghost var g := Inheritance();
      var role := roles[roleName];
      var present := false;
      for i := 0 to |role.permissions|
        invariant permission !in role.permissions[..i]
      {
        if role.permissions[i] == permission {
          present := true;
          break;
        }
      }
      if !present {
        assert role.permissions[..|role.permissions|] == role.permissions;
        role.permissions := role.permissions + [permission];
      }
      forall x, q ensures Grants(Inheritance(), x, q) <==>
                            Grants(g, x, q) || (q == permission && Reaches(g, x, roleName))
      {
        AddedPermissionReach(g, Inheritance(), roleName, permission, x, q);
      }
      return Ok(());
    }

    /** Only the first occurrence goes, so the role keeps the permission exactly
        when it was listed more than once. */
    method RemovePermissionFromRole(roleName: string, permission: Permission) returns (r: Result<(), Error>)
      requires Valid()
      modifies if roleName in roles then {roles[roleName]} else {}
      ensures Valid() && roles == old(roles)
      ensures roleName !in roles ==> r == Err(RoleNotFound)
      ensures roleName in roles ==>
        r == if old(permission in roles[roleName].permissions) then Ok(()) else Err(PermissionNotFound)
      ensures roleName in roles ==> (
        roles[roleName].inherits == old(roles[roleName].inherits) &&
        roles[roleName].permissions == WithoutFirst(old(roles[roleName].permissions), permission))
    {
      if roleName !in roles {
        return Err(RoleNotFound);
      }
      var role := roles[roleName];
      ghost var was := role.permissions;
      for i := 0 to |role.permissions|
        invariant permission !in role.permissions[..i] && role.permissions == was
      {
        if role.permissions[i] == permission {
          WithoutFirstAt(was, permission, i);
          role.permissions := role.permissions[..i] + role.permissions[i + 1..];
          return Ok(());
        }
      }
      assert was[..|was|] == was;
      WithoutMissing(was, permission);
      return Err(PermissionNotFound);
    }
  }

  lemma OnlyExistingRolesAreGranted(g: Graph, role: string, p: Permission)
    requires Grants(g, role, p)
    ensures role in g
  {
  }

  /** s less the first occurrence of x, in the same order. */
  function WithoutFirst<T(==)>(s: seq<T>, x: T): seq<T> {
    if |s| == 0 then [] else if s[0] == x then s[1..] else [s[0]] + WithoutFirst(s[1..], x)
  }

  lemma {:induction false} WithoutFirstAt<T>(s: seq<T>, x: T, i: nat)
    requires i < |s| && s[i] == x && x !in s[..i]
    ensures WithoutFirst(s, x) == s[..i] + s[i + 1..]
  {
    if i > 0 {
      assert s[0] == s[..i][0] && s[1..][..i - 1] == s[..i][1..];
      WithoutFirstAt(s[1..], x, i - 1);
    }
  }

  lemma {:induction false} WithoutMissing<T>(s: seq<T>, x: T)
    requires x !in s
    ensures WithoutFirst(s, x) == s
  {
    if |s| > 0 {
      WithoutMissing(s[1..], x);
    }
  }

  /** A permission is still there afterwards exactly when it was listed twice;
      the other permissions are all there. */
  lemma {:induction false} WithoutFirstKeeps<T>(s: seq<T>, x: T)
    ensures multiset(WithoutFirst(s, x)) == multiset(s) - multiset{x}
  {
    if |s| > 0 {
      assert s == [s[0]] + s[1..];
      WithoutFirstKeeps(s[1..], x);
    }
  }

  /** permSet[perm] = true for every perm of a list. */
  method AddAll<T(==)>(s: set<T>, list: seq<T>) returns (r: set<T>)
    ensures r == s + Elements(list)
  {
    r := s;
    for i := 0 to |list|
      invariant r == s + Elements(list[..i])
    {
      r := r + {list[i]};
    }
    assert list[..|list|] == list;
  }

  /** Lists a set without repetition in an arbitrary order, as ranging over a
      Go map does. */
  method ToSlice<T(==)>(s: set<T>) returns (list: seq<T>)
    ensures NoDuplicates(list) && Elements(list) == s
  {
    list := [];
    var rest := s;
    while rest != {}
      invariant NoDuplicates(list) && Elements(list) + rest == s && Elements(list) !! rest
      decreases rest
    {
      var x :| x in rest;
      assert x !in Elements(list);
      list, rest := list + [x], rest - {x};
    }
  }
}
