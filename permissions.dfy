/** The per-node permission table of a calendar: for each command node, the
    role IDs and user IDs denied from using it. */
module Permissions {

  datatype Perms = Perms(node: string, deniedRoles: seq<string>, deniedUsers: seq<string>)

  /** The acting member of a message: user ID and role IDs. */
  datatype Member = Member(id: string, roles: seq<string>)

  /** Which of an entry's two lists an operation works on. */
  datatype DenyList = RoleList | UserList

  function Denied(p: Perms, which: DenyList): seq<string>
  {
    match which
    case RoleList => p.deniedRoles
    case UserList => p.deniedUsers
  }

  function WithDenied(p: Perms, which: DenyList, ids: seq<string>): (q: Perms)
    ensures Denied(q, which) == ids && q.node == p.node
    ensures which == RoleList ==> q.deniedUsers == p.deniedUsers
    ensures which == UserList ==> q.deniedRoles == p.deniedRoles
  {
    match which
    case RoleList => p.(deniedRoles := ids)
    case UserList => p.(deniedUsers := ids)
  }

  /** `permissions.findIndex(perm => perm.node === node)`. */
  function FindNode(ps: seq<Perms>, node: string): (k: int)
    ensures -1 <= k < |ps|
    ensures k >= 0 ==> ps[k].node == node && forall j :: 0 <= j < k ==> ps[j].node != node
    ensures k < 0 <==> forall j :: 0 <= j < |ps| ==> ps[j].node != node
  {
    if ps == [] then -1
    else if ps[0].node == node then 0
    else
      var k := FindNode(ps[1..], node);
      if k < 0 then -1 else k + 1
  }

  /** `ids.findIndex(x => x === id)`. */
  function IndexOf(ids: seq<string>, id: string): (i: int)
    ensures -1 <= i < |ids|
    ensures i >= 0 ==> ids[i] == id && forall j :: 0 <= j < i ==> ids[j] != id
    ensures i < 0 <==> id !in ids
  {
    if ids == [] then -1
    else if ids[0] == id then 0
    else
      var i := IndexOf(ids[1..], id);
      if i < 0 then -1 else i + 1
  }

  /** Whether `ids.find(x => x === id)` is truthy: it returns the matching
      string itself, so an empty ID is never reported as found. */
  predicate Finds(ids: seq<string>, id: string): (b: bool)
    ensures b <==> id != "" && IndexOf(ids, id) >= 0
  {
    id != "" && id in ids
  }

  ghost predicate NoDup(ids: seq<string>)
  {
    forall i, j :: 0 <= i < j < |ids| ==> ids[i] != ids[j]
  }

  /** `denyRolePerm` / `denyUserPerm`: create the node's entry if there is
      none, then append the ID unless it is already found. */
  function Deny(ps: seq<Perms>, node: string, which: DenyList, id: string): seq<Perms>
  {
    var found := FindNode(ps, node);
    var ps1 := if found < 0 then ps + [Perms(node, [], [])] else ps;
    var k := if found < 0 then |ps| else found;
    var list := Denied(ps1[k], which);
    if Finds(list, id) then ps1 else ps1[k := WithDenied(ps1[k], which, list + [id])]
  }

  /** `allowRolePerm` / `allowUserPerm`: if the node has an entry and the ID
      is in the list, splice out its first occurrence. */
  function Allow(ps: seq<Perms>, node: string, which: DenyList, id: string): seq<Perms>
  {
    var k := FindNode(ps, node);
    if k < 0 then ps
    else
      var list := Denied(ps[k], which);
      var i := IndexOf(list, id);
      if i < 0 then ps else ps[k := WithDenied(ps[k], which, list[..i] + list[i + 1..])]
  }

  /** Denying a (non-empty) ID: the node ends up with an entry listing the
      ID, an entry is created only when there was none, every other entry
      and the entry's other list are unchanged, a list without duplicates
      stays without, and denying again changes nothing. */
  lemma DenySpec(ps: seq<Perms>, node: string, which: DenyList, id: string)
    requires id != ""
    ensures var r := Deny(ps, node, which, id);
      var k := FindNode(r, node);
      && k >= 0 && id in Denied(r[k], which)
      && |r| == |ps| + (if FindNode(ps, node) < 0 then 1 else 0)
      && (FindNode(ps, node) >= 0 ==> k == FindNode(ps, node))
      && (forall j :: 0 <= j < |ps| && j != k ==> r[j] == ps[j])
      && Denied(r[k], if which == RoleList then UserList else RoleList)
         == (if FindNode(ps, node) < 0 then [] else Denied(ps[k], if which == RoleList then UserList else RoleList))
      && (FindNode(ps, node) >= 0 && NoDup(Denied(ps[k], which)) ==> NoDup(Denied(r[k], which)))
      && Deny(r, node, which, id) == r
  {
    DenyAt(ps, node, which, id);
    var r := Deny(ps, node, which, id);
    var found := FindNode(ps, node);
    var k := if found < 0 then |ps| else found;
    var list := if found < 0 then [] else Denied(ps[k], which);
    if !Finds(list, id) {
      assert id !in list;
      assert Denied(r[k], which) == list + [id];
      assert (list + [id])[|list|] == id;
    }
    DenyAt(r, node, which, id);
  }

  /** Where and how `Deny` changes the table: the entry for the node (the
      existing one, or a new one appended) gets the ID appended to the list
      unless it is already found there, and nothing else changes. */
  lemma DenyAt(ps: seq<Perms>, node: string, which: DenyList, id: string)
    ensures var r := Deny(ps, node, which, id);
      var found := FindNode(ps, node);
      var k := if found < 0 then |ps| else found;
      var list := if found < 0 then [] else Denied(ps[k], which);
      && |r| == |ps| + (if found < 0 then 1 else 0)
      && FindNode(r, node) == k
      && (forall j :: 0 <= j < |ps| && j != k ==> r[j] == ps[j])
      && Denied(r[k], which) == (if Finds(list, id) then list else list + [id])
      && Denied(r[k], if which == RoleList then UserList else RoleList)
         == (if found < 0 then [] else Denied(ps[k], if which == RoleList then UserList else RoleList))
  {
    var found := FindNode(ps, node);
    var r := Deny(ps, node, which, id);
    var k := if found < 0 then |ps| else found;
    assert r[k].node == node;
    assert forall j :: 0 <= j < k ==> r[j].node != node;
  }

  /** An empty ID is never "found", so denying it appends it again each
      time: deny is idempotent only for non-empty IDs. */
  lemma DenyEmptyIdRepeats(node: string)
    ensures Deny(Deny([], node, RoleList, ""), node, RoleList, "") == [Perms(node, ["", ""], [])]
  {
    var blank := Perms(node, [], []);
    assert FindNode([], node) == -1;
    assert [] + [blank] == [blank];
    assert !Finds([], "");
    assert WithDenied(blank, RoleList, [] + [""]) == Perms(node, [""], []);
    var once := Deny([], node, RoleList, "");
    assert once == [Perms(node, [""], [])];
    assert FindNode(once, node) == 0;
    assert !Finds([""], "");
    assert WithDenied(once[0], RoleList, [""] + [""]) == Perms(node, ["", ""], []);
  }

  /** Allowing never creates an entry and touches only the node's own list
      of the given kind. */
  lemma AllowFrame(ps: seq<Perms>, node: string, which: DenyList, id: string)
    ensures var r := Allow(ps, node, which, id);
      var k := FindNode(ps, node);
      && |r| == |ps|
      && (forall j :: 0 <= j < |ps| ==> r[j].node == ps[j].node)
      && (forall j :: 0 <= j < |ps| && j != k ==> r[j] == ps[j])
      && FindNode(r, node) == k
      && (k >= 0 ==> Denied(r[k], if which == RoleList then UserList else RoleList)
                     == Denied(ps[k], if which == RoleList then UserList else RoleList))
  {
    var k := FindNode(ps, node);
    var r := Allow(ps, node, which, id);
    assert forall j :: 0 <= j < |ps| ==> r[j].node == ps[j].node;
    assert FindNode(r, node) == k;
  }

  /** Removing one occurrence from a list without duplicates removes the ID
      altogether and leaves a list without duplicates. */
  lemma RemoveOccurrence(list: seq<string>, i: nat)
    requires i < |list| && NoDup(list)
    ensures var rest := list[..i] + list[i + 1..];
      list[i] !in rest && NoDup(rest)
  {
    var rest := list[..i] + list[i + 1..];
    forall a | 0 <= a < |rest|
      ensures rest[a] != list[i]
    {
      assert rest[a] == (if a < i then list[a] else list[a + 1]);
    }
    forall a, b | 0 <= a < b < |rest|
      ensures rest[a] != rest[b]
    {
      assert rest[a] == (if a < i then list[a] else list[a + 1]);
      assert rest[b] == (if b < i then list[b] else list[b + 1]);
    }
  }

  /** When the node's list has no duplicates, allowing removes the ID from
      it, keeps it free of duplicates, and allowing again changes nothing. */
  lemma AllowRemoves(ps: seq<Perms>, node: string, which: DenyList, id: string)
    requires FindNode(ps, node) >= 0 && NoDup(Denied(ps[FindNode(ps, node)], which))
    ensures var r := Allow(ps, node, which, id);
      var k := FindNode(ps, node);
      id !in Denied(r[k], which) && NoDup(Denied(r[k], which)) && Allow(r, node, which, id) == r
  {
    AllowFrame(ps, node, which, id);
    var k := FindNode(ps, node);
    var list := Denied(ps[k], which);
    var i := IndexOf(list, id);
    if i >= 0 {
      RemoveOccurrence(list, i);
    }
  }

  /** Allowing an ID undoes denying it, when the node already had an entry
      that did not list the ID. */
  lemma AllowUndoesDeny(ps: seq<Perms>, node: string, which: DenyList, id: string)
    requires id != ""
    requires FindNode(ps, node) >= 0 && id !in Denied(ps[FindNode(ps, node)], which)
    ensures Allow(Deny(ps, node, which, id), node, which, id) == ps
  {
    var k := FindNode(ps, node);
    var list := Denied(ps[k], which);
    var d := Deny(ps, node, which, id);
    DenyAt(ps, node, which, id);
    assert Denied(d[k], which) == list + [id];
    SpliceAppended(list, id);
    var restored := WithDenied(d[k], which, list);
    assert Allow(d, node, which, id) == d[k := restored];
    assert restored == ps[k] by {
      match which
      case RoleList => assert restored.deniedRoles == ps[k].deniedRoles;
      case UserList => assert restored.deniedUsers == ps[k].deniedUsers;
    }
    assert d[k := ps[k]] == ps;
  }

  /** Splicing out the first occurrence of an ID just appended to a list
      that did not hold it gives the list back. */
  lemma SpliceAppended(list: seq<string>, id: string)
    requires id !in list
    ensures var i := IndexOf(list + [id], id);
      i == |list| && (list + [id])[..i] + (list + [id])[i + 1..] == list
  {
    assert (list + [id])[|list|] == id;
    assert (list + [id])[..|list|] == list;
  }

  /** The decision of `checkPerm`: the guild owner may always; anyone else
      may unless the node's entry lists their user ID or one of their role
      IDs (as found by `find`); a node with no entry denies nobody. */
  predicate Permitted(ps: seq<Perms>, node: string, member: Member, ownerId: string): (b: bool)
    ensures !b <==> (ownerId != member.id && FindNode(ps, node) >= 0 &&
      var p := ps[FindNode(ps, node)];
      (member.id != "" && member.id in p.deniedUsers) ||
      (exists r :: r in p.deniedRoles && r != "" && r in member.roles))
  {
    ownerId == member.id ||
    var k := FindNode(ps, node);
    k < 0 ||
    (!Finds(ps[k].deniedUsers, member.id) && forall r :: r in ps[k].deniedRoles ==> !Finds(member.roles, r))
  }

  /** Denying a member's user ID (or one of their roles) on a node takes the
      node away from them, unless they own the guild. */
  lemma DenyRevokes(ps: seq<Perms>, node: string, member: Member, ownerId: string, which: DenyList, id: string)
    requires ownerId != member.id && id != ""
    requires which == UserList ==> id == member.id
    requires which == RoleList ==> id in member.roles
    ensures !Permitted(Deny(ps, node, which, id), node, member, ownerId)
  {
    DenySpec(ps, node, which, id);
  }

  /** Allowing a user back on a node whose entry denies none of their roles
      and lists each user at most once restores their permission. */
  lemma AllowUserRestores(ps: seq<Perms>, node: string, member: Member, ownerId: string)
    requires FindNode(ps, node) >= 0
    requires NoDup(ps[FindNode(ps, node)].deniedUsers)
    requires forall r :: r in ps[FindNode(ps, node)].deniedRoles ==> !Finds(member.roles, r)
    ensures Permitted(Allow(ps, node, UserList, member.id), node, member, ownerId)
  {
    AllowFrame(ps, node, UserList, member.id);
    AllowRemoves(ps, node, UserList, member.id);
  }
}
