/** The tables of hosts, host groups and group members, and the statements the host service runs on them. */
module HostTables {
  import opened Common

  datatype GroupRow = GroupRow(name: string, color: string, icon: string, description: Option<string>)

  /** A membership is a pair of a group and a host. */
  datatype Tables = Tables(hosts: map<int, string>, groups: map<int, GroupRow>, members: set<(int, int)>)

  datatype Error =
    | BadRequest
    | HostNotFound | HostConflict | HostFQDNImmutable | DuplicateHostID | DuplicateHostFQDN
    | HostGroupNotFound | HostGroupConflict | GroupNameRequired | InvalidGroupColor | DuplicateGroupID
    | ReferenceNotFound | DuplicateMember

  /** The indexes and foreign keys hold. */
  ghost predicate Sound(t: Tables) {
    && (forall h, k :: h in t.hosts && k in t.hosts && t.hosts[h] == t.hosts[k] ==> h == k)
    && (forall g, k :: g in t.groups && k in t.groups && t.groups[g].name == t.groups[k].name ==> g == k)
    && (forall m :: m in t.members ==> m.0 in t.groups && m.1 in t.hosts)
  }

  function WithoutGroup(members: set<(int, int)>, g: int): set<(int, int)> {
    set m | m in members && m.0 != g
  }

  function WithoutHost(members: set<(int, int)>, h: int): set<(int, int)> {
    set m | m in members && m.1 != h
  }

  /** One INSERT per pair, stopping at the first that breaks a foreign key or the unique index. */
  function InsertMembers(t: Tables, pairs: seq<(int, int)>): Result<Tables, Error>
    decreases |pairs|
  {
    if pairs == [] then Ok(t)
    else if pairs[0].0 !in t.groups || pairs[0].1 !in t.hosts then Err(ReferenceNotFound)
    else if pairs[0] in t.members then Err(DuplicateMember)
    else InsertMembers(t.(members := t.members + {pairs[0]}), pairs[1..])
  }

  function GroupPairs(g: int, hosts: seq<int>): (pairs: seq<(int, int)>)
    ensures |pairs| == |hosts| && forall i :: 0 <= i < |hosts| ==> pairs[i] == (g, hosts[i])
  {
    seq(|hosts|, i requires 0 <= i < |hosts| => (g, hosts[i]))
  }

  function HostPairs(h: int, groups: seq<int>): (pairs: seq<(int, int)>)
    ensures |pairs| == |groups| && forall i :: 0 <= i < |groups| ==> pairs[i] == (groups[i], h)
  {
    seq(|groups|, i requires 0 <= i < |groups| => (groups[i], h))
  }

  function ReplaceHostGroupMembers(t: Tables, g: int, hosts: seq<int>): Result<Tables, Error> {
    InsertMembers(t.(members := WithoutGroup(t.members, g)), GroupPairs(g, hosts))
  }

  function SetHostGroupMembership(t: Tables, h: int, groups: seq<int>): Result<Tables, Error> {
    InsertMembers(t.(members := WithoutHost(t.members, h)), HostPairs(h, groups))
  }

  /** Another group already has the name. */
  predicate NameTaken(t: Tables, g: int, name: string) {
    exists k :: k in t.groups && k != g && t.groups[k].name == name
  }

  /** `id` is the key the database gives the new row. */
  function CreateHostGroup(t: Tables, row: GroupRow, hosts: seq<int>, id: int): Result<Tables, Error> {
    if NameTaken(t, id, row.name) then Err(HostGroupConflict)
    else ReplaceHostGroupMembers(t.(groups := t.groups[id := row]), id, hosts)
  }

  function UpdateHostGroup(t: Tables, id: int, row: GroupRow, hosts: seq<int>): Result<Tables, Error> {
    if id !in t.groups then Err(HostGroupNotFound)
    else if NameTaken(t, id, row.name) then Err(HostGroupConflict)
    else ReplaceHostGroupMembers(t.(groups := t.groups[id := row]), id, hosts)
  }

  /** The deletion cascades to the memberships. */
  function DeleteHostGroup(t: Tables, id: int): Result<Tables, Error> {
    if id !in t.groups then Err(HostGroupNotFound)
    else Ok(t.(groups := t.groups - {id}, members := WithoutGroup(t.members, id)))
  }

  predicate FQDNTaken(t: Tables, fqdn: string) {
    exists k :: k in t.hosts && t.hosts[k] == fqdn
  }

  function CreateHost(t: Tables, fqdn: string, id: int): Result<Tables, Error> {
    if FQDNTaken(t, fqdn) then Err(HostConflict) else Ok(t.(hosts := t.hosts[id := fqdn]))
  }

  function DeleteHost(t: Tables, id: int): Result<Tables, Error> {
    if id !in t.hosts then Err(HostNotFound)
    else Ok(t.(hosts := t.hosts - {id}, members := WithoutHost(t.members, id)))
  }

  /** Which rows the statements miss, and which names stand in their way. */
  lemma FailuresAre(t: Tables, id: int, row: GroupRow, hosts: seq<int>, fqdn: string)
    ensures CreateHostGroup(t, row, hosts, id) == Err(HostGroupConflict) <==>
              exists k :: k in t.groups && k != id && t.groups[k].name == row.name
    ensures UpdateHostGroup(t, id, row, hosts) == Err(HostGroupNotFound) <==> id !in t.groups
    ensures UpdateHostGroup(t, id, row, hosts) == Err(HostGroupConflict) <==>
              id in t.groups && exists k :: k in t.groups && k != id && t.groups[k].name == row.name
    ensures DeleteHostGroup(t, id) == Err(HostGroupNotFound) <==> id !in t.groups
    ensures CreateHost(t, fqdn, id) == Err(HostConflict) <==> exists k :: k in t.hosts && t.hosts[k] == fqdn
    ensures DeleteHost(t, id) == Err(HostNotFound) <==> id !in t.hosts
    ensures DeleteHost(t, id).Ok? ==>
              var t' := DeleteHost(t, id).value;
              && t'.groups == t.groups && t'.hosts == t.hosts - {id}
              && forall m :: m in t'.members <==> m in t.members && m.1 != id
    ensures DeleteHostGroup(t, id).Ok? ==>
              var t' := DeleteHostGroup(t, id).value;
              && t'.hosts == t.hosts && t'.groups == t.groups - {id}
              && forall m :: m in t'.members <==> m in t.members && m.0 != id
  {
    InsertFails(t.(groups := t.groups[id := row], members := WithoutGroup(t.members, id)), GroupPairs(id, hosts));
  }

  lemma {:induction false} InsertFails(t: Tables, pairs: seq<(int, int)>)
    ensures var r := InsertMembers(t, pairs); r.Err? ==> r.error == ReferenceNotFound || r.error == DuplicateMember
    decreases |pairs|
  {
    if pairs != [] {
      InsertFails(t.(members := t.members + {pairs[0]}), pairs[1..]);
    }
  }

  ghost function Elements(pairs: seq<(int, int)>): set<(int, int)> {
    set i | 0 <= i < |pairs| :: pairs[i]
  }

  ghost predicate References(t: Tables, pairs: seq<(int, int)>) {
    forall i :: 0 <= i < |pairs| ==> pairs[i].0 in t.groups && pairs[i].1 in t.hosts
  }

  /** The inserts all succeed exactly when every pair refers to rows and none repeats; then they add them all. */
  lemma {:induction false} InsertsCommit(t: Tables, pairs: seq<(int, int)>)
    ensures InsertMembers(t, pairs).Ok? <==>
              References(t, pairs) && Distinct(pairs) && forall i :: 0 <= i < |pairs| ==> pairs[i] !in t.members
    ensures InsertMembers(t, pairs).Ok? ==>
              InsertMembers(t, pairs).value == t.(members := t.members + Elements(pairs))
    decreases |pairs|
  {
    if pairs != [] && pairs[0].0 in t.groups && pairs[0].1 in t.hosts && pairs[0] !in t.members {
      var t1 := t.(members := t.members + {pairs[0]});
      InsertsCommit(t1, pairs[1..]);
      assert pairs == [pairs[0]] + pairs[1..];
      assert Elements(pairs) == {pairs[0]} + Elements(pairs[1..]);
      assert t1.members + Elements(pairs[1..]) == t.members + Elements(pairs);
      assert forall i :: 0 < i < |pairs| ==> pairs[i] == pairs[1..][i - 1];
      assert References(t, pairs) <==> References(t1, pairs[1..]);
    }
  }

  /** The group g holds this row and exactly these hosts. */
  ghost predicate HasGroup(t: Tables, g: int, row: GroupRow, hosts: seq<int>) {
    g in t.groups && t.groups[g] == row && forall h :: (g, h) in t.members <==> h in hosts
  }

  /** Writing one group changes that group alone. */
  ghost predicate OnlyGroup(t: Tables, t': Tables, g: int) {
    && t'.hosts == t.hosts && t'.groups.Keys == t.groups.Keys + {g}
    && (forall k :: k in t.groups && k != g ==> t'.groups[k] == t.groups[k])
    && (forall k, h :: k != g ==> ((k, h) in t'.members <==> (k, h) in t.members))
  }

  /** What writing a group row with known, distinct hosts does. */
  lemma WriteGroup(t: Tables, g: int, row: GroupRow, hosts: seq<int>)
    requires Sound(t) && Distinct(hosts) && !NameTaken(t, g, row.name)
    requires forall i :: 0 <= i < |hosts| ==> hosts[i] in t.hosts
    ensures var r := ReplaceHostGroupMembers(t.(groups := t.groups[g := row]), g, hosts);
            && r.Ok? && Sound(r.value) && OnlyGroup(t, r.value, g) && HasGroup(r.value, g, row, hosts)
            && r.value.groups == t.groups[g := row]
  {
    var t1 := t.(groups := t.groups[g := row], members := WithoutGroup(t.members, g));
    var pairs := GroupPairs(g, hosts);
    InsertsCommit(t1, pairs);
    forall h
      ensures (g, h) in Elements(pairs) <==> h in hosts
    {
      if h in hosts {
        var i :| 0 <= i < |hosts| && hosts[i] == h;
        assert pairs[i] == (g, h);
      }
    }
  }

  /** An insert that fails on known, distinct hosts or groups fails for a missing reference only. */
  lemma {:induction false} InsertFailure(t: Tables, pairs: seq<(int, int)>)
    requires InsertMembers(t, pairs).Err? && Distinct(pairs) && forall i :: 0 <= i < |pairs| ==> pairs[i] !in t.members
    ensures InsertMembers(t, pairs) == Err(ReferenceNotFound)
    decreases |pairs|
  {
    if pairs[0].0 in t.groups && pairs[0].1 in t.hosts {
      assert forall i :: 0 < i < |pairs| ==> pairs[i] == pairs[1..][i - 1];
      InsertFailure(t.(members := t.members + {pairs[0]}), pairs[1..]);
    }
  }

  /** What replacing one host's memberships does, and when it can. */
  lemma WriteMembership(t: Tables, h: int, groups: seq<int>)
    requires Sound(t) && h in t.hosts && Distinct(groups)
    ensures var r := SetHostGroupMembership(t, h, groups);
            && (r.Err? ==> r == Err(ReferenceNotFound))
            && (r.Ok? <==> forall i :: 0 <= i < |groups| ==> groups[i] in t.groups)
            && (r.Ok? ==>
                  && Sound(r.value) && r.value.hosts == t.hosts && r.value.groups == t.groups
                  && (forall g :: (g, h) in r.value.members <==> g in groups)
                  && (forall g, k :: k != h ==> ((g, k) in r.value.members <==> (g, k) in t.members)))
  {
    var t1 := t.(members := WithoutHost(t.members, h));
    var pairs := HostPairs(h, groups);
    InsertsCommit(t1, pairs);
    if InsertMembers(t1, pairs).Err? { InsertFailure(t1, pairs); }
    forall g
      ensures (g, h) in Elements(pairs) <==> g in groups
    {
      if g in groups {
        var i :| 0 <= i < |groups| && groups[i] == g;
        assert pairs[i] == (g, h);
      }
    }
    assert References(t1, pairs) <==> forall i :: 0 <= i < |groups| ==> groups[i] in t.groups;
  }

  /** The repository's tables, changed in place; a statement that fails leaves them as they were. */
  class Store {
    var hosts: map<int, string>
    var groups: map<int, GroupRow>
    var members: set<(int, int)>

    ghost function Now(): Tables
      reads this
    {
      Tables(hosts, groups, members)
    }

    /** A method's answer and the tables it leaves are what was specified. */
    twostate predicate Did(new spec: Result<Tables, Error>, new answer: Option<Error>)
      reads this
    {
      match spec
      case Ok(t) => answer == None && Now() == t
      case Err(e) => answer == Some(e) && Now() == old(Now())
    }

    constructor (t: Tables)
      ensures Now() == t
    {
      hosts, groups, members := t.hosts, t.groups, t.members;
    }

    method Insert(pairs: seq<(int, int)>) returns (err: Option<Error>)
      modifies this`members
      ensures Did(InsertMembers(old(Now()), pairs), err)
    {
      var members0 := members;
      for i := 0 to |pairs|
        invariant InsertMembers(Now(), pairs[i..]) == InsertMembers(old(Now()), pairs)
      {
        assert pairs[i..][1..] == pairs[i + 1..];
        if pairs[i].0 !in groups || pairs[i].1 !in hosts {
          members := members0;
          return Some(ReferenceNotFound);
        }
        if pairs[i] in members {
          members := members0;
          return Some(DuplicateMember);
        }
        members := members + {pairs[i]};
      }
      err := None;
    }

    method ReplaceMembers(g: int, hostIDs: seq<int>) returns (err: Option<Error>)
      modifies this`members
      ensures Did(ReplaceHostGroupMembers(old(Now()), g, hostIDs), err)
    {
      var members0 := members;
      members := WithoutGroup(members, g);
      err := Insert(GroupPairs(g, hostIDs));
      if err.Some? {
        members := members0;
      }
    }

    method SetMembership(h: int, groupIDs: seq<int>) returns (err: Option<Error>)
      modifies this`members
      ensures Did(SetHostGroupMembership(old(Now()), h, groupIDs), err)
    {
      var members0 := members;
      members := WithoutHost(members, h);
      err := Insert(HostPairs(h, groupIDs));
      if err.Some? {
        members := members0;
      }
    }

    method CreateGroup(row: GroupRow, hostIDs: seq<int>, id: int) returns (err: Option<Error>)
      modifies this`groups, this`members
      ensures Did(CreateHostGroup(old(Now()), row, hostIDs, id), err)
    {
      if k :| k in groups && k != id && groups[k].name == row.name {
        assert NameTaken(Now(), id, row.name);
        return Some(HostGroupConflict);
      }
      var groups0 := groups;
      groups := groups[id := row];
      err := ReplaceMembers(id, hostIDs);
      if err.Some? {
        groups := groups0;
      }
    }

    method UpdateGroup(id: int, row: GroupRow, hostIDs: seq<int>) returns (err: Option<Error>)
      modifies this`groups, this`members
      ensures Did(UpdateHostGroup(old(Now()), id, row, hostIDs), err)
    {
      if id !in groups {
        return Some(HostGroupNotFound);
      }
      if k :| k in groups && k != id && groups[k].name == row.name {
        assert NameTaken(Now(), id, row.name);
        return Some(HostGroupConflict);
      }
      var groups0 := groups;
      groups := groups[id := row];
      err := ReplaceMembers(id, hostIDs);
      if err.Some? {
        groups := groups0;
      }
    }

    method DeleteGroup(id: int) returns (err: Option<Error>)
      modifies this`groups, this`members
      ensures Did(DeleteHostGroup(old(Now()), id), err)
    {
      if id !in groups {
        return Some(HostGroupNotFound);
      }
      groups, members := groups - {id}, WithoutGroup(members, id);
      err := None;
    }

    method AddHost(fqdn: string, id: int) returns (err: Option<Error>)
      modifies this`hosts
      ensures Did(CreateHost(old(Now()), fqdn, id), err)
    {
      if k :| k in hosts && hosts[k] == fqdn {
        assert FQDNTaken(Now(), fqdn);
        return Some(HostConflict);
      }
      hosts := hosts[id := fqdn];
      err := None;
    }

    method RemoveHost(id: int) returns (err: Option<Error>)
      modifies this`hosts, this`members
      ensures Did(DeleteHost(old(Now()), id), err)
    {
      if id !in hosts {
        return Some(HostNotFound);
      }
      hosts, members := hosts - {id}, WithoutHost(members, id);
      err := None;
    }
  }
}
