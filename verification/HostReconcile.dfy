/** Reconciling the hosts with a desired image: plan the difference, then delete, create and set memberships. */
module HostReconcile {
  import opened Common
  import opened HostTables
  import opened Slices

  datatype Host = Host(id: int, fqdn: string)

  /** A desired host; without an id it is to be created. */
  datatype Desired = Desired(id: Option<int>, fqdn: string, groups: seq<int>)

  datatype HostDraft = HostDraft(fqdn: string, groups: seq<int>)

  datatype GroupSet = GroupSet(host: int, groups: seq<int>)

  datatype Plan = Plan(toCreate: seq<HostDraft>, toDelete: seq<int>, toSetGroups: seq<GroupSet>)

  ghost predicate DistinctIDs(hosts: seq<Desired>) {
    forall i, j :: 0 <= i < j < |hosts| && hosts[i].id.Some? ==> hosts[i].id != hosts[j].id
  }

  ghost predicate DistinctFQDNs(hosts: seq<Desired>) {
    forall i, j :: 0 <= i < j < |hosts| ==> hosts[i].fqdn != hosts[j].fqdn
  }

  /** What prepare gives a request that it accepts, for the given naming rules. */
  ghost predicate Prepared(hosts: seq<Desired>) {
    && (forall i :: 0 <= i < |hosts| ==> Distinct(hosts[i].groups))
    && DistinctIDs(hosts) && DistinctFQDNs(hosts)
  }

  function Normalised(h: Desired, normalise: string -> string): Desired {
    Desired(h.id, normalise(h.fqdn), Deduped(h.groups))
  }

  ghost function AllNormalised(hosts: seq<Desired>, normalise: string -> string): (out: seq<Desired>)
    ensures |out| == |hosts|
  {
    seq(|hosts|, i requires 0 <= i < |hosts| => Normalised(hosts[i], normalise))
  }

  /** The first loop of prepare; a refused host has its name changed and its group list as it was. */
  method PrepareEach(hosts: array<Desired>, normalise: string -> string, valid: string -> bool) returns (ok: bool)
    modifies hosts
    ensures ok <==> forall i :: 0 <= i < hosts.Length ==> valid(normalise(old(hosts[i].fqdn)))
    ensures ok ==> hosts[..] == AllNormalised(old(hosts[..]), normalise)
    ensures !ok ==>
              exists k :: 0 <= k < hosts.Length && !valid(normalise(old(hosts[k].fqdn)))
                          && (forall i :: 0 <= i < k ==> hosts[i] == Normalised(old(hosts[i]), normalise))
                          && hosts[k] == old(hosts[k]).(fqdn := normalise(old(hosts[k].fqdn)))
                          && (forall i :: k < i < hosts.Length ==> hosts[i] == old(hosts[i]))
  {
    for k := 0 to hosts.Length
      invariant forall i :: 0 <= i < k ==> hosts[i] == Normalised(old(hosts[i]), normalise) && valid(hosts[i].fqdn)
      invariant forall i :: k <= i < hosts.Length ==> hosts[i] == old(hosts[i])
    {
      var h := hosts[k];
      hosts[k] := h.(fqdn := normalise(h.fqdn));
      if !valid(hosts[k].fqdn) {
        return false;
      }
      hosts[k] := Normalised(h, normalise);
    }
    ok := true;
  }

  method RepeatsID(hosts: seq<Desired>) returns (found: bool)
    ensures found <==> !DistinctIDs(hosts)
  {
    var seen: set<int> := {};
    for k := 0 to |hosts|
      invariant DistinctIDs(hosts[..k])
      invariant forall id :: id in seen <==> exists i :: 0 <= i < k && hosts[i].id == Some(id)
    {
      assert hosts[..k + 1] == hosts[..k] + [hosts[k]];
      if hosts[k].id.Some? {
        var id := hosts[k].id.value;
        assert hosts[k].id == Some(id);
        if id in seen {
          return true;
        }
        seen := seen + {id};
      }
    }
    assert hosts[..|hosts|] == hosts;
    found := false;
  }

  method RepeatsFQDN(hosts: seq<Desired>) returns (found: bool)
    ensures found <==> !DistinctFQDNs(hosts)
  {
    var seen: set<string> := {};
    for k := 0 to |hosts|
      invariant DistinctFQDNs(hosts[..k])
      invariant forall f :: f in seen <==> exists i :: 0 <= i < k && hosts[i].fqdn == f
    {
      assert hosts[..k + 1] == hosts[..k] + [hosts[k]];
      if hosts[k].fqdn in seen {
        return true;
      }
      seen := seen + {hosts[k].fqdn};
    }
    assert hosts[..|hosts|] == hosts;
    found := false;
  }

  /** prepare, with NormaliseHost and ValidateFQDN given: names first, then repeated ids, then repeated names. */
  method Prepare(hosts: array<Desired>, normalise: string -> string, valid: string -> bool) returns (err: Option<Error>)
    modifies hosts
    ensures var all := AllNormalised(old(hosts[..]), normalise);
            err == if exists i :: 0 <= i < |all| && !valid(all[i].fqdn) then Some(BadRequest)
                   else if !DistinctIDs(all) then Some(DuplicateHostID)
                   else if !DistinctFQDNs(all) then Some(DuplicateHostFQDN)
                   else None
    ensures err != Some(BadRequest) ==> hosts[..] == AllNormalised(old(hosts[..]), normalise)
    ensures err == None ==> Prepared(hosts[..])
  {
    ghost var all := AllNormalised(old(hosts[..]), normalise);
    var ok := PrepareEach(hosts, normalise, valid);
    if !ok {
      ghost var i :| 0 <= i < hosts.Length && !valid(normalise(old(hosts[i].fqdn)));
      assert all[i].fqdn == normalise(old(hosts[i].fqdn));
      return Some(BadRequest);
    }
    var repeatsID := RepeatsID(hosts[..]);
    if repeatsID {
      return Some(DuplicateHostID);
    }
    var repeatsFQDN := RepeatsFQDN(hosts[..]);
    if repeatsFQDN {
      return Some(DuplicateHostFQDN);
    }
    forall i | 0 <= i < hosts.Length
      ensures Distinct(hosts[i].groups)
    {
      DedupedKeepsElements(old(hosts[i]).groups);
    }
    err := None;
  }

  // ---- plan ----

  /** What ListHosts returns: every host once. */
  ghost predicate IsListing(t: Tables, current: seq<Host>) {
    && (forall i, j :: 0 <= i < j < |current| ==> current[i].id != current[j].id)
    && (forall h :: h in t.hosts ==> exists i :: 0 <= i < |current| && current[i].id == h)
    && forall i :: 0 <= i < |current| ==> current[i].id in t.hosts && t.hosts[current[i].id] == current[i].fqdn
  }

  /** The rows by id, as a listing gives them. */
  function ByID(current: seq<Host>): map<int, string> {
    if current == [] then map[]
    else ByID(current[..|current| - 1])[current[|current| - 1].id := current[|current| - 1].fqdn]
  }

  function FQDNs(current: seq<Host>): set<string> {
    set i | 0 <= i < |current| :: current[i].fqdn
  }

  /** What planning finds wrong with one desired host. */
  function FaultOf(byID: map<int, string>, fqdns: set<string>, h: Desired): Option<Error> {
    if h.id.None? then if h.fqdn in fqdns then Some(HostConflict) else None
    else if h.id.value !in byID then Some(HostNotFound)
    else if byID[h.id.value] != h.fqdn then Some(HostFQDNImmutable)
    else None
  }

  function FirstFault(byID: map<int, string>, fqdns: set<string>, desired: seq<Desired>): Option<Error>
    decreases |desired|
  {
    if desired == [] then None
    else
      var fault := FaultOf(byID, fqdns, desired[0]);
      if fault.Some? then fault else FirstFault(byID, fqdns, desired[1..])
  }

  function New(desired: seq<Desired>): seq<HostDraft> {
    if desired == [] then []
    else
      var h := desired[|desired| - 1];
      New(desired[..|desired| - 1]) + if h.id.None? then [HostDraft(h.fqdn, h.groups)] else []
  }

  function Sets(desired: seq<Desired>): seq<GroupSet> {
    if desired == [] then []
    else
      var h := desired[|desired| - 1];
      Sets(desired[..|desired| - 1]) + if h.id.Some? then [GroupSet(h.id.value, h.groups)] else []
  }

  function Kept(desired: seq<Desired>): set<int> {
    set i | 0 <= i < |desired| && desired[i].id.Some? :: desired[i].id.value
  }

  function Dropped(current: seq<Host>, keep: set<int>): seq<int> {
    if current == [] then []
    else
      var h := current[|current| - 1];
      Dropped(current[..|current| - 1], keep) + if h.id in keep then [] else [h.id]
  }

  function PlanFor(current: seq<Host>, desired: seq<Desired>): Plan {
    Plan(New(desired), Dropped(current, Kept(desired)), Sets(desired))
  }

  lemma KeptAppend(desired: seq<Desired>, i: nat)
    requires i < |desired|
    ensures Kept(desired[..i + 1]) == Kept(desired[..i]) + if desired[i].id.Some? then {desired[i].id.value} else {}
  {
    var before, after := desired[..i], desired[..i + 1];
    assert after == before + [desired[i]];
    forall id
      ensures id in Kept(after) <==> id in Kept(before) || desired[i].id == Some(id)
    {
      if id in Kept(before) {
        var k :| 0 <= k < i && before[k].id.Some? && before[k].id.value == id;
        assert after[k] == before[k];
      }
      assert after[i] == desired[i];
    }
  }

  lemma FQDNsAppend(current: seq<Host>, i: nat)
    requires i < |current|
    ensures FQDNs(current[..i + 1]) == FQDNs(current[..i]) + {current[i].fqdn}
  {
    var before, after := current[..i], current[..i + 1];
    forall f
      ensures f in FQDNs(after) <==> f in FQDNs(before) || f == current[i].fqdn
    {
      if f in FQDNs(before) {
        var k :| 0 <= k < i && before[k].fqdn == f;
        assert after[k] == before[k];
      }
      assert after[i] == current[i];
    }
  }

  /** buildHostReconcilePlan: the first faulty host ends the planning. */
  method BuildPlan(current: seq<Host>, desired: seq<Desired>) returns (plan: Result<Plan, Error>)
    ensures var fault := FirstFault(ByID(current), FQDNs(current), desired);
            plan == if fault.Some? then Err(fault.value) else Ok(PlanFor(current, desired))
  {
    var byID: map<int, string> := map[];
    var fqdns: set<string> := {};
    for i := 0 to |current|
      invariant byID == ByID(current[..i]) && fqdns == FQDNs(current[..i])
    {
      assert current[..i + 1][..i] == current[..i];
      FQDNsAppend(current, i);
      byID := byID[current[i].id := current[i].fqdn];
      fqdns := fqdns + {current[i].fqdn};
    }
    assert current[..|current|] == current;
    var desiredIDs: set<int> := {};
    var toCreate, toSetGroups := [], [];
    for i := 0 to |desired|
      invariant FirstFault(byID, fqdns, desired[i..]) == FirstFault(byID, fqdns, desired)
      invariant toCreate == New(desired[..i]) && toSetGroups == Sets(desired[..i]) && desiredIDs == Kept(desired[..i])
    {
      assert desired[i..][1..] == desired[i + 1..] && desired[..i + 1][..i] == desired[..i];
      KeptAppend(desired, i);
      var h := desired[i];
      if h.id.None? {
        if h.fqdn in fqdns {
          return Err(HostConflict);
        }
        toCreate := toCreate + [HostDraft(h.fqdn, h.groups)];
      } else {
        var id := h.id.value;
        if id !in byID {
          return Err(HostNotFound);
        }
        desiredIDs := desiredIDs + {id};
        if byID[id] != h.fqdn {
          return Err(HostFQDNImmutable);
        }
        toSetGroups := toSetGroups + [GroupSet(id, h.groups)];
      }
    }
    assert desired[..|desired|] == desired;
    var toDelete := [];
    for i := 0 to |current|
      invariant toDelete == Dropped(current[..i], desiredIDs)
    {
      assert current[..i + 1][..i] == current[..i];
      if current[i].id !in desiredIDs {
        toDelete := toDelete + [current[i].id];
      }
    }
    plan := Ok(Plan(toCreate, toDelete, toSetGroups));
  }

  // ---- apply ----

  function ApplyDeletes(t: Tables, ids: seq<int>): Result<Tables, Error>
    decreases |ids|
  {
    if ids == [] then Ok(t)
    else
      match DeleteHost(t, ids[0])
      case Err(e) => Err(e)
      case Ok(t') => ApplyDeletes(t', ids[1..])
  }

  /** One creation: the row under its key, then its memberships. */
  function CreateWithGroups(t: Tables, draft: HostDraft, id: int): Result<Tables, Error> {
    match CreateHost(t, draft.fqdn, id)
    case Err(e) => Err(e)
    case Ok(t') => SetHostGroupMembership(t', id, draft.groups)
  }

  /** `keys` holds the keys the database gives the new rows. */
  function ApplyCreates(t: Tables, drafts: seq<HostDraft>, keys: seq<int>): Result<Tables, Error>
    requires |keys| == |drafts|
    decreases |drafts|
  {
    if drafts == [] then Ok(t)
    else
      match CreateWithGroups(t, drafts[0], keys[0])
      case Err(e) => Err(e)
      case Ok(t') => ApplyCreates(t', drafts[1..], keys[1..])
  }

  function ApplySets(t: Tables, sets: seq<GroupSet>): Result<Tables, Error>
    decreases |sets|
  {
    if sets == [] then Ok(t)
    else
      match SetHostGroupMembership(t, sets[0].host, sets[0].groups)
      case Err(e) => Err(e)
      case Ok(t') => ApplySets(t', sets[1..])
  }

  /** The transaction. */
  function Apply(t: Tables, plan: Plan, keys: seq<int>): Result<Tables, Error>
    requires |keys| == |plan.toCreate|
  {
    match ApplyDeletes(t, plan.toDelete)
    case Err(e) => Err(e)
    case Ok(t1) =>
      match ApplyCreates(t1, plan.toCreate, keys)
      case Err(e) => Err(e)
      case Ok(t2) => ApplySets(t2, plan.toSetGroups)
  }

  /** Host h is in exactly these groups. */
  ghost predicate InGroups(t: Tables, h: int, groups: seq<int>) {
    forall g :: (g, h) in t.members <==> g in groups
  }

  /** Host h is the same in both, row and memberships. */
  ghost predicate SameHost(t: Tables, t': Tables, h: int) {
    && (h in t'.hosts <==> h in t.hosts) && (h in t.hosts ==> t'.hosts[h] == t.hosts[h])
    && forall g :: (g, h) in t'.members <==> (g, h) in t.members
  }

  ghost predicate GroupsKnown(t: Tables, groups: seq<int>) {
    forall i :: 0 <= i < |groups| ==> groups[i] in t.groups
  }

  ghost predicate DraftGroupsKnown(t: Tables, drafts: seq<HostDraft>) {
    forall i :: 0 <= i < |drafts| ==> GroupsKnown(t, drafts[i].groups)
  }

  ghost predicate SetGroupsKnown(t: Tables, sets: seq<GroupSet>) {
    forall i :: 0 <= i < |sets| ==> GroupsKnown(t, sets[i].groups)
  }

  lemma {:induction false} DeletesCommit(t: Tables, ids: seq<int>)
    requires Sound(t) && Distinct(ids) && forall i :: 0 <= i < |ids| ==> ids[i] in t.hosts
    ensures ApplyDeletes(t, ids).Ok?
    ensures var t' := ApplyDeletes(t, ids).value;
            && Sound(t') && t'.groups == t.groups
            && forall h :: if h in ids then h !in t'.hosts else SameHost(t, t', h)
    decreases |ids|
  {
    if ids != [] {
      var t1 := DeleteHost(t, ids[0]).value;
      DeletesCommit(t1, ids[1..]);
      assert ids == [ids[0]] + ids[1..] && ids[0] !in ids[1..];
      var t' := ApplyDeletes(t, ids).value;
      forall h
        ensures if h in ids then h !in t'.hosts else SameHost(t, t', h)
      {
        assert h != ids[0] ==> SameHost(t, t1, h);
        assert h !in ids[1..] ==> SameHost(t1, t', h);
      }
    }
  }

  ghost predicate Creatable(t: Tables, drafts: seq<HostDraft>, keys: seq<int>) {
    && Sound(t) && |keys| == |drafts| && Distinct(keys)
    && (forall i :: 0 <= i < |drafts| ==>
          keys[i] !in t.hosts && Distinct(drafts[i].groups) && !FQDNTaken(t, drafts[i].fqdn))
    && forall i, j :: 0 <= i < j < |drafts| ==> drafts[i].fqdn != drafts[j].fqdn
  }

  lemma OneCreate(t: Tables, draft: HostDraft, id: int)
    requires Sound(t) && id !in t.hosts && Distinct(draft.groups) && !FQDNTaken(t, draft.fqdn)
    ensures var r := CreateWithGroups(t, draft, id);
            && (r.Ok? <==> GroupsKnown(t, draft.groups))
            && (r.Err? ==> r == Err(ReferenceNotFound))
            && (r.Ok? ==>
                  && Sound(r.value) && r.value.groups == t.groups && r.value.hosts == t.hosts[id := draft.fqdn]
                  && InGroups(r.value, id, draft.groups)
                  && forall h :: h != id ==> SameHost(t, r.value, h))
  {
    WriteMembership(CreateHost(t, draft.fqdn, id).value, id, draft.groups);
  }

  lemma {:induction false} CreatesCommit(t: Tables, drafts: seq<HostDraft>, keys: seq<int>)
    requires Creatable(t, drafts, keys)
    ensures var r := ApplyCreates(t, drafts, keys);
            && (r.Ok? <==> DraftGroupsKnown(t, drafts))
            && (r.Err? ==> r == Err(ReferenceNotFound))
            && (r.Ok? ==>
                  && Sound(r.value) && r.value.groups == t.groups
                  && (forall i :: 0 <= i < |keys| ==>
                        && keys[i] in r.value.hosts && r.value.hosts[keys[i]] == drafts[i].fqdn
                        && InGroups(r.value, keys[i], drafts[i].groups))
                  && forall h :: h !in keys ==> SameHost(t, r.value, h))
    decreases |drafts|
  {
    if drafts != [] {
      OneCreate(t, drafts[0], keys[0]);
      assert forall i :: 0 < i < |drafts| ==> drafts[i] == drafts[1..][i - 1] && keys[i] == keys[1..][i - 1];
      assert forall i :: 0 <= i < |drafts| - 1 ==> drafts[1..][i] == drafts[i + 1];
      if GroupsKnown(t, drafts[0].groups) {
        var t1 := CreateWithGroups(t, drafts[0], keys[0]).value;
        assert keys == [keys[0]] + keys[1..] && keys[0] !in keys[1..];
        RestCreatable(t, t1, drafts, keys);
        CreatesCommit(t1, drafts[1..], keys[1..]);
        CreatesCompose(t, t1, keys[0], drafts[0]);
        assert forall i :: 0 <= i < |drafts| ==> (GroupsKnown(t, drafts[i].groups) <==> GroupsKnown(t1, drafts[i].groups));
      }
    }
  }

  lemma RestCreatable(t: Tables, t1: Tables, drafts: seq<HostDraft>, keys: seq<int>)
    requires drafts != [] && Creatable(t, drafts, keys) && Sound(t1) && t1.hosts == t.hosts[keys[0] := drafts[0].fqdn]
    ensures Creatable(t1, drafts[1..], keys[1..])
  {
    forall i | 0 <= i < |drafts| - 1
      ensures keys[1..][i] !in t1.hosts && Distinct(drafts[1..][i].groups) && !FQDNTaken(t1, drafts[1..][i].fqdn)
    {
      assert !FQDNTaken(t, drafts[i + 1].fqdn);
    }
  }

  lemma CreatesCompose(t: Tables, t1: Tables, id: int, draft: HostDraft)
    requires t1.hosts == t.hosts[id := draft.fqdn] && InGroups(t1, id, draft.groups)
    requires forall h :: h != id ==> SameHost(t, t1, h)
    ensures forall t2, h :: SameHost(t1, t2, h) && h != id ==> SameHost(t, t2, h)
    ensures forall t2 :: SameHost(t1, t2, id) ==>
                           id in t2.hosts && t2.hosts[id] == draft.fqdn && InGroups(t2, id, draft.groups)
  {
    forall t2, h | SameHost(t1, t2, h) && h != id
      ensures SameHost(t, t2, h)
    {
      assert SameHost(t, t1, h);
    }
  }

  ghost predicate HostsDistinct(sets: seq<GroupSet>) {
    forall i, j :: 0 <= i < j < |sets| ==> sets[i].host != sets[j].host
  }

  function HostsOf(sets: seq<GroupSet>): set<int> {
    set i | 0 <= i < |sets| :: sets[i].host
  }

  lemma {:induction false} SetsCommit(t: Tables, sets: seq<GroupSet>)
    requires Sound(t) && HostsDistinct(sets)
    requires forall i :: 0 <= i < |sets| ==> sets[i].host in t.hosts && Distinct(sets[i].groups)
    ensures var r := ApplySets(t, sets);
            && (r.Ok? <==> SetGroupsKnown(t, sets))
            && (r.Err? ==> r == Err(ReferenceNotFound))
            && (r.Ok? ==>
                  && Sound(r.value) && r.value.groups == t.groups && r.value.hosts == t.hosts
                  && (forall i :: 0 <= i < |sets| ==> InGroups(r.value, sets[i].host, sets[i].groups))
                  && forall h :: h !in HostsOf(sets) ==> SameHost(t, r.value, h))
    decreases |sets|
  {
    if sets != [] {
      var h0, rest := sets[0].host, sets[1..];
      WriteMembership(t, h0, sets[0].groups);
      assert forall i :: 0 < i < |sets| ==> sets[i] == rest[i - 1];
      assert forall i :: 0 <= i < |rest| ==> rest[i] == sets[i + 1];
      if GroupsKnown(t, sets[0].groups) {
        var t1 := SetHostGroupMembership(t, h0, sets[0].groups).value;
        SetsCommit(t1, rest);
        assert h0 !in HostsOf(rest) && forall h :: h in HostsOf(sets) <==> h == h0 || h in HostsOf(rest);
        var r := ApplySets(t1, rest);
        assert r.Ok? ==> SameHost(t1, r.value, h0);
        assert forall i :: 0 <= i < |sets| ==> (GroupsKnown(t, sets[i].groups) <==> GroupsKnown(t1, sets[i].groups));
        forall h | r.Ok? && h !in HostsOf(sets)
          ensures SameHost(t, r.value, h)
        {
          assert SameHost(t, t1, h) && SameHost(t1, r.value, h);
        }
      }
    }
  }

  // ---- the plan and the request ----

  lemma {:induction false} FirstFaultNone(byID: map<int, string>, fqdns: set<string>, desired: seq<Desired>)
    ensures FirstFault(byID, fqdns, desired) == None <==>
              forall i :: 0 <= i < |desired| ==> FaultOf(byID, fqdns, desired[i]) == None
    decreases |desired|
  {
    if desired != [] {
      FirstFaultNone(byID, fqdns, desired[1..]);
      assert forall i :: 0 < i < |desired| ==> desired[i] == desired[1..][i - 1];
      assert forall i :: 0 <= i < |desired| - 1 ==> desired[1..][i] == desired[i + 1];
    }
  }

  lemma {:induction false} ByIDIsTable(current: seq<Host>)
    ensures forall h :: h in ByID(current) <==> exists i :: 0 <= i < |current| && current[i].id == h
    ensures forall h :: h in ByID(current) ==> exists i :: 0 <= i < |current| && current[i] == Host(h, ByID(current)[h])
  {
    if current != [] {
      var init, last := current[..|current| - 1], current[|current| - 1];
      ByIDIsTable(init);
      assert current == init + [last];
      forall h | h in ByID(init)
        ensures exists i :: 0 <= i < |current| - 1 && current[i] == Host(h, ByID(init)[h])
      {
        var i :| 0 <= i < |init| && init[i] == Host(h, ByID(init)[h]);
        assert current[i] == init[i];
      }
      forall h
        ensures h in ByID(current) <==> exists i :: 0 <= i < |current| && current[i].id == h
      {
        if i :| 0 <= i < |current| && current[i].id == h {
          assert i < |init| ==> init[i].id == h;
        }
      }
      assert current[|current| - 1] == Host(last.id, ByID(current)[last.id]);
    }
  }

  /** The listing gives planning the table itself, and the names in use. */
  lemma ListingIsTable(t: Tables, current: seq<Host>)
    requires IsListing(t, current)
    ensures ByID(current) == t.hosts
    ensures forall f :: f in FQDNs(current) <==> FQDNTaken(t, f)
  {
    ByIDIsTable(current);
    forall h
      ensures h in ByID(current) <==> h in t.hosts
      ensures h in t.hosts ==> ByID(current)[h] == t.hosts[h]
    {
      if h in t.hosts {
        var i :| 0 <= i < |current| && current[i] == Host(h, ByID(current)[h]);
      }
    }
    forall f
      ensures f in FQDNs(current) <==> FQDNTaken(t, f)
    {
      if FQDNTaken(t, f) {
        var h :| h in t.hosts && t.hosts[h] == f;
        var i :| 0 <= i < |current| && current[i].id == h;
        assert current[i].fqdn in FQDNs(current);
      }
    }
  }

  /**
   The plan is built exactly when every new name is unused and every listed host exists under its present
   name. A name in use by a host that the same request removes counts as used.
   */
  lemma PlanBuiltIff(t: Tables, current: seq<Host>, desired: seq<Desired>)
    requires IsListing(t, current)
    ensures FirstFault(ByID(current), FQDNs(current), desired) == None <==>
              forall i :: 0 <= i < |desired| ==> PlannableHost(t, desired[i])
  {
    ListingIsTable(t, current);
    FirstFaultNone(t.hosts, FQDNs(current), desired);
    forall i | 0 <= i < |desired|
      ensures FaultOf(t.hosts, FQDNs(current), desired[i]) == None <==> PlannableHost(t, desired[i])
    {
      assert desired[i].fqdn in FQDNs(current) <==> FQDNTaken(t, desired[i].fqdn);
    }
  }

  predicate PlannableHost(t: Tables, h: Desired) {
    if h.id.None? then !FQDNTaken(t, h.fqdn) else h.id.value in t.hosts && t.hosts[h.id.value] == h.fqdn
  }

  /** Replacing a host by a new one of the same name is refused, although the deletion would come first. */
  lemma RemovedNameIsRefused(t: Tables, current: seq<Host>, h: int, groups: seq<int>)
    requires IsListing(t, current) && h in t.hosts
    ensures FirstFault(ByID(current), FQDNs(current), [Desired(None, t.hosts[h], groups)]) == Some(HostConflict)
  {
    ListingIsTable(t, current);
    assert FQDNTaken(t, t.hosts[h]);
  }

  lemma {:induction false} DroppedAre(current: seq<Host>, keep: set<int>)
    requires forall i, j :: 0 <= i < j < |current| ==> current[i].id != current[j].id
    ensures Distinct(Dropped(current, keep))
    ensures forall id :: id in Dropped(current, keep) <==>
              id !in keep && exists i :: 0 <= i < |current| && current[i].id == id
  {
    if current != [] {
      var init, last := current[..|current| - 1], current[|current| - 1];
      DroppedAre(init, keep);
      forall id
        ensures id in Dropped(current, keep) <==> id !in keep && exists i :: 0 <= i < |current| && current[i].id == id
      {
        if i :| 0 <= i < |current| && current[i].id == id {
          assert i < |init| ==> init[i].id == id;
        }
        if i :| 0 <= i < |init| && init[i].id == id {
          assert current[i].id == id;
        }
      }
      assert forall i :: 0 <= i < |init| ==> init[i].id != last.id;
    }
  }

  /** A listed host of the request asks for this membership. */
  ghost predicate Asked(desired: seq<Desired>, set0: GroupSet) {
    exists k :: 0 <= k < |desired| && desired[k].id == Some(set0.host) && desired[k].groups == set0.groups
  }

  lemma {:induction false} NewAndSetsAre(desired: seq<Desired>)
    ensures forall d :: d in New(desired) <==> Desired(None, d.fqdn, d.groups) in desired
    ensures forall g :: g in Sets(desired) <==> Asked(desired, g)
    ensures DistinctIDs(desired) ==> HostsDistinct(Sets(desired))
    ensures DistinctFQDNs(desired) ==>
              forall i, j :: 0 <= i < j < |New(desired)| ==> New(desired)[i].fqdn != New(desired)[j].fqdn
  {
    if desired != [] {
      var init, last := desired[..|desired| - 1], desired[|desired| - 1];
      NewAndSetsAre(init);
      assert desired == init + [last];
      forall g
        ensures Asked(desired, g) <==> Asked(init, g) || (last.id == Some(g.host) && last.groups == g.groups)
      {
        if Asked(init, g) {
          var k :| 0 <= k < |init| && init[k].id == Some(g.host) && init[k].groups == g.groups;
          assert desired[k] == init[k];
        }
        assert desired[|init|] == last;
      }
      forall i | 0 <= i < |Sets(init)| && DistinctIDs(desired)
        ensures Some(Sets(init)[i].host) != last.id
      {
        assert Asked(init, Sets(init)[i]);
      }
      forall i | 0 <= i < |New(init)| && DistinctFQDNs(desired)
        ensures New(init)[i].fqdn != last.fqdn
      {
        var d := New(init)[i];
        assert d in New(init);
        var k :| 0 <= k < |init| && init[k] == Desired(None, d.fqdn, d.groups);
      }
    }
  }

  // ---- when the reconcile commits, and what it leaves ----

  /** The request as the tables then show it. */
  ghost predicate Image(t: Tables, desired: seq<Desired>, keys: seq<int>) {
    && |keys| == |New(desired)|
    && (forall h :: h in t.hosts <==> h in Kept(desired) || h in keys)
    && (forall i :: 0 <= i < |desired| && desired[i].id.Some? ==>
          ShowsHost(t, desired[i].id.value, desired[i].fqdn, desired[i].groups))
    && (forall i :: 0 <= i < |keys| ==> ShowsHost(t, keys[i], New(desired)[i].fqdn, New(desired)[i].groups))
    && (forall m :: m in t.members ==> m.1 in t.hosts)
  }

  ghost function WithoutID(desired: seq<Desired>): set<int> {
    set i | 0 <= i < |desired| && desired[i].id.None?
  }

  lemma {:induction false} NewCount(desired: seq<Desired>)
    ensures |New(desired)| == |WithoutID(desired)|
  {
    if desired == [] {
      assert WithoutID(desired) == {};
    } else {
      var n := |desired| - 1;
      NewCount(desired[..n]);
      assert WithoutID(desired) == WithoutID(desired[..n]) + if desired[n].id.None? then {n} else {};
    }
  }

  /**
   Read off the request itself: each listed host is there as desired, each unlisted one under a new key, one
   key for each, and there is no other host.
   */
  lemma ImageIsRequest(t: Tables, desired: seq<Desired>, keys: seq<int>)
    requires Image(t, desired, keys)
    ensures |keys| == |WithoutID(desired)|
    ensures forall i :: 0 <= i < |desired| ==>
              match desired[i].id
              case Some(id) => ShowsHost(t, id, desired[i].fqdn, desired[i].groups)
              case None => exists k :: k in keys && ShowsHost(t, k, desired[i].fqdn, desired[i].groups)
    ensures forall h :: h in t.hosts ==> h in keys || exists i :: 0 <= i < |desired| && desired[i].id == Some(h)
  {
    NewCount(desired);
    NewAndSetsAre(desired);
    forall i | 0 <= i < |desired| && desired[i].id.None?
      ensures exists k :: k in keys && ShowsHost(t, k, desired[i].fqdn, desired[i].groups)
    {
      var d := desired[i];
      assert d in desired && HostDraft(d.fqdn, d.groups) in New(desired);
      var k :| 0 <= k < |New(desired)| && New(desired)[k] == HostDraft(d.fqdn, d.groups);
      assert keys[k] in keys;
    }
  }

  /** What planning says of one host: a new name in use, an id that is not there, or one under another name. */
  lemma FaultsAre(t: Tables, current: seq<Host>, h: Desired)
    requires IsListing(t, current)
    ensures var fault := FaultOf(ByID(current), FQDNs(current), h);
            && (fault == Some(HostConflict) <==> h.id.None? && exists k :: k in t.hosts && t.hosts[k] == h.fqdn)
            && (fault == Some(HostNotFound) <==> h.id.Some? && h.id.value !in t.hosts)
            && (fault == Some(HostFQDNImmutable) <==> h.id.Some? && h.id.value in t.hosts && t.hosts[h.id.value] != h.fqdn)
            && (fault.Some? ==> fault.value in {HostConflict, HostNotFound, HostFQDNImmutable})
  {
    ListingIsTable(t, current);
    assert h.fqdn in FQDNs(current) <==> FQDNTaken(t, h.fqdn);
  }

  ghost predicate ShowsHost(t: Tables, h: int, fqdn: string, groups: seq<int>) {
    h in t.hosts && t.hosts[h] == fqdn && InGroups(t, h, groups)
  }

  /** The request has a plan, and nothing changes outside its control. */
  ghost predicate Plannable(t: Tables, current: seq<Host>, desired: seq<Desired>, keys: seq<int>) {
    && Sound(t) && IsListing(t, current) && Prepared(desired)
    && (forall i :: 0 <= i < |desired| ==> PlannableHost(t, desired[i]))
    && |keys| == |New(desired)| && Distinct(keys) && forall i :: 0 <= i < |keys| ==> keys[i] !in Kept(desired)
  }

  lemma DeletePhase(t: Tables, current: seq<Host>, desired: seq<Desired>, keys: seq<int>)
    requires Plannable(t, current, desired, keys)
    ensures var r := ApplyDeletes(t, PlanFor(current, desired).toDelete);
            && r.Ok? && Sound(r.value) && r.value.groups == t.groups
            && r.value.hosts.Keys == Kept(desired)
            && forall h :: h in Kept(desired) ==> SameHost(t, r.value, h)
  {
    var keep := Kept(desired);
    var drop := Dropped(current, keep);
    DroppedAre(current, keep);
    assert forall i :: 0 <= i < |drop| ==> drop[i] in drop;
    DeletesCommit(t, drop);
    var t1 := ApplyDeletes(t, drop).value;
    forall h
      ensures h in t1.hosts <==> h in keep
    {
      assert h !in drop ==> SameHost(t, t1, h);
      if h in keep {
        var i :| 0 <= i < |desired| && desired[i].id == Some(h);
        assert PlannableHost(t, desired[i]);
      }
    }
  }

  lemma DraftsCreatable(t: Tables, t1: Tables, current: seq<Host>, desired: seq<Desired>, keys: seq<int>)
    requires Plannable(t, current, desired, keys) && Sound(t1) && t1.hosts.Keys == Kept(desired)
    requires forall h :: h in Kept(desired) ==> SameHost(t, t1, h)
    ensures Creatable(t1, New(desired), keys)
  {
    NewAndSetsAre(desired);
    forall i | 0 <= i < |keys|
      ensures keys[i] !in t1.hosts && Distinct(New(desired)[i].groups) && !FQDNTaken(t1, New(desired)[i].fqdn)
    {
      var d := New(desired)[i];
      assert d in New(desired);
      var k :| 0 <= k < |desired| && desired[k] == Desired(None, d.fqdn, d.groups);
      assert PlannableHost(t, desired[k]);
      forall h | h in t1.hosts
        ensures t1.hosts[h] != d.fqdn
      {
        assert h in Kept(desired) && SameHost(t, t1, h);
      }
    }
  }

  lemma SetsAre(desired: seq<Desired>)
    requires Prepared(desired)
    ensures HostsDistinct(Sets(desired)) && HostsOf(Sets(desired)) == Kept(desired)
    ensures forall i :: 0 <= i < |Sets(desired)| ==> Distinct(Sets(desired)[i].groups)
  {
    NewAndSetsAre(desired);
    var sets := Sets(desired);
    forall i | 0 <= i < |sets|
      ensures sets[i].host in Kept(desired) && Distinct(sets[i].groups)
    {
      SetIsAsked(desired, sets[i]);
    }
    forall h | h in Kept(desired)
      ensures h in HostsOf(sets)
    {
      var k :| 0 <= k < |desired| && desired[k].id == Some(h);
      var g := GroupSet(h, desired[k].groups);
      assert Asked(desired, g) && g in sets;
      var i :| 0 <= i < |sets| && sets[i] == g;
      assert sets[i].host == h;
    }
  }

  lemma SetIsAsked(desired: seq<Desired>, g: GroupSet)
    requires Prepared(desired) && g in Sets(desired)
    ensures g.host in Kept(desired) && Distinct(g.groups)
  {
    NewAndSetsAre(desired);
    assert Asked(desired, g);
  }

  lemma SetsReady(desired: seq<Desired>, t2: Tables)
    requires Prepared(desired) && Kept(desired) <= t2.hosts.Keys
    ensures HostsDistinct(Sets(desired)) && HostsOf(Sets(desired)) == Kept(desired)
    ensures forall i :: 0 <= i < |Sets(desired)| ==>
              Sets(desired)[i].host in t2.hosts && Distinct(Sets(desired)[i].groups)
  {
    SetsAre(desired);
    assert forall i :: 0 <= i < |Sets(desired)| ==> Sets(desired)[i].host in HostsOf(Sets(desired));
  }

  ghost predicate AllGroupsKnown(t: Tables, desired: seq<Desired>) {
    forall h :: h in desired ==> GroupsKnown(t, h.groups)
  }

  /** Every group the request mentions exists, seen over the request or over the plan. */
  lemma ReferencesSplit(t: Tables, desired: seq<Desired>)
    ensures AllGroupsKnown(t, desired) <==> DraftGroupsKnown(t, New(desired)) && SetGroupsKnown(t, Sets(desired))
  {
    NewAndSetsAre(desired);
    var drafts, sets := New(desired), Sets(desired);
    forall i | 0 <= i < |drafts| && AllGroupsKnown(t, desired)
      ensures GroupsKnown(t, drafts[i].groups)
    {
      assert drafts[i] in drafts;
      assert Desired(None, drafts[i].fqdn, drafts[i].groups) in desired;
    }
    forall i | 0 <= i < |sets| && AllGroupsKnown(t, desired)
      ensures GroupsKnown(t, sets[i].groups)
    {
      assert sets[i] in sets && Asked(desired, sets[i]);
    }
    forall h | h in desired && DraftGroupsKnown(t, drafts) && SetGroupsKnown(t, sets)
      ensures GroupsKnown(t, h.groups)
    {
      if h.id.None? {
        assert h == Desired(None, h.fqdn, h.groups);
        var i :| 0 <= i < |drafts| && drafts[i] == HostDraft(h.fqdn, h.groups);
      } else {
        assert Asked(desired, GroupSet(h.id.value, h.groups));
        var i :| 0 <= i < |sets| && sets[i] == GroupSet(h.id.value, h.groups);
      }
    }
  }

  /**
   A plan that was built never meets the unique index: the transaction commits exactly when every group
   the request mentions exists, and fails for a missing group only. When it commits, the tables show the
   request: the listed hosts under their names, the new ones under their keys, no others, and the whole
   membership relation as desired.
   */
  lemma ReconcileCommitsIff(t: Tables, current: seq<Host>, desired: seq<Desired>, keys: seq<int>)
    requires Plannable(t, current, desired, keys)
    ensures var r := Apply(t, PlanFor(current, desired), keys);
            && (r.Ok? <==> AllGroupsKnown(t, desired))
            && (r.Err? ==> r == Err(ReferenceNotFound))
            && (r.Ok? ==> Sound(r.value) && r.value.groups == t.groups && Image(r.value, desired, keys))
  {
    DeletePhase(t, current, desired, keys);
    var t1 := ApplyDeletes(t, PlanFor(current, desired).toDelete).value;
    DraftsCreatable(t, t1, current, desired, keys);
    CreatesCommit(t1, New(desired), keys);
    ReferencesSplit(t, desired);
    SameGroups(t, t1, desired);
    if DraftGroupsKnown(t1, New(desired)) {
      var t2 := ApplyCreates(t1, New(desired), keys).value;
      SameGroups(t, t2, desired);
      CreatedKeeps(t1, t2, desired, keys);
      SetsReady(desired, t2);
      SetsCommit(t2, Sets(desired));
      if SetGroupsKnown(t2, Sets(desired)) {
        ImageHolds(t, t1, t2, ApplySets(t2, Sets(desired)).value, current, desired, keys);
      }
    }
  }

  lemma SameGroups(t: Tables, t': Tables, desired: seq<Desired>)
    requires t'.groups == t.groups
    ensures DraftGroupsKnown(t', New(desired)) <==> DraftGroupsKnown(t, New(desired))
    ensures SetGroupsKnown(t', Sets(desired)) <==> SetGroupsKnown(t, Sets(desired))
  {
    assert forall groups :: GroupsKnown(t', groups) <==> GroupsKnown(t, groups);
  }

  lemma CreatedKeeps(t1: Tables, t2: Tables, desired: seq<Desired>, keys: seq<int>)
    requires t1.hosts.Keys == Kept(desired) && forall h :: h !in keys ==> SameHost(t1, t2, h)
    requires forall i :: 0 <= i < |keys| ==> keys[i] !in Kept(desired)
    ensures Kept(desired) <= t2.hosts.Keys
  {
    forall h | h in Kept(desired)
      ensures h in t2.hosts
    {
      assert SameHost(t1, t2, h);
    }
  }

  lemma ImageHolds(t: Tables, t1: Tables, t2: Tables, t3: Tables, current: seq<Host>, desired: seq<Desired>, keys: seq<int>)
    requires Plannable(t, current, desired, keys)
    requires t1.hosts.Keys == Kept(desired) && forall h :: h in Kept(desired) ==> SameHost(t, t1, h)
    requires forall h :: h !in keys ==> SameHost(t1, t2, h)
    requires forall i :: 0 <= i < |keys| ==> ShowsHost(t2, keys[i], New(desired)[i].fqdn, New(desired)[i].groups)
    requires Sound(t3) && t3.hosts == t2.hosts && HostsOf(Sets(desired)) == Kept(desired)
    requires forall i :: 0 <= i < |Sets(desired)| ==> InGroups(t3, Sets(desired)[i].host, Sets(desired)[i].groups)
    requires forall h :: h !in HostsOf(Sets(desired)) ==> SameHost(t2, t3, h)
    ensures Image(t3, desired, keys)
  {
    NewAndSetsAre(desired);
    forall i | 0 <= i < |desired| && desired[i].id.Some?
      ensures ShowsHost(t3, desired[i].id.value, desired[i].fqdn, desired[i].groups)
    {
      var h, g := desired[i].id.value, GroupSet(desired[i].id.value, desired[i].groups);
      assert h in Kept(desired) && SameHost(t, t1, h) && SameHost(t1, t2, h) && PlannableHost(t, desired[i]);
      assert Asked(desired, g) && g in Sets(desired);
      var k :| 0 <= k < |Sets(desired)| && Sets(desired)[k] == g;
    }
    forall i | 0 <= i < |keys|
      ensures ShowsHost(t3, keys[i], New(desired)[i].fqdn, New(desired)[i].groups)
    {
      assert SameHost(t2, t3, keys[i]);
    }
    forall h
      ensures h in t3.hosts <==> h in Kept(desired) || h in keys
    {
      assert h !in keys ==> SameHost(t1, t2, h);
      assert h in t1.hosts.Keys <==> h in t1.hosts;
    }
  }

  /** After a commit the names in use are the desired ones, and a host that stays keeps its own. */
  lemma NamesAreDesired(t: Tables, t': Tables, current: seq<Host>, desired: seq<Desired>, keys: seq<int>)
    requires Plannable(t, current, desired, keys) && Image(t', desired, keys)
    ensures forall f :: FQDNTaken(t', f) <==> exists i :: 0 <= i < |desired| && desired[i].fqdn == f
    ensures forall h :: h in t.hosts && h in Kept(desired) ==> h in t'.hosts && t'.hosts[h] == t.hosts[h]
  {
    NewAndSetsAre(desired);
    forall f | FQDNTaken(t', f)
      ensures exists i :: 0 <= i < |desired| && desired[i].fqdn == f
    {
      var h :| h in t'.hosts && t'.hosts[h] == f;
      if h in keys {
        var i :| 0 <= i < |keys| && keys[i] == h;
        var d := New(desired)[i];
        assert ShowsHost(t', keys[i], d.fqdn, d.groups) && d in New(desired);
        var k :| 0 <= k < |desired| && desired[k] == Desired(None, d.fqdn, d.groups);
      } else {
        var i :| 0 <= i < |desired| && desired[i].id == Some(h);
        assert ShowsHost(t', desired[i].id.value, desired[i].fqdn, desired[i].groups);
      }
    }
    forall i | 0 <= i < |desired|
      ensures FQDNTaken(t', desired[i].fqdn)
    {
      var d := desired[i];
      if d.id.Some? {
        assert ShowsHost(t', d.id.value, d.fqdn, d.groups);
      } else {
        assert d == Desired(None, d.fqdn, d.groups);
        var k :| 0 <= k < |New(desired)| && New(desired)[k] == HostDraft(d.fqdn, d.groups);
        assert ShowsHost(t', keys[k], New(desired)[k].fqdn, New(desired)[k].groups);
      }
    }
    forall h | h in t.hosts && h in Kept(desired)
      ensures h in t'.hosts && t'.hosts[h] == t.hosts[h]
    {
      var i :| 0 <= i < |desired| && desired[i].id == Some(h);
      assert PlannableHost(t, desired[i]) && ShowsHost(t', desired[i].id.value, desired[i].fqdn, desired[i].groups);
    }
  }

  // ---- the service ----

  /** The transaction's three loops; any error rolls the tables back. */
  method RunPlan(store: Store, plan: Plan, keys: seq<int>) returns (err: Option<Error>)
    requires |keys| == |plan.toCreate|
    modifies store
    ensures match Apply(old(store.Now()), plan, keys)
            case Ok(t) => err == None && store.Now() == t
            case Err(e) => err == Some(e) && store.Now() == old(store.Now())
  {
    var hosts, groups, members := store.hosts, store.groups, store.members;
    for i := 0 to |plan.toDelete|
      invariant ApplyDeletes(store.Now(), plan.toDelete[i..]) == ApplyDeletes(old(store.Now()), plan.toDelete)
    {
      assert plan.toDelete[i..][1..] == plan.toDelete[i + 1..];
      err := store.RemoveHost(plan.toDelete[i]);
      if err.Some? {
        store.hosts, store.groups, store.members := hosts, groups, members;
        return;
      }
    }
    ghost var t1 := store.Now();
    for i := 0 to |plan.toCreate|
      invariant ApplyDeletes(old(store.Now()), plan.toDelete) == Ok(t1)
      invariant ApplyCreates(store.Now(), plan.toCreate[i..], keys[i..]) == ApplyCreates(t1, plan.toCreate, keys)
    {
      assert plan.toCreate[i..][1..] == plan.toCreate[i + 1..] && keys[i..][1..] == keys[i + 1..];
      err := store.AddHost(plan.toCreate[i].fqdn, keys[i]);
      if err.None? {
        err := store.SetMembership(keys[i], plan.toCreate[i].groups);
      }
      if err.Some? {
        store.hosts, store.groups, store.members := hosts, groups, members;
        return;
      }
    }
    ghost var t2 := store.Now();
    for i := 0 to |plan.toSetGroups|
      invariant ApplyDeletes(old(store.Now()), plan.toDelete) == Ok(t1) && ApplyCreates(t1, plan.toCreate, keys) == Ok(t2)
      invariant ApplySets(store.Now(), plan.toSetGroups[i..]) == ApplySets(t2, plan.toSetGroups)
    {
      assert plan.toSetGroups[i..][1..] == plan.toSetGroups[i + 1..];
      err := store.SetMembership(plan.toSetGroups[i].host, plan.toSetGroups[i].groups);
      if err.Some? {
        store.hosts, store.groups, store.members := hosts, groups, members;
        return;
      }
    }
    err := None;
  }

  /** A normalised request that nothing stands against: what a caller can check beforehand. */
  ghost predicate Acceptable(t: Tables, desired: seq<Desired>, valid: string -> bool) {
    && (forall i :: 0 <= i < |desired| ==> valid(desired[i].fqdn) && PlannableHost(t, desired[i]))
    && DistinctIDs(desired) && DistinctFQDNs(desired) && AllGroupsKnown(t, desired)
  }

  /** ReconcileHosts: all or nothing, never a name conflict once planned, and exact when it commits. */
  method ReconcileHosts(store: Store, request: array<Desired>, normalise: string -> string, valid: string -> bool,
                        current: seq<Host>, keys: seq<int>)
    returns (err: Option<Error>)
    requires Sound(store.Now()) && IsListing(store.Now(), current) && Distinct(keys)
    requires |keys| == |New(AllNormalised(request[..], normalise))|
    requires forall i :: 0 <= i < |keys| ==> keys[i] !in Kept(AllNormalised(request[..], normalise))
    modifies store, request
    ensures err == None ==>
              && request[..] == AllNormalised(old(request[..]), normalise) && Sound(store.Now())
              && store.groups == old(store.groups) && Image(store.Now(), request[..], keys)
    ensures err.Some? ==> store.Now() == old(store.Now())
    ensures err == None <==> Acceptable(old(store.Now()), AllNormalised(old(request[..]), normalise), valid)
    ensures err == Some(HostConflict) ==>
              exists i :: 0 <= i < |request[..]| && request[i].id.None? && FQDNTaken(store.Now(), request[i].fqdn)
  {
    err := Prepare(request, normalise, valid);
    if err.Some? {
      return;
    }
    var desired := request[..];
    var plan := BuildPlan(current, desired);
    PlanBuiltIff(store.Now(), current, desired);
    if plan.Err? {
      RefusalIsReal(store.Now(), current, desired);
      return Some(plan.error);
    }
    ReconcileCommitsIff(store.Now(), current, desired, keys);
    err := RunPlan(store, plan.value, keys);
  }

  lemma RefusalIsReal(t: Tables, current: seq<Host>, desired: seq<Desired>)
    requires IsListing(t, current)
    ensures var fault := FirstFault(ByID(current), FQDNs(current), desired);
            && fault != Some(ReferenceNotFound)
            && (fault == Some(HostConflict) ==>
                  exists i :: 0 <= i < |desired| && desired[i].id.None? && FQDNTaken(t, desired[i].fqdn))
  {
    var fault := FirstFault(ByID(current), FQDNs(current), desired);
    ListingIsTable(t, current);
    if fault.Some? {
      FirstFaultIs(ByID(current), FQDNs(current), desired);
      var i :| 0 <= i < |desired| && FaultOf(ByID(current), FQDNs(current), desired[i]) == fault;
      assert fault == Some(HostConflict) ==> desired[i].id.None? && FQDNTaken(t, desired[i].fqdn);
    }
  }

  lemma {:induction false} FirstFaultIs(byID: map<int, string>, fqdns: set<string>, desired: seq<Desired>)
    ensures var fault := FirstFault(byID, fqdns, desired);
            fault.Some? ==> exists i :: 0 <= i < |desired| && FaultOf(byID, fqdns, desired[i]) == fault
                                        && forall k :: 0 <= k < i ==> FaultOf(byID, fqdns, desired[k]) == None
    decreases |desired|
  {
    if desired != [] && FaultOf(byID, fqdns, desired[0]) == None && FirstFault(byID, fqdns, desired[1..]).Some? {
      FirstFaultIs(byID, fqdns, desired[1..]);
      var i :| 0 <= i < |desired[1..]| && FaultOf(byID, fqdns, desired[1..][i]) == FirstFault(byID, fqdns, desired[1..])
               && forall k :: 0 <= k < i ==> FaultOf(byID, fqdns, desired[1..][k]) == None;
      assert desired[i + 1] == desired[1..][i] && forall k :: 0 < k < i + 1 ==> desired[k] == desired[1..][k - 1];
    }
  }
}
