/** Reconciling the host groups with a desired image: plan the difference, then delete, update and create. */
module HostGroups {
  import opened Common
  import opened HostTables
  import opened Slices

  datatype Group = Group(id: int, row: GroupRow, hosts: seq<int>)

  datatype Draft = Draft(row: GroupRow, hosts: seq<int>)

  /** A desired group; without an id it is to be created. */
  datatype Desired = Desired(id: Option<int>, row: GroupRow, hosts: seq<int>)

  datatype Plan = Plan(toCreate: seq<Draft>, toUpdate: seq<Group>, toDelete: seq<int>)

  // ---- prepare ----

  /** unicode.IsSpace. */
  predicate IsSpace(c: char) {
    var p := c as int;
    || 9 <= p <= 13 || p == 32 || p == 0x85 || p == 0xA0 || p == 0x1680 || 0x2000 <= p <= 0x200A
    || p == 0x2028 || p == 0x2029 || p == 0x202F || p == 0x205F || p == 0x3000
  }

  function TrimLeft(s: string): string {
    if s != [] && IsSpace(s[0]) then TrimLeft(s[1..]) else s
  }

  function TrimRight(s: string): string {
    if s != [] && IsSpace(s[|s| - 1]) then TrimRight(s[..|s| - 1]) else s
  }

  function TrimSpace(s: string): string {
    TrimRight(TrimLeft(s))
  }

  predicate IsHexDigit(c: char) {
    '0' <= c <= '9' || 'a' <= c <= 'f' || 'A' <= c <= 'F'
  }

  predicate IsHexColor(s: string) {
    |s| == 7 && s[0] == '#' && forall i :: 1 <= i < 7 ==> IsHexDigit(s[i])
  }

  function Normalised(g: Desired): Desired {
    Desired(g.id, g.row.(name := TrimSpace(g.row.name)), Deduped(g.hosts))
  }

  /** What is wrong with a group once normalised. */
  function Fault(g: Desired): Option<Error> {
    if g.row.name == "" then Some(GroupNameRequired)
    else if !IsHexColor(g.row.color) then Some(InvalidGroupColor)
    else None
  }

  ghost predicate DistinctIDs(groups: seq<Desired>) {
    forall i, j :: 0 <= i < j < |groups| && groups[i].id.Some? ==> groups[i].id != groups[j].id
  }

  /** What prepare gives a request that it accepts. */
  ghost predicate Prepared(groups: seq<Desired>) {
    && (forall i :: 0 <= i < |groups| ==>
          TrimSpace(groups[i].row.name) == groups[i].row.name && Distinct(groups[i].hosts) && Fault(groups[i]) == None)
    && DistinctIDs(groups)
  }

  ghost function AllNormalised(groups: seq<Desired>): (out: seq<Desired>)
    ensures |out| == |groups|
  {
    seq(|groups|, i requires 0 <= i < |groups| => Normalised(groups[i]))
  }

  lemma {:induction false} TrimLeftFixes(s: string)
    ensures TrimLeft(TrimLeft(s)) == TrimLeft(s)
    ensures TrimLeft(s) != [] ==> !IsSpace(TrimLeft(s)[0])
  {
    if s != [] && IsSpace(s[0]) {
      TrimLeftFixes(s[1..]);
    }
  }

  lemma {:induction false} TrimRightFixes(s: string)
    ensures var r := TrimRight(s);
            && r <= s && TrimRight(r) == r && (r != [] ==> !IsSpace(r[|r| - 1]))
  {
    if s != [] && IsSpace(s[|s| - 1]) {
      TrimRightFixes(s[..|s| - 1]);
    }
  }

  /** A trimmed name starts and ends with no space, and trimming it again changes nothing. */
  lemma TrimSpaceFixes(s: string)
    ensures var r := TrimSpace(s);
            && TrimSpace(r) == r && (r != [] ==> !IsSpace(r[0]) && !IsSpace(r[|r| - 1]))
  {
    TrimLeftFixes(s);
    TrimRightFixes(TrimLeft(s));
  }

  ghost predicate AllSpaces(s: string) {
    forall i :: 0 <= i < |s| ==> IsSpace(s[i])
  }

  /** The characters of Unicode's White_Space that Go trims, one by one. */
  lemma SpacesAre(c: char)
    ensures IsSpace(c) <==>
              c as int in {0x09, 0x0A, 0x0B, 0x0C, 0x0D, 0x20, 0x85, 0xA0, 0x1680, 0x2000, 0x2001, 0x2002, 0x2003,
                           0x2004, 0x2005, 0x2006, 0x2007, 0x2008, 0x2009, 0x200A, 0x2028, 0x2029, 0x202F, 0x205F, 0x3000}
  {}

  lemma {:induction false} TrimLeftDrops(s: string) returns (i: nat)
    ensures i <= |s| && TrimLeft(s) == s[i..] && AllSpaces(s[..i])
  {
    i := 0;
    if s != [] && IsSpace(s[0]) {
      var j := TrimLeftDrops(s[1..]);
      i := j + 1;
      assert s[1..][..j] == s[1..i];
      assert forall k :: 0 < k < i ==> s[k] == s[1..][..j][k - 1];
    }
  }

  lemma {:induction false} TrimRightDrops(s: string) returns (j: nat)
    ensures j <= |s| && TrimRight(s) == s[..j] && AllSpaces(s[j..])
  {
    j := |s|;
    if s != [] && IsSpace(s[|s| - 1]) {
      var rest := s[..|s| - 1];
      j := TrimRightDrops(rest);
      assert s[j..] == rest[j..] + [s[|s| - 1]];
    }
  }

  /** Trimming takes spaces off both ends and nothing else. */
  lemma TrimSpaceDrops(s: string) returns (i: nat, j: nat)
    ensures i <= j <= |s| && TrimSpace(s) == s[i..j] && AllSpaces(s[..i]) && AllSpaces(s[j..])
  {
    i := TrimLeftDrops(s);
    var k := TrimRightDrops(s[i..]);
    j := i + k;
    assert s[i..][..k] == s[i..j] && s[i..][k..] == s[j..];
  }

  /** A colour is a hash and six hexadecimal digits, in either case; a name is missing when it is all spaces. */
  lemma FaultsAre(g: Desired)
    ensures var color := g.row.color;
            var colored := |color| == 7 && color[0] == '#'
                           && forall i :: 1 <= i < 7 ==> color[i] in "0123456789abcdefABCDEF";
            && (Fault(Normalised(g)) == Some(GroupNameRequired) <==> AllSpaces(g.row.name))
            && (Fault(Normalised(g)) == Some(InvalidGroupColor) <==> !AllSpaces(g.row.name) && !colored)
            && (Fault(Normalised(g)) == None <==> !AllSpaces(g.row.name) && colored)
  {
    var name := g.row.name;
    var i, j := TrimSpaceDrops(name);
    TrimSpaceFixes(name);
    if AllSpaces(name) && i < j {
      assert TrimSpace(name)[0] == name[i];
    }
    if i == j {
      assert name == name[..i] + name[j..];
    }
    forall c: char
      ensures IsHexDigit(c) <==> c in "0123456789abcdefABCDEF"
    {
      HexDigitsAre(c);
    }
  }

  lemma HexDigitsAre(c: char)
    ensures IsHexDigit(c) <==> c in "0123456789abcdefABCDEF"
  {
    var digits := "0123456789abcdefABCDEF";
    if '0' <= c <= '9' {
      assert digits[c as int - 48] == c;
    } else if 'a' <= c <= 'f' {
      assert digits[c as int - 87] == c;
    } else if 'A' <= c <= 'F' {
      assert digits[c as int - 49] == c;
    }
  }

  ghost predicate Faultless(desired: seq<Desired>) {
    (forall i :: 0 <= i < |desired| ==> Fault(desired[i]) == None) && DistinctIDs(desired)
  }

  /** The second loop of prepare. */
  method RepeatsID(groups: seq<Desired>) returns (found: bool)
    ensures found <==> !DistinctIDs(groups)
  {
    var seen: set<int> := {};
    for k := 0 to |groups|
      invariant DistinctIDs(groups[..k])
      invariant forall id :: id in seen <==> exists i :: 0 <= i < k && groups[i].id == Some(id)
    {
      assert groups[..k + 1] == groups[..k] + [groups[k]];
      if groups[k].id.Some? {
        var id := groups[k].id.value;
        assert groups[k].id == Some(id);
        if id in seen {
          return true;
        }
        seen := seen + {id};
      }
    }
    assert groups[..|groups|] == groups;
    found := false;
  }

  /** prepare: each group normalised and checked in turn, in place; then the ids are checked for repeats. */
  method Prepare(groups: array<Desired>) returns (err: Option<Error>)
    modifies groups
    ensures err == None <==> Faultless(AllNormalised(old(groups[..])))
    ensures err == None ==>
              && groups[..] == AllNormalised(old(groups[..])) && Prepared(groups[..])
    ensures err == Some(DuplicateGroupID) ==>
              && groups[..] == AllNormalised(old(groups[..])) && !DistinctIDs(groups[..])
    ensures err.Some? && err != Some(DuplicateGroupID) ==>
              exists k :: 0 <= k < groups.Length && Fault(Normalised(old(groups[k]))) == err
                          && (forall i :: 0 <= i < k ==> Fault(Normalised(old(groups[i]))) == None)
                          && groups[..] == AllNormalised(old(groups[..]))[..k + 1] + old(groups[..])[k + 1..]
  {
    for k := 0 to groups.Length
      invariant forall i :: 0 <= i < k ==> groups[i] == Normalised(old(groups[i])) && Fault(groups[i]) == None
      invariant forall i :: k <= i < groups.Length ==> groups[i] == old(groups[i])
    {
      groups[k] := Normalised(groups[k]);
      err := Fault(groups[k]);
      if err.Some? {
        assert AllNormalised(old(groups[..]))[k] == groups[k];
        assert groups[..] == AllNormalised(old(groups[..]))[..k + 1] + old(groups[..])[k + 1..];
        return;
      }
    }
    assert groups[..] == AllNormalised(old(groups[..]));
    var repeats := RepeatsID(groups[..]);
    if repeats {
      return Some(DuplicateGroupID);
    }
    forall i | 0 <= i < groups.Length
      ensures TrimSpace(groups[i].row.name) == groups[i].row.name && Distinct(groups[i].hosts)
    {
      TrimSpaceFixes(old(groups[i]).row.name);
      DedupedKeepsElements(old(groups[i]).hosts);
    }
    err := None;
  }

  // ---- plan ----

  ghost predicate GroupIDsDistinct(groups: seq<Group>) {
    forall i, j :: 0 <= i < j < |groups| ==> groups[i].id != groups[j].id
  }

  /** What ListHostGroups may return: every group once, its hosts in some order. */
  ghost predicate IsListing(t: Tables, current: seq<Group>) {
    && GroupIDsDistinct(current)
    && (forall g :: g in t.groups ==> exists i :: 0 <= i < |current| && current[i].id == g)
    && forall i :: 0 <= i < |current| ==>
         HasGroup(t, current[i].id, current[i].row, current[i].hosts) && Distinct(current[i].hosts)
  }

  function ByID(current: seq<Group>): map<int, Group> {
    if current == [] then map[]
    else ByID(current[..|current| - 1])[current[|current| - 1].id := current[|current| - 1]]
  }

  /** SameDefinitionAs; the hosts are compared as lists. */
  predicate SameDefinition(g: Group, other: Group) {
    g.row == other.row && g.hosts == other.hosts
  }

  /** The desired groups that name an existing id, as groups. */
  function Existing(desired: seq<Desired>): seq<Group> {
    if desired == [] then []
    else
      var g := desired[|desired| - 1];
      Existing(desired[..|desired| - 1]) + if g.id.Some? then [Group(g.id.value, g.row, g.hosts)] else []
  }

  /** The desired groups to be created. */
  function New(desired: seq<Desired>): seq<Draft> {
    if desired == [] then []
    else
      var g := desired[|desired| - 1];
      New(desired[..|desired| - 1]) + if g.id.None? then [Draft(g.row, g.hosts)] else []
  }

  /** Those of the groups whose definition differs from the current one. */
  function Changed(byID: map<int, Group>, groups: seq<Group>): seq<Group> {
    if groups == [] then []
    else
      var g := groups[|groups| - 1];
      Changed(byID, groups[..|groups| - 1])
      + if g.id in byID && !SameDefinition(byID[g.id], g) then [g] else []
  }

  /** Those of the current groups that are not among `keep`. */
  function Dropped(current: seq<Group>, keep: set<int>): seq<int> {
    if current == [] then []
    else
      var g := current[|current| - 1];
      Dropped(current[..|current| - 1], keep) + if g.id in keep then [] else [g.id]
  }

  function IDs(groups: seq<Group>): set<int> {
    set i | 0 <= i < |groups| :: groups[i].id
  }

  function PlanFor(current: seq<Group>, desired: seq<Desired>): Plan {
    Plan(New(desired), Changed(ByID(current), Existing(desired)), Dropped(current, IDs(Existing(desired))))
  }

  /** buildGroupReconcilePlan. */
  method BuildPlan(current: seq<Group>, desired: seq<Desired>) returns (plan: Result<Plan, Error>)
    ensures plan == if IDs(Existing(desired)) <= IDs(current) then Ok(PlanFor(current, desired)) else Err(HostGroupNotFound)
  {
    var byID: map<int, Group> := map[];
    for i := 0 to |current|
      invariant byID == ByID(current[..i]) && byID.Keys == IDs(current[..i])
    {
      assert current[..i + 1][..i] == current[..i];
      IDsAppend(current[..i], current[i]);
      assert current[..i] + [current[i]] == current[..i + 1];
      byID := byID[current[i].id := current[i]];
    }
    assert current[..|current|] == current;
    var desiredIDs: set<int> := {};
    var toCreate, toUpdate := [], [];
    for i := 0 to |desired|
      invariant toCreate == New(desired[..i]) && toUpdate == Changed(byID, Existing(desired[..i]))
      invariant desiredIDs == IDs(Existing(desired[..i])) && desiredIDs <= byID.Keys
    {
      var g := desired[i];
      PlanStep(byID, desired, i);
      if g.id.None? {
        toCreate := toCreate + [Draft(g.row, g.hosts)];
      } else {
        var candidate := Group(g.id.value, g.row, g.hosts);
        if candidate.id !in byID {
          ExistingGrows(desired, i + 1);
          return Err(HostGroupNotFound);
        }
        desiredIDs := desiredIDs + {candidate.id};
        if !SameDefinition(byID[candidate.id], candidate) {
          toUpdate := toUpdate + [candidate];
        }
      }
    }
    assert desired[..|desired|] == desired;
    var toDelete := [];
    for i := 0 to |current|
      invariant toDelete == Dropped(current[..i], desiredIDs)
    {
      assert current[..i + 1][..i] == current[..i];
      if current[i].id !in desiredIDs {
        toDelete := toDelete + [current[i].id];
      }
    }
    plan := Ok(Plan(toCreate, toUpdate, toDelete));
  }

  /** What one more desired group adds to each part of the plan. */
  lemma PlanStep(byID: map<int, Group>, desired: seq<Desired>, i: nat)
    requires i < |desired|
    ensures var before, after, g := desired[..i], desired[..i + 1], desired[i];
            if g.id.None? then
              && New(after) == New(before) + [Draft(g.row, g.hosts)] && Existing(after) == Existing(before)
            else
              var candidate := Group(g.id.value, g.row, g.hosts);
              && New(after) == New(before) && IDs(Existing(after)) == IDs(Existing(before)) + {candidate.id}
              && Changed(byID, Existing(after)) == Changed(byID, Existing(before))
                 + if candidate.id in byID && !SameDefinition(byID[candidate.id], candidate) then [candidate] else []
  {
    assert desired[..i + 1][..i] == desired[..i];
    var g := desired[i];
    if g.id.Some? {
      var before, candidate := Existing(desired[..i]), Group(g.id.value, g.row, g.hosts);
      IDsAppend(before, candidate);
      assert (before + [candidate])[..|before|] == before;
    }
  }

  lemma IDsAppend(groups: seq<Group>, g: Group)
    ensures IDs(groups + [g]) == IDs(groups) + {g.id}
  {
    var all := groups + [g];
    forall id
      ensures id in IDs(all) <==> id in IDs(groups) + {g.id}
    {
      assert all[|groups|] == g;
      if id in IDs(groups) {
        var i :| 0 <= i < |groups| && groups[i].id == id;
        assert all[i] == groups[i];
      }
    }
  }

  lemma {:induction false} ExistingGrows(desired: seq<Desired>, k: nat)
    requires k <= |desired|
    ensures IDs(Existing(desired[..k])) <= IDs(Existing(desired))
    decreases |desired|
  {
    if k < |desired| {
      var init := desired[..|desired| - 1];
      ExistingGrows(init, k);
      assert init[..k] == desired[..k];
      var g := desired[|desired| - 1];
      if g.id.Some? {
        IDsAppend(Existing(init), Group(g.id.value, g.row, g.hosts));
      } else {
        assert Existing(desired) == Existing(init);
      }
    } else {
      assert desired[..k] == desired;
    }
  }

  // ---- apply ----

  function ApplyDeletes(t: Tables, ids: seq<int>): Result<Tables, Error>
    decreases |ids|
  {
    if ids == [] then Ok(t)
    else
      match DeleteHostGroup(t, ids[0])
      case Err(e) => Err(e)
      case Ok(t') => ApplyDeletes(t', ids[1..])
  }

  function ApplyUpdates(t: Tables, groups: seq<Group>): Result<Tables, Error>
    decreases |groups|
  {
    if groups == [] then Ok(t)
    else
      match UpdateHostGroup(t, groups[0].id, groups[0].row, groups[0].hosts)
      case Err(e) => Err(e)
      case Ok(t') => ApplyUpdates(t', groups[1..])
  }

  /** `keys` holds the keys the database gives the new rows. */
  function ApplyCreates(t: Tables, drafts: seq<Draft>, keys: seq<int>): Result<Tables, Error>
    requires |keys| == |drafts|
    decreases |drafts|
  {
    if drafts == [] then Ok(t)
    else
      match CreateHostGroup(t, drafts[0].row, drafts[0].hosts, keys[0])
      case Err(e) => Err(e)
      case Ok(t') => ApplyCreates(t', drafts[1..], keys[1..])
  }

  /** The transaction: deletes free names for the updates, and updates for the creates. */
  function Apply(t: Tables, plan: Plan, keys: seq<int>): Result<Tables, Error>
    requires |keys| == |plan.toCreate|
  {
    match ApplyDeletes(t, plan.toDelete)
    case Err(e) => Err(e)
    case Ok(t1) =>
      match ApplyUpdates(t1, plan.toUpdate)
      case Err(e) => Err(e)
      case Ok(t2) => ApplyCreates(t2, plan.toCreate, keys)
  }

  ghost predicate HostsKnown(t: Tables, hosts: seq<int>) {
    Distinct(hosts) && forall i :: 0 <= i < |hosts| ==> hosts[i] in t.hosts
  }

  /** Group g is the same in both, row and members. */
  ghost predicate SameGroup(t: Tables, t': Tables, g: int) {
    && (g in t'.groups <==> g in t.groups) && (g in t.groups ==> t'.groups[g] == t.groups[g])
    && forall h :: (g, h) in t'.members <==> (g, h) in t.members
  }

  lemma {:induction false} DeletesCommit(t: Tables, ids: seq<int>)
    requires Sound(t) && Distinct(ids) && forall i :: 0 <= i < |ids| ==> ids[i] in t.groups
    ensures ApplyDeletes(t, ids).Ok?
    ensures var t' := ApplyDeletes(t, ids).value;
            && Sound(t') && t'.hosts == t.hosts
            && forall g :: if g in ids then g !in t'.groups else SameGroup(t, t', g)
    decreases |ids|
  {
    if ids != [] {
      var t1 := DeleteHostGroup(t, ids[0]).value;
      DeletesCommit(t1, ids[1..]);
      assert ids == [ids[0]] + ids[1..] && ids[0] !in ids[1..];
      var t' := ApplyDeletes(t, ids).value;
      forall g
        ensures if g in ids then g !in t'.groups else SameGroup(t, t', g)
      {
        assert g != ids[0] ==> SameGroup(t, t1, g);
        assert g !in ids[1..] ==> SameGroup(t1, t', g);
      }
    }
  }

  /** The group rows once the listed groups are written. */
  ghost function Written(groups: map<int, GroupRow>, updates: seq<Group>): map<int, GroupRow>
    decreases |updates|
  {
    if updates == [] then groups else Written(groups[updates[0].id := updates[0].row], updates[1..])
  }

  lemma {:induction false} WrittenAt(groups: map<int, GroupRow>, updates: seq<Group>, g: int)
    requires GroupIDsDistinct(updates)
    ensures g in Written(groups, updates) <==> g in groups || g in IDs(updates)
    ensures g !in IDs(updates) && g in groups ==> Written(groups, updates)[g] == groups[g]
    ensures forall i :: 0 <= i < |updates| && updates[i].id == g ==> Written(groups, updates)[g] == updates[i].row
    decreases |updates|
  {
    if updates != [] {
      var rest := updates[1..];
      assert forall i :: 0 < i < |updates| ==> updates[i] == rest[i - 1];
      assert g in IDs(updates) <==> g == updates[0].id || g in IDs(rest);
      WrittenAt(groups[updates[0].id := updates[0].row], rest, g);
      assert updates[0].id !in IDs(rest);
    }
  }

  /** When update i runs, no other group holds the name it writes. */
  ghost predicate StepFree(groups: map<int, GroupRow>, updates: seq<Group>, i: nat)
    requires i < |updates|
  {
    var now := Written(groups, updates[..i]);
    forall g :: g in now && g != updates[i].id ==> now[g].name != updates[i].row.name
  }

  ghost predicate AllStepsFree(groups: map<int, GroupRow>, updates: seq<Group>) {
    forall i :: 0 <= i < |updates| ==> StepFree(groups, updates, i)
  }

  ghost predicate Updatable(t: Tables, updates: seq<Group>) {
    && Sound(t) && GroupIDsDistinct(updates)
    && forall i :: 0 <= i < |updates| ==> updates[i].id in t.groups && HostsKnown(t, updates[i].hosts)
  }

  lemma StepsFreeAfterFirst(groups: map<int, GroupRow>, updates: seq<Group>)
    requires updates != []
    ensures AllStepsFree(groups, updates) <==>
              StepFree(groups, updates, 0) && AllStepsFree(groups[updates[0].id := updates[0].row], updates[1..])
  {
    var rest, groups1 := updates[1..], groups[updates[0].id := updates[0].row];
    forall i | 0 <= i < |rest|
      ensures StepFree(groups1, rest, i) <==> StepFree(groups, updates, i + 1)
    {
      assert updates[..i + 1][1..] == rest[..i] && rest[i] == updates[i + 1];
      assert Written(groups, updates[..i + 1]) == Written(groups1, rest[..i]);
    }
    if AllStepsFree(groups, updates) {
      forall i | 0 <= i < |rest|
        ensures StepFree(groups1, rest, i)
      {
        assert StepFree(groups, updates, i + 1);
      }
    }
    if StepFree(groups, updates, 0) && AllStepsFree(groups1, rest) {
      forall i | 0 < i < |updates|
        ensures StepFree(groups, updates, i)
      {
        assert StepFree(groups1, rest, i - 1);
      }
    }
  }

  /** Running the updates succeeds exactly when every step finds its name free; then each group has what was asked. */
  lemma {:induction false} UpdatesCommit(t: Tables, updates: seq<Group>)
    requires Updatable(t, updates)
    ensures var r := ApplyUpdates(t, updates);
            && (r.Ok? <==> AllStepsFree(t.groups, updates))
            && (r.Err? ==> r == Err(HostGroupConflict))
            && (r.Ok? ==>
                  && Sound(r.value) && r.value.hosts == t.hosts
                  && (forall i :: 0 <= i < |updates| ==>
                        HasGroup(r.value, updates[i].id, updates[i].row, updates[i].hosts))
                  && (forall g :: g !in IDs(updates) ==> SameGroup(t, r.value, g)))
    decreases |updates|
  {
    if updates != [] {
      var u, rest := updates[0], updates[1..];
      assert Written(t.groups, updates[..0]) == t.groups;
      assert StepFree(t.groups, updates, 0) <==> !NameTaken(t, u.id, u.row.name);
      StepsFreeAfterFirst(t.groups, updates);
      if !NameTaken(t, u.id, u.row.name) {
        WriteGroup(t, u.id, u.row, u.hosts);
        var t1 := UpdateHostGroup(t, u.id, u.row, u.hosts).value;
        assert forall i :: 0 < i < |updates| ==> updates[i] == rest[i - 1];
        assert u.id !in IDs(rest);
        UpdatesCommit(t1, rest);
        UpdatesCompose(t, t1, updates);
      }
    }
  }

  lemma UpdatesCompose(t: Tables, t1: Tables, updates: seq<Group>)
    requires updates != [] && OnlyGroup(t, t1, updates[0].id)
    requires HasGroup(t1, updates[0].id, updates[0].row, updates[0].hosts) && updates[0].id !in IDs(updates[1..])
    ensures forall t2, g :: SameGroup(t1, t2, g) && g != updates[0].id ==> SameGroup(t, t2, g)
    ensures forall t2 :: SameGroup(t1, t2, updates[0].id) ==>
                           HasGroup(t2, updates[0].id, updates[0].row, updates[0].hosts)
    ensures IDs(updates) == {updates[0].id} + IDs(updates[1..])
  {
    assert updates == [updates[0]] + updates[1..];
    assert forall i :: 0 <= i < |updates| - 1 ==> updates[1..][i] == updates[i + 1];
  }

  /** No draft's name is in use, by a group of the table or by another draft. */
  ghost predicate DraftNamesFree(t: Tables, drafts: seq<Draft>) {
    && (forall i, g :: 0 <= i < |drafts| && g in t.groups ==> t.groups[g].name != drafts[i].row.name)
    && forall i, j :: 0 <= i < j < |drafts| ==> drafts[i].row.name != drafts[j].row.name
  }

  ghost predicate Creatable(t: Tables, drafts: seq<Draft>, keys: seq<int>) {
    && Sound(t) && |keys| == |drafts| && Distinct(keys)
    && forall i :: 0 <= i < |drafts| ==> keys[i] !in t.groups && HostsKnown(t, drafts[i].hosts)
  }

  lemma {:induction false} CreatesCommit(t: Tables, drafts: seq<Draft>, keys: seq<int>)
    requires Creatable(t, drafts, keys)
    ensures var r := ApplyCreates(t, drafts, keys);
            && (r.Ok? <==> DraftNamesFree(t, drafts))
            && (r.Err? ==> r == Err(HostGroupConflict))
            && (r.Ok? ==>
                  && Sound(r.value) && r.value.hosts == t.hosts
                  && (forall i :: 0 <= i < |drafts| ==> HasGroup(r.value, keys[i], drafts[i].row, drafts[i].hosts))
                  && (forall g :: g !in keys ==> SameGroup(t, r.value, g)))
    decreases |drafts|
  {
    if drafts != [] {
      var d, id, rest := drafts[0], keys[0], drafts[1..];
      assert NameTaken(t, id, d.row.name) <==> exists g :: g in t.groups && t.groups[g].name == d.row.name;
      if !NameTaken(t, id, d.row.name) {
        WriteGroup(t, id, d.row, d.hosts);
        var t1 := CreateHostGroup(t, d.row, d.hosts, id).value;
        RestCreatable(t, t1, drafts, keys);
        CreatesCommit(t1, rest, keys[1..]);
        FirstDraft(t, t1, drafts);
        CreatesCompose(t, t1, id, d);
        assert forall i :: 0 < i < |drafts| ==> drafts[i] == rest[i - 1] && keys[i] == keys[1..][i - 1];
      }
    }
  }

  lemma RestCreatable(t: Tables, t1: Tables, drafts: seq<Draft>, keys: seq<int>)
    requires drafts != [] && Creatable(t, drafts, keys) && Sound(t1) && t1.hosts == t.hosts
    requires t1.groups == t.groups[keys[0] := drafts[0].row]
    ensures Creatable(t1, drafts[1..], keys[1..])
    ensures keys == [keys[0]] + keys[1..] && keys[0] !in keys[1..]
  {
    forall i | 0 <= i < |drafts| - 1
      ensures keys[1..][i] !in t1.groups && HostsKnown(t1, drafts[1..][i].hosts)
    {
      assert HostsKnown(t, drafts[i + 1].hosts);
    }
  }

  lemma FirstDraft(t: Tables, t1: Tables, drafts: seq<Draft>)
    requires drafts != [] && exists id :: id !in t.groups && t1.groups == t.groups[id := drafts[0].row]
    ensures DraftNamesFree(t, drafts) <==>
              && (forall g :: g in t.groups ==> t.groups[g].name != drafts[0].row.name)
              && DraftNamesFree(t1, drafts[1..])
  {
    var id :| id !in t.groups && t1.groups == t.groups[id := drafts[0].row];
    var rest := drafts[1..];
    assert forall i :: 0 < i < |drafts| ==> drafts[i] == rest[i - 1];
    assert forall i :: 0 <= i < |rest| ==> rest[i] == drafts[i + 1];
    assert DraftNamesFree(t1, rest) ==> forall i :: 0 <= i < |rest| ==> t1.groups[id].name != rest[i].row.name;
    assert forall g :: g in t.groups ==> g in t1.groups && t1.groups[g] == t.groups[g];
  }

  lemma CreatesCompose(t: Tables, t1: Tables, id: int, d: Draft)
    requires OnlyGroup(t, t1, id) && HasGroup(t1, id, d.row, d.hosts)
    ensures forall t2, g :: SameGroup(t1, t2, g) && g != id ==> SameGroup(t, t2, g)
    ensures forall t2 :: SameGroup(t1, t2, id) ==> HasGroup(t2, id, d.row, d.hosts)
  {}

  // ---- the plan and the request ----

  lemma {:induction false} ByIDKeys(current: seq<Group>)
    ensures ByID(current).Keys == IDs(current)
  {
    if current != [] {
      var init, g := current[..|current| - 1], current[|current| - 1];
      ByIDKeys(init);
      assert init + [g] == current;
      IDsAppend(init, g);
    }
  }

  lemma {:induction false} ByIDFinds(current: seq<Group>, i: nat)
    requires GroupIDsDistinct(current) && i < |current|
    ensures current[i].id in ByID(current) && ByID(current)[current[i].id] == current[i]
  {
    if i < |current| - 1 {
      var init := current[..|current| - 1];
      ByIDFinds(init, i);
      assert init[i] == current[i];
    }
  }

  lemma ByIDLists(current: seq<Group>)
    requires GroupIDsDistinct(current)
    ensures ByID(current).Keys == IDs(current)
    ensures forall i :: 0 <= i < |current| ==> ByID(current)[current[i].id] == current[i]
  {
    ByIDKeys(current);
    forall i | 0 <= i < |current|
      ensures ByID(current)[current[i].id] == current[i]
    {
      ByIDFinds(current, i);
    }
  }

  lemma {:induction false} DroppedAre(current: seq<Group>, keep: set<int>)
    requires GroupIDsDistinct(current)
    ensures Distinct(Dropped(current, keep))
    ensures forall id :: id in Dropped(current, keep) <==> id in IDs(current) && id !in keep
  {
    if current != [] {
      var init, g := current[..|current| - 1], current[|current| - 1];
      DroppedAre(init, keep);
      assert init + [g] == current;
      IDsAppend(init, g);
      assert g.id !in IDs(init);
    }
  }

  lemma {:induction false} ChangedAre(byID: map<int, Group>, groups: seq<Group>)
    requires GroupIDsDistinct(groups)
    ensures GroupIDsDistinct(Changed(byID, groups))
    ensures forall g :: g in Changed(byID, groups) <==> g in groups && g.id in byID && !SameDefinition(byID[g.id], g)
  {
    if groups != [] {
      var init, g := groups[..|groups| - 1], groups[|groups| - 1];
      ChangedAre(byID, init);
      assert init + [g] == groups;
      assert forall i :: 0 <= i < |Changed(byID, init)| ==> Changed(byID, init)[i] in init;
    }
  }

  lemma {:induction false} ExistingAre(desired: seq<Desired>)
    ensures forall g :: g in Existing(desired) <==> Desired(Some(g.id), g.row, g.hosts) in desired
    ensures forall d :: d in New(desired) <==> Desired(None, d.row, d.hosts) in desired
    ensures DistinctIDs(desired) ==> GroupIDsDistinct(Existing(desired))
  {
    if desired != [] {
      var init, g := desired[..|desired| - 1], desired[|desired| - 1];
      ExistingAre(init);
      assert init + [g] == desired;
      forall i | 0 <= i < |Existing(init)| && DistinctIDs(desired)
        ensures Some(Existing(init)[i].id) != g.id
      {
        var e := Existing(init)[i];
        assert e in Existing(init);
        var k :| 0 <= k < |init| && init[k] == Desired(Some(e.id), e.row, e.hosts);
        assert desired[k] == init[k];
      }
    }
  }

  ghost predicate NamesDistinct(desired: seq<Desired>) {
    forall i, j :: 0 <= i < j < |desired| ==> desired[i].row.name != desired[j].row.name
  }

  ghost predicate GroupNamesDistinct(groups: seq<Group>) {
    forall i, j :: 0 <= i < j < |groups| ==> groups[i].row.name != groups[j].row.name
  }

  ghost predicate DraftNamesDistinct(groups: seq<Group>, drafts: seq<Draft>) {
    && (forall i, j :: 0 <= i < j < |drafts| ==> drafts[i].row.name != drafts[j].row.name)
    && forall i, j :: 0 <= i < |groups| && 0 <= j < |drafts| ==> groups[i].row.name != drafts[j].row.name
  }

  lemma {:induction false} NamesSplit(desired: seq<Desired>)
    ensures NamesDistinct(desired) <==>
              GroupNamesDistinct(Existing(desired)) && DraftNamesDistinct(Existing(desired), New(desired))
  {
    if desired != [] {
      var init, g := desired[..|desired| - 1], desired[|desired| - 1];
      NamesSplit(init);
      NameInEither(init, g.row.name);
      NamesAppend(init, g);
      assert init + [g] == desired;
      if g.id.Some? {
        OneMoreGroup(Existing(init), New(init), Group(g.id.value, g.row, g.hosts));
        assert New(desired) == New(init);
      } else {
        OneMoreDraft(Existing(init), New(init), Draft(g.row, g.hosts));
        assert Existing(desired) == Existing(init);
      }
    }
  }

  lemma NamesAppend(init: seq<Desired>, g: Desired)
    ensures NamesDistinct(init + [g]) <==> NamesDistinct(init) && !HasName(init, g.row.name)
  {
    var all := init + [g];
    assert all[|init|] == g && forall i :: 0 <= i < |init| ==> all[i] == init[i];
  }

  lemma OneMoreGroup(groups: seq<Group>, drafts: seq<Draft>, g: Group)
    ensures GroupNamesDistinct(groups + [g]) && DraftNamesDistinct(groups + [g], drafts) <==>
              && GroupNamesDistinct(groups) && DraftNamesDistinct(groups, drafts)
              && (forall i :: 0 <= i < |groups| ==> groups[i].row.name != g.row.name)
              && (forall i :: 0 <= i < |drafts| ==> drafts[i].row.name != g.row.name)
  {
    var all := groups + [g];
    assert all[|groups|] == g && forall i :: 0 <= i < |groups| ==> all[i] == groups[i];
  }

  lemma OneMoreDraft(groups: seq<Group>, drafts: seq<Draft>, d: Draft)
    ensures DraftNamesDistinct(groups, drafts + [d]) <==>
              && DraftNamesDistinct(groups, drafts)
              && (forall i :: 0 <= i < |groups| ==> groups[i].row.name != d.row.name)
              && (forall i :: 0 <= i < |drafts| ==> drafts[i].row.name != d.row.name)
  {
    var all := drafts + [d];
    assert all[|drafts|] == d && forall i :: 0 <= i < |drafts| ==> all[i] == drafts[i];
  }

  ghost predicate HasName(desired: seq<Desired>, name: string) {
    exists i :: 0 <= i < |desired| && desired[i].row.name == name
  }

  lemma NameInEither(desired: seq<Desired>, name: string)
    ensures HasName(desired, name) <==>
              || (exists i :: 0 <= i < |Existing(desired)| && Existing(desired)[i].row.name == name)
              || (exists i :: 0 <= i < |New(desired)| && New(desired)[i].row.name == name)
  {
    ExistingAre(desired);
    if HasName(desired, name) {
      var i :| 0 <= i < |desired| && desired[i].row.name == name;
      var g := desired[i];
      if g.id.Some? {
        assert Group(g.id.value, g.row, g.hosts) in Existing(desired);
      } else {
        assert Draft(g.row, g.hosts) in New(desired);
      }
    }
    if i :| 0 <= i < |Existing(desired)| && Existing(desired)[i].row.name == name {
      var g := Existing(desired)[i];
      assert g in Existing(desired);
      assert Desired(Some(g.id), g.row, g.hosts) in desired;
    }
    if i :| 0 <= i < |New(desired)| && New(desired)[i].row.name == name {
      var d := New(desired)[i];
      assert d in New(desired);
      assert Desired(None, d.row, d.hosts) in desired;
    }
  }

  // ---- when the reconcile commits, and what it leaves ----

  /** The request as the table then shows it: the listed groups, the new ones under their keys, and no others. */
  ghost predicate Image(t: Tables, desired: seq<Desired>, keys: seq<int>) {
    && |keys| == |New(desired)|
    && (forall g :: g in t.groups <==> g in IDs(Existing(desired)) || g in keys)
    && (forall i :: 0 <= i < |Existing(desired)| ==>
          var e := Existing(desired)[i]; HasGroup(t, e.id, e.row, e.hosts))
    && (forall i :: 0 <= i < |keys| ==> HasGroup(t, keys[i], New(desired)[i].row, New(desired)[i].hosts))
    && (forall m :: m in t.members ==> m.0 in t.groups)
  }

  ghost function WithoutID(desired: seq<Desired>): set<int> {
    set i | 0 <= i < |desired| && desired[i].id.None?
  }

  lemma {:induction false} NewCount(desired: seq<Desired>)
    ensures |New(desired)| == |WithoutID(desired)|
  {
    if desired == [] {
      assert WithoutID(desired) == {};
    } else {
      var n := |desired| - 1;
      NewCount(desired[..n]);
      assert WithoutID(desired) == WithoutID(desired[..n]) + if desired[n].id.None? then {n} else {};
    }
  }

  /**
   Read off the request itself: each listed group is there as desired, each unlisted one under a new key, one
   key for each, and there is no other group.
   */
  lemma ImageIsRequest(t: Tables, desired: seq<Desired>, keys: seq<int>)
    requires Image(t, desired, keys)
    ensures |keys| == |WithoutID(desired)|
    ensures forall i :: 0 <= i < |desired| ==>
              match desired[i].id
              case Some(id) => HasGroup(t, id, desired[i].row, desired[i].hosts)
              case None => exists k :: k in keys && HasGroup(t, k, desired[i].row, desired[i].hosts)
    ensures forall g :: g in t.groups ==> g in keys || exists i :: 0 <= i < |desired| && desired[i].id == Some(g)
  {
    NewCount(desired);
    ExistingAre(desired);
    forall i | 0 <= i < |desired|
      ensures match desired[i].id
              case Some(id) => HasGroup(t, id, desired[i].row, desired[i].hosts)
              case None => exists k :: k in keys && HasGroup(t, k, desired[i].row, desired[i].hosts)
    {
      var d := desired[i];
      assert d in desired;
      match d.id
      case Some(id) =>
        assert Group(id, d.row, d.hosts) in Existing(desired);
        var k :| 0 <= k < |Existing(desired)| && Existing(desired)[k] == Group(id, d.row, d.hosts);
        assert HasGroup(t, Existing(desired)[k].id, Existing(desired)[k].row, Existing(desired)[k].hosts);
      case None =>
        assert Draft(d.row, d.hosts) in New(desired);
        var k :| 0 <= k < |New(desired)| && New(desired)[k] == Draft(d.row, d.hosts);
        assert keys[k] in keys;
    }
    forall g | g in t.groups && g !in keys
      ensures exists i :: 0 <= i < |desired| && desired[i].id == Some(g)
    {
      var k :| 0 <= k < |Existing(desired)| && Existing(desired)[k].id == g;
      var e := Existing(desired)[k];
      assert e in Existing(desired);
      var i :| 0 <= i < |desired| && desired[i] == Desired(Some(e.id), e.row, e.hosts);
    }
  }

  /** Nothing changes outside the request's control, and the request can be planned. */
  ghost predicate Plannable(t: Tables, current: seq<Group>, desired: seq<Desired>, keys: seq<int>) {
    && Sound(t) && IsListing(t, current) && Prepared(desired)
    && (forall i :: 0 <= i < |desired| ==> HostsKnown(t, desired[i].hosts))
    && IDs(Existing(desired)) <= IDs(current)
    && |keys| == |New(desired)| && Distinct(keys) && forall i :: 0 <= i < |keys| ==> keys[i] !in IDs(Existing(desired))
  }

  /** After the deletions, the table holds exactly the groups the request lists, as they were. */
  lemma DeletePhase(t: Tables, current: seq<Group>, desired: seq<Desired>, keys: seq<int>)
    requires Plannable(t, current, desired, keys)
    ensures var r := ApplyDeletes(t, PlanFor(current, desired).toDelete);
            && r.Ok? && Sound(r.value) && r.value.hosts == t.hosts
            && r.value.groups.Keys == IDs(Existing(desired))
            && forall g :: g in IDs(Existing(desired)) ==> SameGroup(t, r.value, g)
  {
    var keep := IDs(Existing(desired));
    var drop := Dropped(current, keep);
    DroppedAre(current, keep);
    assert forall i :: 0 <= i < |drop| ==> drop[i] in drop;
    forall g
      ensures g in t.groups <==> g in IDs(current)
    {
      if g in IDs(current) {
        var i :| 0 <= i < |current| && current[i].id == g;
      }
    }
    DeletesCommit(t, drop);
    var t1 := ApplyDeletes(t, drop).value;
    forall g
      ensures g in t1.groups <==> g in keep
    {
      assert g in drop <==> g in IDs(current) && g !in keep;
    }
  }

  /** A listed group is in the request, so its id is kept and its hosts are known. */
  lemma ListedIsKnown(t: Tables, desired: seq<Desired>, g: Group)
    requires g in Existing(desired) && forall i :: 0 <= i < |desired| ==> HostsKnown(t, desired[i].hosts)
    ensures g.id in IDs(Existing(desired)) && HostsKnown(t, g.hosts)
  {
    ExistingAre(desired);
    var d := Desired(Some(g.id), g.row, g.hosts);
    assert d in desired;
    var i :| 0 <= i < |desired| && desired[i] == d;
  }

  /** A listed group left out of the updates is in the table as desired. */
  lemma SkippedIsPresent(t: Tables, t1: Tables, current: seq<Group>, g: Group)
    requires IsListing(t, current) && g.id in ByID(current) && SameGroup(t, t1, g.id)
    requires SameDefinition(ByID(current)[g.id], g)
    ensures HasGroup(t1, g.id, g.row, g.hosts)
  {
    ByIDLists(current);
    assert g.id in IDs(current);
    var i :| 0 <= i < |current| && current[i].id == g.id;
    assert HasGroup(t, current[i].id, current[i].row, current[i].hosts);
  }

  /** What the skipped and the updated groups of the request are, against the table. */
  lemma UpdatesAre(t: Tables, t1: Tables, current: seq<Group>, desired: seq<Desired>, keys: seq<int>)
    requires Plannable(t, current, desired, keys)
    requires Sound(t1) && t1.hosts == t.hosts && t1.groups.Keys == IDs(Existing(desired))
    requires forall g :: g in IDs(Existing(desired)) ==> SameGroup(t, t1, g)
    ensures var updates := PlanFor(current, desired).toUpdate;
            && Updatable(t1, updates) && GroupIDsDistinct(Existing(desired))
            && (forall g :: g in updates ==> g in Existing(desired))
            && (forall g :: g in Existing(desired) && g !in updates ==> HasGroup(t1, g.id, g.row, g.hosts))
  {
    var groups, updates := Existing(desired), PlanFor(current, desired).toUpdate;
    ExistingAre(desired);
    ByIDLists(current);
    ChangedAre(ByID(current), groups);
    forall i | 0 <= i < |updates|
      ensures updates[i].id in t1.groups && HostsKnown(t1, updates[i].hosts)
    {
      assert updates[i] in updates;
      ListedIsKnown(t, desired, updates[i]);
      assert updates[i].id in t1.groups.Keys;
    }
    forall g | g in groups && g !in updates
      ensures HasGroup(t1, g.id, g.row, g.hosts)
    {
      ListedIsKnown(t, desired, g);
      SkippedIsPresent(t, t1, current, g);
    }
  }

  /** No update takes the present name of a group that is updated after it. */
  ghost predicate NoForwardClash(t: Tables, updates: seq<Group>) {
    forall i, j :: 0 <= i < j < |updates| && updates[j].id in t.groups ==>
      t.groups[updates[j].id].name != updates[i].row.name
  }

  /** The steps of the update phase find their names free exactly when the listed names do not clash. */
  lemma StepsFreeIff(t1: Tables, groups: seq<Group>, updates: seq<Group>)
    requires Sound(t1) && t1.groups.Keys == IDs(groups) && GroupIDsDistinct(groups) && GroupIDsDistinct(updates)
    requires forall g :: g in updates ==> g in groups
    requires forall g :: g in groups && g !in updates ==> g.id in t1.groups && t1.groups[g.id] == g.row
    ensures AllStepsFree(t1.groups, updates) <==> GroupNamesDistinct(groups) && NoForwardClash(t1, updates)
  {
    if GroupNamesDistinct(groups) && NoForwardClash(t1, updates) {
      forall i, g | 0 <= i < |updates| && g in Written(t1.groups, updates[..i]) && g != updates[i].id
        ensures Written(t1.groups, updates[..i])[g].name != updates[i].row.name
      {
        NameFreeAt(t1, groups, updates, i, g);
      }
    }
    if AllStepsFree(t1.groups, updates) {
      forall i, j | 0 <= i < j < |groups|
        ensures groups[i].row.name != groups[j].row.name
      {
        NamesDifferAt(t1, groups, updates, i, j);
      }
      forall i, j | 0 <= i < j < |updates| && updates[j].id in t1.groups
        ensures t1.groups[updates[j].id].name != updates[i].row.name
      {
        assert StepFree(t1.groups, updates, i);
        WrittenAt(t1.groups, updates[..i], updates[j].id);
      }
    }
  }

  lemma NameFreeAt(t1: Tables, groups: seq<Group>, updates: seq<Group>, i: nat, g: int)
    requires t1.groups.Keys == IDs(groups) && GroupIDsDistinct(updates) && i < |updates|
    requires forall u :: u in updates ==> u in groups
    requires forall u :: u in groups && u !in updates ==> u.id in t1.groups && t1.groups[u.id] == u.row
    requires GroupNamesDistinct(groups) && NoForwardClash(t1, updates)
    requires g in Written(t1.groups, updates[..i]) && g != updates[i].id
    ensures Written(t1.groups, updates[..i])[g].name != updates[i].row.name
  {
    var done := updates[..i];
    WrittenAt(t1.groups, done, g);
    if g in IDs(done) {
      var j :| 0 <= j < i && done[j].id == g;
      assert updates[j] == done[j] && updates[j] in updates && updates[i] in updates;
      NamesDiffer(groups, updates[j], updates[i]);
    } else {
      UntouchedNameFree(t1, groups, updates, i, g);
    }
  }

  lemma UntouchedNameFree(t1: Tables, groups: seq<Group>, updates: seq<Group>, i: nat, g: int)
    requires i < |updates| && g in t1.groups && t1.groups.Keys == IDs(groups) && g != updates[i].id
    requires forall u :: u in updates ==> u in groups
    requires forall u :: u in groups && u !in updates ==> u.id in t1.groups && t1.groups[u.id] == u.row
    requires GroupNamesDistinct(groups) && NoForwardClash(t1, updates) && g !in IDs(updates[..i])
    ensures t1.groups[g].name != updates[i].row.name
  {
    assert g in IDs(groups);
    var l :| 0 <= l < |groups| && groups[l].id == g;
    if groups[l] in updates {
      LaterUpdate(t1, updates, i, groups[l]);
    } else {
      assert updates[i] in updates;
      NamesDiffer(groups, groups[l], updates[i]);
    }
  }

  lemma LaterUpdate(t1: Tables, updates: seq<Group>, i: nat, x: Group)
    requires i < |updates| && x in updates && x.id != updates[i].id && x.id !in IDs(updates[..i])
    requires x.id in t1.groups && NoForwardClash(t1, updates)
    ensures t1.groups[x.id].name != updates[i].row.name
  {
    var j :| 0 <= j < |updates| && updates[j] == x;
    assert forall k :: 0 <= k < i ==> updates[..i][k].id in IDs(updates[..i]);
    assert j > i;
  }

  lemma NamesDiffer(groups: seq<Group>, a: Group, b: Group)
    requires GroupNamesDistinct(groups) && a in groups && b in groups && a.id != b.id
    ensures a.row.name != b.row.name
  {}

  lemma NotUpdated(groups: seq<Group>, updates: seq<Group>, skipped: Group)
    requires GroupIDsDistinct(groups) && skipped in groups && skipped !in updates
    requires forall u :: u in updates ==> u in groups
    ensures skipped.id !in IDs(updates)
  {
    forall i | 0 <= i < |updates|
      ensures updates[i].id != skipped.id
    {
      assert updates[i] in updates;
    }
  }

  lemma NamesDifferAt(t1: Tables, groups: seq<Group>, updates: seq<Group>, i: nat, j: nat)
    requires Sound(t1) && GroupIDsDistinct(groups) && GroupIDsDistinct(updates) && i < j < |groups|
    requires forall u :: u in groups && u !in updates ==> u.id in t1.groups && t1.groups[u.id] == u.row
    requires t1.groups.Keys == IDs(groups) && AllStepsFree(t1.groups, updates)
    requires forall u :: u in updates ==> u in groups
    ensures groups[i].row.name != groups[j].row.name
  {
    var a, b := groups[i], groups[j];
    if a in updates && b in updates {
      var k :| 0 <= k < |updates| && updates[k] == a;
      var l :| 0 <= l < |updates| && updates[l] == b;
      var first, last := if k < l then k else l, if k < l then l else k;
      assert StepFree(t1.groups, updates, last);
      assert updates[..last][first] == updates[first];
      WrittenAt(t1.groups, updates[..last], updates[first].id);
    } else if a in updates {
      SkippedDiffers(t1, groups, updates, a, b);
    } else if b in updates {
      SkippedDiffers(t1, groups, updates, b, a);
    }
  }

  lemma SkippedDiffers(t1: Tables, groups: seq<Group>, updates: seq<Group>, changed: Group, skipped: Group)
    requires GroupIDsDistinct(groups) && GroupIDsDistinct(updates) && AllStepsFree(t1.groups, updates)
    requires changed in updates && changed in groups && skipped in groups && skipped !in updates
    requires changed.id != skipped.id && skipped.id in t1.groups && t1.groups[skipped.id] == skipped.row
    requires forall u :: u in updates ==> u in groups
    ensures changed.row.name != skipped.row.name
  {
    var k :| 0 <= k < |updates| && updates[k] == changed;
    assert StepFree(t1.groups, updates, k);
    NotUpdated(groups, updates, skipped);
    assert IDs(updates[..k]) <= IDs(updates);
    WrittenAt(t1.groups, updates[..k], skipped.id);
  }

  /**
   The transaction commits exactly when the desired names are distinct and no update takes a name that a
   later update has yet to give up; it fails only by a name conflict. When it commits, the tables show the
   request: every listed group with its row and hosts, every new one under its key, and nothing else.
   */
  lemma ReconcileCommitsIff(t: Tables, current: seq<Group>, desired: seq<Desired>, keys: seq<int>)
    requires Plannable(t, current, desired, keys)
    ensures var plan := PlanFor(current, desired);
            var r := Apply(t, plan, keys);
            && (r.Ok? <==> NamesDistinct(desired) && NoForwardClash(t, plan.toUpdate))
            && (r.Err? ==> r == Err(HostGroupConflict))
            && (r.Ok? ==> Sound(r.value) && r.value.hosts == t.hosts && Image(r.value, desired, keys))
  {
    var plan, groups, drafts := PlanFor(current, desired), Existing(desired), New(desired);
    DeletePhase(t, current, desired, keys);
    var t1 := ApplyDeletes(t, plan.toDelete).value;
    UpdatesAre(t, t1, current, desired, keys);
    StepsFreeIff(t1, groups, plan.toUpdate);
    UpdatesCommit(t1, plan.toUpdate);
    NamesSplit(desired);
    SameClash(t, t1, groups, plan.toUpdate);
    if AllStepsFree(t1.groups, plan.toUpdate) {
      var t2 := ApplyUpdates(t1, plan.toUpdate).value;
      ListedAreWritten(t1, t2, groups, plan.toUpdate);
      DraftsKnown(t, desired);
      CreatesCommit(t2, drafts, keys);
      DraftsFreeIff(t2, groups, drafts);
      if DraftNamesFree(t2, drafts) {
        var t3 := ApplyCreates(t2, drafts, keys).value;
        ImageHolds(t2, t3, desired, keys);
      }
    }
  }

  lemma SameClash(t: Tables, t1: Tables, groups: seq<Group>, updates: seq<Group>)
    requires forall g :: g in IDs(groups) ==> SameGroup(t, t1, g)
    requires forall u :: u in updates ==> u in groups
    ensures NoForwardClash(t, updates) <==> NoForwardClash(t1, updates)
  {
    forall j | 0 <= j < |updates|
      ensures SameGroup(t, t1, updates[j].id)
    {
      assert updates[j] in updates;
      var k :| 0 <= k < |groups| && groups[k] == updates[j];
      assert groups[k].id in IDs(groups);
    }
  }

  /** After the update phase the table holds the listed groups as desired, updated or skipped. */
  lemma ListedAreWritten(t1: Tables, t2: Tables, groups: seq<Group>, updates: seq<Group>)
    requires GroupIDsDistinct(groups) && t1.groups.Keys == IDs(groups)
    requires forall u :: u in updates ==> u in groups
    requires forall u :: u in groups && u !in updates ==> HasGroup(t1, u.id, u.row, u.hosts)
    requires forall i :: 0 <= i < |updates| ==> HasGroup(t2, updates[i].id, updates[i].row, updates[i].hosts)
    requires forall g :: g !in IDs(updates) ==> SameGroup(t1, t2, g)
    ensures t2.groups.Keys == IDs(groups)
    ensures forall i :: 0 <= i < |groups| ==> HasGroup(t2, groups[i].id, groups[i].row, groups[i].hosts)
  {
    forall i | 0 <= i < |groups|
      ensures HasGroup(t2, groups[i].id, groups[i].row, groups[i].hosts)
    {
      if groups[i] in updates {
        var k :| 0 <= k < |updates| && updates[k] == groups[i];
      } else {
        NotUpdated(groups, updates, groups[i]);
        assert SameGroup(t1, t2, groups[i].id);
      }
    }
    forall g
      ensures g in t2.groups.Keys <==> g in IDs(groups)
    {
      if g in IDs(updates) {
        var k :| 0 <= k < |updates| && updates[k].id == g;
        assert updates[k] in updates;
      } else {
        assert SameGroup(t1, t2, g);
      }
    }
  }

  lemma DraftsKnown(t: Tables, desired: seq<Desired>)
    requires forall i :: 0 <= i < |desired| ==> HostsKnown(t, desired[i].hosts)
    ensures forall i :: 0 <= i < |New(desired)| ==> HostsKnown(t, New(desired)[i].hosts)
  {
    ExistingAre(desired);
    forall i | 0 <= i < |New(desired)|
      ensures HostsKnown(t, New(desired)[i].hosts)
    {
      var d := New(desired)[i];
      assert d in New(desired);
      var k :| 0 <= k < |desired| && desired[k] == Desired(None, d.row, d.hosts);
    }
  }

  lemma DraftsFreeIff(t2: Tables, groups: seq<Group>, drafts: seq<Draft>)
    requires t2.groups.Keys == IDs(groups)
    requires forall i :: 0 <= i < |groups| ==> HasGroup(t2, groups[i].id, groups[i].row, groups[i].hosts)
    ensures DraftNamesFree(t2, drafts) <==> DraftNamesDistinct(groups, drafts)
  {
    forall i, g | DraftNamesDistinct(groups, drafts) && 0 <= i < |drafts| && g in t2.groups
      ensures t2.groups[g].name != drafts[i].row.name
    {
      assert g in IDs(groups);
      var k :| 0 <= k < |groups| && groups[k].id == g;
      assert HasGroup(t2, groups[k].id, groups[k].row, groups[k].hosts);
    }
    forall i, j | DraftNamesFree(t2, drafts) && 0 <= i < |groups| && 0 <= j < |drafts|
      ensures groups[i].row.name != drafts[j].row.name
    {
      assert HasGroup(t2, groups[i].id, groups[i].row, groups[i].hosts);
    }
  }

  lemma ImageHolds(t2: Tables, t3: Tables, desired: seq<Desired>, keys: seq<int>)
    requires |keys| == |New(desired)| && Sound(t3) && t2.groups.Keys == IDs(Existing(desired))
    requires forall i :: 0 <= i < |keys| ==> keys[i] !in IDs(Existing(desired))
    requires forall i :: 0 <= i < |Existing(desired)| ==>
               HasGroup(t2, Existing(desired)[i].id, Existing(desired)[i].row, Existing(desired)[i].hosts)
    requires forall i :: 0 <= i < |keys| ==> HasGroup(t3, keys[i], New(desired)[i].row, New(desired)[i].hosts)
    requires forall g :: g !in keys ==> SameGroup(t2, t3, g)
    ensures Image(t3, desired, keys)
  {
    forall i | 0 <= i < |Existing(desired)|
      ensures var e := Existing(desired)[i]; HasGroup(t3, e.id, e.row, e.hosts)
    {
      var e := Existing(desired)[i];
      assert e.id in IDs(Existing(desired));
      assert SameGroup(t2, t3, e.id);
      assert HasGroup(t2, e.id, e.row, e.hosts);
    }
    forall g
      ensures g in t3.groups <==> g in IDs(Existing(desired)) || g in keys
    {
      if g !in keys {
        assert SameGroup(t2, t3, g);
        assert g in t2.groups.Keys <==> g in t2.groups;
      }
    }
  }

  /** Leaving a group of the same definition out of the updates changes nothing: updating it would have no effect. */
  lemma SkippedUpdateIsNoOp(t: Tables, current: seq<Group>, i: nat, g: Group)
    requires Sound(t) && IsListing(t, current) && i < |current| && g.id == current[i].id
    requires SameDefinition(current[i], g)
    ensures UpdateHostGroup(t, g.id, g.row, g.hosts) == Ok(t)
  {
    assert HasGroup(t, current[i].id, current[i].row, current[i].hosts);
    forall k | 0 <= k < |g.hosts|
      ensures g.hosts[k] in t.hosts
    {
      MemberOf(t, g, k);
    }
    WriteGroup(t, g.id, g.row, g.hosts);
    var t' := UpdateHostGroup(t, g.id, g.row, g.hosts).value;
    assert t'.groups == t.groups;
    forall k, h
      ensures (k, h) in t'.members <==> (k, h) in t.members
    {
      if k == g.id {
        assert HasGroup(t', k, g.row, g.hosts) && HasGroup(t, k, g.row, g.hosts);
      }
    }
    SamePairs(t.members, t'.members);
  }

  lemma MemberOf(t: Tables, g: Group, k: nat)
    requires HasGroup(t, g.id, g.row, g.hosts) && k < |g.hosts|
    ensures (g.id, g.hosts[k]) in t.members
  {
    var h := g.hosts[k];
    assert h in g.hosts;
  }

  lemma SamePairs(s: set<(int, int)>, s': set<(int, int)>)
    requires forall k, h :: (k, h) in s' <==> (k, h) in s
    ensures s == s'
  {
    forall m
      ensures m in s' <==> m in s
    {
      var k, h := m.0, m.1;
      assert m == (k, h);
    }
  }

  /** Two groups that exchange names never commit, in either order. */
  lemma SwapFails(t: Tables, current: seq<Group>, desired: seq<Desired>, keys: seq<int>, i: nat, j: nat)
    requires Plannable(t, current, desired, keys)
    requires i < j < |PlanFor(current, desired).toUpdate|
    requires var u := PlanFor(current, desired).toUpdate;
             && u[i].id in t.groups && u[j].id in t.groups
             && t.groups[u[i].id].name == u[j].row.name && t.groups[u[j].id].name == u[i].row.name
    ensures Apply(t, PlanFor(current, desired), keys) == Err(HostGroupConflict)
  {
    ReconcileCommitsIff(t, current, desired, keys);
  }

  lemma ByIDAt(t: Tables, current: seq<Group>, id: int)
    requires IsListing(t, current) && id in t.groups
    ensures id in ByID(current) && ByID(current)[id].row == t.groups[id]
  {
    ByIDLists(current);
    var i :| 0 <= i < |current| && current[i].id == id;
    assert HasGroup(t, current[i].id, current[i].row, current[i].hosts);
  }

  ghost predicate Changes(t: Tables, d: Desired) {
    d.id.Some? && d.id.value in t.groups && d.row != t.groups[d.id.value]
  }

  function AsGroup(d: Desired): Group
    requires d.id.Some?
  {
    Group(d.id.value, d.row, d.hosts)
  }

  lemma ChangesIsPlanned(t: Tables, current: seq<Group>, desired: seq<Desired>, i: nat)
    requires IsListing(t, current) && i < |desired| && Changes(t, desired[i])
    ensures var byID := ByID(current);
            && New(desired[..i + 1]) == New(desired[..i])
            && Changed(byID, Existing(desired[..i + 1])) == Changed(byID, Existing(desired[..i])) + [AsGroup(desired[i])]
  {
    ByIDAt(t, current, desired[i].id.value);
    PlanStep(ByID(current), desired, i);
  }

  /** The plan for a request of two groups that both change. */
  lemma {:induction false} TwoUpdates(t: Tables, current: seq<Group>, desired: seq<Desired>)
    requires IsListing(t, current) && |desired| == 2 && Changes(t, desired[0]) && Changes(t, desired[1])
    ensures PlanFor(current, desired).toUpdate == [AsGroup(desired[0]), AsGroup(desired[1])] && New(desired) == []
  {
    OneUpdate(t, current, desired);
    ChangesIsPlanned(t, current, desired, 1);
    Whole(desired);
  }

  lemma Whole(desired: seq<Desired>)
    requires |desired| == 2
    ensures desired[..1 + 1] == desired
  {}

  lemma {:induction false} OneUpdate(t: Tables, current: seq<Group>, desired: seq<Desired>)
    requires IsListing(t, current) && desired != [] && Changes(t, desired[0])
    ensures Changed(ByID(current), Existing(desired[..1])) == [AsGroup(desired[0])] && New(desired[..1]) == []
  {
    ChangesIsPlanned(t, current, desired, 0);
    NothingPlanned(ByID(current), desired[..0]);
  }

  lemma NothingPlanned(byID: map<int, Group>, none: seq<Desired>)
    requires none == []
    ensures New(none) == [] && Changed(byID, Existing(none)) == []
  {}

  lemma TwoCommitIff(t: Tables, current: seq<Group>, desired: seq<Desired>)
    requires Plannable(t, current, desired, []) && |desired| == 2 && Changes(t, desired[0]) && Changes(t, desired[1])
    ensures |New(desired)| == 0
    ensures var r := Apply(t, PlanFor(current, desired), []);
            && (r.Ok? <==> desired[0].row.name != desired[1].row.name
                           && desired[0].row.name != t.groups[desired[1].id.value].name)
            && (r.Err? ==> r == Err(HostGroupConflict))
  {
    TwoUpdates(t, current, desired);
    TwoNames(t, desired);
    ReconcileCommitsIff(t, current, desired, []);
  }

  lemma TwoNames(t: Tables, desired: seq<Desired>)
    requires |desired| == 2 && Changes(t, desired[0]) && Changes(t, desired[1])
    ensures NamesDistinct(desired) <==> desired[0].row.name != desired[1].row.name
    ensures NoForwardClash(t, [AsGroup(desired[0]), AsGroup(desired[1])])
            <==> desired[0].row.name != t.groups[desired[1].id.value].name
  {
    var updates := [AsGroup(desired[0]), AsGroup(desired[1])];
    assert updates[0].row == desired[0].row && updates[1].id == desired[1].id.value;
  }

  /**
   A group takes the name of another, which takes a new one: whether the transaction commits is decided by
   the order of the request alone.
   */
  lemma OrderDecides(t: Tables, current: seq<Group>, one: Desired, two: Desired)
    requires Plannable(t, current, [one, two], []) && Plannable(t, current, [two, one], [])
    requires Changes(t, one) && Changes(t, two) && one.row.name == t.groups[two.id.value].name
    requires two.row.name != t.groups[one.id.value].name && two.row.name != t.groups[two.id.value].name
    ensures Apply(t, PlanFor(current, [one, two]), []) == Err(HostGroupConflict)
    ensures Apply(t, PlanFor(current, [two, one]), []).Ok?
  {
    TwoCommitIff(t, current, [one, two]);
    TwoCommitIff(t, current, [two, one]);
  }

  // ---- the service ----

  /** Some host that the request mentions does not exist. */
  ghost predicate UnknownHost(hosts: map<int, string>, desired: seq<Desired>) {
    exists i, k :: 0 <= i < |desired| && 0 <= k < |desired[i].hosts| && desired[i].hosts[k] !in hosts
  }

  /** validateReferencedHosts: the mentioned ids are gathered and all looked up together. */
  method ValidateReferencedHosts(store: Store, desired: seq<Desired>) returns (err: Option<Error>)
    ensures err == if UnknownHost(store.hosts, desired) then Some(ReferenceNotFound) else None
  {
    var mentioned: set<int> := {};
    for i := 0 to |desired|
      invariant forall h :: h in mentioned <==> exists j :: 0 <= j < i && h in desired[j].hosts
    {
      mentioned := mentioned + (set h | h in desired[i].hosts);
    }
    if h :| h in mentioned && h !in store.hosts {
      ghost var i :| 0 <= i < |desired| && h in desired[i].hosts;
      ghost var k :| 0 <= k < |desired[i].hosts| && desired[i].hosts[k] == h;
      return Some(ReferenceNotFound);
    }
    forall i, k | 0 <= i < |desired| && 0 <= k < |desired[i].hosts|
      ensures desired[i].hosts[k] in store.hosts
    {
      var h := desired[i].hosts[k];
      assert h in desired[i].hosts && h in mentioned;
    }
    err := None;
  }

  /** The transaction's three loops; any error rolls the tables back. */
  method RunPlan(store: Store, plan: Plan, keys: seq<int>) returns (err: Option<Error>)
    requires |keys| == |plan.toCreate|
    modifies store
    ensures match Apply(old(store.Now()), plan, keys)
            case Ok(t) => err == None && store.Now() == t
            case Err(e) => err == Some(e) && store.Now() == old(store.Now())
  {
    var hosts, groups, members := store.hosts, store.groups, store.members;
    for i := 0 to |plan.toDelete|
      invariant ApplyDeletes(store.Now(), plan.toDelete[i..]) == ApplyDeletes(old(store.Now()), plan.toDelete)
    {
      assert plan.toDelete[i..][1..] == plan.toDelete[i + 1..];
      err := store.DeleteGroup(plan.toDelete[i]);
      if err.Some? {
        store.hosts, store.groups, store.members := hosts, groups, members;
        return;
      }
    }
    ghost var t1 := store.Now();
    for i := 0 to |plan.toUpdate|
      invariant ApplyDeletes(old(store.Now()), plan.toDelete) == Ok(t1)
      invariant ApplyUpdates(store.Now(), plan.toUpdate[i..]) == ApplyUpdates(t1, plan.toUpdate)
    {
      assert plan.toUpdate[i..][1..] == plan.toUpdate[i + 1..];
      err := store.UpdateGroup(plan.toUpdate[i].id, plan.toUpdate[i].row, plan.toUpdate[i].hosts);
      if err.Some? {
        store.hosts, store.groups, store.members := hosts, groups, members;
        return;
      }
    }
    ghost var t2 := store.Now();
    for i := 0 to |plan.toCreate|
      invariant ApplyDeletes(old(store.Now()), plan.toDelete) == Ok(t1) && ApplyUpdates(t1, plan.toUpdate) == Ok(t2)
      invariant ApplyCreates(store.Now(), plan.toCreate[i..], keys[i..]) == ApplyCreates(t2, plan.toCreate, keys)
    {
      assert plan.toCreate[i..][1..] == plan.toCreate[i + 1..] && keys[i..][1..] == keys[i + 1..];
      err := store.CreateGroup(plan.toCreate[i].row, plan.toCreate[i].hosts, keys[i]);
      if err.Some? {
        store.hosts, store.groups, store.members := hosts, groups, members;
        return;
      }
    }
    err := None;
  }

  /** A normalised request that nothing stands against: what a caller can check beforehand. */
  ghost predicate Acceptable(t: Tables, current: seq<Group>, desired: seq<Desired>) {
    && Faultless(desired) && !UnknownHost(t.hosts, desired) && IDs(Existing(desired)) <= IDs(current)
    && NamesDistinct(desired) && NoForwardClash(t, PlanFor(current, desired).toUpdate)
  }

  lemma AllHostsKnown(t: Tables, desired: seq<Desired>)
    requires Prepared(desired) && !UnknownHost(t.hosts, desired)
    ensures forall i :: 0 <= i < |desired| ==> HostsKnown(t, desired[i].hosts)
  {}

  /**
   ReconcileHostGroups, given the listing the query returned and the keys the database will assign. It
   either leaves the tables as the request describes them or leaves them alone.
   */
  method ReconcileHostGroups(store: Store, request: array<Desired>, current: seq<Group>, keys: seq<int>)
    returns (err: Option<Error>)
    requires Sound(store.Now()) && IsListing(store.Now(), current) && Distinct(keys)
    requires |keys| == |New(AllNormalised(request[..]))|
    requires forall i :: 0 <= i < |keys| ==> keys[i] !in IDs(Existing(AllNormalised(request[..])))
    modifies store, request
    ensures err == None ==>
              && request[..] == AllNormalised(old(request[..])) && Sound(store.Now())
              && store.hosts == old(store.hosts) && Image(store.Now(), request[..], keys)
    ensures err.Some? ==> store.Now() == old(store.Now())
    ensures err == None <==> Acceptable(old(store.Now()), current, AllNormalised(old(request[..])))
  {
    err := Prepare(request);
    if err.Some? {
      return;
    }
    var desired := request[..];
    err := ValidateReferencedHosts(store, desired);
    if err.Some? {
      return;
    }
    var plan := BuildPlan(current, desired);
    if plan.Err? {
      return Some(plan.error);
    }
    WhenPlanned(store.Now(), current, desired, keys);
    err := RunPlan(store, plan.value, keys);
  }

  lemma WhenPlanned(t: Tables, current: seq<Group>, desired: seq<Desired>, keys: seq<int>)
    requires Sound(t) && IsListing(t, current) && Prepared(desired) && !UnknownHost(t.hosts, desired)
    requires IDs(Existing(desired)) <= IDs(current) && |keys| == |New(desired)| && Distinct(keys)
    requires forall i :: 0 <= i < |keys| ==> keys[i] !in IDs(Existing(desired))
    ensures var r := Apply(t, PlanFor(current, desired), keys);
            && (r.Ok? <==> NamesDistinct(desired) && NoForwardClash(t, PlanFor(current, desired).toUpdate))
            && (r.Ok? ==> Sound(r.value) && r.value.hosts == t.hosts && Image(r.value, desired, keys))
  {
    AllHostsKnown(t, desired);
    ReconcileCommitsIff(t, current, desired, keys);
  }
}
