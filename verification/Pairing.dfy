/** Device pairing codes: a code is created pending, and redeemed at most once for a new API key. */
module Pairing {
  import opened Common
  import opened Registry
  import opened RegistryStore

  /** The statuses kept in the table. */
  datatype Stored = Pending | Used | Invalidated | Replaced

  /** The statuses shown: a stored one, or expired. */
  datatype Status = Is(stored: Stored) | Expired

  datatype Row = Row(device: int, code: string, expiresAt: int, stored: Stored)

  datatype PairingError = CodeTaken | NoSuchDevice | NotFound | NotClaimable | PairingExpired | KeyFailed

  /** A redemption: the code presented and the key handed out for it. */
  datatype Claim = Claim(code: string, key: string)

  datatype State = State(registry: Tables, rows: map<int, Row>, issued: seq<Claim>)

  /** EvalStatus, at a reading of the clock. */
  function EvalStatus(row: Row, now: int): Status {
    if row.stored == Pending && now > row.expiresAt then Expired else Is(row.stored)
  }

  function ReplacePending(rows: map<int, Row>, device: int): map<int, Row> {
    map id | id in rows ::
      if rows[id].device == device && rows[id].stored == Pending then rows[id].(stored := Replaced) else rows[id]
  }

  predicate CodeInUse(rows: map<int, Row>, code: string) {
    exists id :: id in rows && rows[id].code == code
  }

  ghost predicate CodesUnique(rows: map<int, Row>) {
    forall i, j :: i in rows && j in rows && rows[i].code == rows[j].code ==> i == j
  }

  /** `id` is the key the database gives the row; the device of the foreign key may be deleted, but must exist. */
  function Create(s: State, device: int, code: string, expiresAt: int, id: int): Result<State, PairingError> {
    if device !in s.registry.devices then Err(NoSuchDevice)
    else if CodeInUse(s.rows, code) then Err(CodeTaken)
    else Ok(s.(rows := ReplacePending(s.rows, device)[id := Row(device, code, expiresAt, Pending)]))
  }

  /**
   ClaimPairing. The clock is read twice, once to derive the status and once for the expiry; `key` is the
   key RegenerateAPIKey makes. The final update is by id alone.
   */
  ghost function ClaimCode(s: State, code: string, seen: int, now: int, key: string): Result<State, PairingError> {
    if !CodeInUse(s.rows, code) then Err(NotFound)
    else
      var id :| id in s.rows && s.rows[id].code == code;
      ClaimRow(s, id, seen, now, key)
  }

  function ClaimRow(s: State, id: int, seen: int, now: int, key: string): Result<State, PairingError>
    requires id in s.rows
  {
    var row := s.rows[id];
    if EvalStatus(row, seen) != Is(Pending) then Err(NotClaimable)
    else if row.expiresAt <= now then Err(PairingExpired)
    else
      match RegenerateAPIKey(s.registry, row.device, key)
      case Failed(_) => Err(KeyFailed)
      case Committed(t, _) =>
        Ok(State(t, s.rows[id := row.(stored := Used)], s.issued + [Claim(row.code, key)]))
  }

  function Invalidate(s: State, device: int, id: int): Result<State, PairingError> {
    if id !in s.rows || s.rows[id].device != device || s.rows[id].stored != Pending then Err(NotFound)
    else Ok(s.(rows := s.rows[id := s.rows[id].(stored := Invalidated)]))
  }

  datatype PairingStep =
    | DoCreate(device: int, code: string, expiresAt: int, id: int)
    | DoClaim(presented: string, seen: int, now: int, key: string)
    | DoInvalidate(owner: int, row: int)
    | DoRegistry(step: Step)

  ghost function Do(s: State, step: PairingStep): Result<State, PairingError> {
    match step
    case DoCreate(device, code, expiresAt, id) => Create(s, device, code, expiresAt, id)
    case DoClaim(code, seen, now, key) => ClaimCode(s, code, seen, now, key)
    case DoInvalidate(device, id) => Invalidate(s, device, id)
    case DoRegistry(r) => Ok(s.(registry := Registry.Next(s.registry, r)))
  }

  ghost function NextState(s: State, step: PairingStep): State {
    var r := Do(s, step);
    if r.Ok? then r.value else s
  }

  /** The database assigns an unused key, and the second reading of the clock is no earlier than the first. */
  ghost predicate CanDo(s: State, step: PairingStep) {
    match step
    case DoCreate(_, _, _, id) => id !in s.rows
    case DoClaim(_, seen, now, _) => seen <= now
    case DoInvalidate(_, _) => true
    case DoRegistry(r) => Possible(s.registry, r)
  }

  ghost predicate CanRun(s: State, steps: seq<PairingStep>)
    decreases |steps|
  {
    steps == [] || (CanDo(s, steps[0]) && CanRun(NextState(s, steps[0]), steps[1..]))
  }

  ghost function RunAll(s: State, steps: seq<PairingStep>): State
    decreases |steps|
  {
    if steps == [] then s else RunAll(NextState(s, steps[0]), steps[1..])
  }

  predicate BothPending(a: Row, b: Row) {
    a.device == b.device && a.stored == Pending && b.stored == Pending
  }

  ghost predicate OnePending(rows: map<int, Row>) {
    forall i, j :: i in rows && j in rows && BothPending(rows[i], rows[j]) ==> i == j
  }

  ghost predicate IsUsed(rows: map<int, Row>, code: string) {
    exists id :: id in rows && rows[id].code == code && rows[id].stored == Used
  }

  ghost predicate HasKey(issued: seq<Claim>, code: string) {
    exists k :: 0 <= k < |issued| && issued[k].code == code
  }

  /** The codes that have had a key are the used ones, and no code has had two. */
  ghost predicate OneKeyPerCode(s: State) {
    && (forall code :: HasKey(s.issued, code) <==> IsUsed(s.rows, code))
    && (forall k, l :: 0 <= k < l < |s.issued| ==> s.issued[k].code != s.issued[l].code)
  }

  ghost predicate PairingInv(s: State) {
    CodesUnique(s.rows) && OnePending(s.rows) && OneKeyPerCode(s)
  }

  const START := State(Registry.EMPTY, map[], [])

  lemma CreateKeepsInv(s: State, device: int, code: string, expiresAt: int, id: int)
    requires PairingInv(s) && id !in s.rows
    ensures var r := Create(s, device, code, expiresAt, id); r.Ok? ==> PairingInv(r.value)
  {
    var r := Create(s, device, code, expiresAt, id);
    if r.Ok? {
      var s' := r.value;
      forall c
        ensures IsUsed(s'.rows, c) <==> IsUsed(s.rows, c)
      {
        if IsUsed(s.rows, c) {
          var i :| i in s.rows && s.rows[i].code == c && s.rows[i].stored == Used;
          assert s'.rows[i] == s.rows[i];
        }
      }
    }
  }

  /** A state where row id has moved from pending, as the only change to the rows. */
  lemma SettleKeepsInv(s: State, s': State, id: int, stored: Stored, key: string)
    requires PairingInv(s) && id in s.rows && s.rows[id].stored == Pending && stored != Pending
    requires s'.rows == s.rows[id := s.rows[id].(stored := stored)]
    requires s'.issued == s.issued + if stored == Used then [Claim(s.rows[id].code, key)] else []
    ensures PairingInv(s')
  {
    var code := s.rows[id].code;
    forall c
      ensures IsUsed(s'.rows, c) <==> IsUsed(s.rows, c) || (stored == Used && c == code)
    {
      if IsUsed(s.rows, c) {
        var i :| i in s.rows && s.rows[i].code == c && s.rows[i].stored == Used;
        assert s'.rows[i] == s.rows[i];
      }
      assert s'.rows[id].code == code;
    }
    forall c
      ensures HasKey(s'.issued, c) <==> HasKey(s.issued, c) || (stored == Used && c == code)
    {
      if HasKey(s.issued, c) {
        var k :| 0 <= k < |s.issued| && s.issued[k].code == c;
        assert s'.issued[k] == s.issued[k];
      }
      if stored == Used {
        assert s'.issued[|s.issued|].code == code;
      }
    }
    assert !IsUsed(s.rows, code);
    assert !HasKey(s.issued, code);
  }

  lemma StepKeepsPairingInv(s: State, step: PairingStep)
    requires PairingInv(s) && CanDo(s, step)
    ensures PairingInv(NextState(s, step))
  {
    match step
    case DoCreate(device, code, expiresAt, id) => CreateKeepsInv(s, device, code, expiresAt, id);
    case DoClaim(code, seen, now, key) =>
      var s' := NextState(s, step);
      if s' != s {
        var id :| id in s.rows && s.rows[id].code == code;
        assert ClaimCode(s, code, seen, now, key) == ClaimRow(s, id, seen, now, key);
        assert s'.issued == s.issued + [Claim(s.rows[id].code, key)];
        SettleKeepsInv(s, s', id, Used, key);
      }
    case DoInvalidate(device, id) =>
      if Invalidate(s, device, id).Ok? {
        SettleKeepsInv(s, NextState(s, step), id, Invalidated, "");
      }
    case DoRegistry(r) =>
  }

  /** Over every run: one stored-pending pairing a device, unique codes, and one key for each used code alone. */
  lemma {:induction false} RunKeepsPairingInv(s: State, steps: seq<PairingStep>)
    requires PairingInv(s) && CanRun(s, steps)
    ensures PairingInv(RunAll(s, steps))
    decreases |steps|
  {
    if steps != [] {
      StepKeepsPairingInv(s, steps[0]);
      RunKeepsPairingInv(NextState(s, steps[0]), steps[1..]);
    }
  }

  /** Claims and registry steps together keep the registry's own invariant. */
  lemma {:induction false} RunKeepsRegistryInv(s: State, steps: seq<PairingStep>)
    requires Inv(s.registry) && CanRun(s, steps)
    ensures Inv(RunAll(s, steps).registry)
    decreases |steps|
  {
    if steps != [] {
      StepKeepsRegistryInv(s, steps[0]);
      RunKeepsRegistryInv(NextState(s, steps[0]), steps[1..]);
    }
  }

  lemma StepKeepsRegistryInv(s: State, step: PairingStep)
    requires Inv(s.registry) && CanDo(s, step)
    ensures Inv(NextState(s, step).registry)
  {
    match step
    case DoClaim(code, seen, now, key) =>
      if NextState(s, step) != s {
        ClaimRotatesKey(s, code, seen, now, key);
      }
    case DoRegistry(r) => StepKeepsInv(s.registry, r);
    case _ =>
  }

  lemma ClaimRotatesKey(s: State, code: string, seen: int, now: int, key: string)
    requires ClaimCode(s, code, seen, now, key).Ok?
    ensures exists d :: ClaimCode(s, code, seen, now, key).value.registry == Registry.Next(s.registry, StepRegenerateKey(d, key))
  {
    forall id | id in s.rows && ClaimRow(s, id, seen, now, key).Ok?
      ensures ClaimRow(s, id, seen, now, key).value.registry
           == Registry.Next(s.registry, StepRegenerateKey(s.rows[id].device, key))
    {}
  }

  /** From an empty system, no run hands out two keys for one code. */
  lemma CodesAreSingleUse(steps: seq<PairingStep>, k: nat, l: nat)
    requires CanRun(START, steps) && k < |RunAll(START, steps).issued| && l < |RunAll(START, steps).issued|
    requires RunAll(START, steps).issued[k].code == RunAll(START, steps).issued[l].code
    ensures k == l
  {
    RunKeepsPairingInv(START, steps);
  }

  /** A row that has left pending. */
  predicate Settled(s: State, id: int) {
    id in s.rows && s.rows[id].stored != Pending
  }

  lemma SettledStep(s: State, step: PairingStep, id: int)
    requires PairingInv(s) && CanDo(s, step) && Settled(s, id)
    ensures var s' := NextState(s, step); id in s'.rows && s'.rows[id] == s.rows[id]
  {
    match step
    case DoClaim(code, seen, now, key) =>
      if NextState(s, step) != s {
        var i :| i in s.rows && s.rows[i].code == code;
        assert ClaimCode(s, code, seen, now, key) == ClaimRow(s, i, seen, now, key);
      }
    case _ =>
  }

  /** A pairing leaves pending at most once: after that its row never changes again. */
  lemma {:induction false} SettledForever(s: State, steps: seq<PairingStep>, id: int)
    requires PairingInv(s) && CanRun(s, steps) && Settled(s, id)
    ensures var s' := RunAll(s, steps); id in s'.rows && s'.rows[id] == s.rows[id]
    decreases |steps|
  {
    if steps != [] {
      SettledStep(s, steps[0], id);
      StepKeepsPairingInv(s, steps[0]);
      SettledForever(NextState(s, steps[0]), steps[1..], id);
    }
  }

  ghost predicate Claimable(s: State, row: Row, now: int) {
    row.stored == Pending && now < row.expiresAt && Active(s.registry, row.device)
  }

  /**
   A claim succeeds exactly on a stored-pending code, strictly before its expiry, of a live device. It then
   marks that row used and gives the device the key; otherwise it changes nothing.
   */
  lemma ClaimSucceedsIff(s: State, code: string, seen: int, now: int, key: string)
    requires PairingInv(s) && seen <= now
    ensures ClaimCode(s, code, seen, now, key).Ok? <==>
              exists id :: id in s.rows && s.rows[id].code == code && Claimable(s, s.rows[id], now)
    ensures forall id :: id in s.rows && s.rows[id].code == code && Claimable(s, s.rows[id], now) ==>
              NextState(s, DoClaim(code, seen, now, key))
              == State(s.registry.(keys := s.registry.keys[s.rows[id].device := key]),
                       s.rows[id := s.rows[id].(stored := Used)], s.issued + [Claim(code, key)])
    ensures ClaimCode(s, code, seen, now, key).Err? ==> NextState(s, DoClaim(code, seen, now, key)) == s
  {
    if CodeInUse(s.rows, code) {
      var id :| id in s.rows && s.rows[id].code == code;
      assert ClaimCode(s, code, seen, now, key) == ClaimRow(s, id, seen, now, key);
    }
  }

  /** How a claim fails on a code that exists: settled, or past or at its expiry, or without a live device. */
  lemma ClaimFailure(s: State, id: int, seen: int, now: int, key: string)
    requires PairingInv(s) && seen <= now && id in s.rows
    ensures var row, r := s.rows[id], ClaimCode(s, s.rows[id].code, seen, now, key);
            && (r == Err(NotClaimable) <==> row.stored != Pending || seen > row.expiresAt)
            && (r == Err(PairingExpired) <==> row.stored == Pending && seen <= row.expiresAt <= now)
            && (r == Err(KeyFailed) <==> row.stored == Pending && now < row.expiresAt && !Active(s.registry, row.device))
            && r != Err(NotFound)
  {
    assert CodeInUse(s.rows, s.rows[id].code);
    assert ClaimCode(s, s.rows[id].code, seen, now, key) == ClaimRow(s, id, seen, now, key);
  }

  /** Creating a pairing leaves it the device's only pending one. */
  lemma CreateLeavesOnePending(s: State, device: int, code: string, expiresAt: int, id: int)
    requires PairingInv(s) && id !in s.rows && Create(s, device, code, expiresAt, id).Ok?
    ensures var s' := Create(s, device, code, expiresAt, id).value;
            && (forall i :: i in s'.rows && s'.rows[i].device == device ==> (s'.rows[i].stored == Pending <==> i == id))
            && s'.rows[id] == Row(device, code, expiresAt, Pending) && s'.rows.Keys == s.rows.Keys + {id}
            && (forall i :: i in s.rows ==>
                  s'.rows[i] == if s.rows[i].device == device && s.rows[i].stored == Pending
                                then s.rows[i].(stored := Replaced) else s.rows[i])
            && s'.issued == s.issued && s'.registry == s.registry
  {}

  /** A pairing is created exactly for a device that exists and under a code that no pairing has had. */
  lemma CreateSucceedsIff(s: State, device: int, code: string, expiresAt: int, id: int)
    ensures var r := Create(s, device, code, expiresAt, id);
            && (r.Ok? <==> device in s.registry.devices && forall i :: i in s.rows ==> s.rows[i].code != code)
            && (r == Err(NoSuchDevice) <==> device !in s.registry.devices)
            && (r.Err? ==> r.error == NoSuchDevice || r.error == CodeTaken)
  {}

  /** Row id offers this code, until this time, to this device. */
  ghost predicate Offers(s: State, id: int, device: int, code: string, expiresAt: int) {
    id in s.rows && s.rows[id] == Row(device, code, expiresAt, Pending)
  }

  /** The step neither settles the pairing nor replaces it. */
  ghost predicate LetsStand(s: State, step: PairingStep, id: int, device: int, code: string) {
    || Do(s, step).Err?
    || match step
       case DoCreate(d, _, _, _) => d != device
       case DoClaim(presented, _, _, _) => presented != code
       case DoInvalidate(_, row) => row != id
       case DoRegistry(_) => true
  }

  ghost predicate StandingRun(s: State, steps: seq<PairingStep>, id: int, device: int, code: string)
    decreases |steps|
  {
    steps == []
    || (&& CanDo(s, steps[0]) && LetsStand(s, steps[0], id, device, code)
        && StandingRun(NextState(s, steps[0]), steps[1..], id, device, code))
  }

  lemma StandsStep(s: State, step: PairingStep, id: int, device: int, code: string, expiresAt: int)
    requires PairingInv(s) && Offers(s, id, device, code, expiresAt)
    requires CanDo(s, step) && LetsStand(s, step, id, device, code)
    ensures Offers(NextState(s, step), id, device, code, expiresAt)
  {
    match step
    case DoClaim(presented, seen, now, key) =>
      if NextState(s, step) != s {
        var i :| i in s.rows && s.rows[i].code == presented;
        assert ClaimCode(s, presented, seen, now, key) == ClaimRow(s, i, seen, now, key);
      }
    case _ =>
  }

  /** While it stands, a claim of its code succeeds exactly before the expiry and for a live device, with its key. */
  lemma {:induction false} StandingIsClaimable(
    s: State, steps: seq<PairingStep>, id: int, device: int, code: string, expiresAt: int, seen: int, now: int, key: string)
    requires PairingInv(s) && Offers(s, id, device, code, expiresAt)
    requires StandingRun(s, steps, id, device, code) && seen <= now
    ensures var s' := RunAll(s, steps);
            var claimed := NextState(s', DoClaim(code, seen, now, key));
            && (ClaimCode(s', code, seen, now, key).Ok? <==> now < expiresAt && Active(s'.registry, device))
            && (ClaimCode(s', code, seen, now, key).Ok? ==>
                  claimed.registry == s'.registry.(keys := s'.registry.keys[device := key])
                  && claimed.issued == s'.issued + [Claim(code, key)])
    decreases |steps|
  {
    if steps == [] {
      ClaimSucceedsIff(s, code, seen, now, key);
    } else {
      StandsStep(s, steps[0], id, device, code, expiresAt);
      StepKeepsPairingInv(s, steps[0]);
      StandingIsClaimable(NextState(s, steps[0]), steps[1..], id, device, code, expiresAt, seen, now, key);
    }
  }

  /**
   What a pairing is for: once created, and until it is settled or replaced, its code can be claimed exactly
   before the expiry that was asked for and while the device lives, and gives the key to that device.
   */
  lemma CreatedIsClaimable(
    s: State, device: int, code: string, expiresAt: int, id: int, steps: seq<PairingStep>, seen: int, now: int, key: string)
    requires PairingInv(s) && id !in s.rows && Create(s, device, code, expiresAt, id).Ok? && seen <= now
    requires StandingRun(NextState(s, DoCreate(device, code, expiresAt, id)), steps, id, device, code)
    ensures var s' := RunAll(NextState(s, DoCreate(device, code, expiresAt, id)), steps);
            var claimed := NextState(s', DoClaim(code, seen, now, key));
            && (ClaimCode(s', code, seen, now, key).Ok? <==> now < expiresAt && Active(s'.registry, device))
            && (ClaimCode(s', code, seen, now, key).Ok? ==>
                  claimed.registry == s'.registry.(keys := s'.registry.keys[device := key])
                  && claimed.issued == s'.issued + [Claim(code, key)])
  {
    CreateKeepsInv(s, device, code, expiresAt, id);
    var s1 := NextState(s, DoCreate(device, code, expiresAt, id));
    StandingIsClaimable(s1, steps, id, device, code, expiresAt, seen, now, key);
  }

  /** An invalidation succeeds exactly on a stored-pending pairing of the device, and leaves it unclaimable. */
  lemma InvalidateSucceedsIff(s: State, device: int, id: int, seen: int, now: int, key: string)
    requires PairingInv(s) && seen <= now
    ensures var r := Invalidate(s, device, id);
            && (r.Ok? <==> id in s.rows && s.rows[id].device == device && s.rows[id].stored == Pending)
            && (r.Ok? ==> r.value.registry == s.registry && r.value.issued == s.issued
                          && ClaimCode(r.value, s.rows[id].code, seen, now, key).Err?
                          && r.value.rows == s.rows[id := s.rows[id].(stored := Invalidated)])
  {
    var r := Invalidate(s, device, id);
    if r.Ok? {
      SettleKeepsInv(s, r.value, id, Invalidated, "");
      ClaimSucceedsIff(r.value, s.rows[id].code, seen, now, key);
    }
  }

  /** The service over its table, with the device registry it rotates keys in. */
  class Service {
    const registry: Store
    var rows: map<int, Row>
    ghost var issued: seq<Claim>

    ghost function Now(): State
      reads this, registry
    {
      State(registry.Now(), rows, issued)
    }

    twostate predicate Did(new spec: Result<State, PairingError>, new answer: Option<PairingError>)
      reads this, registry
    {
      match spec
      case Ok(s) => answer == None && Now() == s
      case Err(e) => answer == Some(e) && Now() == old(Now())
    }

    constructor (registry: Store)
      ensures this.registry == registry && rows == map[] && issued == []
    {
      this.registry, rows, issued := registry, map[], [];
    }

    /** ReplacePendingPairings, row by row. */
    method ReplacePendingPairings(device: int)
      modifies this`rows
      ensures rows == ReplacePending(old(rows), device)
    {
      var todo := rows.Keys;
      while |todo| > 0
        invariant todo <= rows.Keys == old(rows).Keys
        invariant forall i :: i in rows ==>
          rows[i] == if i in todo then old(rows)[i] else ReplacePending(old(rows), device)[i]
      {
        if i :| i in todo {
          if rows[i].device == device && rows[i].stored == Pending {
            rows := rows[i := rows[i].(stored := Replaced)];
          }
          todo := todo - {i};
        } else {
          break;
        }
      }
      assert rows.Keys == ReplacePending(old(rows), device).Keys;
      assert forall i :: i in rows ==> rows[i] == ReplacePending(old(rows), device)[i];
    }

    method CreatePairing(device: int, code: string, expiresAt: int, id: int) returns (err: Option<PairingError>)
      modifies this`rows
      ensures Did(Create(old(Now()), device, code, expiresAt, id), err)
    {
      var rows0 := rows;
      ReplacePendingPairings(device);
      if device !in registry.devices {
        rows := rows0;
        return Some(NoSuchDevice);
      }
      if i :| i in rows && rows[i].code == code {
        assert rows0[i].code == code;
        rows := rows0;
        return Some(CodeTaken);
      }
      assert forall i :: i in rows0 ==> rows[i].code == rows0[i].code;
      rows := rows[id := Row(device, code, expiresAt, Pending)];
      err := None;
    }

    method ClaimPairing(code: string, seen: int, now: int, key: string) returns (err: Option<PairingError>)
      requires CodesUnique(rows)
      modifies this, registry`keys
      ensures Did(ClaimCode(old(Now()), code, seen, now, key), err)
    {
      if id :| id in rows && rows[id].code == code {
        assert ClaimCode(Now(), code, seen, now, key) == ClaimRow(Now(), id, seen, now, key);
        var row := rows[id];
        if EvalStatus(row, seen) != Is(Pending) {
          return Some(NotClaimable);
        }
        if row.expiresAt <= now {
          return Some(PairingExpired);
        }
        var answer := registry.RegenerateKey(row.device, key);
        if answer.Err? {
          return Some(KeyFailed);
        }
        rows := rows[id := row.(stored := Used)];
        issued := issued + [Claim(row.code, key)];
        return None;
      }
      err := Some(NotFound);
    }

    method InvalidatePairing(device: int, id: int) returns (err: Option<PairingError>)
      modifies this`rows
      ensures Did(Invalidate(old(Now()), device, id), err)
    {
      if id !in rows || rows[id].device != device || rows[id].stored != Pending {
        return Some(NotFound);
      }
      rows := rows[id := rows[id].(stored := Invalidated)];
      err := None;
    }
  }
}
