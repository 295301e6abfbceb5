/**
 Devices, their API keys, their addresses and the address audit log, as one transaction after
 another changes them. A failed transaction changes nothing; a committed one also yields the notices
 its caller then sends to the address observers.
 */
module Registry {
  import opened Common

  datatype Source = Heartbeat | WebUI | Expiry | LimitExceeded

  datatype Trigger = User | Schedule | NetworkChange | System

  datatype Device = Device(owner: int, disabled: bool, deleted: bool)

  datatype Address = Address(device: int, ip: string, enabled: bool, source: Source, updatedAt: int)

  datatype Event = Event(address: int, enabled: bool, source: Source, trigger: Trigger, at: int)

  datatype Tables = Tables(
    devices: map<int, Device>,
    keys: map<int, string>,
    addresses: map<int, Address>,
    log: seq<Event>)

  datatype NoticeKind = Created | Enabled | Refreshed | Disabled

  /** An AddressEvent as the observers receive it. */
  datatype Notice = Notice(kind: NoticeKind, address: int, device: int)

  datatype Error = DeviceNotFound | DeviceIsDisabled | AddressNotFound | NotOwned | NoAPIKey

  datatype Outcome = Committed(tables: Tables, notices: seq<Notice>) | Failed(error: Error)

  predicate Active(t: Tables, d: int) {
    d in t.devices && !t.devices[d].deleted
  }

  predicate IsEnabled(t: Tables, a: int) {
    a in t.addresses && t.addresses[a].enabled
  }

  function EnabledOf(t: Tables, d: int): set<int> {
    set a | a in t.addresses && t.addresses[a].device == d && t.addresses[a].enabled
  }

  /** Rows the device holds for this IP. */
  function RowsFor(t: Tables, d: int, ip: string): set<int> {
    set a | a in t.addresses && t.addresses[a].device == d && t.addresses[a].ip == ip
  }

  /** A result of GetEnabledAddressesForDevice: the enabled addresses, newest first. */
  ghost predicate IsEnabledList(t: Tables, d: int, list: seq<int>) {
    && Distinct(list)
    && (forall a :: a in list <==> a in EnabledOf(t, d))
    && forall i, j :: 0 <= i < j < |list| ==> NotOlder(t, list[i], list[j])
  }

  predicate NotOlder(t: Tables, a: int, b: int) {
    a in t.addresses && b in t.addresses && t.addresses[a].updatedAt >= t.addresses[b].updatedAt
  }

  /** recordAddressEvent: one audit row, and the address row brought into line with it. */
  function Record(t: Tables, a: int, enabled: bool, source: Source, trigger: Trigger, now: int): Tables
    requires a in t.addresses
  {
    t.(log := t.log + [Event(a, enabled, source, trigger, now)],
       addresses := t.addresses[a := t.addresses[a].(enabled := enabled, source := source, updatedAt := now)])
  }

  /** RegisterAddressActivity; `id` is the key the database would give a new row. */
  ghost function Register(t: Tables, d: int, ip: string, source: Source, trigger: Trigger, now: int, id: int): Outcome {
    if !Active(t, d) then Failed(DeviceNotFound)
    else if t.devices[d].disabled then Failed(DeviceIsDisabled)
    else
      if forall a :: a !in RowsFor(t, d, ip) then
        Committed(t.(addresses := t.addresses[id := Address(d, ip, true, source, now)],
                     log := t.log + [Event(id, true, source, trigger, now)]),
                  [Notice(Created, id, d)])
      else
        var a :| a in RowsFor(t, d, ip);
        Committed(Record(t, a, true, source, trigger, now),
                  [Notice(if t.addresses[a].enabled then Refreshed else Enabled, a, d)])
  }

  function DisableAddress(t: Tables, d: int, a: int, now: int): Outcome {
    if !Active(t, d) then Failed(DeviceNotFound)
    else if a !in t.addresses || t.addresses[a].device != d then Failed(NotOwned)
    else Committed(Record(t, a, false, WebUI, User, now), [Notice(Disabled, a, d)])
  }

  function DisableAddresses(t: Tables, ids: seq<int>, source: Source, trigger: Trigger, now: int): Outcome
    decreases |ids|
  {
    if ids == [] then Committed(t, [])
    else if ids[0] !in t.addresses then Failed(AddressNotFound)
    else
      match DisableAddresses(Record(t, ids[0], false, source, trigger, now), ids[1..], source, trigger, now)
      case Failed(e) => Failed(e)
      case Committed(t', notices) => Committed(t', [Notice(Disabled, ids[0], t.addresses[ids[0]].device)] + notices)
  }

  function DeleteDevice(t: Tables, d: int, enabled: seq<int>, now: int): Outcome {
    if !Active(t, d) then Failed(DeviceNotFound)
    else
      match DisableAddresses(t.(devices := t.devices[d := t.devices[d].(deleted := true)]), enabled, WebUI, User, now)
      case Failed(e) => Failed(e)
      case Committed(t', notices) => Committed(t'.(keys := t'.keys - {d}), notices)
  }

  function DisableDevice(t: Tables, d: int, enabled: seq<int>, now: int): Outcome {
    if !Active(t, d) then Failed(DeviceNotFound)
    else
      match DisableAddresses(t, enabled, WebUI, User, now)
      case Failed(e) => Failed(e)
      case Committed(t', notices) =>
        if d in t'.devices then Committed(t'.(devices := t'.devices[d := t'.devices[d].(disabled := true)]), notices)
        else Failed(DeviceNotFound)
  }

  function EnableDevice(t: Tables, d: int): Outcome {
    if !Active(t, d) then Failed(DeviceNotFound)
    else Committed(t.(devices := t.devices[d := t.devices[d].(disabled := false)]), [])
  }

  /** UpdateDevice, of whose fields only the owner matters here; without one it stays. */
  function UpdateDevice(t: Tables, d: int, owner: Option<int>): Outcome {
    if !Active(t, d) then Failed(DeviceNotFound)
    else if owner.None? then Committed(t, [])
    else Committed(t.(devices := t.devices[d := t.devices[d].(owner := owner.value)]), [])
  }

  function RegenerateAPIKey(t: Tables, d: int, key: string): Outcome {
    if !Active(t, d) then Failed(DeviceNotFound) else Committed(t.(keys := t.keys[d := key]), [])
  }

  function DeleteAPIKey(t: Tables, d: int): Outcome {
    if !Active(t, d) then Failed(DeviceNotFound)
    else if d !in t.keys then Failed(NoAPIKey)
    else Committed(t.(keys := t.keys - {d}), [])
  }

  function CreateDevice(t: Tables, id: int, owner: int, key: Option<string>): Outcome {
    var t' := t.(devices := t.devices[id := Device(owner, false, false)]);
    Committed(if key.Some? then t'.(keys := t'.keys[id := key.value]) else t', [])
  }

  /** Retention: drop the audit rows older than `before`. */
  function Pruned(log: seq<Event>, before: int): seq<Event> {
    if log == [] then [] else (if log[0].at < before then [] else [log[0]]) + Pruned(log[1..], before)
  }

  datatype Step =
    | StepCreate(id: int, owner: int, key: Option<string>)
    | StepRegister(d: int, ip: string, source: Source, trigger: Trigger, now: int, id: int)
    | StepDisableAddress(d: int, a: int, now: int)
    | StepDisableAddresses(ids: seq<int>, source: Source, trigger: Trigger, now: int)
    | StepDeleteDevice(d: int, enabled: seq<int>, now: int)
    | StepDisableDevice(d: int, enabled: seq<int>, now: int)
    | StepEnableDevice(d: int)
    | StepUpdateDevice(d: int, newOwner: Option<int>)
    | StepRegenerateKey(d: int, newKey: string)
    | StepDeleteKey(d: int)
    | StepPrune(before: int)

  ghost function Apply(t: Tables, step: Step): Outcome {
    match step
    case StepCreate(id, owner, key) => CreateDevice(t, id, owner, key)
    case StepRegister(d, ip, source, trigger, now, id) => Register(t, d, ip, source, trigger, now, id)
    case StepDisableAddress(d, a, now) => DisableAddress(t, d, a, now)
    case StepDisableAddresses(ids, source, trigger, now) => DisableAddresses(t, ids, source, trigger, now)
    case StepDeleteDevice(d, enabled, now) => DeleteDevice(t, d, enabled, now)
    case StepDisableDevice(d, enabled, now) => DisableDevice(t, d, enabled, now)
    case StepEnableDevice(d) => EnableDevice(t, d)
    case StepUpdateDevice(d, owner) => UpdateDevice(t, d, owner)
    case StepRegenerateKey(d, key) => RegenerateAPIKey(t, d, key)
    case StepDeleteKey(d) => DeleteAPIKey(t, d)
    case StepPrune(before) => Committed(t.(log := Pruned(t.log, before)), [])
  }

  /** The database assigns unused keys, lists what the query asks for, and the clock does not run back. */
  ghost predicate Possible(t: Tables, step: Step) {
    match step
    case StepCreate(id, _, _) => id !in t.devices
    case StepRegister(_, _, _, _, now, id) => id !in t.addresses && id != 0 && NotBefore(t.log, now)
    case StepDisableAddress(_, _, now) => NotBefore(t.log, now)
    case StepDisableAddresses(_, _, _, now) => NotBefore(t.log, now)
    case StepDeleteDevice(d, enabled, now) => IsEnabledList(t, d, enabled) && NotBefore(t.log, now)
    case StepDisableDevice(d, enabled, now) => IsEnabledList(t, d, enabled) && NotBefore(t.log, now)
    case _ => true
  }

  ghost predicate NotBefore(log: seq<Event>, now: int) {
    forall i :: 0 <= i < |log| ==> log[i].at <= now
  }

  ghost function Next(t: Tables, step: Step): Tables {
    var r := Apply(t, step);
    if r.Committed? then r.tables else t
  }

  ghost function NoticesOf(t: Tables, step: Step): seq<Notice> {
    var r := Apply(t, step);
    if r.Committed? then r.notices else []
  }

  ghost function LastEvent(log: seq<Event>, a: int): Option<Event> {
    if log == [] then None
    else if log[|log| - 1].address == a then Some(log[|log| - 1])
    else LastEvent(log[..|log| - 1], a)
  }

  /** The audit log runs forward in time, and each row agrees with the last surviving event about it. */
  ghost predicate Audited(t: Tables) {
    && (forall i, j :: 0 <= i < j < |t.log| ==> t.log[i].at <= t.log[j].at)
    && forall a, e :: a in t.addresses && LastEvent(t.log, a) == Some(e) ==> Matches(t.addresses[a], e)
  }

  predicate Matches(row: Address, e: Event) {
    row.enabled == e.enabled && row.source == e.source && row.updatedAt == e.at
  }

  ghost predicate OneRowPerIP(t: Tables) {
    forall a, b :: a in t.addresses && b in t.addresses && SameKey(t.addresses[a], t.addresses[b]) ==> a == b
  }

  predicate SameKey(x: Address, y: Address) {
    x.device == y.device && x.ip == y.ip
  }

  /** Only a live, enabled device has enabled addresses. */
  ghost predicate FrozenStayOff(t: Tables) {
    forall a :: a in t.addresses ==>
      && t.addresses[a].device in t.devices
      && (t.addresses[a].enabled ==> Active(t, t.addresses[a].device) && !t.devices[t.addresses[a].device].disabled)
  }

  ghost predicate Inv(t: Tables) {
    && FrozenStayOff(t)
    && OneRowPerIP(t)
    && (forall d :: d in t.keys ==> Active(t, d))
    && Audited(t)
    && 0 !in t.addresses
  }

  lemma LastEventAppend(log: seq<Event>, e: Event, a: int)
    ensures LastEvent(log + [e], a) == if e.address == a then Some(e) else LastEvent(log, a)
  {
    assert (log + [e])[..|log|] == log;
  }

  lemma {:induction false} LastEventIsOf(log: seq<Event>, a: int)
    ensures LastEvent(log, a).Some? ==> LastEvent(log, a).value.address == a && LastEvent(log, a).value in log
    ensures LastEvent(log, a).None? ==> forall i :: 0 <= i < |log| ==> log[i].address != a
  {
    if log != [] {
      LastEventIsOf(log[..|log| - 1], a);
    }
  }

  /** An audit row and its address row are written together, so they agree. */
  lemma AppendKeepsAudited(t: Tables, a: int, row: Address, e: Event)
    requires Audited(t) && e.address == a && Matches(row, e) && NotBefore(t.log, e.at)
    ensures Audited(t.(log := t.log + [e], addresses := t.addresses[a := row]))
  {
    var t' := t.(log := t.log + [e], addresses := t.addresses[a := row]);
    forall b, f | b in t'.addresses && LastEvent(t'.log, b) == Some(f)
      ensures Matches(t'.addresses[b], f)
    {
      LastEventAppend(t.log, e, b);
      if b != a {
        assert b in t.addresses && LastEvent(t.log, b) == Some(f);
      }
    }
  }

  /** What disabling a list of addresses does, and all it does. */
  ghost predicate TurnedOff(t: Tables, t': Tables, ids: seq<int>) {
    && t'.devices == t.devices && t'.keys == t.keys && t'.addresses.Keys == t.addresses.Keys
    && forall a :: a in t.addresses ==>
      && t'.addresses[a].device == t.addresses[a].device && t'.addresses[a].ip == t.addresses[a].ip
      && (t'.addresses[a].enabled <==> t.addresses[a].enabled && a !in ids)
      && (a !in ids ==> t'.addresses[a] == t.addresses[a])
  }

  ghost predicate AnnouncesOff(t: Tables, ids: seq<int>, notices: seq<Notice>) {
    |notices| == |ids| && forall i :: 0 <= i < |ids| ==>
      ids[i] in t.addresses && notices[i] == Notice(Disabled, ids[i], t.addresses[ids[i]].device)
  }

  ghost predicate AllKnown(t: Tables, ids: seq<int>) {
    forall i :: 0 <= i < |ids| ==> ids[i] in t.addresses
  }

  /** The batch is all or nothing, and fails exactly on an unknown address. */
  lemma {:induction false} DisableAddressesCommits(
    t: Tables, ids: seq<int>, source: Source, trigger: Trigger, now: int)
    ensures DisableAddresses(t, ids, source, trigger, now).Committed? <==> AllKnown(t, ids)
    decreases |ids|
  {
    if ids != [] && ids[0] in t.addresses {
      var t1 := Record(t, ids[0], false, source, trigger, now);
      DisableAddressesCommits(t1, ids[1..], source, trigger, now);
      assert t1.addresses.Keys == t.addresses.Keys;
      assert forall i :: 0 <= i < |ids| - 1 ==> ids[1..][i] == ids[i + 1];
      assert AllKnown(t, ids) ==> AllKnown(t1, ids[1..]);
      assert forall i :: 0 < i < |ids| ==> ids[i] == ids[1..][i - 1];
    }
  }

  /** It turns off the listed addresses, touches nothing else, and announces each in turn. */
  lemma {:induction false} DisableAddressesEffect(
    t: Tables, ids: seq<int>, source: Source, trigger: Trigger, now: int)
    requires Audited(t) && NotBefore(t.log, now) && AllKnown(t, ids)
    ensures var r := DisableAddresses(t, ids, source, trigger, now);
            && r.Committed?
            && TurnedOff(t, r.tables, ids) && AnnouncesOff(t, ids, r.notices)
            && Audited(r.tables) && NotBefore(r.tables.log, now)
    decreases |ids|
  {
    if ids != [] {
      var t1 := Record(t, ids[0], false, source, trigger, now);
      AppendKeepsAudited(t, ids[0], t1.addresses[ids[0]], Event(ids[0], false, source, trigger, now));
      assert forall i :: 0 <= i < |ids| - 1 ==> ids[1..][i] == ids[i + 1];
      DisableAddressesEffect(t1, ids[1..], source, trigger, now);
      var r := DisableAddresses(t1, ids[1..], source, trigger, now);
      var whole := [Notice(Disabled, ids[0], t.addresses[ids[0]].device)] + r.notices;
      assert forall i :: 0 < i < |ids| ==> whole[i] == r.notices[i - 1];
      OffTwice(t, t1, r.tables, ids);
    }
  }

  lemma OffTwice(t: Tables, t1: Tables, t2: Tables, ids: seq<int>)
    requires ids != [] && TurnedOff(t, t1, [ids[0]]) && TurnedOff(t1, t2, ids[1..])
    ensures TurnedOff(t, t2, ids)
  {
    assert ids == [ids[0]] + ids[1..];
  }

  lemma ListIsKnown(t: Tables, d: int, list: seq<int>)
    requires IsEnabledList(t, d, list)
    ensures AllKnown(t, list)
  {
    assert forall i :: 0 <= i < |list| ==> list[i] in list;
  }

  lemma OffKeepsInv(t: Tables, t': Tables, ids: seq<int>)
    requires Inv(t) && TurnedOff(t, t', ids) && Audited(t')
    ensures Inv(t')
  {}

  lemma RecordKeepsInv(t: Tables, a: int, enabled: bool, source: Source, trigger: Trigger, now: int)
    requires Inv(t) && a in t.addresses && NotBefore(t.log, now)
    requires enabled ==> Active(t, t.addresses[a].device) && !t.devices[t.addresses[a].device].disabled
    ensures Inv(Record(t, a, enabled, source, trigger, now))
  {
    var row := t.addresses[a].(enabled := enabled, source := source, updatedAt := now);
    AppendKeepsAudited(t, a, row, Event(a, enabled, source, trigger, now));
  }

  lemma RegisterKeepsInv(t: Tables, d: int, ip: string, source: Source, trigger: Trigger, now: int, id: int)
    requires Inv(t) && id !in t.addresses && id != 0 && NotBefore(t.log, now)
    ensures var r := Register(t, d, ip, source, trigger, now, id); r.Committed? ==> Inv(r.tables)
  {
    if Active(t, d) && !t.devices[d].disabled {
      if forall a :: a !in RowsFor(t, d, ip) {
        var row := Address(d, ip, true, source, now);
        AppendKeepsAudited(t, id, row, Event(id, true, source, trigger, now));
        assert forall a :: a in t.addresses && SameKey(t.addresses[a], row) ==> a in RowsFor(t, d, ip);
      } else {
        forall a | a in RowsFor(t, d, ip)
          ensures Inv(Record(t, a, true, source, trigger, now))
        {
          RecordKeepsInv(t, a, true, source, trigger, now);
        }
      }
    }
  }

  /** Freezing a device: its whole enabled list goes off with it, so marking it keeps the invariant. */
  lemma FreezeKeepsInv(t: Tables, d: int, enabled: seq<int>, t': Tables, mark: Device)
    requires Inv(t) && Active(t, d) && IsEnabledList(t, d, enabled) && Audited(t')
    requires TurnedOff(t.(devices := t'.devices, keys := t'.keys), t', enabled)
    requires t'.devices == t.devices[d := mark]
    requires t'.keys == if mark.deleted then t.keys - {d} else t.keys
    ensures Inv(t')
  {
    forall a | a in t'.addresses && t'.addresses[a].enabled
      ensures t'.addresses[a].device != d
    {
      assert t.addresses[a].device == d ==> a in EnabledOf(t, d);
    }
  }

  lemma {:induction false} PrunedIsSuffix(log: seq<Event>, before: int) returns (k: nat)
    requires forall i, j :: 0 <= i < j < |log| ==> log[i].at <= log[j].at
    ensures k <= |log| && Pruned(log, before) == log[k..]
  {
    if log == [] {
      k := 0;
    } else if log[0].at < before {
      k := PrunedIsSuffix(log[1..], before);
      assert log[1..][k..] == log[k + 1..];
      k := k + 1;
    } else {
      NothingToPrune(log, before);
      k := 0;
    }
  }

  /** Exactly the rows at or after the time survive; with the above, in their order. */
  lemma {:induction false} PrunedAre(log: seq<Event>, before: int)
    ensures forall e :: e in Pruned(log, before) <==> e in log && e.at >= before
  {
    if log != [] {
      PrunedAre(log[1..], before);
      assert log == [log[0]] + log[1..];
    }
  }

  lemma {:induction false} NothingToPrune(log: seq<Event>, before: int)
    requires forall i :: 0 <= i < |log| ==> log[i].at >= before
    ensures Pruned(log, before) == log
  {
    if log != [] {
      NothingToPrune(log[1..], before);
    }
  }

  lemma {:induction false} LastEventOfSuffix(log: seq<Event>, k: nat, a: int)
    requires k <= |log| && LastEvent(log[k..], a).Some?
    ensures LastEvent(log, a) == LastEvent(log[k..], a)
    decreases |log|
  {
    var s := log[k..];
    assert s[|s| - 1] == log[|log| - 1];
    if log[|log| - 1].address != a {
      assert s[..|s| - 1] == log[..|log| - 1][k..];
      LastEventOfSuffix(log[..|log| - 1], k, a);
    }
  }

  /** Retention drops the oldest rows, so whatever survives about an address still ends the same way. */
  lemma PruneKeepsAudited(t: Tables, before: int)
    requires Audited(t)
    ensures Audited(t.(log := Pruned(t.log, before)))
  {
    var k := PrunedIsSuffix(t.log, before);
    var t' := t.(log := t.log[k..]);
    forall a, e | a in t'.addresses && LastEvent(t'.log, a) == Some(e)
      ensures Matches(t'.addresses[a], e)
    {
      LastEventOfSuffix(t.log, k, a);
      assert LastEvent(t.log, a) == Some(e);
    }
  }

  lemma DeleteKeepsInv(t: Tables, d: int, enabled: seq<int>, now: int)
    requires Inv(t) && IsEnabledList(t, d, enabled) && NotBefore(t.log, now)
    ensures var r := DeleteDevice(t, d, enabled, now);
            && (r.Committed? <==> Active(t, d))
            && (r.Committed? ==> Inv(r.tables))
  {
    if Active(t, d) {
      var mark := t.devices[d].(deleted := true);
      var marked := t.(devices := t.devices[d := mark]);
      ListIsKnown(t, d, enabled);
      DisableAddressesEffect(marked, enabled, WebUI, User, now);
      var r := DeleteDevice(t, d, enabled, now);
      FreezeKeepsInv(t, d, enabled, r.tables, mark);
    }
  }

  lemma DisableDeviceKeepsInv(t: Tables, d: int, enabled: seq<int>, now: int)
    requires Inv(t) && IsEnabledList(t, d, enabled) && NotBefore(t.log, now)
    ensures var r := DisableDevice(t, d, enabled, now);
            && (r.Committed? <==> Active(t, d))
            && (r.Committed? ==> Inv(r.tables))
  {
    if Active(t, d) {
      ListIsKnown(t, d, enabled);
      DisableAddressesEffect(t, enabled, WebUI, User, now);
      var r := DisableDevice(t, d, enabled, now);
      FreezeKeepsInv(t, d, enabled, r.tables, t.devices[d].(disabled := true));
    }
  }

  /** Every possible transaction keeps the registry's invariant. */
  lemma StepKeepsInv(t: Tables, step: Step)
    requires Inv(t) && Possible(t, step)
    ensures Inv(Next(t, step))
  {
    match step
    case StepRegister(d, ip, source, trigger, now, id) => RegisterKeepsInv(t, d, ip, source, trigger, now, id);
    case StepDisableAddress(d, a, now) =>
      if a in t.addresses { RecordKeepsInv(t, a, false, WebUI, User, now); }
    case StepDisableAddresses(ids, source, trigger, now) =>
      DisableAddressesCommits(t, ids, source, trigger, now);
      var r := DisableAddresses(t, ids, source, trigger, now);
      if r.Committed? {
        DisableAddressesEffect(t, ids, source, trigger, now);
        OffKeepsInv(t, r.tables, ids);
      }
    case StepDeleteDevice(d, enabled, now) => DeleteKeepsInv(t, d, enabled, now);
    case StepDisableDevice(d, enabled, now) => DisableDeviceKeepsInv(t, d, enabled, now);
    case StepPrune(before) => PruneKeepsAudited(t, before);
    case _ =>
  }

  /** A run of transactions, each possible where it happens. */
  ghost predicate PossibleRun(t: Tables, steps: seq<Step>)
    decreases |steps|
  {
    steps == [] || (Possible(t, steps[0]) && PossibleRun(Next(t, steps[0]), steps[1..]))
  }

  ghost function Run(t: Tables, steps: seq<Step>): Tables
    decreases |steps|
  {
    if steps == [] then t else Run(Next(t, steps[0]), steps[1..])
  }

  const EMPTY := Tables(map[], map[], map[], [])

  lemma {:induction false} RunKeepsInv(t: Tables, steps: seq<Step>)
    requires Inv(t) && PossibleRun(t, steps)
    ensures Inv(Run(t, steps))
    decreases |steps|
  {
    if steps != [] {
      StepKeepsInv(t, steps[0]);
      RunKeepsInv(Next(t, steps[0]), steps[1..]);
    }
  }

  /** GetEnabledIPEntries: it asks whether the device is deleted, not whether it is disabled. */
  ghost predicate Listed(t: Tables, a: int) {
    IsEnabled(t, a) && Active(t, t.addresses[a].device)
  }

  /** After any run from an empty registry, no disabled or deleted device has an address on the allowlist. */
  lemma AllowlistHoldsNoFrozenDevice(steps: seq<Step>, a: int)
    requires PossibleRun(EMPTY, steps) && IsEnabled(Run(EMPTY, steps), a)
    ensures var t := Run(EMPTY, steps);
            var d := t.addresses[a].device;
            Listed(t, a) && !t.devices[d].disabled && !t.devices[d].deleted
  {
    RunKeepsInv(EMPTY, steps);
  }

  lemma DeletedStaysStep(t: Tables, step: Step, d: int)
    requires Inv(t) && Possible(t, step) && d in t.devices && t.devices[d].deleted
    ensures d in Next(t, step).devices && Next(t, step).devices[d].deleted
  {
    match step
    case StepDisableAddresses(ids, source, trigger, now) =>
      DisableAddressesCommits(t, ids, source, trigger, now);
      if AllKnown(t, ids) { DisableAddressesEffect(t, ids, source, trigger, now); }
    case StepDisableDevice(x, enabled, now) =>
      ListIsKnown(t, x, enabled);
      DisableAddressesEffect(t, enabled, WebUI, User, now);
    case StepDeleteDevice(x, enabled, now) =>
      if Active(t, x) {
        ListIsKnown(t, x, enabled);
        DisableAddressesEffect(t.(devices := t.devices[x := t.devices[x].(deleted := true)]), enabled, WebUI, User, now);
      }
    case _ =>
  }

  /** A deleted device never returns, and never holds an API key or an enabled address again. */
  lemma {:induction false} DeletedForever(t: Tables, steps: seq<Step>, d: int)
    requires Inv(t) && PossibleRun(t, steps) && d in t.devices && t.devices[d].deleted
    ensures var t' := Run(t, steps);
            && d in t'.devices && t'.devices[d].deleted
            && d !in t'.keys && forall a :: a !in EnabledOf(t', d)
    decreases |steps|
  {
    if steps != [] {
      StepKeepsInv(t, steps[0]);
      DeletedStaysStep(t, steps[0], d);
      DeletedForever(Next(t, steps[0]), steps[1..], d);
    }
  }

  // ---- why a transaction fails ----

  /** The device a transaction is on, when it is on one. */
  function DeviceOf(step: Step): Option<int> {
    match step
    case StepRegister(d, _, _, _, _, _) => Some(d)
    case StepDisableAddress(d, _, _) => Some(d)
    case StepDeleteDevice(d, _, _) => Some(d)
    case StepDisableDevice(d, _, _) => Some(d)
    case StepEnableDevice(d) => Some(d)
    case StepUpdateDevice(d, _) => Some(d)
    case StepRegenerateKey(d, _) => Some(d)
    case StepDeleteKey(d) => Some(d)
    case _ => None
  }

  /** Every failure has its one reason: no live device, a disabled one, an unknown address, another's, or no key. */
  lemma FailuresAre(t: Tables, step: Step)
    requires Inv(t) && Possible(t, step)
    ensures var r, d := Apply(t, step), DeviceOf(step);
            && (r == Failed(DeviceNotFound) <==> d.Some? && !Active(t, d.value))
            && (r == Failed(DeviceIsDisabled) <==>
                step.StepRegister? && Active(t, step.d) && t.devices[step.d].disabled)
            && (r == Failed(NotOwned) <==>
                step.StepDisableAddress? && Active(t, step.d)
                && (step.a !in t.addresses || t.addresses[step.a].device != step.d))
            && (r == Failed(NoAPIKey) <==> step.StepDeleteKey? && Active(t, step.d) && step.d !in t.keys)
            && (r == Failed(AddressNotFound) <==> step.StepDisableAddresses? && !AllKnown(t, step.ids))
  {
    match step
    case StepDisableAddresses(ids, source, trigger, now) =>
      DisableAddressesCommits(t, ids, source, trigger, now);
      BatchFailure(t, ids, source, trigger, now);
    case StepDeleteDevice(d, enabled, now) => DeleteKeepsInv(t, d, enabled, now);
    case StepDisableDevice(d, enabled, now) => DisableDeviceKeepsInv(t, d, enabled, now);
    case _ =>
  }

  lemma {:induction false} BatchFailure(t: Tables, ids: seq<int>, source: Source, trigger: Trigger, now: int)
    ensures var r := DisableAddresses(t, ids, source, trigger, now); r.Failed? ==> r == Failed(AddressNotFound)
    decreases |ids|
  {
    if ids != [] && ids[0] in t.addresses {
      BatchFailure(Record(t, ids[0], false, source, trigger, now), ids[1..], source, trigger, now);
    }
  }

  // ---- what the audit log says ----

  /** To what the transaction's audit rows put it down, and when. */
  datatype Attribution = Attribution(source: Source, trigger: Trigger, at: int)

  function AttributionOf(step: Step): Option<Attribution> {
    match step
    case StepRegister(_, _, source, trigger, now, _) => Some(Attribution(source, trigger, now))
    case StepDisableAddress(_, _, now) => Some(Attribution(WebUI, User, now))
    case StepDisableAddresses(_, source, trigger, now) => Some(Attribution(source, trigger, now))
    case StepDeleteDevice(_, _, now) => Some(Attribution(WebUI, User, now))
    case StepDisableDevice(_, _, now) => Some(Attribution(WebUI, User, now))
    case _ => None
  }

  /** One row for each notice, in their order, of the same address and state, and so attributed. */
  ghost predicate Account(rows: seq<Event>, notices: seq<Notice>, from: Option<Attribution>) {
    && |rows| == |notices|
    && forall i :: 0 <= i < |rows| ==>
         && rows[i].address == notices[i].address && (rows[i].enabled <==> notices[i].kind != Disabled)
         && from == Some(Attribution(rows[i].source, rows[i].trigger, rows[i].at))
  }

  lemma {:induction false} BatchIsLogged(t: Tables, ids: seq<int>, source: Source, trigger: Trigger, now: int)
    returns (rows: seq<Event>)
    ensures var r := DisableAddresses(t, ids, source, trigger, now);
            r.Committed? ==>
              && r.tables.log == t.log + rows && Account(rows, r.notices, Some(Attribution(source, trigger, now)))
              && |rows| == |ids| && forall i :: 0 <= i < |ids| ==> rows[i].address == ids[i] && !rows[i].enabled
    decreases |ids|
  {
    rows := [];
    if ids != [] && ids[0] in t.addresses {
      var rest := BatchIsLogged(Record(t, ids[0], false, source, trigger, now), ids[1..], source, trigger, now);
      rows := [Event(ids[0], false, source, trigger, now)] + rest;
      assert t.log + [rows[0]] + rest == t.log + rows;
    } else {
      assert t.log + rows == t.log;
    }
  }

  /** What a transaction announces it has also logged, row by row, under its own source and trigger; and nothing else. */
  lemma StepIsLogged(t: Tables, step: Step) returns (rows: seq<Event>)
    requires !step.StepPrune?
    ensures Next(t, step).log == t.log + rows && Account(rows, NoticesOf(t, step), AttributionOf(step))
  {
    rows := [];
    match step
    case StepRegister(d, ip, source, trigger, now, id) =>
      if NoticesOf(t, step) != [] {
        rows := [Event(NoticesOf(t, step)[0].address, true, source, trigger, now)];
      }
    case StepDisableAddress(d, a, now) =>
      if NoticesOf(t, step) != [] {
        rows := [Event(a, false, WebUI, User, now)];
      }
    case StepDisableAddresses(ids, source, trigger, now) =>
      if DisableAddresses(t, ids, source, trigger, now).Committed? {
        rows := BatchIsLogged(t, ids, source, trigger, now);
      }
    case StepDeleteDevice(d, enabled, now) =>
      if Apply(t, step).Committed? {
        rows := BatchIsLogged(t.(devices := t.devices[d := t.devices[d].(deleted := true)]), enabled, WebUI, User, now);
      }
    case StepDisableDevice(d, enabled, now) =>
      if Apply(t, step).Committed? {
        rows := BatchIsLogged(t, enabled, WebUI, User, now);
      }
    case _ =>
  }

  // ---- what each transaction on a device is for ----

  /** Everything about the other devices is as it was. */
  ghost predicate OthersKept(t: Tables, t': Tables, d: int) {
    && (forall x :: x != d ==> (x in t.devices <==> x in t'.devices) && (x in t.keys <==> x in t'.keys))
    && (forall x :: x != d && x in t.devices ==> t'.devices[x] == t.devices[x])
    && (forall x :: x != d && x in t.keys ==> t'.keys[x] == t.keys[x])
    && (forall a :: a in t.addresses && t.addresses[a].device != d ==>
          a in t'.addresses && t'.addresses[a] == t.addresses[a])
  }

  /** No registration for the device succeeds, from whatever address and however it comes. */
  ghost predicate Refuses(t: Tables, d: int) {
    forall ip, source, trigger, now, id :: Apply(t, StepRegister(d, ip, source, trigger, now, id)).Failed?
  }

  /** Disabling a device freezes it: it stays, with its owner and its key, but has no enabled address and can get none. */
  lemma DisablingFreezes(t: Tables, d: int, enabled: seq<int>, now: int)
    requires Inv(t) && Possible(t, StepDisableDevice(d, enabled, now)) && Active(t, d)
    ensures var r := Apply(t, StepDisableDevice(d, enabled, now));
            && r.Committed? && Active(r.tables, d) && Refuses(r.tables, d) && OthersKept(t, r.tables, d)
            && r.tables.devices[d] == t.devices[d].(disabled := true) && r.tables.keys == t.keys
            && forall a :: a in r.tables.addresses && r.tables.addresses[a].device == d ==> !r.tables.addresses[a].enabled
  {
    DisableDeviceKeepsInv(t, d, enabled, now);
    ListIsKnown(t, d, enabled);
    DisableAddressesEffect(t, enabled, WebUI, User, now);
    forall a | a in t.addresses && t.addresses[a].device != d
      ensures a !in enabled
    {
      assert a !in EnabledOf(t, d);
    }
  }

  lemma FrozenStays(t: Tables, step: Step, d: int)
    requires Inv(t) && Possible(t, step) && d in t.devices && t.devices[d].disabled && step != StepEnableDevice(d)
    ensures d in Next(t, step).devices && Next(t, step).devices[d].disabled
  {
    match step
    case StepDisableAddresses(ids, source, trigger, now) =>
      DisableAddressesCommits(t, ids, source, trigger, now);
      if AllKnown(t, ids) { DisableAddressesEffect(t, ids, source, trigger, now); }
    case StepDisableDevice(x, enabled, now) =>
      ListIsKnown(t, x, enabled);
      DisableAddressesEffect(t, enabled, WebUI, User, now);
    case StepDeleteDevice(x, enabled, now) =>
      if Active(t, x) {
        ListIsKnown(t, x, enabled);
        DisableAddressesEffect(t.(devices := t.devices[x := t.devices[x].(deleted := true)]), enabled, WebUI, User, now);
      }
    case _ =>
  }

  /** And so it stays until it is enabled again, whatever else happens. */
  lemma {:induction false} FrozenUntilEnabled(t: Tables, steps: seq<Step>, d: int)
    requires Inv(t) && PossibleRun(t, steps) && d in t.devices && t.devices[d].disabled
    requires StepEnableDevice(d) !in steps
    ensures var t' := Run(t, steps);
            && d in t'.devices && t'.devices[d].disabled && Refuses(t', d)
            && forall a :: a in t'.addresses && t'.addresses[a].device == d ==> !t'.addresses[a].enabled
    decreases |steps|
  {
    if steps != [] {
      assert steps[0] in steps && forall s :: s in steps[1..] ==> s in steps;
      StepKeepsInv(t, steps[0]);
      FrozenStays(t, steps[0], d);
      FrozenUntilEnabled(Next(t, steps[0]), steps[1..], d);
    }
  }

  /** A device that is enabled, or just created, can register at once, and nothing else has come on. */
  lemma EnabledCanRegister(
    t: Tables, step: Step, d: int, ip: string, source: Source, trigger: Trigger, now: int, id: int)
    requires Inv(t) && Possible(t, step)
    requires (step == StepEnableDevice(d) && Active(t, d)) || (step.StepCreate? && step.id == d)
    ensures OthersKept(t, Next(t, step), d) && Next(t, step).addresses == t.addresses && Next(t, step).log == t.log
    ensures var r := Register(Next(t, step), d, ip, source, trigger, now, id);
            r.Committed? && exists a :: a in r.tables.addresses && CameOn(r.tables.addresses[a], d, ip, source, now)
  {
    RegistrationSucceeds(Next(t, step), d, ip, source, trigger, now, id);
  }

  /** A new device belongs to its owner and has just the key it was given; handed over, it belongs to the new owner. */
  lemma OwnersAndKeys(t: Tables, step: Step)
    requires Inv(t) && Possible(t, step)
    ensures step.StepCreate? ==>
              var t' := Next(t, step);
              && Active(t', step.id) && t'.devices[step.id].owner == step.owner
              && (step.id in t'.keys <==> step.key.Some?) && (step.key.Some? ==> t'.keys[step.id] == step.key.value)
    ensures step.StepUpdateDevice? && Active(t, step.d) ==>
              var t' := Next(t, step);
              && OthersKept(t, t', step.d) && t'.addresses == t.addresses && t'.keys == t.keys && Active(t', step.d)
              && (t'.devices[step.d].disabled <==> t.devices[step.d].disabled)
              && t'.devices[step.d].owner == if step.newOwner.Some? then step.newOwner.value else t.devices[step.d].owner
    ensures step.StepDeleteKey? ==>
              var t' := Next(t, step);
              && step.d !in t'.keys && OthersKept(t, t', step.d) && t'.devices == t.devices
              && (Apply(t, step).Failed? <==> step.d !in t.keys)
    ensures step.StepRegenerateKey? && Active(t, step.d) ==>
              var t' := Next(t, step);
              step.d in t'.keys && t'.keys[step.d] == step.newKey && OthersKept(t, t', step.d) && t'.devices == t.devices
  {}

  /** The row is of an enabled address of the device at this IP, last seen then and from there. */
  predicate CameOn(row: Address, d: int, ip: string, source: Source, now: int) {
    row.device == d && row.ip == ip && row.enabled && row.source == source && row.updatedAt == now
  }

  /** A registration succeeds exactly for a live device that is not disabled, and leaves its address on. */
  lemma RegistrationSucceeds(t: Tables, d: int, ip: string, source: Source, trigger: Trigger, now: int, id: int)
    ensures var r := Register(t, d, ip, source, trigger, now, id);
            && (r.Committed? <==> d in t.devices && !t.devices[d].deleted && !t.devices[d].disabled)
            && (r.Committed? ==> exists a :: a in r.tables.addresses && CameOn(r.tables.addresses[a], d, ip, source, now))
            && (r == Failed(DeviceIsDisabled) <==> d in t.devices && !t.devices[d].deleted && t.devices[d].disabled)
  {
    var r := Register(t, d, ip, source, trigger, now, id);
    if r.Committed? {
      assert r.notices[0].address in r.tables.addresses;
      assert CameOn(r.tables.addresses[r.notices[0].address], d, ip, source, now);
    }
  }

  predicate TurnsOn(k: NoticeKind) {
    k == Created || k == Enabled
  }

  /**
   What a transaction tells the observers is the truth about the committed tables: every notice names
   a row's device and final state, every change of state is announced, and every address that comes
   on is announced as created or enabled rather than refreshed.
   */
  ghost predicate Truthful(t: Tables, t': Tables, ns: seq<Notice>) {
    && (forall a :: a in t.addresses ==> a in t'.addresses && t'.addresses[a].device == t.addresses[a].device)
    && (forall i :: 0 <= i < |ns| ==> Tells(t', ns[i]))
    && (forall a :: IsEnabled(t, a) != IsEnabled(t', a) ==> exists i :: 0 <= i < |ns| && ns[i].address == a)
    && (forall a :: !IsEnabled(t, a) && IsEnabled(t', a) ==>
          exists i :: 0 <= i < |ns| && ns[i].address == a && TurnsOn(ns[i].kind))
    && (forall a :: a in t'.addresses && a !in t.addresses ==> IsEnabled(t', a))
  }

  ghost predicate Tells(t: Tables, n: Notice) {
    && n.address in t.addresses && n.device == t.addresses[n.address].device
    && (n.kind == Disabled <==> !t.addresses[n.address].enabled)
  }

  lemma OffIsTruthful(t: Tables, t': Tables, ids: seq<int>, ns: seq<Notice>)
    requires TurnedOff(t.(devices := t'.devices, keys := t'.keys), t', ids) && AnnouncesOff(t, ids, ns)
    ensures Truthful(t, t', ns)
  {
    forall i | 0 <= i < |ns|
      ensures Tells(t', ns[i])
    {
      assert ids[i] in ids;
    }
    forall a | IsEnabled(t, a) != IsEnabled(t', a)
      ensures exists i :: 0 <= i < |ns| && ns[i].address == a
    {
      assert a in ids;
      var i :| 0 <= i < |ids| && ids[i] == a;
      assert ns[i].address == a;
    }
  }

  lemma RegisterIsTruthful(t: Tables, d: int, ip: string, source: Source, trigger: Trigger, now: int, id: int)
    requires Inv(t) && id !in t.addresses
    ensures var step := StepRegister(d, ip, source, trigger, now, id);
            Truthful(t, Next(t, step), NoticesOf(t, step))
  {
    var step := StepRegister(d, ip, source, trigger, now, id);
    var t', ns := Next(t, step), NoticesOf(t, step);
    if ns != [] {
      assert forall a :: IsEnabled(t, a) != IsEnabled(t', a) ==> a == ns[0].address;
      assert TurnsOn(ns[0].kind) <==> !IsEnabled(t, ns[0].address);
    }
  }

  lemma StepIsTruthful(t: Tables, step: Step)
    requires Inv(t) && Possible(t, step)
    ensures Truthful(t, Next(t, step), NoticesOf(t, step))
  {
    match step
    case StepRegister(d, ip, source, trigger, now, id) => RegisterIsTruthful(t, d, ip, source, trigger, now, id);
    case StepDisableAddress(d, a, now) =>
      var r := DisableAddress(t, d, a, now);
      if r.Committed? { OffIsTruthful(t, r.tables, [a], r.notices); }
    case StepDisableAddresses(ids, source, trigger, now) =>
      DisableAddressesCommits(t, ids, source, trigger, now);
      if AllKnown(t, ids) {
        DisableAddressesEffect(t, ids, source, trigger, now);
        var r := DisableAddresses(t, ids, source, trigger, now);
        OffIsTruthful(t, r.tables, ids, r.notices);
      }
    case StepDisableDevice(d, enabled, now) =>
      if Active(t, d) {
        ListIsKnown(t, d, enabled);
        DisableAddressesEffect(t, enabled, WebUI, User, now);
        var r := DisableDevice(t, d, enabled, now);
        OffIsTruthful(t, r.tables, enabled, r.notices);
      }
    case StepDeleteDevice(d, enabled, now) =>
      if Active(t, d) {
        ListIsKnown(t, d, enabled);
        DisableAddressesEffect(t.(devices := t.devices[d := t.devices[d].(deleted := true)]), enabled, WebUI, User, now);
        var r := DeleteDevice(t, d, enabled, now);
        OffIsTruthful(t, r.tables, enabled, r.notices);
      }
    case _ =>
  }
}
