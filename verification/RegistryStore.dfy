/** The device service and its repository as they run: tables updated in place, transaction by transaction. */
module RegistryStore {
  import opened Common
  import opened Registry

  /** GetDeviceIDsByOwner: the live devices of a user. */
  function OwnedBy(t: Tables, u: int): set<int> {
    set d | d in t.devices && t.devices[d].owner == u && !t.devices[d].deleted
  }

  ghost function Members(owned: seq<int>): set<int> {
    set d | d in owned
  }

  /** Devices deleted one after another, each with the list of its enabled addresses. */
  ghost function DeletedAll(t: Tables, owned: seq<int>, lists: map<int, seq<int>>, now: int): Tables
    requires forall d :: d in owned ==> d in lists
    decreases |owned|
  {
    if owned == [] then t
    else
      var d := owned[0];
      assert d in owned;
      DeletedAll(Next(t, StepDeleteDevice(d, lists[d], now)), owned[1..], lists, now)
  }

  /** The devices are gone with their keys and their enabled addresses, and no other device's rows have changed. */
  ghost predicate Gone(t: Tables, t': Tables, owned: set<int>) {
    && t'.devices.Keys == t.devices.Keys && t'.addresses.Keys == t.addresses.Keys
    && (forall d :: d in owned && d in t'.devices ==> t'.devices[d].deleted)
    && (forall d :: d in t.devices && d !in owned ==> t'.devices[d] == t.devices[d])
    && t'.keys == t.keys - owned
    && (forall a :: a in t.addresses ==>
          && t'.addresses[a].device == t.addresses[a].device
          && if t.addresses[a].device in owned then !t'.addresses[a].enabled else t'.addresses[a] == t.addresses[a])
  }

  lemma OneGone(t: Tables, d: int, list: seq<int>, now: int)
    requires Inv(t) && NotBefore(t.log, now) && Active(t, d) && IsEnabledList(t, d, list)
    ensures var t' := Next(t, StepDeleteDevice(d, list, now));
            Inv(t') && NotBefore(t'.log, now) && Gone(t, t', {d})
  {
    DeleteKeepsInv(t, d, list, now);
    ListIsKnown(t, d, list);
    var marked := t.(devices := t.devices[d := t.devices[d].(deleted := true)]);
    DisableAddressesEffect(marked, list, WebUI, User, now);
    assert forall a :: a in list ==> a in EnabledOf(t, d);
    assert forall a :: a in EnabledOf(t, d) ==> a in list;
  }

  lemma SameList(t: Tables, t': Tables, d: int, list: seq<int>)
    requires IsEnabledList(t, d, list) && t'.addresses.Keys == t.addresses.Keys
    requires forall a :: a in t.addresses ==> t'.addresses[a].device == t.addresses[a].device
    requires forall a :: a in t.addresses && t.addresses[a].device == d ==> t'.addresses[a] == t.addresses[a]
    ensures IsEnabledList(t', d, list)
  {
    assert forall a :: a in t.addresses ==> (a in EnabledOf(t', d) <==> a in EnabledOf(t, d));
    assert EnabledOf(t', d) == EnabledOf(t, d);
    forall i, j | 0 <= i < j < |list|
      ensures NotOlder(t', list[i], list[j])
    {
      assert NotOlder(t, list[i], list[j]);
      assert list[i] in EnabledOf(t, d) && list[j] in EnabledOf(t, d);
    }
  }

  lemma GoneTwice(t: Tables, t1: Tables, t2: Tables, first: set<int>, rest: set<int>)
    requires Gone(t, t1, first) && Gone(t1, t2, rest) && first !! rest
    requires forall d :: d in first + rest ==> d in t.devices
    ensures Gone(t, t2, first + rest)
  {}

  lemma StillListed(t: Tables, t1: Tables, d0: int, rest: seq<int>, lists: map<int, seq<int>>)
    requires Gone(t, t1, {d0}) && d0 !in rest
    requires forall d :: d in rest ==> d in lists && Active(t, d) && IsEnabledList(t, d, lists[d])
    ensures forall d :: d in rest ==> d in lists && Active(t1, d) && IsEnabledList(t1, d, lists[d])
  {
    forall d | d in rest
      ensures d in lists && Active(t1, d) && IsEnabledList(t1, d, lists[d])
    {
      assert d in t1.devices.Keys;
      SameList(t, t1, d, lists[d]);
    }
  }

  /** Deleting devices one after another deletes exactly those, although each deletion is a transaction of its own. */
  lemma {:induction false} DeletedAllGone(t: Tables, owned: seq<int>, lists: map<int, seq<int>>, now: int)
    requires Inv(t) && NotBefore(t.log, now) && Distinct(owned)
    requires forall d :: d in owned ==> d in lists && Active(t, d) && IsEnabledList(t, d, lists[d])
    ensures Inv(DeletedAll(t, owned, lists, now))
    ensures Gone(t, DeletedAll(t, owned, lists, now), Members(owned))
    decreases |owned|
  {
    if owned != [] {
      var d0, rest := owned[0], owned[1..];
      assert owned == [d0] + rest && d0 !in rest;
      var t1 := Next(t, StepDeleteDevice(d0, lists[d0], now));
      OneGone(t, d0, lists[d0], now);
      StillListed(t, t1, d0, rest, lists);
      DeletedAllGone(t1, rest, lists, now);
      GoneTwice(t, t1, DeletedAll(t, owned, lists, now), {d0}, Members(rest));
      assert Members(owned) == {d0} + Members(rest);
    }
  }

  /** The devices of the user, and only those, are gone, and no live device of the user is left. */
  ghost predicate UserLeft(t: Tables, t': Tables, u: int) {
    && Inv(t') && Gone(t, t', OwnedBy(t, u)) && OwnedBy(t', u) == {}
    && (forall d :: d in t'.devices && t'.devices[d].owner == u ==> t'.devices[d].deleted)
    && (forall d :: d in t.devices && t.devices[d].owner != u ==> d in t'.devices && t'.devices[d] == t.devices[d])
  }

  /** Deleting all of a user's devices, one transaction each, does that. */
  lemma UserLeavesNothing(t: Tables, u: int, owned: seq<int>, lists: map<int, seq<int>>, now: int)
    requires Inv(t) && NotBefore(t.log, now) && Distinct(owned) && forall d :: d in owned <==> d in OwnedBy(t, u)
    requires forall d :: d in OwnedBy(t, u) ==> d in lists && IsEnabledList(t, d, lists[d])
    ensures UserLeft(t, DeletedAll(t, owned, lists, now), u)
  {
    DeletedAllGone(t, owned, lists, now);
    var t' := DeletedAll(t, owned, lists, now);
    forall d
      ensures d in Members(owned) <==> d in OwnedBy(t, u)
    {
      assert d in Members(owned) <==> d in owned;
    }
    assert Members(owned) == OwnedBy(t, u);
    forall d
      ensures d !in OwnedBy(t', u)
    {
      assert d in t'.devices.Keys <==> d in t.devices.Keys;
    }
  }

  /** The step creates a device for the user, or hands one over. */
  predicate GivesTo(step: Step, u: int) {
    (step.StepCreate? && step.owner == u) || (step.StepUpdateDevice? && step.newOwner == Some(u))
  }

  lemma StepGivesNothing(t: Tables, step: Step, u: int)
    requires Inv(t) && Possible(t, step) && !GivesTo(step, u)
    ensures OwnedBy(Next(t, step), u) <= OwnedBy(t, u)
  {
    match step
    case StepDisableAddresses(ids, source, trigger, now) =>
      DisableAddressesCommits(t, ids, source, trigger, now);
      if AllKnown(t, ids) { DisableAddressesEffect(t, ids, source, trigger, now); }
    case StepDisableDevice(d, enabled, now) =>
      ListIsKnown(t, d, enabled);
      DisableAddressesEffect(t, enabled, WebUI, User, now);
    case StepDeleteDevice(d, enabled, now) =>
      if Active(t, d) {
        ListIsKnown(t, d, enabled);
        DisableAddressesEffect(t.(devices := t.devices[d := t.devices[d].(deleted := true)]), enabled, WebUI, User, now);
      }
    case _ =>
  }

  lemma {:induction false} NothingGiven(t: Tables, steps: seq<Step>, u: int)
    requires Inv(t) && PossibleRun(t, steps) && forall i :: 0 <= i < |steps| ==> !GivesTo(steps[i], u)
    ensures OwnedBy(Run(t, steps), u) <= OwnedBy(t, u)
    decreases |steps|
  {
    if steps != [] {
      StepGivesNothing(t, steps[0], u);
      StepKeepsInv(t, steps[0]);
      NothingGiven(Next(t, steps[0]), steps[1..], u);
    }
  }

  /**
   Over whole runs, with devices changing hands: once a user's deletion has been handled, what the user then
   owned is gone for good, and unless a device is given to the user again, it owns no live one.
   */
  lemma UserStaysGone(t: Tables, t1: Tables, u: int, after: seq<Step>)
    requires UserLeft(t, t1, u) && PossibleRun(t1, after)
    ensures (forall i :: 0 <= i < |after| ==> !GivesTo(after[i], u)) ==> OwnedBy(Run(t1, after), u) == {}
    ensures forall d :: d in OwnedBy(t, u) ==> DeadDevice(Run(t1, after), d)
  {
    if forall i :: 0 <= i < |after| ==> !GivesTo(after[i], u) {
      NothingGiven(t1, after, u);
    }
    forall d | d in OwnedBy(t, u)
      ensures DeadDevice(Run(t1, after), d)
    {
      assert d in t1.devices.Keys;
      DeletedForever(t1, after, d);
    }
  }

  /** Deleted, without a key and without an enabled address. */
  ghost predicate DeadDevice(t: Tables, d: int) {
    d in t.devices && t.devices[d].deleted && d !in t.keys && forall a :: a !in EnabledOf(t, d)
  }

  /** What remains of a batch after a prefix of it has announced `notices`. */
  ghost function Continued(notices: seq<Notice>, rest: Outcome): Outcome {
    match rest case Failed(e) => Failed(e) case Committed(t, more) => Committed(t, notices + more)
  }

  lemma NothingYet(rest: Outcome)
    ensures Continued([], rest) == rest
  {
    assert rest.Committed? ==> [] + rest.notices == rest.notices;
  }

  lemma ContinueBatch(
    t: Tables, notices: seq<Notice>, ids: seq<int>, i: nat, source: Source, trigger: Trigger, now: int)
    requires i < |ids| && ids[i] in t.addresses
    ensures Continued(notices, DisableAddresses(t, ids[i..], source, trigger, now))
            == Continued(notices + [Notice(Disabled, ids[i], t.addresses[ids[i]].device)],
                         DisableAddresses(Record(t, ids[i], false, source, trigger, now), ids[i + 1..], source, trigger, now))
  {
    assert ids[i..][1..] == ids[i + 1..];
    var one := [Notice(Disabled, ids[i], t.addresses[ids[i]].device)];
    var rest := DisableAddresses(Record(t, ids[i], false, source, trigger, now), ids[i + 1..], source, trigger, now);
    assert rest.Committed? ==> notices + (one + rest.notices) == notices + one + rest.notices;
  }

  class Store {
    var devices: map<int, Device>
    var keys: map<int, string>
    var addresses: map<int, Address>
    var log: seq<Event>

    ghost function Now(): Tables
      reads this
    {
      Tables(devices, keys, addresses, log)
    }

    /** A method's answer is what the transaction specified, and so is the state it leaves. */
    twostate predicate Did(step: Step, new answer: Result<seq<Notice>, Error>)
      reads this
    {
      && Now() == Next(old(Now()), step)
      && (match Apply(old(Now()), step)
          case Committed(_, notices) => answer == Ok(notices)
          case Failed(e) => answer == Err(e))
    }

    constructor ()
      ensures Now() == EMPTY
    {
      devices, keys, addresses, log := map[], map[], map[], [];
    }

    method RecordAddressEvent(a: int, enabled: bool, source: Source, trigger: Trigger, now: int)
      requires a in addresses
      modifies this`addresses, this`log
      ensures Now() == Record(old(Now()), a, enabled, source, trigger, now)
    {
      log := log + [Event(a, enabled, source, trigger, now)];
      addresses := addresses[a := addresses[a].(enabled := enabled, source := source, updatedAt := now)];
    }

    method RegisterAddressActivity(d: int, ip: string, source: Source, trigger: Trigger, now: int, id: int)
      returns (answer: Result<seq<Notice>, Error>)
      requires Inv(Now()) && Possible(Now(), StepRegister(d, ip, source, trigger, now, id))
      modifies this
      ensures Did(StepRegister(d, ip, source, trigger, now, id), answer)
    {
      if d !in devices || devices[d].deleted {
        return Err(DeviceNotFound);
      }
      if devices[d].disabled {
        return Err(DeviceIsDisabled);
      }
      if a :| a in addresses && addresses[a].device == d && addresses[a].ip == ip {
        assert forall b :: b in RowsFor(Now(), d, ip) ==> SameKey(addresses[a], addresses[b]);
        assert a in RowsFor(Now(), d, ip);
        var kind := if addresses[a].enabled then Refreshed else Enabled;
        RecordAddressEvent(a, true, source, trigger, now);
        return Ok([Notice(kind, a, d)]);
      }
      addresses := addresses[id := Address(d, ip, true, source, now)];
      log := log + [Event(id, true, source, trigger, now)];
      answer := Ok([Notice(Created, id, d)]);
    }

    method DisableOne(d: int, a: int, now: int) returns (answer: Result<seq<Notice>, Error>)
      modifies this
      ensures Did(StepDisableAddress(d, a, now), answer)
    {
      if d !in devices || devices[d].deleted {
        return Err(DeviceNotFound);
      }
      if a !in addresses || addresses[a].device != d {
        return Err(NotOwned);
      }
      RecordAddressEvent(a, false, WebUI, User, now);
      answer := Ok([Notice(Disabled, a, d)]);
    }

    /** The loop of the repository's DisableAddresses; an unknown address rolls the whole batch back. */
    method DisableMany(ids: seq<int>, source: Source, trigger: Trigger, now: int)
      returns (answer: Result<seq<Notice>, Error>)
      modifies this`addresses, this`log
      ensures Did(StepDisableAddresses(ids, source, trigger, now), answer)
    {
      var addresses0, log0 := addresses, log;
      ghost var spec := DisableAddresses(Now(), ids, source, trigger, now);
      var notices := [];
      assert ids[0..] == ids && Continued([], spec) == spec by { NothingYet(spec); }
      for i := 0 to |ids|
        invariant devices == old(devices) && keys == old(keys)
        invariant Continued(notices, DisableAddresses(Now(), ids[i..], source, trigger, now)) == spec
      {
        if ids[i] !in addresses {
          addresses, log := addresses0, log0;
          return Err(AddressNotFound);
        }
        ContinueBatch(Now(), notices, ids, i, source, trigger, now);
        notices := notices + [Notice(Disabled, ids[i], addresses[ids[i]].device)];
        RecordAddressEvent(ids[i], false, source, trigger, now);
      }
      assert ids[|ids|..] == [] && notices + [] == notices;
      answer := Ok(notices);
    }

    method Delete(d: int, enabled: seq<int>, now: int) returns (answer: Result<seq<Notice>, Error>)
      modifies this
      ensures Did(StepDeleteDevice(d, enabled, now), answer)
    {
      if d !in devices || devices[d].deleted {
        return Err(DeviceNotFound);
      }
      var devices0 := devices;
      devices := devices[d := devices[d].(deleted := true)];
      answer := DisableMany(enabled, WebUI, User, now);
      if answer.Err? {
        devices := devices0;
        return;
      }
      keys := keys - {d};
    }

    method Disable(d: int, enabled: seq<int>, now: int) returns (answer: Result<seq<Notice>, Error>)
      requires Inv(Now()) && Possible(Now(), StepDisableDevice(d, enabled, now))
      modifies this
      ensures Did(StepDisableDevice(d, enabled, now), answer)
    {
      if d !in devices || devices[d].deleted {
        return Err(DeviceNotFound);
      }
      answer := DisableMany(enabled, WebUI, User, now);
      if answer.Err? {
        return;
      }
      ListIsKnown(old(Now()), d, enabled);
      DisableAddressesEffect(old(Now()), enabled, WebUI, User, now);
      devices := devices[d := devices[d].(disabled := true)];
    }

    method Enable(d: int) returns (answer: Result<seq<Notice>, Error>)
      modifies this`devices
      ensures Did(StepEnableDevice(d), answer)
    {
      if d !in devices || devices[d].deleted {
        return Err(DeviceNotFound);
      }
      devices := devices[d := devices[d].(disabled := false)];
      answer := Ok([]);
    }

    /** And whether the device observers are to hear of a new owner. */
    method UpdateDevice(d: int, owner: Option<int>) returns (answer: Result<seq<Notice>, Error>, moved: bool)
      modifies this`devices
      ensures Did(StepUpdateDevice(d, owner), answer)
      ensures moved <==> exists u :: d in OwnedBy(old(Now()), u) && d !in OwnedBy(Now(), u)
    {
      if d !in devices || devices[d].deleted {
        return Err(DeviceNotFound), false;
      }
      moved := owner.Some? && owner.value != devices[d].owner;
      assert d in OwnedBy(Now(), devices[d].owner);
      if owner.Some? {
        devices := devices[d := devices[d].(owner := owner.value)];
      }
      answer := Ok([]);
    }

    method RegenerateKey(d: int, key: string) returns (answer: Result<seq<Notice>, Error>)
      modifies this`keys
      ensures Did(StepRegenerateKey(d, key), answer)
    {
      if d !in devices || devices[d].deleted {
        return Err(DeviceNotFound);
      }
      keys := keys[d := key];
      answer := Ok([]);
    }

    method GetDeviceIDsByOwner(u: int) returns (owned: seq<int>)
      ensures Distinct(owned) && forall d :: d in owned <==> d in OwnedBy(Now(), u)
    {
      owned := [];
      var todo := devices.Keys;
      while |todo| > 0
        invariant todo <= devices.Keys && Distinct(owned)
        invariant forall d :: d in owned <==> d in OwnedBy(Now(), u) && d !in todo
      {
        if d :| d in todo {
          if devices[d].owner == u && !devices[d].deleted {
            owned := owned + [d];
          }
          todo := todo - {d};
        } else {
          break;
        }
      }
    }

    /** OnUserEvent for a deleted user: its devices, each with its enabled list, deleted one by one. */
    method OnUserDeleted(u: int, lists: map<int, seq<int>>, now: int)
      requires Inv(Now()) && NotBefore(log, now)
      requires forall d :: d in OwnedBy(Now(), u) ==> d in lists && IsEnabledList(Now(), d, lists[d])
      modifies this
      ensures UserLeft(old(Now()), Now(), u)
    {
      var owned := GetDeviceIDsByOwner(u);
      UserLeavesNothing(Now(), u, owned, lists, now);
      for i := 0 to |owned|
        invariant forall d :: d in owned[i..] ==> d in lists
        invariant DeletedAll(Now(), owned[i..], lists, now) == DeletedAll(old(Now()), owned, lists, now)
      {
        assert owned[i..][0] == owned[i] && owned[i..][1..] == owned[i + 1..];
        label before:
        var answer := Delete(owned[i], lists[owned[i]], now);
        assert Now() == Next(old@before(Now()), StepDeleteDevice(owned[i], lists[owned[i]], now));
      }
    }

    /** DeleteAddressEventsOlderThan. */
    method PruneEvents(before: int)
      modifies this`log
      ensures Now() == Next(old(Now()), StepPrune(before))
    {
      var kept := [];
      for i := 0 to |log|
        invariant log == old(log) && kept + Pruned(log[i..], before) == Pruned(log, before)
      {
        assert log[i..][1..] == log[i + 1..];
        if log[i].at >= before {
          kept := kept + [log[i]];
        }
      }
      log := kept;
    }
  }
}
