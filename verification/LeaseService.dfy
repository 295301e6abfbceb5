/** The lease service as it runs: two bounded channels and the lease table, updated in place. */
module LeaseService {
  import opened Common
  import opened Registry
  import opened LeaseProtocol
  import RegistryStore

  /** One turn of the listener loop on an idle state, uninterrupted: the rule channel or the event channel. */
  ghost function Turn(s: State, fromRules: bool, now: int): State
    requires s.listener.Idle? && (if fromRules then s.ruleEvents != [] else s.events != [])
  {
    if fromRules then After(After(s, TakeRule), ApplyRule)
    else
      var taken := After(s, TakeNotice);
      if taken.listener.n.kind != Disabled then After(After(taken, ReadTTL), WriteLease(now)) else After(taken, ClearLease)
  }

  predicate RunOut(leases: map<int, Lease>, a: int, now: int) {
    a in leases && leases[a].expiresAt.Some? && leases[a].expiresAt.value <= now
  }

  /** The registry after an expiry run: the addresses whose lease has run out are off, and nothing else has changed. */
  ghost predicate ExpiryRan(t: Tables, t': Tables, leases: map<int, Lease>, now: int) {
    && t'.devices == t.devices && t'.keys == t.keys && t'.addresses.Keys == t.addresses.Keys
    && forall a :: a in t.addresses ==>
      if RunOut(leases, a, now) then !t'.addresses[a].enabled else t'.addresses[a] == t.addresses[a]
  }

  /**
   What the expiry job takes when all is quiet: an address that was on has a lease, and is off afterwards if and
   only if its device's rule is enabled and its TTL, counted from when the lease was last written, has run out.
   */
  lemma ExpiryTakesExactly(s: State, actions: seq<Action>, t': Tables, now: int, a: int)
    requires Tracks(s) && OrderlyRun(s, actions) && Quiescent(LeaseProtocol.Run(s, actions))
    requires ExpiryRan(LeaseProtocol.Run(s, actions).reg, t', LeaseProtocol.Run(s, actions).leases, now)
    requires IsEnabled(LeaseProtocol.Run(s, actions).reg, a)
    ensures var q := LeaseProtocol.Run(s, actions);
            var d := q.reg.addresses[a].device;
            && a in q.leases
            && (!IsEnabled(t', a) <==>
                d in q.rules && q.rules[d].enabled && q.leases[a].updatedAt + q.rules[d].ttl <= now)
            && (IsEnabled(t', a) ==> t'.addresses[a] == q.reg.addresses[a])
  {
    var q := LeaseProtocol.Run(s, actions);
    LeasesConverge(s, actions, a);
    assert a in t'.addresses.Keys;
  }

  /** So whatever is still on was on before, and is within its time. */
  lemma EnabledAreWithinTTL(s: State, actions: seq<Action>, t': Tables, now: int, a: int)
    requires Tracks(s) && OrderlyRun(s, actions) && Quiescent(LeaseProtocol.Run(s, actions))
    requires ExpiryRan(LeaseProtocol.Run(s, actions).reg, t', LeaseProtocol.Run(s, actions).leases, now) && IsEnabled(t', a)
    ensures var q := LeaseProtocol.Run(s, actions);
            var d := t'.addresses[a].device;
            && IsEnabled(q.reg, a) && a in q.leases
            && (d in q.rules && q.rules[d].enabled ==> q.leases[a].updatedAt + q.rules[d].ttl > now)
  {
    var q := LeaseProtocol.Run(s, actions);
    assert a in q.reg.addresses.Keys;
    assert IsEnabled(q.reg, a);
    ExpiryTakesExactly(s, actions, t', now, a);
  }

  /** And the notices of that run take the leases that had run out with them, whatever else goes on. */
  lemma ExpiryClearsLeases(s: State, ids: seq<int>, now: int, actions: seq<Action>, a: int)
    requires Tracks(s) && NotBefore(s.reg.log, now) && RunOut(s.leases, a, now)
    requires forall b :: b in ids <==> RunOut(s.leases, b, now)
    requires var s1 := After(s, Commit(StepDisableAddresses(ids, Expiry, System, now)));
             && LetBeRun(s1, actions, a) && Quiescent(LeaseProtocol.Run(s1, actions))
    ensures a !in LeaseProtocol.Run(After(s, Commit(StepDisableAddresses(ids, Expiry, System, now))), actions).leases
  {
    var step := StepDisableAddresses(ids, Expiry, System, now);
    var s1 := After(s, Commit(step));
    KnownLeases(s, ids, now);
    DisableAddressesEffect(s.reg, ids, Expiry, System, now);
    var i :| 0 <= i < |ids| && ids[i] == a;
    assert NoticesOf(s.reg, step)[i].address == a;
    AnnouncementHeals(s, step, a);
    StepKeepsInv(s.reg, step);
    RestingLeaseIsRightIff(s1, actions, a);
  }

  /**
   An enabled address that was left without a lease stays so, whatever else goes on, until something announces
   it: whenever all is quiet again, the expiry job does not find it, TTL or no TTL.
   */
  lemma UnleasedNeverExpires(s: State, actions: seq<Action>, a: int, d: int, now: int)
    requires Unleased(s, a, d) && LetBeRun(s, actions, a) && Quiescent(LeaseProtocol.Run(s, actions))
    ensures var s' := LeaseProtocol.Run(s, actions); IsEnabled(s'.reg, a) && !RunOut(s'.leases, a, now)
  {
    RestingLeaseIsRightIff(s, actions, a);
  }

  lemma SameLeases(l: map<int, Lease>, m: map<int, Lease>)
    requires l.Keys == m.Keys && forall a :: a in l && a in m ==> l[a] == m[a]
    ensures l == m
  {
    forall a
      ensures (a in l <==> a in m) && (a in l ==> l[a] == m[a])
    {
      assert a in l.Keys <==> a in m.Keys;
    }
  }

  lemma KnownLeases(s: State, ids: seq<int>, now: int)
    requires WellAddressed(s) && forall b :: b in ids <==> RunOut(s.leases, b, now)
    ensures AllKnown(s.reg, ids)
  {
    forall i | 0 <= i < |ids|
      ensures ids[i] in s.reg.addresses
    {
      var b := ids[i];
      assert b in ids && b in s.leases;
    }
  }

  class Service {
    var leases: map<int, Lease>
    var events: seq<Notice>
    var ruleEvents: seq<RuleEvent>

    /** The service holds the lease side of state s. */
    ghost predicate Holds(s: State)
      reads this
    {
      leases == s.leases && events == s.events && ruleEvents == s.ruleEvents
    }

    constructor ()
      ensures leases == map[] && events == [] && ruleEvents == []
    {
      leases, events, ruleEvents := map[], [], [];
    }

    /** With the request cancelled, either case of the select may be taken; when the channel is full, neither sends. */
    method OnAddressEvent(event: Notice, cancelled: bool) returns (kept: bool)
      modifies this`events
      ensures events == Offered(old(events), event, kept)
      ensures kept ==> |old(events)| < 500
      ensures !cancelled && |old(events)| < 500 ==> kept
    {
      if cancelled {
        if * {
          return false;
        }
      }
      kept := |events| < CHANNEL;
      if kept {
        events := events + [event];
      }
    }

    /** Whatever the type of the rule. */
    method OnRuleEvent(event: RuleEvent, cancelled: bool) returns (kept: bool)
      modifies this`ruleEvents
      ensures ruleEvents == Offered(old(ruleEvents), event, kept)
      ensures kept ==> |old(ruleEvents)| < 500
      ensures !cancelled && |old(ruleEvents)| < 500 ==> kept
    {
      if cancelled {
        if * {
          return false;
        }
      }
      kept := |ruleEvents| < CHANNEL;
      if kept {
        ruleEvents := ruleEvents + [event];
      }
    }

    method AddAddressLease(device: int, address: int, ttl: Option<nat>, now: int)
      modifies this`leases
      ensures leases.Keys == old(leases).Keys + {address}
      ensures forall a :: a in old(leases) && a != address ==> leases[a] == old(leases)[a]
      ensures leases[address].device == device && leases[address].updatedAt == now && Current(leases[address], ttl)
    {
      leases := leases[address := Lease(device, ExpiresAtFromTTL(now, ttl), now)];
    }

    method ClearAddressLease(address: int)
      modifies this`leases
      ensures leases.Keys == old(leases).Keys - {address} && forall a :: a in leases ==> leases[a] == old(leases)[a]
    {
      leases := leases - {address};
    }

    /** SetDeviceAddressLeasesExpiry, row by row. */
    method SetDeviceAddressLeasesExpiry(e: RuleEvent)
      modifies this`leases
      ensures leases == Rearmed(old(leases), e)
      ensures forall a :: a in leases ==>
        a in old(leases) && leases[a].device == old(leases)[a].device
        && if leases[a].device == e.device then leases[a].updatedAt == e.at && Current(leases[a], e.ttl)
           else leases[a] == old(leases)[a]
    {
      var todo := leases.Keys;
      while |todo| > 0
        invariant todo <= leases.Keys == old(leases).Keys
        invariant forall a :: a in leases ==>
          leases[a] == if a in todo then old(leases)[a] else Rearmed(old(leases), e)[a]
      {
        if a :| a in todo {
          if leases[a].device == e.device {
            leases := leases[a := Lease(e.device, ExpiresAtFromTTL(e.at, e.ttl), e.at)];
          }
          todo := todo - {a};
        } else {
          break;
        }
      }
      assert leases.Keys == Rearmed(old(leases), e).Keys;
      assert forall a :: a in leases ==> leases[a] == Rearmed(old(leases), e)[a];
    }

    /** GetExpiredAddressIDs: which leases the expiry job finds run out. */
    method GetExpiredAddressIDs(now: int) returns (ids: seq<int>)
      ensures Distinct(ids)
      ensures forall a :: a in ids <==> RunOut(leases, a, now)
    {
      ids := [];
      var todo := leases.Keys;
      while |todo| > 0
        invariant todo <= leases.Keys && Distinct(ids)
        invariant forall a :: a in ids ==> a !in todo
        invariant forall a :: a in ids <==>
          a in leases && a !in todo && leases[a].expiresAt.Some? && leases[a].expiresAt.value <= now
      {
        if a :| a in todo {
          if leases[a].expiresAt.Some? && leases[a].expiresAt.value <= now {
            ids := ids + [a];
          }
          todo := todo - {a};
        } else {
          break;
        }
      }
    }

    /**
     The expiry job, run against the registry: the addresses whose lease has run out are disabled in one
     transaction, and no others. The leases themselves go when the notices come back.
     */
    method RunExpiry(store: RegistryStore.Store, now: int) returns (answer: Result<seq<Notice>, Registry.Error>)
      requires Inv(store.Now()) && NotBefore(store.log, now) && forall a :: a in leases ==> a in store.addresses
      modifies store
      ensures answer.Ok? && Inv(store.Now()) && ExpiryRan(old(store.Now()), store.Now(), leases, now)
      ensures forall n :: n in answer.value ==> n.kind == Disabled && RunOut(leases, n.address, now)
      ensures forall a :: RunOut(leases, a, now) ==> exists n :: n in answer.value && n.address == a
      ensures exists rows :: store.log == old(store.log) + rows
                             && Account(rows, answer.value, Some(Attribution(Expiry, System, now)))
    {
      var ids := GetExpiredAddressIDs(now);
      ghost var t := store.Now();
      if |ids| == 0 {
        assert ids == [];
        assert store.log == old(store.log) + [] && Account([], [], Some(Attribution(Expiry, System, now)));
        return Ok([]);
      }
      assert forall i :: 0 <= i < |ids| ==> ids[i] in ids;
      DisableAddressesEffect(t, ids, Expiry, System, now);
      StepKeepsInv(t, StepDisableAddresses(ids, Expiry, System, now));
      ghost var rows := StepIsLogged(t, StepDisableAddresses(ids, Expiry, System, now));
      answer := store.DisableMany(ids, Expiry, System, now);
      forall a | RunOut(leases, a, now)
        ensures exists n :: n in answer.value && n.address == a
      {
        var i :| 0 <= i < |ids| && ids[i] == a;
        assert answer.value[i] in answer.value;
      }
    }

    /** One iteration of RunListener. */
    method Listen(ghost s: State, rules: map<int, Rule>, fromRules: bool, now: int)
      requires Holds(s) && s.rules == rules && s.listener.Idle?
      requires if fromRules then ruleEvents != [] else events != []
      modifies this
      ensures Holds(Turn(s, fromRules, now))
    {
      if fromRules {
        var event := ruleEvents[0];
        ruleEvents := ruleEvents[1..];
        if event.of != DeviceAddressLease {
          return;
        }
        SetDeviceAddressLeasesExpiry(event);
      } else {
        var event := events[0];
        events := events[1..];
        if event.kind != Disabled {
          var ttl := if event.device in rules && rules[event.device].enabled then Some(rules[event.device].ttl) else None;
          AddAddressLease(event.device, event.address, ttl, now);
          assert leases[event.address] == Lease(event.device, ExpiresAtFromTTL(now, ttl), now);
          SameLeases(leases, old(leases)[event.address := leases[event.address]]);
        } else {
          ClearAddressLease(event.address);
          SameLeases(leases, old(leases) - {event.address});
        }
      }
    }
  }

  /** A turn of the loop keeps the lease table tracking the registry. */
  lemma TurnTracks(s: State, fromRules: bool, now: int)
    requires Tracks(s) && s.listener.Idle? && (if fromRules then s.ruleEvents != [] else s.events != [])
    ensures Tracks(Turn(s, fromRules, now)) && Turn(s, fromRules, now).listener.Idle?
  {
    if fromRules {
      ActionTracks(s, TakeRule);
      ActionTracks(After(s, TakeRule), ApplyRule);
    } else {
      var taken := After(s, TakeNotice);
      ActionTracks(s, TakeNotice);
      if taken.listener.n.kind != Disabled {
        ActionTracks(taken, ReadTTL);
        ActionTracks(After(taken, ReadTTL), WriteLease(now));
      } else {
        ActionTracks(taken, ClearLease);
      }
    }
  }
}
