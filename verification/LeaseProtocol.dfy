/**
 The lease table against the address registry: transactions commit, their notices are sent later, the
 lease listener picks notices and rule changes off two bounded channels in any interleaving, and
 between reading a TTL and writing a lease anything may happen. What is sent may be lost: to a full
 channel, or because the request it came from has been cancelled.
 */
module LeaseProtocol {
  import opened Common
  import opened Registry

  const CHANNEL := 500

  datatype Rule = Rule(enabled: bool, ttl: nat)

  datatype Lease = Lease(device: int, expiresAt: Option<int>, updatedAt: int)

  datatype RuleType = DeviceAddressLease | MaxActiveAddresses

  datatype RuleEvent = RuleEvent(of: RuleType, device: int, ttl: Option<nat>, at: int)

  datatype Listener = Idle | HasNotice(n: Notice) | HasTTL(n: Notice, ttl: Option<nat>) | HasRule(e: RuleEvent)

  /**
   outbox and ruleOutbox hold what has been committed but not yet offered to the listener, in commit
   order; events and ruleEvents are the channels. Changes of every type of rule go through ruleEvents,
   and the listener passes over those that are not about leases.
   */
  datatype State = State(
    reg: Tables,
    rules: map<int, Rule>,
    leases: map<int, Lease>,
    outbox: seq<Notice>,
    events: seq<Notice>,
    ruleOutbox: seq<RuleEvent>,
    ruleEvents: seq<RuleEvent>,
    listener: Listener)

  function ExpiresAtFromTTL(now: int, ttl: Option<nat>): Option<int> {
    if ttl.Some? then Some(now + ttl.value) else None
  }

  /** GetDeviceAddressLeaseTTLSeconds: nothing without an enabled rule. */
  function CurrentTTL(s: State, d: int): Option<nat> {
    if d in s.rules && s.rules[d].enabled then Some(s.rules[d].ttl) else None
  }

  datatype Action =
    | Commit(step: Step)
    | EnableRule(d: int, ttl: nat, at: int)
    | DisableRule(d: int, at: int)
    | ChangeCap(d: int, at: int)
    | Send(i: nat, kept: bool)
    | SendRule(i: nat, kept: bool)
    | TakeNotice
    | TakeRule
    | ReadTTL
    | WriteLease(now: int)
    | ClearLease
    | ApplyRule

  /** A send is kept only if there is room, and may be lost even then. */
  ghost predicate Ready(s: State, action: Action) {
    match action
    case Commit(step) => Possible(s.reg, step)
    case Send(i, kept) => i < |s.outbox| && (kept ==> |s.events| < CHANNEL)
    case SendRule(i, kept) => i < |s.ruleOutbox| && (kept ==> |s.ruleEvents| < CHANNEL)
    case TakeNotice => s.listener.Idle? && s.events != []
    case TakeRule => s.listener.Idle? && s.ruleEvents != []
    case ReadTTL => s.listener.HasNotice? && s.listener.n.kind != Disabled
    case WriteLease(_) => s.listener.HasTTL?
    case ClearLease => s.listener.HasNotice? && s.listener.n.kind == Disabled
    case ApplyRule => s.listener.HasRule?
    case _ => true
  }

  function Offered<T>(channel: seq<T>, x: T, kept: bool): seq<T> {
    if kept then channel + [x] else channel
  }

  /** UPDATE address_leases SET expires_at, updated_at WHERE device_id. */
  function Rearmed(leases: map<int, Lease>, e: RuleEvent): map<int, Lease> {
    map a | a in leases ::
      if leases[a].device == e.device then Lease(e.device, ExpiresAtFromTTL(e.at, e.ttl), e.at) else leases[a]
  }

  ghost function After(s: State, action: Action): State
    requires Ready(s, action)
  {
    match action
    case Commit(step) => s.(reg := Next(s.reg, step), outbox := s.outbox + NoticesOf(s.reg, step))
    case EnableRule(d, ttl, at) =>
      s.(rules := s.rules[d := Rule(true, ttl)],
         ruleOutbox := s.ruleOutbox + [RuleEvent(DeviceAddressLease, d, Some(ttl), at)])
    case DisableRule(d, at) =>
      if d !in s.rules then s
      else
        s.(rules := s.rules[d := s.rules[d].(enabled := false)],
           ruleOutbox := s.ruleOutbox + [RuleEvent(DeviceAddressLease, d, None, at)])
    case ChangeCap(d, at) => s.(ruleOutbox := s.ruleOutbox + [RuleEvent(MaxActiveAddresses, d, None, at)])
    case Send(i, kept) => s.(outbox := RemoveAt(s.outbox, i), events := Offered(s.events, s.outbox[i], kept))
    case SendRule(i, kept) =>
      s.(ruleOutbox := RemoveAt(s.ruleOutbox, i), ruleEvents := Offered(s.ruleEvents, s.ruleOutbox[i], kept))
    case TakeNotice => s.(listener := HasNotice(s.events[0]), events := s.events[1..])
    case TakeRule => s.(listener := HasRule(s.ruleEvents[0]), ruleEvents := s.ruleEvents[1..])
    case ReadTTL => s.(listener := HasTTL(s.listener.n, CurrentTTL(s, s.listener.n.device)))
    case WriteLease(now) =>
      var n := s.listener.n;
      s.(leases := s.leases[n.address := Lease(n.device, ExpiresAtFromTTL(now, s.listener.ttl), now)], listener := Idle)
    case ClearLease => s.(leases := s.leases - {s.listener.n.address}, listener := Idle)
    case ApplyRule =>
      s.(leases := if s.listener.e.of == DeviceAddressLease then Rearmed(s.leases, s.listener.e) else s.leases,
         listener := Idle)
  }

  function About(ns: seq<Notice>, a: int): seq<Notice> {
    if ns == [] then [] else (if ns[0].address == a then [ns[0]] else []) + About(ns[1..], a)
  }

  /** The change is of the lease rule of this device. */
  predicate Touches(e: RuleEvent, d: int) {
    e.of == DeviceAddressLease && e.device == d
  }

  function AboutDevice(es: seq<RuleEvent>, d: int): seq<RuleEvent> {
    if es == [] then [] else (if Touches(es[0], d) then [es[0]] else []) + AboutDevice(es[1..], d)
  }

  function InHand(l: Listener): seq<Notice> {
    match l case HasNotice(n) => [n] case HasTTL(n, _) => [n] case _ => []
  }

  function RuleInHand(l: Listener): seq<RuleEvent> {
    match l case HasRule(e) => [e] case _ => []
  }

  function Notices(s: State): seq<Notice> {
    InHand(s.listener) + s.events + s.outbox
  }

  function RuleChanges(s: State): seq<RuleEvent> {
    RuleInHand(s.listener) + s.ruleEvents + s.ruleOutbox
  }

  /** Notices about an address that the lease table has yet to absorb, oldest first. */
  function Pending(s: State, a: int): seq<Notice> {
    About(Notices(s), a)
  }

  function PendingRules(s: State, d: int): seq<RuleEvent> {
    AboutDevice(RuleChanges(s), d)
  }

  /** The lease table, read through what is pending, agrees with the registry. */
  ghost predicate LeaseTracks(s: State, a: int) {
    var p := Pending(s, a);
    if p == [] then a in s.leases <==> IsEnabled(s.reg, a)
    else p[|p| - 1].kind != Disabled <==> IsEnabled(s.reg, a)
  }

  /** The leases of a device, read through the pending rule changes, carry its current TTL. */
  ghost predicate TTLTracks(s: State, d: int) {
    var p := PendingRules(s, d);
    if p != [] then p[|p| - 1].ttl == CurrentTTL(s, d)
    else
      && (forall a :: a in s.leases && s.leases[a].device == d ==> Current(s.leases[a], CurrentTTL(s, d)))
      && (s.listener.HasTTL? && s.listener.n.device == d ==> s.listener.ttl == CurrentTTL(s, d))
  }

  predicate Current(l: Lease, ttl: Option<nat>) {
    l.expiresAt == ExpiresAtFromTTL(l.updatedAt, ttl)
  }

  /** Every notice and lease names its address's own device. */
  ghost predicate WellAddressed(s: State) {
    && (forall i :: 0 <= i < |Notices(s)| ==> Owned(s, Notices(s)[i]))
    && (forall a :: a in s.leases ==> a in s.reg.addresses && s.leases[a].device == s.reg.addresses[a].device)
  }

  ghost predicate Owned(s: State, n: Notice) {
    n.address in s.reg.addresses && n.device == s.reg.addresses[n.address].device
  }

  ghost predicate Tracks(s: State) {
    && Inv(s.reg) && WellAddressed(s)
    && (s.listener.HasTTL? ==> s.listener.n.kind != Disabled)
    && (forall a :: LeaseTracks(s, a))
    && (forall d :: TTLTracks(s, d))
  }

  predicate SameFlag(m: Notice, n: Notice) {
    m.kind == Disabled <==> n.kind == Disabled
  }

  /**
   The notice may be sent now, in turn or out of turn, kept or lost: what stays pending about its
   address still ends with the state it announces.
   */
  predicate Harmless(s: State, i: nat, kept: bool)
    requires i < |s.outbox|
  {
    var x := s.outbox[i];
    var earlier, later := About(s.outbox[..i], x.address), About(s.outbox[i + 1..], x.address);
    var offered := About(InHand(s.listener) + s.events, x.address);
    later != []
    || (if earlier != [] then SameFlag(earlier[|earlier| - 1], x)
        else if kept then true
        else if offered != [] then SameFlag(offered[|offered| - 1], x)
        else (x.address in s.leases <==> x.kind != Disabled))
  }

  /** The device's leases, and a TTL read for one of them, already carry this TTL. */
  ghost predicate LeasesCarry(s: State, d: int, ttl: Option<nat>) {
    && (forall a :: a in s.leases && s.leases[a].device == d ==> Current(s.leases[a], ttl))
    && (s.listener.HasTTL? && s.listener.n.device == d ==> s.listener.ttl == ttl)
  }

  /**
   The rule change may be sent now, in turn or out of turn, kept or lost: it is not about leases, or what
   stays pending about its device still ends with its TTL, or the device's leases carry it already.
   */
  ghost predicate HarmlessRule(s: State, i: nat, kept: bool)
    requires i < |s.ruleOutbox|
  {
    var x := s.ruleOutbox[i];
    var earlier, later := AboutDevice(s.ruleOutbox[..i], x.device), AboutDevice(s.ruleOutbox[i + 1..], x.device);
    var offered := AboutDevice(RuleInHand(s.listener) + s.ruleEvents, x.device);
    x.of != DeviceAddressLease
    || later != []
    || (if earlier != [] then earlier[|earlier| - 1].ttl == x.ttl
        else if kept then true
        else if offered != [] then offered[|offered| - 1].ttl == x.ttl
        else LeasesCarry(s, x.device, x.ttl))
  }

  ghost predicate Orderly(s: State, action: Action)
    requires Ready(s, action)
  {
    match action
    case Send(i, kept) => Harmless(s, i, kept)
    case SendRule(i, kept) => HarmlessRule(s, i, kept)
    case _ => true
  }

  lemma {:induction false} AboutConcat(x: seq<Notice>, y: seq<Notice>, a: int)
    ensures About(x + y, a) == About(x, a) + About(y, a)
  {
    if x == [] {
      assert x + y == y;
    } else {
      var head := if x[0].address == a then [x[0]] else [];
      assert (x + y)[0] == x[0] && (x + y)[1..] == x[1..] + y;
      AboutConcat(x[1..], y, a);
      assert head + (About(x[1..], a) + About(y, a)) == head + About(x[1..], a) + About(y, a);
    }
  }

  lemma {:induction false} AboutDeviceConcat(x: seq<RuleEvent>, y: seq<RuleEvent>, d: int)
    ensures AboutDevice(x + y, d) == AboutDevice(x, d) + AboutDevice(y, d)
  {
    if x == [] {
      assert x + y == y;
    } else {
      var head := if Touches(x[0], d) then [x[0]] else [];
      assert (x + y)[0] == x[0] && (x + y)[1..] == x[1..] + y;
      AboutDeviceConcat(x[1..], y, d);
      assert head + (AboutDevice(x[1..], d) + AboutDevice(y, d)) == head + AboutDevice(x[1..], d) + AboutDevice(y, d);
    }
  }

  lemma {:induction false} AboutNone(ns: seq<Notice>, a: int)
    ensures About(ns, a) == [] <==> forall i :: 0 <= i < |ns| ==> ns[i].address != a
    ensures About(ns, a) != [] ==> About(ns, a)[|About(ns, a)| - 1] in ns && About(ns, a)[|About(ns, a)| - 1].address == a
  {
    if ns != [] {
      AboutNone(ns[1..], a);
      assert ns == [ns[0]] + ns[1..];
      assert forall i :: 0 < i < |ns| ==> ns[i] == ns[1..][i - 1];
    }
  }

  lemma {:induction false} AboutDeviceNone(es: seq<RuleEvent>, d: int)
    ensures AboutDevice(es, d) == [] <==> forall i :: 0 <= i < |es| ==> !Touches(es[i], d)
  {
    if es != [] {
      AboutDeviceNone(es[1..], d);
      assert forall i :: 0 < i < |es| ==> es[i] == es[1..][i - 1];
    }
  }

  lemma AboutFour(p: seq<Notice>, q: seq<Notice>, r: seq<Notice>, t: seq<Notice>, a: int)
    ensures About(p + q + r + t, a) == About(p, a) + About(q, a) + About(r, a) + About(t, a)
  {
    AboutConcat(p, q, a);
    AboutConcat(p + q, r, a);
    AboutConcat(p + q + r, t, a);
  }

  lemma AboutDeviceFour(p: seq<RuleEvent>, q: seq<RuleEvent>, r: seq<RuleEvent>, t: seq<RuleEvent>, d: int)
    ensures AboutDevice(p + q + r + t, d) == AboutDevice(p, d) + AboutDevice(q, d) + AboutDevice(r, d) + AboutDevice(t, d)
  {
    AboutDeviceConcat(p, q, d);
    AboutDeviceConcat(p + q, r, d);
    AboutDeviceConcat(p + q + r, t, d);
  }

  lemma Split<T>(s: seq<T>, i: nat)
    requires i < |s|
    ensures s == s[..i] + [s[i]] + s[i + 1..]
  {}

  /** What a send leaves pending about any address. */
  lemma PendingAfterSend(s: State, i: nat, kept: bool, a: int)
    requires Ready(s, Send(i, kept))
    ensures var x := s.outbox[i];
            var offered := About(InHand(s.listener) + s.events, a);
            var earlier, later := About(s.outbox[..i], a), About(s.outbox[i + 1..], a);
            var mine := if x.address == a then [x] else [];
            && Pending(s, a) == offered + earlier + mine + later
            && Pending(After(s, Send(i, kept)), a)
               == offered + (if kept then mine else []) + earlier + later
  {
    var x, past, before, after := s.outbox[i], InHand(s.listener) + s.events, s.outbox[..i], s.outbox[i + 1..];
    var stays := if kept then [x] else [];
    NoticesAfterSend(s, i, kept);
    assert About([x], a) == if x.address == a then [x] else [];
    AboutFour(past, before, [x], after, a);
    AboutFour(past, stays, before, after, a);
  }

  lemma NoticesAfterSend(s: State, i: nat, kept: bool)
    requires Ready(s, Send(i, kept))
    ensures var x, past := s.outbox[i], InHand(s.listener) + s.events;
            && Notices(s) == past + s.outbox[..i] + [x] + s.outbox[i + 1..]
            && Notices(After(s, Send(i, kept))) == past + (if kept then [x] else []) + s.outbox[..i] + s.outbox[i + 1..]
  {
    Split(s.outbox, i);
  }

  lemma PendingAfterSendRule(s: State, i: nat, kept: bool, d: int)
    requires Ready(s, SendRule(i, kept))
    ensures var x := s.ruleOutbox[i];
            var offered := AboutDevice(RuleInHand(s.listener) + s.ruleEvents, d);
            var earlier, later := AboutDevice(s.ruleOutbox[..i], d), AboutDevice(s.ruleOutbox[i + 1..], d);
            var mine := if Touches(x, d) then [x] else [];
            && PendingRules(s, d) == offered + earlier + mine + later
            && PendingRules(After(s, SendRule(i, kept)), d)
               == offered + (if kept then mine else []) + earlier + later
  {
    var x, before, after := s.ruleOutbox[i], s.ruleOutbox[..i], s.ruleOutbox[i + 1..];
    var past := RuleInHand(s.listener) + s.ruleEvents;
    var stays := if kept then [x] else [];
    RuleChangesAfterSend(s, i, kept);
    assert AboutDevice([x], d) == if Touches(x, d) then [x] else [];
    AboutDeviceFour(past, before, [x], after, d);
    AboutDeviceFour(past, stays, before, after, d);
  }

  lemma RuleChangesAfterSend(s: State, i: nat, kept: bool)
    requires Ready(s, SendRule(i, kept))
    ensures var x, past := s.ruleOutbox[i], RuleInHand(s.listener) + s.ruleEvents;
            && RuleChanges(s) == past + s.ruleOutbox[..i] + [x] + s.ruleOutbox[i + 1..]
            && RuleChanges(After(s, SendRule(i, kept)))
               == past + (if kept then [x] else []) + s.ruleOutbox[..i] + s.ruleOutbox[i + 1..]
  {
    Split(s.ruleOutbox, i);
  }

  /** A commit brings the registry to reg' and appends truthful notices. */
  lemma CommitTracksAddress(s: State, s': State, ns: seq<Notice>, a: int)
    requires LeaseTracks(s, a) && Truthful(s.reg, s'.reg, ns)
    requires Notices(s') == Notices(s) + ns && s'.leases == s.leases
    ensures LeaseTracks(s', a)
  {
    AboutConcat(Notices(s), ns, a);
    AboutNone(ns, a);
    var mine := About(ns, a);
    if mine != [] {
      var last := mine[|mine| - 1];
      assert Tells(s'.reg, last);
      assert Pending(s', a)[|Pending(s', a)| - 1] == last;
    }
  }

  lemma CommitTracks(s: State, s': State, ns: seq<Notice>)
    requires Tracks(s) && Inv(s'.reg) && Truthful(s.reg, s'.reg, ns)
    requires s' == s.(reg := s'.reg, outbox := s.outbox + ns)
    ensures Tracks(s')
  {
    assert Notices(s') == Notices(s) + ns;
    forall a
      ensures LeaseTracks(s', a)
    {
      CommitTracksAddress(s, s', ns, a);
    }
    forall k | 0 <= k < |Notices(s')|
      ensures Owned(s', Notices(s')[k])
    {
      if k < |Notices(s)| {
        assert Owned(s, Notices(s)[k]);
      } else {
        assert Tells(s'.reg, ns[k - |Notices(s)|]);
      }
    }
    forall d
      ensures TTLTracks(s', d)
    {
      assert TTLTracks(s, d);
    }
  }

  lemma RuleTracks(s: State, e: RuleEvent, s': State)
    requires Tracks(s)
    requires s' == s.(rules := s'.rules, ruleOutbox := s.ruleOutbox + [e])
    requires forall d :: CurrentTTL(s', d) == if Touches(e, d) then e.ttl else CurrentTTL(s, d)
    ensures Tracks(s')
  {
    assert Notices(s') == Notices(s);
    assert RuleChanges(s') == RuleChanges(s) + [e];
    forall a
      ensures LeaseTracks(s', a)
    {
      assert LeaseTracks(s, a);
    }
    forall d
      ensures TTLTracks(s', d)
    {
      AboutDeviceConcat(RuleChanges(s), [e], d);
      assert AboutDevice([e], d) == if Touches(e, d) then [e] else [];
      assert TTLTracks(s, d);
    }
  }

  lemma SendTracksAddress(s: State, i: nat, kept: bool, a: int)
    requires Ready(s, Send(i, kept)) && LeaseTracks(s, a)
    ensures LeaseTracks(After(s, Send(i, kept)), a) <==> (s.outbox[i].address == a ==> Harmless(s, i, kept))
  {
    if s.outbox[i].address == a && About(s.outbox[i + 1..], a) == [] {
      SendTracksLast(s, i, kept);
    } else {
      SendElsewhere(s, i, kept, a);
    }
  }

  /** The last pending notice of an address is sent: its state is what must still be found at the end. */
  lemma SendTracksLast(s: State, i: nat, kept: bool)
    requires Ready(s, Send(i, kept)) && LeaseTracks(s, s.outbox[i].address)
    requires About(s.outbox[i + 1..], s.outbox[i].address) == []
    ensures LeaseTracks(After(s, Send(i, kept)), s.outbox[i].address) <==> Harmless(s, i, kept)
  {
    var x, a := s.outbox[i], s.outbox[i].address;
    PendingAfterSend(s, i, kept, a);
    LastThree(About(InHand(s.listener) + s.events, a), About(s.outbox[..i], a), x, if kept then [x] else []);
  }

  /**
   Sending a notice -- in turn or out of turn, kept or lost -- keeps the lease table tracking the
   registry if and only if the send is harmless.
   */
  lemma SendTracksExactly(s: State, i: nat, kept: bool)
    requires Tracks(s) && Ready(s, Send(i, kept))
    ensures Tracks(After(s, Send(i, kept))) <==> Harmless(s, i, kept)
  {
    var s' := After(s, Send(i, kept));
    forall a
      ensures LeaseTracks(s', a) <==> (s.outbox[i].address == a ==> Harmless(s, i, kept))
    {
      assert LeaseTracks(s, a);
      SendTracksAddress(s, i, kept, a);
    }
    assert LeaseTracks(s', s.outbox[i].address) <==> Harmless(s, i, kept);
    SendKeepsAddresses(s, i, kept);
    forall d
      ensures TTLTracks(s', d)
    {
      assert TTLTracks(s, d);
      SendKeepsTTL(s, i, kept, d);
    }
  }

  lemma SendKeepsAddresses(s: State, i: nat, kept: bool)
    requires WellAddressed(s) && Ready(s, Send(i, kept))
    ensures WellAddressed(After(s, Send(i, kept)))
  {
    var s' := After(s, Send(i, kept));
    forall k | 0 <= k < |Notices(s')|
      ensures Owned(s', Notices(s')[k])
    {
      assert Notices(s')[k] in Notices(s);
    }
  }

  lemma SendKeepsTTL(s: State, i: nat, kept: bool, d: int)
    requires TTLTracks(s, d) && Ready(s, Send(i, kept))
    ensures TTLTracks(After(s, Send(i, kept)), d)
  {
    assert RuleChanges(After(s, Send(i, kept))) == RuleChanges(s);
  }

  /** A step that moves no lease and no notice keeps every lease in step. */
  lemma SameLeaseSide(s: State, s': State)
    requires Tracks(s) && Notices(s') == Notices(s) && s'.reg == s.reg && s'.leases == s.leases
    ensures WellAddressed(s') && forall a :: LeaseTracks(s', a)
  {
    forall a
      ensures LeaseTracks(s', a)
    {
      assert LeaseTracks(s, a);
    }
  }

  lemma SameLast<T>(p: seq<T>, q: seq<T>, r: seq<T>, r': seq<T>, t: seq<T>)
    requires t != [] || (r == [] && r' == [])
    ensures var before, after := p + q + r + t, p + r' + q + t;
            && (before == [] <==> after == [])
            && (before != [] ==> before[|before| - 1] == after[|after| - 1])
  {}

  lemma LastTTL(s: State, s': State, d: int)
    requires s'.rules == s.rules && s'.leases == s.leases && s'.listener == s.listener
    requires var p, p' := PendingRules(s, d), PendingRules(s', d);
             && (p == [] <==> p' == []) && (p != [] ==> p'[|p'| - 1].ttl == p[|p| - 1].ttl)
    ensures TTLTracks(s', d) <==> TTLTracks(s, d)
  {}

  /** A device with a later change pending, or any other device, is untouched by a send. */
  lemma SendRuleElsewhere(s: State, i: nat, kept: bool, d: int)
    requires Ready(s, SendRule(i, kept)) && (Touches(s.ruleOutbox[i], d) ==> AboutDevice(s.ruleOutbox[i + 1..], d) != [])
    ensures TTLTracks(After(s, SendRule(i, kept)), d) <==> TTLTracks(s, d)
  {
    var mine := if Touches(s.ruleOutbox[i], d) then [s.ruleOutbox[i]] else [];
    PendingAfterSendRule(s, i, kept, d);
    SameLast(AboutDevice(RuleInHand(s.listener) + s.ruleEvents, d), AboutDevice(s.ruleOutbox[..i], d), mine,
             if kept then mine else [], AboutDevice(s.ruleOutbox[i + 1..], d));
    LastTTL(s, After(s, SendRule(i, kept)), d);
  }

  lemma LastThree<T>(p: seq<T>, q: seq<T>, x: T, kept: seq<T>)
    requires kept == [] || kept == [x]
    ensures var before, after := p + q + [x] + [], p + kept + q + [];
            && before != [] && before[|before| - 1] == x
            && (after == [] <==> p == [] && q == [] && kept == [])
            && (after != [] ==> after[|after| - 1] == if q != [] then q[|q| - 1] else if kept != [] then x else p[|p| - 1])
  {}

  /** The last pending change of a device is sent: its TTL is what must still be found at the end. */
  lemma SendLastRule(s: State, i: nat, kept: bool)
    requires Ready(s, SendRule(i, kept)) && TTLTracks(s, s.ruleOutbox[i].device)
    requires s.ruleOutbox[i].of == DeviceAddressLease
    requires AboutDevice(s.ruleOutbox[i + 1..], s.ruleOutbox[i].device) == []
    ensures TTLTracks(After(s, SendRule(i, kept)), s.ruleOutbox[i].device) <==> HarmlessRule(s, i, kept)
  {
    var x, d := s.ruleOutbox[i], s.ruleOutbox[i].device;
    var offered, earlier := AboutDevice(RuleInHand(s.listener) + s.ruleEvents, d), AboutDevice(s.ruleOutbox[..i], d);
    var stays := if kept then [x] else [];
    PendingAfterSendRule(s, i, kept, d);
    LastThree(offered, earlier, x, stays);
    assert x.ttl == CurrentTTL(s, d);
    CarryIsTracked(s, After(s, SendRule(i, kept)), d);
  }

  /** With nothing pending, a device is tracked exactly when its leases carry its TTL. */
  lemma CarryIsTracked(s: State, s': State, d: int)
    requires s'.rules == s.rules && s'.leases == s.leases && s'.listener == s.listener
    ensures PendingRules(s', d) == [] ==> (TTLTracks(s', d) <==> LeasesCarry(s, d, CurrentTTL(s, d)))
  {}

  lemma SendRuleTracksDevice(s: State, i: nat, kept: bool, d: int)
    requires Ready(s, SendRule(i, kept)) && TTLTracks(s, d)
    ensures TTLTracks(After(s, SendRule(i, kept)), d) <==> (Touches(s.ruleOutbox[i], d) ==> HarmlessRule(s, i, kept))
  {
    if Touches(s.ruleOutbox[i], d) && AboutDevice(s.ruleOutbox[i + 1..], d) == [] {
      SendLastRule(s, i, kept);
    } else {
      SendRuleElsewhere(s, i, kept, d);
    }
  }

  /**
   Sending a rule change -- in turn or out of turn, kept or lost -- keeps the leases' TTLs tracking the
   rules if and only if the send is harmless.
   */
  lemma SendRuleTracksExactly(s: State, i: nat, kept: bool)
    requires Tracks(s) && Ready(s, SendRule(i, kept))
    ensures Tracks(After(s, SendRule(i, kept))) <==> HarmlessRule(s, i, kept)
  {
    var s' := After(s, SendRule(i, kept));
    SameLeaseSide(s, s');
    forall d
      ensures TTLTracks(s', d) <==> (Touches(s.ruleOutbox[i], d) ==> HarmlessRule(s, i, kept))
    {
      assert TTLTracks(s, d);
      SendRuleTracksDevice(s, i, kept, d);
    }
    var x := s.ruleOutbox[i];
    assert TTLTracks(s', x.device) <==> (Touches(x, x.device) ==> HarmlessRule(s, i, kept));
  }

  /** Picking up an event, or reading the TTL for it, moves nothing but the listener. */
  lemma ListenerTracks(s: State, s': State)
    requires Tracks(s) && Notices(s') == Notices(s) && RuleChanges(s') == RuleChanges(s)
    requires s'.reg == s.reg && s'.rules == s.rules && s'.leases == s.leases
    requires s'.listener.HasTTL? ==>
               s'.listener.n.kind != Disabled && s'.listener.ttl == CurrentTTL(s, s'.listener.n.device)
    ensures Tracks(s')
  {
    forall a
      ensures LeaseTracks(s', a)
    {
      assert LeaseTracks(s, a);
    }
    forall d
      ensures TTLTracks(s', d)
    {
      assert TTLTracks(s, d);
    }
  }

  lemma AbsorbTracksAddress(s: State, s': State, n: Notice, a: int)
    requires LeaseTracks(s, a) && Notices(s) == [n] + Notices(s') && s'.reg == s.reg
    requires n.address in s'.leases <==> n.kind != Disabled
    requires forall b :: b != n.address ==> (b in s'.leases <==> b in s.leases)
    ensures LeaseTracks(s', a)
  {
    AboutConcat([n], Notices(s'), a);
    assert About([n], a) == if n.address == a then [n] else [];
  }

  lemma AbsorbTracksDevice(s: State, s': State, d: int)
    requires TTLTracks(s, d) && RuleChanges(s') == RuleChanges(s) && s'.rules == s.rules && s'.listener.Idle?
    requires forall a :: a in s'.leases && s'.leases[a].device == d ==>
               (a in s.leases && s'.leases[a] == s.leases[a])
               || (s.listener.HasTTL? && s.listener.n.device == d && Current(s'.leases[a], s.listener.ttl))
    ensures TTLTracks(s', d)
  {}

  lemma AbsorbKeepsAddresses(s: State, s': State, n: Notice)
    requires WellAddressed(s) && Notices(s) == [n] + Notices(s') && s'.reg == s.reg
    requires forall a :: a in s'.leases ==>
               (a in s.leases && s'.leases[a] == s.leases[a]) || (a == n.address && s'.leases[a].device == n.device)
    ensures WellAddressed(s')
  {
    assert Owned(s, Notices(s)[0]);
    forall k | 0 <= k < |Notices(s')|
      ensures Owned(s', Notices(s')[k])
    {
      assert Notices(s')[k] == Notices(s)[k + 1];
    }
  }

  /** Writing or clearing one lease absorbs exactly the notice in hand. */
  lemma WriteTracks(s: State, now: int)
    requires Tracks(s) && s.listener.HasTTL?
    ensures Tracks(After(s, WriteLease(now)))
  {
    var s', n := After(s, WriteLease(now)), s.listener.n;
    HandIsAbsorbed(s, s');
    assert s'.leases == s.leases[n.address := s'.leases[n.address]] && s'.leases[n.address].device == n.device;
    AbsorbKeepsAddresses(s, s', n);
    AbsorbTracksAll(s, s', n);
  }

  lemma HandIsAbsorbed(s: State, s': State)
    requires s.listener.HasNotice? || s.listener.HasTTL?
    requires s' == s.(listener := Idle, leases := s'.leases)
    ensures Notices(s) == [s.listener.n] + Notices(s') && RuleChanges(s') == RuleChanges(s)
  {}

  lemma ClearTracks(s: State)
    requires Tracks(s) && Ready(s, ClearLease)
    ensures Tracks(After(s, ClearLease))
  {
    var s', n := After(s, ClearLease), s.listener.n;
    HandIsAbsorbed(s, s');
    assert s'.leases == s.leases - {n.address};
    AbsorbKeepsAddresses(s, s', n);
    AbsorbTracksAll(s, s', n);
  }

  lemma AbsorbTracksAll(s: State, s': State, n: Notice)
    requires (forall a :: LeaseTracks(s, a)) && (forall d :: TTLTracks(s, d))
    requires Notices(s) == [n] + Notices(s') && RuleChanges(s') == RuleChanges(s) && s'.listener.Idle?
    requires s'.reg == s.reg && s'.rules == s.rules && InHand(s.listener) == [n]
    requires if n.kind == Disabled then s'.leases == s.leases - {n.address}
             else s.listener.HasTTL? && n.address in s'.leases && Current(s'.leases[n.address], s.listener.ttl)
                  && s'.leases == s.leases[n.address := s'.leases[n.address]]
                  && s'.leases[n.address].device == n.device
    ensures (forall a :: LeaseTracks(s', a)) && (forall d :: TTLTracks(s', d))
  {
    forall a
      ensures LeaseTracks(s', a)
    {
      AbsorbTracksAddress(s, s', n, a);
    }
    forall d
      ensures TTLTracks(s', d)
    {
      AbsorbTracksDevice(s, s', d);
    }
  }

  lemma ApplyRuleTracksDevice(s: State, s': State, e: RuleEvent, d: int)
    requires TTLTracks(s, d) && RuleChanges(s) == [e] + RuleChanges(s')
    requires s'.rules == s.rules && s'.listener.Idle? && s.listener.HasRule?
    requires s'.leases == if e.of == DeviceAddressLease then Rearmed(s.leases, e) else s.leases
    ensures TTLTracks(s', d)
  {
    AboutDeviceConcat([e], RuleChanges(s'), d);
    assert AboutDevice([e], d) == if Touches(e, d) then [e] else [];
  }

  lemma ApplyRuleTracks(s: State)
    requires Tracks(s) && s.listener.HasRule?
    ensures Tracks(After(s, ApplyRule))
  {
    var s', e := After(s, ApplyRule), s.listener.e;
    RuleIsAbsorbed(s, s');
    assert s'.leases.Keys == s.leases.Keys;
    assert forall a :: a in s'.leases ==> s'.leases[a].device == s.leases[a].device;
    AppliedLeaseSide(s, s');
    forall d
      ensures TTLTracks(s', d)
    {
      assert TTLTracks(s, d);
      ApplyRuleTracksDevice(s, s', e, d);
    }
  }

  lemma RuleIsAbsorbed(s: State, s': State)
    requires s.listener.HasRule? && s' == s.(listener := Idle, leases := s'.leases)
    ensures RuleChanges(s) == [s.listener.e] + RuleChanges(s') && Notices(s') == Notices(s)
  {}

  /** Redating leases moves none. */
  lemma AppliedLeaseSide(s: State, s': State)
    requires WellAddressed(s) && (forall a :: LeaseTracks(s, a)) && Notices(s') == Notices(s) && s'.reg == s.reg
    requires s'.leases.Keys == s.leases.Keys && forall a :: a in s'.leases ==> s'.leases[a].device == s.leases[a].device
    ensures WellAddressed(s') && forall a :: LeaseTracks(s', a)
  {
    forall a
      ensures LeaseTracks(s', a)
    {
      assert LeaseTracks(s, a);
      assert a in s'.leases.Keys <==> a in s.leases.Keys;
    }
    forall a | a in s'.leases
      ensures a in s'.reg.addresses && s'.leases[a].device == s'.reg.addresses[a].device
    {
      assert a in s.leases.Keys;
    }
  }

  lemma TransactionTracks(s: State, step: Step)
    requires Tracks(s) && Possible(s.reg, step)
    ensures Tracks(After(s, Commit(step)))
  {
    StepKeepsInv(s.reg, step);
    StepIsTruthful(s.reg, step);
    CommitTracks(s, After(s, Commit(step)), NoticesOf(s.reg, step));
  }

  lemma TakeTracks(s: State, action: Action)
    requires Tracks(s) && Ready(s, action) && (action.TakeNotice? || action.TakeRule?)
    ensures Tracks(After(s, action))
  {
    TakenIsInHand(s, action);
    ListenerTracks(s, After(s, action));
  }

  /** What is taken up is pending still. */
  lemma TakenIsInHand(s: State, action: Action)
    requires Ready(s, action) && (action.TakeNotice? || action.TakeRule?)
    ensures Notices(After(s, action)) == Notices(s) && RuleChanges(After(s, action)) == RuleChanges(s)
  {
    if action.TakeNotice? {
      assert s.events == [s.events[0]] + s.events[1..];
    } else {
      assert s.ruleEvents == [s.ruleEvents[0]] + s.ruleEvents[1..];
    }
  }

  /** An action keeps the lease table tracking the registry exactly when it is orderly. */
  lemma ActionTracks(s: State, action: Action)
    requires Tracks(s) && Ready(s, action)
    ensures Tracks(After(s, action)) <==> Orderly(s, action)
  {
    var s' := After(s, action);
    match action
    case Commit(step) => TransactionTracks(s, step);
    case EnableRule(d, ttl, at) => RuleTracks(s, RuleEvent(DeviceAddressLease, d, Some(ttl), at), s');
    case DisableRule(d, at) => if d in s.rules { RuleTracks(s, RuleEvent(DeviceAddressLease, d, None, at), s'); }
    case ChangeCap(d, at) => RuleTracks(s, RuleEvent(MaxActiveAddresses, d, None, at), s');
    case Send(i, kept) => SendTracksExactly(s, i, kept);
    case SendRule(i, kept) => SendRuleTracksExactly(s, i, kept);
    case TakeNotice => TakeTracks(s, action);
    case TakeRule => TakeTracks(s, action);
    case ReadTTL => ListenerTracks(s, s');
    case ApplyRule => ApplyRuleTracks(s);
    case WriteLease(now) => WriteTracks(s, now);
    case ClearLease => ClearTracks(s);
  }

  /** A sequence of actions, each ready where it happens. */
  ghost predicate ReadyRun(s: State, actions: seq<Action>)
    decreases |actions|
  {
    actions == [] || (Ready(s, actions[0]) && ReadyRun(After(s, actions[0]), actions[1..]))
  }

  /** And each orderly there. */
  ghost predicate OrderlyRun(s: State, actions: seq<Action>)
    ensures OrderlyRun(s, actions) ==> ReadyRun(s, actions)
    decreases |actions|
  {
    actions == []
    || (Ready(s, actions[0]) && Orderly(s, actions[0]) && OrderlyRun(After(s, actions[0]), actions[1..]))
  }

  ghost function Run(s: State, actions: seq<Action>): State
    requires ReadyRun(s, actions)
    decreases |actions|
  {
    if actions == [] then s else Run(After(s, actions[0]), actions[1..])
  }

  lemma {:induction false} RunTracks(s: State, actions: seq<Action>)
    requires Tracks(s) && OrderlyRun(s, actions)
    ensures Tracks(Run(s, actions))
    decreases |actions|
  {
    if actions != [] {
      ActionTracks(s, actions[0]);
      RunTracks(After(s, actions[0]), actions[1..]);
    }
  }

  /** An empty system, as after the first start. */
  const START := State(EMPTY, map[], map[], [], [], [], [], Idle)

  lemma StartTracks()
    ensures Tracks(START) && Quiescent(START)
  {}

  predicate Quiescent(s: State) {
    s.listener.Idle? && s.events == [] && s.outbox == [] && s.ruleEvents == [] && s.ruleOutbox == []
  }

  /**
   Convergence: whenever everything committed has been sent and absorbed, an address has a lease exactly
   while it is enabled, and the lease expires as long after it was written as its device's rule, if enabled,
   says; without one it does not expire.
   */
  lemma LeasesConverge(s: State, actions: seq<Action>, a: int)
    requires Tracks(s) && OrderlyRun(s, actions) && Quiescent(Run(s, actions))
    ensures var s' := Run(s, actions);
            && (a in s'.leases <==> IsEnabled(s'.reg, a))
            && (a in s'.leases ==>
                  var lease, d := s'.leases[a], s'.reg.addresses[a].device;
                  && lease.device == d
                  && lease.expiresAt == if d in s'.rules && s'.rules[d].enabled
                                        then Some(lease.updatedAt + s'.rules[d].ttl) else None)
  {
    RunTracks(s, actions);
    var s' := Run(s, actions);
    assert LeaseTracks(s', a);
    if a in s'.leases {
      assert TTLTracks(s', s'.leases[a].device);
    }
  }

  /** When the action dates leases: now, for a lease it writes, or with a change of the lease rule. */
  function DatesOf(action: Action): set<int> {
    match action
    case WriteLease(now) => {now}
    case EnableRule(_, _, at) => {at}
    case DisableRule(_, at) => {at}
    case _ => {}
  }

  ghost predicate Dated(s: State, dates: set<int>) {
    && (forall a :: a in s.leases ==> s.leases[a].updatedAt in dates)
    && (forall e :: e in RuleChanges(s) && e.of == DeviceAddressLease ==> e.at in dates)
  }

  lemma StepKeepsDated(s: State, action: Action, dates: set<int>)
    requires Dated(s, dates) && Ready(s, action)
    ensures Dated(After(s, action), dates + DatesOf(action))
  {
    var s' := After(s, action);
    forall e | e in RuleChanges(s') && e.of == DeviceAddressLease
      ensures e.at in dates + DatesOf(action)
    {
      assert e in RuleChanges(s) || e == s'.ruleOutbox[|s'.ruleOutbox| - 1];
    }
    if action.ApplyRule? {
      assert s.listener.e in RuleChanges(s);
    }
  }

  ghost function AllDates(actions: seq<Action>): set<int> {
    if actions == [] then {} else DatesOf(actions[0]) + AllDates(actions[1..])
  }

  /** A lease is never dated but when it was written or when a rule of its kind was changed. */
  lemma {:induction false} RunKeepsDated(s: State, actions: seq<Action>, dates: set<int>)
    requires Dated(s, dates) && ReadyRun(s, actions)
    ensures Dated(Run(s, actions), dates + AllDates(actions))
    decreases |actions|
  {
    if actions != [] {
      StepKeepsDated(s, actions[0], dates);
      RunKeepsDated(After(s, actions[0]), actions[1..], dates + DatesOf(actions[0]));
      assert dates + DatesOf(actions[0]) + AllDates(actions[1..]) == dates + AllDates(actions);
    }
  }

  /** In turn and kept, every send is harmless. */
  lemma InTurnIsHarmless(s: State, i: nat)
    requires Ready(s, Send(i, true))
    requires forall j :: 0 <= j < i ==> s.outbox[j].address != s.outbox[i].address
    ensures Harmless(s, i, true)
  {
    AboutNone(s.outbox[..i], s.outbox[i].address);
  }

  lemma InTurnRuleIsHarmless(s: State, i: nat)
    requires Ready(s, SendRule(i, true))
    requires forall j :: 0 <= j < i ==> !Touches(s.ruleOutbox[j], s.ruleOutbox[i].device)
    ensures HarmlessRule(s, i, true)
  {
    AboutDeviceNone(s.ruleOutbox[..i], s.ruleOutbox[i].device);
  }

  // ---- what a lease comes to when nothing announces its address ----

  lemma LastFlag(s: State, s': State, a: int)
    requires s'.reg == s.reg && s'.leases == s.leases
    requires var p, p' := Pending(s, a), Pending(s', a);
             (p == [] <==> p' == []) && (p != [] ==> SameFlag(p'[|p'| - 1], p[|p| - 1]))
    ensures LeaseTracks(s', a) <==> LeaseTracks(s, a)
  {}

  lemma SendElsewhere(s: State, i: nat, kept: bool, a: int)
    requires Ready(s, Send(i, kept)) && (s.outbox[i].address == a ==> About(s.outbox[i + 1..], a) != [])
    ensures LeaseTracks(After(s, Send(i, kept)), a) <==> LeaseTracks(s, a)
  {
    var mine := if s.outbox[i].address == a then [s.outbox[i]] else [];
    PendingAfterSend(s, i, kept, a);
    SameLast(About(InHand(s.listener) + s.events, a), About(s.outbox[..i], a), mine,
             if kept then mine else [], About(s.outbox[i + 1..], a));
    LastFlag(s, After(s, Send(i, kept)), a);
  }

  /** The last notice about an address is sent without harm. */
  lemma SendLastNotice(s: State, i: nat, kept: bool)
    requires Ready(s, Send(i, kept)) && Harmless(s, i, kept) && About(s.outbox[i + 1..], s.outbox[i].address) == []
    ensures LeaseTracks(After(s, Send(i, kept)), s.outbox[i].address) <==> LeaseTracks(s, s.outbox[i].address)
  {
    var x, a := s.outbox[i], s.outbox[i].address;
    var offered, earlier := About(InHand(s.listener) + s.events, a), About(s.outbox[..i], a);
    PendingAfterSend(s, i, kept, a);
    WhatStays(offered, earlier, x, kept, a in s.leases);
    assert Pending(s, a) == offered + earlier + [x];
    assert Pending(After(s, Send(i, kept)), a) == offered + (if kept then [x] else []) + earlier;
  }

  /** What is left of an address's notices ends with the flag of the one sent, or the lease already has it. */
  lemma WhatStays(offered: seq<Notice>, earlier: seq<Notice>, x: Notice, kept: bool, leased: bool)
    requires if earlier != [] then SameFlag(earlier[|earlier| - 1], x)
             else if kept then true
             else if offered != [] then SameFlag(offered[|offered| - 1], x)
             else leased <==> x.kind != Disabled
    ensures var left := offered + (if kept then [x] else []) + earlier;
            if left == [] then leased <==> x.kind != Disabled else SameFlag(left[|left| - 1], x)
  {}

  lemma SendKeepsTruth(s: State, i: nat, kept: bool, a: int)
    requires Ready(s, Send(i, kept)) && (s.outbox[i].address == a ==> Harmless(s, i, kept))
    ensures LeaseTracks(After(s, Send(i, kept)), a) <==> LeaseTracks(s, a)
  {
    if s.outbox[i].address == a && About(s.outbox[i + 1..], a) == [] {
      SendLastNotice(s, i, kept);
    } else {
      SendElsewhere(s, i, kept, a);
    }
  }

  lemma AbsorbKeepsTruth(s: State, s': State, n: Notice, a: int)
    requires Notices(s) == [n] + Notices(s') && s'.reg == s.reg
    requires n.address in s'.leases <==> n.kind != Disabled
    requires forall b :: b != n.address ==> (b in s'.leases <==> b in s.leases)
    ensures LeaseTracks(s', a) <==> LeaseTracks(s, a)
  {
    AboutConcat([n], Notices(s'), a);
    assert About([n], a) == if n.address == a then [n] else [];
  }

  lemma SameNotices(s: State, s': State, a: int)
    requires Notices(s') == Notices(s) && s'.reg == s.reg && s'.leases.Keys == s.leases.Keys
    ensures LeaseTracks(s', a) <==> LeaseTracks(s, a)
  {
    assert a in s'.leases.Keys <==> a in s.leases.Keys;
  }

  /** Only what was read for an enabled address is written. */
  predicate WritesOnly(s: State) {
    s.listener.HasTTL? ==> s.listener.n.kind != Disabled
  }

  /** The action announces nothing about the address, and loses or misplaces nothing about it. */
  ghost predicate LetsBe(s: State, action: Action, a: int)
    requires Ready(s, action)
  {
    match action
    case Commit(step) => forall i :: 0 <= i < |NoticesOf(s.reg, step)| ==> NoticesOf(s.reg, step)[i].address != a
    case Send(i, kept) => s.outbox[i].address == a ==> Harmless(s, i, kept)
    case _ => true
  }

  /** Whether an address is enabled, and whether its lease will be right, both stay as they are. */
  ghost predicate SameOutlook(s: State, s': State, a: int) {
    && (IsEnabled(s'.reg, a) <==> IsEnabled(s.reg, a))
    && (LeaseTracks(s', a) <==> LeaseTracks(s, a))
  }

  lemma UnannouncedKeepsOutlook(s: State, step: Step, a: int)
    requires Inv(s.reg) && Ready(s, Commit(step)) && LetsBe(s, Commit(step), a)
    ensures Inv(After(s, Commit(step)).reg) && SameOutlook(s, After(s, Commit(step)), a)
  {
    var s', ns := After(s, Commit(step)), NoticesOf(s.reg, step);
    StepKeepsInv(s.reg, step);
    StepIsTruthful(s.reg, step);
    assert Notices(s') == Notices(s) + ns;
    NothingSaid(s, s', ns, a);
  }

  lemma NothingSaid(s: State, s': State, ns: seq<Notice>, a: int)
    requires Truthful(s.reg, s'.reg, ns) && Notices(s') == Notices(s) + ns && s'.leases == s.leases
    requires forall i :: 0 <= i < |ns| ==> ns[i].address != a
    ensures SameOutlook(s, s', a)
  {
    AboutNone(ns, a);
    AboutConcat(Notices(s), ns, a);
  }

  lemma LetBeStep(s: State, action: Action, a: int)
    requires Inv(s.reg) && WritesOnly(s) && Ready(s, action) && LetsBe(s, action, a)
    ensures var s' := After(s, action); Inv(s'.reg) && WritesOnly(s') && SameOutlook(s, s', a)
  {
    var s' := After(s, action);
    match action
    case Commit(step) => UnannouncedKeepsOutlook(s, step, a);
    case Send(i, kept) => SendKeepsTruth(s, i, kept, a);
    case WriteLease(_) =>
      assert Notices(s) == [s.listener.n] + Notices(s');
      AbsorbKeepsTruth(s, s', s.listener.n, a);
    case ClearLease =>
      assert Notices(s) == [s.listener.n] + Notices(s');
      AbsorbKeepsTruth(s, s', s.listener.n, a);
    case TakeNotice =>
      assert s.events == [s.events[0]] + s.events[1..];
      SameNotices(s, s', a);
    case _ => SameNotices(s, s', a);
  }

  /** A run of such actions. */
  ghost predicate LetBeRun(s: State, actions: seq<Action>, a: int)
    ensures LetBeRun(s, actions, a) ==> ReadyRun(s, actions)
    decreases |actions|
  {
    actions == []
    || (Ready(s, actions[0]) && LetsBe(s, actions[0], a) && LetBeRun(After(s, actions[0]), actions[1..], a))
  }

  lemma {:induction false} LetBeKeepsOutlook(s: State, actions: seq<Action>, a: int)
    requires Inv(s.reg) && WritesOnly(s) && LetBeRun(s, actions, a)
    ensures SameOutlook(s, Run(s, actions), a)
    decreases |actions|
  {
    if actions != [] {
      LetBeStep(s, actions[0], a);
      LetBeKeepsOutlook(After(s, actions[0]), actions[1..], a);
    }
  }

  /**
   Whatever happens to other addresses: as long as nothing announces this one, its lease is right at rest if
   and only if it was being tracked before. What was lost once is not made good.
   */
  lemma RestingLeaseIsRightIff(s: State, actions: seq<Action>, a: int)
    requires Inv(s.reg) && WritesOnly(s) && LetBeRun(s, actions, a) && Quiescent(Run(s, actions))
    ensures var s' := Run(s, actions);
            && (IsEnabled(s'.reg, a) <==> IsEnabled(s.reg, a))
            && ((a in s'.leases <==> IsEnabled(s'.reg, a)) <==> LeaseTracks(s, a))
  {
    LetBeKeepsOutlook(s, actions, a);
  }

  lemma AnnouncedTracks(s: State, s': State, ns: seq<Notice>, a: int)
    requires Truthful(s.reg, s'.reg, ns) && Notices(s') == Notices(s) + ns
    requires exists i :: 0 <= i < |ns| && ns[i].address == a
    ensures LeaseTracks(s', a)
  {
    AboutConcat(Notices(s), ns, a);
    AboutNone(ns, a);
    var mine := About(ns, a);
    assert mine != [];
    var last, p := mine[|mine| - 1], Pending(s, a);
    assert Tells(s'.reg, last);
    assert Pending(s', a) == p + mine && (p + mine)[|p| + |mine| - 1] == last;
  }

  /** A transaction that announces an address puts its lease right again, whatever went wrong before. */
  lemma AnnouncementHeals(s: State, step: Step, a: int)
    requires Inv(s.reg) && Possible(s.reg, step)
    requires exists i :: 0 <= i < |NoticesOf(s.reg, step)| && NoticesOf(s.reg, step)[i].address == a
    ensures LeaseTracks(After(s, Commit(step)), a)
  {
    StepIsTruthful(s.reg, step);
    AnnouncedTracks(s, After(s, Commit(step)), NoticesOf(s.reg, step), a);
  }

  // ---- what an overtaking leaves ----

  /** A registration and a disable of the same new address, committed in that order and not yet announced. */
  ghost predicate AwaitsBoth(s: State, id: int, d: int) {
    && s.outbox == [Notice(Created, id, d), Notice(Disabled, id, d)] && !IsEnabled(s.reg, id)
    && s.events == [] && s.ruleEvents == [] && s.ruleOutbox == [] && s.listener.Idle?
  }

  lemma BothMayWait(s: State, d: int, ip: string, now: int, id: int)
    requires Tracks(s) && Quiescent(s) && Active(s.reg, d) && !s.reg.devices[d].disabled
    requires id !in s.reg.addresses && id != 0 && NotBefore(s.reg.log, now)
    requires forall a :: a !in RowsFor(s.reg, d, ip)
    ensures var register := StepRegister(d, ip, Heartbeat, Schedule, now, id);
            var disable := StepDisableAddress(d, id, now);
            AwaitsBoth(After(After(s, Commit(register)), Commit(disable)), id, d)
  {}

  lemma {:induction false} RunConcat(s: State, a: seq<Action>, b: seq<Action>)
    requires ReadyRun(s, a) && ReadyRun(Run(s, a), b)
    ensures ReadyRun(s, a + b) && Run(s, a + b) == Run(Run(s, a), b)
    decreases |a|
  {
    if a == [] {
      assert a + b == b;
    } else {
      assert (a + b)[0] == a[0] && (a + b)[1..] == a[1..] + b;
      RunConcat(After(s, a[0]), a[1..], b);
    }
  }

  lemma OneAction(s: State, action: Action)
    requires Ready(s, action)
    ensures ReadyRun(s, [action]) && Run(s, [action]) == After(s, action)
  {
    assert ReadyRun(After(s, action), []);
  }

  /** The run goes on by one action. */
  lemma Then(s: State, done: seq<Action>, action: Action) returns (more: seq<Action>)
    requires ReadyRun(s, done) && Ready(Run(s, done), action)
    ensures more == done + [action] && ReadyRun(s, more) && Run(s, more) == After(Run(s, done), action)
  {
    more := done + [action];
    OneAction(Run(s, done), action);
    RunConcat(s, done, [action]);
  }

  /** The disable goes first. */
  lemma SendOutOfTurn(s: State, id: int, d: int)
    requires AwaitsBoth(s, id, d)
    ensures !Harmless(s, 1, true) && ReadyRun(s, [Send(1, true), Send(0, true)])
    ensures Run(s, [Send(1, true), Send(0, true)])
            == s.(outbox := [], events := [Notice(Disabled, id, d), Notice(Created, id, d)])
  {
    assert s.outbox[..1] == [Notice(Created, id, d)] && s.outbox[2..] == [];
    assert About(s.outbox[..1], id) == [Notice(Created, id, d)];
    OneAction(s, Send(1, true));
    assert After(s, Send(1, true)) == s.(outbox := [Notice(Created, id, d)], events := [Notice(Disabled, id, d)]);
    var done := Then(s, [Send(1, true)], Send(0, true));
  }

  /** The listener takes up a disable, or a registration, undisturbed. */
  lemma TakeDisable(s: State)
    requires s.listener.Idle? && s.events != [] && s.events[0].kind == Disabled
    ensures ReadyRun(s, [TakeNotice, ClearLease])
    ensures Run(s, [TakeNotice, ClearLease]) == s.(events := s.events[1..], leases := s.leases - {s.events[0].address})
  {
    OneAction(s, TakeNotice);
    var done := Then(s, [TakeNotice], ClearLease);
    assert done == [TakeNotice, ClearLease];
  }

  lemma TakeRegistration(s: State, now: int)
    requires s.listener.Idle? && s.events != [] && s.events[0].kind != Disabled
    ensures ReadyRun(s, [TakeNotice, ReadTTL, WriteLease(now)])
    ensures var n := s.events[0];
            Run(s, [TakeNotice, ReadTTL, WriteLease(now)])
            == s.(events := s.events[1..],
                  leases := s.leases[n.address := Lease(n.device, ExpiresAtFromTTL(now, CurrentTTL(s, n.device)), now)])
  {
    OneAction(s, TakeNotice);
    var done := Then(s, [TakeNotice], ReadTTL);
    done := Then(s, done, WriteLease(now));
    assert done == [TakeNotice, ReadTTL, WriteLease(now)];
  }

  function Overtaking(now: int): seq<Action> {
    [Send(1, true), Send(0, true)] + [TakeNotice, ClearLease] + [TakeNotice, ReadTTL, WriteLease(now)]
  }

  /**
   When notices overtake each other: the disable is announced before the registration it undid. That
   send is not harmless, and once all is quiet the disabled address holds a lease.
   */
  lemma OvertakenNoticeLeavesLease(s: State, id: int, d: int, now: int)
    requires AwaitsBoth(s, id, d)
    ensures !Harmless(s, 1, true)
    ensures ReadyRun(s, Overtaking(now))
    ensures var s' := Run(s, Overtaking(now));
            && Quiescent(s') && !IsEnabled(s'.reg, id) && s'.rules == s.rules
            && id in s'.leases && s'.leases[id] == Lease(d, ExpiresAtFromTTL(now, CurrentTTL(s, d)), now)
  {
    SendOutOfTurn(s, id, d);
    TakeDisable(Run(s, [Send(1, true), Send(0, true)]));
    RunConcat(s, [Send(1, true), Send(0, true)], [TakeNotice, ClearLease]);
    TakeRegistration(Run(s, [Send(1, true), Send(0, true)] + [TakeNotice, ClearLease]), now);
    RunConcat(s, [Send(1, true), Send(0, true)] + [TakeNotice, ClearLease], [TakeNotice, ReadTTL, WriteLease(now)]);
  }

  /**
   It can happen: a run from an empty system that ends quiet, with a disabled address holding a lease that
   never expires, since its device has no TTL.
   */
  lemma LeaseCanOutliveAddress(now: int) returns (actions: seq<Action>)
    ensures ReadyRun(START, actions)
    ensures var s := Run(START, actions);
            Quiescent(s) && 1 in s.leases && s.leases[1].expiresAt == None && !IsEnabled(s.reg, 1)
  {
    var create := StepCreate(1, 0, None);
    OneAction(START, Commit(create));
    var s := After(START, Commit(create));
    StartTracks();
    ActionTracks(START, Commit(create));
    assert forall a :: a !in RowsFor(s.reg, 1, "a");
    BothMayWait(s, 1, "a", now, 1);
    actions := Then(START, [Commit(create)], Commit(StepRegister(1, "a", Heartbeat, Schedule, now, 1)));
    actions := Then(START, actions, Commit(StepDisableAddress(1, 1, now)));
    OvertakenNoticeLeavesLease(Run(START, actions), 1, 1, now);
    RunConcat(START, actions, Overtaking(now));
    actions := actions + Overtaking(now);
  }

  // ---- what a cancelled request leaves ----

  /**
   With every channel empty and the send in turn: if the request that first registers an address is cancelled
   after its commit, the notice may be lost, and then all is quiet and the enabled address has no lease.
   */
  lemma CancelledRequestLosesLease(s: State, d: int, ip: string, now: int, id: int)
    requires Tracks(s) && Quiescent(s) && Active(s.reg, d) && !s.reg.devices[d].disabled
    requires id !in s.reg.addresses && id != 0 && NotBefore(s.reg.log, now)
    requires forall a :: a !in RowsFor(s.reg, d, ip)
    ensures var s1 := After(s, Commit(StepRegister(d, ip, Heartbeat, Schedule, now, id)));
            && s1.outbox == [Notice(Created, id, d)] && Ready(s1, Send(0, true)) && !Harmless(s1, 0, false)
            && Unleased(After(s1, Send(0, false)), id, d) && After(s1, Send(0, false)).rules == s.rules
  {
    var s1 := After(s, Commit(StepRegister(d, ip, Heartbeat, Schedule, now, id)));
    TransactionTracks(s, StepRegister(d, ip, Heartbeat, Schedule, now, id));
    assert s1.outbox == [Notice(Created, id, d)];
    assert id !in s1.leases;
  }

  /** All is quiet, and an enabled address of the device has no lease. */
  ghost predicate Unleased(s: State, a: int, d: int) {
    && Inv(s.reg) && Quiescent(s) && !LeaseTracks(s, a) && a !in s.leases
    && IsEnabled(s.reg, a) && s.reg.addresses[a].device == d
  }

  /** So it can come about from an empty system, for a device with a TTL. */
  lemma LeaseCanBeMissed(ttl: nat, at: int, now: int) returns (actions: seq<Action>)
    ensures ReadyRun(START, actions)
    ensures Unleased(Run(START, actions), 1, 1) && CurrentTTL(Run(START, actions), 1) == Some(ttl)
  {
    actions := WithTTL(ttl, at);
    var s := Run(START, actions);
    CancelledRequestLosesLease(s, 1, "a", now, 1);
    actions := Then(START, actions, Commit(StepRegister(1, "a", Heartbeat, Schedule, now, 1)));
    actions := Then(START, actions, Send(0, false));
  }

  /** One device, whose addresses are to be leased for the TTL. */
  lemma WithTTL(ttl: nat, at: int) returns (actions: seq<Action>)
    ensures ReadyRun(START, actions)
    ensures var s := Run(START, actions);
            && Tracks(s) && Quiescent(s) && s.rules == map[1 := Rule(true, ttl)]
            && s.reg == EMPTY.(devices := map[1 := Device(0, false, false)])
  {
    var create := Commit(StepCreate(1, 0, None));
    StartTracks();
    ActionTracks(START, create);
    var s := After(START, create);
    OneAction(START, create);
    ActionTracks(s, EnableRule(1, ttl, at));
    actions := Then(START, [create], EnableRule(1, ttl, at));
    var s1 := After(s, EnableRule(1, ttl, at));
    InTurnRuleIsHarmless(s1, 0);
    ActionTracks(s1, SendRule(0, true));
    actions := Then(START, actions, SendRule(0, true));
    var s2 := After(s1, SendRule(0, true));
    ActionTracks(s2, TakeRule);
    actions := Then(START, actions, TakeRule);
    ActionTracks(After(s2, TakeRule), ApplyRule);
    actions := Then(START, actions, ApplyRule);
  }
}
