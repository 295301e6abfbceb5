/**
 The max-active-addresses rule: a listener that, for each created or enabled address and each enabled
 rule, reads the cap, reads the device's enabled addresses and evicts the excess -- three separate
 steps, with any other transaction free to run in between.
 */
module CapProtocol {
  import opened Common
  import opened Registry

  const EVENTS := 500
  const RULE_EVENTS := 100

  datatype Rule = Rule(enabled: bool, max: int)

  /** protect is the address just registered, or 0 for none. */
  datatype Worker =
    | Idle
    | Popped(d: int, protect: int)
    | HasCap(d: int, protect: int, cap: int)
    | HasList(d: int, protect: int, cap: int, list: seq<int>)

  datatype State = State(
    reg: Tables,
    rules: map<int, Rule>,
    outbox: seq<Notice>,
    events: seq<Notice>,
    ruleOutbox: seq<int>,
    ruleEvents: seq<int>,
    worker: Worker)

  /** GetMaxActiveAddresses: nothing without an enabled rule. */
  function CurrentCap(s: State, d: int): Option<int> {
    if d in s.rules && s.rules[d].enabled then Some(s.rules[d].max) else None
  }

  /** The reverse scan of enforce: the last `excess` entries of the list that are not protected. */
  function Evictees(list: seq<int>, protect: int, excess: nat): seq<int> {
    if list == [] || excess == 0 then []
    else
      var rest, oldest := list[..|list| - 1], list[|list| - 1];
      if oldest == protect then Evictees(rest, protect, excess) else [oldest] + Evictees(rest, protect, excess - 1)
  }

  /** One step of the scan, with `done` already chosen. */
  lemma ScanStep(list: seq<int>, i: nat, protect: int, excess: nat, done: seq<int>)
    requires i < |list| && |done| < excess
    ensures var left := excess - |done|;
            done + Evictees(list[..i + 1], protect, left)
            == if list[i] == protect then done + Evictees(list[..i], protect, left)
               else (done + [list[i]]) + Evictees(list[..i], protect, left - 1)
  {
    assert list[..i + 1][..i] == list[..i];
    var left := excess - |done|;
    assert done + ([list[i]] + Evictees(list[..i], protect, left - 1))
        == (done + [list[i]]) + Evictees(list[..i], protect, left - 1);
  }

  /** The service as it runs: two bounded channels and the enforcement loop. */
  class Service {
    var events: seq<Notice>
    var ruleEvents: seq<int>

    constructor ()
      ensures events == [] && ruleEvents == []
    {
      events, ruleEvents := [], [];
    }

    /** Only created and enabled addresses are worth a look; a refresh never adds one. */
    method OnAddressEvent(event: Notice)
      modifies this`events
      ensures events == if event.kind in {Created, Enabled} && |old(events)| < 500 then old(events) + [event]
                        else old(events)
    {
      if event.kind != Created && event.kind != Enabled {
        return;
      }
      if |events| < EVENTS {
        events := events + [event];
      }
    }

    method OnRuleEvent(device: int)
      modifies this`ruleEvents
      ensures ruleEvents == if |old(ruleEvents)| < 100 then old(ruleEvents) + [device] else old(ruleEvents)
    {
      if |ruleEvents| < RULE_EVENTS {
        ruleEvents := ruleEvents + [device];
      }
    }

    /** enforce, between its reads and its write: from the end of the list, stopping at the exact number. */
    method Enforce(max: Option<int>, enabled: seq<int>, protect: int) returns (toDisable: seq<int>)
      requires Distinct(enabled) && (max.Some? ==> max.value >= 1)
      ensures max.None? || |enabled| <= max.value ==> toDisable == []
      ensures max.Some? && |enabled| > max.value ==>
        toDisable == Evictees(enabled, protect, |enabled| - max.value) && |toDisable| == |enabled| - max.value
      ensures protect !in toDisable
    {
      toDisable := [];
      if max.None? {
        return;
      }
      var excess := |enabled| - max.value;
      if excess <= 0 {
        return;
      }
      EvicteesCount(enabled, protect, excess);
      var i := |enabled| - 1;
      assert enabled[..i + 1] == enabled;
      while i >= 0
        invariant -1 <= i < |enabled| && |toDisable| < excess
        invariant toDisable + Evictees(enabled[..i + 1], protect, excess - |toDisable|)
                  == Evictees(enabled, protect, excess)
      {
        ScanStep(enabled, i, protect, excess, toDisable);
        if enabled[i] != protect {
          toDisable := toDisable + [enabled[i]];
          if |toDisable| == excess {
            assert Evictees(enabled[..i], protect, 0) == [] && toDisable + [] == toDisable;
            return;
          }
        }
        i := i - 1;
      }
    }
  }

  datatype Action =
    | Commit(step: Step)
    | EnableRule(d: int, max: int)
    | DisableRule(d: int)
    | Send(i: nat)
    | SendRule(i: nat)
    | TakeNotice
    | TakeRule
    | ReadCap
    | ReadList(list: seq<int>)
    | Evict(now: int)

  ghost predicate Ready(s: State, action: Action) {
    match action
    case Commit(step) => Possible(s.reg, step)
    case EnableRule(_, max) => max >= 1
    case Send(i) => i < |s.outbox|
    case SendRule(i) => i < |s.ruleOutbox|
    case TakeNotice => s.worker.Idle? && s.events != []
    case TakeRule => s.worker.Idle? && s.ruleEvents != []
    case ReadCap => s.worker.Popped?
    case ReadList(list) => s.worker.HasCap? && IsEnabledList(s.reg, s.worker.d, list)
    case Evict(now) => s.worker.HasList? && NotBefore(s.reg.log, now)
    case _ => true
  }

  /** The transaction by which the worker evicts. */
  function EvictStep(w: Worker, now: int): Step
    requires w.HasList? && |w.list| > w.cap >= 0
  {
    StepDisableAddresses(Evictees(w.list, w.protect, |w.list| - w.cap), LimitExceeded, System, now)
  }

  ghost function After(s: State, action: Action): State
    requires Ready(s, action)
  {
    match action
    case Commit(step) => s.(reg := Next(s.reg, step), outbox := s.outbox + NoticesOf(s.reg, step))
    case EnableRule(d, max) => s.(rules := s.rules[d := Rule(true, max)], ruleOutbox := s.ruleOutbox + [d])
    case DisableRule(d) => if d !in s.rules then s else s.(rules := s.rules[d := s.rules[d].(enabled := false)])
    case Send(i) =>
      var n := s.outbox[i];
      s.(outbox := RemoveAt(s.outbox, i),
         events := if TurnsOn(n.kind) && |s.events| < EVENTS then s.events + [n] else s.events)
    case SendRule(i) =>
      s.(ruleOutbox := RemoveAt(s.ruleOutbox, i),
         ruleEvents := if |s.ruleEvents| < RULE_EVENTS then s.ruleEvents + [s.ruleOutbox[i]] else s.ruleEvents)
    case TakeNotice => s.(worker := Popped(s.events[0].device, s.events[0].address), events := s.events[1..])
    case TakeRule => s.(worker := Popped(s.ruleEvents[0], 0), ruleEvents := s.ruleEvents[1..])
    case ReadCap =>
      var w := s.worker;
      s.(worker := match CurrentCap(s, w.d) case None => Idle case Some(cap) => HasCap(w.d, w.protect, cap))
    case ReadList(list) =>
      var w := s.worker;
      s.(worker := if |list| <= w.cap then Idle else HasList(w.d, w.protect, w.cap, list))
    case Evict(now) =>
      var w := s.worker;
      if |w.list| <= w.cap || w.cap < 0 then s.(worker := Idle)
      else
        var step := EvictStep(w, now);
        s.(reg := Next(s.reg, step), outbox := s.outbox + NoticesOf(s.reg, step), worker := Idle)
  }

  lemma EvictionIsExcess(s: State, now: int)
    requires CapsHold(s) && Ready(s, Evict(now))
    ensures var ids := EvictStep(s.worker, now).ids;
            AllKnown(s.reg, ids) && |ids| == |s.worker.list| - s.worker.cap > 0 && s.worker.cap >= 0
  {
    var w := s.worker;
    EvictCommits(s, now);
    EvicteesCount(w.list, w.protect, |w.list| - w.cap);
  }

  /** The excess of the list goes off in one eviction, logged and announced address by address, put down to the limit. */
  lemma EvictionIsLogged(s: State, now: int) returns (rows: seq<Event>, ns: seq<Notice>)
    requires CapsHold(s) && Ready(s, Evict(now))
    ensures var s', w := After(s, Evict(now)), s.worker;
            var out := Evictees(w.list, w.protect, |w.list| - w.cap);
            && s'.reg.log == s.reg.log + rows && s'.outbox == s.outbox + ns && s'.worker == Idle
            && Account(rows, ns, Some(Attribution(LimitExceeded, System, now)))
            && |rows| == |out| == |w.list| - w.cap
            && forall i :: 0 <= i < |rows| ==> rows[i].address == out[i] && !rows[i].enabled
  {
    EvictionIsExcess(s, now);
    rows, ns := EvictionIsTold(s, now);
  }

  lemma EvictionIsTold(s: State, now: int) returns (rows: seq<Event>, ns: seq<Notice>)
    requires Ready(s, Evict(now)) && |s.worker.list| > s.worker.cap >= 0 && AllKnown(s.reg, EvictStep(s.worker, now).ids)
    ensures var s', ids := After(s, Evict(now)), EvictStep(s.worker, now).ids;
            && s'.reg.log == s.reg.log + rows && s'.outbox == s.outbox + ns && s'.worker == Idle
            && Account(rows, ns, Some(Attribution(LimitExceeded, System, now)))
            && |rows| == |ids| && forall i :: 0 <= i < |rows| ==> rows[i].address == ids[i] && !rows[i].enabled
  {
    var step := EvictStep(s.worker, now);
    DisableAddressesCommits(s.reg, step.ids, LimitExceeded, System, now);
    rows := BatchIsLogged(s.reg, step.ids, LimitExceeded, System, now);
    ns := NoticesOf(s.reg, step);
  }

  /** No channel drops what is offered to it. */
  ghost predicate Undropped(s: State, action: Action)
    requires Ready(s, action)
  {
    match action
    case Send(i) => TurnsOn(s.outbox[i].kind) ==> |s.events| < EVENTS
    case SendRule(i) => |s.ruleEvents| < RULE_EVENTS
    case _ => true
  }

  /** Another activation of the device of notice i is announced, or about to be. */
  ghost predicate ActivationWaitsBeside(s: State, i: nat)
    requires i < |s.outbox|
  {
    exists n :: n in RemoveAt(s.outbox, i) + s.events && TurnsOn(n.kind) && n.device == s.outbox[i].device
  }

  ghost predicate RuleWaitsBeside(s: State, i: nat)
    requires i < |s.ruleOutbox|
  {
    s.ruleOutbox[i] in RemoveAt(s.ruleOutbox, i) + s.ruleEvents
  }

  /**
   The notice may be offered now, into a full channel or not: what it would have brought about, another
   event will, or the worker already does.
   */
  ghost predicate HarmlessSend(s: State, i: nat)
    requires i < |s.outbox|
  {
    var d := s.outbox[i].device;
    || Undropped(s, Send(i)) || ActivationWaitsBeside(s, i)
    || (&& (Over(s, d) ==> RuleWaits(s, d) || WorkerCovers(s, d))
        && (s.worker.HasList? && s.worker.d == d ==> EnabledOf(s.reg, d) <= Members(s.worker.list)))
  }

  /** Likewise for a rule change, whose loss the worker survives only if the cap it has read still holds. */
  ghost predicate HarmlessSendRule(s: State, i: nat)
    requires i < |s.ruleOutbox|
  {
    var d := s.ruleOutbox[i];
    || Undropped(s, SendRule(i)) || RuleWaitsBeside(s, i)
    || (&& (Over(s, d) ==> NoticeWaits(s, d) || WorkerCovers(s, d))
        && ((s.worker.HasCap? || s.worker.HasList?) && s.worker.d == d ==>
              CurrentCap(s, d).None? || CurrentCap(s, d).value == s.worker.cap))
  }

  ghost predicate Harmless(s: State, action: Action)
    requires Ready(s, action)
  {
    match action
    case Send(i) => HarmlessSend(s, i)
    case SendRule(i) => HarmlessSendRule(s, i)
    case _ => true
  }

  predicate Over(s: State, d: int) {
    CurrentCap(s, d).Some? && |EnabledOf(s.reg, d)| > CurrentCap(s, d).value
  }

  /** An activation of the device is announced, or about to be, and not yet picked up. */
  ghost predicate NoticeWaits(s: State, d: int) {
    exists n :: n in s.outbox + s.events && TurnsOn(n.kind) && n.device == d
  }

  ghost predicate RuleWaits(s: State, d: int) {
    d in s.ruleOutbox + s.ruleEvents
  }

  /** The worker is on its way to enforcing device d with the current cap and every enabled address in view. */
  ghost predicate WorkerCovers(s: State, d: int) {
    && !s.worker.Idle? && s.worker.d == d
    && (s.worker.HasCap? || s.worker.HasList? ==> CurrentCap(s, d) == Some(s.worker.cap))
    && (s.worker.HasList? ==> EnabledOf(s.reg, d) <= Members(s.worker.list))
  }

  function Members(list: seq<int>): set<int> {
    set a | a in list
  }

  ghost predicate Covered(s: State, d: int) {
    Over(s, d) ==> NoticeWaits(s, d) || RuleWaits(s, d) || WorkerCovers(s, d)
  }

  /** What the worker has read is still right, or the event that will correct it is waiting. */
  ghost predicate Informed(s: State) {
    var w := s.worker;
    && (w.HasCap? || w.HasList? ==>
          w.cap >= 1 && (RuleWaits(s, w.d) || CurrentCap(s, w.d).None? || CurrentCap(s, w.d).value == w.cap))
    && (w.HasList? ==>
          && |w.list| > w.cap && Distinct(w.list) && AllKnown(s.reg, w.list)
          && (NoticeWaits(s, w.d) || EnabledOf(s.reg, w.d) <= Members(w.list)))
  }

  ghost predicate CapsHold(s: State) {
    && Inv(s.reg)
    && (forall d :: d in s.rules && s.rules[d].enabled ==> s.rules[d].max >= 1)
    && Informed(s)
    && forall d :: Covered(s, d)
  }

  lemma SubsetCount(a: set<int>, b: set<int>)
    requires a <= b
    ensures |a| <= |b| && |b - a| == |b| - |a|
  {
    assert b * a == a;
    assert |b - a| == |b| - |b * a|;
  }

  lemma {:induction false} MembersCount(list: seq<int>)
    requires Distinct(list)
    ensures |Members(list)| == |list|
  {
    if list == [] {
      assert Members(list) == {};
    } else {
      var rest, x := list[..|list| - 1], list[|list| - 1];
      assert list == rest + [x];
      MembersCount(rest);
      assert x !in Members(rest);
      assert Members(list) == Members(rest) + {x};
    }
  }

  predicate Protects(list: seq<int>, protect: int) {
    protect in list
  }

  /** The scan evicts exactly the excess, never the protected address, and nothing outside the list. */
  lemma {:induction false} EvicteesCount(list: seq<int>, protect: int, excess: nat)
    requires Distinct(list) && excess <= |list| - (if Protects(list, protect) then 1 else 0)
    ensures |Evictees(list, protect, excess)| == excess
    ensures Distinct(Evictees(list, protect, excess))
    ensures forall a :: a in Evictees(list, protect, excess) ==> a in list && a != protect
    decreases |list|
  {
    if list != [] && excess > 0 {
      var rest, x := list[..|list| - 1], list[|list| - 1];
      assert list == rest + [x];
      assert x !in rest;
      EvicteesCount(rest, protect, if x == protect then excess else excess - 1);
    }
  }

  /** Whoever survives the eviction, the protected address aside, is no older than anyone evicted. */
  lemma {:induction false} SurvivorsAreNewer(t: Tables, list: seq<int>, protect: int, excess: nat, kept: int, evicted: int)
    requires Distinct(list) && forall i, j :: 0 <= i < j < |list| ==> NotOlder(t, list[i], list[j])
    requires kept in list && kept != protect && kept !in Evictees(list, protect, excess)
    requires evicted in Evictees(list, protect, excess)
    ensures NotOlder(t, kept, evicted)
    decreases |list|
  {
    var rest, x := list[..|list| - 1], list[|list| - 1];
    assert list == rest + [x];
    var k :| 0 <= k < |list| && list[k] == kept;
    if x == protect {
      SurvivorsAreNewer(t, rest, protect, excess, kept, evicted);
    } else if evicted == x {
      assert k < |list| - 1;
    } else {
      SurvivorsAreNewer(t, rest, protect, excess - 1, kept, evicted);
    }
  }

  /** An address that comes on is announced, so its device's enforcement waits. */
  lemma ActivationWaits(s: State, s': State, ns: seq<Notice>, d: int, a: int)
    requires Inv(s.reg) && Truthful(s.reg, s'.reg, ns) && s'.outbox == s.outbox + ns
    requires a in EnabledOf(s'.reg, d) && a !in EnabledOf(s.reg, d)
    ensures NoticeWaits(s', d)
  {
    assert IsEnabled(s'.reg, a) && !IsEnabled(s.reg, a);
    var i :| 0 <= i < |ns| && ns[i].address == a && TurnsOn(ns[i].kind);
    assert Tells(s'.reg, ns[i]);
    assert (s'.outbox + s'.events)[|s.outbox| + i] == ns[i];
    assert ns[i] in s'.outbox + s'.events;
  }

  /** A commit whose notices do not activate anything on the device only shrinks its enabled set. */
  lemma CommitShrinks(s: State, s': State, ns: seq<Notice>, d: int)
    requires Inv(s.reg) && Truthful(s.reg, s'.reg, ns) && s'.outbox == s.outbox + ns && s'.events == s.events
    requires !NoticeWaits(s', d)
    ensures !NoticeWaits(s, d) && EnabledOf(s'.reg, d) <= EnabledOf(s.reg, d)
  {
    assert forall n :: n in s.outbox + s.events ==> n in s'.outbox + s'.events;
    forall a
      ensures a in EnabledOf(s'.reg, d) && a !in EnabledOf(s.reg, d) ==> NoticeWaits(s', d)
    {
      if a in EnabledOf(s'.reg, d) && a !in EnabledOf(s.reg, d) {
        ActivationWaits(s, s', ns, d, a);
      }
    }
  }

  lemma CommitCovers(s: State, s': State, ns: seq<Notice>, d: int)
    requires Inv(s.reg) && Truthful(s.reg, s'.reg, ns) && s' == s.(reg := s'.reg, outbox := s.outbox + ns)
    requires Covered(s, d)
    ensures Covered(s', d)
  {
    if !NoticeWaits(s', d) {
      CommitShrinks(s, s', ns, d);
      SubsetCount(EnabledOf(s'.reg, d), EnabledOf(s.reg, d));
    }
  }

  lemma RowsStay(t: Tables, t': Tables, ns: seq<Notice>, a: int)
    requires Truthful(t, t', ns) && a in t.addresses
    ensures a in t'.addresses
  {}

  lemma CommitHolds(s: State, s': State, ns: seq<Notice>)
    requires CapsHold(s) && Inv(s'.reg) && Truthful(s.reg, s'.reg, ns)
    requires s' == s.(reg := s'.reg, outbox := s.outbox + ns)
    ensures CapsHold(s')
  {
    forall d
      ensures Covered(s', d)
    {
      assert Covered(s, d);
      CommitCovers(s, s', ns, d);
    }
    if s.worker.HasList? {
      var list := s.worker.list;
      forall i | 0 <= i < |list|
        ensures list[i] in s'.reg.addresses
      {
        RowsStay(s.reg, s'.reg, ns, list[i]);
      }
      if !NoticeWaits(s', s.worker.d) {
        CommitShrinks(s, s', ns, s.worker.d);
      }
    }
  }

  /** Moving an event from where it was committed to its channel loses sight of nothing. */
  lemma SendKeepsWaiting(s: State, i: nat, d: int)
    requires i < |s.outbox| && Undropped(s, Send(i))
    ensures NoticeWaits(After(s, Send(i)), d) <==> NoticeWaits(s, d)
  {
    var s', x := After(s, Send(i)), s.outbox[i];
    assert s.outbox == s.outbox[..i] + [x] + s.outbox[i + 1..];
    forall n: Notice | TurnsOn(n.kind)
      ensures n in s.outbox + s.events <==> n in s'.outbox + s'.events
    {}
  }

  lemma SendRuleKeepsWaiting(s: State, i: nat, d: int)
    requires i < |s.ruleOutbox| && Undropped(s, SendRule(i))
    ensures RuleWaits(After(s, SendRule(i)), d) <==> RuleWaits(s, d)
  {
    assert s.ruleOutbox == s.ruleOutbox[..i] + [s.ruleOutbox[i]] + s.ruleOutbox[i + 1..];
  }

  lemma UndroppedHolds(s: State, action: Action)
    requires CapsHold(s) && Ready(s, action) && Undropped(s, action) && (action.Send? || action.SendRule?)
    ensures CapsHold(After(s, action))
  {
    var s' := After(s, action);
    forall d
      ensures NoticeWaits(s', d) <==> NoticeWaits(s, d)
      ensures RuleWaits(s', d) <==> RuleWaits(s, d)
      ensures Covered(s', d)
    {
      match action {
        case Send(i) => SendKeepsWaiting(s, i, d);
        case SendRule(i) => SendRuleKeepsWaiting(s, i, d);
      }
      assert Covered(s, d);
    }
  }

  lemma DropKeepsOthers(s: State, i: nat, d: int)
    requires i < |s.outbox| && !Undropped(s, Send(i)) && d != s.outbox[i].device
    ensures NoticeWaits(After(s, Send(i)), d) <==> NoticeWaits(s, d)
  {
    var s' := After(s, Send(i));
    assert s.outbox == s.outbox[..i] + [s.outbox[i]] + s.outbox[i + 1..];
    forall n: Notice | n.device == d
      ensures n in s.outbox + s.events <==> n in s'.outbox + s'.events
    {}
  }

  lemma DropHolds(s: State, i: nat)
    requires CapsHold(s) && i < |s.outbox| && !Undropped(s, Send(i))
    ensures CapsHold(After(s, Send(i))) <==> HarmlessSend(s, i)
  {
    var s', d := After(s, Send(i)), s.outbox[i].device;
    assert NoticeWaits(s', d) <==> ActivationWaitsBeside(s, i);
    forall e | e != d
      ensures Covered(s', e) && (NoticeWaits(s', e) <==> NoticeWaits(s, e))
    {
      DropKeepsOthers(s, i, e);
      assert Covered(s, e);
    }
    assert Covered(s', d) <==> (Over(s, d) ==> ActivationWaitsBeside(s, i) || RuleWaits(s, d) || WorkerCovers(s, d));
    assert Informed(s') <==>
        (s.worker.HasList? && s.worker.d == d ==>
           ActivationWaitsBeside(s, i) || EnabledOf(s.reg, d) <= Members(s.worker.list));
    assert (forall e :: Covered(s', e)) <==> Covered(s', d);
  }

  /** A notice may be offered exactly when that is harmless: any other drop breaks what keeps the caps. */
  lemma SendHoldsExactly(s: State, i: nat)
    requires CapsHold(s) && i < |s.outbox|
    ensures CapsHold(After(s, Send(i))) <==> HarmlessSend(s, i)
  {
    if Undropped(s, Send(i)) {
      UndroppedHolds(s, Send(i));
    } else {
      DropHolds(s, i);
    }
  }

  lemma DropRuleKeepsOthers(s: State, i: nat, d: int)
    requires i < |s.ruleOutbox| && !Undropped(s, SendRule(i)) && d != s.ruleOutbox[i]
    ensures RuleWaits(After(s, SendRule(i)), d) <==> RuleWaits(s, d)
  {
    assert s.ruleOutbox == s.ruleOutbox[..i] + [s.ruleOutbox[i]] + s.ruleOutbox[i + 1..];
  }

  lemma DropRuleHolds(s: State, i: nat)
    requires CapsHold(s) && i < |s.ruleOutbox| && !Undropped(s, SendRule(i))
    ensures CapsHold(After(s, SendRule(i))) <==> HarmlessSendRule(s, i)
  {
    var s', d := After(s, SendRule(i)), s.ruleOutbox[i];
    assert RuleWaits(s', d) <==> RuleWaitsBeside(s, i);
    forall e | e != d
      ensures Covered(s', e) && (RuleWaits(s', e) <==> RuleWaits(s, e))
    {
      DropRuleKeepsOthers(s, i, e);
      assert Covered(s, e);
    }
    assert Covered(s', d) <==> (Over(s, d) ==> NoticeWaits(s, d) || RuleWaitsBeside(s, i) || WorkerCovers(s, d));
    assert (forall e :: Covered(s', e)) <==> Covered(s', d);
  }

  /** And so for a rule change. */
  lemma SendRuleHoldsExactly(s: State, i: nat)
    requires CapsHold(s) && i < |s.ruleOutbox|
    ensures CapsHold(After(s, SendRule(i))) <==> HarmlessSendRule(s, i)
  {
    if Undropped(s, SendRule(i)) {
      UndroppedHolds(s, SendRule(i));
    } else {
      DropRuleHolds(s, i);
    }
  }

  /** The worker takes responsibility for the device whose event it picks up. */
  lemma TakeHolds(s: State, action: Action)
    requires CapsHold(s) && Ready(s, action) && (action.TakeNotice? || action.TakeRule?)
    ensures CapsHold(After(s, action))
  {
    var s' := After(s, action);
    forall d
      ensures Covered(s', d)
    {
      assert Covered(s, d);
      if d != s'.worker.d {
        if action.TakeNotice? {
          assert s.events == [s.events[0]] + s.events[1..];
          assert forall n :: n in s.outbox + s.events && n.device == d ==> n in s'.outbox + s'.events;
        } else {
          assert s.ruleEvents == [s.ruleEvents[0]] + s.ruleEvents[1..];
        }
      }
    }
  }

  lemma ListIsEnabledSet(t: Tables, d: int, list: seq<int>)
    requires IsEnabledList(t, d, list)
    ensures EnabledOf(t, d) == Members(list)
  {
    forall a
      ensures a in EnabledOf(t, d) <==> a in Members(list)
    {
      assert a in list <==> a in EnabledOf(t, d);
    }
  }

  lemma ReadHolds(s: State, action: Action)
    requires CapsHold(s) && Ready(s, action) && (action.ReadCap? || action.ReadList?)
    ensures CapsHold(After(s, action))
  {
    var s' := After(s, action);
    if action.ReadList? {
      ListIsKnown(s.reg, s.worker.d, action.list);
      ListIsEnabledSet(s.reg, s.worker.d, action.list);
      MembersCount(action.list);
    }
    forall d
      ensures Covered(s', d)
    {
      assert Covered(s, d);
      assert NoticeWaits(s, d) ==> NoticeWaits(s', d);
      assert RuleWaits(s, d) ==> RuleWaits(s', d);
    }
  }

  lemma RuleHolds(s: State, action: Action)
    requires CapsHold(s) && Ready(s, action) && (action.EnableRule? || action.DisableRule?)
    ensures CapsHold(After(s, action))
  {
    var s' := After(s, action);
    forall d
      ensures Covered(s', d)
      ensures RuleWaits(s, d) ==> RuleWaits(s', d)
      ensures NoticeWaits(s, d) ==> NoticeWaits(s', d)
    {
      assert Covered(s, d);
    }
  }

  lemma EvictionLeavesCap(t: Tables, t': Tables, d: int, list: seq<int>, protect: int, cap: int)
    requires Distinct(list) && |list| > cap >= 1 && EnabledOf(t, d) <= Members(list)
    requires TurnedOff(t, t', Evictees(list, protect, |list| - cap))
    ensures |EnabledOf(t', d)| <= cap
  {
    var out := Evictees(list, protect, |list| - cap);
    EvicteesCount(list, protect, |list| - cap);
    SurvivorsCount(list, out);
    LeftOn(t, t', d, list, out);
    SubsetCount(EnabledOf(t', d), Members(list) - Members(out));
  }

  /** After the eviction, unless a correction is waiting, the device is within its cap. */
  lemma EvictionSuffices(s: State, s': State)
    requires Informed(s) && s.worker.HasList? && !NoticeWaits(s, s.worker.d) && !RuleWaits(s, s.worker.d)
    requires s'.rules == s.rules
    requires var w := s.worker;
             TurnedOff(s.reg, s'.reg, Evictees(w.list, w.protect, |w.list| - w.cap))
    ensures !Over(s', s.worker.d)
  {
    var w := s.worker;
    EvictionLeavesCap(s.reg, s'.reg, w.d, w.list, w.protect, w.cap);
  }

  lemma SurvivorsCount(list: seq<int>, out: seq<int>)
    requires Distinct(list) && Distinct(out) && forall a :: a in out ==> a in list
    ensures |Members(list) - Members(out)| == |list| - |out|
  {
    MembersCount(list);
    MembersCount(out);
    SubsetCount(Members(out), Members(list));
  }

  lemma LeftOn(t: Tables, t': Tables, d: int, list: seq<int>, out: seq<int>)
    requires TurnedOff(t, t', out) && EnabledOf(t, d) <= Members(list)
    ensures EnabledOf(t', d) <= Members(list) - Members(out)
  {
    forall a | a in EnabledOf(t', d)
      ensures a in Members(list) - Members(out)
    {
      assert a in EnabledOf(t, d);
    }
  }

  lemma KnownToo(t: Tables, list: seq<int>, some: seq<int>)
    requires AllKnown(t, list) && forall a :: a in some ==> a in list
    ensures AllKnown(t, some)
  {
    forall i | 0 <= i < |some|
      ensures some[i] in t.addresses
    {
      var a := some[i];
      assert a in some && a in list;
      var k :| 0 <= k < |list| && list[k] == a;
    }
  }

  lemma BatchCommits(t: Tables, ids: seq<int>, now: int)
    requires Inv(t) && AllKnown(t, ids) && NotBefore(t.log, now)
    ensures var step := StepDisableAddresses(ids, LimitExceeded, System, now);
            TurnedOff(t, Next(t, step), ids) && Inv(Next(t, step)) && Truthful(t, Next(t, step), NoticesOf(t, step))
  {
    var step := StepDisableAddresses(ids, LimitExceeded, System, now);
    DisableAddressesEffect(t, ids, LimitExceeded, System, now);
    StepKeepsInv(t, step);
    StepIsTruthful(t, step);
  }

  lemma EvictCommits(s: State, now: int)
    requires CapsHold(s) && Ready(s, Evict(now))
    ensures var w := s.worker;
            var step := EvictStep(w, now);
            && AllKnown(s.reg, step.ids)
            && TurnedOff(s.reg, Next(s.reg, step), Evictees(w.list, w.protect, |w.list| - w.cap))
            && Inv(Next(s.reg, step)) && Truthful(s.reg, Next(s.reg, step), NoticesOf(s.reg, step))
  {
    var w := s.worker;
    var step := EvictStep(w, now);
    EvicteesCount(w.list, w.protect, |w.list| - w.cap);
    KnownToo(s.reg, w.list, step.ids);
    BatchCommits(s.reg, step.ids, now);
  }

  lemma EvictCovers(s: State, busy: State, ns: seq<Notice>, d: int)
    requires CapsHold(s) && s.worker.HasList? && Inv(s.reg)
    requires Truthful(s.reg, busy.reg, ns) && busy == s.(reg := busy.reg, outbox := s.outbox + ns)
    requires TurnedOff(s.reg, busy.reg, Evictees(s.worker.list, s.worker.protect, |s.worker.list| - s.worker.cap))
    requires Covered(busy, d)
    ensures Covered(busy.(worker := Idle), d)
  {
    var s' := busy.(worker := Idle);
    assert NoticeWaits(busy, d) <==> NoticeWaits(s', d);
    assert RuleWaits(busy, d) <==> RuleWaits(s, d);
    if d == s.worker.d && !NoticeWaits(busy, d) && !RuleWaits(s, d) {
      CommitShrinks(s, busy, ns, d);
      EvictionSuffices(s, s');
    }
  }

  lemma EvictHolds(s: State, now: int)
    requires CapsHold(s) && Ready(s, Evict(now))
    ensures CapsHold(After(s, Evict(now)))
  {
    var s', step := After(s, Evict(now)), EvictStep(s.worker, now);
    var ns, busy := NoticesOf(s.reg, step), s'.(worker := s.worker);
    EvictCommits(s, now);
    CommitHolds(s, busy, ns);
    forall d
      ensures Covered(s', d)
    {
      assert Covered(busy, d);
      EvictCovers(s, busy, ns, d);
    }
  }

  /** An action keeps every device that is over its cap in view exactly when it is harmless. */
  lemma ActionHolds(s: State, action: Action)
    requires CapsHold(s) && Ready(s, action)
    ensures CapsHold(After(s, action)) <==> Harmless(s, action)
  {
    match action
    case Commit(step) =>
      StepKeepsInv(s.reg, step);
      StepIsTruthful(s.reg, step);
      CommitHolds(s, After(s, action), NoticesOf(s.reg, step));
    case EnableRule(_, _) => RuleHolds(s, action);
    case DisableRule(_) => RuleHolds(s, action);
    case Send(i) => SendHoldsExactly(s, i);
    case SendRule(i) => SendRuleHoldsExactly(s, i);
    case TakeNotice => TakeHolds(s, action);
    case TakeRule => TakeHolds(s, action);
    case ReadCap => ReadHolds(s, action);
    case ReadList(_) => ReadHolds(s, action);
    case Evict(now) => EvictHolds(s, now);
  }

  /** A sequence of actions, each ready where it happens. */
  ghost predicate ReadyRun(s: State, actions: seq<Action>)
    decreases |actions|
  {
    actions == [] || (Ready(s, actions[0]) && ReadyRun(After(s, actions[0]), actions[1..]))
  }

  /** And each harmless there. */
  ghost predicate HarmlessRun(s: State, actions: seq<Action>)
    ensures HarmlessRun(s, actions) ==> ReadyRun(s, actions)
    decreases |actions|
  {
    actions == []
    || (Ready(s, actions[0]) && Harmless(s, actions[0]) && HarmlessRun(After(s, actions[0]), actions[1..]))
  }

  ghost function Run(s: State, actions: seq<Action>): State
    requires ReadyRun(s, actions)
    decreases |actions|
  {
    if actions == [] then s else Run(After(s, actions[0]), actions[1..])
  }

  lemma {:induction false} RunHolds(s: State, actions: seq<Action>)
    requires CapsHold(s) && HarmlessRun(s, actions)
    ensures CapsHold(Run(s, actions))
    decreases |actions|
  {
    if actions != [] {
      ActionHolds(s, actions[0]);
      RunHolds(After(s, actions[0]), actions[1..]);
    }
  }

  /** An empty system, as after the first start. */
  const START := State(EMPTY, map[], [], [], [], [], Idle)

  lemma StartHolds()
    ensures CapsHold(START) && Quiescent(START)
  {
    assert forall d :: EnabledOf(EMPTY, d) == {};
  }

  predicate Quiescent(s: State) {
    s.worker.Idle? && s.outbox == [] && s.events == [] && s.ruleOutbox == [] && s.ruleEvents == []
  }

  /** Enforcement is never forgotten: once everything is sent and handled, no device is over its cap. */
  lemma CapsEnforcedAtRest(s: State, actions: seq<Action>, d: int)
    requires CapsHold(s) && HarmlessRun(s, actions) && Quiescent(Run(s, actions))
    ensures var s' := Run(s, actions);
            d in s'.rules && s'.rules[d].enabled ==>
              |set a | a in s'.reg.addresses && s'.reg.addresses[a].device == d && s'.reg.addresses[a].enabled|
              <= s'.rules[d].max
  {
    RunHolds(s, actions);
    var s' := Run(s, actions);
    assert Covered(s', d);
    assert EnabledOf(s'.reg, d)
        == set a | a in s'.reg.addresses && s'.reg.addresses[a].device == d && s'.reg.addresses[a].enabled;
  }

  // ---- a drop that is not harmless ----

  /** Nothing on its way will look at the device, although it is over its cap. */
  ghost predicate Forgotten(s: State, d: int) {
    && Inv(s.reg) && Over(s, d) && !NoticeWaits(s, d) && !RuleWaits(s, d)
    && (forall n :: n in s.events ==> n.device != d)
    && (s.worker.Idle? || s.worker.d != d)
    && (s.worker.HasList? ==> OfDevice(s.reg, s.worker.list, s.worker.d))
  }

  ghost predicate OfDevice(t: Tables, list: seq<int>, d: int) {
    forall i :: 0 <= i < |list| ==> list[i] in t.addresses && t.addresses[list[i]].device == d
  }

  /** A drop that leaves the device uncovered leaves it forgotten, once the worker is elsewhere. */
  lemma DroppedNoticeForgets(s: State, i: nat)
    requires CapsHold(s) && i < |s.outbox| && s.worker.Idle? && !HarmlessSend(s, i)
    requires forall n :: n in s.events ==> TurnsOn(n.kind)
    ensures Forgotten(After(s, Send(i)), s.outbox[i].device)
  {
    var s', d := After(s, Send(i)), s.outbox[i].device;
    assert NoticeWaits(s', d) <==> ActivationWaitsBeside(s, i);
    forall n | n in s'.events
      ensures n.device != d
    {
      assert n in s'.outbox + s'.events;
    }
  }

  /** The action announces no activation of the device, turns none of its addresses off and leaves its cap alone. */
  ghost predicate Spares(s: State, action: Action, d: int) {
    match action
    case Commit(step) =>
      && EnabledOf(s.reg, d) <= EnabledOf(Next(s.reg, step), d)
      && forall n :: n in NoticesOf(s.reg, step) && TurnsOn(n.kind) ==> n.device != d
    case EnableRule(x, _) => x != d
    case DisableRule(x) => x != d
    case _ => true
  }

  lemma StepKeepsDevices(t: Tables, step: Step, list: seq<int>, d: int)
    requires Inv(t) && Possible(t, step) && OfDevice(t, list, d)
    ensures OfDevice(Next(t, step), list, d)
  {
    var t' := Next(t, step);
    StepIsTruthful(t, step);
    forall i | 0 <= i < |list|
      ensures list[i] in t'.addresses && t'.addresses[list[i]].device == d
    {
      var a := list[i];
      assert a in t.addresses && t.addresses[a].device == d;
    }
  }

  lemma CommitKeepsForgotten(s: State, step: Step, d: int)
    requires Forgotten(s, d) && Ready(s, Commit(step)) && Spares(s, Commit(step), d)
    ensures Forgotten(After(s, Commit(step)), d)
  {
    var s', ns := After(s, Commit(step)), NoticesOf(s.reg, step);
    StepKeepsInv(s.reg, step);
    NothingTurnsOn(s, s', ns, d);
    SubsetCount(EnabledOf(s.reg, d), EnabledOf(s'.reg, d));
    if s.worker.HasList? {
      StepKeepsDevices(s.reg, step, s.worker.list, s.worker.d);
    }
  }

  lemma EvictKeepsForgotten(s: State, now: int, d: int)
    requires Forgotten(s, d) && Ready(s, Evict(now))
    ensures Forgotten(After(s, Evict(now)), d)
  {
    var w := s.worker;
    if |w.list| > w.cap >= 0 {
      var step := EvictStep(w, now);
      var s' := After(s, Evict(now));
      EvictedOfDevice(s.reg, w.list, w.protect, |w.list| - w.cap, w.d);
      BatchLeavesOthers(s.reg, step.ids, now, w.d, d);
      NothingTurnsOn(s, s', NoticesOf(s.reg, step), d);
    }
  }

  lemma BatchLeavesOthers(t: Tables, ids: seq<int>, now: int, of: int, d: int)
    requires Inv(t) && OfDevice(t, ids, of) && of != d && NotBefore(t.log, now)
    ensures var step := StepDisableAddresses(ids, LimitExceeded, System, now);
            && Inv(Next(t, step)) && EnabledOf(Next(t, step), d) == EnabledOf(t, d)
            && forall n :: n in NoticesOf(t, step) ==> n.kind == Disabled
  {
    BatchCommits(t, ids, now);
    DisableAddressesEffect(t, ids, LimitExceeded, System, now);
    SameEnabled(t, Next(t, StepDisableAddresses(ids, LimitExceeded, System, now)), ids, d);
  }

  lemma NothingTurnsOn(s: State, s': State, ns: seq<Notice>, d: int)
    requires s'.outbox == s.outbox + ns && s'.events == s.events && forall n :: n in ns && TurnsOn(n.kind) ==> n.device != d
    ensures NoticeWaits(s', d) ==> NoticeWaits(s, d)
  {
    if NoticeWaits(s', d) {
      var n :| n in s'.outbox + s'.events && TurnsOn(n.kind) && n.device == d;
      assert n in s.outbox + s.events;
    }
  }

  lemma {:induction false} EvictedOfDevice(t: Tables, list: seq<int>, protect: int, excess: nat, d: int)
    requires OfDevice(t, list, d)
    ensures OfDevice(t, Evictees(list, protect, excess), d)
    decreases |list|
  {
    if list != [] && excess > 0 {
      EvictedOfDevice(t, list[..|list| - 1], protect, if list[|list| - 1] == protect then excess else excess - 1, d);
    }
  }

  lemma SameEnabled(t: Tables, t': Tables, ids: seq<int>, d: int)
    requires TurnedOff(t, t', ids) && AllKnown(t, ids) && forall i :: 0 <= i < |ids| ==> t.addresses[ids[i]].device != d
    ensures EnabledOf(t', d) == EnabledOf(t, d)
  {
    forall a
      ensures a in EnabledOf(t', d) <==> a in EnabledOf(t, d)
    {
      assert a in t'.addresses.Keys <==> a in t.addresses.Keys;
    }
  }

  lemma SparingKeepsForgotten(s: State, action: Action, d: int)
    requires Forgotten(s, d) && Ready(s, action) && Spares(s, action, d)
    ensures Forgotten(After(s, action), d)
  {
    var s' := After(s, action);
    match action
    case Commit(step) => CommitKeepsForgotten(s, step, d);
    case EnableRule(x, _) =>
      assert forall e :: e in s'.ruleOutbox + s'.ruleEvents ==> e in s.ruleOutbox + s.ruleEvents || e == x;
    case Send(i) =>
      assert forall n :: n in s'.outbox ==> n in s.outbox;
      assert forall n :: n in s'.outbox + s'.events && TurnsOn(n.kind) ==> n in s.outbox + s.events;
      forall n | n in s'.events
        ensures n.device != d
      {
        assert n !in s.events ==> n in s.outbox + s.events && TurnsOn(n.kind);
      }
    case SendRule(i) =>
      assert forall e :: e in s'.ruleOutbox + s'.ruleEvents ==> e in s.ruleOutbox + s.ruleEvents;
    case TakeNotice =>
      assert s.events[0] in s.events;
      assert forall n :: n in s'.outbox + s'.events ==> n in s.outbox + s.events;
    case TakeRule =>
      assert s.ruleEvents[0] in s.ruleOutbox + s.ruleEvents;
      assert forall e :: e in s'.ruleOutbox + s'.ruleEvents ==> e in s.ruleOutbox + s.ruleEvents;
    case ReadList(list) =>
      forall i | 0 <= i < |list|
        ensures list[i] in s.reg.addresses && s.reg.addresses[list[i]].device == s.worker.d
      {
        var a := list[i];
        assert a in list && a in EnabledOf(s.reg, s.worker.d);
      }
    case Evict(now) => EvictKeepsForgotten(s, now, d);
    case _ =>
  }

  /** A run of such actions. */
  ghost predicate SparingRun(s: State, actions: seq<Action>, d: int)
    ensures SparingRun(s, actions, d) ==> ReadyRun(s, actions)
    decreases |actions|
  {
    actions == []
    || (Ready(s, actions[0]) && Spares(s, actions[0], d) && SparingRun(After(s, actions[0]), actions[1..], d))
  }

  /**
   Whatever else is registered, disabled, capped or evicted: until something announces an activation of it,
   turns one of its addresses off or changes its cap, a forgotten device stays over its cap.
   */
  lemma {:induction false} ForgottenForGood(s: State, actions: seq<Action>, d: int)
    requires Forgotten(s, d) && SparingRun(s, actions, d)
    ensures Forgotten(Run(s, actions), d)
    decreases |actions|
  {
    if actions != [] {
      SparingKeepsForgotten(s, actions[0], d);
      ForgottenForGood(After(s, actions[0]), actions[1..], d);
    }
  }

  // ---- how that comes about ----

  /**
   Two live devices and no listener at work: device 2 has had its only address switched on and off n times,
   which has put n notices about it into the channel.
   */
  ghost predicate Filling(s: State, n: nat, rules: map<int, Rule>) {
    && Inv(s.reg) && NotBefore(s.reg.log, 0) && Live(s.reg, 1) && Live(s.reg, 2)
    && (forall a :: a in s.reg.addresses ==> OnlyRow(a, s.reg.addresses[a]))
    && s.rules == rules && s.outbox == [] && s.ruleOutbox == [] && s.ruleEvents == [] && s.worker == Idle
    && |s.events| == n && forall x :: x in s.events ==> TurnsOn(x.kind) && x.device == 2
  }

  ghost predicate Live(t: Tables, d: int) {
    Active(t, d) && !t.devices[d].disabled
  }

  predicate OnlyRow(a: int, row: Address) {
    a == 3 && row.device == 2 && row.ip == "c" && !row.enabled
  }

  lemma {:induction false} RunConcat(s: State, a: seq<Action>, b: seq<Action>)
    requires ReadyRun(s, a) && ReadyRun(Run(s, a), b)
    ensures ReadyRun(s, a + b) && Run(s, a + b) == Run(Run(s, a), b)
    decreases |a|
  {
    if a == [] {
      assert a + b == b;
    } else {
      assert (a + b)[0] == a[0] && (a + b)[1..] == a[1..] + b;
      RunConcat(After(s, a[0]), a[1..], b);
    }
  }

  lemma OneAction(s: State, action: Action)
    requires Ready(s, action)
    ensures ReadyRun(s, [action]) && Run(s, [action]) == After(s, action)
  {
    assert ReadyRun(After(s, action), []);
  }

  /** The run goes on by one action. */
  lemma Then(s: State, done: seq<Action>, action: Action) returns (more: seq<Action>)
    requires ReadyRun(s, done) && Ready(Run(s, done), action)
    ensures more == done + [action] && ReadyRun(s, more) && Run(s, more) == After(Run(s, done), action)
  {
    more := done + [action];
    OneAction(Run(s, done), action);
    RunConcat(s, done, [action]);
  }

  lemma SwitchedOn(s: State, n: nat) returns (on: Action)
    requires Filling(s, n, s.rules) && n < EVENTS
    ensures Ready(s, on)
    ensures var s' := After(s, on);
            && s' == s.(reg := s'.reg, outbox := s'.outbox) && Inv(s'.reg) && NotBefore(s'.reg.log, 0)
            && s'.reg.devices == s.reg.devices && s'.reg.addresses.Keys == {3}
            && s'.reg.addresses[3].device == 2 && s'.reg.addresses[3].ip == "c"
            && |s'.outbox| == 1 && TurnsOn(s'.outbox[0].kind) && s'.outbox[0].device == 2
  {
    var t := s.reg;
    var step := StepRegister(2, "c", Heartbeat, Schedule, 0, if 3 in t.addresses then 4 else 3);
    on := Commit(step);
    assert forall a :: a in RowsFor(t, 2, "c") <==> a in t.addresses;
    StepKeepsInv(t, step);
    assert 3 in t.addresses ==> 3 in RowsFor(t, 2, "c");
    forall a | a in t.addresses.Keys
      ensures a == 3
    {
      assert OnlyRow(a, t.addresses[a]);
    }
    assert After(s, on).reg.addresses.Keys == t.addresses.Keys + {3} == {3};
  }

  lemma SwitchedOff(s: State)
    requires Inv(s.reg) && NotBefore(s.reg.log, 0) && Live(s.reg, 2) && s.outbox == []
    requires s.reg.addresses.Keys == {3} && s.reg.addresses[3].device == 2 && s.reg.addresses[3].ip == "c"
    ensures var s' := After(s, Commit(StepDisableAddress(2, 3, 0)));
            && s' == s.(reg := s'.reg, outbox := s'.outbox) && Inv(s'.reg) && NotBefore(s'.reg.log, 0)
            && s'.reg.devices == s.reg.devices && (forall a :: a in s'.reg.addresses ==> OnlyRow(a, s'.reg.addresses[a]))
            && |s'.outbox| == 1 && s'.outbox[0].kind == Disabled
  {
    StepKeepsInv(s.reg, StepDisableAddress(2, 3, 0));
    assert 3 in s.reg.addresses;
  }

  lemma OneMore(s: State, n: nat) returns (actions: seq<Action>)
    requires Filling(s, n, s.rules) && n < EVENTS
    ensures ReadyRun(s, actions) && Filling(Run(s, actions), n + 1, s.rules)
  {
    var on := SwitchedOn(s, n);
    var s1 := After(s, on);
    var s2 := After(s1, Send(0));
    SwitchedOff(s2);
    var off := Commit(StepDisableAddress(2, 3, 0));
    var s3 := After(s2, off);
    OneAction(s, on);
    actions := Then(s, [on], Send(0));
    actions := Then(s, actions, off);
    actions := Then(s, actions, Send(0));
  }

  lemma {:induction false} Fill(s: State, n: nat) returns (actions: seq<Action>)
    requires n <= EVENTS && Filling(s, n, s.rules)
    ensures ReadyRun(s, actions) && Filling(Run(s, actions), EVENTS, s.rules)
    decreases EVENTS - n
  {
    if n == EVENTS {
      actions := [];
    } else {
      var first := OneMore(s, n);
      var rest := Fill(Run(s, first), n + 1);
      RunConcat(s, first, rest);
      actions := first + rest;
    }
  }

  lemma TwoDevices() returns (actions: seq<Action>)
    ensures ReadyRun(START, actions) && Filling(Run(START, actions), 0, map[])
  {
    var one, two := StepCreate(1, 0, None), StepCreate(2, 0, None);
    StepKeepsInv(EMPTY, one);
    StepKeepsInv(Next(EMPTY, one), two);
    OneAction(START, Commit(one));
    actions := Then(START, [Commit(one)], Commit(two));
    var s := Run(START, actions);
    assert s == START.(reg := Next(Next(EMPTY, one), two));
  }

  const CAP_ONE: map<int, Rule> := map[1 := Rule(true, 1)]

  /** Device 1 is given a cap of one; it has no address yet, so there is nothing to enforce. */
  lemma CapSet(s: State) returns (actions: seq<Action>)
    requires Filling(s, EVENTS, map[])
    ensures ReadyRun(s, actions) && Filling(Run(s, actions), EVENTS, CAP_ONE)
  {
    OneAction(s, EnableRule(1, 1));
    actions := Then(s, [EnableRule(1, 1)], SendRule(0));
    actions := Then(s, actions, TakeRule);
    actions := Then(s, actions, ReadCap);
    var s' := Run(s, actions);
    assert s'.worker == HasCap(1, 0, 1);
    assert IsEnabledList(s'.reg, 1, []) by {
      assert forall a :: a !in EnabledOf(s'.reg, 1);
    }
    actions := Then(s, actions, ReadList([]));
    assert s == Run(s, actions).(rules := map[]);
  }

  /** A first registration from an IP that the device has no row for. */
  lemma NewAddress(s: State, d: int, ip: string, id: int)
    requires Inv(s.reg) && NotBefore(s.reg.log, 0) && Live(s.reg, d) && id !in s.reg.addresses && id != 0
    requires forall a :: a in s.reg.addresses ==> s.reg.addresses[a].device != d || s.reg.addresses[a].ip != ip
    ensures var step := StepRegister(d, ip, Heartbeat, Schedule, 0, id);
            var s' := After(s, Commit(step));
            && Ready(s, Commit(step)) && Inv(s'.reg) && NotBefore(s'.reg.log, 0) && s'.reg.devices == s.reg.devices
            && s'.reg.addresses == s.reg.addresses[id := Address(d, ip, true, Heartbeat, 0)]
            && s' == s.(reg := s'.reg, outbox := s.outbox + [Notice(Created, id, d)])
  {
    var step := StepRegister(d, ip, Heartbeat, Schedule, 0, id);
    StepKeepsInv(s.reg, step);
    assert forall a :: a !in RowsFor(s.reg, d, ip);
  }

  /** Only device 1 is capped, it has two addresses on, and one notice of it is left beside a full channel. */
  ghost predicate AtTheBrim(s: State) {
    && Inv(s.reg) && s.rules == CAP_ONE && s.ruleOutbox == [] && s.ruleEvents == [] && s.worker == Idle
    && |s.events| == EVENTS && (forall x :: x in s.events ==> TurnsOn(x.kind) && x.device == 2)
    && s.outbox == [Notice(Created, 2, 1)] && EnabledOf(s.reg, 1) == {1, 2}
  }

  lemma BrimIsHarmful(s: State)
    requires AtTheBrim(s)
    ensures CapsHold(s) && !HarmlessSend(s, 0)
  {
    var x := s.outbox[0];
    assert x in s.outbox + s.events;
    forall d
      ensures Covered(s, d)
    {
      assert Over(s, d) ==> d == 1;
    }
    assert RemoveAt(s.outbox, 0) + s.events == s.events;
    assert |{1, 2}| == 2;
  }

  lemma ReachBrim(s: State) returns (actions: seq<Action>)
    requires Filling(s, EVENTS, CAP_ONE)
    ensures ReadyRun(s, actions) && AtTheBrim(Run(s, actions))
  {
    var a, b := StepRegister(1, "a", Heartbeat, Schedule, 0, 1), StepRegister(1, "b", Heartbeat, Schedule, 0, 2);
    NewAddress(s, 1, "a", 1);
    var s1 := After(s, Commit(a));
    NewAddress(s1, 1, "b", 2);
    OneAction(s, Commit(a));
    actions := Then(s, [Commit(a)], Commit(b));
    actions := Then(s, actions, Send(0));
    var s' := Run(s, actions);
    forall x
      ensures x in EnabledOf(s'.reg, 1) <==> x in {1, 2}
    {}
    assert EnabledOf(s'.reg, 1) == {1, 2};
  }

  /**
   It can happen: a run from an empty system in which nothing but full channels goes wrong, and after which a
   device is over its cap and forgotten.
   */
  lemma DropCanForget() returns (actions: seq<Action>)
    ensures ReadyRun(START, actions) && Forgotten(Run(START, actions), 1)
  {
    var first := TwoDevices();
    var s := Run(START, first);
    var filling := Fill(s, 0);
    RunConcat(START, first, filling);
    var capping := CapSet(Run(START, first + filling));
    RunConcat(START, first + filling, capping);
    var ending := ReachBrim(Run(START, first + filling + capping));
    RunConcat(START, first + filling + capping, ending);
    var brim := first + filling + capping + ending;
    BrimIsHarmful(Run(START, brim));
    DroppedNoticeForgets(Run(START, brim), 0);
    actions := Then(START, brim, Send(0));
  }
}
