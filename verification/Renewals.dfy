/** The gaps between a device's renewals, told from the address audit log, and what transactions do to them. */
module Renewals {
  import opened Common
  import opened Registry
  import Tuning

  /** Written by the server when a lease ends rather than when it is renewed. */
  predicate IsTermination(source: Source) {
    source == Expiry || source == LimitExceeded
  }

  predicate IsOf(t: Tables, e: Event, d: int) {
    e.address in t.addresses && t.addresses[e.address].device == d
  }

  predicate Renews(t: Tables, e: Event, d: int) {
    IsOf(t, e, d) && !IsTermination(e.source)
  }

  /** LAG over the renewals of the device, for a row that follows these. */
  function Previous(t: Tables, older: seq<Event>, d: int): Option<Event> {
    if older == [] then None
    else if Renews(t, older[|older| - 1], d) then Some(older[|older| - 1])
    else Previous(t, older[..|older| - 1], d)
  }

  /** renewal_gap_seconds of a row, joined back by its id: a termination has no row in the renewal gaps. */
  function GapOf(t: Tables, older: seq<Event>, e: Event): Option<int> {
    if IsTermination(e.source) || e.address !in t.addresses then None
    else
      match Previous(t, older, t.addresses[e.address].device)
      case None => None
      case Some(p) => Some(e.at - p.at)
  }

  /** The measured gaps of a device's rows, oldest first: what the tuning query ranks. */
  function Gaps(t: Tables, log: seq<Event>, d: int): seq<int> {
    if log == [] then []
    else
      var older, e := log[..|log| - 1], log[|log| - 1];
      var gap := GapOf(t, older, e);
      Gaps(t, older, d) + if IsOf(t, e, d) && gap.Some? then [gap.value] else []
  }

  function RenewalsOf(t: Tables, log: seq<Event>, d: int): seq<Event> {
    if log == [] then []
    else
      var older, e := log[..|log| - 1], log[|log| - 1];
      RenewalsOf(t, older, d) + if Renews(t, e, d) then [e] else []
  }

  function Sum(xs: seq<int>): int {
    if xs == [] then 0 else Sum(xs[..|xs| - 1]) + xs[|xs| - 1]
  }

  /** Every gap lies between two neighbouring renewals of the device, whatever else the log holds between them. */
  ghost predicate Between(gaps: seq<int>, renewals: seq<Event>) {
    && |gaps| == (if renewals == [] then 0 else |renewals| - 1)
    && forall k {:trigger gaps[k]} :: 0 <= k < |gaps| ==> gaps[k] == renewals[k + 1].at - renewals[k].at
  }

  lemma BetweenGrows(gaps: seq<int>, renewals: seq<Event>, e: Event)
    requires Between(gaps, renewals)
    ensures Between(gaps + if renewals == [] then [] else [e.at - renewals[|renewals| - 1].at], renewals + [e])
  {}

  lemma {:induction false} GapsAreBetween(t: Tables, log: seq<Event>, d: int)
    ensures Between(Gaps(t, log, d), RenewalsOf(t, log, d))
    ensures var rs := RenewalsOf(t, log, d);
            Previous(t, log, d) == if rs == [] then None else Some(rs[|rs| - 1])
    decreases |log|
  {
    if log != [] {
      var older, e := log[..|log| - 1], log[|log| - 1];
      var rs, gaps := RenewalsOf(t, older, d), Gaps(t, older, d);
      GapsAreBetween(t, older, d);
      if Renews(t, e, d) {
        BetweenGrows(gaps, rs, e);
      }
    }
  }

  lemma {:induction false} SumBetween(gaps: seq<int>, renewals: seq<Event>)
    requires Between(gaps, renewals) && renewals != []
    ensures Sum(gaps) == renewals[|renewals| - 1].at - renewals[0].at
    decreases |gaps|
  {
    if gaps != [] {
      var n := |gaps| - 1;
      SumBetween(gaps[..n], renewals[..n + 1]);
    }
  }

  /** A device's gaps add up to the time from its first renewal to its last. */
  lemma GapsTelescope(t: Tables, log: seq<Event>, d: int)
    requires RenewalsOf(t, log, d) != []
    ensures var rs := RenewalsOf(t, log, d);
            Sum(Gaps(t, log, d)) == rs[|rs| - 1].at - rs[0].at
  {
    GapsAreBetween(t, log, d);
    SumBetween(Gaps(t, log, d), RenewalsOf(t, log, d));
  }

  lemma {:induction false} RenewalsInOrder(t: Tables, log: seq<Event>, d: int)
    requires forall i, j :: 0 <= i < j < |log| ==> log[i].at <= log[j].at
    ensures forall k :: 0 <= k < |RenewalsOf(t, log, d)| ==> RenewalsOf(t, log, d)[k] in log
    ensures forall k, l :: 0 <= k < l < |RenewalsOf(t, log, d)| ==>
              RenewalsOf(t, log, d)[k].at <= RenewalsOf(t, log, d)[l].at
    decreases |log|
  {
    if log != [] {
      RenewalsInOrder(t, log[..|log| - 1], d);
    }
  }

  /** In a log that the registry keeps, no gap is negative. */
  lemma GapsAreNotNegative(t: Tables, d: int)
    requires Inv(t)
    ensures forall k :: 0 <= k < |Gaps(t, t.log, d)| ==> Gaps(t, t.log, d)[k] >= 0
  {
    GapsAreBetween(t, t.log, d);
    RenewalsInOrder(t, t.log, d);
    OrderedGaps(Gaps(t, t.log, d), RenewalsOf(t, t.log, d));
  }

  lemma OrderedGaps(gaps: seq<int>, renewals: seq<Event>)
    requires Between(gaps, renewals)
    requires forall k, l :: 0 <= k < l < |renewals| ==> renewals[k].at <= renewals[l].at
    ensures forall k :: 0 <= k < |gaps| ==> gaps[k] >= 0
  {
    forall k | 0 <= k < |gaps|
      ensures gaps[k] >= 0
    {
      assert renewals[k].at <= renewals[k + 1].at;
    }
  }

  /** So many late renewals need that much time: at a positive TTL, each takes at least the TTL out of the span. */
  lemma LateRenewalsTakeTime(t: Tables, d: int, ttl: int)
    requires Inv(t) && ttl > 0 && RenewalsOf(t, t.log, d) != []
    ensures var rs := RenewalsOf(t, t.log, d);
            Tuning.CountLate(Gaps(t, t.log, d), ttl) * ttl <= rs[|rs| - 1].at - rs[0].at
  {
    GapsTelescope(t, t.log, d);
    GapsAreNotNegative(t, d);
    Tuning.LateIsAtLeastTTL(Gaps(t, t.log, d), ttl);
    LongGapsTakeTime(Gaps(t, t.log, d), ttl);
  }

  lemma {:induction false} LongGapsTakeTime(gaps: seq<int>, ttl: int)
    requires ttl > 0 && forall k :: 0 <= k < |gaps| ==> gaps[k] >= 0
    ensures Tuning.CountAbove(gaps, ttl - 1) * ttl <= Sum(gaps)
    decreases |gaps|
  {
    if gaps != [] {
      var n := |gaps| - 1;
      LongGapsTakeTime(gaps[..n], ttl);
      assert gaps == gaps[..n] + [gaps[n]];
      Tuning.CountConcat(gaps[..n], [gaps[n]], ttl - 1);
      OneMoreTime(Tuning.CountAbove(gaps[..n], ttl - 1), ttl);
    }
  }

  lemma OneMoreTime(n: nat, ttl: int)
    ensures (n + 1) * ttl == n * ttl + ttl
  {}

  // ---- transactions ----

  /** Every audit row is of a known address. */
  ghost predicate LogIsKnown(t: Tables) {
    forall i :: 0 <= i < |t.log| ==> t.log[i].address in t.addresses
  }

  /** The transaction appended these rows, and addresses that were there keep their devices. */
  ghost predicate Appends(t: Tables, t': Tables, rows: seq<Event>) {
    && t'.log == t.log + rows
    && (forall a :: a in t.addresses ==> a in t'.addresses && t'.addresses[a].device == t.addresses[a].device)
    && (forall i :: 0 <= i < |rows| ==> rows[i].address in t'.addresses)
  }

  ghost predicate AllFrom(rows: seq<Event>, source: Source) {
    forall i :: 0 <= i < |rows| ==> rows[i].source == source
  }

  lemma {:induction false} BatchAppends(t: Tables, ids: seq<int>, source: Source, trigger: Trigger, now: int)
    returns (rows: seq<Event>)
    ensures AllFrom(rows, source)
    ensures var r := DisableAddresses(t, ids, source, trigger, now);
            r.Committed? ==> Appends(t, r.tables, rows) && r.tables.addresses.Keys == t.addresses.Keys
    decreases |ids|
  {
    rows := [];
    if ids != [] && ids[0] in t.addresses {
      var t1 := Record(t, ids[0], false, source, trigger, now);
      var e := Event(ids[0], false, source, trigger, now);
      var rest := BatchAppends(t1, ids[1..], source, trigger, now);
      rows := [e] + rest;
      assert t.log + [e] + rest == t.log + rows;
      assert ids[0] in t1.addresses.Keys;
    }
  }

  /** A history grown by rows that renew nothing of a device leaves its renewals and gaps as they were. */
  lemma {:induction false} OthersLeaveGaps(t: Tables, t': Tables, log: seq<Event>, rows: seq<Event>, d: int)
    requires SameDevices(t, t', log)
    requires forall i :: 0 <= i < |rows| ==> !Renews(t', rows[i], d)
    ensures RenewalsOf(t', log + rows, d) == RenewalsOf(t, log, d)
    ensures Gaps(t', log + rows, d) == Gaps(t, log, d)
    decreases |rows|
  {
    if rows == [] {
      assert log + rows == log;
      DevicesDecide(t, t', log, d);
    } else {
      var n := |rows| - 1;
      assert (log + rows)[..|log| + n] == log + rows[..n];
      OthersLeaveGaps(t, t', log, rows[..n], d);
    }
  }

  ghost predicate SameDevices(t: Tables, t': Tables, log: seq<Event>) {
    forall i, d :: 0 <= i < |log| ==> (IsOf(t, log[i], d) <==> IsOf(t', log[i], d))
  }

  lemma {:induction false} DevicesDecide(t: Tables, t': Tables, log: seq<Event>, d: int)
    requires SameDevices(t, t', log)
    ensures RenewalsOf(t', log, d) == RenewalsOf(t, log, d) && Gaps(t', log, d) == Gaps(t, log, d)
    ensures Previous(t', log, d) == Previous(t, log, d)
    decreases |log|
  {
    if log != [] {
      var older, e := log[..|log| - 1], log[|log| - 1];
      assert IsOf(t, e, d) <==> IsOf(t', e, d);
      DevicesDecide(t, t', older, d);
    }
  }

  lemma AppendedKeepsDevices(t: Tables, t': Tables, rows: seq<Event>)
    requires LogIsKnown(t) && Appends(t, t', rows)
    ensures SameDevices(t, t', t.log) && LogIsKnown(t')
  {
    forall i | 0 <= i < |t'.log|
      ensures t'.log[i].address in t'.addresses
    {
      if i >= |t.log| {
        assert t'.log[i] == rows[i - |t.log|];
      }
    }
  }

  /** A termination, by expiry or by the cap, is no renewal: it leaves every device's gaps as they were. */
  lemma TerminationsLeaveGaps(t: Tables, ids: seq<int>, source: Source, trigger: Trigger, now: int, d: int)
    requires LogIsKnown(t) && (source == Expiry || source == LimitExceeded)
    ensures var t' := Next(t, StepDisableAddresses(ids, source, trigger, now));
            LogIsKnown(t') && Gaps(t', t'.log, d) == Gaps(t, t.log, d)
  {
    var t' := Next(t, StepDisableAddresses(ids, source, trigger, now));
    var rows := BatchAppends(t, ids, source, trigger, now);
    if DisableAddresses(t, ids, source, trigger, now).Committed? {
      AppendedKeepsDevices(t, t', rows);
      OthersLeaveGaps(t, t', t.log, rows, d);
    }
  }

  lemma RegisterAppends(t: Tables, step: Step)
    requires Inv(t) && step.StepRegister? && Possible(t, step) && NoticesOf(t, step) != []
    ensures var a := NoticesOf(t, step)[0].address;
            var e := Event(a, true, step.source, step.trigger, step.now);
            Appends(t, Next(t, step), [e]) && IsOf(Next(t, step), e, step.d)
  {}

  /** A registration is measured against the device's latest renewal, through any address, and changes no other gap. */
  lemma RegistrationIsMeasured(t: Tables, step: Step, d: int)
    requires Inv(t) && LogIsKnown(t) && step.StepRegister? && Possible(t, step) && NoticesOf(t, step) != []
    requires step.source == Heartbeat || step.source == WebUI
    ensures var t', rs := Next(t, step), RenewalsOf(t, t.log, d);
            && LogIsKnown(t')
            && Gaps(t', t'.log, d)
               == Gaps(t, t.log, d) + if d == step.d && rs != [] then [step.now - rs[|rs| - 1].at] else []
  {
    var e := Event(NoticesOf(t, step)[0].address, true, step.source, step.trigger, step.now);
    RegisterAppends(t, step);
    OneEventMore(t, Next(t, step), e, step.d, d);
  }

  /** One row appended that renews device x. */
  lemma OneEventMore(t: Tables, t': Tables, e: Event, x: int, d: int)
    requires LogIsKnown(t) && Appends(t, t', [e]) && Renews(t', e, x)
    ensures var rs := RenewalsOf(t, t.log, d);
            && LogIsKnown(t')
            && Gaps(t', t'.log, d) == Gaps(t, t.log, d) + if d == x && rs != [] then [e.at - rs[|rs| - 1].at] else []
  {
    AppendedKeepsDevices(t, t', [e]);
    if d == x {
      OneMoreRenewal(t, t', t.log, e, d);
    } else {
      OthersLeaveGaps(t, t', t.log, [e], d);
    }
  }

  lemma OneMoreRenewal(t: Tables, t': Tables, log: seq<Event>, e: Event, d: int)
    requires SameDevices(t, t', log) && Renews(t', e, d)
    ensures var rs := RenewalsOf(t, log, d);
            Gaps(t', log + [e], d) == Gaps(t, log, d) + if rs != [] then [e.at - rs[|rs| - 1].at] else []
  {
    DevicesDecide(t, t', log, d);
    GapsAreBetween(t, log, d);
    assert (log + [e])[..|log|] == log;
  }

  lemma BatchKeepsKnown(t: Tables, ids: seq<int>, source: Source, trigger: Trigger, now: int)
    requires LogIsKnown(t)
    ensures var r := DisableAddresses(t, ids, source, trigger, now); r.Committed? ==> LogIsKnown(r.tables)
  {
    var r := DisableAddresses(t, ids, source, trigger, now);
    var rows := BatchAppends(t, ids, source, trigger, now);
    if r.Committed? {
      AppendedKeepsDevices(t, r.tables, rows);
    }
  }

  lemma StepKeepsKnown(t: Tables, step: Step)
    requires Inv(t) && LogIsKnown(t) && Possible(t, step)
    ensures LogIsKnown(Next(t, step))
  {
    match step
    case StepRegister(d, ip, source, trigger, now, id) =>
      if NoticesOf(t, step) != [] {
        RegisterAppends(t, step);
        AppendedKeepsDevices(t, Next(t, step), [Event(NoticesOf(t, step)[0].address, true, source, trigger, now)]);
      }
    case StepDisableAddress(d, a, now) => BatchKeepsKnown(t, [a], WebUI, User, now);
    case StepDisableAddresses(ids, source, trigger, now) => BatchKeepsKnown(t, ids, source, trigger, now);
    case StepDeleteDevice(d, enabled, now) =>
      if Active(t, d) {
        BatchKeepsKnown(t.(devices := t.devices[d := t.devices[d].(deleted := true)]), enabled, WebUI, User, now);
      }
    case StepDisableDevice(d, enabled, now) => BatchKeepsKnown(t, enabled, WebUI, User, now);
    case StepPrune(before) => var k := PrunedIsSuffix(t.log, before);
    case _ =>
  }

  /** After any run from an empty registry, every audit row is of a known address. */
  lemma {:induction false} RunKeepsKnown(t: Tables, steps: seq<Step>)
    requires Inv(t) && LogIsKnown(t) && PossibleRun(t, steps)
    ensures LogIsKnown(Run(t, steps))
    decreases |steps|
  {
    if steps != [] {
      StepKeepsInv(t, steps[0]);
      StepKeepsKnown(t, steps[0]);
      RunKeepsKnown(Next(t, steps[0]), steps[1..]);
    }
  }

  lemma {:induction false} RenewalsConcat(t: Tables, log: seq<Event>, more: seq<Event>, d: int)
    ensures RenewalsOf(t, log + more, d) == RenewalsOf(t, log, d) + RenewalsOf(t, more, d)
    decreases |more|
  {
    if more == [] {
      assert log + more == log;
    } else {
      var n := |more| - 1;
      assert (log + more)[..|log| + n] == log + more[..n];
      RenewalsConcat(t, log, more[..n], d);
    }
  }

  lemma GapsOfSuffix(gaps: seq<int>, renewals: seq<Event>, m: nat, gaps': seq<int>)
    requires m <= |renewals| && Between(gaps, renewals) && Between(gaps', renewals[m..])
    ensures gaps' == if m < |gaps| then gaps[m..] else []
  {
    forall k | 0 <= k < |gaps'|
      ensures m + k < |gaps| && gaps'[k] == gaps[m + k]
    {
      assert renewals[m..][k] == renewals[m + k] && renewals[m..][k + 1] == renewals[m + k + 1];
    }
  }

  lemma SuffixOfLog(t: Tables, log: seq<Event>, k: nat, d: int)
    requires k <= |log|
    ensures var rs, gaps, m := RenewalsOf(t, log, d), Gaps(t, log, d), |RenewalsOf(t, log[..k], d)|;
            && m <= |rs| && RenewalsOf(t, log[k..], d) == rs[m..]
            && Gaps(t, log[k..], d) == if m < |gaps| then gaps[m..] else []
  {
    assert log == log[..k] + log[k..];
    RenewalsConcat(t, log[..k], log[k..], d);
    GapsAreBetween(t, log, d);
    GapsAreBetween(t, log[k..], d);
    GapsOfSuffix(Gaps(t, log, d), RenewalsOf(t, log, d), |RenewalsOf(t, log[..k], d)|, Gaps(t, log[k..], d));
  }

  /** Retention takes a device's oldest renewals with their gaps, and of the surviving ones only the oldest's gap. */
  lemma PruneTakesOldestGaps(t: Tables, before: int, d: int) returns (m: nat)
    requires Inv(t)
    ensures m <= |RenewalsOf(t, t.log, d)|
    ensures var kept, gaps := Next(t, StepPrune(before)).log, Gaps(t, t.log, d);
            && RenewalsOf(t, kept, d) == RenewalsOf(t, t.log, d)[m..]
            && Gaps(t, kept, d) == if m < |gaps| then gaps[m..] else []
  {
    var k := PrunedIsSuffix(t.log, before);
    m := |RenewalsOf(t, t.log[..k], d)|;
    SuffixOfLog(t, t.log, k, d);
  }
}
