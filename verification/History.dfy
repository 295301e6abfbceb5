/** The address history: what kind of change each audit row was, told from the row before it of the same address. */
module History {
  import opened Common
  import opened Registry

  datatype Kind = KindCreated | KindEnabled | KindDisabled | KindRefresh

  /** eventKindCase for an event and the latest earlier event of its address. */
  function KindOf(previous: Option<Event>, e: Event): Kind {
    if previous.None? then KindCreated
    else if previous.value.enabled != e.enabled then if e.enabled then KindEnabled else KindDisabled
    else KindRefresh
  }

  /** The kinds of the events of one address, oldest first. */
  ghost function Kinds(log: seq<Event>, a: int): seq<Kind> {
    if log == [] then []
    else
      var older, e := log[..|log| - 1], log[|log| - 1];
      Kinds(older, a) + if e.address == a then [KindOf(LastEvent(older, a), e)] else []
  }

  /** The states those events recorded. */
  ghost function Flags(log: seq<Event>, a: int): seq<bool> {
    if log == [] then []
    else
      var older, e := log[..|log| - 1], log[|log| - 1];
      Flags(older, a) + if e.address == a then [e.enabled] else []
  }

  /** A reader of the history follows the states from the kinds and the first state alone. */
  function Decode(first: bool, kinds: seq<Kind>): (flags: seq<bool>)
    ensures |flags| == |kinds|
  {
    if kinds == [] then []
    else
      var older := Decode(first, kinds[..|kinds| - 1]);
      older + [match kinds[|kinds| - 1]
               case KindCreated => first
               case KindEnabled => true
               case KindDisabled => false
               case KindRefresh => if older == [] then first else older[|older| - 1]]
  }

  /** The kind at position i of a list of states. */
  function Change(flags: seq<bool>, i: nat): Kind
    requires i < |flags|
  {
    if i == 0 then KindCreated
    else if flags[i - 1] == flags[i] then KindRefresh
    else if flags[i] then KindEnabled else KindDisabled
  }

  /** Each event's kind is the change of state at its place among the address's own events. */
  ghost predicate Describes(kinds: seq<Kind>, flags: seq<bool>) {
    |kinds| == |flags| && forall i :: 0 <= i < |flags| ==> kinds[i] == Change(flags, i)
  }

  lemma {:induction false} KindsDescribeFlags(log: seq<Event>, a: int)
    ensures Describes(Kinds(log, a), Flags(log, a))
    ensures LastEvent(log, a).Some? <==> Flags(log, a) != []
    ensures var flags := Flags(log, a); flags != [] ==> LastEvent(log, a).value.enabled == flags[|flags| - 1]
  {
    if log != [] {
      KindsDescribeFlags(log[..|log| - 1], a);
    }
  }

  /** Reading the kinds back gives every recorded state. */
  lemma {:induction false} DecodeInverts(kinds: seq<Kind>, flags: seq<bool>)
    requires Describes(kinds, flags) && flags != []
    ensures Decode(flags[0], kinds) == flags
  {
    var n := |flags| - 1;
    if n > 0 {
      DecodeInverts(kinds[..n], flags[..n]);
      assert flags == flags[..n] + [flags[n]];
    }
  }

  lemma KindsDecode(log: seq<Event>, a: int)
    requires Flags(log, a) != []
    ensures Decode(Flags(log, a)[0], Kinds(log, a)) == Flags(log, a)
  {
    KindsDescribeFlags(log, a);
    DecodeInverts(Kinds(log, a), Flags(log, a));
  }

  predicate Opposite(k: Kind, l: Kind) {
    (k == KindEnabled && l == KindDisabled) || (k == KindDisabled && l == KindEnabled)
  }

  lemma {:induction false} FindChange(flags: seq<bool>, i: nat, j: nat) returns (k: nat)
    requires i < j < |flags| && flags[i] != flags[j]
    ensures i < k <= j && flags[k - 1] == flags[i] && flags[k] == flags[j]
    decreases j
  {
    if flags[j - 1] == flags[i] {
      k := j;
    } else {
      k := FindChange(flags, i, j - 1);
    }
  }

  /** Between two events of the same switching kind there is one of the opposite kind: the two alternate. */
  lemma SwitchesAlternate(log: seq<Event>, a: int, i: nat, j: nat) returns (k: nat)
    requires i < j < |Kinds(log, a)| && Kinds(log, a)[i] == Kinds(log, a)[j]
    requires Kinds(log, a)[i] == KindEnabled || Kinds(log, a)[i] == KindDisabled
    ensures i < k < j && Opposite(Kinds(log, a)[i], Kinds(log, a)[k])
  {
    var flags := Flags(log, a);
    KindsDescribeFlags(log, a);
    assert Change(flags, i) == Change(flags, j);
    k := FindChange(flags, i, j - 1);
    assert Kinds(log, a)[k] == Change(flags, k);
  }

  lemma {:induction false} FlagsConcat(log: seq<Event>, more: seq<Event>, a: int)
    ensures Flags(log + more, a) == Flags(log, a) + Flags(more, a)
  {
    if more == [] {
      assert log + more == log;
    } else {
      var n := |more| - 1;
      assert (log + more)[..|log| + n] == log + more[..n];
      FlagsConcat(log, more[..n], a);
    }
  }

  /** Retention drops the oldest kinds of an address and relabels the oldest survivor as its creation, no more. */
  lemma PruneRelabelsOldest(log: seq<Event>, before: int, a: int) returns (m: nat)
    requires forall i, j :: 0 <= i < j < |log| ==> log[i].at <= log[j].at
    ensures m <= |Kinds(log, a)| == |Flags(log, a)|
    ensures Flags(Pruned(log, before), a) == Flags(log, a)[m..]
    ensures Kinds(Pruned(log, before), a) ==
            if m == |Kinds(log, a)| then [] else [KindCreated] + Kinds(log, a)[m + 1..]
  {
    var k := PrunedIsSuffix(log, before);
    m := |Flags(log[..k], a)|;
    assert log == log[..k] + log[k..];
    FlagsConcat(log[..k], log[k..], a);
    var flags := Flags(log, a);
    KindsDescribeFlags(log, a);
    KindsDescribeFlags(log[k..], a);
    assert Flags(log[k..], a) == flags[m..];
    assert forall i :: 0 < i < |flags| - m ==> Change(flags[m..], i) == Change(flags, m + i);
  }

  /** No audit row was ever pruned: every address still has one, and every one is of a known address. */
  ghost predicate Complete(t: Tables) {
    && (forall a :: a in t.addresses ==> LastEvent(t.log, a).Some?)
    && (forall a :: LastEvent(t.log, a).Some? ==> a in t.addresses)
  }

  /** The kind the history gives to the newest audit row. */
  ghost function NewestKind(log: seq<Event>): Kind
    requires log != []
  {
    KindOf(LastEvent(log[..|log| - 1], log[|log| - 1].address), log[|log| - 1])
  }

  function KindOfNotice(n: NoticeKind): Kind {
    match n
    case Created => KindCreated
    case Enabled => KindEnabled
    case Refreshed => KindRefresh
    case Disabled => KindDisabled
  }

  /** What observers are told of a registration is what the history will say of it. */
  lemma RegistrationReadsAsAnnounced(t: Tables, step: Step)
    requires Inv(t) && Complete(t) && step.StepRegister? && Possible(t, step) && NoticesOf(t, step) != []
    ensures var t', notice := Next(t, step), NoticesOf(t, step)[0];
            && t'.log != [] && t'.log[|t'.log| - 1].address == notice.address
            && NewestKind(t'.log) == KindOfNotice(notice.kind)
  {
    var t', notice := Next(t, step), NoticesOf(t, step)[0];
    assert t'.log[..|t'.log| - 1] == t.log;
    if notice.kind == Created {
      assert LastEvent(t.log, step.id).None?;
    } else {
      assert notice.address in t.addresses;
    }
  }

  /** A switched-off address is announced as disabled, and so reads in the history, unless it was off before. */
  lemma DisablingReadsAsAnnounced(t: Tables, step: Step)
    requires Inv(t) && Complete(t) && step.StepDisableAddress? && NoticesOf(t, step) != []
    ensures var t' := Next(t, step);
            && t'.log != [] && t'.log[|t'.log| - 1].address == step.a && step.a in t.addresses
            && (NewestKind(t'.log) == KindOfNotice(NoticesOf(t, step)[0].kind) <==> t.addresses[step.a].enabled)
  {
    var t' := Next(t, step);
    assert t'.log[..|t'.log| - 1] == t.log;
  }

  lemma AppendKeepsComplete(t: Tables, t': Tables, e: Event)
    requires Complete(t) && t'.log == t.log + [e] && t'.addresses.Keys == t.addresses.Keys + {e.address}
    ensures Complete(t')
  {
    forall a
      ensures LastEvent(t'.log, a).Some? <==> a in t'.addresses.Keys
    {
      LastEventAppend(t.log, e, a);
      assert a in t.addresses.Keys <==> a in t.addresses;
    }
  }

  lemma {:induction false} BatchKeepsComplete(t: Tables, ids: seq<int>, source: Source, trigger: Trigger, now: int)
    requires Complete(t)
    ensures var r := DisableAddresses(t, ids, source, trigger, now); r.Committed? ==> Complete(r.tables)
    decreases |ids|
  {
    if ids != [] && ids[0] in t.addresses {
      var t1 := Record(t, ids[0], false, source, trigger, now);
      AppendKeepsComplete(t, t1, Event(ids[0], false, source, trigger, now));
      BatchKeepsComplete(t1, ids[1..], source, trigger, now);
    }
  }

  lemma RegisterKeepsComplete(t: Tables, d: int, ip: string, source: Source, trigger: Trigger, now: int, id: int)
    requires Complete(t)
    ensures var r := Register(t, d, ip, source, trigger, now, id); r.Committed? ==> Complete(r.tables)
  {
    var r := Register(t, d, ip, source, trigger, now, id);
    if r.Committed? {
      var e := r.tables.log[|t.log|];
      assert e.address != id ==> e.address in t.addresses;
      AppendKeepsComplete(t, r.tables, e);
    }
  }

  /** Every transaction but retention keeps the log complete. */
  lemma StepKeepsComplete(t: Tables, step: Step)
    requires Complete(t) && !step.StepPrune?
    ensures Complete(Next(t, step))
  {
    match step
    case StepRegister(d, ip, source, trigger, now, id) =>
      RegisterKeepsComplete(t, d, ip, source, trigger, now, id);
    case StepDisableAddress(d, a, now) =>
      BatchKeepsComplete(t, [a], WebUI, User, now);
    case StepDisableAddresses(ids, source, trigger, now) =>
      BatchKeepsComplete(t, ids, source, trigger, now);
    case StepDeleteDevice(d, enabled, now) =>
      if Active(t, d) {
        BatchKeepsComplete(t.(devices := t.devices[d := t.devices[d].(deleted := true)]), enabled, WebUI, User, now);
      }
    case StepDisableDevice(d, enabled, now) =>
      BatchKeepsComplete(t, enabled, WebUI, User, now);
    case _ =>
  }
}
