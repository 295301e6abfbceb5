/** Which devices' TTLs are too short: the 95th-percentile gap against the TTL, in whole numbers. */
module Tuning {
  import opened Common
  import Risk

  /** tuningMinRenewals. */
  const MIN_RENEWALS := 10

  /** The gaps of one device in an order ROW_NUMBER may give them: by size, ties anyhow. */
  ghost predicate IsRanking(ranked: seq<int>, gaps: seq<int>) {
    multiset(ranked) == multiset(gaps) && forall i, j :: 0 <= i < j < |ranked| ==> ranked[i] <= ranked[j]
  }

  /** MIN(CASE WHEN rn * 100 >= n * 95 THEN gap END) over the row numbers from rn on. */
  function MinQualifying(ranked: seq<int>, rn: nat): Option<int>
    requires 1 <= rn <= |ranked| + 1
    decreases |ranked| - rn
  {
    if rn == |ranked| + 1 then None
    else
      var rest := MinQualifying(ranked, rn + 1);
      if rn * 100 >= |ranked| * 95 && (rest.None? || ranked[rn - 1] < rest.value) then Some(ranked[rn - 1]) else rest
  }

  function P95(ranked: seq<int>): Option<int> {
    MinQualifying(ranked, 1)
  }

  /** How many gaps exceed a length. */
  function CountAbove(gaps: seq<int>, x: int): (n: nat)
    ensures n <= |gaps|
  {
    if gaps == [] then 0 else CountAbove(gaps[1..], x) + if gaps[0] > x then 1 else 0
  }

  /** SUM(is_late): how many gaps the risk levels call breached. */
  function CountLate(gaps: seq<int>, ttl: int): nat {
    if gaps == [] then 0
    else CountLate(gaps[1..], ttl) + if Risk.Classify(Some(gaps[0]), Some(ttl)) == Risk.Breached then 1 else 0
  }

  /** The first row number at or past the percentile. */
  function CutRank(n: nat): (rank: nat)
    ensures 100 * rank >= 95 * n && (n > 0 ==> 1 <= rank <= n && 100 * (rank - 1) < 95 * n)
  {
    (95 * n + 99) / 100
  }

  lemma {:induction false} MinIsAtCut(ranked: seq<int>, rn: nat)
    requires 1 <= rn <= |ranked| && IsRanking(ranked, ranked)
    ensures MinQualifying(ranked, rn)
            == Some(ranked[(if rn < CutRank(|ranked|) then CutRank(|ranked|) else rn) - 1])
    decreases |ranked| - rn
  {
    if rn < |ranked| {
      MinIsAtCut(ranked, rn + 1);
    }
  }

  lemma {:induction false} CountConcat(s: seq<int>, t: seq<int>, x: int)
    ensures CountAbove(s + t, x) == CountAbove(s, x) + CountAbove(t, x)
  {
    if s == [] {
      assert s + t == t;
    } else {
      assert (s + t)[1..] == s[1..] + t;
      CountConcat(s[1..], t, x);
    }
  }

  lemma {:induction false} CountUniform(s: seq<int>, x: int)
    ensures (forall i :: 0 <= i < |s| ==> s[i] > x) ==> CountAbove(s, x) == |s|
    ensures (forall i :: 0 <= i < |s| ==> s[i] <= x) ==> CountAbove(s, x) == 0
  {
    if s != [] {
      CountUniform(s[1..], x);
    }
  }

  lemma CountSplit(s: seq<int>, k: nat, x: int)
    requires k <= |s|
    ensures CountAbove(s, x) == CountAbove(s[..k], x) + CountAbove(s[k..], x)
  {
    assert s == s[..k] + s[k..];
    CountConcat(s[..k], s[k..], x);
  }

  lemma Remove(t: seq<int>, i: nat, x: int)
    requires i < |t|
    ensures var without := t[..i] + t[i + 1..];
            && multiset(without) == multiset(t) - multiset{t[i]}
            && CountAbove(t, x) == CountAbove(without, x) + if t[i] > x then 1 else 0
  {
    assert t == t[..i] + ([t[i]] + t[i + 1..]);
    CountSplit(t, i, x);
    assert t[i..][1..] == t[i + 1..];
    CountConcat(t[..i], t[i + 1..], x);
  }

  lemma FindFirstOf(s: seq<int>, t: seq<int>) returns (i: nat)
    requires multiset(s) == multiset(t) && s != []
    ensures i < |t| && t[i] == s[0]
  {
    assert s[0] in multiset(t);
    i :| 0 <= i < |t| && t[i] == s[0];
  }

  lemma SameLength(s: seq<int>, t: seq<int>)
    requires multiset(s) == multiset(t)
    ensures |s| == |t|
  {
    assert |multiset(s)| == |s| && |multiset(t)| == |t|;
  }

  lemma {:induction false} CountIgnoresOrder(s: seq<int>, t: seq<int>, x: int)
    requires multiset(s) == multiset(t)
    ensures CountAbove(s, x) == CountAbove(t, x) && |s| == |t|
    decreases |s|
  {
    SameLength(s, t);
    if s != [] {
      var i := FindFirstOf(s, t);
      Remove(s, 0, x);
      Remove(t, i, x);
      var s', t' := s[..0] + s[1..], t[..i] + t[i + 1..];
      CountIgnoresOrder(s', t', x);
    }
  }

  /** In sorted gaps, whether the one at a rank exceeds a length bounds how many do. */
  lemma RankAbove(ranked: seq<int>, rank: nat, x: int)
    requires 1 <= rank <= |ranked| && forall i, j :: 0 <= i < j < |ranked| ==> ranked[i] <= ranked[j]
    ensures if ranked[rank - 1] > x then CountAbove(ranked, x) > |ranked| - rank else CountAbove(ranked, x) <= |ranked| - rank
  {
    if ranked[rank - 1] > x {
      CountSplit(ranked, rank - 1, x);
      CountUniform(ranked[rank - 1..], x);
    } else {
      CountSplit(ranked, rank, x);
      CountUniform(ranked[..rank], x);
    }
  }

  /**
   The percentile exceeds a length exactly when more than one gap in twenty does: the percentile is the
   least length that at most a twentieth of the gaps exceed.
   */
  lemma P95ExceedsIff(ranked: seq<int>, gaps: seq<int>, x: int)
    requires gaps != [] && IsRanking(ranked, gaps)
    ensures P95(ranked).Some? && P95(ranked).value in gaps
    ensures P95(ranked).value > x <==> 100 * CountAbove(gaps, x) > 5 * |gaps|
  {
    CountIgnoresOrder(ranked, gaps, x);
    MinIsAtCut(ranked, 1);
    assert ranked[CutRank(|ranked|) - 1] in multiset(ranked);
    RankAbove(ranked, CutRank(|ranked|), x);
  }

  /** However ties are numbered, the percentile is the same. */
  lemma P95IgnoresTies(ranked: seq<int>, ranked': seq<int>, gaps: seq<int>)
    requires gaps != [] && IsRanking(ranked, gaps) && IsRanking(ranked', gaps)
    ensures P95(ranked) == P95(ranked')
  {
    P95ExceedsIff(ranked, gaps, 0);
    P95ExceedsIff(ranked', gaps, 0);
    var p, q := P95(ranked).value, P95(ranked').value;
    P95ExceedsIff(ranked, gaps, p);
    P95ExceedsIff(ranked', gaps, p);
    P95ExceedsIff(ranked, gaps, q);
    P95ExceedsIff(ranked', gaps, q);
  }

  /** The percentile is the longest gap when there are fewer than twenty, and the cut falls short of it otherwise. */
  lemma CutIsLastBelowTwenty(ranked: seq<int>, gaps: seq<int>)
    requires gaps != [] && IsRanking(ranked, gaps)
    ensures CutRank(|gaps|) == |gaps| <==> |gaps| < 20
    ensures |ranked| == |gaps| && P95(ranked) == Some(ranked[CutRank(|gaps|) - 1])
    ensures |gaps| < 20 ==> forall g :: g in gaps ==> g <= P95(ranked).value
  {
    CountIgnoresOrder(ranked, gaps, 0);
    MinIsAtCut(ranked, 1);
    forall g | g in gaps && |gaps| < 20
      ensures g <= P95(ranked).value
    {
      assert g in multiset(ranked);
      var i :| 0 <= i < |ranked| && ranked[i] == g;
    }
  }

  lemma {:induction false} LateIsAtLeastTTL(gaps: seq<int>, ttl: int)
    requires ttl > 0
    ensures CountLate(gaps, ttl) == CountAbove(gaps, ttl - 1)
  {
    if gaps != [] {
      Risk.ClassifyByTenths(gaps[0], ttl);
      LateIsAtLeastTTL(gaps[1..], ttl);
    }
  }

  /** One device's row of addressHistoryTuningPerDevice. */
  datatype Candidate = Candidate(ttl: int, renewals: nat, late: nat, p95: int)

  function CandidateOf(ranked: seq<int>, ttl: int): Option<Candidate> {
    var p95 := P95(ranked);
    if p95.None? then None else Some(Candidate(ttl, |ranked|, CountLate(ranked, ttl), p95.value))
  }

  /** The conditions of the fleet-wide ranking. */
  predicate Qualifies(c: Candidate) {
    c.p95 > c.ttl && c.renewals >= MIN_RENEWALS
  }

  /**
   What the ranking tests. A device is in it exactly when it has ten renewals and over a twentieth of
   them strictly outlast the TTL. Late renewals count from the TTL itself, so for a positive TTL they then
   pass a twentieth too, and they do so exactly when the percentile reaches the TTL.
   */
  lemma RankingTestsFivePercent(ranked: seq<int>, gaps: seq<int>, ttl: int)
    requires gaps != [] && IsRanking(ranked, gaps)
    ensures CandidateOf(ranked, ttl).Some?
    ensures var c := CandidateOf(ranked, ttl).value;
            && (Qualifies(c) <==> |gaps| >= 10 && 100 * CountAbove(gaps, ttl) > 5 * |gaps|)
            && (ttl > 0 ==> (100 * c.late > 5 * c.renewals <==> c.p95 >= ttl))
            && (ttl > 0 && Qualifies(c) ==> 100 * c.late > 5 * c.renewals)
            && c.late == CountLate(ranked, ttl) && c.renewals == |gaps| && c.ttl == ttl
  {
    P95ExceedsIff(ranked, gaps, ttl);
    P95ExceedsIff(ranked, gaps, ttl - 1);
    CountIgnoresOrder(ranked, gaps, ttl - 1);
    if ttl > 0 {
      LateIsAtLeastTTL(ranked, ttl);
    }
  }

  lemma {:induction false} NothingLateAtZero(gaps: seq<int>)
    ensures CountLate(gaps, 0) == 0
  {
    if gaps != [] {
      NothingLateAtZero(gaps[1..]);
    }
  }

  /** A ranked device has over a twentieth of its renewals late exactly when its TTL is not zero. */
  lemma RankedAreLateIff(ranked: seq<int>, gaps: seq<int>, ttl: int)
    requires gaps != [] && IsRanking(ranked, gaps) && ttl >= 0
    ensures var c := CandidateOf(ranked, ttl);
            c.Some? && (Qualifies(c.value) ==> (100 * c.value.late > 5 * c.value.renewals <==> ttl > 0))
  {
    RankingTestsFivePercent(ranked, gaps, ttl);
    NothingLateAtZero(ranked);
  }

  /** The gaps that make the two five-percent tests, strict gap and late renewal, differ for a device. */
  predicate TestsDiffer(gaps: seq<int>, ttl: int) {
    if ttl > 0 then 100 * CountAbove(gaps, ttl) <= 5 * |gaps| < 100 * CountAbove(gaps, ttl - 1)
    else 100 * CountAbove(gaps, ttl) > 5 * |gaps|
  }

  /**
   The two tests differ exactly when over a twentieth of the renewals reach the TTL and no more than a
   twentieth outlast it, or, under a zero TTL, as soon as over a twentieth take any time at all.
   */
  lemma LateTestAgreesIff(ranked: seq<int>, gaps: seq<int>, ttl: int)
    requires gaps != [] && IsRanking(ranked, gaps) && ttl >= 0
    ensures var c := CandidateOf(ranked, ttl);
            c.Some? && ((c.value.p95 > ttl <==> 100 * c.value.late > 5 * c.value.renewals) <==> !TestsDiffer(gaps, ttl))
  {
    RankingTestsFivePercent(ranked, gaps, ttl);
    P95ExceedsIff(ranked, gaps, ttl);
    P95ExceedsIff(ranked, gaps, ttl - 1);
    NothingLateAtZero(ranked);
  }

  /** They can differ: a device that always renews exactly at its TTL is always late and never ranked. */
  lemma AlwaysLateNeverRanked()
    ensures var c := CandidateOf(seq(10, _ => 60), 60);
            c == Some(Candidate(60, 10, 10, 60)) && !Qualifies(c.value)
  {
    var s := seq(10, _ => 60);
    assert IsRanking(s, s);
    MinIsAtCut(s, 1);
    LateIsAtLeastTTL(s, 60);
    CountUniform(s, 59);
  }

  /** And under a zero TTL, which only the request schema rules out, a device ranks with no late renewal at all. */
  lemma ZeroTTLRanksWithNoneLate()
    ensures var c := CandidateOf(seq(10, _ => 60), 0);
            c == Some(Candidate(0, 10, 0, 60)) && Qualifies(c.value)
  {
    var s := seq(10, _ => 60);
    assert IsRanking(s, s);
    MinIsAtCut(s, 1);
    NothingLateAtZero(s);
  }
}
