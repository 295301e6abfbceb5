/** Renewal gaps against the lease's TTL, and the histogram that counts each device once under its worst. */
module Risk {
  import opened Common
  import Histogram

  datatype TTLRisk = Unknown | OK | Approaching | Critical | Breached

  /** ttlRiskOrder, least to most severe. */
  const ORDER: seq<TTLRisk> := [Unknown, OK, Approaching, Critical, Breached]

  /** ttlRiskCase. Dividing by a zero TTL gives NULL, which no comparison meets, so the last branch takes it. */
  function Classify(gap: Option<int>, ttl: Option<int>): TTLRisk {
    if ttl.None? || gap.None? then Unknown
    else if ttl.value == 0 then OK
    else
      var ratio := gap.value as real / ttl.value as real;
      if ratio >= 1.0 then Breached
      else if ratio > 0.9 then Critical
      else if ratio > 0.7 then Approaching
      else OK
  }

  /** ttlRiskRankExpr: the place of a level in ORDER. */
  function Rank(risk: TTLRisk): (rank: nat)
    ensures rank < |ORDER| && ORDER[rank] == risk
  {
    match risk
    case Unknown => 0
    case OK => 1
    case Approaching => 2
    case Critical => 3
    case Breached => 4
  }

  lemma RatioAgainst(gap: int, ttl: int, num: int)
    requires ttl > 0
    ensures gap as real / ttl as real > num as real / 10.0 <==> 10 * gap > num * ttl
    ensures gap as real / ttl as real >= num as real / 10.0 <==> 10 * gap >= num * ttl
  {
    var ratio := gap as real / ttl as real;
    assert ratio * ttl as real == gap as real;
    assert num as real / 10.0 * ttl as real == (num * ttl) as real / 10.0;
    TimesPositive(ratio, num as real / 10.0, ttl as real);
  }

  lemma TimesPositive(x: real, y: real, z: real)
    requires z > 0.0
    ensures x > y <==> x * z > y * z
    ensures x >= y <==> x * z >= y * z
  {
    assert (x - y) * z == x * z - y * z;
  }

  /** The levels by whole seconds: past the TTL, past nine tenths of it, past seven tenths. */
  lemma ClassifyByTenths(gap: int, ttl: int)
    requires ttl > 0
    ensures var risk := Classify(Some(gap), Some(ttl));
            && (risk == Breached <==> gap >= ttl)
            && (risk == Critical <==> 9 * ttl < 10 * gap < 10 * ttl)
            && (risk == Approaching <==> 7 * ttl < 10 * gap <= 9 * ttl)
            && (risk == OK <==> 10 * gap <= 7 * ttl)
  {
    RatioAgainst(gap, ttl, 10);
    RatioAgainst(gap, ttl, 9);
    RatioAgainst(gap, ttl, 7);
  }

  /** For one TTL, a longer gap is never a lower rank. */
  lemma LongerIsNoSafer(shorter: int, longer: int, ttl: int)
    requires shorter <= longer && ttl >= 0
    ensures Rank(Classify(Some(shorter), Some(ttl))) <= Rank(Classify(Some(longer), Some(ttl)))
  {
    if ttl > 0 {
      ClassifyByTenths(shorter, ttl);
      ClassifyByTenths(longer, ttl);
    }
  }

  /** A row of the enriched, filtered event table, with the start of the bucket it falls in. */
  datatype Enriched = Enriched(device: int, bucket: int, gap: Option<int>, ttl: Option<int>)

  predicate In(e: Enriched, b: int, d: int) {
    e.bucket == b && e.device == d
  }

  /** MAX(risk_rank) over the rows of one (bucket, device) group; no group ranks below zero. */
  function Worst(events: seq<Enriched>, b: int, d: int): (rank: int)
    ensures -1 <= rank < |ORDER|
  {
    if events == [] then -1
    else
      var rest, e := Worst(events[..|events| - 1], b, d), events[|events| - 1];
      if In(e, b, d) && Rank(Classify(e.gap, e.ttl)) > rest then Rank(Classify(e.gap, e.ttl)) else rest
  }

  /** The groups of the outer aggregation: the devices whose worst rank in the bucket is this one. */
  function DevicesAt(events: seq<Enriched>, b: int, rank: int): set<int> {
    set i | 0 <= i < |events| && Worst(events, b, events[i].device) == rank :: events[i].device
  }

  datatype RiskRow = RiskRow(bucket: int, rank: int, devices: int)

  /** What riskDeviceBuckets may return: one row per bucket and counted rank that some device reaches. */
  ghost predicate IsRiskBuckets(events: seq<Enriched>, rows: seq<RiskRow>) {
    && (forall i :: 0 <= i < |rows| ==>
          && Rank(OK) <= rows[i].rank < |ORDER|
          && rows[i].devices == |DevicesAt(events, rows[i].bucket, rows[i].rank)| > 0)
    && (forall b, rank :: Rank(OK) <= rank < |ORDER| && DevicesAt(events, b, rank) != {} ==> HasRow(rows, b, rank))
    && (forall i, j :: 0 <= i < j < |rows| ==> rows[i].bucket != rows[j].bucket || rows[i].rank != rows[j].rank)
    && (forall i, j :: 0 <= i < j < |rows| ==> rows[i].bucket <= rows[j].bucket)
  }

  ghost predicate HasRow(rows: seq<RiskRow>, b: int, rank: int) {
    exists i :: 0 <= i < |rows| && rows[i].bucket == b && rows[i].rank == rank
  }

  datatype Bucket = Bucket(start: int, ok: int, approaching: int, critical: int, breached: int)

  /** What the rows report for a bucket and level: the last row about them, or zero. */
  function Reported(rows: seq<RiskRow>, b: int, risk: TTLRisk): int {
    if rows == [] then 0
    else
      var row := rows[|rows| - 1];
      if row.bucket == b && row.rank == Rank(risk) then row.devices else Reported(rows[..|rows| - 1], b, risk)
  }

  function Folded(rows: seq<RiskRow>, b: int): Bucket {
    Bucket(b, Reported(rows, b, OK), Reported(rows, b, Approaching), Reported(rows, b, Critical),
           Reported(rows, b, Breached))
  }

  function Lookup(byBucket: map<int, map<TTLRisk, int>>, b: int, risk: TTLRisk): int {
    if b in byBucket && risk in byBucket[b] then byBucket[b][risk] else 0
  }

  /** foldRiskBuckets: the rows gathered into a map of maps, read back in the order of the sequence. */
  method FoldRiskBuckets(sequence: seq<int>, rows: seq<RiskRow>) returns (buckets: array<Bucket>)
    requires forall i :: 0 <= i < |rows| ==> 0 <= rows[i].rank < |ORDER|
    ensures buckets.Length == |sequence|
    ensures forall i :: 0 <= i < |sequence| ==> buckets[i] == Folded(rows, sequence[i])
  {
    var byBucket: map<int, map<TTLRisk, int>> := map[];
    for k := 0 to |rows|
      invariant forall b, risk :: Lookup(byBucket, b, risk) == Reported(rows[..k], b, risk)
    {
      var row := rows[k];
      var bands := if row.bucket in byBucket then byBucket[row.bucket] else map[];
      ghost var before := byBucket;
      byBucket := byBucket[row.bucket := bands[ORDER[row.rank] := row.devices]];
      forall b, risk
        ensures Lookup(byBucket, b, risk) == Reported(rows[..k + 1], b, risk)
      {
        assert rows[..k + 1][..k] == rows[..k];
        assert Lookup(before, b, risk) == Reported(rows[..k], b, risk);
        assert risk == ORDER[row.rank] <==> Rank(risk) == row.rank;
      }
    }
    assert rows[..|rows|] == rows;
    buckets := new Bucket[|sequence|](_ => Bucket(0, 0, 0, 0, 0));
    for i := 0 to |sequence|
      invariant forall k :: 0 <= k < i ==> buckets[k] == Folded(rows, sequence[k])
    {
      var ts := sequence[i];
      buckets[i] := Bucket(ts, Lookup(byBucket, ts, OK), Lookup(byBucket, ts, Approaching),
                           Lookup(byBucket, ts, Critical), Lookup(byBucket, ts, Breached));
    }
  }

  lemma {:induction false} ReportedIsRow(rows: seq<RiskRow>, b: int, risk: TTLRisk)
    ensures HasRow(rows, b, Rank(risk)) ==>
              exists i :: 0 <= i < |rows| && rows[i].bucket == b && rows[i].rank == Rank(risk)
                          && Reported(rows, b, risk) == rows[i].devices
    ensures !HasRow(rows, b, Rank(risk)) ==> Reported(rows, b, risk) == 0
  {
    if rows != [] {
      ReportedIsRow(rows[..|rows| - 1], b, risk);
      assert HasRow(rows[..|rows| - 1], b, Rank(risk)) ==> HasRow(rows, b, Rank(risk));
      assert rows[|rows| - 1].bucket == b && rows[|rows| - 1].rank == Rank(risk) ==> HasRow(rows, b, Rank(risk));
    }
  }

  /** Whatever rows the query returns, the fold reports for each band the number of devices in it. */
  lemma FoldReportsBands(events: seq<Enriched>, rows: seq<RiskRow>, b: int, risk: TTLRisk)
    requires IsRiskBuckets(events, rows) && risk != Unknown
    ensures Reported(rows, b, risk) == |DevicesAt(events, b, Rank(risk))|
  {
    ReportedIsRow(rows, b, risk);
    assert !HasRow(rows, b, Rank(risk)) ==> DevicesAt(events, b, Rank(risk)) == {};
  }

  /** The devices with a measured gap, under a lease rule, in the bucket. */
  function KnownDevices(events: seq<Enriched>, b: int): set<int> {
    set i | 0 <= i < |events| && events[i].bucket == b && events[i].gap.Some? && events[i].ttl.Some? :: events[i].device
  }

  lemma {:induction false} WorstIsReached(events: seq<Enriched>, b: int, d: int)
    ensures forall i :: 0 <= i < |events| && In(events[i], b, d) ==>
                          Rank(Classify(events[i].gap, events[i].ttl)) <= Worst(events, b, d)
    ensures Worst(events, b, d) >= 0 ==>
              exists i :: 0 <= i < |events| && In(events[i], b, d)
                          && Rank(Classify(events[i].gap, events[i].ttl)) == Worst(events, b, d)
  {
    if events != [] {
      WorstIsReached(events[..|events| - 1], b, d);
      var e := events[|events| - 1];
      assert In(e, b, d) ==> Rank(Classify(e.gap, e.ttl)) <= Worst(events, b, d);
    }
  }

  /** A device counts in the bucket, in the band of its worst rank, exactly when it has a known risk there. */
  lemma KnownIsRanked(events: seq<Enriched>, b: int, d: int)
    ensures d in KnownDevices(events, b) <==>
              exists i :: 0 <= i < |events| && events[i].device == d && Worst(events, b, d) >= Rank(OK)
  {
    WorstIsReached(events, b, d);
    if Worst(events, b, d) >= Rank(OK) {
      var i :| 0 <= i < |events| && In(events[i], b, d)
               && Rank(Classify(events[i].gap, events[i].ttl)) == Worst(events, b, d);
      assert events[i].device in KnownDevices(events, b);
    }
    if d in KnownDevices(events, b) {
      var i :| 0 <= i < |events| && events[i].bucket == b && events[i].gap.Some? && events[i].ttl.Some?
               && events[i].device == d;
      assert In(events[i], b, d);
    }
  }

  lemma BandsPartition(events: seq<Enriched>, b: int)
    ensures KnownDevices(events, b)
            == DevicesAt(events, b, 1) + DevicesAt(events, b, 2) + DevicesAt(events, b, 3) + DevicesAt(events, b, 4)
  {
    forall d
      ensures d in KnownDevices(events, b) <==>
                d in DevicesAt(events, b, 1) + DevicesAt(events, b, 2) + DevicesAt(events, b, 3) + DevicesAt(events, b, 4)
    {
      KnownIsRanked(events, b, d);
    }
  }

  /** Each device with a known risk in a bucket is counted there once, and a bucket without one reads zero. */
  lemma BucketCountsDevicesOnce(events: seq<Enriched>, rows: seq<RiskRow>, b: int)
    requires IsRiskBuckets(events, rows)
    ensures var r := Folded(rows, b);
            && r.ok + r.approaching + r.critical + r.breached == |KnownDevices(events, b)|
            && (KnownDevices(events, b) == {} ==> r == Bucket(b, 0, 0, 0, 0))
  {
    FoldReportsBands(events, rows, b, OK);
    FoldReportsBands(events, rows, b, Approaching);
    FoldReportsBands(events, rows, b, Critical);
    FoldReportsBands(events, rows, b, Breached);
    BandsPartition(events, b);
    BandsDisjoint(events, b);
    FourDisjoint(DevicesAt(events, b, 1), DevicesAt(events, b, 2), DevicesAt(events, b, 3), DevicesAt(events, b, 4));
  }

  /** A device has one worst rank in a bucket. */
  lemma BandsDisjoint(events: seq<Enriched>, b: int)
    ensures DevicesAt(events, b, 1) !! DevicesAt(events, b, 2) !! DevicesAt(events, b, 3) !! DevicesAt(events, b, 4)
  {
    forall d, rank | d in DevicesAt(events, b, rank)
      ensures Worst(events, b, d) == rank
    {}
  }

  lemma FourDisjoint(one: set<int>, two: set<int>, three: set<int>, four: set<int>)
    requires one !! two !! three !! four
    ensures |one + two + three + four| == |one| + |two| + |three| + |four|
  {
    assert |one + two| == |one| + |two|;
    assert |one + two + three| == |one + two| + |three|;
    assert |one + two + three + four| == |one + two + three| + |four|;
  }

  /** The longest measured gap of a device in a bucket. */
  function LongestGap(events: seq<Enriched>, b: int, d: int): Option<int> {
    if events == [] then None
    else
      var rest, e := LongestGap(events[..|events| - 1], b, d), events[|events| - 1];
      if In(e, b, d) && e.gap.Some? && (rest.None? || e.gap.value > rest.value) then e.gap else rest
  }

  /** The join gives every row of a device the same TTL, which is never negative. */
  ghost predicate OneTTL(events: seq<Enriched>, d: int, ttl: Option<int>) {
    && (ttl.Some? ==> ttl.value >= 0)
    && forall i :: 0 <= i < |events| && events[i].device == d ==> events[i].ttl == ttl
  }

  /** The band of a device is the one its longest gap in the bucket falls in. */
  lemma {:induction false} BandIsOfLongestGap(events: seq<Enriched>, b: int, d: int, ttl: Option<int>)
    requires OneTTL(events, d, ttl)
    ensures (exists i :: 0 <= i < |events| && In(events[i], b, d)) ==>
              Worst(events, b, d) == Rank(Classify(LongestGap(events, b, d), ttl))
    ensures (forall i :: 0 <= i < |events| ==> !In(events[i], b, d)) ==>
              Worst(events, b, d) == -1 && LongestGap(events, b, d) == None
  {
    if events != [] {
      var n := |events| - 1;
      var rest, e := events[..n], events[n];
      BandIsOfLongestGap(rest, b, d, ttl);
      assert (exists i :: 0 <= i < n && In(rest[i], b, d)) <==> (exists i :: 0 <= i < n && In(events[i], b, d));
      if In(e, b, d) && ttl.Some? && e.gap.Some? && LongestGap(rest, b, d).Some? {
        if e.gap.value > LongestGap(rest, b, d).value {
          LongerIsNoSafer(LongestGap(rest, b, d).value, e.gap.value, ttl.value);
        } else {
          LongerIsNoSafer(e.gap.value, LongestGap(rest, b, d).value, ttl.value);
        }
      }
    }
  }

  // ---- what the fold shows, by the gaps alone ----

  /** A gap falls in a level, in whole seconds against the TTL. */
  predicate Falls(gap: int, ttl: int, risk: TTLRisk) {
    match risk
    case Unknown => false
    case OK => ttl == 0 || 10 * gap <= 7 * ttl
    case Approaching => ttl > 0 && 7 * ttl < 10 * gap <= 9 * ttl
    case Critical => ttl > 0 && 9 * ttl < 10 * gap < 10 * ttl
    case Breached => ttl > 0 && gap >= ttl
  }

  /** Event i has the longest measured gap of device d in bucket b. */
  ghost predicate IsLongest(events: seq<Enriched>, b: int, d: int, i: nat)
    requires i < |events|
  {
    && In(events[i], b, d) && events[i].gap.Some?
    && forall j :: 0 <= j < |events| && In(events[j], b, d) && events[j].gap.Some? ==>
                     events[j].gap.value <= events[i].gap.value
  }

  /** The device's longest gap in the bucket falls in the level of its TTL. */
  ghost predicate LongestFalls(events: seq<Enriched>, b: int, d: int, risk: TTLRisk) {
    exists i :: 0 <= i < |events| && IsLongest(events, b, d, i) && events[i].ttl.Some?
                && Falls(events[i].gap.value, events[i].ttl.value, risk)
  }

  ghost function DevicesIn(events: seq<Enriched>, b: int, risk: TTLRisk): set<int> {
    set i | 0 <= i < |events| && LongestFalls(events, b, events[i].device, risk) :: events[i].device
  }

  /** The join gives every row of a device the same TTL. */
  ghost predicate SameTTLs(events: seq<Enriched>) {
    && (forall i :: 0 <= i < |events| && events[i].ttl.Some? ==> events[i].ttl.value >= 0)
    && forall i, j :: 0 <= i < |events| && 0 <= j < |events| && events[i].device == events[j].device ==>
         events[i].ttl == events[j].ttl
  }

  lemma {:induction false} LongestGapIs(events: seq<Enriched>, b: int, d: int)
    ensures LongestGap(events, b, d).None? <==>
              forall i :: 0 <= i < |events| && In(events[i], b, d) ==> events[i].gap.None?
    ensures LongestGap(events, b, d).Some? ==>
              exists i :: 0 <= i < |events| && IsLongest(events, b, d, i) && events[i].gap == LongestGap(events, b, d)
  {
    if events != [] {
      var n := |events| - 1;
      var rest, e := events[..n], events[n];
      LongestGapIs(rest, b, d);
      if In(e, b, d) && e.gap.Some? && (LongestGap(rest, b, d).None? || e.gap.value > LongestGap(rest, b, d).value) {
        assert IsLongest(events, b, d, n);
      } else if LongestGap(rest, b, d).Some? {
        var i :| 0 <= i < n && IsLongest(rest, b, d, i) && rest[i].gap == LongestGap(rest, b, d);
        assert IsLongest(events, b, d, i);
      }
    }
  }

  lemma LevelIsFall(gap: int, ttl: int, risk: TTLRisk)
    requires ttl >= 0 && risk != Unknown
    ensures Classify(Some(gap), Some(ttl)) == risk <==> Falls(gap, ttl, risk)
  {
    if ttl > 0 {
      ClassifyByTenths(gap, ttl);
    }
  }

  lemma RankedIffFalls(events: seq<Enriched>, b: int, d: int, risk: TTLRisk)
    requires SameTTLs(events) && risk != Unknown && exists i :: 0 <= i < |events| && events[i].device == d
    ensures Worst(events, b, d) == Rank(risk) <==> LongestFalls(events, b, d, risk)
  {
    var k :| 0 <= k < |events| && events[k].device == d;
    var ttl, longest := events[k].ttl, LongestGap(events, b, d);
    BandIsOfLongestGap(events, b, d, ttl);
    LongestGapIs(events, b, d);
    if longest.Some? {
      var i :| 0 <= i < |events| && IsLongest(events, b, d, i) && events[i].gap == longest;
      if ttl.Some? {
        LevelIsFall(longest.value, ttl.value, risk);
      }
      assert LongestFalls(events, b, d, risk) <==> ttl.Some? && Falls(longest.value, ttl.value, risk);
    }
  }

  lemma BandIsByGaps(events: seq<Enriched>, b: int, risk: TTLRisk)
    requires SameTTLs(events) && risk != Unknown
    ensures DevicesAt(events, b, Rank(risk)) == DevicesIn(events, b, risk)
  {
    forall i | 0 <= i < |events|
      ensures Worst(events, b, events[i].device) == Rank(risk) <==> LongestFalls(events, b, events[i].device, risk)
    {
      RankedIffFalls(events, b, events[i].device, risk);
    }
  }

  /**
   What the chart shows of a bucket: its own start, and under each level the number of devices whose longest gap
   in the bucket falls in it.
   */
  lemma FoldShowsLongestGaps(events: seq<Enriched>, rows: seq<RiskRow>, b: int)
    requires IsRiskBuckets(events, rows) && SameTTLs(events)
    ensures var r := Folded(rows, b);
            && r.start == b
            && r.ok == |DevicesIn(events, b, OK)| && r.approaching == |DevicesIn(events, b, Approaching)|
            && r.critical == |DevicesIn(events, b, Critical)| && r.breached == |DevicesIn(events, b, Breached)|
  {
    forall risk | risk != Unknown
      ensures Reported(rows, b, risk) == |DevicesIn(events, b, risk)|
    {
      FoldReportsBands(events, rows, b, risk);
      BandIsByGaps(events, b, risk);
    }
  }

  // ---- over a window ----

  /** An event of the history, before it is put into a bucket. */
  datatype Measured = Measured(device: int, createdAt: int, gap: Option<int>, ttl: Option<int>)

  function Bucketed(g: Histogram.Granularity, events: seq<Measured>): (rows: seq<Enriched>)
    ensures |rows| == |events|
  {
    seq(|events|, i requires 0 <= i < |events| =>
      Enriched(events[i].device, g.Truncate(events[i].createdAt), events[i].gap, events[i].ttl))
  }

  predicate InWindow(events: seq<Measured>, from: int, to: int) {
    forall i :: 0 <= i < |events| ==> from <= events[i].createdAt <= to
  }

  ghost predicate Increasing(buckets: seq<int>) {
    forall i, j :: 0 <= i < j < |buckets| ==> buckets[i] < buckets[j]
  }

  ghost function RowsAt(events: seq<Enriched>, b: int, rank: int): seq<RiskRow> {
    var devices := DevicesAt(events, b, rank);
    if devices == {} then [] else [RiskRow(b, rank, |devices|)]
  }

  /** The rows of a bucket, up to a rank. */
  ghost function RowsUpTo(events: seq<Enriched>, b: int, rank: nat): seq<RiskRow> {
    if rank == 0 then [] else RowsUpTo(events, b, rank - 1) + RowsAt(events, b, rank)
  }

  ghost function BucketRows(events: seq<Enriched>, b: int): seq<RiskRow> {
    RowsUpTo(events, b, |ORDER| - 1)
  }

  /** The two-level query, bucket by bucket. */
  ghost function QueryRows(events: seq<Enriched>, buckets: seq<int>): seq<RiskRow> {
    if buckets == [] then []
    else QueryRows(events, buckets[..|buckets| - 1]) + BucketRows(events, buckets[|buckets| - 1])
  }

  /** Rows right for the buckets listed, each once and in their order. */
  ghost predicate RowsRight(events: seq<Enriched>, rows: seq<RiskRow>, buckets: seq<int>) {
    forall i :: 0 <= i < |rows| ==>
      && rows[i].bucket in buckets && Rank(OK) <= rows[i].rank < |ORDER|
      && rows[i].devices == |DevicesAt(events, rows[i].bucket, rows[i].rank)| > 0
  }

  ghost predicate RowsOrdered(rows: seq<RiskRow>) {
    forall i, j :: 0 <= i < j < |rows| ==>
      rows[i].bucket <= rows[j].bucket && (rows[i].bucket != rows[j].bucket || rows[i].rank != rows[j].rank)
  }

  ghost predicate RowsComplete(events: seq<Enriched>, rows: seq<RiskRow>, buckets: seq<int>) {
    forall b, rank :: b in buckets && Rank(OK) <= rank < |ORDER| && DevicesAt(events, b, rank) != {} ==>
      HasRow(rows, b, rank)
  }

  ghost predicate CompleteTo(events: seq<Enriched>, rows: seq<RiskRow>, b: int, top: int) {
    forall rank :: Rank(OK) <= rank <= top && DevicesAt(events, b, rank) != {} ==> HasRow(rows, b, rank)
  }

  ghost predicate RightUpTo(events: seq<Enriched>, rows: seq<RiskRow>, b: int, top: int) {
    && RowsRight(events, rows, [b]) && RowsOrdered(rows) && CompleteTo(events, rows, b, top)
    && forall i :: 0 <= i < |rows| ==> rows[i].rank <= top
  }

  lemma {:induction false} RowsUpToAre(events: seq<Enriched>, b: int, top: nat)
    requires top < |ORDER|
    ensures RightUpTo(events, RowsUpTo(events, b, top), b, top)
  {
    if top > 0 {
      RowsUpToAre(events, b, top - 1);
      var below := RowsUpTo(events, b, top - 1);
      if DevicesAt(events, b, top) == {} {
        assert RowsUpTo(events, b, top) == below;
      } else {
        var row := RiskRow(b, top, |DevicesAt(events, b, top)|);
        assert RowsUpTo(events, b, top) == below + [row];
        AppendRow(events, below, row);
      }
    }
  }

  lemma AppendRow(events: seq<Enriched>, below: seq<RiskRow>, row: RiskRow)
    requires RightUpTo(events, below, row.bucket, row.rank - 1)
    requires Rank(OK) <= row.rank < |ORDER| && row.devices == |DevicesAt(events, row.bucket, row.rank)| > 0
    ensures RightUpTo(events, below + [row], row.bucket, row.rank)
  {
    var all := below + [row];
    assert all[|below|] == row && forall i :: 0 <= i < |below| ==> all[i] == below[i] && below[i].bucket in [row.bucket];
    forall rank | Rank(OK) <= rank <= row.rank && DevicesAt(events, row.bucket, rank) != {}
      ensures HasRow(all, row.bucket, rank)
    {
      RowStays(below, [row], row.bucket, rank);
      assert [row][0].rank == row.rank;
    }
  }

  lemma BucketRowsAre(events: seq<Enriched>, b: int)
    ensures var rows := BucketRows(events, b);
            RowsRight(events, rows, [b]) && RowsOrdered(rows) && RowsComplete(events, rows, [b])
  {
    RowsUpToAre(events, b, |ORDER| - 1);
  }

  lemma AppendOrdered(events: seq<Enriched>, before: seq<RiskRow>, here: seq<RiskRow>, init: seq<int>, b: int)
    requires RowsRight(events, before, init) && RowsRight(events, here, [b]) && RowsOrdered(before) && RowsOrdered(here)
    requires forall c :: c in init ==> c < b
    ensures RowsRight(events, before + here, init + [b]) && RowsOrdered(before + here)
  {
    var all := before + here;
    assert forall i :: 0 <= i < |here| ==> here[i].bucket == b;
    assert forall i :: 0 <= i < |all| ==> all[i] == if i < |before| then before[i] else here[i - |before|];
  }

  lemma AppendComplete(events: seq<Enriched>, before: seq<RiskRow>, here: seq<RiskRow>, init: seq<int>, b: int)
    requires RowsComplete(events, before, init) && RowsComplete(events, here, [b])
    ensures RowsComplete(events, before + here, init + [b])
  {
    forall c, rank | c in init + [b] && Rank(OK) <= rank < |ORDER| && DevicesAt(events, c, rank) != {}
      ensures HasRow(before + here, c, rank)
    {
      assert c in init || c in [b];
      RowStays(before, here, c, rank);
    }
  }

  lemma {:induction false} QueryRowsAre(events: seq<Enriched>, buckets: seq<int>)
    requires Increasing(buckets)
    ensures var rows := QueryRows(events, buckets);
            RowsRight(events, rows, buckets) && RowsOrdered(rows) && RowsComplete(events, rows, buckets)
  {
    if buckets != [] {
      var init, b := buckets[..|buckets| - 1], buckets[|buckets| - 1];
      assert buckets == init + [b];
      QueryRowsAre(events, init);
      BucketRowsAre(events, b);
      AppendOrdered(events, QueryRows(events, init), BucketRows(events, b), init, b);
      AppendComplete(events, QueryRows(events, init), BucketRows(events, b), init, b);
    }
  }

  lemma RowStays(before: seq<RiskRow>, here: seq<RiskRow>, b: int, rank: int)
    ensures HasRow(before, b, rank) || HasRow(here, b, rank) ==> HasRow(before + here, b, rank)
  {
    var all := before + here;
    assert forall i :: 0 <= i < |before| ==> all[i] == before[i];
    assert forall i :: 0 <= i < |here| ==> all[|before| + i] == here[i];
  }

  lemma {:induction false} StartsIncrease(g: Histogram.Granularity, starts: seq<int>)
    requires forall i :: 0 <= i < |starts| - 1 ==> starts[i + 1] == g.Next(starts[i])
    ensures Increasing(starts)
  {
    forall i, j | 0 <= i < j < |starts|
      ensures starts[i] < starts[j]
    {
      Histogram.StartsIncrease(g, starts, i, j);
    }
  }

  /** Every moment of the window falls in a bucket of its sequence. */
  lemma WindowIsCovered(g: Histogram.Granularity, starts: seq<int>, from: int, to: int, at: int)
    requires Histogram.Spans(g, starts, from, to) && from <= at <= to
    ensures g.Truncate(at) in starts
  {
    Histogram.TruncateMonotone(g, from, at);
    Histogram.TruncateMonotone(g, at, to);
    var k := FindStart(g, starts, g.Truncate(at));
    Histogram.TruncateBounds(g, from);
    Histogram.TruncateBounds(g, at);
    Histogram.StartIsAligned(g, starts, k);
    Histogram.AlignedNeighbours(starts[k], g.Truncate(at), g.Width());
  }

  lemma {:induction false} FindStart(g: Histogram.Granularity, starts: seq<int>, t: int) returns (k: nat)
    requires starts != [] && starts[0] <= t < g.Next(starts[|starts| - 1])
    requires forall i :: 0 <= i < |starts| - 1 ==> starts[i + 1] == g.Next(starts[i])
    ensures k < |starts| && starts[k] <= t < g.Next(starts[k])
    decreases |starts|
  {
    var last := |starts| - 1;
    if starts[last] <= t {
      k := last;
    } else {
      assert starts[last - 1 + 1] == g.Next(starts[last - 1]);
      k := FindStart(g, starts[..last], t);
    }
  }

  lemma RankedIsBucketed(events: seq<Enriched>, b: int, rank: int)
    requires rank >= 0 && DevicesAt(events, b, rank) != {}
    ensures exists i :: 0 <= i < |events| && events[i].bucket == b
  {
    if d :| d in DevicesAt(events, b, rank) {
      WorstIsReached(events, b, d);
    }
  }

  /**
   The query over the events of a window has a result, none of whose rows falls outside the window's
   sequence: the fold drops nothing.
   */
  lemma WindowHasRiskBuckets(g: Histogram.Granularity, starts: seq<int>, events: seq<Measured>, from: int, to: int)
    requires Histogram.Spans(g, starts, from, to) && InWindow(events, from, to)
    ensures IsRiskBuckets(Bucketed(g, events), QueryRows(Bucketed(g, events), starts))
    ensures forall rows: seq<RiskRow>, i :: IsRiskBuckets(Bucketed(g, events), rows) && 0 <= i < |rows| ==> rows[i].bucket in starts
  {
    var enriched := Bucketed(g, events);
    StartsIncrease(g, starts);
    QueryRowsAre(enriched, starts);
    forall b, rank | rank >= 0 && DevicesAt(enriched, b, rank) != {}
      ensures b in starts
    {
      RankedIsBucketed(enriched, b, rank);
      var i :| 0 <= i < |enriched| && enriched[i].bucket == b;
      WindowIsCovered(g, starts, from, to, events[i].createdAt);
    }
  }

  /** So over a window, each bucket shows the devices with a known risk in it once, under their worst. */
  lemma WindowCountsDevicesOnce(
    g: Histogram.Granularity, starts: seq<int>, events: seq<Measured>, from: int, to: int, rows: seq<RiskRow>, i: nat)
    requires Histogram.Spans(g, starts, from, to) && InWindow(events, from, to) && i < |starts|
    requires IsRiskBuckets(Bucketed(g, events), rows)
    ensures var r, known := Folded(rows, starts[i]), KnownDevices(Bucketed(g, events), starts[i]);
            && r.ok + r.approaching + r.critical + r.breached == |known|
            && forall d :: d in known <==>
                 exists k :: 0 <= k < |events| && events[k].device == d && events[k].gap.Some? && events[k].ttl.Some?
                             && g.Truncate(events[k].createdAt) == starts[i]
  {
    var enriched := Bucketed(g, events);
    BucketCountsDevicesOnce(enriched, rows, starts[i]);
    forall d
      ensures d in KnownDevices(enriched, starts[i]) <==>
                exists k :: 0 <= k < |events| && events[k].device == d && events[k].gap.Some? && events[k].ttl.Some?
                            && g.Truncate(events[k].createdAt) == starts[i]
    {
      if d in KnownDevices(enriched, starts[i]) {
        var k :| 0 <= k < |enriched| && enriched[k].bucket == starts[i] && enriched[k].gap.Some?
                 && enriched[k].ttl.Some? && enriched[k].device == d;
        assert events[k].device == d;
      }
      if k :| 0 <= k < |events| && events[k].device == d && events[k].gap.Some? && events[k].ttl.Some?
              && g.Truncate(events[k].createdAt) == starts[i] {
        assert enriched[k].device in KnownDevices(enriched, starts[i]);
      }
    }
  }
}
