/**
 The access-log histogram: time buckets across the window, and one indexed range count per bucket.
 Times are nanoseconds since Go's zero time, which every bucket width divides.
 */
module Histogram {
  import opened Common
  import opened Sql
  import opened Filters
  import opened Paging
  import opened AccessLog

  datatype Granularity = Minute | FiveMinutes | Hour | Day {
    function Width(): (w: int)
      ensures w > 0
    {
      match this
      case Minute => MINUTE
      case FiveMinutes => 5 * MINUTE
      case Hour => 60 * MINUTE
      case Day => 1440 * MINUTE
    }

    function Truncate(t: int): int {
      t - t % Width()
    }

    function Next(start: int): int {
      start + Width()
    }
  }

  const MINUTE := 60_000_000_000

  function GranularityForWindow(d: int): Granularity {
    if d <= 5 * MINUTE then Minute
    else if d <= 60 * MINUTE then FiveMinutes
    else if d <= 7 * 1440 * MINUTE then Hour
    else Day
  }

  /** Bucket starts that follow one another from the bucket of `from` to the bucket of `to`. */
  ghost predicate Spans(g: Granularity, starts: seq<int>, from: int, to: int) {
    && (starts == [] <==> g.Truncate(from) > g.Truncate(to))
    && (starts != [] ==> starts[0] == g.Truncate(from) && starts[|starts| - 1] == g.Truncate(to))
    && forall i :: 0 <= i < |starts| - 1 ==> starts[i + 1] == g.Next(starts[i])
  }

  lemma SmallMultiple(w: int, d: int)
    requires w > 0 && -w < w * d < w
    ensures d == 0
  {
    assert d >= 1 ==> w * d >= w;
    assert d <= -1 ==> w * d <= -w;
  }

  lemma AlignedNeighbours(x: int, y: int, w: int)
    requires w > 0 && x % w == 0 && y % w == 0 && x <= y < x + w
    ensures x == y
  {
    var a, b := x / w, y / w;
    assert x == w * a && y == w * b;
    assert w * (b - a) == y - x;
    SmallMultiple(w, b - a);
  }

  lemma TruncateBounds(g: Granularity, t: int)
    ensures g.Truncate(t) <= t < g.Next(g.Truncate(t))
    ensures g.Truncate(t) % g.Width() == 0
  {
    var w := g.Width();
    assert t == w * (t / w) + t % w;
    AlignedMultiple(t / w, w);
  }

  lemma AlignedMultiple(k: int, w: int)
    requires w > 0
    ensures (w * k) % w == 0
  {
    assert w * k == w * ((w * k) / w) + (w * k) % w;
    var d := k - (w * k) / w;
    assert w * d == (w * k) % w;
    SmallMultiple(w, d);
  }

  lemma AlignedStep(b: int, w: int)
    requires w > 0 && b % w == 0
    ensures (b + w) % w == 0
  {
    assert b == w * (b / w);
    AlignedMultiple(b / w + 1, w);
    assert b + w == w * (b / w + 1);
  }

  method Sequence(g: Granularity, from: int, to: int) returns (starts: seq<int>)
    ensures Spans(g, starts, from, to)
  {
    var b, end := g.Truncate(from), g.Truncate(to);
    TruncateBounds(g, from);
    TruncateBounds(g, to);
    var w := g.Width();
    starts := [];
    while b <= end
      invariant b % w == 0
      invariant starts == [] ==> b == g.Truncate(from)
      invariant starts != [] ==> starts[0] == g.Truncate(from) && b == g.Next(starts[|starts| - 1])
      invariant starts != [] ==> starts[|starts| - 1] <= end && starts[|starts| - 1] % w == 0 && starts[0] <= end
      invariant forall i :: 0 <= i < |starts| - 1 ==> starts[i + 1] == g.Next(starts[i])
      decreases end - b
    {
      AlignedStep(b, w);
      starts := starts + [b];
      b := g.Next(b);
    }
    if starts != [] {
      AlignedNeighbours(starts[|starts| - 1], end, w);
    }
  }

  lemma {:induction false} StartAt(g: Granularity, starts: seq<int>, k: nat)
    requires k < |starts| && forall i :: 0 <= i < |starts| - 1 ==> starts[i + 1] == g.Next(starts[i])
    ensures starts[k] == starts[0] + g.Width() * k
  {
    if k > 0 {
      StartAt(g, starts, k - 1);
      assert starts[k - 1 + 1] == g.Next(starts[k - 1]);
      assert g.Width() * k == g.Width() * (k - 1) + g.Width();
    }
  }

  lemma {:induction false} StartIsAligned(g: Granularity, starts: seq<int>, k: nat)
    requires k < |starts| && starts[0] % g.Width() == 0
    requires forall i :: 0 <= i < |starts| - 1 ==> starts[i + 1] == g.Next(starts[i])
    ensures starts[k] % g.Width() == 0
  {
    if k > 0 {
      StartIsAligned(g, starts, k - 1);
      AlignedStep(starts[k - 1], g.Width());
      assert starts[k - 1 + 1] == g.Next(starts[k - 1]);
    }
  }

  lemma WholeQuotient(w: int, k: int, r: int)
    requires w > 0 && 0 <= r < w
    ensures (w * k + r) / w == k
  {
    var x := w * k + r;
    assert x == w * (x / w) + x % w;
    assert w * (x / w - k) == r - x % w;
    SmallMultiple(w, x / w - k);
  }

  /**
   How many buckets a window has: one for its first, and one for each bucket boundary it crosses, counted
   from where its start lies in its own bucket.
   */
  lemma SequenceLength(g: Granularity, starts: seq<int>, from: int, to: int)
    requires Spans(g, starts, from, to)
    ensures var reach := from % g.Width() + (to - from);
            |starts| == if reach < 0 then 0 else reach / g.Width() + 1
  {
    var w := g.Width();
    var reach := from % w + (to - from);
    TruncateBounds(g, from);
    TruncateBounds(g, to);
    assert to == g.Truncate(from) + reach;
    if starts != [] {
      var n := |starts| - 1;
      StartAt(g, starts, n);
      assert reach == w * n + to % w;
      WholeQuotient(w, n, to % w);
    } else {
      AlignedOrder(g, from, to);
    }
  }

  lemma AlignedOrder(g: Granularity, from: int, to: int)
    requires g.Truncate(from) > g.Truncate(to)
    ensures to < g.Truncate(from)
  {
    TruncateBounds(g, from);
    TruncateBounds(g, to);
    if to >= g.Truncate(from) {
      AlignedNeighbours(g.Truncate(to), g.Truncate(from), g.Width());
    }
  }

  /**
   The ladder of granularities does not quite keep the sequence to 168 buckets. A window of at most seven
   days has at most 169, and that many exactly when, counted from the start of its first hour, it reaches
   168 hours: every window of exactly seven days does. A longer window passes 168 when it reaches as many days.
   */
  lemma LadderBoundsSequence(starts: seq<int>, from: int, to: int)
    requires Spans(GranularityForWindow(to - from), starts, from, to)
    ensures to - from <= 7 * 1440 * MINUTE ==>
              && |starts| <= 169
              && (|starts| == 169 <==> from % (60 * MINUTE) + (to - from) >= 168 * 60 * MINUTE)
    ensures to - from > 7 * 1440 * MINUTE ==>
              (|starts| > 168 <==> from % (1440 * MINUTE) + (to - from) >= 168 * 1440 * MINUTE)
  {
    SequenceLength(GranularityForWindow(to - from), starts, from, to);
  }

  /** The rungs of the ladder: minutes up to five, five minutes up to an hour, hours up to a week, and days. */
  lemma LadderRungs(starts: seq<int>, from: int, to: int)
    requires Spans(GranularityForWindow(to - from), starts, from, to)
    ensures to - from <= 300_000_000_000 ==> |starts| <= 6
    ensures 300_000_000_000 < to - from <= 3_600_000_000_000 ==> 2 <= |starts| <= 13
    ensures forall i :: 0 <= i < |starts| - 1 ==>
              starts[i + 1] - starts[i] == 1_000_000_000 * (if to - from <= 300_000_000_000 then 60
                                                            else if to - from <= 3_600_000_000_000 then 300
                                                            else if to - from <= 604_800_000_000_000 then 3600
                                                            else 86400)
  {
    SequenceLength(GranularityForWindow(to - from), starts, from, to);
  }

  datatype Bucket = Bucket(timestamp: int, allow: nat, deny: nat)

  /** One lower and one upper bound, already intersected with the window. */
  function BucketBounds(g: Granularity, q: Query, start: int): seq<Cond> {
    var lower := if q.from != 0 && q.from > start then q.from else start;
    var next := g.Next(start);
    [Ge(CREATED_AT, Int(lower)),
     if q.to != 0 && q.to < next then Le(CREATED_AT, Int(q.to)) else Lt(CREATED_AT, Int(next))]
  }

  /** SUM(CASE WHEN outcome = n THEN 1 ELSE 0 END), 0 over no rows. */
  function Tally(rows: seq<Counted>, n: int): nat {
    if rows == [] then 0 else (if rows[0].outcome == Int(n) then 1 else 0) + Tally(rows[1..], n)
  }

  function CountedRows(rows: seq<Row>, bounds: seq<Cond>, filters: seq<Cond>): seq<Counted> {
    Project(Filtered(rows, And(bounds + filters)))
  }

  function BucketOf(t: Tables, q: Query, filters: seq<Cond>, g: Granularity, start: int): Bucket {
    var rows := CountedRows(FilteredFrom(t, q), BucketBounds(g, q, start), filters);
    Bucket(start, Tally(rows, 1), Tally(rows, 0))
  }

  function BucketsOf(t: Tables, q: Query, filters: seq<Cond>, g: Granularity, starts: seq<int>): seq<Bucket> {
    seq(|starts|, i requires 0 <= i < |starts| => BucketOf(t, q, filters, g, starts[i]))
  }

  /** trafficBuckets: the sequence drives the result, one aggregate per bucket. */
  method TrafficBuckets(t: Tables, q: Query, g: Granularity) returns (r: Result<seq<Bucket>, FilterError>)
    ensures r.Err? <==> FilterConds(q).Err?
    ensures r.Err? ==> r.error == FilterConds(q).error
    ensures r.Ok? ==> exists starts :: Spans(g, starts, q.from, q.to)
                                       && r.value == BucketsOf(t, q, FilterConds(q).value, g, starts)
  {
    var conds := FilterConds(q);
    if conds.Err? {
      return Err(conds.error);
    }
    var starts := Sequence(g, q.from, q.to);
    var buckets := [];
    for i := 0 to |starts|
      invariant buckets == BucketsOf(t, q, conds.value, g, starts[..i])
    {
      var rows := CountedRows(FilteredFrom(t, q), BucketBounds(g, q, starts[i]), conds.value);
      buckets := buckets + [Bucket(starts[i], Tally(rows, 1), Tally(rows, 0))];
    }
    assert starts[..|starts|] == starts;
    r := Ok(buckets);
  }

  function AllowSum(buckets: seq<Bucket>): nat {
    if buckets == [] then 0 else AllowSum(buckets[..|buckets| - 1]) + buckets[|buckets| - 1].allow
  }

  function DenySum(buckets: seq<Bucket>): nat {
    if buckets == [] then 0 else DenySum(buckets[..|buckets| - 1]) + buckets[|buckets| - 1].deny
  }

  /** The rows GET /access-log lists for the query. */
  function ListedRows(t: Tables, q: Query): seq<Row>
    requires FilterConds(q).Ok?
  {
    Filtered(ListedFrom(t), And(WindowConds(q.from, q.to) + FilterConds(q).value))
  }

  /** Schema facts: created_at is a time not before the zero time, outcome is 0 or 1. */
  ghost predicate WellTyped(rows: seq<Row>) {
    forall i :: 0 <= i < |rows| ==>
      && Col(rows[i], CREATED_AT).Int? && Col(rows[i], CREATED_AT).n >= 0
      && Col(rows[i], OUTCOME) in {Int(0), Int(1)}
  }

  /** Rows of outcome n that pass the filters and were created in [lo, hi). */
  ghost function CountIn(rows: seq<Row>, filters: seq<Cond>, n: int, lo: int, hi: int): nat
    requires WellTyped(rows)
  {
    if rows == [] then 0
    else (if InRange(rows[0], filters, n, lo, hi) then 1 else 0) + CountIn(rows[1..], filters, n, lo, hi)
  }

  ghost predicate InRange(r: Row, filters: seq<Cond>, n: int, lo: int, hi: int)
    requires Col(r, CREATED_AT).Int?
  {
    lo <= Col(r, CREATED_AT).n < hi && EvalAll(filters, r) == True && Col(r, OUTCOME) == Int(n)
  }

  /** The bounds let through exactly the times in [lo, hi). */
  ghost predicate BoundsMean(bounds: seq<Cond>, lo: int, hi: int) {
    forall r :: Col(r, CREATED_AT).Int? ==>
      (EvalAll(bounds, r) == True <==> lo <= Col(r, CREATED_AT).n < hi)
  }

  lemma {:induction false} TallyIsCountIn(rows: seq<Row>, bounds: seq<Cond>, filters: seq<Cond>, n: int, lo: int, hi: int)
    requires WellTyped(rows) && BoundsMean(bounds, lo, hi)
    ensures Tally(CountedRows(rows, bounds, filters), n) == CountIn(rows, filters, n, lo, hi)
  {
    if rows != [] {
      var c := And(bounds + filters);
      TallyIsCountIn(rows[1..], bounds, filters, n, lo, hi);
      AllHold(bounds + filters, rows[0]);
      AllHold(bounds, rows[0]);
      AllHold(filters, rows[0]);
      ConcatHolds(bounds, filters, rows[0]);
      TallyHead(rows, c, n);
    }
  }

  lemma TallyHead(rows: seq<Row>, c: Cond, n: int)
    requires rows != []
    ensures Tally(Project(Filtered(rows, c)), n)
            == (if Holds(c, rows[0]) && Col(rows[0], OUTCOME) == Int(n) then 1 else 0)
               + Tally(Project(Filtered(rows[1..], c)), n)
  {
    var rest := Filtered(rows[1..], c);
    ProjectHead(rows[0], rest);
    var head := Project([rows[0]]);
    assert (head + Project(rest))[1..] == Project(rest);
  }

  lemma ConcatHolds(a: seq<Cond>, b: seq<Cond>, r: Row)
    ensures EvalAll(a + b, r) == True <==> EvalAll(a, r) == True && EvalAll(b, r) == True
  {
    AllHold(a + b, r);
    AllHold(a, r);
    AllHold(b, r);
    if EvalAll(a + b, r) == True {
      assert forall i :: 0 <= i < |a| ==> a[i] == (a + b)[i];
      assert forall i :: 0 <= i < |b| ==> b[i] == (a + b)[|a| + i];
    }
  }

  lemma {:induction false} CountSplits(rows: seq<Row>, filters: seq<Cond>, n: int, lo: int, mid: int, hi: int)
    requires WellTyped(rows) && lo <= mid <= hi
    ensures CountIn(rows, filters, n, lo, mid) + CountIn(rows, filters, n, mid, hi) == CountIn(rows, filters, n, lo, hi)
  {
    if rows != [] {
      CountSplits(rows[1..], filters, n, lo, mid, hi);
    }
  }

  lemma {:induction false} CountEmpty(rows: seq<Row>, filters: seq<Cond>, n: int, lo: int, hi: int)
    requires WellTyped(rows) && hi <= lo
    ensures CountIn(rows, filters, n, lo, hi) == 0
  {
    if rows != [] {
      CountEmpty(rows[1..], filters, n, lo, hi);
    }
  }

  lemma PairMeans(p: Cond, q: Cond, r: Row)
    ensures EvalAll([p, q], r) == True <==> Holds(p, r) && Holds(q, r)
  {
    var two := [p, q];
    AllHold(two, r);
    assert two[0] == p && two[1] == q;
  }

  /** Where a bucket's share of the window ends, exclusively. */
  function BucketEnd(g: Granularity, q: Query, start: int): int {
    if q.to != 0 then Min(g.Next(start), q.to + 1) else g.Next(start)
  }

  /** A bucket's bounds are its half-open share of the window. */
  lemma BucketBoundsMean(g: Granularity, q: Query, start: int)
    requires start >= 0
    ensures BoundsMean(BucketBounds(g, q, start), Max(start, q.from), BucketEnd(g, q, start))
  {
    var bounds := BucketBounds(g, q, start);
    forall r | Col(r, CREATED_AT).Int?
      ensures EvalAll(bounds, r) == True
          <==> Max(start, q.from) <= Col(r, CREATED_AT).n < BucketEnd(g, q, start)
    {
      PairMeans(bounds[0], bounds[1], r);
    }
  }

  function Max(a: int, b: int): int { if a < b then b else a }

  function Min(a: int, b: int): int { if a < b then a else b }

  lemma WindowCount(rows: seq<Row>, filters: seq<Cond>, q: Query, n: int)
    requires WellTyped(rows) && q.to != 0 && q.from >= 0
    ensures Tally(CountedRows(rows, WindowConds(q.from, q.to), filters), n)
            == CountIn(rows, filters, n, q.from, q.to + 1)
  {
    var bounds := WindowConds(q.from, q.to);
    if q.from == 0 {
      NoTimeBelowZero(rows, filters, n, q.to);
    } else {
      forall r | Col(r, CREATED_AT).Int?
        ensures EvalAll(bounds, r) == True <==> q.from <= Col(r, CREATED_AT).n < q.to + 1
      {
        PairMeans(Ge(CREATED_AT, Int(q.from)), Le(CREATED_AT, Int(q.to)), r);
      }
      TallyIsCountIn(rows, bounds, filters, n, q.from, q.to + 1);
    }
  }

  /** An absent lower bound is the zero time itself, since no row is older. */
  lemma {:induction false} NoTimeBelowZero(rows: seq<Row>, filters: seq<Cond>, n: int, to: int)
    requires WellTyped(rows) && to != 0
    ensures Tally(CountedRows(rows, WindowConds(0, to), filters), n) == CountIn(rows, filters, n, 0, to + 1)
  {
    var bounds := WindowConds(0, to);
    assert bounds == [Le(CREATED_AT, Int(to))];
    if rows != [] {
      NoTimeBelowZero(rows[1..], filters, n, to);
      AllHold(bounds, rows[0]);
      assert EvalAll(bounds, rows[0]) == True <==> Holds(bounds[0], rows[0]);
      ConcatHolds(bounds, filters, rows[0]);
      AllHold(bounds + filters, rows[0]);
      TallyHead(rows, And(bounds + filters), n);
    }
  }

  lemma {:induction false} StartRange(g: Granularity, q: Query, starts: seq<int>, k: nat)
    requires Spans(g, starts, q.from, q.to) && k < |starts| && 0 <= q.from
    ensures 0 <= starts[k] <= q.to && q.from < g.Next(starts[k])
    ensures k == 0 ==> starts[0] <= q.from
  {
    TruncateBounds(g, q.from);
    TruncateBounds(g, q.to);
    ZeroIsAligned(g, q.from);
    StartsIncrease(g, starts, 0, k);
    StartsIncrease(g, starts, k, |starts| - 1);
  }

  /** The first k buckets together count the window up to where bucket k ends. */
  lemma {:induction false} BucketsCount(
    t: Tables, q: Query, filters: seq<Cond>, g: Granularity, starts: seq<int>, k: nat)
    requires Spans(g, starts, q.from, q.to) && starts != [] && k < |starts|
    requires WellTyped(FilteredFrom(t, q)) && q.to != 0 && 0 <= q.from <= q.to
    ensures var rows := FilteredFrom(t, q);
            var buckets := BucketsOf(t, q, filters, g, starts[..k + 1]);
            var hi := Min(g.Next(starts[k]), q.to + 1);
            && AllowSum(buckets) == CountIn(rows, filters, 1, q.from, hi)
            && DenySum(buckets) == CountIn(rows, filters, 0, q.from, hi)
  {
    var rows := FilteredFrom(t, q);
    StartRange(g, q, starts, k);
    LastBucket(t, q, filters, g, starts, k);
    OneBucket(rows, q, filters, g, starts[k], 1);
    OneBucket(rows, q, filters, g, starts[k], 0);
    if k == 0 {
      CountEmpty(rows, filters, 1, q.from, Max(starts[0], q.from));
      CountEmpty(rows, filters, 0, q.from, Max(starts[0], q.from));
    } else {
      StartRange(g, q, starts, k - 1);
      BucketsCount(t, q, filters, g, starts, k - 1);
      assert starts[k] == g.Next(starts[k - 1]);
    }
  }

  lemma LastBucket(t: Tables, q: Query, filters: seq<Cond>, g: Granularity, starts: seq<int>, k: nat)
    requires k < |starts|
    ensures var before, b := BucketsOf(t, q, filters, g, starts[..k]), BucketOf(t, q, filters, g, starts[k]);
            && AllowSum(BucketsOf(t, q, filters, g, starts[..k + 1])) == AllowSum(before) + b.allow
            && DenySum(BucketsOf(t, q, filters, g, starts[..k + 1])) == DenySum(before) + b.deny
  {
    var buckets := BucketsOf(t, q, filters, g, starts[..k + 1]);
    assert buckets[..k] == BucketsOf(t, q, filters, g, starts[..k]);
    assert buckets[k] == BucketOf(t, q, filters, g, starts[k]);
  }

  /** One bucket adds the rows from where it starts in the window to where it ends there. */
  lemma OneBucket(rows: seq<Row>, q: Query, filters: seq<Cond>, g: Granularity, start: int, n: int)
    requires WellTyped(rows) && q.to != 0 && 0 <= q.from <= q.to && start >= 0 && start <= q.to && q.from < g.Next(start)
    ensures var lo, hi := Max(start, q.from), Min(g.Next(start), q.to + 1);
            CountIn(rows, filters, n, q.from, lo) + Tally(CountedRows(rows, BucketBounds(g, q, start), filters), n)
            == CountIn(rows, filters, n, q.from, hi)
  {
    var lo, hi := Max(start, q.from), Min(g.Next(start), q.to + 1);
    BucketBoundsMean(g, q, start);
    TallyIsCountIn(rows, BucketBounds(g, q, start), filters, n, lo, hi);
    CountSplits(rows, filters, n, q.from, lo, hi);
  }

  lemma ZeroIsAligned(g: Granularity, t: int)
    requires t >= 0
    ensures g.Truncate(t) >= 0
  {
    assert t == g.Width() * (t / g.Width()) + t % g.Width();
  }

  lemma {:induction false} StartsIncrease(g: Granularity, starts: seq<int>, i: nat, j: nat)
    requires i <= j < |starts| && forall k :: 0 <= k < |starts| - 1 ==> starts[k + 1] == g.Next(starts[k])
    ensures starts[i] <= starts[j] && (i < j ==> g.Next(starts[i]) <= starts[j])
    decreases j
  {
    if i < j {
      StartsIncrease(g, starts, i, j - 1);
      assert starts[j - 1 + 1] == g.Next(starts[j - 1]);
    }
  }

  /**
   The chart adds up to the table beside it: for any filters, the buckets' allow and deny counts sum
   to the allowed and denied rows the list endpoint returns for the same query.
   */
  lemma HistogramConserves(t: Tables, q: Query, g: Granularity, starts: seq<int>)
    requires WellKeyed(t) && WellTyped(t.log)
    requires FilterConds(q).Ok? && q.to != 0 && q.from >= 0 && q.to >= 0
    requires Spans(g, starts, q.from, q.to)
    ensures var listed := Project(ListedRows(t, q));
            var buckets := BucketsOf(t, q, FilterConds(q).value, g, starts);
            && AllowSum(buckets) == Tally(listed, 1)
            && DenySum(buckets) == Tally(listed, 0)
            && AllowSum(buckets) + DenySum(buckets) == |ListedRows(t, q)|
  {
    var filters, rows := FilterConds(q).value, FilteredFrom(t, q);
    JoinsKeepTypes(t, q);
    JoinElisionPreserves(t, q, WindowConds(q.from, q.to));
    WindowCount(rows, filters, q, 1);
    WindowCount(rows, filters, q, 0);
    OutcomesSplit(ListedFrom(t), And(WindowConds(q.from, q.to) + filters));
    ChartCounts(t, q, filters, g, starts);
  }

  /** Over the whole sequence the buckets count the window. */
  lemma ChartCounts(t: Tables, q: Query, filters: seq<Cond>, g: Granularity, starts: seq<int>)
    requires WellTyped(FilteredFrom(t, q)) && q.to > 0 && q.from >= 0 && Spans(g, starts, q.from, q.to)
    ensures var buckets := BucketsOf(t, q, filters, g, starts);
            && AllowSum(buckets) == CountIn(FilteredFrom(t, q), filters, 1, q.from, q.to + 1)
            && DenySum(buckets) == CountIn(FilteredFrom(t, q), filters, 0, q.from, q.to + 1)
  {
    var rows := FilteredFrom(t, q);
    TruncateBounds(g, q.from);
    TruncateBounds(g, q.to);
    if q.from <= q.to && starts != [] {
      BucketsCount(t, q, filters, g, starts, |starts| - 1);
      assert starts[..|starts|] == starts;
    } else if q.from > q.to {
      CountEmpty(rows, filters, 1, q.from, q.to + 1);
      CountEmpty(rows, filters, 0, q.from, q.to + 1);
      EmptyWindow(t, q, filters, g, starts);
    } else {
      TruncateMonotone(g, q.from, q.to);
    }
  }

  lemma JoinsKeepTypes(t: Tables, q: Query)
    requires WellKeyed(t) && WellTyped(t.log)
    ensures WellTyped(ListedFrom(t)) && WellTyped(FilteredFrom(t, q))
    ensures |ListedFrom(t)| == |FilteredFrom(t, q)| == |t.log|
    ensures forall i :: 0 <= i < |t.log| ==>
              Col(ListedFrom(t)[i], CREATED_AT) == Col(t.log[i], CREATED_AT) == Col(FilteredFrom(t, q)[i], CREATED_AT)
  {
    JoinAgrees(t.log, t.log, t.geoip, COUNTRY, {});
    JoinAgrees(t.log, LeftJoin(t.log, t.geoip), t.policy, POLICY, {COUNTRY});
    FromsAgree(t, q);
    var listed, elided := ListedFrom(t), FilteredFrom(t, q);
    forall i | 0 <= i < |t.log|
      ensures Col(listed[i], CREATED_AT) == Col(t.log[i], CREATED_AT) == Col(elided[i], CREATED_AT)
      ensures Col(listed[i], OUTCOME) == Col(t.log[i], OUTCOME) == Col(elided[i], OUTCOME)
    {
      assert Agree(t.log[i], listed[i], {COUNTRY} + {POLICY}) && Agree(elided[i], listed[i], Elided(q));
    }
  }

  lemma TruncateMonotone(g: Granularity, x: int, y: int)
    requires x <= y
    ensures g.Truncate(x) <= g.Truncate(y)
  {
    TruncateBounds(g, x);
    TruncateBounds(g, y);
    if g.Truncate(y) < g.Truncate(x) {
      AlignedNeighbours(g.Truncate(y), g.Truncate(x), g.Width());
    }
  }

  /** A window that ends before it starts counts nothing, in zero or one bucket. */
  lemma EmptyWindow(t: Tables, q: Query, filters: seq<Cond>, g: Granularity, starts: seq<int>)
    requires Spans(g, starts, q.from, q.to) && WellTyped(FilteredFrom(t, q))
    requires q.from > q.to > 0
    ensures AllowSum(BucketsOf(t, q, filters, g, starts)) == 0
    ensures DenySum(BucketsOf(t, q, filters, g, starts)) == 0
  {
    if starts != [] {
      var rows := FilteredFrom(t, q);
      var start := starts[0];
      TruncateMonotone(g, q.to, q.from);
      TruncateBounds(g, q.from);
      StartsIncrease(g, starts, 0, |starts| - 1);
      assert |starts| == 1;
      ZeroIsAligned(g, q.from);
      BucketBoundsMean(g, q, start);
      var lo, hi := Max(start, q.from), Min(g.Next(start), q.to + 1);
      TallyIsCountIn(rows, BucketBounds(g, q, start), filters, 1, lo, hi);
      TallyIsCountIn(rows, BucketBounds(g, q, start), filters, 0, lo, hi);
      CountEmpty(rows, filters, 1, lo, hi);
      CountEmpty(rows, filters, 0, lo, hi);
      var buckets := BucketsOf(t, q, filters, g, starts);
      assert buckets[0] == BucketOf(t, q, filters, g, start) && buckets[..0] == [];
    }
  }

  /** Every row is either allowed or denied. */
  lemma {:induction false} OutcomesSplit(rows: seq<Row>, c: Cond)
    requires WellTyped(rows)
    ensures Tally(Project(Filtered(rows, c)), 1) + Tally(Project(Filtered(rows, c)), 0) == |Filtered(rows, c)|
  {
    if rows != [] {
      OutcomesSplit(rows[1..], c);
      var rest := Filtered(rows[1..], c);
      ProjectHead(rows[0], rest);
      var head := Project([rows[0]]);
      assert (head + Project(rest))[1..] == Project(rest);
    }
  }

  /** The row passes the filters of the query, whatever the window. */
  ghost predicate Passes(r: Row, filters: seq<Cond>) {
    WellTyped([r]) && EvalAll(filters, r) == True
  }

  /** A log of one row: that of r, with its child rows, but created at another time. */
  function Moved(r: Row, at: int): Tables {
    Tables([Row(r.id, (r.cols - {COUNTRY, POLICY})[CREATED_AT := Int(at)], r.contributors)],
           [Child(r.id, map[COUNTRY := Col(r, COUNTRY)])],
           [Child(r.id, map[POLICY := Col(r, POLICY)])])
  }

  ghost predicate CreatedAt(rows: seq<Row>, at: int) {
    forall i :: 0 <= i < |rows| ==> Col(rows[i], CREATED_AT) == Int(at)
  }

  /** The log has one row, created at this time, and with its child rows it otherwise reads like r. */
  ghost predicate OnlyRowOf(t: Tables, r: Row, at: int) {
    && WellKeyed(t) && WellTyped(t.log) && CreatedAt(t.log, at)
    && |ListedFrom(t)| == 1 && Agree(r, ListedFrom(t)[0], {CREATED_AT})
    && Col(ListedFrom(t)[0], CREATED_AT) == Int(at)
  }

  lemma MoveRow(r: Row, at: int) returns (t: Tables)
    requires WellTyped([r]) && at >= 0
    ensures OnlyRowOf(t, r, at)
  {
    t := Moved(r, at);
    assert Col([r][0], OUTCOME) == Col(r, OUTCOME);
    LeftJoinKeepsRows(t.log, t.geoip);
    LeftJoinKeepsRows(LeftJoin(t.log, t.geoip), t.policy);
  }

  /** No filter of the query reads the time. */
  lemma FiltersReadNoTime(q: Query, r: Row, s: Row)
    requires FilterConds(q).Ok? && Agree(r, s, {CREATED_AT})
    ensures EvalAll(FilterConds(q).value, r) == EvalAll(FilterConds(q).value, s)
  {
    var outcome, cs := OutcomeConds(q.outcome), FilterConds(q).value;
    forall i, e | 0 <= i < |cs| && Reads(cs[i], e)
      ensures Col(r, e) == Col(s, e)
    {
      if i >= |outcome| {
        var k := i - |outcome|;
        assert cs[i] == RegistryConds(q.filters).value[k];
        RegistryReads(q.filters, k, e);
        ChildColumnsAreFiltered(q.filters[k]);
      }
    }
    EvalSeqReadsOnly(cs, r, s);
  }

  /**
   The end of the window must not be Go's zero time, which the list reads as "no end" and the bucket sequence
   as an instant: whatever the start and the filters, a row that passes them is listed and never charted when
   it is created a bucket past the start.
   */
  lemma ZeroEndLosesRows(q: Query, g: Granularity, starts: seq<int>, r: Row) returns (t: Tables)
    requires q.to == 0 && q.from >= 0 && FilterConds(q).Ok? && Passes(r, FilterConds(q).value)
    requires Spans(g, starts, q.from, q.to)
    ensures OnlyRowOf(t, r, q.from + g.Width())
    ensures var buckets := BucketsOf(t, q, FilterConds(q).value, g, starts);
            |ListedRows(t, q)| == 1 && AllowSum(buckets) == 0 && DenySum(buckets) == 0
  {
    t := MoveRow(r, q.from + g.Width());
    LateRowListed(t, q, r);
    LateRowNotCharted(t, q, FilterConds(q).value, g, starts);
  }

  /** The chart of t and the list of t agree, for the same query. */
  ghost predicate Conserves(t: Tables, q: Query, g: Granularity, starts: seq<int>)
    requires FilterConds(q).Ok?
  {
    var listed := Project(ListedRows(t, q));
    var buckets := BucketsOf(t, q, FilterConds(q).value, g, starts);
    AllowSum(buckets) == Tally(listed, 1) && DenySum(buckets) == Tally(listed, 0)
  }

  /** A bucket sequence always exists. */
  lemma SomeSequenceTo0(from: int, g: Granularity) returns (starts: seq<int>)
    requires from >= 0
    ensures Spans(g, starts, from, 0)
  {
    ZeroIsAligned(g, from);
    TruncateMonotone(g, 0, from);
    starts := if g.Truncate(from) > 0 then [] else [0];
  }

  /**
   A query's chart agrees with its list whatever the log holds, exactly when the window's end is given or
   nothing can pass the filters.
   */
  lemma ConservesIffEndGiven(q: Query, g: Granularity)
    requires q.from >= 0 && q.to >= 0 && FilterConds(q).Ok?
    ensures (forall t, starts :: WellKeyed(t) && WellTyped(t.log) && Spans(g, starts, q.from, q.to) ==>
              Conserves(t, q, g, starts))
            <==> q.to != 0 || forall r :: !Passes(r, FilterConds(q).value)
  {
    if q.to != 0 || forall r :: !Passes(r, FilterConds(q).value) {
      forall t, starts | WellKeyed(t) && WellTyped(t.log) && Spans(g, starts, q.from, q.to)
        ensures Conserves(t, q, g, starts)
      {
        if q.to != 0 {
          HistogramConserves(t, q, g, starts);
        } else {
          NothingToCount(t, q, g, starts);
        }
      }
    } else {
      var r :| Passes(r, FilterConds(q).value);
      var starts := SomeSequenceTo0(q.from, g);
      var t := ZeroEndLosesRows(q, g, starts, r);
      JoinsKeepTypes(t, q);
      OutcomesSplit(ListedFrom(t), And(WindowConds(q.from, q.to) + FilterConds(q).value));
      assert !Conserves(t, q, g, starts);
    }
  }

  lemma {:induction false} NonePass(rows: seq<Row>, bounds: seq<Cond>, filters: seq<Cond>)
    requires WellTyped(rows) && forall r :: !Passes(r, filters)
    ensures Filtered(rows, And(bounds + filters)) == []
  {
    if rows != [] {
      NonePass(rows[1..], bounds, filters);
      assert WellTyped([rows[0]]);
      assert !Passes(rows[0], filters);
      ConcatHolds(bounds, filters, rows[0]);
    }
  }

  lemma {:induction false} EmptyBuckets(t: Tables, q: Query, filters: seq<Cond>, g: Granularity, starts: seq<int>)
    requires WellTyped(FilteredFrom(t, q)) && forall r :: !Passes(r, filters)
    ensures AllowSum(BucketsOf(t, q, filters, g, starts)) == 0 && DenySum(BucketsOf(t, q, filters, g, starts)) == 0
    decreases |starts|
  {
    if starts != [] {
      var k := |starts| - 1;
      EmptyBuckets(t, q, filters, g, starts[..k]);
      NonePass(FilteredFrom(t, q), BucketBounds(g, q, starts[k]), filters);
      assert starts[..k + 1] == starts;
      LastBucket(t, q, filters, g, starts, k);
    }
  }

  lemma NothingToCount(t: Tables, q: Query, g: Granularity, starts: seq<int>)
    requires WellKeyed(t) && WellTyped(t.log) && FilterConds(q).Ok? && forall r :: !Passes(r, FilterConds(q).value)
    ensures Conserves(t, q, g, starts)
  {
    JoinsKeepTypes(t, q);
    EmptyBuckets(t, q, FilterConds(q).value, g, starts);
    NonePass(ListedFrom(t), WindowConds(q.from, q.to), FilterConds(q).value);
  }

  /** Rows created a bucket past the start are in no bucket. */
  lemma LateRowNotCharted(t: Tables, q: Query, filters: seq<Cond>, g: Granularity, starts: seq<int>)
    requires q.to == 0 && q.from >= 0 && Spans(g, starts, q.from, q.to)
    requires WellKeyed(t) && WellTyped(t.log) && CreatedAt(t.log, q.from + g.Width())
    ensures AllowSum(BucketsOf(t, q, filters, g, starts)) == 0 && DenySum(BucketsOf(t, q, filters, g, starts)) == 0
  {
    if starts != [] {
      FirstBucketOnly(q.from, g, starts);
      LateBucket(t, q, filters, g);
      SoleBucket(t, q, filters, g);
    }
  }

  lemma SoleBucket(t: Tables, q: Query, filters: seq<Cond>, g: Granularity)
    ensures AllowSum(BucketsOf(t, q, filters, g, [0])) == BucketOf(t, q, filters, g, 0).allow
    ensures DenySum(BucketsOf(t, q, filters, g, [0])) == BucketOf(t, q, filters, g, 0).deny
  {
    SingleBucket(BucketsOf(t, q, filters, g, [0]), BucketOf(t, q, filters, g, 0));
  }

  lemma LateBucket(t: Tables, q: Query, filters: seq<Cond>, g: Granularity)
    requires q.to == 0 && q.from >= 0
    requires WellKeyed(t) && WellTyped(t.log) && CreatedAt(t.log, q.from + g.Width())
    ensures BucketOf(t, q, filters, g, 0) == Bucket(0, 0, 0)
  {
    JoinsKeepTypes(t, q);
    LateInNoCount(FilteredFrom(t, q), q, filters, g, 1);
    LateInNoCount(FilteredFrom(t, q), q, filters, g, 0);
  }

  lemma LateInNoCount(rows: seq<Row>, q: Query, filters: seq<Cond>, g: Granularity, n: int)
    requires q.to == 0 && WellTyped(rows)
    requires forall i :: 0 <= i < |rows| ==> Col(rows[i], CREATED_AT).n >= g.Next(0)
    ensures Tally(CountedRows(rows, BucketBounds(g, q, 0), filters), n) == 0
  {
    BucketBoundsMean(g, q, 0);
    TallyIsCountIn(rows, BucketBounds(g, q, 0), filters, n, Max(0, q.from), BucketEnd(g, q, 0));
    NoneInRange(rows, filters, n, Max(0, q.from), BucketEnd(g, q, 0));
  }

  lemma {:induction false} NoneInRange(rows: seq<Row>, filters: seq<Cond>, n: int, lo: int, hi: int)
    requires WellTyped(rows) && forall i :: 0 <= i < |rows| ==> Col(rows[i], CREATED_AT).n >= hi
    ensures CountIn(rows, filters, n, lo, hi) == 0
  {
    if rows != [] {
      NoneInRange(rows[1..], filters, n, lo, hi);
    }
  }

  lemma FirstBucketOnly(from: int, g: Granularity, starts: seq<int>)
    requires from >= 0 && starts != [] && Spans(g, starts, from, 0)
    ensures starts == [0]
  {
    ZeroIsAligned(g, from);
    StartsIncrease(g, starts, 0, |starts| - 1);
  }

  lemma SingleBucket(buckets: seq<Bucket>, b: Bucket)
    requires |buckets| == 1 && buckets[0] == b
    ensures AllowSum(buckets) == b.allow && DenySum(buckets) == b.deny
  {
    assert buckets[..0] == [];
  }

  lemma LateRowListed(t: Tables, q: Query, r: Row)
    requires q.to == 0 && FilterConds(q).Ok? && Passes(r, FilterConds(q).value)
    requires |ListedFrom(t)| == 1 && Agree(r, ListedFrom(t)[0], {CREATED_AT})
    requires Col(ListedFrom(t)[0], CREATED_AT).Int? && Col(ListedFrom(t)[0], CREATED_AT).n >= q.from
    ensures |ListedRows(t, q)| == 1
  {
    FiltersReadNoTime(q, r, ListedFrom(t)[0]);
    OneListed(ListedFrom(t)[0], q.from, FilterConds(q).value);
    OnlyRow(ListedFrom(t), And(WindowConds(q.from, q.to) + FilterConds(q).value));
  }

  lemma OnlyRow(rows: seq<Row>, c: Cond)
    requires |rows| == 1 && Holds(c, rows[0])
    ensures |Filtered(rows, c)| == 1
  {
    assert Filtered(rows[1..], c) == [];
  }

  lemma OneListed(r: Row, from: int, filters: seq<Cond>)
    requires Col(r, CREATED_AT).Int? && Col(r, CREATED_AT).n >= from && EvalAll(filters, r) == True
    ensures Holds(And(WindowConds(from, 0) + filters), r)
  {
    AllHold(WindowConds(from, 0), r);
    ConcatHolds(WindowConds(from, 0), filters, r);
  }
}
