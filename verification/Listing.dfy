/**
 What a query of the access log asks for, in the columns' own names and apart from how its conditions are
 built: which queries are accepted, which rows are listed, and what each bucket of the chart counts.
 */
module Listing {
  import opened Common
  import opened Sql
  import opened Filters
  import opened Paging
  import opened AccessLog
  import opened Histogram
  import Like

  /** The column that a filter's name stands for. */
  function Named(column: string): string {
    match column
    case "client_ip" => "ral.client_ip"
    case "target_host" => "ral.target_host"
    case "target_uri" => "ral.target_uri"
    case "http_method" => "ral.http_method"
    case "deny_reason" => "ral.deny_reason"
    case "country_code" => "g.country_code"
    case _ => "anpc.policy_id"
  }

  const BY_VALUE := {"client_ip", "target_host", "target_uri", "http_method", "deny_reason", "country_code",
                     "network_policy", "device", "user"}
  const BY_SUBSTRING := {"client_ip", "target_host", "target_uri"}
  const BY_ABSENCE := {"target_host", "target_uri", "deny_reason", "country_code", "network_policy", "device"}

  /** The filter is one the registry takes: its operator suits its column, and its values the operator. */
  predicate Acceptable(f: Filter) {
    match f.op
    case OpIn => f.column in BY_VALUE && 1 <= |f.values| <= 200
    case OpNotIn => f.column in BY_VALUE && 1 <= |f.values| <= 200
    case OpContains => f.column in BY_SUBSTRING && 1 <= |f.values| <= 200 && AllText(f.values)
    case OpNotContains => f.column in BY_SUBSTRING && 1 <= |f.values| <= 200 && AllText(f.values)
    case OpIsNull => f.column in BY_ABSENCE
    case OpNotNull => f.column in BY_ABSENCE
  }

  /** Some value occurs in v, letter case aside. */
  ghost predicate AnyOccurs(values: seq<Value>, v: Value) {
    exists i :: 0 <= i < |values| && values[i].Text? && !v.Null? && Like.Occurs(values[i].s, AsText(v))
  }

  /** What each operator asks of a column. */
  ghost predicate Asks(op: Operator, values: seq<Value>, v: Value) {
    match op
    case OpIn => !v.Null? && v in values
    case OpNotIn => v.Null? || v !in values
    case OpContains => AnyOccurs(values, v)
    case OpNotContains => !AnyOccurs(values, v)
    case OpIsNull => v.Null?
    case OpNotNull => !v.Null?
  }

  /** And of the contributors of a row: some has one of the values, or there is any at all. */
  ghost predicate AsksContributors(op: Operator, values: seq<Value>, r: Row, column: string) {
    match op
    case OpIn => exists k :: 0 <= k < |r.contributors| && Get(r.contributors[k], column) in values
    case OpNotIn => forall k :: 0 <= k < |r.contributors| ==> Get(r.contributors[k], column) !in values
    case OpIsNull => r.contributors == []
    case OpNotNull => r.contributors != []
    case _ => false
  }

  ghost predicate Meets(r: Row, f: Filter) {
    if f.column == "device" then AsksContributors(f.op, f.values, r, "c.device_id")
    else if f.column == "user" then AsksContributors(f.op, f.values, r, "c.user_id")
    else Asks(f.op, f.values, Col(r, Named(f.column)))
  }

  /** A row that the query asks for. */
  ghost predicate Wanted(r: Row, q: Query) {
    var created, outcome := Col(r, "ral.created_at"), Col(r, "ral.outcome");
    && created.Int? && (q.from != 0 ==> q.from <= created.n) && (q.to != 0 ==> created.n <= q.to)
    && (q.outcome == Some(true) ==> outcome == Int(1)) && (q.outcome == Some(false) ==> outcome == Int(0))
    && forall i :: 0 <= i < |q.filters| ==> Meets(r, q.filters[i])
  }

  /** Schema facts about one row: its time, outcome and client are given. */
  ghost predicate RowIsTyped(r: Row) {
    WellTyped([r]) && !Col(r, "ral.client_ip").Null?
  }

  ghost predicate AllTyped(rows: seq<Row>) {
    forall r :: r in rows ==> RowIsTyped(r)
  }

  ghost predicate ValuesGiven(q: Query) {
    forall i :: 0 <= i < |q.filters| ==> NoNulls(q.filters[i].values)
  }

  lemma ColumnsAre(column: string)
    ensures column in COLUMNS <==> column in BY_VALUE
    ensures column in COLUMNS ==>
              var spec := COLUMNS[column];
              && (OpIn in spec.ops) && (OpNotIn in spec.ops)
              && (OpContains in spec.ops <==> column in BY_SUBSTRING)
              && (OpNotContains in spec.ops <==> column in BY_SUBSTRING)
              && (OpIsNull in spec.ops <==> column in BY_ABSENCE) && (OpNotNull in spec.ops <==> column in BY_ABSENCE)
              && (spec.nullable || spec.rel.Some? || column == "client_ip")
  {}

  lemma ExpressionsAre(column: string)
    requires column in COLUMNS
    ensures var spec := COLUMNS[column];
            && (spec.rel == if column == "device" then Some("c.device_id")
                            else if column == "user" then Some("c.user_id") else None)
            && (spec.rel.None? ==> spec.expr == Named(column))
  {
    assert COLUMNS.Keys == BY_VALUE;
  }

  lemma AcceptableIff(f: Filter)
    ensures Condition(COLUMNS, f).Ok? <==> Acceptable(f)
  {
    ColumnsAre(f.column);
    if f.column in COLUMNS {
      ExpressionsAre(f.column);
    }
  }

  lemma {:induction false} RegistryAcceptsIff(fs: seq<Filter>)
    ensures RegistryConds(fs).Ok? <==> forall i :: 0 <= i < |fs| ==> Acceptable(fs[i])
  {
    if fs != [] {
      AcceptableIff(fs[0]);
      RegistryAcceptsIff(fs[1..]);
      assert forall i :: 0 < i < |fs| ==> fs[i] == fs[1..][i - 1];
      assert forall i :: 0 <= i < |fs| - 1 ==> fs[1..][i] == fs[i + 1];
    }
  }

  /** A query is accepted exactly when each of its filters is one that its column takes. */
  lemma QueryAcceptedIff(q: Query)
    ensures FilterConds(q).Ok? <==> forall i :: 0 <= i < |q.filters| ==> Acceptable(q.filters[i])
  {
    RegistryAcceptsIff(q.filters);
  }

  /** And a query is refused for its first refused filter. */
  lemma {:induction false} QueryRefusedFor(fs: seq<Filter>)
    ensures RegistryConds(fs).Err? ==>
              exists i :: 0 <= i < |fs| && Condition(COLUMNS, fs[i]).Err?
                          && RegistryConds(fs).error == Condition(COLUMNS, fs[i]).error
                          && forall k :: 0 <= k < i ==> Acceptable(fs[k])
  {
    if RegistryConds(fs).Err? {
      AcceptableIff(fs[0]);
      if Acceptable(fs[0]) {
        QueryRefusedFor(fs[1..]);
        var i :| 0 <= i < |fs[1..]| && Condition(COLUMNS, fs[1..][i]).Err?
                 && RegistryConds(fs[1..]).error == Condition(COLUMNS, fs[1..][i]).error
                 && forall k :: 0 <= k < i ==> Acceptable(fs[1..][k]);
        assert fs[i + 1] == fs[1..][i] && forall k :: 0 < k < i + 1 ==> fs[k] == fs[1..][k - 1];
      }
    }
  }

  /** One accepted filter keeps exactly the rows it asks for. */
  lemma FilterMeans(f: Filter, r: Row)
    requires Condition(COLUMNS, f).Ok? && NoNulls(f.values) && RowIsTyped(r)
    ensures Holds(Condition(COLUMNS, f).value, r) <==> Meets(r, f)
  {
    ColumnsAre(f.column);
    ExpressionsAre(f.column);
    ConditionMeans(COLUMNS, f, r);
    if COLUMNS[f.column].rel.None? && (f.op == OpContains || f.op == OpNotContains) {
      OccursMeans(f.values, Col(r, Named(f.column)));
    }
  }

  lemma OccursMeans(values: seq<Value>, v: Value)
    requires AllText(values)
    ensures AnyOccurs(values, v) <==> !v.Null? && ContainsAny(values, v)
  {}

  lemma {:induction false} FiltersMean(fs: seq<Filter>, r: Row)
    requires RegistryConds(fs).Ok? && RowIsTyped(r) && forall i :: 0 <= i < |fs| ==> NoNulls(fs[i].values)
    ensures EvalAll(RegistryConds(fs).value, r) == True <==> forall i :: 0 <= i < |fs| ==> Meets(r, fs[i])
  {
    if fs != [] {
      FilterMeans(fs[0], r);
      FiltersMean(fs[1..], r);
      var c, rest := Condition(COLUMNS, fs[0]).value, RegistryConds(fs[1..]).value;
      assert RegistryConds(fs).value == [c] + rest && ([c] + rest)[1..] == rest;
      assert forall i :: 0 < i < |fs| ==> fs[i] == fs[1..][i - 1];
      assert forall i :: 0 <= i < |fs| - 1 ==> fs[1..][i] == fs[i + 1];
    }
  }

  /** The filter half of the WHERE set: outcome and filters. */
  ghost predicate MeetsAll(r: Row, q: Query) {
    && (q.outcome == Some(true) ==> Col(r, "ral.outcome") == Int(1))
    && (q.outcome == Some(false) ==> Col(r, "ral.outcome") == Int(0))
    && forall i :: 0 <= i < |q.filters| ==> Meets(r, q.filters[i])
  }

  lemma FilterCondsMean(q: Query, r: Row)
    requires FilterConds(q).Ok? && ValuesGiven(q) && RowIsTyped(r)
    ensures EvalAll(FilterConds(q).value, r) == True <==> MeetsAll(r, q)
  {
    var outcome := OutcomeConds(q.outcome);
    assert WellTyped([r]) && Col([r][0], OUTCOME) == Col(r, OUTCOME);
    FiltersMean(q.filters, r);
    ConcatHolds(outcome, RegistryConds(q.filters).value, r);
    AllHold(outcome, r);
  }

  lemma WindowMeans(q: Query, r: Row)
    requires Col(r, CREATED_AT).Int?
    ensures EvalAll(WindowConds(q.from, q.to), r) == True <==>
              (q.from != 0 ==> q.from <= Col(r, "ral.created_at").n) && (q.to != 0 ==> Col(r, "ral.created_at").n <= q.to)
  {
    var window := WindowConds(q.from, q.to);
    AllHold(window, r);
    if q.from != 0 {
      assert window[0] == Ge(CREATED_AT, Int(q.from));
    }
    if q.to != 0 {
      assert window[|window| - 1] == Le(CREATED_AT, Int(q.to));
    }
  }

  lemma WantedIff(q: Query, r: Row)
    requires FilterConds(q).Ok? && ValuesGiven(q) && RowIsTyped(r)
    ensures Holds(And(WindowConds(q.from, q.to) + FilterConds(q).value), r) <==> Wanted(r, q)
  {
    assert WellTyped([r]) && Col([r][0], CREATED_AT) == Col(r, CREATED_AT);
    WindowMeans(q, r);
    FilterCondsMean(q, r);
    ConcatHolds(WindowConds(q.from, q.to), FilterConds(q).value, r);
  }

  /** The list is exactly the rows the query asks for. */
  lemma ListsWanted(t: Tables, q: Query, r: Row)
    requires FilterConds(q).Ok? && ValuesGiven(q) && AllTyped(ListedFrom(t))
    ensures r in ListedRows(t, q) <==> r in ListedFrom(t) && Wanted(r, q)
  {
    FilteredAre(ListedFrom(t), And(WindowConds(q.from, q.to) + FilterConds(q).value));
    if r in ListedFrom(t) {
      WantedIff(q, r);
    }
  }

  // ---- the chart ----

  /** The places of the rows that the query asks for, of one outcome and from one interval. */
  ghost function Places(rows: seq<Row>, q: Query, n: int, lo: int, hi: int): set<int> {
    set i | 0 <= i < |rows| && Counts(rows[i], q, n, lo, hi)
  }

  ghost predicate Counts(r: Row, q: Query, n: int, lo: int, hi: int) {
    Wanted(r, q) && Col(r, "ral.outcome") == Int(n) && lo <= Col(r, "ral.created_at").n < hi
  }

  /** Those of them from place k on. */
  ghost function PlacesFrom(rows: seq<Row>, k: nat, q: Query, n: int, lo: int, hi: int): set<int> {
    set i | k <= i < |rows| && Counts(rows[i], q, n, lo, hi)
  }

  lemma {:induction false} TallyFrom(rows: seq<Row>, k: nat, c: Cond, q: Query, n: int, lo: int, hi: int)
    requires k <= |rows|
    requires forall r :: r in rows ==> (Holds(c, r) && Col(r, OUTCOME) == Int(n) <==> Counts(r, q, n, lo, hi))
    ensures Tally(Project(Filtered(rows[k..], c)), n) == |PlacesFrom(rows, k, q, n, lo, hi)|
    decreases |rows| - k
  {
    if k == |rows| {
      assert PlacesFrom(rows, k, q, n, lo, hi) == {};
    } else {
      TallyFrom(rows, k + 1, c, q, n, lo, hi);
      TallyHead(rows[k..], c, n);
      assert rows[k..][0] == rows[k] && rows[k..][1..] == rows[k + 1..] && rows[k] in rows;
      OnePlaceMore(rows, k, q, n, lo, hi);
    }
  }

  lemma OnePlaceMore(rows: seq<Row>, k: nat, q: Query, n: int, lo: int, hi: int)
    requires k < |rows|
    ensures |PlacesFrom(rows, k, q, n, lo, hi)|
         == (if Counts(rows[k], q, n, lo, hi) then 1 else 0) + |PlacesFrom(rows, k + 1, q, n, lo, hi)|
  {
    var here: set<int> := if Counts(rows[k], q, n, lo, hi) then {k} else {};
    var later := PlacesFrom(rows, k + 1, q, n, lo, hi);
    assert PlacesFrom(rows, k, q, n, lo, hi) == here + later && here !! later;
  }

  lemma BucketCondIff(q: Query, g: Granularity, start: int, r: Row, n: int)
    requires FilterConds(q).Ok? && ValuesGiven(q) && RowIsTyped(r) && start >= 0
    requires q.to == 0 || start <= q.to
    ensures Holds(And(BucketBounds(g, q, start) + FilterConds(q).value), r) && Col(r, OUTCOME) == Int(n)
            <==> Counts(r, q, n, start, start + g.Width())
  {
    assert WellTyped([r]) && Col([r][0], CREATED_AT) == Col(r, CREATED_AT);
    FilterCondsMean(q, r);
    BucketBoundsMean(g, q, start);
    ConcatHolds(BucketBounds(g, q, start), FilterConds(q).value, r);
  }

  /**
   Each bucket of the chart is of its own start, and its allow and deny are the numbers of allowed and denied
   rows that the query asks for between that start and the next.
   */
  lemma ChartCountsWanted(t: Tables, q: Query, g: Granularity, starts: seq<int>, i: nat)
    requires WellKeyed(t) && FilterConds(q).Ok? && ValuesGiven(q) && AllTyped(ListedFrom(t))
    requires q.from >= 0 && Spans(g, starts, q.from, q.to) && i < |starts|
    ensures var b := BucketsOf(t, q, FilterConds(q).value, g, starts)[i];
            && b.timestamp == starts[i]
            && b.allow == |Places(ListedFrom(t), q, 1, starts[i], starts[i] + g.Width())|
            && b.deny == |Places(ListedFrom(t), q, 0, starts[i], starts[i] + g.Width())|
  {
    StartRange(g, q, starts, i);
    BucketCountsWanted(t, q, g, starts[i], 1);
    BucketCountsWanted(t, q, g, starts[i], 0);
  }

  lemma BucketCountsWanted(t: Tables, q: Query, g: Granularity, start: int, n: int)
    requires WellKeyed(t) && FilterConds(q).Ok? && ValuesGiven(q) && AllTyped(ListedFrom(t))
    requires start >= 0 && (q.to == 0 || start <= q.to)
    ensures Tally(CountedRows(FilteredFrom(t, q), BucketBounds(g, q, start), FilterConds(q).value), n)
         == |Places(ListedFrom(t), q, n, start, start + g.Width())|
  {
    JoinElisionPreserves(t, q, BucketBounds(g, q, start));
    TallyOverAll(ListedFrom(t), q, g, start, n);
  }

  lemma TallyOverAll(rows: seq<Row>, q: Query, g: Granularity, start: int, n: int)
    requires FilterConds(q).Ok? && ValuesGiven(q) && AllTyped(rows) && start >= 0 && (q.to == 0 || start <= q.to)
    ensures Tally(CountedRows(rows, BucketBounds(g, q, start), FilterConds(q).value), n)
         == |Places(rows, q, n, start, start + g.Width())|
  {
    var c := And(BucketBounds(g, q, start) + FilterConds(q).value);
    forall r | r in rows
      ensures Holds(c, r) && Col(r, OUTCOME) == Int(n) <==> Counts(r, q, n, start, start + g.Width())
    {
      BucketCondIff(q, g, start, r, n);
    }
    TallyFrom(rows, 0, c, q, n, start, start + g.Width());
    assert rows[0..] == rows;
    assert PlacesFrom(rows, 0, q, n, start, start + g.Width()) == Places(rows, q, n, start, start + g.Width());
  }
}
