/**
 The access-log view: its column registry, its 1:1 child tables, and the aggregate queries that join
 only the child tables their filters reference.
 */
module AccessLog {
  import opened Common
  import opened Sql
  import opened Filters
  import opened Keyset
  import opened Paging

  const SET_OPS := {OpIn, OpNotIn}
  const LIKE_OPS := {OpContains, OpNotContains}
  const NULL_OPS := {OpIsNull, OpNotNull}

  const COUNTRY := "g.country_code"
  const POLICY := "anpc.policy_id"
  const OUTCOME := "ral.outcome"
  const CREATED_AT := "ral.created_at"

  const COLUMNS: Columns := map[
    "client_ip" := ColumnSpec("ral.client_ip", false, None, SET_OPS + LIKE_OPS),
    "target_host" := ColumnSpec("ral.target_host", true, None, SET_OPS + LIKE_OPS + NULL_OPS),
    "target_uri" := ColumnSpec("ral.target_uri", true, None, SET_OPS + LIKE_OPS + NULL_OPS),
    "http_method" := ColumnSpec("ral.http_method", true, None, SET_OPS),
    "deny_reason" := ColumnSpec("ral.deny_reason", true, None, SET_OPS + NULL_OPS),
    "country_code" := ColumnSpec(COUNTRY, true, None, SET_OPS + NULL_OPS),
    "network_policy" := ColumnSpec(POLICY, true, None, SET_OPS + NULL_OPS),
    "device" := ColumnSpec("", false, Some("c.device_id"), SET_OPS + NULL_OPS),
    "user" := ColumnSpec("", false, Some("c.user_id"), SET_OPS)
  ]

  const SORTS: Sorts := map[
    "created_at" := SortSpec(CREATED_AT, KindTime, false),
    "client_ip" := SortSpec("ral.client_ip", KindString, false),
    "target_host" := SortSpec("ral.target_host", KindString, true),
    "http_method" := SortSpec("ral.http_method", KindString, true),
    "deny_reason" := SortSpec("ral.deny_reason", KindString, true),
    "duration_us" := SortSpec("ral.duration_us", KindInt, false),
    "outcome" := SortSpec(OUTCOME, KindInt, false)
  ]

  /** A row of a child table: the access_log row it belongs to, and the columns it contributes. */
  datatype Child = Child(logId: int, cols: map<string, Value>)

  datatype Tables = Tables(log: seq<Row>, geoip: seq<Child>, policy: seq<Child>)

  /** Times count from Go's zero time, so 0 is "no bound". */
  datatype Query = Query(from: int, to: int, outcome: Option<bool>, filters: seq<Filter>)

  function ChildrenOf(r: Row, child: seq<Child>): seq<Row> {
    if child == [] then []
    else (if child[0].logId == r.id then [Row(r.id, r.cols + child[0].cols, r.contributors)] else [])
         + ChildrenOf(r, child[1..])
  }

  /** LEFT JOIN of one row: every matching child row, or the row alone with the child's columns NULL. */
  function LeftJoinRow(r: Row, child: seq<Child>): seq<Row> {
    var joined := ChildrenOf(r, child);
    if joined == [] then [r] else joined
  }

  function LeftJoin(rows: seq<Row>, child: seq<Child>): seq<Row> {
    if rows == [] then [] else LeftJoinRow(rows[0], child) + LeftJoin(rows[1..], child)
  }

  /** The child's primary key is the log id. */
  ghost predicate KeyedByLog(child: seq<Child>) {
    forall i, j :: 0 <= i < j < |child| ==> child[i].logId != child[j].logId
  }

  /** A child row only supplies the column of its own table. */
  ghost predicate Supplies(child: seq<Child>, expr: string) {
    forall i :: 0 <= i < |child| ==> child[i].cols.Keys <= {expr}
  }

  ghost predicate WellKeyed(t: Tables) {
    && KeyedByLog(t.geoip) && Supplies(t.geoip, COUNTRY)
    && KeyedByLog(t.policy) && Supplies(t.policy, POLICY)
  }

  predicate FiltersOn(q: Query, column: string) {
    exists i :: 0 <= i < |q.filters| && q.filters[i].column == column
  }

  function WindowConds(from: int, to: int): seq<Cond> {
    (if from != 0 then [Ge(CREATED_AT, Int(from))] else [])
    + (if to != 0 then [Le(CREATED_AT, Int(to))] else [])
  }

  function OutcomeConds(outcome: Option<bool>): seq<Cond> {
    match outcome case None => [] case Some(b) => [Eq(OUTCOME, Int(if b then 1 else 0))]
  }

  function RegistryConds(fs: seq<Filter>): Result<seq<Cond>, FilterError> {
    if fs == [] then Ok([])
    else
      match Condition(COLUMNS, fs[0])
      case Err(e) => Err(e)
      case Ok(c) =>
        match RegistryConds(fs[1..])
        case Err(e) => Err(e)
        case Ok(cs) => Ok([c] + cs)
  }

  /** The time-independent half of the WHERE set. */
  function FilterConds(q: Query): Result<seq<Cond>, FilterError> {
    match RegistryConds(q.filters)
    case Err(e) => Err(e)
    case Ok(cs) => Ok(OutcomeConds(q.outcome) + cs)
  }

  /** FROM of an aggregate: only the child tables the filters reference. */
  function FilteredFrom(t: Tables, q: Query): seq<Row> {
    var geo := if FiltersOn(q, "country_code") then LeftJoin(t.log, t.geoip) else t.log;
    if FiltersOn(q, "network_policy") then LeftJoin(geo, t.policy) else geo
  }

  /** FROM of a query that returns rows: both child tables. */
  function ListedFrom(t: Tables): seq<Row> {
    LeftJoin(LeftJoin(t.log, t.geoip), t.policy)
  }

  /** What an aggregate reads of a row. */
  datatype Counted = Counted(id: int, outcome: Value, createdAt: Value)

  function Project(rows: seq<Row>): (counted: seq<Counted>)
    ensures |counted| == |rows|
  {
    seq(|rows|, i requires 0 <= i < |rows| => Counted(rows[i].id, Col(rows[i], OUTCOME), Col(rows[i], CREATED_AT)))
  }

  /** The columns a keyed child supplies to log row `id`; none if it has no row for it. */
  function ColsFor(id: int, child: seq<Child>): map<string, Value> {
    if child == [] then map[] else if child[0].logId == id then child[0].cols else ColsFor(id, child[1..])
  }

  function Merged(r: Row, child: seq<Child>): Row {
    Row(r.id, r.cols + ColsFor(r.id, child), r.contributors)
  }

  lemma {:induction false} ChildrenOfKeyed(r: Row, child: seq<Child>)
    requires KeyedByLog(child)
    ensures LeftJoinRow(r, child) == [Merged(r, child)]
    ensures (forall i :: 0 <= i < |child| ==> child[i].logId != r.id) ==> ChildrenOf(r, child) == []
  {
    if child == [] {
      assert r.cols + map[] == r.cols;
    } else {
      assert forall i :: 0 <= i < |child| - 1 ==> child[1..][i] == child[i + 1];
      ChildrenOfKeyed(r, child[1..]);
      if child[0].logId == r.id {
        assert ChildrenOf(r, child[1..]) == [];
      }
    }
  }

  /** A 1:1 child neither drops nor multiplies rows. */
  lemma {:induction false} LeftJoinKeepsRows(rows: seq<Row>, child: seq<Child>)
    requires KeyedByLog(child)
    ensures |LeftJoin(rows, child)| == |rows|
    ensures forall i :: 0 <= i < |rows| ==> LeftJoin(rows, child)[i] == Merged(rows[i], child)
  {
    if rows != [] {
      ChildrenOfKeyed(rows[0], child);
      LeftJoinKeepsRows(rows[1..], child);
    }
  }

  /** A listed row is its log row with the columns of the child rows that belong to it, where there are any. */
  lemma {:induction false} ChildSupplies(id: int, child: seq<Child>)
    requires KeyedByLog(child)
    ensures forall k :: 0 <= k < |child| && child[k].logId == id ==> ColsFor(id, child) == child[k].cols
    ensures (forall k :: 0 <= k < |child| ==> child[k].logId != id) ==> ColsFor(id, child) == map[]
  {
    if child != [] && child[0].logId != id {
      assert KeyedByLog(child[1..]);
      ChildSupplies(id, child[1..]);
      assert forall k :: 0 < k < |child| ==> child[k] == child[1..][k - 1];
    }
  }

  lemma {:induction false} ColsForSupplied(id: int, child: seq<Child>, expr: string)
    requires Supplies(child, expr)
    ensures ColsFor(id, child).Keys <= {expr}
  {
    if child != [] && child[0].logId != id {
      ColsForSupplied(id, child[1..], expr);
    }
  }

  /** Two readings of the same log row that differ at most in the given columns. */
  ghost predicate Agree(a: Row, b: Row, except: set<string>) {
    && a.id == b.id && a.contributors == b.contributors
    && forall e :: e !in except ==> Col(a, e) == Col(b, e)
  }

  ghost predicate AllAgree(a: seq<Row>, b: seq<Row>, except: set<string>) {
    |a| == |b| && forall i :: 0 <= i < |a| ==> Agree(a[i], b[i], except)
  }

  lemma MergedAgrees(a: Row, b: Row, child: seq<Child>, expr: string, except: set<string>)
    requires Agree(a, b, except) && Supplies(child, expr)
    ensures Agree(Merged(a, child), Merged(b, child), except)
    ensures Agree(a, Merged(b, child), except + {expr})
  {
    ColsForSupplied(a.id, child, expr);
  }

  lemma JoinAgrees(a: seq<Row>, b: seq<Row>, child: seq<Child>, expr: string, except: set<string>)
    requires AllAgree(a, b, except) && KeyedByLog(child) && Supplies(child, expr)
    ensures AllAgree(LeftJoin(a, child), LeftJoin(b, child), except)
    ensures AllAgree(a, LeftJoin(b, child), except + {expr})
  {
    LeftJoinKeepsRows(a, child);
    LeftJoinKeepsRows(b, child);
    forall i | 0 <= i < |a|
      ensures Agree(Merged(a[i], child), Merged(b[i], child), except)
      ensures Agree(a[i], Merged(b[i], child), except + {expr})
    {
      MergedAgrees(a[i], b[i], child, expr, except);
    }
  }

  /** The columns of the child tables that the aggregate leaves out. */
  ghost function Elided(q: Query): set<string> {
    (if FiltersOn(q, "country_code") then {} else {COUNTRY}) + (if FiltersOn(q, "network_policy") then {} else {POLICY})
  }

  lemma FromsAgree(t: Tables, q: Query)
    requires WellKeyed(t)
    ensures AllAgree(FilteredFrom(t, q), ListedFrom(t), Elided(q))
  {
    var joined := LeftJoin(t.log, t.geoip);
    assert AllAgree(t.log, t.log, {});
    JoinAgrees(t.log, t.log, t.geoip, COUNTRY, {});
    assert {} + {COUNTRY} == {COUNTRY};
    var geo := if FiltersOn(q, "country_code") then joined else t.log;
    var except: set<string> := if FiltersOn(q, "country_code") then {} else {COUNTRY};
    assert AllAgree(geo, joined, except);
    JoinAgrees(geo, joined, t.policy, POLICY, except);
    assert except + {} == except;
  }

  /** A registry condition reads no column but its own. */
  lemma ConditionReads(f: Filter, expr: string)
    requires Condition(COLUMNS, f).Ok? && Reads(Condition(COLUMNS, f).value, expr)
    ensures COLUMNS[f.column].expr == expr && COLUMNS[f.column].rel.None?
  {
    var spec := COLUMNS[f.column];
    if f.op == OpContains || f.op == OpNotContains {
      var parts := LikeParts(spec.expr, f.values, f.op == OpNotContains);
      assert forall i :: 0 <= i < |parts| && Reads(parts[i], expr) ==> spec.expr == expr;
      assert LikeCondition(spec.expr, f.values, f.op == OpNotContains).value
          == if f.op == OpNotContains then And(parts) else Or(parts);
    }
  }

  lemma ChildColumnsAreFiltered(f: Filter)
    requires f.column in COLUMNS && COLUMNS[f.column].rel.None?
    ensures COLUMNS[f.column].expr == COUNTRY ==> f.column == "country_code"
    ensures COLUMNS[f.column].expr == POLICY ==> f.column == "network_policy"
    ensures COLUMNS[f.column].expr != OUTCOME && COLUMNS[f.column].expr != CREATED_AT
  {
    assert COLUMNS.Keys == {"client_ip", "target_host", "target_uri", "http_method", "deny_reason",
                            "country_code", "network_policy", "device", "user"};
  }

  lemma {:induction false} RegistryReads(fs: seq<Filter>, k: nat, expr: string)
    requires RegistryConds(fs).Ok? && k < |RegistryConds(fs).value| && Reads(RegistryConds(fs).value[k], expr)
    ensures |RegistryConds(fs).value| == |fs| && Condition(COLUMNS, fs[k]).Ok?
    ensures fs[k].column in COLUMNS && COLUMNS[fs[k].column].rel.None? && COLUMNS[fs[k].column].expr == expr
    decreases k
  {
    RegistryCondsShape(fs);
    if k == 0 {
      ConditionReads(fs[0], expr);
    } else {
      RegistryReads(fs[1..], k - 1, expr);
    }
  }

  lemma {:induction false} RegistryCondsShape(fs: seq<Filter>)
    requires RegistryConds(fs).Ok?
    ensures |RegistryConds(fs).value| == |fs|
  {
    if fs != [] {
      RegistryCondsShape(fs[1..]);
    }
  }

  /** The WHERE set over any window: its filter half, ANDed with the given time bounds. */
  function Where(bounds: seq<Cond>, q: Query): Result<Cond, FilterError> {
    match FilterConds(q)
    case Err(e) => Err(e)
    case Ok(cs) => Ok(And(bounds + cs))
  }

  ghost predicate BoundsTime(bounds: seq<Cond>) {
    forall i, e :: 0 <= i < |bounds| && Reads(bounds[i], e) ==> e == CREATED_AT
  }

  lemma WhereReadsNoElided(bounds: seq<Cond>, q: Query, expr: string)
    requires BoundsTime(bounds) && Where(bounds, q).Ok? && Reads(Where(bounds, q).value, expr)
    ensures expr !in Elided(q)
  {
    var outcome, registry := OutcomeConds(q.outcome), RegistryConds(q.filters).value;
    var cs := bounds + (outcome + registry);
    var i :| 0 <= i < |cs| && Reads(cs[i], expr);
    if i >= |bounds| + |outcome| {
      var k := i - |bounds| - |outcome|;
      assert cs[i] == registry[k];
      RegistryReads(q.filters, k, expr);
      ChildColumnsAreFiltered(q.filters[k]);
    }
  }

  lemma {:induction false} FilteredAgree(a: seq<Row>, b: seq<Row>, c: Cond, except: set<string>)
    requires AllAgree(a, b, except) && OUTCOME !in except && CREATED_AT !in except
    requires forall e :: Reads(c, e) ==> e !in except
    ensures Project(Filtered(a, c)) == Project(Filtered(b, c))
  {
    if a != [] {
      assert Agree(a[0], b[0], except);
      EvalReadsOnly(c, a[0], b[0]);
      assert AllAgree(a[1..], b[1..], except);
      FilteredAgree(a[1..], b[1..], c, except);
      ProjectFiltered(a, c);
      ProjectFiltered(b, c);
      assert Project([a[0]]) == Project([b[0]]);
    }
  }

  lemma ProjectFiltered(rows: seq<Row>, c: Cond)
    requires rows != []
    ensures Project(Filtered(rows, c))
            == (if Holds(c, rows[0]) then Project([rows[0]]) else []) + Project(Filtered(rows[1..], c))
  {
    ProjectHead(rows[0], Filtered(rows[1..], c));
  }

  lemma ProjectHead(r: Row, rows: seq<Row>)
    ensures Project([r] + rows) == Project([r]) + Project(rows)
    ensures Project([] + rows) == Project(rows)
  {
    assert [] + rows == rows;
  }

  /**
   Join elision: over the joins a query's filters reference and over both joins, the same log rows
   pass the same WHERE set -- so COUNT(*), and any aggregate of outcome and time, agree.
   */
  lemma JoinElisionPreserves(t: Tables, q: Query, bounds: seq<Cond>)
    requires WellKeyed(t) && BoundsTime(bounds) && Where(bounds, q).Ok?
    ensures var c := Where(bounds, q).value;
            Project(Filtered(FilteredFrom(t, q), c)) == Project(Filtered(ListedFrom(t), c))
  {
    var c := Where(bounds, q).value;
    FromsAgree(t, q);
    forall e | Reads(c, e)
      ensures e !in Elided(q)
    {
      WhereReadsNoElided(bounds, q, e);
    }
    FilteredAgree(FilteredFrom(t, q), ListedFrom(t), c, Elided(q));
  }

  lemma ListedFromKeepsIds(t: Tables)
    requires WellKeyed(t)
    ensures |ListedFrom(t)| == |t.log|
    ensures forall i :: 0 <= i < |t.log| ==> ListedFrom(t)[i].id == t.log[i].id
  {
    LeftJoinKeepsRows(t.log, t.geoip);
    LeftJoinKeepsRows(LeftJoin(t.log, t.geoip), t.policy);
  }

  /** `total`, counted over the elided joins, is the length of the whole listing under any sort. */
  lemma TotalIsListingLength(t: Tables, q: Query, s: Sorting)
    requires WellKeyed(t) && Where(WindowConds(q.from, q.to), q).Ok?
    requires forall i, j :: 0 <= i < j < |t.log| ==> t.log[i].id != t.log[j].id
    ensures var c := Where(WindowConds(q.from, q.to), q).value;
            |Filtered(FilteredFrom(t, q), c)| == |Ordered(s, Filtered(ListedFrom(t), c))|
  {
    var c := Where(WindowConds(q.from, q.to), q).value;
    JoinElisionPreserves(t, q, WindowConds(q.from, q.to));
    ListedFromKeepsIds(t);
    FilteredRows(ListedFrom(t), c);
    OrderedSorts(s, Filtered(ListedFrom(t), c));
  }

  /** Every access-log filter and its negation split the log, given that client_ip is never NULL. */
  lemma RegistryPartitions(f: Filter, r: Row)
    requires NoNulls(f.values) && !Col(r, "ral.client_ip").Null?
    requires Condition(COLUMNS, f).Ok? && Condition(COLUMNS, f.(op := Negation(f.op))).Ok?
    ensures Holds(Condition(COLUMNS, f).value, r) != Holds(Condition(COLUMNS, f.(op := Negation(f.op))).value, r)
  {
    NegationPartitions(COLUMNS, f, r);
    assert COLUMNS.Keys == {"client_ip", "target_host", "target_uri", "http_method", "deny_reason",
                            "country_code", "network_policy", "device", "user"};
  }
}
