/**
 filterx: a column allowlist that turns a caller's filter into a SQL condition.
 The reference meaning of a filter is Selects; conditions are judged by what WHERE keeps.
 */
module Filters {
  import opened Common
  import opened Sql
  import Like

  datatype Operator = OpIn | OpNotIn | OpContains | OpNotContains | OpIsNull | OpNotNull

  const MAX_VALUES := 200

  datatype FilterError = UnknownColumn | OperatorNotAllowed | NoValues | TooManyValues | NotStrings | Unsupported

  /** rel is the value column of an EXISTS-filtered column; expr is the scalar expression of any other. */
  datatype ColumnSpec = ColumnSpec(expr: string, nullable: bool, rel: Option<string>, ops: set<Operator>)

  datatype Filter = Filter(column: string, op: Operator, values: seq<Value>)

  type Columns = map<string, ColumnSpec>

  predicate NullCheck(op: Operator) {
    op == OpIsNull || op == OpNotNull
  }

  function Check(cols: Columns, f: Filter): Result<ColumnSpec, FilterError> {
    if f.column !in cols then Err(UnknownColumn)
    else if f.op !in cols[f.column].ops then Err(OperatorNotAllowed)
    else if NullCheck(f.op) then Ok(cols[f.column])
    else if |f.values| == 0 then Err(NoValues)
    else if |f.values| > MAX_VALUES then Err(TooManyValues)
    else Ok(cols[f.column])
  }

  /** Building a condition fails exactly on what the registry does not accept. */
  function Condition(cols: Columns, f: Filter): (r: Result<Cond, FilterError>)
    ensures r.Ok? <==>
            && f.column in cols && f.op in cols[f.column].ops
            && (NullCheck(f.op) || 1 <= |f.values| <= MAX_VALUES)
            && (f.op in {OpContains, OpNotContains} ==> cols[f.column].rel.None? && AllText(f.values))
  {
    match Check(cols, f)
    case Err(e) => Err(e)
    case Ok(spec) => if spec.rel.Some? then RelationalCondition(spec.rel.value, f) else ScalarCondition(spec, f)
  }

  function ScalarCondition(spec: ColumnSpec, f: Filter): Result<Cond, FilterError> {
    match f.op
    case OpIn => Ok(In(spec.expr, f.values))
    case OpNotIn =>
      var notIn := NotIn(spec.expr, f.values);
      Ok(if spec.nullable then Or([IsNull(spec.expr), notIn]) else notIn)
    case OpContains => LikeCondition(spec.expr, f.values, false)
    case OpNotContains =>
      (match LikeCondition(spec.expr, f.values, true)
       case Err(e) => Err(e)
       case Ok(cond) => Ok(if spec.nullable then Or([IsNull(spec.expr), cond]) else cond))
    case OpIsNull => Ok(IsNull(spec.expr))
    case OpNotNull => Ok(NotNull(spec.expr))
  }

  predicate AllText(values: seq<Value>) {
    forall i :: 0 <= i < |values| ==> values[i].Text?
  }

  function LikePart(expr: string, v: Value, negate: bool): Cond
    requires v.Text?
  {
    var pattern := Like.ContainsPattern(v.s);
    if negate then NotLikeEsc(expr, pattern) else LikeEsc(expr, pattern)
  }

  function LikeParts(expr: string, values: seq<Value>, negate: bool): seq<Cond>
    requires AllText(values)
  {
    seq(|values|, i requires 0 <= i < |values| => LikePart(expr, values[i], negate))
  }

  function LikeCondition(expr: string, values: seq<Value>, negate: bool): Result<Cond, FilterError> {
    if !AllText(values) then Err(NotStrings)
    else if negate then Ok(And(LikeParts(expr, values, true)))
    else Ok(Or(LikeParts(expr, values, false)))
  }

  /** likeCondition as the source runs it: one part per value, stopping at the first non-string. */
  method BuildLikeCondition(expr: string, values: seq<Value>, negate: bool)
    returns (r: Result<Cond, FilterError>)
    ensures r == LikeCondition(expr, values, negate)
  {
    var parts := [];
    for i := 0 to |values|
      invariant AllText(values[..i])
      invariant parts == LikeParts(expr, values[..i], negate)
    {
      if !values[i].Text? {
        return Err(NotStrings);
      }
      parts := parts + [LikePart(expr, values[i], negate)];
      assert values[..i + 1] == values[..i] + [values[i]];
    }
    assert values[..|values|] == values;
    r := Ok(if negate then And(parts) else Or(parts));
  }

  function RelationalCondition(valueCol: string, f: Filter): Result<Cond, FilterError> {
    match f.op
    case OpIn => Ok(Exists(Some((valueCol, f.values))))
    case OpNotIn => Ok(NotExists(Some((valueCol, f.values))))
    case OpIsNull => Ok(NotExists(None))
    case OpNotNull => Ok(Exists(None))
    case _ => Err(Unsupported)
  }

  /** What a refused filter is refused for: the first of these that applies. */
  lemma RefusalsAre(cols: Columns, f: Filter)
    ensures var r, known := Condition(cols, f), f.column in cols;
            var allowed := known && f.op in cols[f.column].ops;
            && (r == Err(UnknownColumn) <==> !known)
            && (r == Err(OperatorNotAllowed) <==> known && !allowed)
            && (r == Err(NoValues) <==> allowed && !NullCheck(f.op) && f.values == [])
            && (r == Err(TooManyValues) <==> allowed && !NullCheck(f.op) && |f.values| > 200)
            && (r == Err(NotStrings) <==> allowed && f.op in {OpContains, OpNotContains} && 1 <= |f.values| <= 200
                                          && cols[f.column].rel.None? && !AllText(f.values))
  {}

  /** Some searched string occurs in v. */
  ghost predicate ContainsAny(values: seq<Value>, v: Value)
    requires !v.Null? && AllText(values)
  {
    exists i :: 0 <= i < |values| && Like.Occurs(values[i].s, AsText(v))
  }

  ghost predicate ContributorIn(r: Row, col: string, values: seq<Value>) {
    exists k :: 0 <= k < |r.contributors| && Get(r.contributors[k], col) in values
  }

  /** The positive half of an operator: does the row match the column's values (or hold NULL)? */
  ghost predicate Positive(spec: ColumnSpec, f: Filter, r: Row) {
    if spec.rel.Some? then
      if NullCheck(f.op) then r.contributors == [] else ContributorIn(r, spec.rel.value, f.values)
    else
      var v := Col(r, spec.expr);
      match f.op
      case OpIsNull => v.Null?
      case OpNotNull => v.Null?
      case OpIn => !v.Null? && v in f.values
      case OpNotIn => !v.Null? && v in f.values
      case _ => !v.Null? && AllText(f.values) && ContainsAny(f.values, v)
  }

  predicate Negated(op: Operator) {
    op == OpNotIn || op == OpNotContains || op == OpNotNull
  }

  function Negation(op: Operator): Operator {
    match op
    case OpIn => OpNotIn
    case OpNotIn => OpIn
    case OpContains => OpNotContains
    case OpNotContains => OpContains
    case OpIsNull => OpNotNull
    case OpNotNull => OpIsNull
  }

  /** What a filter is for: the rows it should keep. */
  ghost predicate Selects(spec: ColumnSpec, f: Filter, r: Row) {
    Positive(spec, f, r) != Negated(f.op)
  }

  /** Values come from typed request parameters, so none of them is NULL. */
  predicate NoNulls(values: seq<Value>) {
    Null !in values
  }

  /** A negative value filter on this row would compare a NULL that its column does not declare. */
  predicate UndeclaredNull(spec: ColumnSpec, op: Operator, r: Row) {
    spec.rel.None? && !spec.nullable && Col(r, spec.expr).Null? && (op == OpNotIn || op == OpNotContains)
  }

  lemma LikePartMeans(expr: string, value: Value, negate: bool, r: Row)
    requires value.Text?
    ensures var v := Col(r, expr);
            Holds(LikePart(expr, value, negate), r) <==> !v.Null? && Like.Occurs(value.s, AsText(v)) != negate
  {
    var v := Col(r, expr);
    if !v.Null? {
      Like.ContainsMeansSubstring(value.s, AsText(v));
    }
  }

  /** A conjunction of tests that miss, or a disjunction of tests that hit. */
  lemma NoneOrAny(parts: seq<Cond>, values: seq<Value>, v: Value, negate: bool, r: Row)
    requires |parts| == |values| > 0 && AllText(values)
    requires forall i :: 0 <= i < |values| ==>
               (Holds(parts[i], r) <==> !v.Null? && Like.Occurs(values[i].s, AsText(v)) != negate)
    ensures Holds(if negate then And(parts) else Or(parts), r) <==> !v.Null? && ContainsAny(values, v) != negate
  {
    if negate {
      AllHold(parts, r);
      assert v.Null? ==> !Holds(parts[0], r);
    } else {
      AnyHolds(parts, r);
    }
  }

  lemma LikeConditionMeans(expr: string, values: seq<Value>, negate: bool, r: Row)
    requires AllText(values) && |values| > 0
    ensures var v := Col(r, expr);
            Holds(LikeCondition(expr, values, negate).value, r)
            <==> !v.Null? && ContainsAny(values, v) != negate
  {
    var parts := LikeParts(expr, values, negate);
    forall i | 0 <= i < |values|
      ensures Holds(parts[i], r) <==> !Col(r, expr).Null? && Like.Occurs(values[i].s, AsText(Col(r, expr))) != negate
    {
      LikePartMeans(expr, values[i], negate, r);
    }
    NoneOrAny(parts, values, Col(r, expr), negate, r);
  }

  lemma OrNull(expr: string, c: Cond, r: Row)
    ensures Holds(Or([IsNull(expr), c]), r) <==> Col(r, expr).Null? || Holds(c, r)
  {
    var cs := [IsNull(expr), c];
    AnyHolds(cs, r);
    if Holds(c, r) {
      assert Holds(cs[1], r);
    }
    if Col(r, expr).Null? {
      assert Holds(cs[0], r);
    }
  }

  lemma ContributorMeans(r: Row, col: string, values: seq<Value>)
    requires NoNulls(values)
    ensures SomeContributor(r, Some((col, values))) <==> ContributorIn(r, col, values)
  {
    var among := Some((col, values));
    forall k | 0 <= k < |r.contributors|
      ensures ContributorAmong(r.contributors[k], among) <==> Get(r.contributors[k], col) in values
    {}
  }

  /** A filter keeps exactly the rows it should, except a row with a NULL its column does not declare. */
  lemma ConditionMeans(cols: Columns, f: Filter, r: Row)
    requires NoNulls(f.values) && Condition(cols, f).Ok?
    ensures var spec := cols[f.column];
            Holds(Condition(cols, f).value, r) <==> Selects(spec, f, r) && !UndeclaredNull(spec, f.op, r)
  {
    var spec := cols[f.column];
    if spec.rel.Some? {
      if !NullCheck(f.op) {
        ContributorMeans(r, spec.rel.value, f.values);
      } else if r.contributors != [] {
        assert ContributorAmong(r.contributors[0], None);
      }
    } else {
      match f.op
      case OpNotIn => OrNull(spec.expr, NotIn(spec.expr, f.values), r);
      case OpContains => LikeConditionMeans(spec.expr, f.values, false, r);
      case OpNotContains =>
        LikeConditionMeans(spec.expr, f.values, true, r);
        OrNull(spec.expr, LikeCondition(spec.expr, f.values, true).value, r);
      case _ =>
    }
  }

  /**
   An operator and its negation split the rows: exactly one of the two filters keeps a row,
   if and only if neither meets a NULL its column does not declare.
   */
  lemma NegationPartitions(cols: Columns, f: Filter, r: Row)
    requires NoNulls(f.values)
    requires Condition(cols, f).Ok? && Condition(cols, f.(op := Negation(f.op))).Ok?
    ensures var spec := cols[f.column];
            var opposite := f.(op := Negation(f.op));
            (Holds(Condition(cols, f).value, r) != Holds(Condition(cols, opposite).value, r))
            <==> !UndeclaredNull(spec, f.op, r) && !UndeclaredNull(spec, opposite.op, r)
  {
    var opposite := f.(op := Negation(f.op));
    ConditionMeans(cols, f, r);
    ConditionMeans(cols, opposite, r);
    assert Positive(cols[f.column], f, r) == Positive(cols[f.column], opposite, r);
  }
}
