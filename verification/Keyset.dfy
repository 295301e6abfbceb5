/**
 filterx cursors: the ORDER BY of a sortable column, and the keyset predicate that is to select
 the rows strictly after a cursor row in that order, NULLs included.
 */
module Keyset {
  import opened Common
  import opened Sql

  datatype Kind = KindString | KindInt | KindTime

  datatype Order = Asc | Desc

  datatype SortSpec = SortSpec(expr: string, kind: Kind, nullable: bool)

  type Sorts = map<string, SortSpec>

  datatype CursorError = UnknownSort | BadOrder | BadValue

  datatype Cursor = Cursor(sort: string, order: Order, id: int, value: Value)

  /** The opaque token with its JSON unpacked; a time is carried as its instant. */
  datatype Token = Token(s: string, o: string, v: Value, id: int)

  function NormalizeOrder(order: string): Result<Order, CursorError> {
    if order == "asc" then Ok(Asc) else if order == "desc" then Ok(Desc) else Err(BadOrder)
  }

  function OrderName(order: Order): string {
    if order == Asc then "asc" else "desc"
  }

  predicate OfKind(v: Value, k: Kind) {
    v.Null? || (if k == KindString then v.Text? else v.Int?)
  }

  function EncodeCursor(sorts: Sorts, sort: string, order: string, value: Value, id: int): Result<Token, CursorError> {
    if sort !in sorts then Err(UnknownSort)
    else if NormalizeOrder(order).Err? then Err(BadOrder)
    else Ok(Token(sort, order, value, id))
  }

  function DecodeCursor(sorts: Sorts, t: Token): Result<Cursor, CursorError> {
    if t.s !in sorts then Err(UnknownSort)
    else
      match NormalizeOrder(t.o)
      case Err(e) => Err(e)
      case Ok(order) =>
        if OfKind(t.v, sorts[t.s].kind) then Ok(Cursor(t.s, order, t.id, t.v)) else Err(BadValue)
  }

  function KeysetCond(spec: SortSpec, c: Cursor): Cond {
    var e, id := spec.expr, Int(c.id);
    if c.value.Null? then
      if c.order == Desc then And([IsNull(e), Lt(TIE_BREAKER, id)])
      else Or([NotNull(e), And([IsNull(e), Gt(TIE_BREAKER, id)])])
    else if c.order == Desc then
      Or([Lt(e, c.value), And([Eq(e, c.value), Lt(TIE_BREAKER, id)])]
         + if spec.nullable then [IsNull(e)] else [])
    else
      Or([Gt(e, c.value), And([Eq(e, c.value), Gt(TIE_BREAKER, id)])])
  }

  /** ORDER BY expr dir, id dir: a comes strictly before b. */
  predicate Before(expr: string, order: Order, a: Row, b: Row) {
    if order == Asc then KeyLess(expr, a, b) else KeyLess(expr, b, a)
  }

  predicate KeyLess(expr: string, a: Row, b: Row) {
    Less(Col(a, expr), Col(b, expr)) || (Col(a, expr) == Col(b, expr) && a.id < b.id)
  }

  function CursorOf(sort: string, spec: SortSpec, order: Order, last: Row): Cursor {
    Cursor(sort, order, last.id, Col(last, spec.expr))
  }

  /** The column's NULLs are all declared. */
  predicate NullsDeclared(spec: SortSpec, r: Row) {
    spec.nullable || !Col(r, spec.expr).Null?
  }

  lemma BeforeStrictTotal(expr: string, order: Order, a: Row, b: Row, c: Row)
    ensures !Before(expr, order, a, a)
    ensures a.id != b.id ==> Before(expr, order, a, b) || Before(expr, order, b, a)
    ensures Before(expr, order, a, b) && Before(expr, order, b, c) ==> Before(expr, order, a, c)
  {
    var x, y, z := Col(a, expr), Col(b, expr), Col(c, expr);
    LessStrictTotal(x, y, z);
    LessStrictTotal(z, y, x);
  }

  /** Ascending puts the lesser value first and, among equals, the lesser id; descending the greater. */
  lemma BeforeMeans(expr: string, a: Row, b: Row)
    ensures Before(expr, Asc, a, b) <==>
              Less(Col(a, expr), Col(b, expr)) || (Col(a, expr) == Col(b, expr) && a.id < b.id)
    ensures Before(expr, Desc, a, b) <==>
              Less(Col(b, expr), Col(a, expr)) || (Col(a, expr) == Col(b, expr) && a.id > b.id)
  {}

  /** The orders by name; no other name is taken. */
  lemma OrdersAre(name: string)
    ensures NormalizeOrder("asc") == Ok(Asc) && NormalizeOrder("desc") == Ok(Desc)
    ensures NormalizeOrder(name).Ok? <==> name in {"asc", "desc"}
    ensures OrderName(Asc) == "asc" && OrderName(Desc) == "desc"
  {}

  /** Two- and three-way conditions, unfolded once and for all. */
  lemma SmallConditions(p: Cond, q: Cond, s: Cond, r: Row)
    ensures Holds(And([p, q]), r) <==> Holds(p, r) && Holds(q, r)
    ensures Holds(Or([p, q]), r) <==> Holds(p, r) || Holds(q, r)
    ensures Holds(Or([p, q, s]), r) <==> Holds(p, r) || Holds(q, r) || Holds(s, r)
  {
    var two, three := [p, q], [p, q, s];
    AllHold(two, r);
    AnyHolds(two, r);
    AnyHolds(three, r);
    assert two[0] == p && two[1] == q && three[0] == p && three[1] == q && three[2] == s;
  }

  /**
   The keyset predicate keeps a row iff it comes strictly after the cursor row -- for every sort
   column and direction, wherever NULLs stand, as long as the column's NULLs are declared.
   */
  lemma KeysetIsStrictlyAfter(sort: string, spec: SortSpec, order: Order, last: Row, r: Row)
    requires NullsDeclared(spec, last) && NullsDeclared(spec, r)
    ensures Holds(KeysetCond(spec, CursorOf(sort, spec, order, last)), r) <==> Before(spec.expr, order, last, r)
  {
    var e, v, id := spec.expr, Col(last, spec.expr), Int(last.id);
    LessStrictTotal(v, Col(r, e), v);
    if v.Null? {
      SmallConditions(IsNull(e), Lt(TIE_BREAKER, id), IsNull(e), r);
      SmallConditions(IsNull(e), Gt(TIE_BREAKER, id), IsNull(e), r);
      SmallConditions(NotNull(e), And([IsNull(e), Gt(TIE_BREAKER, id)]), IsNull(e), r);
    } else if order == Desc {
      var tie := And([Eq(e, v), Lt(TIE_BREAKER, id)]);
      SmallConditions(Eq(e, v), Lt(TIE_BREAKER, id), IsNull(e), r);
      SmallConditions(Lt(e, v), tie, IsNull(e), r);
      assert [Lt(e, v), tie] + [IsNull(e)] == [Lt(e, v), tie, IsNull(e)];
      assert [Lt(e, v), tie] + [] == [Lt(e, v), tie];
    } else {
      SmallConditions(Eq(e, v), Gt(TIE_BREAKER, id), IsNull(e), r);
      SmallConditions(Gt(e, v), And([Eq(e, v), Gt(TIE_BREAKER, id)]), IsNull(e), r);
    }
  }

  /** Which cursors can be minted, and what each token decodes to: the row's own cursor, unless its value is ill-typed. */
  lemma MintedTokenDecodes(sorts: Sorts, sort: string, order: string, value: Value, id: int)
    ensures var minted := EncodeCursor(sorts, sort, order, value, id);
            && (minted.Ok? <==> sort in sorts && order in {"asc", "desc"})
            && (minted.Ok? ==>
                  DecodeCursor(sorts, minted.value)
                  == if OfKind(value, sorts[sort].kind) then Ok(Cursor(sort, NormalizeOrder(order).value, id, value))
                     else Err(BadValue))
  {}

  /** A token that decodes is the one its cursor would be minted as. */
  lemma DecodedTokenIsMinted(sorts: Sorts, t: Token)
    requires DecodeCursor(sorts, t).Ok?
    ensures var c := DecodeCursor(sorts, t).value;
            EncodeCursor(sorts, c.sort, OrderName(c.order), c.value, c.id) == Ok(t)
  {}
}
