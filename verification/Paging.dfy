/**
 GET /access-log pages: each request filters and orders the table as it then stands, keeps the
 first `limit` rows after the cursor, and hands out a next cursor only with a full page. Between
 requests rows are appended and pruned, and the filters and window may move.
 */
module Paging {
  import opened Common
  import opened Sql
  import opened Keyset

  const DEFAULT_PAGE_SIZE := 50
  const MAX_PAGE_SIZE := 200

  /** The limit parameter, defaulted and capped. */
  function PageLimit(param: Option<int>): (limit: nat)
    ensures 1 <= limit <= 200
    ensures param.None? || param.value <= 0 ==> limit == 50
    ensures param.Some? && 1 <= param.value <= 200 ==> limit == param.value
    ensures param.Some? && param.value > 200 ==> limit == 200
  {
    var limit := if param.Some? then param.value else DEFAULT_PAGE_SIZE;
    if limit <= 0 then DEFAULT_PAGE_SIZE else if limit > MAX_PAGE_SIZE then MAX_PAGE_SIZE else limit
  }

  /** What one request meets: the table at that moment, its WHERE set and its limit. */
  datatype Request = Request(rows: seq<Row>, where: Cond, limit: nat)

  datatype Sorting = Sorting(sort: string, spec: SortSpec, order: Order)

  function Filtered(rows: seq<Row>, c: Cond): seq<Row> {
    if rows == [] then [] else (if Holds(c, rows[0]) then [rows[0]] else []) + Filtered(rows[1..], c)
  }

  function Insert(s: Sorting, r: Row, rows: seq<Row>): seq<Row> {
    if rows == [] || Before(s.spec.expr, s.order, r, rows[0]) then [r] + rows
    else [rows[0]] + Insert(s, r, rows[1..])
  }

  function Ordered(s: Sorting, rows: seq<Row>): seq<Row> {
    if rows == [] then [] else Insert(s, rows[0], Ordered(s, rows[1..]))
  }

  /** WHERE of the page query: the filter set, and the keyset predicate when there is a cursor. */
  function PageWhere(s: Sorting, where: Cond, cursor: Option<Cursor>): Cond {
    if cursor.None? then where else And([where, KeysetCond(s.spec, cursor.value)])
  }

  /** Every row the request could still list, in order. */
  function Remaining(s: Sorting, q: Request, cursor: Option<Cursor>): seq<Row> {
    Ordered(s, Filtered(q.rows, PageWhere(s, q.where, cursor)))
  }

  function Page(s: Sorting, q: Request, cursor: Option<Cursor>): seq<Row> {
    var all := Remaining(s, q, cursor);
    if |all| <= q.limit then all else all[..q.limit]
  }

  function NextCursor(s: Sorting, q: Request, page: seq<Row>): Option<Cursor> {
    if |page| == q.limit && page != [] then Some(CursorOf(s.sort, s.spec, s.order, page[|page| - 1])) else None
  }

  /** All rows listed by following cursors through the requests, until a page brings no cursor. */
  function Walk(s: Sorting, qs: seq<Request>, cursor: Option<Cursor>): seq<Row> {
    if qs == [] then []
    else
      var page := Page(s, qs[0], cursor);
      var next := NextCursor(s, qs[0], page);
      if next.None? then page else page + Walk(s, qs[1..], next)
  }

  /** The walk met a page with no next cursor. */
  predicate Finished(s: Sorting, qs: seq<Request>, cursor: Option<Cursor>) {
    qs != [] &&
    var next := NextCursor(s, qs[0], Page(s, qs[0], cursor));
    next.None? || Finished(s, qs[1..], next)
  }

  /** Row ids are a primary key, and limits are as PageLimit leaves them. */
  ghost predicate Sane(s: Sorting, q: Request) {
    && q.limit >= 1
    && IdsDistinct(q.rows)
    && (forall r :: r in q.rows ==> NullsDeclared(s.spec, r))
  }

  ghost predicate AllSane(s: Sorting, qs: seq<Request>) {
    forall i :: 0 <= i < |qs| ==> Sane(s, qs[i])
  }

  ghost predicate After(s: Sorting, last: Option<Row>, r: Row) {
    last.None? || Before(s.spec.expr, s.order, last.value, r)
  }

  /** The cursor that a walk holds after listing `last`. */
  function CursorAt(s: Sorting, last: Option<Row>): Option<Cursor> {
    if last.None? then None else Some(CursorOf(s.sort, s.spec, s.order, last.value))
  }

  ghost predicate Increasing(s: Sorting, rows: seq<Row>) {
    forall i, j :: 0 <= i < j < |rows| ==> Before(s.spec.expr, s.order, rows[i], rows[j])
  }

  ghost predicate SameRows(a: seq<Row>, b: seq<Row>) {
    forall r :: r in a <==> r in b
  }

  lemma IdElsewhere(rows: seq<Row>, r: Row)
    requires rows != [] && r in rows[1..] && IdsDistinct(rows)
    ensures r.id != rows[0].id
  {
    var k :| 0 <= k < |rows[1..]| && rows[1..][k] == r;
    assert rows[k + 1] == r;
  }

  lemma {:induction false} FilteredAre(rows: seq<Row>, c: Cond)
    ensures forall r :: r in Filtered(rows, c) <==> r in rows && Holds(c, r)
    ensures |Filtered(rows, c)| <= |rows|
  {
    if rows != [] {
      FilteredAre(rows[1..], c);
      assert rows == [rows[0]] + rows[1..];
    }
  }

  ghost predicate IdsDistinct(rows: seq<Row>) {
    forall i, j :: 0 <= i < j < |rows| ==> rows[i].id != rows[j].id
  }

  /** A filter keeps the matching rows, and their ids distinct. */
  lemma {:induction false} FilteredRows(rows: seq<Row>, c: Cond)
    ensures forall r :: r in Filtered(rows, c) <==> r in rows && Holds(c, r)
    ensures |Filtered(rows, c)| <= |rows|
    ensures IdsDistinct(rows) ==> IdsDistinct(Filtered(rows, c))
  {
    FilteredAre(rows, c);
    if rows != [] && IdsDistinct(rows) {
      var rest := Filtered(rows[1..], c);
      FilteredRows(rows[1..], c);
      assert IdsDistinct(rows[1..]);
      forall j | 0 <= j < |rest|
        ensures rest[j].id != rows[0].id
      {
        assert rest[j] in rest;
        IdElsewhere(rows, rest[j]);
      }
    }
  }

  lemma {:induction false} InsertSorted(s: Sorting, r: Row, rows: seq<Row>)
    requires Increasing(s, rows) && forall x :: x in rows ==> x.id != r.id
    ensures Increasing(s, Insert(s, r, rows))
    ensures forall x :: x in Insert(s, r, rows) <==> x == r || x in rows
    ensures |Insert(s, r, rows)| == |rows| + 1
  {
    if rows != [] {
      var e, o := s.spec.expr, s.order;
      BeforeStrictTotal(e, o, r, rows[0], r);
      if Before(e, o, r, rows[0]) {
        forall j | 0 < j < |rows|
          ensures Before(e, o, r, rows[j])
        {
          BeforeStrictTotal(e, o, r, rows[0], rows[j]);
        }
      } else {
        var rest := Insert(s, r, rows[1..]);
        assert rows == [rows[0]] + rows[1..];
        InsertSorted(s, r, rows[1..]);
        forall j | 0 <= j < |rest|
          ensures Before(e, o, rows[0], rest[j])
        {
          assert rest[j] in rest;
          if rest[j] != r {
            var k :| 1 <= k < |rows| && rows[k] == rest[j];
          }
        }
      }
    }
  }

  lemma {:induction false} OrderedSorts(s: Sorting, rows: seq<Row>)
    requires IdsDistinct(rows)
    ensures Increasing(s, Ordered(s, rows)) && SameRows(Ordered(s, rows), rows)
    ensures |Ordered(s, rows)| == |rows|
  {
    if rows != [] {
      var rest := rows[1..];
      assert rows == [rows[0]] + rest;
      assert forall i, j :: 0 <= i < j < |rest| ==> rest[i].id != rest[j].id;
      OrderedSorts(s, rest);
      InsertSorted(s, rows[0], Ordered(s, rest));
    }
  }

  /** What a request after `last` can still list: the matching rows beyond `last`, in order. */
  lemma RemainingRows(s: Sorting, q: Request, last: Option<Row>)
    requires Sane(s, q) && (last.Some? ==> NullsDeclared(s.spec, last.value))
    ensures var all := Remaining(s, q, CursorAt(s, last));
            && Increasing(s, all)
            && |all| <= |q.rows|
            && forall r :: r in all <==> r in q.rows && Holds(q.where, r) && After(s, last, r)
  {
    var where := PageWhere(s, q.where, CursorAt(s, last));
    FilteredRows(q.rows, where);
    OrderedSorts(s, Filtered(q.rows, where));
    if last.Some? {
      var keyset := KeysetCond(s.spec, CursorAt(s, last).value);
      forall r | r in q.rows
        ensures Holds(where, r) <==> Holds(q.where, r) && After(s, last, r)
      {
        KeysetIsStrictlyAfter(s.sort, s.spec, s.order, last.value, r);
        SmallConditions(q.where, keyset, keyset, r);
      }
    }
  }

  /** One page: in order, beyond the cursor, and missing a matching row only if full and past it. */
  lemma PageRows(s: Sorting, q: Request, last: Option<Row>)
    requires Sane(s, q) && (last.Some? ==> NullsDeclared(s.spec, last.value))
    ensures var page := Page(s, q, CursorAt(s, last));
            && Increasing(s, page)
            && (forall r :: r in page ==> r in q.rows && Holds(q.where, r) && After(s, last, r))
            && (forall r :: r in q.rows && Holds(q.where, r) && After(s, last, r) && r !in page ==>
                  |page| == q.limit && Before(s.spec.expr, s.order, page[|page| - 1], r))
  {
    RemainingRows(s, q, last);
    var all := Remaining(s, q, CursorAt(s, last));
    var page := Page(s, q, CursorAt(s, last));
    forall r | r in all && r !in page
      ensures |page| == q.limit && Before(s.spec.expr, s.order, page[|page| - 1], r)
    {
      var k :| 0 <= k < |all| && all[k] == r;
      assert k >= q.limit;
    }
  }

  lemma NextCursorAt(s: Sorting, q: Request, page: seq<Row>)
    requires q.limit >= 1 && |page| <= q.limit
    ensures NextCursor(s, q, page)
            == if |page| == q.limit then CursorAt(s, Some(page[|page| - 1])) else None
  {}

  /** Pages never repeat or reorder: what a walk lists is strictly increasing in ORDER BY order. */
  lemma {:induction false} WalkIncreases(s: Sorting, qs: seq<Request>, last: Option<Row>)
    requires AllSane(s, qs) && (last.Some? ==> NullsDeclared(s.spec, last.value))
    ensures Increasing(s, Walk(s, qs, CursorAt(s, last)))
    ensures forall r :: r in Walk(s, qs, CursorAt(s, last)) ==> After(s, last, r)
    decreases |qs|
  {
    if qs != [] {
      var page := Page(s, qs[0], CursorAt(s, last));
      PageRows(s, qs[0], last);
      NextCursorAt(s, qs[0], page);
      if |page| == qs[0].limit {
        var end := page[|page| - 1];
        assert end in page;
        WalkIncreases(s, qs[1..], Some(end));
        PageThenRest(s, page, Walk(s, qs[1..], CursorAt(s, Some(end))), last);
      }
    }
  }

  lemma PageThenRest(s: Sorting, page: seq<Row>, rest: seq<Row>, last: Option<Row>)
    requires page != [] && Increasing(s, page) && Increasing(s, rest)
    requires forall r :: r in page ==> After(s, last, r)
    requires forall r :: r in rest ==> After(s, Some(page[|page| - 1]), r)
    ensures Increasing(s, page + rest)
    ensures forall r :: r in page + rest ==> After(s, last, r)
  {
    var e, o, end := s.spec.expr, s.order, page[|page| - 1];
    assert end in page;
    forall r | r in rest
      ensures After(s, last, r)
    {
      if last.Some? {
        BeforeStrictTotal(e, o, last.value, end, r);
      }
    }
    forall i, j | 0 <= i < |page| && 0 <= j < |rest|
      ensures Before(e, o, page[i], rest[j])
    {
      assert rest[j] in rest;
      BeforeStrictTotal(e, o, page[i], end, rest[j]);
    }
  }

  /** Every listed row was in the table, and matched, at some request of the walk. */
  lemma {:induction false} WalkListsMatches(s: Sorting, qs: seq<Request>, last: Option<Row>, r: Row)
    requires AllSane(s, qs) && (last.Some? ==> NullsDeclared(s.spec, last.value))
    requires r in Walk(s, qs, CursorAt(s, last))
    ensures exists i :: 0 <= i < |qs| && r in qs[i].rows && Holds(qs[i].where, r)
    decreases |qs|
  {
    var page := Page(s, qs[0], CursorAt(s, last));
    PageRows(s, qs[0], last);
    NextCursorAt(s, qs[0], page);
    if r !in page {
      var end := page[|page| - 1];
      assert end in page;
      WalkListsMatches(s, qs[1..], Some(end), r);
      var i :| 0 <= i < |qs[1..]| && r in qs[1..][i].rows && Holds(qs[1..][i].where, r);
      assert qs[i + 1] == qs[1..][i];
    }
  }

  /** Nothing is skipped: a finished walk lists every row that was there and matched at each request. */
  lemma {:induction false} WalkMissesNothing(s: Sorting, qs: seq<Request>, last: Option<Row>, r: Row)
    requires AllSane(s, qs) && (last.Some? ==> NullsDeclared(s.spec, last.value))
    requires Finished(s, qs, CursorAt(s, last)) && After(s, last, r)
    requires forall i :: 0 <= i < |qs| ==> r in qs[i].rows && Holds(qs[i].where, r)
    ensures r in Walk(s, qs, CursorAt(s, last))
    decreases |qs|
  {
    var page := Page(s, qs[0], CursorAt(s, last));
    PageRows(s, qs[0], last);
    NextCursorAt(s, qs[0], page);
    if r !in page {
      assert page[|page| - 1] in page;
      WalkMissesNothing(s, qs[1..], Some(page[|page| - 1]), r);
    }
  }

  /** Rows never change once written: two requests agree on every row id they share. */
  ghost predicate Immutable(qs: seq<Request>) {
    forall i, j, a, b :: 0 <= i < |qs| && 0 <= j < |qs| && a in qs[i].rows && b in qs[j].rows && a.id == b.id
                         ==> a == b
  }

  /** No row is listed twice, whatever is appended or pruned between the requests. */
  lemma WalkRepeatsNothing(s: Sorting, qs: seq<Request>)
    requires AllSane(s, qs) && Immutable(qs)
    ensures var listed := Walk(s, qs, None);
            forall i, j :: 0 <= i < j < |listed| ==> listed[i].id != listed[j].id
  {
    var listed := Walk(s, qs, None);
    WalkIncreases(s, qs, None);
    forall i, j | 0 <= i < j < |listed|
      ensures listed[i].id != listed[j].id
    {
      BeforeStrictTotal(s.spec.expr, s.order, listed[i], listed[j], listed[i]);
      assert listed[i] in listed && listed[j] in listed;
      WalkListsMatches(s, qs, None, listed[i]);
      WalkListsMatches(s, qs, None, listed[j]);
    }
  }

  lemma {:induction false} IncreasingIsUnique(s: Sorting, a: seq<Row>, b: seq<Row>)
    requires Increasing(s, a) && Increasing(s, b) && SameRows(a, b)
    ensures a == b
  {
    assert |b| > 0 ==> b[0] in b;
    if a != [] {
      assert a[0] in a;
      assert b != [] && b[0] in b;
      HeadsAgree(s, a, b);
      forall r
        ensures r in a[1..] <==> r in b[1..]
      {
        TailMembers(s, a, r);
        TailMembers(s, b, r);
      }
      IncreasingIsUnique(s, a[1..], b[1..]);
      assert a == [a[0]] + a[1..] && b == [b[0]] + b[1..];
    }
  }

  lemma TailMembers(s: Sorting, a: seq<Row>, r: Row)
    requires Increasing(s, a) && a != []
    ensures r in a[1..] <==> r in a && r != a[0]
  {
    assert a == [a[0]] + a[1..];
    BeforeStrictTotal(s.spec.expr, s.order, r, r, r);
  }

  lemma HeadsAgree(s: Sorting, a: seq<Row>, b: seq<Row>)
    requires Increasing(s, a) && Increasing(s, b) && SameRows(a, b) && a != [] && b != []
    ensures a[0] == b[0]
  {
    assert a[0] in a && b[0] in b;
    if a[0] != b[0] {
      var i :| 0 <= i < |b| && b[i] == a[0];
      var j :| 0 <= j < |a| && a[j] == b[0];
      BeforeStrictTotal(s.spec.expr, s.order, a[0], b[0], a[0]);
      assert false;
    }
  }

  /** The client meets the same table and the same filters at every request. */
  ghost predicate StandsStill(qs: seq<Request>, rows: seq<Row>, where: Cond) {
    forall i :: 0 <= i < |qs| ==> qs[i].rows == rows && qs[i].where == where
  }

  lemma FixedTableMember(s: Sorting, qs: seq<Request>, rows: seq<Row>, where: Cond, r: Row)
    requires AllSane(s, qs) && Finished(s, qs, None) && StandsStill(qs, rows, where)
    ensures r in Walk(s, qs, None) <==> r in rows && Holds(where, r)
  {
    if r in rows && Holds(where, r) {
      WalkMissesNothing(s, qs, None, r);
    }
    if r in Walk(s, qs, None) {
      WalkListsMatches(s, qs, None, r);
    }
  }

  /** On a table that stands still, the pages concatenate to the whole filtered, sorted list. */
  lemma PagesConcatenate(s: Sorting, qs: seq<Request>, rows: seq<Row>, where: Cond)
    requires AllSane(s, qs) && Finished(s, qs, None) && StandsStill(qs, rows, where)
    ensures Walk(s, qs, None) == Ordered(s, Filtered(rows, where))
  {
    var listed, all := Walk(s, qs, None), Remaining(s, qs[0], None);
    assert all == Ordered(s, Filtered(rows, where));
    WalkIncreases(s, qs, None);
    RemainingRows(s, qs[0], None);
    forall r
      ensures r in listed <==> r in all
    {
      FixedTableMember(s, qs, rows, where, r);
    }
    IncreasingIsUnique(s, listed, all);
  }

  /** A client that keeps asking is done after at most one request more than there are rows to list. */
  lemma {:induction false} WalkFinishes(s: Sorting, qs: seq<Request>, last: Option<Row>)
    requires AllSane(s, qs) && (last.Some? ==> NullsDeclared(s.spec, last.value))
    requires qs != [] && StandsStill(qs, qs[0].rows, qs[0].where)
    requires |qs| > |Remaining(s, qs[0], CursorAt(s, last))|
    ensures Finished(s, qs, CursorAt(s, last))
    decreases |qs|
  {
    var all := Remaining(s, qs[0], CursorAt(s, last));
    var page := Page(s, qs[0], CursorAt(s, last));
    RemainingRows(s, qs[0], last);
    PageRows(s, qs[0], last);
    NextCursorAt(s, qs[0], page);
    if |page| == qs[0].limit {
      var end := page[|page| - 1];
      assert end in page;
      NextRemaining(s, qs[0], qs[1], last, |page|);
      WalkFinishes(s, qs[1..], Some(end));
    }
  }

  /** On the same table, what remains after the n-th row listed is the rest of the list. */
  lemma NextRemaining(s: Sorting, q: Request, q': Request, last: Option<Row>, n: nat)
    requires Sane(s, q) && Sane(s, q') && q'.rows == q.rows && q'.where == q.where
    requires last.Some? ==> NullsDeclared(s.spec, last.value)
    requires 0 < n <= |Remaining(s, q, CursorAt(s, last))|
    ensures var all := Remaining(s, q, CursorAt(s, last));
            Remaining(s, q', CursorAt(s, Some(all[n - 1]))) == all[n..]
  {
    var all := Remaining(s, q, CursorAt(s, last));
    var end := all[n - 1];
    RemainingRows(s, q, last);
    assert end in all;
    var later := Remaining(s, q', CursorAt(s, Some(end)));
    RemainingRows(s, q', Some(end));
    forall r
      ensures r in later <==> r in all[n..]
    {
      RestAfterPage(s, all, n, last, r);
    }
    IncreasingIsUnique(s, later, all[n..]);
  }

  lemma RestAfterPage(s: Sorting, all: seq<Row>, n: nat, last: Option<Row>, r: Row)
    requires Increasing(s, all) && 0 < n <= |all|
    requires forall x :: x in all ==> After(s, last, x)
    ensures r in all[n..] <==> r in all && Before(s.spec.expr, s.order, all[n - 1], r)
    ensures Before(s.spec.expr, s.order, all[n - 1], r) ==> After(s, last, r)
  {
    var e, o := s.spec.expr, s.order;
    assert all[n - 1] in all;
    if last.Some? {
      BeforeStrictTotal(e, o, last.value, all[n - 1], r);
    }
    if r in all && Before(e, o, all[n - 1], r) {
      var k :| 0 <= k < |all| && all[k] == r;
      BeforeStrictTotal(e, o, all[n - 1], r, all[n - 1]);
      assert k >= n;
      assert all[n..][k - n] == r;
    }
  }
}
