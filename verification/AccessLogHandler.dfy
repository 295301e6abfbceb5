/**
 GET /access-log as a client sees it: the rows scanned, shown and paged by opaque tokens, each minted from
 the last row shown.
 */
module AccessLogHandler {
  import opened Common
  import opened Sql
  import opened Keyset
  import opened Paging
  import opened AccessLog

  /** AccessLogView, as one listed row is scanned. */
  datatype View = View(
    id: int,
    createdAt: int,
    outcome: bool,
    denyReason: Option<string>,
    clientIP: string,
    targetHost: Option<string>,
    targetURI: Option<string>,
    httpMethod: Option<string>,
    durationUs: int,
    countryCode: Option<string>,
    networkPolicyId: Option<int>,
    contributors: seq<map<string, Value>>)

  /** The row of the API; the duration is optional there, and always given. */
  datatype ApiRow = ApiRow(
    id: int,
    createdAt: int,
    outcome: bool,
    clientIp: string,
    denyReason: Option<string>,
    contributors: seq<map<string, Value>>,
    targetHost: Option<string>,
    targetUri: Option<string>,
    httpMethod: Option<string>,
    countryCode: Option<string>,
    durationUs: Option<int>,
    networkPolicyId: Option<int>)

  datatype Response = Response(total: nat, nextCursor: Option<Token>, rows: seq<ApiRow>)

  predicate OptionalText(v: Value) {
    v.Null? || v.Text?
  }

  /** The columns hold what their types in the schema allow. */
  predicate Scannable(r: Row) {
    && Col(r, CREATED_AT).Int? && Col(r, OUTCOME) in {Int(0), Int(1)}
    && Col(r, "ral.client_ip").Text? && Col(r, "ral.duration_us").Int?
    && OptionalText(Col(r, "ral.deny_reason")) && OptionalText(Col(r, "ral.target_host"))
    && OptionalText(Col(r, "ral.target_uri")) && OptionalText(Col(r, "ral.http_method"))
    && OptionalText(Col(r, COUNTRY)) && (Col(r, POLICY).Null? || Col(r, POLICY).Int?)
  }

  function TextOf(v: Value): Option<string>
    requires OptionalText(v)
  {
    if v.Null? then None else Some(v.s)
  }

  function ToView(r: Row): View
    requires Scannable(r)
  {
    View(r.id, Col(r, CREATED_AT).n, Col(r, OUTCOME) == Int(1), TextOf(Col(r, "ral.deny_reason")),
         Col(r, "ral.client_ip").s, TextOf(Col(r, "ral.target_host")), TextOf(Col(r, "ral.target_uri")),
         TextOf(Col(r, "ral.http_method")), Col(r, "ral.duration_us").n, TextOf(Col(r, COUNTRY)),
         if Col(r, POLICY).Null? then None else Some(Col(r, POLICY).n), r.contributors)
  }

  function ToApiRow(v: View): ApiRow {
    ApiRow(v.id, v.createdAt, v.outcome, v.clientIP, v.denyReason, v.contributors, v.targetHost, v.targetURI,
           v.httpMethod, v.countryCode, Some(v.durationUs), v.networkPolicyId)
  }

  /** The field shows the column: absent for NULL. */
  predicate Shows(field: Option<string>, v: Value) {
    match field case None => v == Null case Some(s) => v == Text(s)
  }

  /** Each field of a shown row is the column of its name. */
  lemma ShownRowIs(r: Row)
    requires Scannable(r)
    ensures var shown := ToApiRow(ToView(r));
            && shown.id == r.id && shown.contributors == r.contributors
            && Col(r, "ral.created_at") == Int(shown.createdAt)
            && Col(r, "ral.outcome") == Int(if shown.outcome then 1 else 0)
            && Col(r, "ral.client_ip") == Text(shown.clientIp) && Shows(shown.denyReason, Col(r, "ral.deny_reason"))
            && Shows(shown.targetHost, Col(r, "ral.target_host")) && Shows(shown.targetUri, Col(r, "ral.target_uri"))
            && Shows(shown.httpMethod, Col(r, "ral.http_method")) && Shows(shown.countryCode, Col(r, "g.country_code"))
            && shown.durationUs.Some? && Col(r, "ral.duration_us") == Int(shown.durationUs.value)
            && Col(r, "anpc.policy_id") == (match shown.networkPolicyId case None => Null case Some(id) => Int(id))
  {}

  /** strPtrValue. */
  function ValueOf(s: Option<string>): Value {
    if s.None? then Null else Text(s.value)
  }

  /** accessLogSortValue; an unknown key falls to the time. */
  function SortValue(v: View, sort: string): Value {
    if sort == "client_ip" then Text(v.clientIP)
    else if sort == "target_host" then ValueOf(v.targetHost)
    else if sort == "http_method" then ValueOf(v.httpMethod)
    else if sort == "deny_reason" then ValueOf(v.denyReason)
    else if sort == "duration_us" then Int(v.durationUs)
    else if sort == "outcome" then Int(if v.outcome then 1 else 0)
    else Int(v.createdAt)
  }

  /** For every sort of the registry, the value minted from a scanned row is the row's own, and of the column's kind. */
  lemma SortValueIsColumn(r: Row, sort: string)
    requires Scannable(r) && sort in SORTS
    ensures SortValue(ToView(r), sort) == Col(r, SORTS[sort].expr)
    ensures OfKind(SortValue(ToView(r), sort), SORTS[sort].kind) && NullsDeclared(SORTS[sort], r)
  {
    assert SORTS.Keys == {"created_at", "client_ip", "target_host", "http_method", "deny_reason", "duration_us", "outcome"};
  }

  /** GetAccessLog after the query: the rows shown one by one, and a token from the last if the page is full. */
  method GetAccessLog(rows: seq<View>, total: nat, sort: string, order: string, limit: nat)
    returns (answer: Result<Response, CursorError>)
    requires limit >= 1
    ensures answer.Err? <==> |rows| == limit && !(sort in SORTS && order in {"asc", "desc"})
    ensures answer.Ok? ==>
      && answer.value.total == total && |answer.value.rows| == |rows|
      && (forall i :: 0 <= i < |rows| ==> answer.value.rows[i] == ToApiRow(rows[i]))
      && (answer.value.nextCursor.Some? <==> |rows| == limit)
    ensures answer.Ok? && |rows| == limit && OfKind(SortValue(rows[|rows| - 1], sort), SORTS[sort].kind) ==>
      DecodeCursor(SORTS, answer.value.nextCursor.value)
      == Ok(Cursor(sort, NormalizeOrder(order).value, rows[|rows| - 1].id, SortValue(rows[|rows| - 1], sort)))
  {
    var httpRows := new ApiRow[|rows|](_ => ApiRow(0, 0, false, "", None, [], None, None, None, None, None, None));
    for i := 0 to |rows|
      invariant forall k :: 0 <= k < i ==> httpRows[k] == ToApiRow(rows[k])
    {
      httpRows[i] := ToApiRow(rows[i]);
    }
    var nextCursor := None;
    if |rows| == limit {
      var last := rows[|rows| - 1];
      var token := EncodeCursor(SORTS, sort, order, SortValue(last, sort), last.id);
      if token.Err? {
        return Err(token.error);
      }
      nextCursor := Some(token.value);
    }
    answer := Ok(Response(total, nextCursor, httpRows[..]));
  }

  /** The token of a page, when it is full. */
  function TokenOf(s: Sorting, q: Request, page: seq<Row>): Option<Token>
    requires forall r :: r in page ==> Scannable(r)
  {
    if |page| == q.limit && page != [] then
      var last := page[|page| - 1];
      assert last in page;
      var token := EncodeCursor(SORTS, s.sort, OrderName(s.order), SortValue(ToView(last), s.sort), last.id);
      if token.Ok? then Some(token.value) else None
    else None
  }

  /** A sorting of the registry. */
  predicate Registered(s: Sorting) {
    s.sort in SORTS && s.spec == SORTS[s.sort]
  }

  /** The token handed out is there exactly when there is a next cursor, and decodes to it. */
  lemma TokenIsNextCursor(s: Sorting, q: Request, page: seq<Row>)
    requires Registered(s) && forall r :: r in page ==> Scannable(r)
    ensures TokenOf(s, q, page).Some? <==> NextCursor(s, q, page).Some?
    ensures TokenOf(s, q, page).Some? ==>
              DecodeCursor(SORTS, TokenOf(s, q, page).value) == Ok(NextCursor(s, q, page).value)
  {
    if |page| == q.limit && page != [] {
      var last := page[|page| - 1];
      assert last in page;
      SortValueIsColumn(last, s.sort);
    }
  }

  /** NewAccessLogQuery: with a token, the sort and order are the token's; the parameters count for the first page alone. */
  function SortingFor(first: Sorting, token: Option<Token>): Result<(Sorting, Option<Cursor>), CursorError> {
    if token.None? then Ok((first, None))
    else
      match DecodeCursor(SORTS, token.value)
      case Err(e) => Err(e)
      case Ok(c) => if c.sort in SORTS then Ok((Sorting(c.sort, SORTS[c.sort], c.order), Some(c))) else Err(UnknownSort)
  }

  ghost predicate AllScannable(qs: seq<Request>) {
    forall i, r :: 0 <= i < |qs| && r in qs[i].rows ==> Scannable(r)
  }

  /** What a client lists that starts without a token and then sends back the one it was given. */
  ghost function TokenWalk(first: Sorting, qs: seq<Request>, token: Option<Token>): Result<seq<Row>, CursorError>
    decreases |qs|
  {
    if qs == [] then Ok([])
    else
      match SortingFor(first, token)
      case Err(e) => Err(e)
      case Ok((s, cursor)) =>
        var page := Page(s, qs[0], cursor);
        if exists r :: r in page && !Scannable(r) then Err(BadValue)
        else
          var next := TokenOf(s, qs[0], page);
          if next.None? then Ok(page)
          else
            match TokenWalk(first, qs[1..], next)
            case Err(e) => Err(e)
            case Ok(rest) => Ok(page + rest)
  }

  /** Following tokens is following cursors: no token is refused, and the same rows are listed. */
  lemma {:induction false} TokensAreCursors(s: Sorting, qs: seq<Request>, last: Option<Row>, token: Option<Token>)
    requires Registered(s) && AllSane(s, qs) && AllScannable(qs)
    requires last.Some? ==> NullsDeclared(s.spec, last.value)
    requires SortingFor(s, token) == Ok((s, CursorAt(s, last)))
    ensures TokenWalk(s, qs, token) == Ok(Walk(s, qs, CursorAt(s, last)))
    decreases |qs|
  {
    if qs != [] {
      var page := Page(s, qs[0], CursorAt(s, last));
      PageRows(s, qs[0], last);
      NextCursorAt(s, qs[0], page);
      TokenIsNextCursor(s, qs[0], page);
      if |page| == qs[0].limit {
        var end := page[|page| - 1];
        assert end in page;
        TokensAreCursors(s, qs[1..], Some(end), TokenOf(s, qs[0], page));
      }
    }
  }

  /** So a client that sends back each token lists what the cursors list, from the first page on. */
  lemma TokenWalkIsWalk(s: Sorting, qs: seq<Request>)
    requires Registered(s) && AllSane(s, qs) && AllScannable(qs)
    ensures TokenWalk(s, qs, None) == Ok(Walk(s, qs, None))
  {
    TokensAreCursors(s, qs, None, None);
  }
}
