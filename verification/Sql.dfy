/**
 The fragment of SQLite that the list queries rely on: values with NULL, the three-valued
 conditions squirrel renders, and a row of the joined FROM clause.
 */
module Sql {
  import opened Common
  import Like

  datatype Value = Null | Int(n: int) | Text(s: string)

  /** Truth values of SQL; WHERE keeps a row only when its condition is True. */
  datatype Tri = True | False | Unknown {
    function Not(): Tri {
      match this case True => False case False => True case Unknown => Unknown
    }

    function AndThen(other: Tri): Tri {
      if this == False || other == False then False
      else if this == Unknown || other == Unknown then Unknown
      else True
    }

    function OrElse(other: Tri): Tri {
      Not().AndThen(other.Not()).Not()
    }
  }

  function Truth(b: bool): Tri {
    if b then True else False
  }

  /** The primary key column appended to every ORDER BY and keyset predicate. */
  const TIE_BREAKER := "ral.id"

  /** One access_log row: its columns by SQL expression, and the contributor rows correlated with it. */
  datatype Row = Row(id: int, cols: map<string, Value>, contributors: seq<map<string, Value>>)

  function Get(cols: map<string, Value>, expr: string): Value {
    if expr in cols then cols[expr] else Null
  }

  function Col(r: Row, expr: string): Value {
    if expr == TIE_BREAKER then Int(r.id) else Get(r.cols, expr)
  }

  predicate TextLess(a: string, b: string) {
    b != "" && (a == "" || a[0] < b[0] || (a[0] == b[0] && TextLess(a[1..], b[1..])))
  }

  /** SQLite's order on stored values: NULL, then integers, then text by code unit. */
  predicate Less(a: Value, b: Value) {
    match (a, b)
    case (Null, _) => !b.Null?
    case (Int(m), Int(n)) => m < n
    case (Int(_), Text(_)) => true
    case (Text(x), Text(y)) => TextLess(x, y)
    case _ => false
  }

  /** LIKE reads an integer operand as its decimal text. */
  function AsText(v: Value): string
    requires !v.Null?
  {
    match v case Text(s) => s case Int(n) => if n < 0 then "-" + Decimal(-n) else Decimal(n)
  }

  function Decimal(n: nat): string {
    (if n < 10 then "" else Decimal(n / 10)) + [(n % 10 + 48) as char]
  }

  datatype Cond =
    | IsNull(expr: string)
    | NotNull(expr: string)
    | Lt(expr: string, v: Value)
    | Gt(expr: string, v: Value)
    | Ge(expr: string, v: Value)
    | Le(expr: string, v: Value)
    | Eq(expr: string, v: Value)
    | In(expr: string, vs: seq<Value>)
    | NotIn(expr: string, vs: seq<Value>)
    | LikeEsc(expr: string, pattern: string)
    | NotLikeEsc(expr: string, pattern: string)
    | Exists(among: Option<(string, seq<Value>)>)
    | NotExists(among: Option<(string, seq<Value>)>)
    | And(cs: seq<Cond>)
    | Or(cs: seq<Cond>)

  /** `v IN (vs)`: NULL on the left is Unknown, and so is a miss on a list that holds a NULL. */
  function InTri(v: Value, vs: seq<Value>): Tri {
    if vs == [] then False
    else if v.Null? then Unknown
    else if v in vs then True
    else if Null in vs then Unknown
    else False
  }

  function LikeTri(v: Value, pattern: string): Tri {
    if v.Null? then Unknown else Truth(Like.Matches(pattern, AsText(v)))
  }

  /** The correlated subquery returns some contributor row of r, restricted to a value list if given. */
  predicate SomeContributor(r: Row, among: Option<(string, seq<Value>)>) {
    exists k :: 0 <= k < |r.contributors| && ContributorAmong(r.contributors[k], among)
  }

  predicate ContributorAmong(c: map<string, Value>, among: Option<(string, seq<Value>)>) {
    among.Some? ==> InTri(Get(c, among.value.0), among.value.1) == True
  }

  function Eval(c: Cond, r: Row): Tri
    decreases c, 1
  {
    match c
    case IsNull(e) => Truth(Col(r, e).Null?)
    case NotNull(e) => Truth(!Col(r, e).Null?)
    case Lt(e, v) => if Col(r, e).Null? || v.Null? then Unknown else Truth(Less(Col(r, e), v))
    case Gt(e, v) => if Col(r, e).Null? || v.Null? then Unknown else Truth(Less(v, Col(r, e)))
    case Ge(e, v) => if Col(r, e).Null? || v.Null? then Unknown else Truth(!Less(Col(r, e), v))
    case Le(e, v) => if Col(r, e).Null? || v.Null? then Unknown else Truth(!Less(v, Col(r, e)))
    case Eq(e, v) => if Col(r, e).Null? || v.Null? then Unknown else Truth(Col(r, e) == v)
    case In(e, vs) => InTri(Col(r, e), vs)
    case NotIn(e, vs) => InTri(Col(r, e), vs).Not()
    case LikeEsc(e, p) => LikeTri(Col(r, e), p)
    case NotLikeEsc(e, p) => LikeTri(Col(r, e), p).Not()
    case Exists(among) => Truth(SomeContributor(r, among))
    case NotExists(among) => Truth(!SomeContributor(r, among))
    case And(cs) => EvalAll(cs, r)
    case Or(cs) => EvalAny(cs, r)
  }

  function EvalAll(cs: seq<Cond>, r: Row): Tri
    decreases cs, 0
  {
    if cs == [] then True else Eval(cs[0], r).AndThen(EvalAll(cs[1..], r))
  }

  function EvalAny(cs: seq<Cond>, r: Row): Tri
    decreases cs, 0
  {
    if cs == [] then False else Eval(cs[0], r).OrElse(EvalAny(cs[1..], r))
  }

  /** The row passes WHERE c. */
  predicate Holds(c: Cond, r: Row) {
    Eval(c, r) == True
  }

  lemma {:induction false} AllHold(cs: seq<Cond>, r: Row)
    ensures EvalAll(cs, r) == True <==> forall i :: 0 <= i < |cs| ==> Holds(cs[i], r)
  {
    if cs != [] {
      AllHold(cs[1..], r);
      assert forall i :: 0 < i < |cs| ==> cs[i] == cs[1..][i - 1];
      assert forall i :: 0 <= i < |cs| - 1 ==> cs[1..][i] == cs[i + 1];
    }
  }

  lemma {:induction false} AnyHolds(cs: seq<Cond>, r: Row)
    ensures EvalAny(cs, r) == True <==> exists i :: 0 <= i < |cs| && Holds(cs[i], r)
  {
    if cs != [] {
      AnyHolds(cs[1..], r);
      assert forall i :: 0 < i < |cs| ==> cs[i] == cs[1..][i - 1];
      assert forall i :: 0 <= i < |cs| - 1 ==> cs[1..][i] == cs[i + 1];
    }
  }

  /** The column expressions a condition reads. */
  ghost predicate Reads(c: Cond, expr: string)
    decreases c
  {
    match c
    case IsNull(e) => e == expr
    case NotNull(e) => e == expr
    case Lt(e, _) => e == expr
    case Gt(e, _) => e == expr
    case Ge(e, _) => e == expr
    case Le(e, _) => e == expr
    case Eq(e, _) => e == expr
    case In(e, _) => e == expr
    case NotIn(e, _) => e == expr
    case LikeEsc(e, _) => e == expr
    case NotLikeEsc(e, _) => e == expr
    case Exists(_) => false
    case NotExists(_) => false
    case And(cs) => exists i :: 0 <= i < |cs| && Reads(cs[i], expr)
    case Or(cs) => exists i :: 0 <= i < |cs| && Reads(cs[i], expr)
  }

  /** Rows that agree on every column a condition reads get the same truth value. */
  lemma {:induction false} EvalReadsOnly(c: Cond, r: Row, s: Row)
    requires r.id == s.id && r.contributors == s.contributors
    requires forall e :: Reads(c, e) ==> Col(r, e) == Col(s, e)
    ensures Eval(c, r) == Eval(c, s)
    decreases c, 1
  {
    match c
    case And(cs) =>
      EvalSeqReadsOnly(cs, r, s);
    case Or(cs) =>
      EvalSeqReadsOnly(cs, r, s);
    case IsNull(e) => assert Reads(c, e);
    case NotNull(e) => assert Reads(c, e);
    case Lt(e, _) => assert Reads(c, e);
    case Gt(e, _) => assert Reads(c, e);
    case Ge(e, _) => assert Reads(c, e);
    case Le(e, _) => assert Reads(c, e);
    case Eq(e, _) => assert Reads(c, e);
    case In(e, _) => assert Reads(c, e);
    case NotIn(e, _) => assert Reads(c, e);
    case LikeEsc(e, _) => assert Reads(c, e);
    case NotLikeEsc(e, _) => assert Reads(c, e);
    case Exists(_) =>
    case NotExists(_) =>
  }

  lemma {:induction false} EvalSeqReadsOnly(cs: seq<Cond>, r: Row, s: Row)
    requires r.id == s.id && r.contributors == s.contributors
    requires forall i, e :: 0 <= i < |cs| && Reads(cs[i], e) ==> Col(r, e) == Col(s, e)
    ensures EvalAll(cs, r) == EvalAll(cs, s)
    ensures EvalAny(cs, r) == EvalAny(cs, s)
    decreases cs, 0
  {
    if cs != [] {
      EvalReadsOnly(cs[0], r, s);
      assert forall i :: 0 <= i < |cs| - 1 ==> cs[1..][i] == cs[i + 1];
      EvalSeqReadsOnly(cs[1..], r, s);
    }
  }

  lemma {:induction false} TextLessIrreflexive(a: string)
    ensures !TextLess(a, a)
  {
    if a != "" {
      TextLessIrreflexive(a[1..]);
    }
  }

  lemma {:induction false} TextLessTransitive(a: string, b: string, c: string)
    requires TextLess(a, b) && TextLess(b, c)
    ensures TextLess(a, c)
  {
    if a != "" && a[0] == b[0] == c[0] {
      TextLessTransitive(a[1..], b[1..], c[1..]);
    }
  }

  lemma {:induction false} TextLessTotal(a: string, b: string)
    ensures a == b || TextLess(a, b) || TextLess(b, a)
  {
    if a != "" && b != "" && a[0] == b[0] {
      TextLessTotal(a[1..], b[1..]);
      assert a == [a[0]] + a[1..] && b == [b[0]] + b[1..];
    }
  }

  /** Where two texts first differ, or one ends. */
  ghost predicate Precedes(a: string, b: string, i: nat) {
    i <= |a| && i < |b| && a[..i] == b[..i] && (i == |a| || a[i] < b[i])
  }

  /** Text compares by its first difference. */
  lemma {:induction false} TextLessMeans(a: string, b: string)
    ensures TextLess(a, b) <==> exists i: nat :: Precedes(a, b, i)
  {
    if a == "" && b != "" {
      assert Precedes(a, b, 0);
    } else if a != "" && b != "" {
      TextLessMeans(a[1..], b[1..]);
      if a[0] < b[0] {
        assert Precedes(a, b, 0);
      }
      if a[0] == b[0] && TextLess(a[1..], b[1..]) {
        var i: nat :| Precedes(a[1..], b[1..], i);
        assert a[..i + 1] == [a[0]] + a[1..][..i] && b[..i + 1] == [b[0]] + b[1..][..i];
        assert Precedes(a, b, i + 1);
      }
      if i: nat :| Precedes(a, b, i) {
        if i > 0 {
          assert a[0] == a[..i][0] == b[..i][0] == b[0];
          assert a[1..][..i - 1] == a[..i][1..] == b[..i][1..] == b[1..][..i - 1];
          assert Precedes(a[1..], b[1..], i - 1);
        }
      }
    }
  }

  /** NULL comes before everything, integers come in their own order and before texts, and texts by first difference. */
  lemma LessMeans(a: Value, b: Value)
    ensures a.Null? ==> (Less(a, b) <==> !b.Null?)
    ensures b.Null? ==> !Less(a, b)
    ensures a.Int? && b.Int? ==> (Less(a, b) <==> a.n < b.n)
    ensures a.Int? && b.Text? ==> Less(a, b) && !Less(b, a)
    ensures a.Text? && b.Text? ==> (Less(a, b) <==> exists i: nat :: Precedes(a.s, b.s, i))
  {
    if a.Text? && b.Text? {
      TextLessMeans(a.s, b.s);
    }
  }

  /** A number read back from its digits. */
  function Parsed(digits: string): int {
    if digits == "" then 0 else 10 * Parsed(digits[..|digits| - 1]) + digits[|digits| - 1] as int - 48
  }

  /** The decimal text of a number reads back as the number. */
  lemma {:induction false} DecimalMeans(n: nat)
    ensures Parsed(Decimal(n)) == n
  {
    var rest, digit := if n < 10 then "" else Decimal(n / 10), (n % 10 + 48) as char;
    if n >= 10 {
      DecimalMeans(n / 10);
    }
    OneMoreDigit(rest, digit);
    assert Parsed(rest) == n / 10;
    assert n == 10 * (n / 10) + n % 10;
  }

  /** It is digits, with no needless zero before them. */
  lemma {:induction false} DecimalIsDigits(n: nat)
    ensures Decimal(n) != "" && (n > 0 ==> Decimal(n)[0] != '0')
    ensures forall i :: 0 <= i < |Decimal(n)| ==> '0' <= Decimal(n)[i] <= '9'
  {
    if n >= 10 {
      DecimalIsDigits(n / 10);
    }
  }

  /** An integer's text: its digits, after a minus sign if it is negative. */
  lemma IntegerText(n: int)
    ensures var text := AsText(Int(n));
            if n < 0 then text != "" && text[0] == '-' && Parsed(text[1..]) == -n
            else Parsed(text) == n && text != "" && text[0] != '-'
  {
    if n >= 0 {
      DecimalMeans(n);
      DecimalIsDigits(n);
    } else {
      DecimalMeans(-n);
      assert AsText(Int(n))[1..] == Decimal(-n);
    }
  }

  lemma OneMoreDigit(digits: string, digit: char)
    ensures Parsed(digits + [digit]) == 10 * Parsed(digits) + digit as int - 48
  {
    assert (digits + [digit])[..|digits|] == digits;
  }

  /** The value order is a strict total order. */
  lemma LessStrictTotal(a: Value, b: Value, c: Value)
    ensures !Less(a, a)
    ensures a == b || Less(a, b) || Less(b, a)
    ensures Less(a, b) && Less(b, c) ==> Less(a, c)
  {
    if a.Text? {
      TextLessIrreflexive(a.s);
      if b.Text? {
        TextLessTotal(a.s, b.s);
        if c.Text? && Less(a, b) && Less(b, c) {
          TextLessTransitive(a.s, b.s, c.s);
        }
      }
    }
  }
}
