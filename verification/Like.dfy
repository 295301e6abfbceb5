/**
 The substring filter: EscapeLIKE, and SQLite's LIKE with ESCAPE '\'.
 LIKE compares ASCII letters without regard to case; every other character only equals itself.
 */
module Like {

  /** strings.ReplaceAll for a one-character needle. */
  function ReplaceAll(s: string, c: char, rep: string): string {
    if s == "" then "" else (if s[0] == c then rep else [s[0]]) + ReplaceAll(s[1..], c, rep)
  }

  /** The three successive replacements: backslash first, then the two wildcards. */
  function EscapeLIKE(s: string): string {
    ReplaceAll(ReplaceAll(ReplaceAll(s, '\\', "\\\\"), '%', "\\%"), '_', "\\_")
  }

  predicate Special(c: char) {
    c == '\\' || c == '%' || c == '_'
  }

  /** One pass: every special character, and nothing else, gains a backslash. */
  function Escaped(s: string): string {
    if s == "" then "" else (if Special(s[0]) then ['\\', s[0]] else [s[0]]) + Escaped(s[1..])
  }

  function Fold(c: char): char {
    if 'A' <= c <= 'Z' then (c as int + 32) as char else c
  }

  predicate SameFolded(a: string, b: string) {
    |a| == |b| && forall i :: 0 <= i < |a| ==> Fold(a[i]) == Fold(b[i])
  }

  /** s occurs in t, up to ASCII case. */
  predicate Occurs(s: string, t: string) {
    exists i :: 0 <= i <= |t| && OccursAt(s, t, i)
  }

  predicate OccursAt(s: string, t: string, i: nat) {
    i + |s| <= |t| && SameFolded(s, t[i..i + |s|])
  }

  /** SQLite's pattern match: pattern p against text t, with backslash as the escape character. */
  predicate Matches(p: string, t: string)
    decreases |p|, |t|
  {
    if p == "" then t == ""
    else if p[0] == '%' then Matches(p[1..], t) || (t != "" && Matches(p, t[1..]))
    else if p[0] == '\\' then |p| > 1 && t != "" && Fold(p[1]) == Fold(t[0]) && Matches(p[2..], t[1..])
    else t != "" && (p[0] == '_' || Fold(p[0]) == Fold(t[0])) && Matches(p[1..], t[1..])
  }

  function ContainsPattern(s: string): string {
    "%" + EscapeLIKE(s) + "%"
  }

  predicate Letters(lower: char, upper: char) {
    'a' <= lower <= 'z' && 'A' <= upper <= 'Z' && lower as int - 'a' as int == upper as int - 'A' as int
  }

  /** Two characters compare alike exactly when they are the same, or the two cases of one ASCII letter. */
  lemma FoldMeans(c: char, d: char)
    ensures Fold(c) == Fold(d) <==> c == d || Letters(c, d) || Letters(d, c)
  {}

  /** The wildcards: a percent sign stands for any text, and an underscore for any one character. */
  lemma {:induction false} WildcardsMean(t: string)
    ensures Matches("%", t)
    ensures Matches("_", t) <==> |t| == 1
  {
    if t != "" {
      WildcardsMean(t[1..]);
    }
  }

  lemma {:induction false} ReplaceAllConcat(a: string, b: string, c: char, rep: string)
    ensures ReplaceAll(a + b, c, rep) == ReplaceAll(a, c, rep) + ReplaceAll(b, c, rep)
  {
    if a == "" {
      assert a + b == b;
    } else {
      assert (a + b)[1..] == a[1..] + b;
      ReplaceAllConcat(a[1..], b, c, rep);
    }
  }

  lemma {:induction false} ReplacementsEscapeOnce(s: string)
    ensures EscapeLIKE(s) == Escaped(s)
  {
    if s != "" {
      var head, rest := s[..1], s[1..];
      assert s == head + rest;
      ReplaceAllConcat(head, rest, '\\', "\\\\");
      var h1, r1 := ReplaceAll(head, '\\', "\\\\"), ReplaceAll(rest, '\\', "\\\\");
      ReplaceAllConcat(h1, r1, '%', "\\%");
      var h2, r2 := ReplaceAll(h1, '%', "\\%"), ReplaceAll(r1, '%', "\\%");
      ReplaceAllConcat(h2, r2, '_', "\\_");
      OneCharacter(s[0]);
      assert head == [s[0]];
      ReplacementsEscapeOnce(rest);
    }
  }

  lemma ReplaceOne(c: char, needle: char, rep: string)
    ensures ReplaceAll([c], needle, rep) == if c == needle then rep else [c]
  {
    assert [c][1..] == "";
    assert rep + "" == rep;
  }

  lemma OneCharacter(c: char)
    ensures EscapeLIKE([c]) == if Special(c) then ['\\', c] else [c]
  {
    ReplaceOne(c, '\\', "\\\\");
    ReplaceOne(c, '%', "\\%");
    ReplaceOne(c, '_', "\\_");
    forall needle: char, rep | needle == '%' || needle == '_'
      ensures ReplaceAll("\\", needle, rep) == "\\"
    {
      ReplaceOne('\\', needle, rep);
    }
    ReplaceAllConcat("\\", "\\", '%', "\\%");
    ReplaceAllConcat("\\", "\\", '_', "\\_");
    assert "\\" + "\\" == "\\\\";
    assert "\\" + "%" == "\\%";
    ReplaceAllConcat("\\", "%", '_', "\\_");
    ReplaceOne('%', '_', "\\_");
  }

  /** A leading % skips any prefix of the text. */
  lemma {:induction false} LeadingPercent(q: string, t: string)
    ensures Matches("%" + q, t) <==> exists i :: 0 <= i <= |t| && Matches(q, t[i..])
    decreases |t|
  {
    var p := "%" + q;
    assert p[1..] == q;
    assert t[0..] == t;
    if t != "" {
      LeadingPercent(q, t[1..]);
      forall i | 0 <= i <= |t| - 1
        ensures t[1..][i..] == t[i + 1..]
      {}
      if i :| 0 <= i <= |t| && Matches(q, t[i..]) {
        if i > 0 {
          assert t[1..][i - 1..] == t[i..];
        }
      }
    }
  }

  /** An escaped literal before a final % matches exactly the texts that begin with it. */
  lemma {:induction false} EscapedPrefix(s: string, t: string)
    ensures Matches(Escaped(s) + "%", t) <==> |s| <= |t| && SameFolded(s, t[..|s|])
    decreases |s|
  {
    var p := Escaped(s) + "%";
    if s == "" {
      assert p == "%" + "";
      LeadingPercent("", t);
      assert t[|t|..] == "";
      assert Matches("", t[|t|..]);
    } else {
      EscapedPrefixStep(s, t);
      if t != "" {
        EscapedPrefix(s[1..], t[1..]);
        if |s| <= |t| {
          FoldedHead(s, t[..|s|]);
          assert t[..|s|][1..] == t[1..][..|s| - 1];
        }
      }
    }
  }

  lemma EscapedPrefixStep(s: string, t: string)
    requires s != ""
    ensures Matches(Escaped(s) + "%", t)
            <==> t != "" && Fold(s[0]) == Fold(t[0]) && Matches(Escaped(s[1..]) + "%", t[1..])
  {
    var p := Escaped(s) + "%";
    var q := Escaped(s[1..]) + "%";
    if Special(s[0]) {
      assert p == ['\\', s[0]] + q;
      assert p[2..] == q && p[0] == '\\' && p[1] == s[0];
    } else {
      assert p == [s[0]] + q;
      assert p[1..] == q;
    }
  }

  lemma FoldedHead(a: string, b: string)
    requires |a| == |b| > 0
    ensures SameFolded(a, b) <==> Fold(a[0]) == Fold(b[0]) && SameFolded(a[1..], b[1..])
  {
    if Fold(a[0]) == Fold(b[0]) && SameFolded(a[1..], b[1..]) {
      forall i | 0 <= i < |a|
        ensures Fold(a[i]) == Fold(b[i])
      {
        if i > 0 {
          assert a[i] == a[1..][i - 1] && b[i] == b[1..][i - 1];
        }
      }
    }
  }

  /** The pattern the contains filter sends matches a text iff the searched string occurs in it. */
  lemma ContainsMeansSubstring(s: string, t: string)
    ensures Matches(ContainsPattern(s), t) <==> Occurs(s, t)
  {
    ReplacementsEscapeOnce(s);
    var q := Escaped(s) + "%";
    assert ContainsPattern(s) == "%" + q;
    LeadingPercent(q, t);
    forall i | 0 <= i <= |t|
      ensures Matches(q, t[i..]) <==> OccursAt(s, t, i)
    {
      EscapedPrefix(s, t[i..]);
      if |s| <= |t| - i {
        assert t[i..][..|s|] == t[i..i + |s|];
      }
    }
  }
}
