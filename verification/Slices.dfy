/** Slice operations. */
module Slices {
  import opened Common

  /** The first occurrence of every element, in order. */
  function Deduped<T(==)>(s: seq<T>): seq<T> {
    if s == [] then []
    else
      var kept := Deduped(s[..|s| - 1]);
      if s[|s| - 1] in kept then kept else kept + [s[|s| - 1]]
  }

  /** The loop over the slice, with the set of elements already seen. */
  method Dedup<T(==)>(s: seq<T>) returns (out: seq<T>)
    ensures out == Deduped(s)
    ensures Distinct(out) && forall x :: x in out <==> x in s
  {
    var seen: set<T> := {};
    out := [];
    for i := 0 to |s|
      invariant out == Deduped(s[..i]) && forall x :: x in seen <==> x in out
    {
      assert s[..i + 1][..i] == s[..i];
      if s[i] !in seen {
        seen := seen + {s[i]};
        out := out + [s[i]];
      }
    }
    assert s[..|s|] == s;
    DedupedKeepsElements(s);
  }

  lemma {:induction false} DedupedKeepsElements<T>(s: seq<T>)
    ensures Distinct(Deduped(s))
    ensures forall x :: x in Deduped(s) <==> x in s
    ensures Distinct(s) ==> Deduped(s) == s
  {
    if s != [] {
      var init, last := s[..|s| - 1], s[|s| - 1];
      DedupedKeepsElements(init);
      assert s == init + [last];
      assert Distinct(s) ==> last !in init;
    }
  }

  /** An element keeps its place: what precedes a kept element is what was kept of the elements before it. */
  lemma {:induction false} DedupedKeepsOrder<T>(s: seq<T>, k: nat)
    requires k <= |s|
    ensures Deduped(s[..k]) <= Deduped(s)
    decreases |s|
  {
    if k < |s| {
      DedupedKeepsOrder(s[..|s| - 1], k);
      assert s[..|s| - 1][..k] == s[..k];
    } else {
      assert s[..k] == s;
    }
  }
}
