/** Python string semantics the analysis relies on: clipped slicing and the
    lexicographic order `<` of `str`, which Dafny's `<` on sequences (proper prefix) is not. */
module PyText {

  /** `s[i:j]` for non-negative bounds: both bounds are clipped to `len(s)`, and an
      empty string results when the clipped lower bound is not below the upper one. */
  function PySlice(s: string, i: nat, j: nat): (r: string)
    ensures i + |r| <= |s| || r == []
    ensures |r| == if i < j && i < |s| then (if j < |s| then j else |s|) - i else 0
  {
    var lo := if i < |s| then i else |s|;
    var hi := if j < |s| then j else |s|;
    if lo < hi then s[lo..hi] else []
  }

  /** `s[i:]` for a non-negative start. */
  function PySliceFrom(s: string, i: nat): (r: string)
    ensures |r| == if i < |s| then |s| - i else 0
  {
    if i < |s| then s[i..] else []
  }

  /** Slicing a suffix is slicing the original string at shifted bounds. */
  lemma SliceOfSuffix(s: string, d: nat, i: nat, j: nat)
    ensures PySlice(PySliceFrom(s, d), i, j) == PySlice(s, d + i, d + j)
  {
    var a := PySlice(PySliceFrom(s, d), i, j);
    var b := PySlice(s, d + i, d + j);
    assert |a| == |b|;
    forall k | 0 <= k < |a| ensures a[k] == b[k] {
      assert a[k] == PySliceFrom(s, d)[i + k];
    }
  }

  predicate Increasing(xs: seq<int>) {
    forall k, l :: 0 <= k < l < |xs| ==> xs[k] < xs[l]
  }

  /** Python's `a < b` on strings: compare code points left to right; a proper
      prefix is smaller than the longer string. */
  predicate StrLt(a: string, b: string)
    decreases |a|
  {
    if a == [] then b != []
    else if b == [] then false
    else a[0] < b[0] || (a[0] == b[0] && StrLt(a[1..], b[1..]))
  }

  /** The order agrees with the textbook definition: a common prefix followed either by
      the end of `a` or by a smaller character of `a`. */
  lemma {:induction false} StrLtIsLexicographic(a: string, b: string)
    ensures StrLt(a, b) <==>
      exists k :: 0 <= k <= |a| && k < |b| && a[..k] == b[..k] && (k == |a| || a[k] < b[k])
  {
    if a != [] && b != [] {
      StrLtIsLexicographic(a[1..], b[1..]);
      if StrLt(a, b) && a[0] == b[0] && !(a[0] < b[0]) {
        var k :| 0 <= k <= |a[1..]| && k < |b[1..]| && a[1..][..k] == b[1..][..k]
                 && (k == |a[1..]| || a[1..][k] < b[1..][k]);
        assert a[..k + 1] == [a[0]] + a[1..][..k];
        assert b[..k + 1] == [b[0]] + b[1..][..k];
      }
      if exists k :: 0 <= k <= |a| && k < |b| && a[..k] == b[..k] && (k == |a| || a[k] < b[k]) {
        var k :| 0 <= k <= |a| && k < |b| && a[..k] == b[..k] && (k == |a| || a[k] < b[k]);
        if k > 0 {
          assert a[0] == a[..k][0] == b[..k][0] == b[0];
          assert a[1..][..k - 1] == a[..k][1..];
          assert b[1..][..k - 1] == b[..k][1..];
          assert k - 1 == |a[1..]| || a[1..][k - 1] < b[1..][k - 1];
        }
      }
    } else if a == [] && b != [] {
      assert a[..0] == b[..0];
    }
  }

  /** A proper prefix (Dafny's `<` on sequences) is below in Python's order too. */
  lemma {:induction false} ProperPrefixIsStrLt(a: string, b: string)
    requires a < b
    ensures StrLt(a, b)
  {
    if a != [] {
      assert a[1..] < b[1..] by { assert a[1..] == b[1..][..|a| - 1]; }
      ProperPrefixIsStrLt(a[1..], b[1..]);
    }
  }

  lemma {:induction false} StrLtIrreflexive(a: string)
    ensures !StrLt(a, a)
  {
    if a != [] { StrLtIrreflexive(a[1..]); }
  }

  lemma {:induction false} StrLtTransitive(a: string, b: string, c: string)
    requires StrLt(a, b) && StrLt(b, c)
    ensures StrLt(a, c)
    decreases |a|
  {
    if a != [] && b != [] && c != [] && a[0] == b[0] == c[0] {
      StrLtTransitive(a[1..], b[1..], c[1..]);
    }
  }

  /** Two different strings are always ordered one way or the other. */
  lemma {:induction false} StrLtTotal(a: string, b: string)
    requires a != b
    ensures StrLt(a, b) || StrLt(b, a)
    decreases |a|
  {
    if a != [] && b != [] && a[0] == b[0] {
      assert a == [a[0]] + a[1..] && b == [b[0]] + b[1..];
      StrLtTotal(a[1..], b[1..]);
    }
  }
}
