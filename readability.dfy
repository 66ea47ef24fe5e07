/**
 * `is_readable`: the share of printable code points (whitespace, or major
 * class L, N, P or S) compared against a threshold.  The threshold is an
 * exact real, and out-of-range thresholds are accepted as they are.
 */
module Readability {
  import opened Unicode

  /** The threshold `is_readable` uses when none is given. */
  const ReadableDefaultThreshold: real := 0.8

  /** Whitespace counts as printable whatever its category (TAB is Cc, for one). */
  predicate IsPrintable(c: int, ucd: CategoryTable)
  {
    IsSpace(c) || IsLNPS(ucd(c))
  }

  /** The number of printable code points of `s`, counted from the left. */
  function PrintableCount(s: Text, ucd: CategoryTable): (n: nat)
    ensures n <= |s|
  {
    if s == [] then 0
    else PrintableCount(s[..|s| - 1], ucd) + (if IsPrintable(s[|s| - 1], ucd) then 1 else 0)
  }

  /** The readability score, defined only for non-empty text. */
  function Score(s: Text, ucd: CategoryTable): (score: real)
    requires s != []
    ensures 0.0 <= score <= 1.0
  {
    var n, m := PrintableCount(s, ucd) as real, |s| as real;
    assert n / m <= 1.0 by { assert n <= m; }
    n / m
  }

  /** What `is_readable(s, threshold)` returns. */
  predicate Readable(s: Text, threshold: real, ucd: CategoryTable)
  {
    s != [] && Score(s, ucd) >= threshold
  }

  /** The counting loop of `is_readable`. */
  method IsReadable(text: Text, threshold: real, ucd: CategoryTable) returns (ok: bool)
    ensures ok <==> text != [] && (PrintableCount(text, ucd) as real) / (|text| as real) >= threshold
    ensures ok == Readable(text, threshold, ucd)
  {
    if text == [] {
      return false;
    }
    var printable := 0;
    for i := 0 to |text|
      invariant printable == PrintableCount(text[..i], ucd)
    {
      assert text[..i + 1][..i] == text[..i];
      if IsSpace(text[i]) || IsLNPS(ucd(text[i])) {
        printable := printable + 1;
      }
    }
    assert text[..|text|] == text;
    ok := (printable as real) / (|text| as real) >= threshold;
  }

  lemma EmptyIsNeverReadable(threshold: real, ucd: CategoryTable)
    ensures !Readable([], threshold, ucd)
  {
  }

  /** Lowering the threshold never rejects text that was accepted. */
  lemma ReadableMonotone(s: Text, t1: real, t2: real, ucd: CategoryTable)
    requires t1 <= t2
    ensures Readable(s, t2, ucd) ==> Readable(s, t1, ucd)
  {
  }

  /** Non-empty text is accepted at every threshold up to 0 and rejected at every threshold above 1. */
  lemma ReadableOutsideUnitRange(s: Text, threshold: real, ucd: CategoryTable)
    requires s != []
    ensures threshold <= 0.0 ==> Readable(s, threshold, ucd)
    ensures threshold > 1.0 ==> !Readable(s, threshold, ucd)
  {
  }

  /** The count is full exactly when every code point is printable. */
  lemma {:induction false} FullCountIffAllPrintable(s: Text, ucd: CategoryTable)
    ensures PrintableCount(s, ucd) == |s| <==> forall k :: 0 <= k < |s| ==> IsPrintable(s[k], ucd)
  {
    if s != [] {
      var init := s[..|s| - 1];
      FullCountIffAllPrintable(init, ucd);
      assert forall k :: 0 <= k < |init| ==> init[k] == s[k];
      if PrintableCount(s, ucd) == |s| {
        assert PrintableCount(init, ucd) == |init| && IsPrintable(s[|s| - 1], ucd);
        forall k | 0 <= k < |s| ensures IsPrintable(s[k], ucd) {
          if k < |init| { assert IsPrintable(init[k], ucd); }
        }
      }
    }
  }

  /** At threshold 1, text is accepted exactly when it is non-empty and all of it is printable. */
  lemma ReadableAtOne(s: Text, ucd: CategoryTable)
    ensures Readable(s, 1.0, ucd) <==> s != [] && forall k :: 0 <= k < |s| ==> IsPrintable(s[k], ucd)
  {
    FullCountIffAllPrintable(s, ucd);
    if s != [] {
      var n, m := PrintableCount(s, ucd) as real, |s| as real;
      assert n / m >= 1.0 <==> n == m by {
        assert n / m * m == n;
      }
    }
  }

  /** Whitespace is printable under every category table. */
  lemma WhitespaceIsPrintable(c: int, ucd: CategoryTable)
    requires IsSpace(c)
    ensures IsPrintable(c, ucd)
  {
  }

  lemma FourFifths(n: real, m: real)
    requires m > 0.0
    ensures n / m >= 0.8 <==> 5.0 * n >= 4.0 * m
  {
  }

  /** At `is_readable`'s default threshold, text is accepted exactly when at least four code points in five are printable. */
  lemma ReadableAtDefault(s: Text, ucd: CategoryTable)
    ensures Readable(s, ReadableDefaultThreshold, ucd) <==> s != [] && 5 * PrintableCount(s, ucd) >= 4 * |s|
  {
    if s != [] {
      var n, m := PrintableCount(s, ucd) as real, |s| as real;
      FourFifths(n, m);
      assert (5 * PrintableCount(s, ucd)) as real == 5.0 * n;
      assert (4 * |s|) as real == 4.0 * m;
    }
  }
}
