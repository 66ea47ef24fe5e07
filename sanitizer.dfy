/**
 * The two regular-expression passes of `read_plain_text`: deletion of a
 * fixed blacklist of code points, then rewriting of `\r\n?` to `\n`.
 */
module Sanitizer {
  import opened Unicode

  /**
   * The character class of the deleting regex: C0 controls except TAB, LF
   * and CR, DEL and the C1 controls, the non-characters U+FFFE and U+FFFF,
   * and all surrogates.  The class lists the C0 ranges twice (once with
   * `\x` escapes and once with `\u` escapes); the union is the same.
   */
  predicate IsBlacklisted(c: int)
  {
    || (0x00 <= c <= 0x08) || c == 0x0B || c == 0x0C || (0x0E <= c <= 0x1F)
    || (0x7F <= c <= 0x9F)
    || c == 0xFFFE || c == 0xFFFF
    || (0xD800 <= c <= 0xDFFF)
  }

  predicate NoBlacklisted(t: Text)
  {
    forall k :: 0 <= k < |t| ==> !IsBlacklisted(t[k])
  }

  predicate NoCR(t: Text)
  {
    forall k :: 0 <= k < |t| ==> t[k] != CR
  }

  /** One pass of the deleting regex: every blacklisted code point is removed. */
  function Sanitize(t: Text): (r: Text)
    ensures |r| <= |t|
    ensures NoBlacklisted(r)
  {
    if t == [] then []
    else
      (if IsBlacklisted(t[0]) then [] else [t[0]]) + Sanitize(t[1..])
  }

  /** Deletion works piecewise. */
  lemma {:induction false} SanitizeAppend(a: Text, b: Text)
    ensures Sanitize(a + b) == Sanitize(a) + Sanitize(b)
  {
    if a == [] {
      assert a + b == b;
    } else {
      var head := if IsBlacklisted(a[0]) then [] else [a[0]];
      assert (a + b)[0] == a[0];
      assert (a + b)[1..] == a[1..] + b;
      SanitizeAppend(a[1..], b);
      calc {
        Sanitize(a + b);
        head + Sanitize(a[1..] + b);
        head + (Sanitize(a[1..]) + Sanitize(b));
        (head + Sanitize(a[1..])) + Sanitize(b);
        Sanitize(a) + Sanitize(b);
      }
    }
  }

  lemma SanitizeSingle(c: int)
    ensures Sanitize([c]) == if IsBlacklisted(c) then [] else [c]
  {
    assert [c][1..] == [];
  }

  /**
   * Sanitising is a filter: a code point outside the blacklist (TAB, LF and
   * CR among them) stays where it is, between what its left and right
   * neighbourhoods sanitise to; a blacklisted one disappears.
   */
  lemma SanitizeIsFilter(a: Text, c: int, b: Text)
    ensures !IsBlacklisted(c) ==> Sanitize(a + [c] + b) == Sanitize(a) + [c] + Sanitize(b)
    ensures IsBlacklisted(c) ==> Sanitize(a + [c] + b) == Sanitize(a) + Sanitize(b)
  {
    SanitizeAppend(a + [c], b);
    SanitizeAppend(a, [c]);
    SanitizeSingle(c);
    var mid := Sanitize([c]);
    assert Sanitize(a + [c] + b) == Sanitize(a) + mid + Sanitize(b);
  }

  /** TAB, LF and CR are not blacklisted, so they survive sanitising. */
  lemma LineControlsKept()
    ensures !IsBlacklisted(TAB) && !IsBlacklisted(LF) && !IsBlacklisted(CR)
  {
  }

  /** Every code point outside the blacklist occurs as often after sanitising as before. */
  lemma {:induction false} SanitizeCounts(t: Text, c: int)
    requires !IsBlacklisted(c)
    ensures multiset(Sanitize(t))[c] == multiset(t)[c]
  {
    if t != [] {
      assert t == [t[0]] + t[1..];
      SanitizeCounts(t[1..], c);
    }
  }

  /** Text without blacklisted code points is left as it is. */
  lemma {:induction false} SanitizeClean(t: Text)
    requires NoBlacklisted(t)
    ensures Sanitize(t) == t
  {
    if t != [] {
      assert !IsBlacklisted(t[0]);
      SanitizeClean(t[1..]);
    }
  }

  lemma SanitizeIdempotent(t: Text)
    ensures Sanitize(Sanitize(t)) == Sanitize(t)
  {
    SanitizeClean(Sanitize(t));
  }

  /** The second regex: each CRLF, and each CR not followed by LF, becomes one LF. */
  function NormalizeNewlines(t: Text): (r: Text)
    ensures |r| <= |t|
    ensures NoCR(r)
    ensures forall k :: 0 <= k < |r| ==> r[k] == LF || r[k] in t
  {
    if t == [] then []
    else if t[0] == CR then
      if |t| >= 2 && t[1] == LF then [LF] + NormalizeNewlines(t[2..])
      else [LF] + NormalizeNewlines(t[1..])
    else [t[0]] + NormalizeNewlines(t[1..])
  }

  /** Normalising introduces nothing blacklisted, since LF is not. */
  lemma NormalizeKeepsClean(t: Text)
    requires NoBlacklisted(t)
    ensures NoBlacklisted(NormalizeNewlines(t))
  {
    var r := NormalizeNewlines(t);
    forall k | 0 <= k < |r| ensures !IsBlacklisted(r[k]) {
      if r[k] != LF {
        var j :| 0 <= j < |t| && t[j] == r[k];
      }
    }
  }

  /** Text without CR is left as it is, so normalising twice is normalising once. */
  lemma {:induction false} NormalizeWithoutCR(t: Text)
    requires NoCR(t)
    ensures NormalizeNewlines(t) == t
  {
    if t != [] {
      assert t[0] != CR;
      NormalizeWithoutCR(t[1..]);
    }
  }

  lemma NormalizeIdempotent(t: Text)
    ensures NormalizeNewlines(NormalizeNewlines(t)) == NormalizeNewlines(t)
  {
    NormalizeWithoutCR(NormalizeNewlines(t));
  }

  /**
   * The rewrite is local: two pieces normalise separately unless the first
   * ends with CR and the second starts with LF, which is the one place a
   * CRLF pair could be cut in two.
   */
  lemma {:induction false} NormalizeAppend(x: Text, y: Text)
    requires !(x != [] && x[|x| - 1] == CR && y != [] && y[0] == LF)
    ensures NormalizeNewlines(x + y) == NormalizeNewlines(x) + NormalizeNewlines(y)
    decreases |x|
  {
    var xy := x + y;
    if x == [] {
      assert xy == y;
    } else {
      var n := if x[0] == CR && |x| >= 2 && x[1] == LF then 2 else 1;
      var head: Text := if x[0] == CR then [LF] else [x[0]];
      var rest := x[n..];
      assert xy[0] == x[0];
      assert xy[n..] == rest + y;
      if n == 2 {
        assert xy[1] == LF;
      } else if x[0] == CR {
        assert |xy| < 2 || xy[1] != LF;
      }
      assert NormalizeNewlines(xy) == head + NormalizeNewlines(rest + y);
      assert NormalizeNewlines(x) == head + NormalizeNewlines(rest);
      assert rest != [] ==> rest[|rest| - 1] == x[|x| - 1];
      NormalizeAppend(rest, y);
      AppendAssoc(head, NormalizeNewlines(rest), NormalizeNewlines(y));
    }
  }

  /** Each CRLF, wherever it stands, becomes one LF in its place. */
  lemma CrLfBecomesLF(a: Text, b: Text)
    ensures NormalizeNewlines(a + [CR, LF] + b) == NormalizeNewlines(a) + [LF] + NormalizeNewlines(b)
  {
    var tail := [CR, LF] + b;
    assert a + [CR, LF] + b == a + tail;
    NormalizeAppend(a, tail);
    assert tail[0] == CR && tail[1] == LF && tail[2..] == b;
    assert NormalizeNewlines(tail) == [LF] + NormalizeNewlines(b);
    AppendAssoc(NormalizeNewlines(a), [LF], NormalizeNewlines(b));
  }

  /** Each CR not followed by LF becomes one LF in its place. */
  lemma LoneCRBecomesLF(a: Text, b: Text)
    requires b == [] || b[0] != LF
    ensures NormalizeNewlines(a + [CR] + b) == NormalizeNewlines(a) + [LF] + NormalizeNewlines(b)
  {
    var tail := [CR] + b;
    assert a + [CR] + b == a + tail;
    NormalizeAppend(a, tail);
    assert tail[0] == CR && tail[1..] == b && (|tail| < 2 || tail[1] != LF);
    assert NormalizeNewlines(tail) == [LF] + NormalizeNewlines(b);
    AppendAssoc(NormalizeNewlines(a), [LF], NormalizeNewlines(b));
  }

  /** Any other code point stays in its place; an LF does too unless it ends a CRLF. */
  lemma OtherCodePointKept(a: Text, c: int, b: Text)
    requires c != CR
    requires c == LF ==> a == [] || a[|a| - 1] != CR
    ensures NormalizeNewlines(a + [c] + b) == NormalizeNewlines(a) + [c] + NormalizeNewlines(b)
  {
    var tail := [c] + b;
    assert a + [c] + b == a + tail;
    NormalizeAppend(a, tail);
    assert tail[0] == c && tail[1..] == b;
    assert NormalizeNewlines(tail) == [c] + NormalizeNewlines(b);
    AppendAssoc(NormalizeNewlines(a), [c], NormalizeNewlines(b));
  }

  /** `t` with every CR and LF removed. */
  function WithoutBreaks(t: Text): (r: Text)
    ensures |r| <= |t|
  {
    if t == [] then []
    else (if t[0] == CR || t[0] == LF then [] else [t[0]]) + WithoutBreaks(t[1..])
  }

  /** How many CR are immediately followed by LF. */
  function CrLfPairs(t: Text): nat
  {
    if |t| < 2 then 0 else (if t[0] == CR && t[1] == LF then 1 else 0) + CrLfPairs(t[1..])
  }

  /**
   * Everything other than line terminators is unchanged and in order, and
   * the number of LF afterwards is the number of line terminators before:
   * each LF, each CR, less one for each CRLF pair.
   */
  lemma {:induction false} NormalizeNewlinesMeaning(t: Text)
    ensures WithoutBreaks(NormalizeNewlines(t)) == WithoutBreaks(t)
    ensures Occurrences(NormalizeNewlines(t), LF)
         == Occurrences(t, LF) + Occurrences(t, CR) - CrLfPairs(t)
    ensures CrLfPairs(t) <= Occurrences(t, CR)
    decreases |t|
  {
    if t != [] {
      var r := NormalizeNewlines(t);
      if t[0] == CR && |t| >= 2 && t[1] == LF {
        NormalizeNewlinesMeaning(t[2..]);
        assert r[1..] == NormalizeNewlines(t[2..]);
        assert t[1..][1..] == t[2..];
        assert WithoutBreaks(t[1..]) == WithoutBreaks(t[2..]);
        assert Occurrences(t[1..], LF) == 1 + Occurrences(t[2..], LF);
        assert Occurrences(t[1..], CR) == Occurrences(t[2..], CR);
        assert CrLfPairs(t[1..]) == CrLfPairs(t[2..]) by {
          if |t| >= 3 { assert t[1..][0] == LF; }
        }
      } else {
        NormalizeNewlinesMeaning(t[1..]);
        assert r[1..] == NormalizeNewlines(t[1..]);
        if t[0] == CR {
          assert CrLfPairs(t) == CrLfPairs(t[1..]);
        }
      }
    }
  }

  /** Sanitising first matters: a control code between CR and LF goes before the collapse. */
  lemma SanitizeBeforeNormalize()
    ensures NormalizeNewlines(Sanitize([CR, 0x0B, LF])) == [LF]
    ensures Sanitize(NormalizeNewlines([CR, 0x0B, LF])) == [LF, LF]
  {
    SanitizeIsFilter([CR], 0x0B, [LF]);
    SanitizeSingle(CR);
    SanitizeSingle(LF);
    assert [CR] + [0x0B] + [LF] == [CR, 0x0B, LF];
    assert Sanitize([CR, 0x0B, LF]) == [CR, LF];
    assert [CR, LF][2..] == [];
    assert NormalizeNewlines([CR, 0x0B, LF]) == [LF, 0x0B, LF] by {
      assert [LF][1..] == [];
      assert NormalizeNewlines([LF]) == [LF];
      assert [0x0B, LF][1..] == [LF];
      assert NormalizeNewlines([0x0B, LF]) == [0x0B, LF];
      assert [CR, 0x0B, LF][1..] == [0x0B, LF];
    }
    SanitizeIsFilter([LF], 0x0B, [LF]);
    assert [LF] + [0x0B] + [LF] == [LF, 0x0B, LF];
  }
}
