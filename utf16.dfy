/**
 * Python's `bytes.decode('utf-16le', errors='ignore')`.
 *
 * Bytes are paired little-endian into 16-bit code units; a high surrogate
 * followed by a low surrogate is combined as in section 2.2 of RFC 2781.
 * Every ill-formed piece is skipped and decoding resumes right after it, as
 * CPython's decoder does with the "ignore" handler:
 *  - a low surrogate on its own drops that one unit;
 *  - a high surrogate followed by a unit that is not a low surrogate drops
 *    the high surrogate only, and the following unit is decoded afresh;
 *  - a high surrogate with fewer than two bytes after it drops everything
 *    that is left;
 *  - a trailing odd byte is dropped.
 */
module Utf16 {
  import opened Unicode

  /** The 16-bit code unit stored little-endian in `lo`, `hi`. */
  function CodeUnit(lo: bv8, hi: bv8): (u: int)
    ensures 0 <= u < 0x10000
  {
    lo as int + 0x100 * hi as int
  }

  /** Section 2.2 of RFC 2781: the scalar value a surrogate pair stands for. */
  function CombineSurrogates(high: int, low: int): (c: int)
    requires IsHighSurrogate(high) && IsLowSurrogate(low)
    ensures 0x10000 <= c <= 0x10FFFF
  {
    0x10000 + (high - 0xD800) * 0x400 + (low - 0xDC00)
  }

  function Decode(b: seq<bv8>): (r: Text)
    ensures forall k :: 0 <= k < |r| ==> IsScalarValue(r[k])
    ensures |r| <= |b| / 2
    decreases |b|
  {
    if |b| < 2 then []
    else
      var u := CodeUnit(b[0], b[1]);
      if !IsSurrogate(u) then [u] + Decode(b[2..])
      else if IsLowSurrogate(u) then Decode(b[2..])
      else if |b| < 4 then []
      else
        var u2 := CodeUnit(b[2], b[3]);
        if IsLowSurrogate(u2) then [CombineSurrogates(u, u2)] + Decode(b[4..])
        else Decode(b[2..])
  }

  // ---------- the UTF-16LE encoding of scalar values ----------

  /** The surrogate pair of a supplementary code point (section 2.1 of RFC 2781). */
  function HighSurrogateOf(c: int): (h: int)
    requires 0x10000 <= c <= 0x10FFFF
    ensures IsHighSurrogate(h)
  {
    0xD800 + (c - 0x10000) / 0x400
  }

  function LowSurrogateOf(c: int): (l: int)
    requires 0x10000 <= c <= 0x10FFFF
    ensures IsLowSurrogate(l)
  {
    0xDC00 + (c - 0x10000) % 0x400
  }

  lemma CombineSplit(c: int)
    requires 0x10000 <= c <= 0x10FFFF
    ensures CombineSurrogates(HighSurrogateOf(c), LowSurrogateOf(c)) == c
  {
  }

  /**
   * `b` is the UTF-16LE encoding of the scalar values `s`: one code unit for
   * a code point below U+10000, a surrogate pair for one above.
   */
  predicate Encodes(b: seq<bv8>, s: Text)
    decreases |s|
  {
    if s == [] then b == []
    else
      && IsScalarValue(s[0])
      && if s[0] < 0x10000 then
           |b| >= 2 && CodeUnit(b[0], b[1]) == s[0] && Encodes(b[2..], s[1..])
         else
           && |b| >= 4
           && CodeUnit(b[0], b[1]) == HighSurrogateOf(s[0])
           && CodeUnit(b[2], b[3]) == LowSurrogateOf(s[0])
           && Encodes(b[4..], s[1..])
  }

  /** One code unit outside the surrogate range decodes to itself. */
  lemma DecodeUnit(b: seq<bv8>)
    requires |b| >= 2 && !IsSurrogate(CodeUnit(b[0], b[1]))
    ensures Decode(b) == [CodeUnit(b[0], b[1])] + Decode(b[2..])
  {
  }

  /** A high surrogate followed by a low one decodes to the code point they encode. */
  lemma DecodePair(b: seq<bv8>)
    requires |b| >= 4
    requires IsHighSurrogate(CodeUnit(b[0], b[1])) && IsLowSurrogate(CodeUnit(b[2], b[3]))
    ensures Decode(b) == [CombineSurrogates(CodeUnit(b[0], b[1]), CodeUnit(b[2], b[3]))] + Decode(b[4..])
  {
  }

  /** The first scalar value of well-formed text decodes first, whatever follows. */
  lemma DecodeEncodedStep(b: seq<bv8>, s: Text, rest: seq<bv8>, n: nat)
    requires s != [] && Encodes(b, s) && n == (if s[0] < 0x10000 then 2 else 4)
    ensures n <= |b| && Encodes(b[n..], s[1..])
    ensures Decode(b + rest) == [s[0]] + Decode(b[n..] + rest)
  {
    var all := b + rest;
    assert all[n..] == b[n..] + rest;
    if s[0] < 0x10000 {
      assert all[0] == b[0] && all[1] == b[1];
      DecodeUnit(all);
    } else {
      assert all[0] == b[0] && all[1] == b[1] && all[2] == b[2] && all[3] == b[3];
      CombineSplit(s[0]);
      DecodePair(all);
    }
  }

  /**
   * Well-formed text decodes to what it encodes, whatever follows it: the
   * decoder never lets later bytes change what came before.
   */
  lemma {:induction false} DecodeEncodedPrefix(b: seq<bv8>, s: Text, rest: seq<bv8>)
    requires Encodes(b, s)
    ensures Decode(b + rest) == s + Decode(rest)
    decreases |s|
  {
    if s == [] {
      assert b + rest == rest;
    } else {
      var n := if s[0] < 0x10000 then 2 else 4;
      DecodeEncodedStep(b, s, rest, n);
      DecodeEncodedPrefix(b[n..], s[1..], rest);
      assert [s[0]] + (s[1..] + Decode(rest)) == ([s[0]] + s[1..]) + Decode(rest);
      assert [s[0]] + s[1..] == s;
    }
  }

  /** The decoder inverts the encoder on every sequence of scalar values. */
  lemma DecodeEncoded(b: seq<bv8>, s: Text)
    requires Encodes(b, s)
    ensures Decode(b) == s
  {
    DecodeEncodedPrefix(b, s, []);
    assert b + [] == b;
    assert s + Decode([]) == s;
  }

  /** A low surrogate on its own is skipped. */
  lemma LoneLowSurrogateDropped(unit: seq<bv8>, rest: seq<bv8>)
    requires |unit| == 2 && IsLowSurrogate(CodeUnit(unit[0], unit[1]))
    ensures Decode(unit + rest) == Decode(rest)
  {
    assert (unit + rest)[2..] == rest;
  }

  /** A high surrogate not followed by a low one is skipped; the next unit is decoded afresh. */
  lemma UnpairedHighSurrogateDropped(high: seq<bv8>, next: seq<bv8>, rest: seq<bv8>)
    requires |high| == 2 && IsHighSurrogate(CodeUnit(high[0], high[1]))
    requires |next| == 2 && !IsLowSurrogate(CodeUnit(next[0], next[1]))
    ensures Decode(high + next + rest) == Decode(next + rest)
  {
    var b := high + next + rest;
    assert b[0] == high[0] && b[1] == high[1] && b[2] == next[0] && b[3] == next[1];
    assert b[2..] == next + rest;
  }

  /** A high surrogate at the end of the data is skipped, and so is an odd byte after it. */
  lemma HighSurrogateAtEndDropped(high: seq<bv8>, tail: seq<bv8>)
    requires |high| == 2 && IsHighSurrogate(CodeUnit(high[0], high[1])) && |tail| < 2
    ensures Decode(high + tail) == []
  {
    var b := high + tail;
    assert b[0] == high[0] && b[1] == high[1];
  }

  /** A trailing odd byte never contributes anything. */
  lemma {:induction false} TrailingOddByteDropped(b: seq<bv8>, x: bv8)
    requires |b| % 2 == 0
    ensures Decode(b + [x]) == Decode(b)
    decreases |b|
  {
    var bx := b + [x];
    if |b| >= 2 {
      assert bx[0] == b[0] && bx[1] == b[1];
      assert bx[2..] == b[2..] + [x];
      TrailingOddByteDropped(b[2..], x);
      if |b| >= 4 {
        assert bx[2] == b[2] && bx[3] == b[3];
        assert bx[4..] == b[4..] + [x];
        TrailingOddByteDropped(b[4..], x);
      }
    }
  }
}
