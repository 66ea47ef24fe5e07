/**
 * Paragraph segmentation shared by both converters:
 * `filter(None, text.split('\n'))`, then `strip()` each piece and keep it
 * when it is non-empty and readable.
 */
module Segmenter {
  import opened Unicode
  import opened Readability

  // ---------- str.split('\n') and its inverse ----------

  /** `t.split('\n')`: always one piece more than there are LFs. */
  function Split(t: Text): (pieces: seq<Text>)
    ensures |pieces| == Occurrences(t, LF) + 1
  {
    if t == [] then [[]]
    else
      var rest := Split(t[1..]);
      if t[0] == LF then [[]] + rest
      else [[t[0]] + rest[0]] + rest[1..]
  }

  /** No piece of the split contains LF. */
  lemma {:induction false} SplitPiecesHaveNoLF(t: Text)
    ensures forall k :: 0 <= k < |Split(t)| ==> LF !in Split(t)[k]
  {
    if t != [] {
      var rest := Split(t[1..]);
      SplitPiecesHaveNoLF(t[1..]);
      if t[0] != LF {
        var pieces := Split(t);
        assert pieces[0] == [t[0]] + rest[0];
        assert forall k :: 1 <= k < |pieces| ==> pieces[k] == rest[k];
      }
    }
  }

  /** `'\n'.join(pieces)`. */
  function Join(pieces: seq<Text>): Text
  {
    if pieces == [] then []
    else if |pieces| == 1 then pieces[0]
    else pieces[0] + ([LF] + Join(pieces[1..]))
  }

  lemma JoinCons(p: Text, ps: seq<Text>)
    requires ps != []
    ensures Join([p] + ps) == p + ([LF] + Join(ps))
  {
    assert ([p] + ps)[1..] == ps;
  }

  lemma JoinPrepend(x: Text, ps: seq<Text>)
    requires ps != []
    ensures Join([x + ps[0]] + ps[1..]) == x + Join(ps)
  {
    if |ps| > 1 {
      var p, j := ps[0], Join(ps[1..]);
      JoinCons(x + p, ps[1..]);
      JoinCons(p, ps[1..]);
      assert [p] + ps[1..] == ps;
      AppendAssoc(x, p, [LF] + j);
    }
  }

  lemma {:induction false} JoinSplit(t: Text)
    ensures Join(Split(t)) == t
  {
    if t != [] {
      var rest := Split(t[1..]);
      JoinSplit(t[1..]);
      if t[0] == LF {
        assert ([[]] + rest)[1..] == rest;
        assert Join(Split(t)) == [] + ([LF] + t[1..]);
      } else {
        JoinPrepend([t[0]], rest);
      }
      assert t == [t[0]] + t[1..];
    }
  }

  /** A piece free of LF followed by LF is split off as it is. */
  lemma {:induction false} SplitAfterLine(x: Text, y: Text)
    requires LF !in x
    ensures Split(x + [LF] + y) == [x] + Split(y)
  {
    if x == [] {
      assert x + [LF] + y == [LF] + y;
      assert ([LF] + y)[1..] == y;
    } else {
      var t := x + [LF] + y;
      assert t[0] == x[0] && t[1..] == x[1..] + [LF] + y;
      SplitAfterLine(x[1..], y);
      assert [x[0]] + x[1..] == x;
    }
  }

  // ---------- filter(None, ...) ----------

  /** The pieces that are not empty, in order. */
  function DropEmpty(pieces: seq<Text>): (r: seq<Text>)
    ensures |r| <= |pieces|
  {
    if pieces == [] then []
    else (if pieces[0] == [] then [] else [pieces[0]]) + DropEmpty(pieces[1..])
  }

  /** What the filter keeps is non-empty and comes from its input. */
  lemma {:induction false} DropEmptyMembers(pieces: seq<Text>)
    ensures forall k :: 0 <= k < |DropEmpty(pieces)| ==>
      DropEmpty(pieces)[k] != [] && DropEmpty(pieces)[k] in pieces
  {
    if pieces != [] {
      DropEmptyMembers(pieces[1..]);
    }
  }

  lemma {:induction false} DropEmptyAppend(a: seq<Text>, b: seq<Text>)
    ensures DropEmpty(a + b) == DropEmpty(a) + DropEmpty(b)
  {
    if a == [] {
      assert a + b == b;
    } else {
      assert (a + b)[0] == a[0] && (a + b)[1..] == a[1..] + b;
      DropEmptyAppend(a[1..], b);
    }
  }

  // ---------- str.strip() ----------

  /** No whitespace at either end. */
  predicate IsStripped(p: Text)
  {
    p == [] || (!IsSpace(p[0]) && !IsSpace(p[|p| - 1]))
  }

  function TrimStart(s: Text): (r: Text)
    ensures |r| <= |s|
    ensures r != [] ==> !IsSpace(r[0])
  {
    if s != [] && IsSpace(s[0]) then TrimStart(s[1..]) else s
  }

  /** `TrimStart` removes a prefix that is all whitespace. */
  lemma {:induction false} TrimStartRemovesSpace(s: Text)
    ensures TrimStart(s) == s[|s| - |TrimStart(s)|..]
    ensures forall k :: 0 <= k < |s| - |TrimStart(s)| ==> IsSpace(s[k])
  {
    if s != [] && IsSpace(s[0]) {
      TrimStartRemovesSpace(s[1..]);
      assert forall k :: 1 <= k < |s| ==> s[k] == s[1..][k - 1];
    }
  }

  function TrimEnd(s: Text): (r: Text)
    ensures |r| <= |s|
    ensures r != [] ==> !IsSpace(r[|r| - 1])
  {
    if s != [] && IsSpace(s[|s| - 1]) then TrimEnd(s[..|s| - 1]) else s
  }

  /** `TrimEnd` removes a suffix that is all whitespace. */
  lemma {:induction false} TrimEndRemovesSpace(s: Text)
    ensures TrimEnd(s) == s[..|TrimEnd(s)|]
    ensures forall k :: |TrimEnd(s)| <= k < |s| ==> IsSpace(s[k])
  {
    if s != [] && IsSpace(s[|s| - 1]) {
      var s' := s[..|s| - 1];
      TrimEndRemovesSpace(s');
      assert forall k :: 0 <= k < |s'| ==> s[k] == s'[k];
      assert s'[..|TrimEnd(s')|] == s[..|TrimEnd(s')|];
    }
  }

  /** `s.strip()`: no whitespace is left at either end. */
  function Strip(s: Text): (r: Text)
    ensures IsStripped(r)
  {
    var front := TrimStart(s);
    TrimEndRemovesSpace(front);
    TrimEnd(front)
  }

  /** What `strip` removes is whitespace at the two ends, and what it keeps is the slice between. */
  lemma StripIsSlice(s: Text)
    ensures exists i, j ::
              && 0 <= i <= j <= |s| && Strip(s) == s[i..j]
              && (forall k :: 0 <= k < i ==> IsSpace(s[k]))
              && (forall k :: j <= k < |s| ==> IsSpace(s[k]))
  {
    var front := TrimStart(s);
    var r := TrimEnd(front);
    TrimStartRemovesSpace(s);
    TrimEndRemovesSpace(front);
    var i := |s| - |front|;
    assert r == s[i..i + |r|];
    assert forall k :: i + |r| <= k < |s| ==> s[k] == front[k - i];
  }

  /** `strip` leaves nothing exactly when the text is all whitespace. */
  lemma StripEmptyIffBlank(s: Text)
    ensures Strip(s) == [] <==> forall k :: 0 <= k < |s| ==> IsSpace(s[k])
  {
    var front := TrimStart(s);
    TrimStartRemovesSpace(s);
    TrimEndRemovesSpace(front);
    var i := |s| - |front|;
    var r := TrimEnd(front);
    if r != [] {
      assert r[0] == front[0];
      assert front[0] == s[i];
    }
  }

  /** Stripping only removes: a code point absent from `s` is absent from `strip(s)`. */
  lemma StripAvoids(s: Text, c: int)
    requires c !in s
    ensures c !in Strip(s)
  {
    StripIsSlice(s);
  }

  lemma StripStripped(p: Text)
    requires IsStripped(p)
    ensures Strip(p) == p
  {
  }

  // ---------- the kept paragraphs ----------

  /** The loop body's decision: strip the piece and keep it if non-empty and readable. */
  function Keep(pieces: seq<Text>, threshold: real, ucd: CategoryTable): (r: seq<Text>)
    ensures |r| <= |pieces|
  {
    if pieces == [] then []
    else
      var cleaned := Strip(pieces[0]);
      (if cleaned != [] && Readable(cleaned, threshold, ucd) then [cleaned] else [])
      + Keep(pieces[1..], threshold, ucd)
  }

  lemma {:induction false} KeepAppend(a: seq<Text>, b: seq<Text>, threshold: real, ucd: CategoryTable)
    ensures Keep(a + b, threshold, ucd) == Keep(a, threshold, ucd) + Keep(b, threshold, ucd)
  {
    if a == [] {
      assert a + b == b;
    } else {
      assert (a + b)[0] == a[0] && (a + b)[1..] == a[1..] + b;
      KeepAppend(a[1..], b, threshold, ucd);
      var cleaned := Strip(a[0]);
      var head: seq<Text> := if cleaned != [] && Readable(cleaned, threshold, ucd) then [cleaned] else [];
      AppendAssoc(head, Keep(a[1..], threshold, ucd), Keep(b, threshold, ucd));
    }
  }

  /** Every kept paragraph is non-empty, stripped and readable. */
  lemma {:induction false} KeptWellFormed(pieces: seq<Text>, threshold: real, ucd: CategoryTable)
    ensures forall k :: 0 <= k < |Keep(pieces, threshold, ucd)| ==>
      var p := Keep(pieces, threshold, ucd)[k];
      p != [] && IsStripped(p) && Readable(p, threshold, ucd)
  {
    if pieces != [] {
      KeptWellFormed(pieces[1..], threshold, ucd);
    }
  }

  /** A code point absent from every piece is absent from every kept paragraph. */
  lemma {:induction false} KeptAvoids(pieces: seq<Text>, c: int, threshold: real, ucd: CategoryTable)
    requires forall k :: 0 <= k < |pieces| ==> c !in pieces[k]
    ensures forall k :: 0 <= k < |Keep(pieces, threshold, ucd)| ==> c !in Keep(pieces, threshold, ucd)[k]
  {
    if pieces != [] {
      KeptAvoids(pieces[1..], c, threshold, ucd);
      StripAvoids(pieces[0], c);
    }
  }

  /** One more iteration of the loop: the piece at `i` is kept or not. */
  lemma KeepStep(pieces: seq<Text>, i: nat, threshold: real, ucd: CategoryTable)
    requires i < |pieces|
    ensures var cleaned := Strip(pieces[i]);
      Keep(pieces[..i + 1], threshold, ucd)
      == if cleaned != [] && Readable(cleaned, threshold, ucd)
         then Keep(pieces[..i], threshold, ucd) + [cleaned]
         else Keep(pieces[..i], threshold, ucd)
  {
    assert pieces[..i + 1] == pieces[..i] + [pieces[i]];
    KeepAppend(pieces[..i], [pieces[i]], threshold, ucd);
    assert [pieces[i]][1..] == [];
    var cleaned := Strip(pieces[i]);
    var before := Keep(pieces[..i], threshold, ucd);
    if cleaned != [] && Readable(cleaned, threshold, ucd) {
      assert Keep([pieces[i]], threshold, ucd) == [cleaned] + [];
      assert [cleaned] + [] == [cleaned];
    } else {
      assert Keep([pieces[i]], threshold, ucd) == [] + [];
      assert before + ([] + []) == before;
    }
  }

  /** The threshold both converters use when none is given. */
  const ConverterDefaultThreshold: real := 1.0

  /** The paragraphs both converters emit for `text`, in order. */
  function Paragraphs(text: Text, threshold: real, ucd: CategoryTable): (ps: seq<Text>)
    ensures |ps| <= Occurrences(text, LF) + 1
  {
    Keep(DropEmpty(Split(text)), threshold, ucd)
  }

  /** Every paragraph is one line, non-empty, stripped and readable. */
  lemma ParagraphsWellFormed(text: Text, threshold: real, ucd: CategoryTable)
    ensures forall p :: p in Paragraphs(text, threshold, ucd) ==>
      p != [] && LF !in p && IsStripped(p) && Readable(p, threshold, ucd)
  {
    var pieces := DropEmpty(Split(text));
    SplitPiecesHaveNoLF(text);
    DropEmptyMembers(Split(text));
    KeptAvoids(pieces, LF, threshold, ucd);
    KeptWellFormed(pieces, threshold, ucd);
    var ps := Keep(pieces, threshold, ucd);
    assert forall p :: p in ps ==> exists k :: 0 <= k < |ps| && ps[k] == p;
  }

  // ---------- order: the kept paragraphs are a subsequence of the stripped pieces ----------

  predicate IsSubsequence<T(==)>(a: seq<T>, b: seq<T>)
    decreases |b|
  {
    if a == [] then true
    else if b == [] then false
    else (a[0] == b[0] && IsSubsequence(a[1..], b[1..])) || IsSubsequence(a, b[1..])
  }

  function StripAll(pieces: seq<Text>): (r: seq<Text>)
    ensures |r| == |pieces|
  {
    if pieces == [] then [] else [Strip(pieces[0])] + StripAll(pieces[1..])
  }

  lemma SubsequenceCons<T>(x: T, a: seq<T>, b: seq<T>)
    requires IsSubsequence(a, b)
    ensures IsSubsequence([x] + a, [x] + b)
  {
    assert ([x] + a)[1..] == a && ([x] + b)[1..] == b;
  }

  lemma SubsequenceSkip<T>(x: T, a: seq<T>, b: seq<T>)
    requires IsSubsequence(a, b)
    ensures IsSubsequence(a, [x] + b)
  {
    assert ([x] + b)[1..] == b;
  }

  /** What the first piece contributes and what the rest does. */
  lemma KeepDropEmptyCons(pieces: seq<Text>, threshold: real, ucd: CategoryTable)
    requires pieces != []
    ensures var cleaned := Strip(pieces[0]);
      Keep(DropEmpty(pieces), threshold, ucd)
      == (if pieces[0] != [] && cleaned != [] && Readable(cleaned, threshold, ucd) then [cleaned] else [])
         + Keep(DropEmpty(pieces[1..]), threshold, ucd)
  {
    var x := pieces[0];
    var head := if x == [] then [] else [x];
    assert DropEmpty(pieces) == head + DropEmpty(pieces[1..]);
    KeepAppend(head, DropEmpty(pieces[1..]), threshold, ucd);
    assert [x][1..] == [];
  }

  lemma {:induction false} KeptInOrder(pieces: seq<Text>, threshold: real, ucd: CategoryTable)
    ensures IsSubsequence(Keep(DropEmpty(pieces), threshold, ucd), StripAll(pieces))
  {
    if pieces != [] {
      var x, tail := pieces[0], pieces[1..];
      var rest := Keep(DropEmpty(tail), threshold, ucd);
      var strips := StripAll(tail);
      KeptInOrder(tail, threshold, ucd);
      assert StripAll(pieces) == [Strip(x)] + strips;
      KeepDropEmptyCons(pieces, threshold, ucd);
      var kept := Keep(DropEmpty(pieces), threshold, ucd);
      if x != [] && Strip(x) != [] && Readable(Strip(x), threshold, ucd) {
        assert kept == [Strip(x)] + rest;
        SubsequenceCons(Strip(x), rest, strips);
      } else {
        assert kept == rest;
        SubsequenceSkip(Strip(x), rest, strips);
      }
    }
  }

  /** The kept paragraphs are, in order, a subsequence of the stripped LF-separated segments. */
  lemma ParagraphsInOrder(text: Text, threshold: real, ucd: CategoryTable)
    ensures IsSubsequence(Paragraphs(text, threshold, ucd), StripAll(Split(text)))
  {
    KeptInOrder(Split(text), threshold, ucd);
  }

  /** Every segment that strips to readable text is kept. */
  lemma {:induction false} ReadableSegmentsKept(pieces: seq<Text>, k: nat, threshold: real, ucd: CategoryTable)
    requires k < |pieces|
    requires Strip(pieces[k]) != [] && Readable(Strip(pieces[k]), threshold, ucd)
    ensures Strip(pieces[k]) in Keep(DropEmpty(pieces), threshold, ucd)
  {
    var cleaned := Strip(pieces[0]);
    assert pieces == [pieces[0]] + pieces[1..];
    DropEmptyAppend([pieces[0]], pieces[1..]);
    KeepAppend(DropEmpty([pieces[0]]), DropEmpty(pieces[1..]), threshold, ucd);
    if k == 0 {
      assert pieces[0] != [];
      assert DropEmpty([pieces[0]]) == [pieces[0]];
      assert Keep([pieces[0]], threshold, ucd) == [cleaned];
    } else {
      assert pieces[1..][k - 1] == pieces[k];
      ReadableSegmentsKept(pieces[1..], k - 1, threshold, ucd);
    }
  }

  /** Segmenting works line by line. */
  lemma KeepDropEmptyAppend(a: seq<Text>, b: seq<Text>, threshold: real, ucd: CategoryTable)
    ensures Keep(DropEmpty(a + b), threshold, ucd)
         == Keep(DropEmpty(a), threshold, ucd) + Keep(DropEmpty(b), threshold, ucd)
  {
    DropEmptyAppend(a, b);
    KeepAppend(DropEmpty(a), DropEmpty(b), threshold, ucd);
  }

  lemma BlankLineContributesNothing(line: Text, threshold: real, ucd: CategoryTable)
    requires forall k :: 0 <= k < |line| ==> IsSpace(line[k])
    ensures Keep(DropEmpty([line]), threshold, ucd) == []
  {
    KeepDropEmptyCons([line], threshold, ucd);
    assert [line][1..] == [];
    StripEmptyIffBlank(line);
  }

  /** A line that is empty or all whitespace never produces a paragraph. */
  lemma BlankLineDropped(before: seq<Text>, line: Text, after: seq<Text>, threshold: real, ucd: CategoryTable)
    requires forall k :: 0 <= k < |line| ==> IsSpace(line[k])
    ensures Keep(DropEmpty(before + [line] + after), threshold, ucd)
         == Keep(DropEmpty(before + after), threshold, ucd)
  {
    KeepDropEmptyAppend(before + [line], after, threshold, ucd);
    KeepDropEmptyAppend(before, [line], threshold, ucd);
    KeepDropEmptyAppend(before, after, threshold, ucd);
    BlankLineContributesNothing(line, threshold, ucd);
    var kb := Keep(DropEmpty(before), threshold, ucd);
    assert kb + [] == kb;
  }

  /** A stricter threshold keeps a subsequence of what a laxer one keeps. */
  lemma {:induction false} StricterKeepsFewer(pieces: seq<Text>, t1: real, t2: real, ucd: CategoryTable)
    requires t1 <= t2
    ensures IsSubsequence(Keep(pieces, t2, ucd), Keep(pieces, t1, ucd))
  {
    if pieces != [] {
      var cleaned := Strip(pieces[0]);
      var lax, strict := Keep(pieces[1..], t1, ucd), Keep(pieces[1..], t2, ucd);
      StricterKeepsFewer(pieces[1..], t1, t2, ucd);
      ReadableMonotone(cleaned, t1, t2, ucd);
      if cleaned != [] && Readable(cleaned, t2, ucd) {
        assert Keep(pieces, t2, ucd) == [cleaned] + strict;
        assert Keep(pieces, t1, ucd) == [cleaned] + lax;
        SubsequenceCons(cleaned, strict, lax);
      } else if cleaned != [] && Readable(cleaned, t1, ucd) {
        assert Keep(pieces, t2, ucd) == strict;
        assert Keep(pieces, t1, ucd) == [cleaned] + lax;
        SubsequenceSkip(cleaned, strict, lax);
      } else {
        assert Keep(pieces, t2, ucd) == strict;
        assert Keep(pieces, t1, ucd) == lax;
      }
    }
  }

  /** At the converters' default threshold only text that is printable throughout is kept. */
  lemma DefaultKeepsOnlyPrintable(text: Text, ucd: CategoryTable)
    ensures forall p :: p in Paragraphs(text, ConverterDefaultThreshold, ucd) ==>
      forall k :: 0 <= k < |p| ==> IsPrintable(p[k], ucd)
  {
    ParagraphsWellFormed(text, ConverterDefaultThreshold, ucd);
    forall p | p in Paragraphs(text, ConverterDefaultThreshold, ucd) {
      ReadableAtOne(p, ucd);
    }
  }
}
