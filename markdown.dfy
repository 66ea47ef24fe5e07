/**
 * `wps_to_md`: the extracted text written as a Markdown file, a level-one
 * heading made of the source's stem, then each kept paragraph followed by a
 * blank line.  The file is modelled by the text written to it, in the order
 * of the writes.
 */
module MarkdownConverter {
  import opened Unicode
  import opened Readability
  import opened Segmenter
  import opened Extraction

  /** `f"# {stem}\n\n"`. */
  function Heading(stem: Text): Text
  {
    [0x23, SPACE] + stem + [LF, LF]
  }

  /** `f"{p}\n\n"` for each paragraph, in order. */
  function Body(ps: seq<Text>): Text
  {
    if ps == [] then [] else ps[0] + [LF, LF] + Body(ps[1..])
  }

  function MarkdownDocument(stem: Text, ps: seq<Text>): Text
  {
    Heading(stem) + Body(ps)
  }

  lemma {:induction false} BodyAppend(ps: seq<Text>, qs: seq<Text>)
    ensures Body(ps + qs) == Body(ps) + Body(qs)
  {
    if ps == [] {
      assert ps + qs == qs;
    } else {
      assert (ps + qs)[0] == ps[0] && (ps + qs)[1..] == ps[1..] + qs;
      BodyAppend(ps[1..], qs);
    }
  }

  lemma BodySnoc(ps: seq<Text>, p: Text)
    ensures Body(ps + [p]) == Body(ps) + (p + [LF, LF])
  {
    BodyAppend(ps, [p]);
    assert [p][1..] == [];
    assert Body([p]) == p + [LF, LF] + [];
  }

  /** Writing one more paragraph block extends the document by that paragraph. */
  lemma WriteStep(heading: Text, kept: seq<Text>, p: Text, written: Text)
    requires written == heading + Body(kept)
    ensures written + (p + [LF, LF]) == heading + Body(kept + [p])
  {
    BodySnoc(kept, p);
    var b := Body(kept);
    assert (heading + b) + (p + [LF, LF]) == heading + (b + (p + [LF, LF]));
  }

  /**
   * `wps_to_md`: an extraction error is passed on and nothing is written;
   * otherwise what is written is the heading and the paragraphs kept from
   * the text, each followed by a blank line.
   */
  method WpsToMd(src: Container, stem: Text, threshold: real, ucd: CategoryTable) returns (r: Result<Text>)
    ensures ReadPlainText(src).Err? ==> r == Err(ReadPlainText(src).error)
    ensures ReadPlainText(src).Ok? ==>
      r == Ok(MarkdownDocument(stem, Paragraphs(ReadPlainText(src).value, threshold, ucd)))
  {
    var read := ReadPlainText(src);
    if read.Err? {
      return Err(read.error);
    }
    var text := read.value;
    // `written` is what has gone to the open file so far.
    var written := Heading(stem);
    var pieces := DropEmpty(Split(text));
    ghost var kept: seq<Text> := [];
    assert pieces[..0] == [];
    assert Heading(stem) + Body([]) == Heading(stem);
    for i := 0 to |pieces|
      invariant kept == Keep(pieces[..i], threshold, ucd)
      invariant written == Heading(stem) + Body(kept)
    {
      KeepStep(pieces, i, threshold, ucd);
      var cleaned := Strip(pieces[i]);
      if cleaned != [] {
        var ok := IsReadable(cleaned, threshold, ucd);
        if ok {
          WriteStep(Heading(stem), kept, cleaned, written);
          written := written + (cleaned + [LF, LF]);
          kept := kept + [cleaned];
        }
      }
    }
    assert kept == Paragraphs(text, threshold, ucd) by {
      assert pieces[..|pieces|] == pieces;
    }
    r := Ok(written);
  }

  // ---------- reading the body back ----------

  /** The first paragraph, then the blank line after it. */
  lemma SplitBody(ps: seq<Text>)
    requires ps != [] && LF !in ps[0]
    ensures Split(Body(ps)) == [ps[0]] + ([[]] + Split(Body(ps[1..])))
  {
    var p, rest := ps[0], Body(ps[1..]);
    assert Body(ps) == p + [LF] + ([LF] + rest);
    SplitAfterLine(p, [LF] + rest);
    assert [] + [LF] + rest == [LF] + rest;
    SplitAfterLine([], rest);
  }

  /** The body splits back into the paragraphs once blank lines are dropped. */
  lemma {:induction false} BodyParsesBack(ps: seq<Text>)
    requires forall k :: 0 <= k < |ps| ==> ps[k] != [] && LF !in ps[k]
    ensures DropEmpty(Split(Body(ps))) == ps
  {
    if ps != [] {
      var p, tail := ps[0], ps[1..];
      var split := Split(Body(tail));
      SplitBody(ps);
      var empty: Text := [];
      DropEmptyAppend([p], [empty] + split);
      DropEmptyAppend([empty], split);
      assert [p][1..] == [] && [empty][1..] == [];
      assert DropEmpty([p]) == [p];
      assert DropEmpty([empty]) == [];
      assert forall k :: 0 <= k < |tail| ==> tail[k] == ps[k + 1];
      BodyParsesBack(tail);
      assert DropEmpty([empty] + split) == tail;
      assert ps == [p] + tail;
    }
  }

  /** Paragraphs that are already kept paragraphs are kept again, unchanged. */
  lemma {:induction false} KeepKept(ps: seq<Text>, threshold: real, ucd: CategoryTable)
    requires forall k :: 0 <= k < |ps| ==>
      ps[k] != [] && IsStripped(ps[k]) && Readable(ps[k], threshold, ucd)
    ensures Keep(ps, threshold, ucd) == ps
  {
    if ps != [] {
      StripStripped(ps[0]);
      assert forall k :: 0 <= k < |ps[1..]| ==> ps[1..][k] == ps[k + 1];
      KeepKept(ps[1..], threshold, ucd);
      assert ps == [ps[0]] + ps[1..];
    }
  }

  /** Segmenting the written body again at the same threshold yields exactly the paragraphs written. */
  lemma ResegmentBody(ps: seq<Text>, threshold: real, ucd: CategoryTable)
    requires forall k :: 0 <= k < |ps| ==>
      ps[k] != [] && LF !in ps[k] && IsStripped(ps[k]) && Readable(ps[k], threshold, ucd)
    ensures Paragraphs(Body(ps), threshold, ucd) == ps
  {
    BodyParsesBack(ps);
    KeepKept(ps, threshold, ucd);
  }
}
