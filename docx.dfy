/**
 * `wps_to_docx`: the extracted text as a Word document with one paragraph
 * per kept segment.  The document is modelled by the list of its
 * paragraphs' texts, in the order `add_paragraph` appends them.
 */
module DocxConverter {
  import opened Unicode
  import opened Readability
  import opened Segmenter
  import opened Extraction

  /**
   * `wps_to_docx`: an extraction error is passed on and no document is
   * built; otherwise the document holds the paragraphs kept from the text,
   * in order.
   */
  method WpsToDocx(src: Container, threshold: real, ucd: CategoryTable) returns (r: Result<seq<Text>>)
    ensures ReadPlainText(src).Err? ==> r == Err(ReadPlainText(src).error)
    ensures ReadPlainText(src).Ok? ==> r == Ok(Paragraphs(ReadPlainText(src).value, threshold, ucd))
  {
    var read := ReadPlainText(src);
    if read.Err? {
      return Err(read.error);
    }
    var text := read.value;
    // `doc` is the paragraphs added to the document so far.
    var doc: seq<Text> := [];
    var pieces := DropEmpty(Split(text));
    assert pieces[..0] == [];
    for i := 0 to |pieces|
      invariant doc == Keep(pieces[..i], threshold, ucd)
    {
      KeepStep(pieces, i, threshold, ucd);
      var cleaned := Strip(pieces[i]);
      if cleaned != [] {
        var ok := IsReadable(cleaned, threshold, ucd);
        if ok {
          doc := doc + [cleaned];
        }
      }
    }
    assert pieces[..|pieces|] == pieces;
    r := Ok(doc);
  }
}
