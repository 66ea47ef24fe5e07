/**
 * The two converters share one extraction pipeline: on the same input and
 * threshold they fail alike, and the Markdown file carries exactly the
 * paragraphs of the Word document.
 */
module Agreement {
  import opened Unicode
  import opened Readability
  import opened Segmenter
  import opened Extraction
  import opened MarkdownConverter
  import opened DocxConverter

  /**
   * Running both converters on one source: the same error, or a Markdown
   * file made of the heading and the Word document's paragraphs, whose
   * body segments back into those very paragraphs.
   */
  method ConvertBoth(src: Container, stem: Text, threshold: real, ucd: CategoryTable)
    returns (md: Result<Text>, docx: Result<seq<Text>>)
    ensures md.Err? <==> docx.Err?
    ensures md.Err? ==> md.error == docx.error
    ensures docx.Ok? ==> md == Ok(MarkdownDocument(stem, docx.value))
    ensures docx.Ok? ==> Paragraphs(Body(docx.value), threshold, ucd) == docx.value
  {
    md := WpsToMd(src, stem, threshold, ucd);
    docx := WpsToDocx(src, threshold, ucd);
    if docx.Ok? {
      ParagraphsWellFormed(ReadPlainText(src).value, threshold, ucd);
      var ps := docx.value;
      assert forall k :: 0 <= k < |ps| ==> ps[k] in ps;
      ResegmentBody(ps, threshold, ucd);
    }
  }
}
