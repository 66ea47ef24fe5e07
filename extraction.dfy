/**
 * `read_plain_text`: fetch the WordDocument stream out of an OLE compound
 * file and turn it into sanitised text with LF line ends.
 *
 * The compound file is abstract: the outcome of the header-signature test
 * (`olefile.isOleFile`) and the streams by name.
 */
module Extraction {
  import opened Unicode
  import opened Utf16
  import opened Sanitizer

  const WordDocument: string := "WordDocument"

  datatype Container = Container(path: string, isOle: bool, streams: map<string, seq<bv8>>)

  /** The two `RuntimeError`s raised by `read_plain_text`. */
  datatype ReadError =
    | NotOle(path: string)       // the file does not carry the compound-file signature
    | NoWordDocumentStream       // the container has no stream named WordDocument

  datatype Result<T> = Ok(value: T) | Err(error: ReadError)

  /** The two checks, in the order `read_plain_text` makes them, and the stream read. */
  function ReadWordDocument(c: Container): (r: Result<seq<bv8>>)
    ensures !c.isOle ==> r == Err(NotOle(c.path))
    ensures c.isOle && WordDocument !in c.streams ==> r == Err(NoWordDocumentStream)
    ensures r.Ok? <==> c.isOle && WordDocument in c.streams
    ensures r.Ok? ==> r.value == c.streams[WordDocument]
  {
    if !c.isOle then Err(NotOle(c.path))
    else if WordDocument !in c.streams then Err(NoWordDocumentStream)
    else Ok(c.streams[WordDocument])
  }

  /** Decode, delete the blacklisted code points, then rewrite CRLF and lone CR as LF. */
  function CleanText(data: seq<bv8>): (t: Text)
    ensures NoBlacklisted(t) && NoCR(t)
    ensures forall k :: 0 <= k < |t| ==> IsScalarValue(t[k])
    ensures |t| <= |data| / 2
  {
    var sanitized := Sanitize(Decode(data));
    NormalizeKeepsClean(sanitized);
    var t := NormalizeNewlines(sanitized);
    assert forall k :: 0 <= k < |t| ==> IsScalarValue(t[k]) by {
      forall k | 0 <= k < |t| ensures IsScalarValue(t[k]) {
        if t[k] != LF {
          var j :| 0 <= j < |sanitized| && sanitized[j] == t[k];
          SanitizeKeepsScalars(Decode(data), j);
        }
      }
    }
    t
  }

  /** Every code point that survives sanitising was in the input. */
  lemma {:induction false} SanitizeKeepsScalars(t: Text, j: nat)
    requires forall k :: 0 <= k < |t| ==> IsScalarValue(t[k])
    requires j < |Sanitize(t)|
    ensures IsScalarValue(Sanitize(t)[j])
  {
    if t != [] {
      assert IsScalarValue(t[0]);
      if IsBlacklisted(t[0]) {
        SanitizeKeepsScalars(t[1..], j);
      } else if j > 0 {
        SanitizeKeepsScalars(t[1..], j - 1);
      }
    }
  }

  /**
   * `read_plain_text`: the "not OLE" error comes first, the missing-stream
   * error second; otherwise the result is the cleaned stream text, which
   * holds no blacklisted code point and no CR.
   */
  function ReadPlainText(c: Container): (r: Result<Text>)
    ensures !c.isOle ==> r == Err(NotOle(c.path))
    ensures c.isOle && WordDocument !in c.streams ==> r == Err(NoWordDocumentStream)
    ensures r.Ok? <==> c.isOle && WordDocument in c.streams
    ensures r.Ok? ==> NoBlacklisted(r.value) && NoCR(r.value)
    ensures r.Ok? ==> forall k :: 0 <= k < |r.value| ==> IsScalarValue(r.value[k])
    ensures r.Ok? ==> |r.value| <= |c.streams[WordDocument]| / 2
    ensures r.Ok? ==> r.value == NormalizeNewlines(Sanitize(Decode(c.streams[WordDocument])))
  {
    match ReadWordDocument(c)
    case Err(e) => Err(e)
    case Ok(data) => Ok(CleanText(data))
  }

  /** Cleaning is stable: cleaned text passes through both passes unchanged. */
  lemma CleanTextIsFixpoint(data: seq<bv8>)
    ensures NormalizeNewlines(Sanitize(CleanText(data))) == CleanText(data)
  {
    var t := CleanText(data);
    SanitizeClean(t);
    NormalizeWithoutCR(t);
  }
}
