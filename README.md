# Wps_Parse text extraction, modelled in Dafny

Wps_Parse pulls the text out of a WPS (compound-file) document. It has two converters:

- `wps_to_md` writes a Markdown file: a level-one heading with the document's name, then one block per paragraph.
- `wps_to_docx` writes a Word document with one paragraph per kept segment.

Both converters run the same pipeline. `wps_parse/wps_to_markdown.py` and `wps_parse/wps_to_docx.py` each carry their own copy of `read_plain_text` and `is_readable`. Their statements are identical (only docstrings and comments differ), so they are modelled once, and each converter is a thin consumer. The pipeline has five stages:

1. `read_plain_text` reads the `WordDocument` stream of the container (module `Extraction`).
2. It decodes the stream as UTF-16LE with `errors='ignore'` (`Utf16`).
3. One regular expression deletes a fixed blacklist of code points; a second rewrites `\r\n?` as `\n` (`Sanitizer`).
4. `is_readable` compares the share of printable code points with a threshold (`Readability`).
5. The converters split the text at LF, drop empty pieces, `strip()` each piece, and keep it when it is non-empty and readable (`Segmenter`).

`MarkdownConverter` and `DocxConverter` each hold their converter's loop. `Agreement` runs both converters on one input.

Text is a sequence of integer code points, so lone surrogates can be represented. Bytes are `bv8`. The threshold is an exact `real`. The decoder's result, the paragraph list and the Markdown output are ordinary values:

- the open Markdown file is modelled by the text written to it so far, a local string the loop extends;
- the Word document is modelled by the list of paragraph texts that `add_paragraph` appends to.

## Model

| member | source | states |
|---|---|---|
| Extraction.ReadWordDocument | wps_parse/wps_to_markdown.py:14-20 | a non-OLE file fails with the "not OLE" error, checked first; an OLE file without a `WordDocument` stream fails with the missing-stream error, checked second; otherwise the stream's bytes are returned |
| Extraction.ReadPlainText | wps_parse/wps_to_markdown.py:12-27 | the same error order; on success the text is `NormalizeNewlines(Sanitize(Decode(stream)))`, holds no blacklisted code point, no CR and only scalar values, and has at most half as many code points as the stream has bytes |
| Extraction.CleanText | wps_parse/wps_to_markdown.py:22-27 | decoding plus the two regex passes give text free of blacklisted code points and CR, made of scalar values, no longer than half the byte count |
| Extraction.SanitizeKeepsScalars | wps_parse/wps_to_markdown.py:24-26 | deleting code points never turns a scalar value into a non-scalar one |
| Extraction.CleanTextIsFixpoint | wps_parse/wps_to_docx.py:21-30 | running both regex passes again over cleaned text changes nothing |
| Utf16.CodeUnit | wps_parse/wps_to_markdown.py:22 | two bytes make one little-endian 16-bit code unit, in 0..0xFFFF |
| Utf16.CombineSurrogates | wps_parse/wps_to_markdown.py:22 | a high and a low surrogate combine into a supplementary code point, in 0x10000..0x10FFFF |
| Utf16.Decode | wps_parse/wps_to_markdown.py:22 | decoding never fails; every decoded value is a scalar value (at most 0x10FFFF, never in D800..DFFF); the result has at most half as many code points as there are bytes |
| Utf16.HighSurrogateOf | wps_parse/wps_to_markdown.py:22 | the high half of a supplementary code point's surrogate pair is a high surrogate |
| Utf16.LowSurrogateOf | wps_parse/wps_to_markdown.py:22 | the low half is a low surrogate |
| Utf16.CombineSplit | wps_parse/wps_to_markdown.py:22 | combining the two halves gives back the code point |
| Utf16.DecodeUnit | wps_parse/wps_to_markdown.py:22 | a code unit outside the surrogate range decodes to itself, and decoding goes on after it |
| Utf16.DecodePair | wps_parse/wps_to_markdown.py:22 | a high surrogate followed by a low one decodes to the code point the two encode |
| Utf16.DecodeEncodedStep | wps_parse/wps_to_markdown.py:22 | the first scalar value of well-formed UTF-16LE decodes first, whatever bytes follow |
| Utf16.DecodeEncodedPrefix | wps_parse/wps_to_markdown.py:22 | well-formed UTF-16LE decodes to the scalar values it encodes, and later bytes never change what came before |
| Utf16.DecodeEncoded | wps_parse/wps_to_markdown.py:22 | every UTF-16LE encoding of a sequence of scalar values decodes back to that sequence |
| Utf16.LoneLowSurrogateDropped | wps_parse/wps_to_markdown.py:22 | a low surrogate on its own contributes nothing, and decoding resumes at the next unit |
| Utf16.UnpairedHighSurrogateDropped | wps_parse/wps_to_markdown.py:22 | a high surrogate not followed by a low one is dropped alone; the next unit is decoded afresh |
| Utf16.HighSurrogateAtEndDropped | wps_parse/wps_to_markdown.py:22 | a high surrogate at the end of the data is dropped, together with an odd byte after it |
| Utf16.TrailingOddByteDropped | wps_parse/wps_to_markdown.py:22 | an odd byte at the end never changes the decoded text |
| Sanitizer.IsBlacklisted | wps_parse/wps_to_markdown.py:24-26 | the character class of the first regex: U+0000-0008, U+000B, U+000C, U+000E-001F, U+007F-009F, U+FFFE, U+FFFF and U+D800-DFFF (the C0 ranges are listed twice in the source) |
| Sanitizer.Sanitize | wps_parse/wps_to_markdown.py:24-26 | the result holds no code point of the blacklist (U+0000-0008, U+000B, U+000C, U+000E-001F, U+007F-009F, U+FFFE, U+FFFF, U+D800-DFFF) and is no longer than the input |
| Sanitizer.SanitizeAppend | wps_parse/wps_to_markdown.py:24-26 | the deletion works code point by code point: sanitising a concatenation is the concatenation of the sanitised parts, so order is kept |
| Sanitizer.SanitizeSingle | wps_parse/wps_to_markdown.py:24-26 | one code point is deleted exactly when it is blacklisted |
| Sanitizer.SanitizeIsFilter | wps_parse/wps_to_markdown.py:24-26 | a code point in context is kept in place when it is not blacklisted and removed when it is |
| Sanitizer.LineControlsKept | wps_parse/wps_to_markdown.py:24-26 | TAB, LF and CR are not blacklisted |
| Sanitizer.SanitizeCounts | wps_parse/wps_to_markdown.py:24-26 | every code point that is not blacklisted occurs as often after sanitising as before |
| Sanitizer.SanitizeClean | wps_parse/wps_to_markdown.py:24-26 | text with nothing blacklisted passes unchanged |
| Sanitizer.SanitizeIdempotent | wps_parse/wps_to_markdown.py:24-26 | sanitising twice is sanitising once |
| Sanitizer.NormalizeNewlines | wps_parse/wps_to_markdown.py:27 | the result holds no CR, is no longer than the input, and every code point in it is LF or came from the input |
| Sanitizer.NormalizeKeepsClean | wps_parse/wps_to_markdown.py:27 | newline normalisation brings back no blacklisted code point |
| Sanitizer.NormalizeWithoutCR | wps_parse/wps_to_markdown.py:27 | text without CR is left as it is |
| Sanitizer.NormalizeIdempotent | wps_parse/wps_to_markdown.py:27 | normalising twice is normalising once |
| Sanitizer.WithoutBreaks | wps_parse/wps_to_markdown.py:27 | removing line terminators never lengthens text |
| Sanitizer.NormalizeNewlinesMeaning | wps_parse/wps_to_markdown.py:27 | everything other than CR and LF is unchanged and in order; the LF count afterwards is the LF count plus the CR count, less one per CRLF pair |
| Sanitizer.NormalizeAppend | wps_parse/wps_to_markdown.py:27 | the rewrite is local: two pieces normalise separately, unless the first ends with CR and the second starts with LF |
| Sanitizer.CrLfBecomesLF | wps_parse/wps_to_markdown.py:27 | a CRLF anywhere in the text becomes exactly one LF in its place, and the text on either side normalises on its own |
| Sanitizer.LoneCRBecomesLF | wps_parse/wps_to_markdown.py:27 | a CR not followed by LF becomes exactly one LF in its place |
| Sanitizer.OtherCodePointKept | wps_parse/wps_to_markdown.py:27 | every other code point stays in its place, and so does an LF that does not end a CRLF |
| Sanitizer.SanitizeBeforeNormalize | wps_parse/wps_to_docx.py:25-30 | the order of the passes matters: CR, U+000B, LF yields one LF, whereas normalising first would yield two |
| Unicode.IsSpace | wps_parse/wps_to_markdown.py:40 | `str.isspace`, which `strip()` at line 55 uses too: TAB to CR, U+001C-001F, SPACE, U+0085, U+00A0, U+1680, U+2000-200A, U+2028, U+2029, U+202F, U+205F and U+3000 |
| Readability.IsPrintable | wps_parse/wps_to_markdown.py:40 | a code point counts when it is whitespace or its major class is L, N, P or S |
| Readability.PrintableCount | wps_parse/wps_to_markdown.py:37-41 | the number of printable code points is between 0 and the length |
| Readability.Score | wps_parse/wps_to_markdown.py:42 | the score of non-empty text lies in [0, 1] |
| Readability.Readable | wps_parse/wps_to_markdown.py:35-42 | what `is_readable` returns: false for empty text, otherwise whether the score reaches the threshold |
| Readability.IsReadable | wps_parse/wps_to_markdown.py:30-42 | the counting loop returns true exactly when the text is non-empty and printable count / length >= threshold |
| Readability.EmptyIsNeverReadable | wps_parse/wps_to_markdown.py:35-36 | empty text is rejected at every threshold |
| Readability.ReadableMonotone | wps_parse/wps_to_markdown.py:42 | text accepted at a threshold is accepted at every lower one |
| Readability.ReadableOutsideUnitRange | wps_parse/wps_to_markdown.py:42 | non-empty text is accepted at every threshold <= 0 and rejected at every threshold > 1 |
| Readability.FullCountIffAllPrintable | wps_parse/wps_to_markdown.py:37-41 | the count equals the length exactly when every code point is whitespace or in L, N, P or S |
| Readability.ReadableAtOne | wps_parse/wps_to_markdown.py:42 | at threshold 1, text is accepted exactly when it is non-empty and printable throughout |
| Readability.ReadableAtDefault | wps_parse/wps_to_markdown.py:30 | at the default threshold 0.8, text is accepted exactly when it is non-empty and at least four code points in five are printable |
| Readability.WhitespaceIsPrintable | wps_parse/wps_to_docx.py:42-43 | whitespace is printable whatever its category |
| Segmenter.Split | wps_parse/wps_to_markdown.py:54 | `split('\n')` yields one piece more than the text has LFs |
| Segmenter.SplitPiecesHaveNoLF | wps_parse/wps_to_markdown.py:54 | no piece contains LF |
| Segmenter.JoinPrepend | wps_parse/wps_to_markdown.py:54 | joining is unaffected by where a prefix of the first piece is attached |
| Segmenter.JoinSplit | wps_parse/wps_to_markdown.py:54 | joining the pieces with LF gives back the text |
| Segmenter.SplitAfterLine | wps_parse/wps_to_markdown.py:54 | a line free of LF, then LF, splits off as the first piece |
| Segmenter.DropEmpty | wps_parse/wps_to_markdown.py:54 | `filter(None, ...)` never lengthens the list |
| Segmenter.DropEmptyMembers | wps_parse/wps_to_markdown.py:54 | what the filter keeps is non-empty and comes from its input |
| Segmenter.DropEmptyAppend | wps_parse/wps_to_markdown.py:54 | the filter works piece by piece |
| Segmenter.TrimStart | wps_parse/wps_to_markdown.py:55 | the result is no longer than the input and does not start with whitespace |
| Segmenter.TrimStartRemovesSpace | wps_parse/wps_to_markdown.py:55 | what is removed is a prefix made of whitespace |
| Segmenter.TrimEnd | wps_parse/wps_to_markdown.py:55 | the result is no longer than the input and does not end with whitespace |
| Segmenter.TrimEndRemovesSpace | wps_parse/wps_to_markdown.py:55 | what is removed is a suffix made of whitespace |
| Segmenter.Strip | wps_parse/wps_to_markdown.py:55 | `strip()` leaves no whitespace at either end |
| Segmenter.StripIsSlice | wps_parse/wps_to_markdown.py:55 | the stripped text is a slice of the input, with only whitespace before and after it |
| Segmenter.StripEmptyIffBlank | wps_parse/wps_to_markdown.py:55-56 | stripping leaves nothing exactly when the piece is all whitespace |
| Segmenter.StripAvoids | wps_parse/wps_to_markdown.py:55 | stripping adds no code point |
| Segmenter.StripStripped | wps_parse/wps_to_markdown.py:55 | text already stripped is left as it is |
| Segmenter.Keep | wps_parse/wps_to_markdown.py:54-56 | the loop's decision keeps at most one paragraph per piece |
| Segmenter.KeepAppend | wps_parse/wps_to_markdown.py:54-56 | the decision is made piece by piece, in order |
| Segmenter.KeptWellFormed | wps_parse/wps_to_markdown.py:55-56 | every kept paragraph is non-empty, stripped and readable at the threshold |
| Segmenter.KeptAvoids | wps_parse/wps_to_markdown.py:55-56 | a code point absent from every piece is absent from every kept paragraph |
| Segmenter.KeepStep | wps_parse/wps_to_markdown.py:54-57 | one more loop iteration appends the stripped piece exactly when it is non-empty and readable |
| Segmenter.Paragraphs | wps_parse/wps_to_docx.py:51-54 | there are at most as many paragraphs as LF-separated segments |
| Segmenter.ParagraphsWellFormed | wps_parse/wps_to_markdown.py:54-56 | every paragraph is non-empty, has no LF and no whitespace at either end, and is readable at the threshold |
| Segmenter.StripAll | wps_parse/wps_to_markdown.py:55 | stripping every segment keeps the number of segments |
| Segmenter.KeepDropEmptyCons | wps_parse/wps_to_markdown.py:54-56 | the first piece yields its stripped text when it is non-empty and readable, and nothing otherwise |
| Segmenter.KeptInOrder | wps_parse/wps_to_markdown.py:54-56 | the kept paragraphs are, in order, a subsequence of the stripped pieces |
| Segmenter.ParagraphsInOrder | wps_parse/wps_to_markdown.py:54-57 | the paragraphs are, in order, a subsequence of the stripped LF-separated segments |
| Segmenter.ReadableSegmentsKept | wps_parse/wps_to_markdown.py:54-56 | every segment that strips to non-empty readable text is among the paragraphs |
| Segmenter.KeepDropEmptyAppend | wps_parse/wps_to_docx.py:51-53 | segmenting works line by line: the paragraphs of two runs of lines are those of each run |
| Segmenter.BlankLineContributesNothing | wps_parse/wps_to_docx.py:51-53 | an empty or whitespace-only line yields no paragraph |
| Segmenter.BlankLineDropped | wps_parse/wps_to_docx.py:51-53 | inserting an empty or whitespace-only line anywhere leaves the paragraphs unchanged |
| Segmenter.StricterKeepsFewer | wps_parse/wps_to_markdown.py:56 | a stricter threshold keeps a subsequence of the paragraphs a laxer one keeps |
| Segmenter.DefaultKeepsOnlyPrintable | wps_parse/wps_to_markdown.py:46 | at the converters' default threshold 1.0, every kept paragraph is printable throughout |
| MarkdownConverter.Heading | wps_parse/wps_to_markdown.py:52 | the heading line `"# " + stem + "\n\n"` |
| MarkdownConverter.Body | wps_parse/wps_to_markdown.py:57 | `p + "\n\n"` for each paragraph `p`, in order |
| MarkdownConverter.MarkdownDocument | wps_parse/wps_to_markdown.py:52-57 | the heading followed by the body |
| MarkdownConverter.BodyAppend | wps_parse/wps_to_markdown.py:54-57 | the paragraph blocks are written one after another |
| MarkdownConverter.WpsToMd | wps_parse/wps_to_markdown.py:46-59 | an extraction error is passed on and nothing is written; otherwise the text passed to `f.write` is `"# " + stem + "\n\n"`, then `p + "\n\n"` for each kept paragraph `p`, in order |
| MarkdownConverter.SplitBody | wps_parse/wps_to_markdown.py:57 | a written block splits into the paragraph and an empty line |
| MarkdownConverter.BodyParsesBack | wps_parse/wps_to_markdown.py:57 | the written body, split at LF with empty pieces dropped, gives back the paragraphs |
| MarkdownConverter.KeepKept | wps_parse/wps_to_markdown.py:55-56 | paragraphs that are already non-empty, stripped and readable are all kept, unchanged |
| MarkdownConverter.ResegmentBody | wps_parse/wps_to_markdown.py:54-57 | segmenting the written body again at the same threshold gives exactly the paragraphs written |
| DocxConverter.WpsToDocx | wps_parse/wps_to_docx.py:48-57 | an extraction error is passed on and no document is built; otherwise the document's paragraphs are the kept paragraphs of the text, in order |
| Agreement.ConvertBoth | wps_parse/wps_to_docx.py:51-54 | both converters fail alike, with the same error; otherwise the text written to the Markdown file is the heading followed by the Word document's paragraphs, and its body segments back into exactly those paragraphs |

## Left out

- The compound-file format (`olefile.isOleFile`, `OleFileIO`, `exists`, `openstream`) is a separate library. A container is modelled by its signature test's outcome and a map from stream names to bytes. `olefile` matches stream names without regard to case; the model looks the name up exactly. olefile's own exceptions are outside the model too: a file that passes `isOleFile` but has a corrupt FAT or directory makes `OleFileIO` raise, and a storage (not a stream) named `WordDocument` passes `exists` and then makes `openstream` raise.
- The Unicode Character Database behind `unicodedata.category` is not part of this model. The major class of each code point is a parameter table, and every property holds for every table.
- `str.isspace`, which `strip()` uses too, is written out as the complete table of code points CPython treats as whitespace, and one predicate serves both uses.
- `printable / len(text) >= threshold` is computed with IEEE doubles in the source and exactly here. The two can differ only when rounding moves a ratio across the threshold.
- python-docx (`Document`, `add_paragraph`, `doc.save`) is left out. The document is the list of paragraph texts `add_paragraph` receives. Saving it is not modelled.
- File-system effects are left out: `mkdir`, opening the output, encoding it as UTF-8, the text-mode newline translation (on Windows each `"\n"` written reaches the disk as `"\r\n"`), and the closing `print`. The Markdown output is the text passed to `f.write`, and `src.stem` is a parameter.
- The comments above the first regex also mention the private-use area. The regex does not delete U+E000..U+F8FF, and the model follows the regex.
- The GUI in gui_app.py is not part of this model. This includes its widgets, its background thread, the 0.5-1.0 range of its threshold slider and output-name building.
- The `__main__` demonstration blocks of both converters are left out.
- Utf16.DecodeEncoded: the encoder is a relation on bytes and text (`Encodes`), not a function, so the round trip is stated for every encoding of the text.
