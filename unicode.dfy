/**
 * Code points, the whitespace table and the Unicode general-category
 * classes the extraction pipeline relies on.
 *
 * Text is a sequence of integer code points rather than Dafny `char`s, so
 * that surrogate code points (which a `char` cannot hold) can be talked about.
 */
module Unicode {

  type Text = seq<int>

  const TAB: int := 0x09
  const LF: int := 0x0A
  const CR: int := 0x0D
  const SPACE: int := 0x20

  predicate IsHighSurrogate(u: int) { 0xD800 <= u <= 0xDBFF }

  predicate IsLowSurrogate(u: int) { 0xDC00 <= u <= 0xDFFF }

  predicate IsSurrogate(u: int) { 0xD800 <= u <= 0xDFFF }

  /** A Unicode scalar value: a code point that is not a surrogate. */
  predicate IsScalarValue(c: int) { 0 <= c <= 0x10FFFF && !IsSurrogate(c) }

  /**
   * Python's `str.isspace` (and hence the default `str.strip`): general
   * category Zs, or bidirectional class WS, B or S.  This is the complete
   * table of such code points.
   */
  predicate IsSpace(c: int)
  {
    || (0x09 <= c <= 0x0D)
    || (0x1C <= c <= 0x1F)
    || c == 0x20 || c == 0x85 || c == 0xA0 || c == 0x1680
    || (0x2000 <= c <= 0x200A)
    || c == 0x2028 || c == 0x2029 || c == 0x202F || c == 0x205F || c == 0x3000
  }

  /** The major class of a general category: the first letter of `unicodedata.category`. */
  datatype MajorClass = Letter | Mark | Number | Punctuation | Symbol | Separator | Other

  /**
   * The Unicode Character Database's major class of each code point.  The
   * database is not part of this model: every operation that consults it
   * takes the table as a parameter and every property holds for all tables.
   */
  type CategoryTable = int -> MajorClass

  /** The classes that `is_readable` treats as printable: L, N, P and S. */
  predicate IsLNPS(m: MajorClass)
  {
    m == Letter || m == Number || m == Punctuation || m == Symbol
  }

  lemma AppendAssoc<T>(a: seq<T>, b: seq<T>, c: seq<T>)
    ensures (a + b) + c == a + (b + c)
  {
  }

  /** How often `c` occurs in `t`. */
  function Occurrences(t: Text, c: int): (n: nat)
    ensures n <= |t|
  {
    if t == [] then 0 else (if t[0] == c then 1 else 0) + Occurrences(t[1..], c)
  }
}
