/** JavaScript strings as the script sees them: sequences of UTF-16 code units,
    the character classes its regular expressions use, and String.prototype.trim. */
module Text {

  /** One UTF-16 code unit; a JavaScript string's length counts these. */
  newtype CodeUnit = x: int | 0 <= x < 0x1_0000

  type JsString = seq<CodeUnit>

  datatype Option<T> = None | Some(value: T)

  /** The code units of a literal written with characters of the Basic Multilingual Plane. */
  function Lit(s: string): (r: JsString)
    requires forall i | 0 <= i < |s| :: s[i] as int < 0x1_0000
    ensures |r| == |s|
    ensures forall i | 0 <= i < |s| :: r[i] as int == s[i] as int
  {
    seq(|s|, i requires 0 <= i < |s| => s[i] as int as CodeUnit)
  }

  const SPACE: CodeUnit := 0x20
  const AT: CodeUnit := 0x40
  const DOT: CodeUnit := 0x2E
  const LESS_THAN: CodeUnit := 0x3C

  /** ECMAScript LineTerminator: LF, CR, LINE SEPARATOR, PARAGRAPH SEPARATOR.
      The regex atom `.` matches every code unit except these. */
  predicate IsLineTerminator(c: CodeUnit) {
    c == 0x0A || c == 0x0D || c == 0x2028 || c == 0x2029
  }

  /** ECMAScript WhiteSpace: TAB, VT, FF, ZWNBSP and the space separators (category Zs). */
  predicate IsWhiteSpace(c: CodeUnit) {
    || c == 0x09 || c == 0x0B || c == 0x0C || c == 0xFEFF
    || c == 0x20 || c == 0xA0 || c == 0x1680 || 0x2000 <= c <= 0x200A
    || c == 0x202F || c == 0x205F || c == 0x3000
  }

  /** The set matched by the regex escape `\s` and stripped by `trim`: the two sets
      agree because both are WhiteSpace together with LineTerminator. */
  predicate IsWS(c: CodeUnit) {
    IsWhiteSpace(c) || IsLineTerminator(c)
  }

  /** The regex escape `\d`: ASCII digits only. */
  predicate IsDigit(c: CodeUnit) {
    0x30 <= c <= 0x39
  }

  /** The regex class `[A-Za-z]`. */
  predicate IsAsciiLetter(c: CodeUnit) {
    0x41 <= c <= 0x5A || 0x61 <= c <= 0x7A
  }

  /** The number of whitespace code units at the start of `s`. */
  function LeadingWS(s: JsString): (n: nat)
    ensures n <= |s|
    ensures forall i | 0 <= i < n :: IsWS(s[i])
    ensures n < |s| ==> !IsWS(s[n])
  {
    if s != [] && IsWS(s[0]) then 1 + LeadingWS(s[1..]) else 0
  }

  /** The number of whitespace code units at the end of `s`. */
  function TrailingWS(s: JsString): (n: nat)
    ensures n <= |s|
    ensures forall i | |s| - n <= i < |s| :: IsWS(s[i])
    ensures n < |s| ==> !IsWS(s[|s| - 1 - n])
  {
    if s != [] && IsWS(s[|s| - 1]) then 1 + TrailingWS(s[..|s| - 1]) else 0
  }

  /** String.prototype.trim: the slice of `s` that keeps every non-whitespace code
      unit of `s` and begins and ends with one. */
  function Trim(s: JsString): (r: JsString)
    ensures LeadingWS(s) + |r| <= |s|
    ensures r == s[LeadingWS(s)..LeadingWS(s) + |r|]
    ensures forall i | 0 <= i < |s| && !IsWS(s[i]) :: LeadingWS(s) <= i < LeadingWS(s) + |r|
    ensures r != [] ==> !IsWS(r[0]) && !IsWS(r[|r| - 1])
  {
    var lo := LeadingWS(s);
    var rest := s[lo..];
    var hi := |rest| - TrailingWS(rest);
    assert forall i | lo + hi <= i < |s| :: IsWS(s[i]) by {
      forall i | lo + hi <= i < |s| ensures IsWS(s[i]) {
        assert s[i] == rest[i - lo];
      }
    }
    rest[..hi]
  }

  /** A string whose ends are not whitespace is its own trim. */
  lemma TrimUnchanged(s: JsString)
    requires s != [] ==> !IsWS(s[0]) && !IsWS(s[|s| - 1])
    ensures Trim(s) == s
  {
    if s != [] {
      assert LeadingWS(s) == 0;
      assert |s| - 1 < |Trim(s)|;
    }
  }

  /** Trimming twice is trimming once. */
  lemma TrimIdempotent(s: JsString)
    ensures Trim(Trim(s)) == Trim(s)
  {
    TrimUnchanged(Trim(s));
  }

  /** The first position of `c` in `s`. */
  function IndexOf(s: JsString, c: CodeUnit): (k: nat)
    requires c in s
    ensures k < |s| && s[k] == c
    ensures c !in s[..k]
  {
    if s[0] == c then 0 else 1 + IndexOf(s[1..], c)
  }
}
