/**
  Spreadsheet cell values as the workbook reader hands them over (a JavaScript
  string, number or boolean), their string form `String(v)`, and JavaScript's
  `String.prototype.trim`.
*/
module Cells {

  /** A scalar cell value. Numbers are modelled as integers only. */
  datatype Cell = Text(text: string) | Number(num: int) | Boolean(flag: bool)

  function DigitChar(d: nat): char
    requires d < 10
  {
    "0123456789"[d]
  }

  /** Decimal rendering of a natural number, without leading zeros. */
  function NatToDecimal(n: nat): string
    decreases n
  {
    if n < 10 then [DigitChar(n)] else NatToDecimal(n / 10) + [DigitChar(n % 10)]
  }

  /** The string form `String(v)` of a cell value. */
  function ToStr(c: Cell): string
  {
    match c
    case Text(s) => s
    case Number(n) => if n < 0 then "-" + NatToDecimal(-n) else NatToDecimal(n)
    case Boolean(b) => if b then "true" else "false"
  }

  /**
    The characters `String.prototype.trim` removes: ECMAScript's WhiteSpace
    (tab, vertical tab, form feed, byte order mark and the Unicode space
    separators) and LineTerminator (line feed, carriage return, line and
    paragraph separators).
  */
  predicate IsWhitespace(c: char)
  {
    || c == '\t' || c == '\n' || c == '\U{000B}' || c == '\U{000C}' || c == '\r'
    || c == ' ' || c == '\U{00A0}' || c == '\U{1680}'
    || ('\U{2000}' <= c <= '\U{200A}')
    || c == '\U{2028}' || c == '\U{2029}' || c == '\U{202F}' || c == '\U{205F}'
    || c == '\U{3000}' || c == '\U{FEFF}'
  }

  predicate AllWhitespace(s: string)
  {
    forall i :: 0 <= i < |s| ==> IsWhitespace(s[i])
  }

  /** A string with no whitespace at either end. */
  predicate IsTrimmed(s: string)
  {
    s == [] || (!IsWhitespace(s[0]) && !IsWhitespace(s[|s| - 1]))
  }

  /** The first index at or after `k` that does not hold whitespace (`|s|` if none). */
  function SkipLeading(s: string, k: nat): (lo: nat)
    requires k <= |s|
    ensures k <= lo <= |s|
    ensures forall i :: k <= i < lo ==> IsWhitespace(s[i])
    ensures lo == |s| || !IsWhitespace(s[lo])
    decreases |s| - k
  {
    if k < |s| && IsWhitespace(s[k]) then SkipLeading(s, k + 1) else k
  }

  /** Scanning down from `k` to `lo`: the end of the last character that is not whitespace (`lo` if none). */
  function SkipTrailing(s: string, lo: nat, k: nat): (hi: nat)
    requires lo <= k <= |s|
    ensures lo <= hi <= k
    ensures forall i :: hi <= i < k ==> IsWhitespace(s[i])
    ensures hi == lo || !IsWhitespace(s[hi - 1])
    decreases k
  {
    if k > lo && IsWhitespace(s[k - 1]) then SkipTrailing(s, lo, k - 1) else k
  }

  /**
    `s.trim()`: what is left of `s` after dropping its leading and trailing
    whitespace; it neither starts nor ends with whitespace.
  */
  function Trim(s: string): (r: string)
    ensures IsTrimmed(r)
    ensures r == [] <==> AllWhitespace(s)
    ensures var lo := SkipLeading(s, 0);
            && lo + |r| <= |s| && r == s[lo..lo + |r|]
            && forall i :: 0 <= i < |s| && (i < lo || lo + |r| <= i) ==> IsWhitespace(s[i])
  {
    var lo := SkipLeading(s, 0);
    var hi := SkipTrailing(s, lo, |s|);
    assert lo == hi ==> AllWhitespace(s);
    s[lo..hi]
  }

  /** Trimming twice is trimming once. */
  lemma TrimIdempotent(s: string)
    ensures Trim(Trim(s)) == Trim(s)
  {
    TrimKeepsTrimmed(Trim(s));
  }

  /** A string that is already trimmed is left alone. */
  lemma TrimKeepsTrimmed(s: string)
    requires IsTrimmed(s)
    ensures Trim(s) == s
  {
    if s != [] {
      assert SkipLeading(s, 0) == 0;
      assert SkipTrailing(s, 0, |s|) == |s|;
    }
  }
}
