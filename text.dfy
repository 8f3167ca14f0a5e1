/**
 * The string operations the Swift code borrows from Foundation and the
 * standard library: `lowercased()`, `trimmingCharacters(in:)`, `Int(_:)`
 * and decimal rendering with string interpolation.
 */
module Text {
  import opened Wrappers

  const Int64Max: int := 0x7FFF_FFFF_FFFF_FFFF
  const Int64Min: int := -0x8000_0000_0000_0000

  /** `lowercased()` on the ASCII range (other letters are kept as they are). */
  function LowerChar(c: char): (r: char)
    ensures 'A' <= c <= 'Z' ==> r as int == c as int + 32
    ensures !('A' <= c <= 'Z') ==> r == c
  {
    if 'A' <= c <= 'Z' then (c as int + 32) as char else c
  }

  function Lower(s: string): (r: string)
    ensures |r| == |s|
    ensures forall i :: 0 <= i < |s| ==> r[i] == LowerChar(s[i])
  {
    seq(|s|, i requires 0 <= i < |s| => LowerChar(s[i]))
  }

  /** Lowercasing twice changes nothing more. */
  lemma LowerIdempotent(s: string)
    ensures Lower(Lower(s)) == Lower(s)
  {
  }

  /** Two texts are equal ignoring ASCII case. */
  predicate EqualsIgnoringCase(a: string, b: string) {
    Lower(a) == Lower(b)
  }

  /** `CharacterSet.whitespaces`: tab and the Unicode space separators (Zs). */
  predicate IsWhitespace(c: char) {
    c == '\t' || c == ' ' || c == '\U{00A0}' || c == '\U{1680}'
    || ('\U{2000}' <= c <= '\U{200A}') || c == '\U{202F}' || c == '\U{205F}' || c == '\U{3000}'
  }

  /** `CharacterSet.whitespacesAndNewlines`: the above plus U+000A-U+000D, NEL, LS and PS. */
  predicate IsWhitespaceOrNewline(c: char) {
    IsWhitespace(c) || ('\n' <= c <= '\r') || c == '\U{0085}' || c == '\U{2028}' || c == '\U{2029}'
  }

  function TrimStart(s: string, strip: char -> bool): (r: string)
    ensures |r| <= |s| && r == s[|s| - |r|..]
    ensures forall i :: 0 <= i < |s| - |r| ==> strip(s[i])
    ensures |r| > 0 ==> !strip(r[0])
  {
    if |s| > 0 && strip(s[0]) then TrimStart(s[1..], strip) else s
  }

  function TrimEnd(s: string, strip: char -> bool): (r: string)
    ensures |r| <= |s| && r == s[..|r|]
    ensures forall i :: |r| <= i < |s| ==> strip(s[i])
    ensures |r| > 0 ==> !strip(r[|r| - 1])
  {
    if |s| > 0 && strip(s[|s| - 1]) then TrimEnd(s[..|s| - 1], strip) else s
  }

  /**
   * `trimmingCharacters(in:)`: the text between the first and the last
   * character that is not stripped; every character cut off is stripped.
   */
  function TrimWith(s: string, strip: char -> bool): (r: string)
    ensures exists a, b ::
              && 0 <= a <= b <= |s| && r == s[a..b]
              && (forall i :: 0 <= i < a ==> strip(s[i]))
              && (forall i :: b <= i < |s| ==> strip(s[i]))
    ensures |r| > 0 ==> !strip(r[0]) && !strip(r[|r| - 1])
  {
    var t := TrimStart(s, strip);
    var u := TrimEnd(t, strip);
    var a := |s| - |t|;
    assert u == s[a..a + |u|];
    u
  }

  /** `trimmingCharacters(in: .whitespaces)` */
  function Trim(s: string): string {
    TrimWith(s, IsWhitespace)
  }

  /** `trimmingCharacters(in: .whitespacesAndNewlines)` */
  function TrimNewlines(s: string): string {
    TrimWith(s, IsWhitespaceOrNewline)
  }

  /** Trimming a text that already has no stripped character at either end changes nothing. */
  lemma TrimWithFixed(s: string, strip: char -> bool)
    requires |s| > 0 ==> !strip(s[0]) && !strip(s[|s| - 1])
    ensures TrimWith(s, strip) == s
  {
  }

  predicate IsDigit(c: char) {
    '0' <= c <= '9'
  }

  predicate AllDigits(s: string) {
    forall i :: 0 <= i < |s| ==> IsDigit(s[i])
  }

  /** The value of a run of decimal digits, read left to right. */
  function DigitsValue(s: string): (r: nat)
    requires AllDigits(s)
  {
    if |s| == 0 then 0 else DigitsValue(s[..|s| - 1]) * 10 + (s[|s| - 1] as int - '0' as int)
  }

  /**
   * Swift's `Int(_: String)`: an optional `+` or `-` followed by at least one
   * ASCII digit and nothing else, with a value that fits in 64 bits.
   */
  function ParseInt(s: string): (r: Option<int>)
    ensures r.Some? ==> Int64Min <= r.value <= Int64Max
    ensures r.Some? ==> |s| > 0
    ensures r.Some? && s[0] != '-' ==> r.value >= 0
  {
    var neg := |s| > 0 && s[0] == '-';
    var digits := if |s| > 0 && (s[0] == '-' || s[0] == '+') then s[1..] else s;
    if |digits| == 0 || !AllDigits(digits) then None
    else
      var v: int := if neg then -(DigitsValue(digits) as int) else DigitsValue(digits);
      if Int64Min <= v <= Int64Max then Some(v) else None
  }

  function DigitChar(d: nat): (c: char)
    requires d < 10
    ensures IsDigit(c) && c as int - '0' as int == d
  {
    ('0' as int + d) as char
  }

  /** String interpolation of a non-negative integer: its decimal digits, no leading zero. */
  function Decimal(n: nat): (r: string)
    ensures |r| > 0 && AllDigits(r)
    ensures |r| > 1 ==> r[0] != '0'
    ensures DigitsValue(r) == n
  {
    if n < 10 then [DigitChar(n)] else
      var front := Decimal(n / 10);
      var r := front + [DigitChar(n % 10)];
      assert r[..|r| - 1] == front;
      r
  }

  /** `Int(String(n))` gives `n` back, for every count a 64-bit integer holds. */
  lemma ParseDecimal(n: nat)
    requires n <= Int64Max
    ensures ParseInt(Decimal(n)) == Some(n)
  {
  }

  /** Decimal rendering is injective. */
  lemma DecimalInjective(m: nat, n: nat)
    requires Decimal(m) == Decimal(n)
    ensures m == n
  {
  }

  /** A header value written as a space and a count is trimmed back to the count's digits. */
  lemma TrimSpacedDecimal(n: nat)
    ensures Trim(" " + Decimal(n)) == Decimal(n)
  {
    var d := Decimal(n);
    assert IsDigit(d[0]) && IsDigit(d[|d| - 1]);
    assert (" " + d)[1..] == d;
    assert TrimStart(" " + d, IsWhitespace) == TrimStart(d, IsWhitespace);
    DigitNotStripped(d);
  }

  lemma DigitNotStripped(d: string)
    requires |d| > 0 && IsDigit(d[0]) && IsDigit(d[|d| - 1])
    ensures TrimStart(d, IsWhitespace) == d && TrimEnd(d, IsWhitespace) == d
  {
    assert !IsWhitespace(d[0]) && !IsWhitespace(d[|d| - 1]);
  }

  /** No digit is a line break. */
  lemma DecimalHasNoCr(n: nat)
    ensures '\r' !in Decimal(n)
  {
    var d := Decimal(n);
    forall k | 0 <= k < |d|
      ensures d[k] != '\r'
    {
      assert IsDigit(d[k]);
    }
  }
}
