/**
  Text helpers the builder and the renderer rely on: the Unicode whitespace trim
  applied to cell text, the unsigned-integer parse applied to span attributes, and
  the decimal formatting the renderer uses to print spans.
*/
module Text {
  import opened Wrappers

  /** Characters with the Unicode White_Space property (the test behind Rust's `str::trim`). */
  predicate IsWhitespace(c: char)
  {
    ('\U{0009}' <= c <= '\U{000D}') || c == ' ' || c == '\U{0085}' || c == '\U{00A0}'
    || c == '\U{1680}' || ('\U{2000}' <= c <= '\U{200A}') || c == '\U{2028}' || c == '\U{2029}'
    || c == '\U{202F}' || c == '\U{205F}' || c == '\U{3000}'
  }

  /** The first position at or after `i` whose character is not whitespace, or `|s|`. */
  function SkipSpace(s: string, i: nat): (j: nat)
    requires i <= |s|
    ensures i <= j <= |s|
    ensures forall k :: i <= k < j ==> IsWhitespace(s[k])
    ensures j < |s| ==> !IsWhitespace(s[j])
    decreases |s| - i
  {
    if i < |s| && IsWhitespace(s[i]) then SkipSpace(s, i + 1) else i
  }

  /** The end of `s[..j]` once its trailing whitespace is dropped. */
  function BackSpace(s: string, j: nat): (e: nat)
    requires j <= |s|
    ensures e <= j
    ensures forall k :: e <= k < j ==> IsWhitespace(s[k])
    ensures e > 0 ==> !IsWhitespace(s[e - 1])
  {
    if j > 0 && IsWhitespace(s[j - 1]) then BackSpace(s, j - 1) else j
  }

  /** `s` without its leading whitespace. */
  function TrimStart(s: string): (r: string)
    ensures |r| <= |s| && forall k :: 0 <= k < |r| ==> r[k] == s[|s| - |r| + k]
    ensures forall k :: 0 <= k < |s| - |r| ==> IsWhitespace(s[k])
    ensures r == [] || !IsWhitespace(r[0])
  {
    s[SkipSpace(s, 0)..]
  }

  /** `s` without its trailing whitespace. */
  function TrimEnd(s: string): (r: string)
    ensures |r| <= |s| && forall k :: 0 <= k < |r| ==> r[k] == s[k]
    ensures forall k :: |r| <= k < |s| ==> IsWhitespace(s[k])
    ensures r == [] || !IsWhitespace(r[|r| - 1])
  {
    s[..BackSpace(s, |s|)]
  }

  /**
    `s` without leading and trailing whitespace: a prefix of `TrimStart(s)` that
    neither starts nor ends with whitespace, everything cut off being whitespace.
  */
  function Trim(s: string): (r: string)
    ensures |r| <= |TrimStart(s)| && forall k :: 0 <= k < |r| ==> r[k] == TrimStart(s)[k]
    ensures forall k :: |r| <= k < |TrimStart(s)| ==> IsWhitespace(TrimStart(s)[k])
    ensures r == [] || (!IsWhitespace(r[0]) && !IsWhitespace(r[|r| - 1]))
  {
    TrimEnd(TrimStart(s))
  }

  /** Trimming twice changes nothing. */
  lemma TrimIdempotent(s: string)
    ensures Trim(Trim(s)) == Trim(s)
  {
    var r := Trim(s);
    assert TrimStart(r) == r;
  }

  // ---------------------------------------------------------------- numbers

  /** The largest `usize` on a 64-bit target. */
  const UsizeMax: nat := 0xFFFF_FFFF_FFFF_FFFF

  predicate IsDigit(c: char)
  {
    '0' <= c <= '9'
  }

  predicate AllDigits(s: string)
  {
    forall k :: 0 <= k < |s| ==> IsDigit(s[k])
  }

  function DigitValue(c: char): nat
    requires IsDigit(c)
  {
    c as int - '0' as int
  }

  function DigitChar(d: nat): (c: char)
    requires d < 10
    ensures IsDigit(c) && DigitValue(c) == d
  {
    ('0' as int + d) as char
  }

  /** The number a run of decimal digits denotes (most significant digit first). */
  function DecimalValue(s: string): nat
    requires AllDigits(s)
    decreases |s|
  {
    if s == [] then 0 else 10 * DecimalValue(s[..|s| - 1]) + DigitValue(s[|s| - 1])
  }

  /** The digits that remain after the optional leading `+` that Rust's unsigned parse accepts. */
  function UnsignedDigits(s: string): string
  {
    if s != [] && s[0] == '+' then s[1..] else s
  }

  /**
    `s.parse::<usize>()`: an optional `+`, then at least one decimal digit and nothing
    else, and a value that fits in a `usize`; anything else is a failure (None).
  */
  function ParseUsize(s: string): (r: Option<nat>)
    ensures r.Some? ==> r.value <= UsizeMax
    ensures r.Some? ==> s != [] && s != "+" && forall k :: 0 <= k < |s| ==> IsDigit(s[k]) || (k == 0 && s[k] == '+')
    ensures s != [] && AllDigits(s) && DecimalValue(s) <= UsizeMax ==> r == Some(DecimalValue(s))
  {
    var d := UnsignedDigits(s);
    if d != [] && AllDigits(d) && DecimalValue(d) <= UsizeMax then Some(DecimalValue(d)) else None
  }

  /** `format!("{}", n)`: the shortest decimal numeral of `n`. */
  function DecimalString(n: nat): string
  {
    if n < 10 then [DigitChar(n)] else DecimalString(n / 10) + [DigitChar(n % 10)]
  }

  /**
    The numeral printed for `n` is a non-empty run of digits denoting `n`, without a
    leading zero, and it parses back to `n` whenever `n` fits in a `usize`.
  */
  lemma {:induction false} DecimalStringReadsBack(n: nat)
    ensures var s := DecimalString(n); s != [] && AllDigits(s) && DecimalValue(s) == n
    ensures var s := DecimalString(n); |s| == 1 || s[0] != '0'
    ensures n <= UsizeMax ==> ParseUsize(DecimalString(n)) == Some(n)
  {
    if n >= 10 {
      DecimalStringReadsBack(n / 10);
      var p := DecimalString(n / 10);
      var s := p + [DigitChar(n % 10)];
      assert s[..|s| - 1] == p;
    }
  }
}
