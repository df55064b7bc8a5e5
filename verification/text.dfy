/** The Kotlin standard-library string rules the editor relies on: blank
    strings, case-insensitive comparison and search, lower-casing, decimal
    rendering of integers and `String.toLongOrNull`. Case mapping is the ASCII
    one. */
module Text {
  import opened Wrappers

  /** Kotlin's `Char.isWhitespace` on the characters it accepts. */
  predicate IsWhitespace(c: char) {
    c == ' ' || c == '\t' || c == '\n' || c == '\r' || c == '\U{B}' || c == '\U{C}'
    || ('\U{1C}' <= c <= '\U{1F}') || c == '\U{85}' || c == '\U{A0}' || c == '\U{1680}'
    || ('\U{2000}' <= c <= '\U{200A}') || c == '\U{2028}' || c == '\U{2029}' || c == '\U{202F}'
    || c == '\U{205F}' || c == '\U{3000}'
  }

  /** Kotlin's `isBlank`: empty or whitespace only. */
  predicate IsBlank(s: string) {
    forall i :: 0 <= i < |s| ==> IsWhitespace(s[i])
  }

  predicate HasNewline(s: string) {
    '\n' in s
  }

  function UpperChar(c: char): char {
    if 'a' <= c <= 'z' then (c as int - 32) as char else c
  }

  function LowerChar(c: char): char {
    if 'A' <= c <= 'Z' then (c as int + 32) as char else c
  }

  /** Kotlin's `lowercase()`. */
  function Lowercase(s: string): (r: string)
    ensures |r| == |s|
    ensures forall i :: 0 <= i < |s| ==> r[i] == LowerChar(s[i])
  {
    seq(|s|, i requires 0 <= i < |s| => LowerChar(s[i]))
  }

  /** Kotlin's `Char.equals(other, ignoreCase = true)`. */
  predicate CharEqualsIgnoreCase(a: char, b: char) {
    a == b || UpperChar(a) == UpperChar(b)
  }

  /** Kotlin's `String.equals(other, ignoreCase = true)`. */
  predicate EqualsIgnoreCase(a: string, b: string) {
    |a| == |b| && forall i :: 0 <= i < |a| ==> CharEqualsIgnoreCase(a[i], b[i])
  }

  /** `query` occurs in `text` at position `start`, ignoring case. */
  predicate RegionMatches(text: string, start: nat, query: string)
    requires start + |query| <= |text|
  {
    forall j :: 0 <= j < |query| ==> CharEqualsIgnoreCase(text[start + j], query[j])
  }

  /** Kotlin's `contains(query, ignoreCase = true)`: scans the start positions
      from `from` on. */
  function ContainsFrom(text: string, query: string, from: nat): (r: bool)
    requires from + |query| <= |text| + 1
    ensures r <==> exists i :: from <= i && i + |query| <= |text| && RegionMatches(text, i, query)
    decreases |text| + 1 - from
  {
    if from + |query| > |text| then false
    else if RegionMatches(text, from, query) then true
    else ContainsFrom(text, query, from + 1)
  }

  /** Case-insensitive substring test, as Kotlin's `contains(query, true)`. */
  function ContainsIgnoreCase(text: string, query: string): (r: bool)
    ensures r <==> exists i :: 0 <= i && i + |query| <= |text| && RegionMatches(text, i, query)
  {
    if |query| > |text| then false else ContainsFrom(text, query, 0)
  }

  /** A word of lower-case ASCII letters. */
  predicate LowerWord(w: string) {
    forall i :: 0 <= i < |w| ==> 'a' <= w[i] <= 'z'
  }

  /** Against a lower-case word, comparing ignoring case is comparing the
      lower-cased text. */
  lemma EqualsIgnoreCaseLower(s: string, w: string)
    requires LowerWord(w)
    ensures EqualsIgnoreCase(s, w) <==> Lowercase(s) == w
  {
    if |s| == |w| {
      forall i | 0 <= i < |s|
        ensures CharEqualsIgnoreCase(s[i], w[i]) <==> Lowercase(s)[i] == w[i]
      {
      }
      if Lowercase(s) != w {
        var i :| 0 <= i < |s| && Lowercase(s)[i] != w[i];
        assert !CharEqualsIgnoreCase(s[i], w[i]);
      }
    }
  }

  /** Two queries equal up to case are blank together. */
  lemma BlankIgnoresCase(a: string, b: string)
    requires EqualsIgnoreCase(a, b)
    ensures IsBlank(a) <==> IsBlank(b)
  {
    forall i | 0 <= i < |a|
      ensures IsWhitespace(a[i]) <==> IsWhitespace(b[i])
    {
      assert CharEqualsIgnoreCase(a[i], b[i]);
    }
  }

  /** Two queries equal up to case occur in the same texts. */
  lemma ContainsIgnoresQueryCase(text: string, a: string, b: string)
    requires EqualsIgnoreCase(a, b)
    ensures ContainsIgnoreCase(text, a) <==> ContainsIgnoreCase(text, b)
  {
    forall i | 0 <= i && i + |a| <= |text|
      ensures RegionMatches(text, i, a) <==> RegionMatches(text, i, b)
    {
      forall j | 0 <= j < |a|
        ensures CharEqualsIgnoreCase(text[i + j], a[j]) <==> CharEqualsIgnoreCase(text[i + j], b[j])
      {
        assert CharEqualsIgnoreCase(a[j], b[j]);
      }
    }
  }

  // --- Decimal numbers ---

  const MinLong: int := -0x8000_0000_0000_0000
  const MaxLong: int := 0x7FFF_FFFF_FFFF_FFFF

  predicate IsDigit(c: char) {
    '0' <= c <= '9'
  }

  predicate AllDigits(s: string) {
    forall i :: 0 <= i < |s| ==> IsDigit(s[i])
  }

  function DigitChar(d: nat): char
    requires d < 10
  {
    ('0' as int + d) as char
  }

  /** The value of a string of decimal digits, most significant first. */
  function DigitsValue(s: string): nat
    requires AllDigits(s)
  {
    if |s| == 0 then 0
    else 10 * DigitsValue(s[..|s| - 1]) + (s[|s| - 1] as int - '0' as int)
  }

  /** Decimal rendering of a natural, as Kotlin's `Int.toString()` / `"$n"`. */
  function NatToString(n: nat): (r: string)
    ensures |r| >= 1 && AllDigits(r)
    ensures DigitsValue(r) == n
  {
    if n < 10 then [DigitChar(n)]
    else
      var r := NatToString(n / 10) + [DigitChar(n % 10)];
      assert r[..|r| - 1] == NatToString(n / 10);
      r
  }

  /** Distinct naturals render to distinct strings. */
  lemma NatToStringInjective(a: nat, b: nat)
    requires NatToString(a) == NatToString(b)
    ensures a == b
  {
    assert DigitsValue(NatToString(a)) == a;
  }

  /** Decimal rendering of a 64-bit value, as Kotlin's `Long.toString()`. */
  function LongToString(v: int): string {
    if v < 0 then "-" + NatToString(-v) else NatToString(v)
  }

  /** Kotlin's `String.toLongOrNull()` in radix 10: an optional leading sign
      followed by at least one digit, and the value must fit in 64 bits. The
      overflow checks of the digit loop are stated by their net effect. */
  function ParseLong(s: string): (r: Option<int>)
    ensures r.Some? ==> MinLong <= r.value <= MaxLong
  {
    if |s| == 0 then None
    else if s[0] < '0' then
      if |s| == 1 then None
      else if s[0] == '-' then
        if AllDigits(s[1..]) && DigitsValue(s[1..]) <= -MinLong then Some(0 - DigitsValue(s[1..])) else None
      else if s[0] == '+' then
        if AllDigits(s[1..]) && DigitsValue(s[1..]) <= MaxLong then Some(DigitsValue(s[1..])) else None
      else None
    else if AllDigits(s) && DigitsValue(s) <= MaxLong then Some(DigitsValue(s))
    else None
  }

  /** Every 64-bit value reads back from its own decimal rendering. */
  lemma ParseLongOfLongToString(v: int)
    requires MinLong <= v <= MaxLong
    ensures ParseLong(LongToString(v)) == Some(v)
  {
    if v < 0 {
      var s := LongToString(v);
      assert s[1..] == NatToString(-v);
    }
  }

  /** The floating-point side of the runtime, left abstract: whether
      `String.toDoubleOrNull` accepts a text, and the content a
      `JsonPrimitive` built from the double read from that text carries. */
  datatype DoubleSyntax = DoubleSyntax(isDouble: string -> bool, render: string -> string)
}
