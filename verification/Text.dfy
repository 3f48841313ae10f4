/** Text as the printers write it and the parsers cut it. */
module Text {
  import opened Arithmetic
  import opened Strings
  import opened Version
  import opened Package

  /** strchr: the position of the first `c`, or the length. */
  function Find(s: string, c: char): (n: nat)
    ensures n <= |s| && (n < |s| ==> s[n] == c)
    ensures forall i :: 0 <= i < n ==> s[i] != c
  {
    if s == "" || s[0] == c then 0 else 1 + Find(s[1..], c)
  }

  lemma FindAt(s: string, c: char, n: nat)
    requires n < |s| && s[n] == c && forall i :: 0 <= i < n ==> s[i] != c
    ensures Find(s, c) == n
  {
  }

  predicate Free(s: string, c: char) { forall i :: 0 <= i < |s| ==> s[i] != c }

  /** What a C string function sees of a buffer. */
  function CString(s: string): string { s[..Find(s, '\0')] }

  // --- numbers

  const UintMax: nat := 0xffff_ffff

  function DigitChar(n: nat): (c: char)
    requires n < 10
    ensures IsDigit(c) && Digit(c) == n
  {
    '0' + n as char
  }

  /** printf("%u"). */
  function Decimal(n: nat): (s: string)
    ensures s != "" && AllDigits(s)
  {
    if n < 10 then [DigitChar(n)] else Decimal(n / 10) + [DigitChar(n % 10)]
  }

  lemma {:induction false} DecimalValue(n: nat)
    ensures Value(Decimal(n)) == n
  {
    var s := Decimal(n);
    if n < 10 {
      assert s[..|s| - 1] == "";
    } else {
      DecimalValue(n / 10);
      assert s[..|s| - 1] == Decimal(n / 10);
    }
  }

  function SkipSpaces(s: string): string { if s != "" && IsSpace(s[0]) then SkipSpaces(s[1..]) else s }

  /** strtoul or strtoull over the whole string, base ten and 64 bits: blanks and a
      sign may come first, a minus negates modulo 2^64. */
  function ParseUnsigned(s: string, max: nat): Option<nat> {
    var t := SkipSpaces(s);
    var digits := if t != "" && (t[0] == '-' || t[0] == '+') then t[1..] else t;
    if digits == "" || !AllDigits(digits) || Value(digits) < 0 || Value(digits) >= TwoTo64 then None
    else
      var v := if t[0] == '-' then (TwoTo64 - Value(digits)) % TwoTo64 else Value(digits);
      if v > max then None else Some(v)
  }

  lemma ParseDecimal(n: nat, max: nat)
    requires n <= max < TwoTo64
    ensures ParseUnsigned(Decimal(n), max) == Some(n)
  {
    DecimalValue(n);
    assert IsDigit(Decimal(n)[0]);
  }

  // --- substrings

  predicate OccursAt(s: string, pattern: string, i: nat) { i + |pattern| <= |s| && s[i..i + |pattern|] == pattern }

  lemma OccursInTail(s: string, pattern: string, i: nat)
    requires s != "" && 0 < i
    ensures OccursAt(s, pattern, i) <==> OccursAt(s[1..], pattern, i - 1)
  {
    if i + |pattern| <= |s| { assert s[1..][i - 1..i - 1 + |pattern|] == s[i..i + |pattern|]; }
  }

  /** strstr: the position of the first occurrence, or the length. */
  function FindText(s: string, pattern: string): (n: nat)
    requires pattern != ""
    ensures n <= |s| && (n < |s| ==> OccursAt(s, pattern, n))
    ensures forall i: nat :: i < n ==> !OccursAt(s, pattern, i)
  {
    if s == "" || OccursAt(s, pattern, 0) then 0
    else
      var n := 1 + FindText(s[1..], pattern);
      forall i: nat | 0 < i ensures OccursAt(s, pattern, i) <==> OccursAt(s[1..], pattern, i - 1) { OccursInTail(s, pattern, i); }
      n
  }

  lemma FindTextAt(s: string, pattern: string, n: nat)
    requires pattern != "" && OccursAt(s, pattern, n) && forall i: nat :: i < n ==> !OccursAt(s, pattern, i)
    ensures FindText(s, pattern) == n
  {
  }
}
