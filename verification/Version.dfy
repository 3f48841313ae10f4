/** Version strings: how the comparators cut them into parts, and the
    comparison loops, each proved equal to a walk over the lists of parts. */
module Version {
  import opened Strings

  /** What a comparator does on a part that does not fit its buffer. */
  datatype Overflow =
    | Fallback       // compare the whole strings with strcmp
    | FallbackAfter  // the same, but an exhausted side is noticed first
    | AsEnd          // take the string to have ended there
    | AsEqual        // call the versions equal

  /** Whether the character `d` continues the run that `c` belongs to. */
  predicate Joins(c: char, d: char, whole: bool) {
    IsAlnum(c) && IsAlnum(d) && (whole || IsDigit(c) == IsDigit(d))
  }

  /** The parts of a version, first one first. */
  datatype Parts = End | Part(text: string, rest: Parts)

  function Append(a: Parts, b: Parts): Parts {
    if a.End? then b else Part(a.text, Append(a.rest, b))
  }

  /** Cuts `s` into whole alphanumeric runs, or into runs cut again where digits
      and letters meet. */
  function Cut(s: string, whole: bool): (ps: Parts)
    ensures s != "" && IsAlnum(s[0]) ==> ps.Part?
  {
    if s == "" then End
    else
      var rest := Cut(s[1..], whole);
      if !IsAlnum(s[0]) then rest
      else if |s| > 1 && Joins(s[0], s[1], whole) then Part([s[0]] + rest.text, rest.rest)
      else Part([s[0]], rest)
  }

  function Pow10(n: nat): nat { if n == 0 then 1 else 10 * Pow10(n - 1) }

  function Digit(c: char): int { c as int - '0' as int }

  /** The number a digit string denotes. */
  function Value(s: string): int {
    if s == "" then 0 else 10 * Value(s[..|s| - 1]) + Digit(s[|s| - 1])
  }

  /** Numbers by value, words by strcmp, every number above every word. */
  function ComparePart(a: string, b: string): int {
    if AllDigits(a) && AllDigits(b) then Sign(Value(a) - Value(b))
    else if AllDigits(a) then 1
    else if AllDigits(b) then -1
    else StrCmp(a, b)
  }

  predicate TooLong(ps: Parts, limit: nat) { ps.Part? && |ps.text| >= limit }

  /** The common shape of the comparison loops: one part of each side at a time,
      `strcmp` being the strcmp of the complete strings. */
  function Walk(l: Parts, r: Parts, limit: nat, rule: Overflow, strcmp: int): int {
    var long := TooLong(l, limit) || TooLong(r, limit);
    if rule.FallbackAfter? && (l.End? || r.End?) then
      if l.Part? then 1 else if r.Part? then -1 else 0
    else if !rule.AsEnd? && long then
      if rule.AsEqual? then 0 else strcmp
    else
      var endL := l.End? || TooLong(l, limit);
      var endR := r.End? || TooLong(r, limit);
      if endL && endR then 0
      else if endL then -1
      else if endR then 1
      else
        var c := ComparePart(l.text, r.text);
        if c != 0 then c else Walk(l.rest, r.rest, limit, rule, strcmp)
  }

  function CompareWith(left: string, right: string, whole: bool, limit: nat, rule: Overflow): int {
    Walk(Cut(left, whole), Cut(right, whole), limit, rule, StrCmp(left, right))
  }

  /** src/resolver.c and src/db.c. */
  function CompareBoundary(left: string, right: string): int {
    CompareWith(left, right, false, 64, Fallback)
  }

  /** src/repo.c. */
  function CompareIndex(left: string, right: string): int {
    CompareWith(left, right, false, 128, FallbackAfter)
  }

  /** src/transaction.c. */
  function CompareRuns(left: string, right: string): int {
    CompareWith(left, right, true, 128, AsEnd)
  }

  /** src/cli.c. */
  function CompareCli(left: string, right: string): int {
    CompareWith(left, right, true, 128, AsEqual)
  }

  // --- digit strings by value

  lemma {:induction false} ValueBounds(s: string)
    requires AllDigits(s)
    ensures 0 <= Value(s) < Pow10(|s|)
    ensures s != "" && s[0] != '0' ==> Pow10(|s| - 1) <= Value(s)
  {
    if s != "" { ValueBounds(s[..|s| - 1]); }
  }

  lemma {:induction false} Pow10Monotone(m: nat, n: nat)
    requires m <= n
    ensures Pow10(m) <= Pow10(n)
  {
    if m < n { Pow10Monotone(m, n - 1); }
  }

  lemma {:induction false} LeadingZero(s: string)
    requires s != "" && s[0] == '0'
    ensures Value(s) == Value(s[1..])
  {
    if |s| > 1 {
      LeadingZero(s[..|s| - 1]);
      assert s[..|s| - 1][1..] == s[1..][..|s| - 2];
    }
  }

  lemma {:induction false} StrCmpSnoc(a: string, x: char, b: string, y: char)
    requires |a| == |b|
    ensures StrCmp(a + [x], b + [y]) ==
            if StrCmp(a, b) != 0 then StrCmp(a, b) else Sign(x as int - y as int)
  {
    if a != "" {
      assert (a + [x])[1..] == a[1..] + [x] && (b + [y])[1..] == b[1..] + [y];
      StrCmpSnoc(a[1..], x, b[1..], y);
    }
  }

  /** Equally long digit strings: strcmp orders them by value. */
  lemma {:induction false} EqualLengthByValue(a: string, b: string)
    requires AllDigits(a) && AllDigits(b) && |a| == |b|
    ensures StrCmp(a, b) == Sign(Value(a) - Value(b))
  {
    if a != "" {
      var n := |a| - 1;
      EqualLengthByValue(a[..n], b[..n]);
      StrCmpSnoc(a[..n], a[n], b[..n], b[n]);
      assert a == a[..n] + [a[n]] && b == b[..n] + [b[n]];
    }
  }

  method StripZeros(a: string, keepLast: bool) returns (x: string)
    requires AllDigits(a) && a != ""
    ensures AllDigits(x) && Value(x) == Value(a)
    ensures x != "" && x[0] == '0' ==> keepLast && |x| == 1
    ensures keepLast ==> x != ""
  {
    var i := 0;
    while i < |a| && a[i] == '0' && (keepLast ==> i + 1 < |a|)
      invariant i <= |a| && (keepLast ==> i < |a|)
      invariant Value(a[i..]) == Value(a)
    {
      LeadingZero(a[i..]);
      assert a[i..][1..] == a[i + 1..];
      i := i + 1;
    }
    x := a[i..];
  }

  /** Comparing two digit strings after dropping leading zeros: first the
      lengths, then strcmp. The resolver family keeps a last zero, the run
      family drops them all. */
  method CompareNumbers(a: string, b: string, keepLast: bool) returns (c: int)
    requires AllDigits(a) && AllDigits(b) && a != "" && b != ""
    ensures c == Sign(Value(a) - Value(b))
  {
    var x := StripZeros(a, keepLast);
    var y := StripZeros(b, keepLast);
    ValueBounds(x);
    ValueBounds(y);
    if |x| < |y| {
      Pow10Monotone(|x|, |y| - 1);
      return -1;
    }
    if |x| > |y| {
      Pow10Monotone(|y|, |x| - 1);
      return 1;
    }
    EqualLengthByValue(x, y);
    c := StrCmp(x, y);
  }
}
