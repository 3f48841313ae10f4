/** The 512-byte header of a ustar archive member: written by the builder, read by
    the validator and the extractor. */
module Ustar {
  import opened Arithmetic
  import opened Package

  const BlockSize := 512
  const NameSize := 100

  /** What a header says of a member. */
  datatype Member = Member(name: string, mode: nat, size: nat, kind: char, target: string)

  const RegularKind := '\0'
  const OtherRegularKind := '0'
  const HardKind := '1'
  const LinkKind := '2'
  const DirectoryKind := '5'

  // --- octal fields

  function Pow8(n: nat): (p: nat)
    ensures p > 0
  {
    if n == 0 then 1 else 8 * Pow8(n - 1)
  }

  function OctalDigit(n: nat): (c: char)
    requires n < 8
    ensures '0' <= c <= '7' && c as int - '0' as int == n
  {
    '0' + n as char
  }

  /** The last `k` octal digits of `n`. */
  function Octal(n: nat, k: nat): (s: string)
    ensures |s| == k && forall i :: 0 <= i < k ==> '0' <= s[i] <= '7'
  {
    if k == 0 then "" else Octal(n / 8, k - 1) + [OctalDigit(n % 8)]
  }

  function OctalValue(s: string): int {
    if s == "" then 0 else 8 * OctalValue(s[..|s| - 1]) + (s[|s| - 1] as int - '0' as int)
  }

  lemma {:induction false} OctalReads(n: nat, k: nat)
    requires n < Pow8(k)
    ensures OctalValue(Octal(n, k)) == n
  {
    if k > 0 {
      OctalReads(n / 8, k - 1);
      assert Octal(n, k)[..k - 1] == Octal(n / 8, k - 1);
    }
  }

  predicate Filler(c: char) { c == ' ' || c == '\0' }

  /** The text of a numeric field: fillers, digits, and a filler or the end. */
  function SkipFillers(s: string): string { if s != "" && Filler(s[0]) then SkipFillers(s[1..]) else s }

  function UntilFiller(s: string): string { if s == "" || Filler(s[0]) then "" else [s[0]] + UntilFiller(s[1..]) }

  /** parse_octal, in 64 bits. */
  function ParseOctal(field: string): Option<nat> {
    var digits := UntilFiller(SkipFillers(field));
    if digits == "" || (exists i :: 0 <= i < |digits| && !('0' <= digits[i] <= '7')) then None
    else if OctalValue(digits) < 0 || OctalValue(digits) >= TwoTo64 then None
    else Some(OctalValue(digits))
  }

  lemma {:induction false} UntilFillerStops(digits: string, rest: string)
    requires forall i :: 0 <= i < |digits| ==> !Filler(digits[i])
    requires rest == "" || Filler(rest[0])
    ensures UntilFiller(digits + rest) == digits
  {
    var s := digits + rest;
    if digits == "" {
      assert s == rest;
    } else {
      assert s[0] == digits[0] && s[1..] == digits[1..] + rest;
      UntilFillerStops(digits[1..], rest);
      assert digits == [digits[0]] + digits[1..];
    }
  }

  /** A number in a field with room for it reads back. */
  lemma ParseWritten(n: nat, k: nat, rest: string)
    requires 0 < k && n < Pow8(k) && n < TwoTo64 && rest != "" && Filler(rest[0])
    ensures ParseOctal(Octal(n, k) + rest) == Some(n)
  {
    var digits := Octal(n, k);
    OctalReads(n, k);
    assert (digits + rest)[0] == digits[0];
    UntilFillerStops(digits, rest);
  }

  lemma {:induction false} OctalShort(n: nat, k: nat, j: nat)
    requires j <= k && n < Pow8(j)
    ensures Octal(n, k)[k - j..] == Octal(n, j) && forall i :: 0 <= i < k - j ==> Octal(n, k)[i] == '0'
  {
    if j > 0 {
      OctalShort(n / 8, k - 1, j - 1);
      assert Octal(n, k)[k - j..] == Octal(n / 8, k - 1)[k - j..] + [OctalDigit(n % 8)];
    } else if k > 0 {
      OctalShort(0, k - 1, 0);
    }
  }

  lemma {:induction false} OctalSuffix(n: nat, k: nat)
    ensures Octal(n, k + 1) == [OctalDigit(n / Pow8(k) % 8)] + Octal(n, k)
  {
    if k > 0 {
      OctalSuffix(n / 8, k - 1);
      DivideTwice(n, Pow8(k - 1));
      assert Octal(n, k + 1) == [OctalDigit(n / 8 / Pow8(k - 1) % 8)] + Octal(n / 8, k - 1) + [OctalDigit(n % 8)];
    }
  }

  lemma DivideTwice(n: nat, p: nat)
    requires p > 0
    ensures n / 8 / p == n / (8 * p) && n / p / 8 == n / (8 * p)
  {
    Quotient(n, 8, p);
    Quotient(n, p, 8);
    assert p * 8 == 8 * p;
  }

  /** write_octal into `field[at..at + size]`. */
  method WriteOctal(field: array<char>, at: nat, size: nat, value: nat) returns (ok: bool)
    requires 2 <= size && at + size <= field.Length
    modifies field
    ensures ok <==> value < Pow8(size - 1)
    ensures ok ==> field[at..at + size] == Octal(value, size - 1) + "\0"
    ensures forall i :: 0 <= i < field.Length && !(at <= i < at + size) ==> field[i] == old(field[i])
  {
    hide Octal, Pow8;
    NoDigits(value);
    forall i | at <= i < at + size { field[i] := '0'; }
    field[at + size - 1] := '\0';
    var rest, index, more := value, size - 1, true;
    while more
      invariant 0 <= index <= size - 1
      invariant rest == value / Pow8(size - 1 - index)
      invariant field[at + index..at + size] == Octal(value, size - 1 - index) + "\0"
      invariant forall i :: at <= i < at + index ==> field[i] == '0'
      invariant forall i :: 0 <= i < field.Length && !(at <= i < at + size) ==> field[i] == old(field[i])
      invariant more <==> index == size - 1 || (rest != 0 && index > 0)
      decreases index + if more then 1 else 0
    {
      ghost var k := size - 1 - index;
      ghost var done := field[at + index..at + size];
      index := index - 1;
      NextPower(value, k);
      if index == 0 && rest > 7 {
        Overflows(value, size - 1);
        return false;
      }
      field[at + index] := OctalDigit(rest % 8);
      OctalSuffix(value, k);
      assert field[at + index..at + size] == [OctalDigit(rest % 8)] + done;
      rest := rest / 8;
      more := rest != 0 && index > 0;
    }
    ok := rest == 0;
    Overflows(value, size - 1);
    if ok { FilledUp(value, size - 1, size - 1 - index, field[at..at + size]); }
  }

  lemma Overflows(n: nat, k: nat)
    ensures n / Pow8(k) == 0 <==> n < Pow8(k)
  {
    SmallQuotient(n, Pow8(k));
  }

  lemma NoDigits(n: nat)
    ensures Octal(n, 0) == "" && n / Pow8(0) == n
  {
  }

  lemma NextPower(n: nat, k: nat)
    ensures n / Pow8(k) / 8 == n / Pow8(k + 1)
  {
    DivideTwice(n, Pow8(k));
  }

  /** Zeros in front of the digits that are needed. */
  lemma FilledUp(n: nat, k: nat, j: nat, s: string)
    requires j <= k && n / Pow8(j) == 0 && |s| == k + 1
    requires s[k - j..] == Octal(n, j) + "\0" && forall i :: 0 <= i < k - j ==> s[i] == '0'
    ensures n < Pow8(k) && s == Octal(n, k) + "\0"
  {
    Overflows(n, j);
    PowersGrow(j, k);
    OctalShort(n, k, j);
    var t := Octal(n, k) + "\0";
    assert t[k - j..] == s[k - j..];
    assert s == s[..k - j] + s[k - j..] && t == t[..k - j] + t[k - j..];
  }

  lemma {:induction false} PowersGrow(j: nat, k: nat)
    requires j <= k
    ensures Pow8(j) <= Pow8(k)
  {
    if j < k { PowersGrow(j, k - 1); }
  }
}
