/** A whole header: what the builder fills in and what the readers take from it. */
module UstarHeader {
  import opened Package
  import opened Text
  import opened ManifestText
  import opened Tree
  import opened Ustar

  // --- writing

  function At(s: string, i: nat): char { if i < |s| then s[i] else '\0' }

  function OctalField(n: nat, width: nat): (s: string)
    requires width > 0
    ensures |s| == width
  {
    Octal(n, width - 1) + "\0"
  }

  /** The bytes of a header, with blanks for the checksum. */
  function HeaderByte(m: Member, i: nat): char
    requires i < BlockSize
  {
    if i < 100 then At(m.name, i)
    else if i < 108 then OctalField(m.mode, 8)[i - 100]
    else if i < 116 then OctalField(0, 8)[i - 108]
    else if i < 124 then OctalField(0, 8)[i - 116]
    else if i < 136 then OctalField(m.size, 12)[i - 124]
    else if i < 148 then OctalField(0, 12)[i - 136]
    else if i < 156 then ' '
    else if i < 157 then m.kind
    else if i < 257 then At(m.target, i - 157)
    else if i < 265 then "ustar\000"[i - 257]
    else if i < 297 then At("root", i - 265)
    else if i < 329 then At("root", i - 297)
    else '\0'
  }

  function Unsummed(m: Member): (h: string)
    ensures |h| == BlockSize && forall i :: 0 <= i < BlockSize ==> h[i] == HeaderByte(m, i)
  {
    seq(BlockSize, i requires 0 <= i < BlockSize => HeaderByte(m, i))
  }

  function Sum(s: string): nat { if s == "" then 0 else Sum(s[..|s| - 1]) + s[|s| - 1] as nat }

  function SumField(n: nat): (s: string)
    ensures |s| == 8
  {
    Octal(n, 6) + "\0 "
  }

  /** The header with its checksum. */
  function HeaderOf(m: Member): (h: string)
    ensures |h| == BlockSize
  {
    Unsummed(m)[..148] + SumField(Sum(Unsummed(m))) + Unsummed(m)[156..]
  }

  predicate Bytes(s: string) { forall i :: 0 <= i < |s| ==> s[i] as int < 256 }

  /** The fields fit: what write_header demands. */
  predicate Fits(m: Member) {
    |m.name| <= NameSize && |m.target| <= NameSize && m.mode < Pow8(7) && m.size < Pow8(11)
    && Bytes(m.name) && Bytes(m.target) && m.kind as int < 256
  }

  method CopyText(h: array<char>, at: nat, text: string)
    requires at + |text| <= h.Length
    modifies h
    ensures forall i :: 0 <= i < h.Length ==> h[i] == if at <= i < at + |text| then text[i - at] else old(h[i])
  {
    forall i | 0 <= i < |text| { h[at + i] := text[i]; }
  }

  /** The number fields, at their places. */
  method FillNumbers(h: array<char>, m: Member) returns (ok: bool)
    requires h.Length == BlockSize && m.mode < Pow8(7)
    modifies h
    ensures ok <==> m.size < Pow8(11)
    ensures ok ==> forall i :: 100 <= i < 148 ==> h[i] == HeaderByte(m, i)
    ensures forall i :: 0 <= i < BlockSize && !(100 <= i < 148) ==> h[i] == old(h[i])
  {
    hide Octal, Pow8;
    NoOverflow();
    var done := WriteOctal(h, 100, 8, m.mode);
    if !done { assert false; }
    assert forall i :: 100 <= i < 108 ==> h[i] == h[100..108][i - 100];
    done := WriteOctal(h, 108, 8, 0);
    if !done { assert false; }
    assert forall i :: 108 <= i < 116 ==> h[i] == h[108..116][i - 108];
    done := WriteOctal(h, 116, 8, 0);
    if !done { assert false; }
    assert forall i :: 116 <= i < 124 ==> h[i] == h[116..124][i - 116];
    ok := WriteOctal(h, 124, 12, m.size);
    if !ok { return; }
    assert forall i :: 124 <= i < 136 ==> h[i] == h[124..136][i - 124];
    done := WriteOctal(h, 136, 12, 0);
    if !done { assert false; }
    assert forall i :: 136 <= i < 148 ==> h[i] == h[136..148][i - 136];
  }

  lemma NoOverflow()
    ensures 0 < Pow8(7) && 0 < Pow8(11)
  {
  }

  /** write_header, up to the checksum. */
  method FillHeader(h: array<char>, m: Member) returns (ok: bool)
    requires h.Length == BlockSize && m.mode < Pow8(7) && |m.target| <= NameSize
    modifies h
    ensures ok <==> |m.name| <= NameSize && m.size < Pow8(11)
    ensures ok ==> h[..] == Unsummed(m)
  {
    hide OctalField, Pow8;
    if |m.name| > NameSize { return false; }
    forall i | 0 <= i < BlockSize { h[i] := '\0'; }
    CopyText(h, 0, m.name);
    ok := FillNumbers(h, m);
    if !ok { return; }
    forall i | 148 <= i < 156 { h[i] := ' '; }
    h[156] := m.kind;
    CopyText(h, 157, m.target);
    CopyText(h, 257, "ustar\000");
    CopyText(h, 265, "root");
    CopyText(h, 297, "root");
    assert forall i :: 0 <= i < BlockSize ==> h[i] == HeaderByte(m, i);
  }

  lemma {:induction false} SumBound(s: string)
    requires Bytes(s)
    ensures Sum(s) <= 255 * |s|
  {
    if s != "" { SumBound(s[..|s| - 1]); }
  }

  lemma UnsummedBytes(m: Member)
    requires Fits(m)
    ensures Bytes(Unsummed(m))
  {
    hide Octal, Pow8;
  }

  /** write_header: the complete header, when name and size fit. */
  method WriteHeader(m: Member) returns (header: Option<string>)
    requires m.mode < Pow8(7) && |m.target| <= NameSize && Bytes(m.name) && Bytes(m.target) && m.kind as int < 256
    ensures header == if |m.name| <= NameSize && m.size < Pow8(11) then Some(HeaderOf(m)) else None
  {
    var h := new char[BlockSize];
    var ok := FillHeader(h, m);
    if !ok { return None; }
    var sum := 0;
    for i := 0 to BlockSize
      invariant sum == Sum(h[..i])
    {
      assert h[..i + 1][..i] == h[..i];
      sum := sum + h[i] as nat;
    }
    assert h[..BlockSize] == h[..];
    ghost var spaced := h[..];
    SumStaysSmall(m);
    assert sum <= 0x1f_ffff;
    CopyText(h, 148, SumField(sum));
    assert h[..] == spaced[..148] + SumField(sum) + spaced[156..];
    header := Some(h[..]);
  }

  /** The sum of the bytes never exceeds what six octal digits hold. */
  lemma SumStaysSmall(m: Member)
    requires Fits(m)
    ensures Sum(Unsummed(m)) <= 255 * BlockSize < Pow8(6)
  {
    assert Pow8(6) == 262144;
    UnsummedBytes(m);
    SumBound(Unsummed(m));
  }

  // --- reading

  /** The text of a field, up to the first NUL. */
  function FieldText(h: string, at: nat, size: nat): string
    requires at + size <= |h|
  {
    CString(h[at..at + size])
  }

  function Blanked(h: string): string
    requires |h| == BlockSize
  {
    h[..148] + "        " + h[156..]
  }

  predicate ZeroBlock(h: string) { forall i :: 0 <= i < |h| ==> h[i] == '\0' }

  function Strip(path: string): string { if path != "" && path[|path| - 1] == '/' then path[..|path| - 1] else path }

  /** safe_relative_path of the readers: a final slash is not part of a name. */
  predicate SafeName(path: string) { path != "" && path[0] != '/' && |path| < 4096 && SafePath(Strip(path)) }

  const ManifestName := "META/manifest"
  const PayloadPrefix := "payload/"

  predicate InPayload(name: string) { |name| >= 8 && name[..8] == PayloadPrefix }

  /** is_allowed_path. */
  predicate Allowed(name: string) {
    (Strip(name) == "META" || Strip(name) == ManifestName || Strip(name) == "payload" || InPayload(Strip(name)))
    && SafeName(name)
  }

  predicate Extension(kind: char) { kind == 'x' || kind == 'g' || kind == 'K' || kind == 'L' || kind == 'S' }

  predicate Supported(kind: char) {
    kind == RegularKind || kind == OtherRegularKind || kind == DirectoryKind || kind == LinkKind
  }

  datatype Header = Zero | Invalid | Valid(name: string, size: nat, kind: char)

  /** The checks both readers make on a header. */
  function ReadHeader(h: string): Header
    requires |h| == BlockSize
  {
    if ZeroBlock(h) then Zero
    else if FieldText(h, 257, 6) != "ustar" then Invalid
    else if ParseOctal(h[148..156]) != Some(Sum(Blanked(h))) then Invalid
    else
      var name, size, kind := FieldText(h, 0, 100), ParseOctal(h[124..136]), h[156];
      if name == "" || size.None? || Extension(kind) || !Allowed(name) || kind == HardKind then Invalid
      else if kind == LinkKind && (size.value != 0 || !Scalar(FieldText(h, 157, 100))) then Invalid
      else if !Supported(kind) then Invalid
      else Valid(name, size.value, kind)
  }

  // --- what was written is read

  lemma TextOfField(s: string, field: string, size: nat)
    requires |s| <= size == |field| && Free(s, '\0')
    requires forall i :: 0 <= i < size ==> field[i] == At(s, i)
    ensures CString(field) == s
  {
    if |s| < size { FindAt(field, '\0', |s|); }
    assert field[..|s|] == s;
  }

  lemma Slices(m: Member)
    ensures var h := HeaderOf(m);
      && (forall i :: 0 <= i < 100 ==> h[0..100][i] == At(m.name, i))
      && h[100..108] == OctalField(m.mode, 8) && h[124..136] == OctalField(m.size, 12)
      && h[148..156] == SumField(Sum(Unsummed(m))) && h[156] == m.kind
      && (forall i :: 0 <= i < 100 ==> h[157..257][i] == At(m.target, i))
      && h[257..263] == "ustar\0" && h[257] == 'u' && Blanked(h) == Unsummed(m)
  {
    hide OctalField, SumField, Sum;
    var h, u := HeaderOf(m), Unsummed(m);
    assert forall i :: 0 <= i < 148 ==> h[i] == u[i];
    assert forall i :: 156 <= i < BlockSize ==> h[i] == u[i];
    assert h[148..156] == SumField(Sum(u));
    assert h[100..108] == OctalField(m.mode, 8);
    assert h[124..136] == OctalField(m.size, 12);
    assert HeaderByte(m, 257) == 'u';
    assert h[257..263] == "ustar\0";
    assert Blanked(h) == u;
  }

  /** What the readers make of a written header. */
  lemma HeaderReads(m: Member)
    requires Fits(m) && Free(m.name, '\0') && Free(m.target, '\0') && Allowed(m.name) && Supported(m.kind)
    requires m.kind == LinkKind ==> m.size == 0 && Scalar(m.target)
    ensures ReadHeader(HeaderOf(m)) == Valid(m.name, m.size, m.kind)
    ensures FieldText(HeaderOf(m), 157, 100) == m.target && ParseOctal(HeaderOf(m)[100..108]) == Some(m.mode)
  {
    hide Octal, SumField, Sum, HeaderOf, Unsummed, Allowed, Scalar, ParseOctal;
    var h := HeaderOf(m);
    Slices(m);
    TextOfField(m.name, h[0..100], 100);
    TextOfField(m.target, h[157..257], 100);
    TextOfField("ustar", h[257..263], 6);
    NumbersRead(m);
    assert m.name != "" by { AllowedNotEmpty(m.name); }
  }

  lemma AllowedNotEmpty(name: string)
    requires Allowed(name)
    ensures name != ""
  {
  }

  lemma NumbersRead(m: Member)
    requires Fits(m)
    ensures ParseOctal(OctalField(m.mode, 8)) == Some(m.mode) && ParseOctal(OctalField(m.size, 12)) == Some(m.size)
    ensures ParseOctal(SumField(Sum(Unsummed(m)))) == Some(Sum(Unsummed(m)))
  {
    hide Octal, ParseOctal, Sum, Unsummed, Pow8;
    PowersOfEight();
    ParseWritten(m.mode, 7, "\0");
    ParseWritten(m.size, 11, "\0");
    SumStaysSmall(m);
    ParseWritten(Sum(Unsummed(m)), 6, "\0 ");
  }

  lemma PowersOfEight()
    ensures Pow8(6) == 262144 && Pow8(7) == 2097152 && Pow8(11) == 8589934592
  {
    assert Pow8(3) == 512;
    assert Pow8(6) == 262144;
    assert Pow8(9) == 134217728;
  }
}
