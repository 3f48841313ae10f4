/** How long a manifest prints, and what the parser can have read so far. */
module ManifestSize {
  import opened Arithmetic
  import opened Version
  import opened Package
  import opened Text
  import opened ManifestText

  // --- sizes

  function FieldsSize(fs: Fields): nat { if fs.NoField? then 0 else |Line(fs.key, fs.value)| + 1 + FieldsSize(fs.rest) }

  lemma {:induction false} PrintedSize(fs: Fields, tail: string)
    ensures |PrintFields(fs, tail)| == FieldsSize(fs) + |tail|
    decreases fs
  {
    hide Line;
    if fs.OneField? { PrintedSize(fs.rest, tail); }
  }

  function ScalarSize(m: Manifest, k: Key): nat
    requires !IsList(k)
  {
    if Field(m, k) == "" then 0 else |Line(k, Field(m, k))| + 1
  }

  function ItemsSize(k: Key, items: seq<string>): nat {
    if items == [] then 0 else ItemsSize(k, items[..|items| - 1]) + |Line(k, items[|items| - 1])| + 1
  }

  function SizeAt(m: Manifest, k: Key): nat { if IsList(k) then ItemsSize(k, Items(m, k)) else ScalarSize(m, k) }

  function SizeOf(m: Manifest): nat {
    SizeAt(m, Format) + SizeAt(m, Name) + SizeAt(m, Version) + SizeAt(m, Release) + SizeAt(m, Arch) + SizeAt(m, Description)
    + SizeAt(m, License) + SizeAt(m, Depends) + SizeAt(m, Provides) + SizeAt(m, Conflicts) + SizeAt(m, Replaces)
  }

  lemma {:induction false} ItemsThenSize(k: Key, items: seq<string>, rest: Fields)
    ensures FieldsSize(FieldsThen(k, items, rest)) == ItemsSize(k, items) + FieldsSize(rest)
    decreases |items|
  {
    hide Line;
    if items != [] {
      ItemsThenSize(k, items[1..], rest);
      ItemsSizeFront(k, items);
    }
  }

  lemma {:induction false} ItemsSizeFront(k: Key, items: seq<string>)
    requires items != []
    ensures ItemsSize(k, items) == |Line(k, items[0])| + 1 + ItemsSize(k, items[1..])
    decreases |items|
  {
    hide Line;
    if |items| > 1 {
      ItemsSizeFront(k, items[..|items| - 1]);
      assert items[..|items| - 1][1..] == items[1..][..|items| - 2];
    }
  }

  lemma IfSetSize(m: Manifest, k: Key, rest: Fields)
    requires !IsList(k)
    ensures FieldsSize(IfSet(m, k, rest)) == ScalarSize(m, k) + FieldsSize(rest)
  {
    hide Line, Field;
  }

  lemma ListsSize(m: Manifest)
    ensures FieldsSize(ListFields(m)) ==
      SizeAt(m, Depends) + SizeAt(m, Provides) + SizeAt(m, Conflicts) + SizeAt(m, Replaces)
  {
    hide ItemsSize, FieldsThen;
    var f := NoField;
    ItemsThenSize(Replaces, m.replaced, f);
    f := FieldsThen(Replaces, m.replaced, f);
    ItemsThenSize(Conflicts, m.conflicts, f);
    f := FieldsThen(Conflicts, m.conflicts, f);
    ItemsThenSize(Provides, m.provided, f);
    f := FieldsThen(Provides, m.provided, f);
    ItemsThenSize(Depends, m.depends, f);
  }

  lemma ScalarsSize(m: Manifest, rest: Fields)
    ensures FieldsSize(ScalarFields(m, rest)) ==
      ScalarSize(m, Format) + ScalarSize(m, Name) + ScalarSize(m, Version) + ScalarSize(m, Release) + ScalarSize(m, Arch)
      + ScalarSize(m, Description) + ScalarSize(m, License) + FieldsSize(rest)
  {
    hide IfSet, ScalarSize, FieldsSize;
    var f := rest;
    IfSetSize(m, License, f);
    f := IfSet(m, License, f);
    IfSetSize(m, Description, f);
    f := IfSet(m, Description, f);
    IfSetSize(m, Arch, f);
    f := IfSet(m, Arch, f);
    IfSetSize(m, Release, f);
    f := IfSet(m, Release, f);
    IfSetSize(m, Version, f);
    f := IfSet(m, Version, f);
    IfSetSize(m, Name, f);
    f := IfSet(m, Name, f);
    IfSetSize(m, Format, f);
  }

  lemma SizeIsPrinted(m: Manifest)
    ensures FieldsSize(FieldsOf(m)) == SizeOf(m)
  {
    hide ScalarFields, ListFields, ScalarSize, ItemsSize, FieldsSize;
    ListsSize(m);
    ScalarsSize(m, ListFields(m));
  }

  // --- what a line adds

  lemma {:induction false} DecimalLength(n: nat, k: nat)
    requires n < Pow10(k) && k > 0
    ensures |Decimal(n)| <= k
  {
    if n >= 10 {
      assert k > 1;
      DecimalLength(n / 10, k - 1);
    }
  }

  /** A number prints in no more characters than it was read from. */
  lemma NumberShrinks(value: string, n: nat)
    requires ParseUnsigned(value, UintMax) == Some(n)
    ensures |Decimal(n)| <= |value|
  {
    hide Decimal;
    var t := SkipSpaces(value);
    SkipShortens(value);
    var digits := if t[0] == '-' || t[0] == '+' then t[1..] else t;
    ValueBounds(digits);
    if n == Value(digits) {
      DecimalLength(n, |digits|);
    } else {
      assert Value(digits) >= TwoTo64 - UintMax || n == 0;
      assert Pow10(10) == 10_000_000_000;
      DecimalLength(n, if n == 0 then 1 else 10);
      if |digits| < 10 { Pow10Monotone(|digits|, 10); }
    }
  }

  lemma {:induction false} SkipShortens(s: string)
    ensures |SkipSpaces(s)| <= |s|
  {
    if s != "" && IsSpace(s[0]) { SkipShortens(s[1..]); }
  }

  lemma KeyTextOf(s: string)
    requires KeyOf(s).Some?
    ensures KeyText(KeyOf(s).value) == s
  {
  }

  lemma SetScalar(m: Manifest, k: Key, value: string)
    requires !IsList(k) && SetField(m, k, value).Some?
    ensures var n := SetField(m, k, value).value;
      && (forall j :: !IsList(j) && j != k ==> Field(n, j) == Field(m, j)) && (forall j :: IsList(j) ==> Items(n, j) == Items(m, j))
      && Field(m, k) == "" && (Field(n, k) != "" ==> |Field(n, k)| <= |value|)
  {
    hide ParseUnsigned, Decimal, Token;
    if k.Format? || k.Release? { NumberShrinks(value, ParseUnsigned(value, UintMax).value); }
  }

  lemma SetItem(m: Manifest, k: Key, value: string)
    requires IsList(k) && SetField(m, k, value).Some?
    ensures var n := SetField(m, k, value).value;
      && (forall j :: !IsList(j) ==> Field(n, j) == Field(m, j)) && (forall j :: IsList(j) && j != k ==> Items(n, j) == Items(m, j))
      && Items(n, k) == Items(m, k) + [value] && |Items(m, k)| < MaxItems
  {
    hide Decimal;
  }

  lemma SameScalarSize(m: Manifest, n: Manifest, k: Key)
    requires !IsList(k) && Field(m, k) == Field(n, k)
    ensures ScalarSize(m, k) == ScalarSize(n, k)
  {
    hide Line, Field;
  }

  lemma NewScalarSize(m: Manifest, n: Manifest, k: Key, value: string)
    requires !IsList(k) && Field(m, k) == "" && (Field(n, k) != "" ==> |Field(n, k)| <= |value|)
    ensures ScalarSize(n, k) <= ScalarSize(m, k) + |Line(k, value)| + 1
  {
    hide KeyText, Field;
  }

  lemma SetGrowsOne(m: Manifest, k: Key, value: string)
    requires SetField(m, k, value).Some?
    ensures var n := SetField(m, k, value).value;
      SizeAt(n, k) <= SizeAt(m, k) + |Line(k, value)| + 1 && forall j :: j != k ==> SizeAt(n, j) == SizeAt(m, j)
  {
    hide ItemsSize, ScalarSize, Field, SetField, Line, Items;
    var n := SetField(m, k, value).value;
    if IsList(k) {
      SetItem(m, k, value);
      ItemsSizeSnoc(k, Items(m, k), value);
    } else {
      SetScalar(m, k, value);
      NewScalarSize(m, n, k, value);
    }
    forall j | !IsList(j) && j != k ensures ScalarSize(n, j) == ScalarSize(m, j) { SameScalarSize(m, n, j); }
  }

  /** Assigning a field adds no more than the line to what is printed. */
  lemma SetGrows(m: Manifest, k: Key, value: string)
    requires SetField(m, k, value).Some?
    ensures SizeOf(SetField(m, k, value).value) <= SizeOf(m) + |Line(k, value)| + 1
  {
    hide SizeAt, SetField, Line;
    SetGrowsOne(m, k, value);
    match k
    case Format =>
    case Name =>
    case Version =>
    case Release =>
    case Arch =>
    case Description =>
    case License =>
    case Depends =>
    case Provides =>
    case Conflicts =>
    case Replaces =>
  }

  lemma ItemsSizeSnoc(k: Key, items: seq<string>, value: string)
    ensures ItemsSize(k, items + [value]) == ItemsSize(k, items) + |Line(k, value)| + 1
  {
    hide Line;
    var all := items + [value];
    assert all[..|all| - 1] == items;
  }

  // --- what the parser can have read

  /** A manifest the parser can have built so far. */
  predicate Sane(m: Manifest) { Partial(m) && LinesFit(m) }

  /** A line the parser accepts assigns at most one field. */
  lemma LineAssigns(m: Manifest, line: string) returns (k: Key, value: string)
    requires ParseLine(m, line).Some? && ParseLine(m, line) != Some(m)
    ensures Scalar(value) && |Line(k, value)| <= |line| && SetField(m, k, value) == ParseLine(m, line)
  {
    hide SetField, Scalar, Token, KeyText;
    var text := if line[|line| - 1] == '\r' then line[..|line| - 1] else line;
    var equals := Find(text, '=');
    k, value := KeyOf(text[..equals]).value, text[equals + 1..];
    KeyTextOf(text[..equals]);
  }

  lemma SetKeepsSane(m: Manifest, k: Key, value: string)
    requires Sane(m) && Scalar(value) && |Line(k, value)| < MaxLine && SetField(m, k, value).Some?
    ensures Sane(SetField(m, k, value).value)
  {
    hide Line, Scalar, Token, ParseUnsigned, Field, Items;
    var n := SetField(m, k, value).value;
    if IsList(k) {
      SetItem(m, k, value);
      SetItemLegal(m, k, value);
      forall j | IsList(j) && j != k ensures ScalarItems(Items(n, j)) && ShortItems(j, Items(n, j)) && |Items(n, j)| <= MaxItems { }
    } else {
      SetScalar(m, k, value);
      SetScalarLegal(m, k, value);
      ShorterLine(k, Field(n, k), value);
    }
  }

  lemma ShorterLine(k: Key, s: string, t: string)
    ensures |s| <= |t| ==> |Line(k, s)| <= |Line(k, t)|
  {
  }

  lemma SetItemLegal(m: Manifest, k: Key, value: string)
    requires IsList(k) && SetField(m, k, value).Some?
    ensures forall j :: !IsList(j) ==> (Legal(SetField(m, k, value).value, j) <==> Legal(m, j))
  {
    hide Scalar, Token;
  }

  lemma SetScalarLegal(m: Manifest, k: Key, value: string)
    requires !IsList(k) && Scalar(value) && SetField(m, k, value).Some?
    ensures Legal(SetField(m, k, value).value, k)
    ensures forall j :: !IsList(j) && j != k ==> (Legal(SetField(m, k, value).value, j) <==> Legal(m, j))
  {
    hide Scalar, Token;
    if k.Format? || k.Release? { NumberBound(value); }
  }

  lemma NumberBound(value: string)
    requires ParseUnsigned(value, UintMax).Some?
    ensures ParseUnsigned(value, UintMax).value <= UintMax
  {
  }

  lemma LineKeepsSane(m: Manifest, line: string)
    requires Sane(m) && |line| < MaxLine && ParseLine(m, line).Some?
    ensures Sane(ParseLine(m, line).value) && SizeOf(ParseLine(m, line).value) <= SizeOf(m) + |line| + 1
  {
    hide Sane, ParseLine, SizeOf, SetField, Line;
    if ParseLine(m, line) != Some(m) {
      var k, value := LineAssigns(m, line);
      SetKeepsSane(m, k, value);
      SetGrows(m, k, value);
    }
  }

  lemma BlankIsSane()
    ensures Sane(Blank) && SizeOf(Blank) == 0
  {
    forall k | !IsList(k) ensures ShortField(Blank, k) { }
  }

  /** What was read of a text prints, with a final line end, in no more bytes. */
  lemma {:induction false} ReadingKeepsSane(m: Manifest, text: string)
    requires Sane(m) && ParseLines(m, text).Some?
    ensures Sane(ParseLines(m, text).value) && SizeOf(ParseLines(m, text).value) <= SizeOf(m) + |text| + 1
    decreases |text|
  {
    hide Sane, SizeOf, ParseLine;
    if text != "" {
      var n := Find(text, '\n');
      LineKeepsSane(m, text[..n]);
      if n < |text| {
        if text[n + 1..] != "" { ReadingKeepsSane(ParseLine(m, text[..n]).value, text[n + 1..]); }
      }
    }
  }

  /** What is parsed from a buffer is within the limits of a record. */
  lemma ParsedFits(buffer: string)
    requires Parse(buffer).Some?
    ensures var m := Parse(buffer).value; LinesFit(m) && m.release <= UintMax && |Print(m)| <= MaxSize + 1
  {
    hide LinesFit, ParseLines, SizeOf, FieldsOf;
    var m := Parse(buffer).value;
    BlankIsSane();
    ReadingKeepsSane(Blank, CString(buffer));
    PrintedSize(FieldsOf(m), "");
    SizeIsPrinted(m);
    assert Legal(m, Release);
  }

  // --- small manifests

  lemma KeyTextShort(k: Key)
    ensures |KeyText(k)| <= 11
  {
  }

  lemma FieldShort(m: Manifest, k: Key)
    requires !IsList(k) && |m.name| <= 4083 && |m.version| <= 4083 && |m.arch| <= 4083 && |m.description| <= 4083 && |m.license| <= 4083
    requires m.format <= UintMax && m.release <= UintMax
    ensures ShortField(m, k) && ScalarSize(m, k) <= 4096
  {
    hide KeyText, Decimal;
    KeyTextShort(k);
    assert Pow10(5) == 100_000;
    assert Pow10(10) == 10_000_000_000;
    DecimalLength(m.format, 10);
    DecimalLength(m.release, 10);
  }

  /** Without lists and with short fields a manifest is within all limits. */
  lemma SmallFits(m: Manifest)
    requires |m.name| <= 4083 && |m.version| <= 4083 && |m.arch| <= 4083 && |m.description| <= 4083 && |m.license| <= 4083
    requires m.format <= UintMax && m.release <= UintMax
    requires m.depends == [] && m.provided == [] && m.conflicts == [] && m.replaced == []
    ensures LinesFit(m) && |Print(m)| <= 30000
  {
    hide ShortField, ScalarSize;
    forall k | !IsList(k) ensures ShortField(m, k) && ScalarSize(m, k) <= 4096 { FieldShort(m, k); }
    assert forall k :: IsList(k) ==> Items(m, k) == [] && ItemsSize(k, Items(m, k)) == 0;
    PrintedSize(FieldsOf(m), "");
    SizeIsPrinted(m);
  }
}
