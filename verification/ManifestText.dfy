/** The manifest format: one key=value record per line. */
module ManifestText {
  import opened Strings
  import opened Package
  import opened Text

  const MaxLine := 4096
  const MaxItems := 256
  const MaxSize := 1024 * 1024

  const Blank := Manifest(0, "", "", 0, "", "", "", [], [], [], [])

  predicate TokenChar(c: char) { IsAlnum(c) || c == '-' || c == '_' || c == '.' || c == '+' || c == ':' }

  /** is_valid_token. */
  predicate Token(s: string) { s != "" && IsAlnum(s[0]) && forall i :: 0 < i < |s| ==> TokenChar(s[i]) }

  /** is_valid_scalar_value. */
  predicate Scalar(s: string) { s != "" && forall i :: 0 <= i < |s| ==> s[i] >= ' ' && s[i] as int != 127 }

  datatype Key =
    | Format | Name | Version | Release | Arch | Description | License
    | Depends | Provides | Conflicts | Replaces

  function KeyText(k: Key): string {
    match k
    case Format => "format"
    case Name => "name"
    case Version => "version"
    case Release => "release"
    case Arch => "arch"
    case Description => "description"
    case License => "license"
    case Depends => "depends"
    case Provides => "provides"
    case Conflicts => "conflicts"
    case Replaces => "replaces"
  }

  function KeyOf(s: string): Option<Key> {
    if s == "format" then Some(Format)
    else if s == "name" then Some(Name)
    else if s == "version" then Some(Version)
    else if s == "release" then Some(Release)
    else if s == "arch" then Some(Arch)
    else if s == "description" then Some(Description)
    else if s == "license" then Some(License)
    else if s == "depends" then Some(Depends)
    else if s == "provides" then Some(Provides)
    else if s == "conflicts" then Some(Conflicts)
    else if s == "replaces" then Some(Replaces)
    else None
  }

  function Items(m: Manifest, k: Key): seq<string> {
    match k
    case Depends => m.depends
    case Provides => m.provided
    case Conflicts => m.conflicts
    case Replaces => m.replaced
    case _ => []
  }

  predicate IsList(k: Key) { k.Depends? || k.Provides? || k.Conflicts? || k.Replaces? }

  function WithItems(m: Manifest, k: Key, items: seq<string>): Manifest
    requires IsList(k)
  {
    match k
    case Depends => m.(depends := items)
    case Provides => m.(provided := items)
    case Conflicts => m.(conflicts := items)
    case Replaces => m.(replaced := items)
  }

  /** The value of a scalar field; "" when it is not set. */
  function Field(m: Manifest, k: Key): string
    requires !IsList(k)
  {
    match k
    case Format => if m.format == 0 then "" else Decimal(m.format)
    case Name => m.name
    case Version => m.version
    case Release => if m.release == 0 then "" else Decimal(m.release)
    case Arch => m.arch
    case Description => m.description
    case License => m.license
  }

  /** The field assignments of parse_line. */
  function SetField(m: Manifest, k: Key, value: string): Option<Manifest> {
    match k
    case Format =>
      var n := ParseUnsigned(value, UintMax);
      if m.format != 0 || n.None? then None else Some(m.(format := n.value))
    case Name => if !Token(value) || m.name != "" then None else Some(m.(name := value))
    case Version => if !Token(value) || m.version != "" then None else Some(m.(version := value))
    case Release =>
      var n := ParseUnsigned(value, UintMax);
      if m.release != 0 || n.None? || n.value == 0 then None else Some(m.(release := n.value))
    case Arch => if !Token(value) || m.arch != "" then None else Some(m.(arch := value))
    case Description => if m.description != "" then None else Some(m.(description := value))
    case License => if m.license != "" then None else Some(m.(license := value))
    case _ => if |Items(m, k)| >= MaxItems then None else Some(WithItems(m, k, Items(m, k) + [value]))
  }

  /** parse_line. */
  function ParseLine(m: Manifest, line: string): Option<Manifest> {
    var text := if line != "" && line[|line| - 1] == '\r' then line[..|line| - 1] else line;
    if text == "" || text[0] == '#' then Some(m)
    else
      var equals := Find(text, '=');
      if equals == |text| || equals == 0 then None
      else
        var key, value := text[..equals], text[equals + 1..];
        if !Token(key) || !Scalar(value) || KeyOf(key).None? then None
        else SetField(m, KeyOf(key).value, value)
  }

  /** The loop over the lines of a C string. */
  function ParseLines(m: Manifest, text: string): Option<Manifest>
    decreases |text|
  {
    if text == "" then Some(m)
    else
      var n := Find(text, '\n');
      if n >= MaxLine then None
      else
        var next := ParseLine(m, text[..n]);
        if next.None? || n == |text| then next else ParseLines(next.value, text[n + 1..])
  }

  /** pux_package_manifest_read_buffer. */
  function Parse(buffer: string): Option<Manifest> {
    if buffer == "" || |buffer| > MaxSize then None else ParseLines(Blank, CString(buffer))
  }

  method ReadBuffer(buffer: string) returns (m: Option<Manifest>)
    ensures m == Parse(buffer)
  {
    hide ParseLine, Find;
    if |buffer| == 0 || |buffer| > MaxSize { return None; }
    var text := CString(buffer);
    var cursor, current := 0, Blank;
    while cursor < |text|
      invariant cursor <= |text| && ParseLines(current, text[cursor..]) == Parse(buffer)
    {
      var rest := text[cursor..];
      var n := Find(rest, '\n');
      if n >= MaxLine { return None; }
      var next := ParseLine(current, rest[..n]);
      if next.None? { return None; }
      current := next.value;
      if n == |rest| { return Some(current); }
      assert rest[n + 1..] == text[cursor + n + 1..];
      cursor := cursor + n + 1;
    }
    m := Some(current);
  }

  // --- printing

  predicate ScalarItems(items: seq<string>) { forall i :: 0 <= i < |items| ==> Scalar(items[i]) }

  /** pux_package_manifest_validate. */
  predicate Validates(m: Manifest) {
    && m.format == 1 && Token(m.name) && Token(m.version) && m.release != 0 && Token(m.arch)
    && Scalar(m.description) && Scalar(m.license)
    && ScalarItems(m.depends) && ScalarItems(m.provided) && ScalarItems(m.conflicts) && ScalarItems(m.replaced)
  }

  /** Fields in the order in which they are printed. */
  datatype Fields = NoField | OneField(key: Key, value: string, rest: Fields)

  function FieldsThen(k: Key, items: seq<string>, rest: Fields): Fields {
    if items == [] then rest else OneField(k, items[0], FieldsThen(k, items[1..], rest))
  }

  function IfSet(m: Manifest, k: Key, rest: Fields): Fields
    requires !IsList(k)
  {
    if Field(m, k) == "" then rest else OneField(k, Field(m, k), rest)
  }

  function ListFields(m: Manifest): Fields {
    FieldsThen(Depends, m.depends, FieldsThen(Provides, m.provided, FieldsThen(Conflicts, m.conflicts, FieldsThen(Replaces, m.replaced, NoField))))
  }

  function ScalarFields(m: Manifest, rest: Fields): Fields {
    IfSet(m, Format, IfSet(m, Name, IfSet(m, Version, IfSet(m, Release, IfSet(m, Arch,
      IfSet(m, Description, IfSet(m, License, rest)))))))
  }

  /** The fields that are set. All of them are in a valid manifest. */
  function FieldsOf(m: Manifest): Fields { ScalarFields(m, ListFields(m)) }

  function Line(k: Key, value: string): string { KeyText(k) + "=" + value }

  function PrintFields(fs: Fields, tail: string): string {
    if fs.NoField? then tail else Line(fs.key, fs.value) + "\n" + PrintFields(fs.rest, tail)
  }

  /** What pux_package_manifest_write_stream writes. */
  function Print(m: Manifest): string { PrintFields(FieldsOf(m), "") }

  // --- printing and parsing

  /** The parser's effect on printed fields. */
  function Assign(m: Manifest, fs: Fields): Option<Manifest>
    decreases fs
  {
    if fs.NoField? then Some(m)
    else if |Line(fs.key, fs.value)| >= MaxLine then None
    else
      var next := SetField(m, fs.key, fs.value);
      if next.None? then None else Assign(next.value, fs.rest)
  }

  predicate AllScalar(fs: Fields) { fs.OneField? ==> Scalar(fs.value) && AllScalar(fs.rest) }

  predicate Plain(s: string) { s != "" && forall i :: 0 <= i < |s| ==> 'a' <= s[i] <= 'z' }

  lemma KeyTextPlain(k: Key)
    ensures Plain(KeyText(k))
  {
  }

  lemma KeyTextReads(k: Key)
    ensures KeyOf(KeyText(k)) == Some(k)
  {
    assert KeyText(k) == "format" || KeyText(k) == "name" || KeyText(k) == "version" || KeyText(k) == "release"
      || KeyText(k) == "arch" || KeyText(k) == "description" || KeyText(k) == "license" || KeyText(k) == "depends"
      || KeyText(k) == "provides" || KeyText(k) == "conflicts" || KeyText(k) == "replaces";
  }

  /** A printed line assigns its field. */
  lemma ParsePrintedLine(m: Manifest, k: Key, value: string)
    requires Scalar(value)
    ensures ParseLine(m, Line(k, value)) == SetField(m, k, value)
  {
    hide SetField, KeyText, KeyOf;
    var key, line := KeyText(k), Line(k, value);
    KeyTextReads(k);
    KeyTextPlain(k);
    assert line[|line| - 1] == value[|value| - 1] != '\r';
    assert line[0] == key[0];
    FindAt(line, '=', |key|);
    assert line[..|key|] == key && line[|key| + 1..] == value;
  }

  lemma LineHasNoEnd(k: Key, value: string)
    requires Scalar(value)
    ensures Free(Line(k, value), '\n') && Line(k, value) != ""
  {
    hide KeyText;
    KeyTextPlain(k);
  }

  lemma CutLine(line: string, rest: string)
    requires Free(line, '\n')
    ensures var text := line + "\n" + rest; Find(text, '\n') == |line| && text[..|line|] == line && text[|line| + 1..] == rest
  {
    var text := line + "\n" + rest;
    FindAt(text, '\n', |line|);
    assert text[..|line|] == line && text[|line| + 1..] == rest;
  }

  /** Parsing printed fields assigns them one by one, then goes on with the tail. */
  lemma {:induction false} ParsePrinted(m: Manifest, fs: Fields, tail: string)
    requires AllScalar(fs)
    ensures ParseLines(m, PrintFields(fs, tail)) ==
      if Assign(m, fs).None? then None else ParseLines(Assign(m, fs).value, tail)
    decreases fs
  {
    hide SetField, ParseLine, Line, Find;
    if fs.OneField? {
      var line, rest := Line(fs.key, fs.value), PrintFields(fs.rest, tail);
      LineHasNoEnd(fs.key, fs.value);
      CutLine(line, rest);
      ParsePrintedLine(m, fs.key, fs.value);
      var next := SetField(m, fs.key, fs.value);
      if next.Some? { ParsePrinted(next.value, fs.rest, tail); }
    }
  }

  // --- round trip

  /** A field value the parser accepts. */
  predicate Legal(m: Manifest, k: Key)
    requires !IsList(k)
  {
    match k
    case Format => m.format <= UintMax
    case Release => m.release <= UintMax
    case Description => m.description == "" || Scalar(m.description)
    case License => m.license == "" || Scalar(m.license)
    case Name => m.name == "" || Token(m.name)
    case Version => m.version == "" || Token(m.version)
    case Arch => m.arch == "" || Token(m.arch)
  }

  /** A manifest with fields the parser accepts, set or not. */
  predicate Partial(m: Manifest) {
    && (forall k :: !IsList(k) ==> Legal(m, k))
    && (forall k :: IsList(k) ==> ScalarItems(Items(m, k)))
  }

  predicate ShortField(m: Manifest, k: Key)
    requires !IsList(k)
  {
    Field(m, k) == "" || |Line(k, Field(m, k))| < 4096
  }

  predicate ShortItems(k: Key, items: seq<string>) { forall i :: 0 <= i < |items| ==> |Line(k, items[i])| < 4096 }

  /** `c` with the field `k` of `m`. */
  function Copy(c: Manifest, m: Manifest, k: Key): Manifest
    requires !IsList(k)
  {
    match k
    case Format => c.(format := m.format)
    case Name => c.(name := m.name)
    case Version => c.(version := m.version)
    case Release => c.(release := m.release)
    case Arch => c.(arch := m.arch)
    case Description => c.(description := m.description)
    case License => c.(license := m.license)
  }

  lemma LegalIsScalar(m: Manifest, k: Key)
    requires !IsList(k) && Legal(m, k) && Field(m, k) != ""
    ensures Scalar(Field(m, k))
  {
  }

  lemma SetCopies(c: Manifest, m: Manifest, k: Key)
    requires !IsList(k) && Legal(m, k) && Field(c, k) == "" && Field(m, k) != ""
    ensures SetField(c, k, Field(m, k)) == Some(Copy(c, m, k))
  {
    hide ParseUnsigned, Decimal, Token, Scalar;
    if m.format <= UintMax { ParseDecimal(m.format, UintMax); }
    if m.release <= UintMax { ParseDecimal(m.release, UintMax); }
  }

  lemma AssignIfSet(c: Manifest, m: Manifest, k: Key, rest: Fields)
    requires !IsList(k) && Legal(m, k) && Field(c, k) == ""
    ensures Assign(c, IfSet(m, k, rest)) == if ShortField(m, k) then Assign(Copy(c, m, k), rest) else None
  {
    hide SetField, Line, Legal;
    if Field(m, k) != "" { SetCopies(c, m, k); }
  }

  lemma {:induction false} AssignItems(c: Manifest, k: Key, items: seq<string>, rest: Fields)
    requires IsList(k) && |Items(c, k)| <= MaxItems
    ensures Assign(c, FieldsThen(k, items, rest)) ==
      if ShortItems(k, items) && |Items(c, k)| + |items| <= MaxItems
      then Assign(WithItems(c, k, Items(c, k) + items), rest) else None
    decreases |items|
  {
    hide Line;
    if items == [] {
      assert Items(c, k) + items == Items(c, k);
    } else {
      var next := WithItems(c, k, Items(c, k) + [items[0]]);
      if |Items(c, k)| < MaxItems && |Line(k, items[0])| < MaxLine {
        AssignItems(next, k, items[1..], rest);
        assert Items(c, k) + [items[0]] + items[1..] == Items(c, k) + items;
        assert ShortItems(k, items) <==> ShortItems(k, items[1..]);
      }
    }
  }

  predicate ScalarsFit(m: Manifest) { forall k :: !IsList(k) ==> ShortField(m, k) }

  predicate ListsFit(m: Manifest) { forall k :: IsList(k) ==> ShortItems(k, Items(m, k)) && |Items(m, k)| <= 256 }

  lemma AssignScalars(m: Manifest, rest: Fields)
    requires Partial(m)
    ensures Assign(Blank, ScalarFields(m, rest)) ==
      if ScalarsFit(m) then Assign(m.(depends := [], provided := [], conflicts := [], replaced := []), rest) else None
  {
    hide Assign, IfSet, ShortField, Legal;
    var f6 := IfSet(m, License, rest);
    var f5 := IfSet(m, Description, f6);
    var f4 := IfSet(m, Arch, f5);
    var f3 := IfSet(m, Release, f4);
    var f2 := IfSet(m, Version, f3);
    var f1 := IfSet(m, Name, f2);
    var c1 := Copy(Blank, m, Format);
    var c2 := Copy(c1, m, Name);
    var c3 := Copy(c2, m, Version);
    var c4 := Copy(c3, m, Release);
    var c5 := Copy(c4, m, Arch);
    var c6 := Copy(c5, m, Description);
    AssignIfSet(Blank, m, Format, f1);
    AssignIfSet(c1, m, Name, f2);
    AssignIfSet(c2, m, Version, f3);
    AssignIfSet(c3, m, Release, f4);
    AssignIfSet(c4, m, Arch, f5);
    AssignIfSet(c5, m, Description, f6);
    AssignIfSet(c6, m, License, rest);
    EveryScalar(m);
  }

  lemma EveryScalar(m: Manifest)
    ensures ScalarsFit(m) <==>
      && ShortField(m, Format) && ShortField(m, Name) && ShortField(m, Version) && ShortField(m, Release)
      && ShortField(m, Arch) && ShortField(m, Description) && ShortField(m, License)
  {
    hide ShortField;
    forall k | !IsList(k) && ShortField(m, Format) && ShortField(m, Name) && ShortField(m, Version)
      && ShortField(m, Release) && ShortField(m, Arch) && ShortField(m, Description) && ShortField(m, License)
      ensures ShortField(m, k)
    {
      match k
      case Format =>
      case Name =>
      case Version =>
      case Release =>
      case Arch =>
      case Description =>
      case License =>
    }
  }

  lemma AssignLists(m: Manifest)
    ensures Assign(m.(depends := [], provided := [], conflicts := [], replaced := []), ListFields(m)) ==
      if ListsFit(m) then Some(m) else None
  {
    hide ShortItems;
    var c0 := m.(depends := [], provided := [], conflicts := [], replaced := []);
    var c1 := c0.(depends := m.depends);
    var c2 := c1.(provided := m.provided);
    var c3 := c2.(conflicts := m.conflicts);
    var f3 := FieldsThen(Replaces, m.replaced, NoField);
    var f2 := FieldsThen(Conflicts, m.conflicts, f3);
    var f1 := FieldsThen(Provides, m.provided, f2);
    assert forall items: seq<string> :: [] + items == items;
    AssignItems(c0, Depends, m.depends, f1);
    AssignItems(c1, Provides, m.provided, f2);
    AssignItems(c2, Conflicts, m.conflicts, f3);
    AssignItems(c3, Replaces, m.replaced, NoField);
    EveryList(m);
  }

  lemma EveryList(m: Manifest)
    ensures ListsFit(m) <==>
      && ShortItems(Depends, m.depends) && |m.depends| <= MaxItems
      && ShortItems(Provides, m.provided) && |m.provided| <= MaxItems
      && ShortItems(Conflicts, m.conflicts) && |m.conflicts| <= MaxItems
      && ShortItems(Replaces, m.replaced) && |m.replaced| <= MaxItems
  {
    hide ShortItems;
    assert Items(m, Depends) == m.depends && Items(m, Provides) == m.provided;
    assert Items(m, Conflicts) == m.conflicts && Items(m, Replaces) == m.replaced;
    assert forall k :: IsList(k) ==> k == Depends || k == Provides || k == Conflicts || k == Replaces;
  }

  lemma {:induction false} ItemsAreScalar(k: Key, items: seq<string>, rest: Fields)
    requires ScalarItems(items) && AllScalar(rest)
    ensures AllScalar(FieldsThen(k, items, rest))
    decreases |items|
  {
    if items != [] { ItemsAreScalar(k, items[1..], rest); }
  }

  lemma IfSetIsScalar(m: Manifest, k: Key, rest: Fields)
    requires !IsList(k) && Legal(m, k) && AllScalar(rest)
    ensures AllScalar(IfSet(m, k, rest))
  {
    if Field(m, k) != "" { LegalIsScalar(m, k); }
  }

  lemma FieldsAreScalar(m: Manifest)
    requires Partial(m)
    ensures AllScalar(FieldsOf(m))
  {
    hide IfSet, Legal, AllScalar, ScalarItems;
    assert AllScalar(NoField) by { OneFieldLess(NoField); }
    assert ScalarItems(Items(m, Depends)) && ScalarItems(Items(m, Provides));
    assert ScalarItems(Items(m, Conflicts)) && ScalarItems(Items(m, Replaces));
    var f := FieldsThen(Replaces, m.replaced, NoField);
    ItemsAreScalar(Replaces, m.replaced, NoField);
    ItemsAreScalar(Conflicts, m.conflicts, f);
    f := FieldsThen(Conflicts, m.conflicts, f);
    ItemsAreScalar(Provides, m.provided, f);
    f := FieldsThen(Provides, m.provided, f);
    ItemsAreScalar(Depends, m.depends, f);
    f := ListFields(m);
    IfSetIsScalar(m, License, f);
    f := IfSet(m, License, f);
    IfSetIsScalar(m, Description, f);
    f := IfSet(m, Description, f);
    IfSetIsScalar(m, Arch, f);
    f := IfSet(m, Arch, f);
    IfSetIsScalar(m, Release, f);
    f := IfSet(m, Release, f);
    IfSetIsScalar(m, Version, f);
    f := IfSet(m, Version, f);
    IfSetIsScalar(m, Name, f);
    f := IfSet(m, Name, f);
    IfSetIsScalar(m, Format, f);
  }

  lemma OneFieldLess(fs: Fields)
    requires fs.NoField?
    ensures AllScalar(fs)
  {
  }

  /** All lines of the manifest can be read back, and its lists are short enough. */
  predicate LinesFit(m: Manifest) { ScalarsFit(m) && ListsFit(m) }

  /** Reading what was printed of a manifest, set or not, gives the manifest back and
      goes on with what follows, exactly when the lines fit. */
  lemma ParseContinues(m: Manifest, tail: string)
    requires Partial(m)
    ensures ParseLines(Blank, PrintFields(FieldsOf(m), tail)) == if LinesFit(m) then ParseLines(m, tail) else None
  {
    hide ParseLines, Assign, PrintFields, FieldsOf, ScalarsFit, ListsFit;
    FieldsAreScalar(m);
    ParsePrinted(Blank, FieldsOf(m), tail);
    AssignAll(m);
  }

  /** The fields of a manifest, assigned to a blank one, build it up again. */
  lemma AssignAll(m: Manifest)
    requires Partial(m)
    ensures Assign(Blank, FieldsOf(m)) == if LinesFit(m) then Some(m) else None
  {
    hide Partial, Assign, ScalarFields, ListFields, ScalarsFit, ListsFit;
    AssignScalars(m, ListFields(m));
    AssignLists(m);
  }

  lemma {:induction false} PrintedIsCString(fs: Fields, tail: string)
    requires AllScalar(fs) && Free(tail, '\0')
    ensures Free(PrintFields(fs, tail), '\0')
    ensures |tail| <= |PrintFields(fs, tail)| && (fs.OneField? ==> PrintFields(fs, tail) != "")
    decreases fs
  {
    if fs.OneField? {
      hide KeyText;
      KeyTextPlain(fs.key);
      PrintedIsCString(fs.rest, tail);
    }
  }

  lemma ValidIsPartial(m: Manifest)
    requires Validates(m) && m.release <= UintMax
    ensures Partial(m) && FieldsOf(m).OneField?
  {
    hide Token, Scalar;
    forall k | IsList(k) ensures ScalarItems(Items(m, k)) {
      assert k == Depends || k == Provides || k == Conflicts || k == Replaces;
    }
  }

  /** Printing a valid manifest and parsing it gives the manifest back, exactly when
      its lines, lists and size are within the limits. */
  lemma PrintThenParse(m: Manifest)
    requires Validates(m) && m.release <= UintMax
    ensures Parse(Print(m)) == Some(m) <==> LinesFit(m) && |Print(m)| <= 1_048_576
  {
    hide Validates, LinesFit, ParseLines, PrintFields, FieldsOf;
    ValidIsPartial(m);
    FieldsAreScalar(m);
    PrintedIsCString(FieldsOf(m), "");
    WholeCString(Print(m));
    ParseContinues(m, "");
    assert ParseLines(m, "") == Some(m) by { NoLines(m); }
  }

  lemma NoLines(m: Manifest)
    ensures ParseLines(m, "") == Some(m)
  {
  }

  lemma WholeCString(s: string)
    requires Free(s, '\0')
    ensures CString(s) == s
  {
  }

  // --- the writer

  lemma {:induction false} ItemsThenPrint(k: Key, items: seq<string>, rest: Fields)
    ensures PrintFields(FieldsThen(k, items, rest), "") == PrintFields(FieldsThen(k, items, NoField), "") + PrintFields(rest, "")
    decreases |items|
  {
    hide Line;
    if items != [] { ItemsThenPrint(k, items[1..], rest); }
  }

  method WriteItems(k: Key, items: seq<string>) returns (out: string)
    ensures out == PrintFields(FieldsThen(k, items, NoField), "")
  {
    hide Line;
    out := "";
    for i := 0 to |items|
      invariant out + PrintFields(FieldsThen(k, items[i..], NoField), "") == PrintFields(FieldsThen(k, items, NoField), "")
    {
      assert items[i..][0] == items[i] && items[i..][1..] == items[i + 1..];
      out := out + (Line(k, items[i]) + "\n");
    }
  }

  lemma PrintSet(m: Manifest, k: Key, rest: Fields)
    requires !IsList(k) && Field(m, k) != ""
    ensures PrintFields(IfSet(m, k, rest), "") == Line(k, Field(m, k)) + "\n" + PrintFields(rest, "")
  {
    hide Line, Field;
  }

  lemma ValidIsSet(m: Manifest)
    requires Validates(m)
    ensures forall k :: !IsList(k) ==> Field(m, k) != ""
  {
    hide Decimal;
  }

  lemma ScalarLines(m: Manifest, rest: Fields)
    requires Validates(m)
    ensures PrintFields(ScalarFields(m, rest), "") ==
      Line(Format, Decimal(m.format)) + "\n" + (Line(Name, m.name) + "\n" + (Line(Version, m.version) + "\n" +
      (Line(Release, Decimal(m.release)) + "\n" + (Line(Arch, m.arch) + "\n" + (Line(Description, m.description) + "\n" +
      (Line(License, m.license) + "\n" + PrintFields(rest, "")))))))
  {
    hide Line, Decimal, IfSet, PrintFields;
    ValidIsSet(m);
    var f6 := IfSet(m, License, rest);
    var f5 := IfSet(m, Description, f6);
    var f4 := IfSet(m, Arch, f5);
    var f3 := IfSet(m, Release, f4);
    var f2 := IfSet(m, Version, f3);
    PrintSet(m, License, rest);
    PrintSet(m, Description, f6);
    PrintSet(m, Arch, f5);
    PrintSet(m, Release, f4);
    PrintSet(m, Version, f3);
    PrintSet(m, Name, f2);
    PrintSet(m, Format, IfSet(m, Name, f2));
  }

  /** pux_package_manifest_write_stream: a manifest that does not validate is not written. */
  method WriteStream(m: Manifest) returns (out: Option<string>)
    ensures out == if Validates(m) then Some(Print(m)) else None
  {
    hide Line, Decimal, FieldsThen;
    if !Validates(m) { return None; }
    var depends := WriteItems(Depends, m.depends);
    var offers := WriteItems(Provides, m.provided);
    var conflicts := WriteItems(Conflicts, m.conflicts);
    var replaced := WriteItems(Replaces, m.replaced);
    ScalarLines(m, ListFields(m));
    ItemsThenPrint(Conflicts, m.conflicts, FieldsThen(Replaces, m.replaced, NoField));
    ItemsThenPrint(Provides, m.provided, FieldsThen(Conflicts, m.conflicts, FieldsThen(Replaces, m.replaced, NoField)));
    ItemsThenPrint(Depends, m.depends,
      FieldsThen(Provides, m.provided, FieldsThen(Conflicts, m.conflicts, FieldsThen(Replaces, m.replaced, NoField))));
    var lists := depends + (offers + (conflicts + replaced));
    assert lists == PrintFields(ListFields(m), "");
    out := Some(Line(Format, Decimal(m.format)) + "\n" + (Line(Name, m.name) + "\n" + (Line(Version, m.version) + "\n" +
      (Line(Release, Decimal(m.release)) + "\n" + (Line(Arch, m.arch) + "\n" + (Line(Description, m.description) + "\n" +
      (Line(License, m.license) + "\n" + lists)))))));
  }
}
