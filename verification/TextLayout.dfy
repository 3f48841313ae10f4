/** The text formats, spelled out: manifests, records and the index as they are written,
    and which lines a manifest may have. */
module TextLayout {
  import opened Strings
  import opened Version
  import opened VersionOrder
  import opened Package
  import opened Database
  import opened Tree
  import opened Text
  import opened ManifestText
  import opened ManifestSize
  import opened RecordText
  import opened Stored
  import opened IndexText
  import opened Expressions

  function Labelled(key: string, value: string): string { key + "=" + value + "\n" }

  function LabelledAll(key: string, values: seq<string>): string {
    if values == [] then "" else Labelled(key, values[0]) + LabelledAll(key, values[1..])
  }

  lemma LineIsLabelled(k: Key, value: string)
    ensures Line(k, value) + "\n" == Labelled(KeyText(k), value)
  {
  }

  lemma {:induction false} ItemsPrint(k: Key, items: seq<string>, rest: Fields)
    ensures PrintFields(FieldsThen(k, items, rest), "") == LabelledAll(KeyText(k), items) + PrintFields(rest, "")
    decreases |items|
  {
    hide KeyText;
    if items == [] {
      assert "" + PrintFields(rest, "") == PrintFields(rest, "");
    } else {
      ItemsPrint(k, items[1..], rest);
      LineIsLabelled(k, items[0]);
      var a, b, c := Labelled(KeyText(k), items[0]), LabelledAll(KeyText(k), items[1..]), PrintFields(rest, "");
      assert a + (b + c) == (a + b) + c;
    }
  }

  lemma ListsPrint(m: Manifest)
    ensures PrintFields(ListFields(m), "") == LabelledAll("depends", m.depends) + (LabelledAll("provides", m.provided) +
      (LabelledAll("conflicts", m.conflicts) + LabelledAll("replaces", m.replaced)))
  {
    hide PrintFields, FieldsThen, LabelledAll;
    var r := FieldsThen(Replaces, m.replaced, NoField);
    var c := FieldsThen(Conflicts, m.conflicts, r);
    var p := FieldsThen(Provides, m.provided, c);
    ItemsPrint(Replaces, m.replaced, NoField);
    ItemsPrint(Conflicts, m.conflicts, r);
    ItemsPrint(Provides, m.provided, c);
    ItemsPrint(Depends, m.depends, p);
    NothingPrints();
    assert LabelledAll("replaces", m.replaced) + "" == LabelledAll("replaces", m.replaced);
  }

  lemma NothingPrints()
    ensures PrintFields(NoField, "") == ""
  {
  }

  lemma FieldPrints(k: Key, value: string, rest: Fields)
    ensures PrintFields(OneField(k, value, rest), "") == Labelled(KeyText(k), value) + PrintFields(rest, "")
  {
    LineIsLabelled(k, value);
  }

  /** A valid manifest as text: seven lines, then one for each item of its lists. */
  lemma PrintIs(m: Manifest)
    requires Validates(m)
    ensures Print(m) == Labelled("format", Decimal(1)) + (Labelled("name", m.name) + (Labelled("version", m.version) +
      (Labelled("release", Decimal(m.release)) + (Labelled("arch", m.arch) + (Labelled("description", m.description) +
      (Labelled("license", m.license) + (LabelledAll("depends", m.depends) + (LabelledAll("provides", m.provided) +
      (LabelledAll("conflicts", m.conflicts) + LabelledAll("replaces", m.replaced))))))))))
  {
    hide PrintFields, ListFields, Labelled, LabelledAll, Decimal, Token, Scalar, ScalarItems;
    var l := ListFields(m);
    ListsPrint(m);
    var f7 := OneField(License, m.license, l);
    var f6 := OneField(Description, m.description, f7);
    var f5 := OneField(Arch, m.arch, f6);
    var f4 := OneField(Release, Decimal(m.release), f5);
    var f3 := OneField(Version, m.version, f4);
    var f2 := OneField(Name, m.name, f3);
    AllAreSet(m);
    FieldPrints(License, m.license, l);
    FieldPrints(Description, m.description, f7);
    FieldPrints(Arch, m.arch, f6);
    FieldPrints(Release, Decimal(m.release), f5);
    FieldPrints(Version, m.version, f4);
    FieldPrints(Name, m.name, f3);
    FieldPrints(Format, Decimal(1), f2);
  }

  lemma AllAreSet(m: Manifest)
    requires Validates(m)
    ensures m.name != "" && m.version != "" && m.arch != "" && m.description != "" && m.license != ""
    ensures FieldsOf(m) == OneField(Format, Decimal(1), OneField(Name, m.name, OneField(Version, m.version,
      OneField(Release, Decimal(m.release), OneField(Arch, m.arch, OneField(Description, m.description,
      OneField(License, m.license, ListFields(m))))))))
  {
    hide Decimal, ListFields, ScalarItems;
  }

  /** A record: a line that names the format, the manifest, a marker, and one line for each
      entry. */
  lemma RecordIs(rec: Record)
    ensures RecordText.RecordText(rec) == "# pux-record=1\n" + Print(rec.manifest) + "# files\n" + PrintEntries(rec.files)
  {
    hide Print, PrintEntries;
    assert Header + "\n" == "# pux-record=1\n" && Marker + "\n" == "# files\n";
    var m := Print(rec.manifest);
    assert Header + "\n" + m + Marker + "\n" == Header + "\n" + m + (Marker + "\n");
  }

  lemma EntryLineIs(path: string, target: string)
    ensures EntryLine(Entry(FileKind, path, target)) == "f " + path
    ensures EntryLine(Entry(DirKind, path, target)) == "d " + path
    ensures EntryLine(Entry(LinkKind, path, target)) == "l " + path + " -> " + target
  {
  }

  /** An entry that is stored: a safe path, and for a link a target, both below 4096
      bytes. */
  predicate GoodPath(e: Entry) {
    SafePath(e.path) && |e.path| < 4096 && (e.kind.LinkKind? ==> e.target != "" && |e.target| < 4096)
  }

  lemma RegistrableIs(e: Entry)
    ensures Registrable(e) <==> GoodPath(e) && (!e.kind.LinkKind? ==> e.target == "")
  {
  }

  /** Whatever record can be read, it carries a valid manifest and at most 4096 entries in
      path order, each once, with safe paths. */
  lemma LoadedRecordIsGood(text: string)
    requires ReadRecord(text).Some?
    ensures var rec := ReadRecord(text).value;
      && |text| <= 16_777_216 && Validates(rec.manifest) && |rec.files| <= 4096 && Ascending(rec.files)
      && forall e :: e in rec.files ==> GoodPath(e)
  {
    hide Validates, ParseEntries, Storable, Registrable, GoodPath, Parse, Sorted, Distinct;
    var c := CString(text);
    var files := c[FindText(c, Separator()) + |Separator()|..];
    NothingStored();
    ParsedEntries([], files);
    var read := ParseEntries([], files).value;
    SortedProperties(read);
    SortedLength(read);
    forall e | e in read ensures GoodPath(e) { StoredIsGood(e, read); }
  }

  lemma StoredIsGood(e: Entry, files: seq<Entry>)
    requires AllStorable(files) && e in files
    ensures GoodPath(e)
  {
    RegistrableIs(e);
  }

  /** What follows a NUL is no part of a record. */
  lemma NulEndsRecord(text: string, more: string)
    requires Free(text, '\0')
    ensures ParseRecord(text + "\0" + more) == ParseRecord(text)
  {
    FindAt(text + "\0" + more, '\0', |text|);
    WholeCString(text);
    assert (text + "\0" + more)[..|text|] == text;
    hide FindText, Parse, Validates, ParseEntries, Sorted;
  }

  /** An index: a line that names the format, and for each package three lines, its
      manifest and a blank line. */
  lemma IndexIs(p: Listed, rest: seq<Listed>)
    ensures IndexOf([]) == "# pux-index=1\n\n"
    ensures IndexOf([p] + rest) == "# pux-index=1\n\n" + (Labelled("package", p.filename) + (Labelled("size", Decimal(p.size)) +
      (Labelled("sha256", p.sha256) + (Print(p.manifest) + ("\n" + Blocks(rest))))))
  {
    hide FieldsOf, Decimal, PrintFields, Blocks;
    assert IndexHeader + "\n" + "\n" == "# pux-index=1\n\n";
    BlocksAre(p, rest);
    PrintTail(FieldsOf(p.manifest), "\n" + Blocks(rest));
    assert "package=" + p.filename + "\n" == Labelled("package", p.filename);
    assert "size=" + Decimal(p.size) + "\n" == Labelled("size", Decimal(p.size));
    assert "sha256=" + p.sha256 + "\n" == Labelled("sha256", p.sha256);
    assert "# pux-index=1\n\n" + "" == "# pux-index=1\n\n";
  }

  lemma BlocksAre(p: Listed, rest: seq<Listed>)
    ensures Blocks([]) == "" && Blocks([p] + rest) == Block(p, Blocks(rest))
  {
    hide Block;
    assert ([p] + rest)[1..] == rest;
  }

  // --- the lines of a manifest

  /** Less a carriage return at its end. */
  function Chopped(line: string): string { if line != "" && line[|line| - 1] == '\r' then line[..|line| - 1] else line }

  /** The parser takes a line that is blank or starts with #, and is not changed by it, or one
      that gives a known key a printable value it can have; and no other. */
  lemma LineReadsExactly(m: Manifest, line: string, n: Manifest)
    ensures ParseLine(m, line) == Some(n) <==>
      var text := Chopped(line);
      || (n == m && (text == "" || text[0] == '#'))
      || exists k, value :: text == KeyText(k) + "=" + value && Scalar(value) && SetField(m, k, value) == Some(n)
  {
    hide SetField, Scalar;
    var text := Chopped(line);
    if text != "" && text[0] != '#' {
      if ParseLine(m, line) == Some(n) {
        var at := Find(text, '=');
        KeyTextOf(text[..at]);
        var k, value := KeyOf(text[..at]).value, text[at + 1..];
        assert text == text[..at] + "=" + text[at + 1..];
        assert text == KeyText(k) + "=" + value && Scalar(value) && SetField(m, k, value) == Some(n);
      }
      if k, value :| text == KeyText(k) + "=" + value && Scalar(value) && SetField(m, k, value) == Some(n) {
        KeyedLine(m, line, k, value);
      }
    } else {
      NoKeyThere(text);
    }
  }

  lemma NoKeyThere(text: string)
    requires text == "" || text[0] == '#'
    ensures forall k, value :: text != KeyText(k) + "=" + value
  {
    forall k, value ensures text != KeyText(k) + "=" + value {
      KeyTextPlain(k);
      assert (KeyText(k) + "=" + value)[0] == KeyText(k)[0];
    }
  }

  lemma KeyedLine(m: Manifest, line: string, k: Key, value: string)
    requires Chopped(line) == KeyText(k) + "=" + value && Scalar(value)
    ensures ParseLine(m, line) == SetField(m, k, value)
  {
    hide SetField, KeyText, KeyOf;
    var text := Chopped(line);
    KeyTextPlain(k);
    KeyTextReads(k);
    assert text[0] == KeyText(k)[0];
    FindAt(text, '=', |KeyText(k)|);
    assert text[..|KeyText(k)|] == KeyText(k) && text[|KeyText(k)| + 1..] == value;
    LetterToken(KeyText(k));
  }

  lemma LetterToken(s: string)
    requires ManifestText.Plain(s)
    ensures Token(s)
  {
  }

  /** A field other than a list is set once, and a list takes 256 items. */
  lemma SetAtMostOnce(m: Manifest, k: Key, value: string)
    ensures !IsList(k) && Field(m, k) != "" ==> SetField(m, k, value).None?
    ensures IsList(k) ==> (SetField(m, k, value).Some? <==> |Items(m, k)| < 256)
  {
    hide Decimal, ParseUnsigned;
  }

  /** Names, versions and architectures are words of letters, digits and - _ . + : that
      start with a letter or a digit. */
  lemma TokenIs(s: string)
    ensures Token(s) <==>
      && s != "" && s[0] !in {'-', '_', '.', '+', ':'}
      && forall i :: 0 <= i < |s| ==>
        '0' <= s[i] <= '9' || 'a' <= s[i] <= 'z' || 'A' <= s[i] <= 'Z' || s[i] in {'-', '_', '.', '+', ':'}
  {
  }

  /** So a dependency can demand any version of any package, and each package meets the
      dependency on its own name and version. */
  lemma MeetsItself(m: Manifest)
    requires Validates(m)
    ensures Word(m.name) && Word(m.version)
    ensures DbAccepts(m, m.name) && DbAccepts(m, m.name + "=" + m.version)
  {
    TokenIs(m.name);
    TokenIs(m.version);
    TokenIsWord(m.name);
    TokenIsWord(m.version);
    DatabaseDemands(m, m.name, "=", m.version);
    SameVersion(m.version);
  }

  lemma TokenIsWord(s: string)
    requires Token(s)
    ensures Word(s) && Free(s, '/') && Free(s, '=')
  {
  }

  /** Values are printable: bytes from blank on, but for DEL. */
  lemma ScalarIs(s: string)
    ensures Scalar(s) <==> s != "" && forall i :: 0 <= i < |s| ==> s[i] as int >= 32 && s[i] as int != 127
  {
  }

  /** A number is set from its digits, below 2^32, and a release is not zero. */
  lemma NumbersAreSet(m: Manifest, digits: string)
    requires digits != "" && AllDigits(digits) && m.format == 0 && m.release == 0
    ensures SetField(m, Format, digits) == if 0 <= Value(digits) < 0x1_0000_0000 then Some(m.(format := Value(digits))) else None
    ensures SetField(m, Release, digits) ==
      if 0 < Value(digits) < 0x1_0000_0000 then Some(m.(release := Value(digits))) else None
  {
    hide Value, Token;
    ValueBounds(digits);
    assert SkipSpaces(digits) == digits;
  }

  /** As strtoul reads it: blanks before it and a plus sign do not count, a minus sign
      takes the number from 2^64. */
  lemma SignsAndBlanks(digits: string, max: nat)
    requires digits != "" && AllDigits(digits)
    ensures ParseUnsigned(" " + digits, max) == ParseUnsigned("+" + digits, max) == ParseUnsigned(digits, max)
    ensures 0 < Value(digits) < 0x1_0000_0000_0000_0000 ==>
      ParseUnsigned("-" + digits, max) ==
        if 0x1_0000_0000_0000_0000 - Value(digits) <= max then Some(0x1_0000_0000_0000_0000 - Value(digits)) else None
  {
    hide Value;
    ValueBounds(digits);
    assert (" " + digits)[1..] == digits && ("+" + digits)[1..] == digits && ("-" + digits)[1..] == digits;
    assert SkipSpaces(digits) == digits;
  }

  /** A component of a path ends at a slash or with the path. */
  predicate Component(p: string, i: nat, j: nat) {
    && i <= j <= |p| && (i == 0 || p[i - 1] == '/') && (j == |p| || p[j] == '/') && forall k :: i <= k < j ==> p[k] != '/'
  }

  lemma {:induction false} SafeFromIs(p: string, from: nat)
    requires from <= |p| && (from == 0 || p[from - 1] == '/')
    ensures SafeFrom(p, from) <==> forall i: nat, j: nat :: from <= i && Component(p, i, j) ==> p[i..j] != "" && p[i..j] != "." && p[i..j] != ".."
    decreases |p| - from
  {
    var n := NextSlash(p, from);
    assert Component(p, from, n);
    if n < |p| { SafeFromIs(p, n + 1); }
    forall i: nat, j: nat | from <= i && Component(p, i, j) ensures (i == from && j == n) || (n < |p| && n + 1 <= i) {
      assert i > from ==> p[i - 1] == '/';
    }
  }

  /** A path is safe exactly if none of its components is empty, a dot or two dots: it is
      relative, and does not end in a slash. */
  lemma SafePathIs(p: string)
    ensures SafePath(p) <==> forall i: nat, j: nat :: Component(p, i, j) ==> p[i..j] != "" && p[i..j] != "." && p[i..j] != ".."
  {
    SafeFromIs(p, 0);
  }
}
