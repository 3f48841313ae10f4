/** The repository index: writing a catalogue, and the parser that prints and reads
    again the whole manifest at each of its lines. */
module IndexText {
  import opened Arithmetic
  import opened Strings
  import opened Version
  import opened Package
  import opened Text
  import opened ManifestText
  import opened ManifestSize

  /** struct pux_repo_package. */
  datatype Listed = Listed(filename: string, size: nat, sha256: string, manifest: Manifest)

  /** The locals of parse_index. */
  datatype Scan = Scan(
    done: seq<Listed>, inside: bool, filename: string, size: Option<nat>, sha256: Option<string>,
    manifest: Manifest, sawManifest: bool)

  /** How a manifest line takes effect: by printing what was read so far, adding the
      line and reading everything again, or by assigning its field. */
  datatype Way = Again | Once

  const MaxFilename := 4096
  const MaxRead := 4095
  const IndexHeader := "# pux-index=1"
  const SizeMax: nat := TwoTo64 - 1

  predicate PackageFilename(name: string) {
    && name != "index.pux" && |name| < MaxFilename && Free(name, '/')
    && |name| >= 4 && name[|name| - 4..] == ".pux"
  }

  predicate HexChar(c: char) { IsDigit(c) || 'a' <= c <= 'f' || 'A' <= c <= 'F' }

  function Lower(c: char): char { if 'A' <= c <= 'F' then c + 32 as char else c }

  function LowerAll(s: string): (t: string)
    ensures |t| == |s| && forall i :: 0 <= i < |s| ==> t[i] == Lower(s[i])
  {
    seq(|s|, i requires 0 <= i < |s| => Lower(s[i]))
  }

  predicate StartsWith(s: string, prefix: string) { |s| >= |prefix| && s[..|prefix|] == prefix }

  function Idle(done: seq<Listed>): Scan { Scan(done, false, "", None, None, Blank, false) }

  /** A blank line, or the end, closes a package entry. */
  function Close(st: Scan): Option<Scan> {
    if !st.inside then Some(st)
    else if st.size.None? || st.sha256.None? || !st.sawManifest || !Validates(st.manifest) then None
    else Some(Idle(st.done + [Listed(st.filename, st.size.value, st.sha256.value, st.manifest)]))
  }

  function Reread(m: Manifest, line: string): Option<Manifest> { Parse(PrintFields(FieldsOf(m), line + "\n")) }

  function ManifestLine(m: Manifest, line: string, way: Way): Option<Manifest> {
    if way.Again? then Reread(m, line) else ParseLine(m, line)
  }

  /** One line of parse_index. */
  function IndexLine(st: Scan, line: string, way: Way): Option<Scan> {
    if line == "" then Close(st)
    else if StartsWith(line, "package=") then
      if st.inside || !PackageFilename(line[8..]) then None else Some(st.(inside := true, filename := line[8..]))
    else if !st.inside then None
    else if StartsWith(line, "size=") then
      var n := ParseUnsigned(line[5..], SizeMax);
      if st.size.Some? || n.None? then None else Some(st.(size := n))
    else if StartsWith(line, "sha256=") then
      if st.sha256.Some? || |line| != 71 || exists i :: 7 <= i < 71 && !HexChar(line[i]) then None
      else Some(st.(sha256 := Some(LowerAll(line[7..]))))
    else if line == "--- files ---" then None
    else
      var m := ManifestLine(st.manifest, line, way);
      if m.None? then None else Some(st.(manifest := m.value, sawManifest := true))
  }

  datatype Read = Eof | Bad | Got(line: string, rest: string)

  /** read_line: fgets into 4096 bytes; a line must end and hold no NUL. */
  function ReadLine(text: string): Read {
    if text == "" then Eof
    else
      var n := Find(text, '\n');
      if n == |text| || n + 1 > MaxRead || !Free(text[..n], '\0') then Bad
      else Got(if n > 0 && text[n - 1] == '\r' then text[..n - 1] else text[..n], text[n + 1..])
  }

  function ScanLines(st: Scan, text: string, way: Way): Option<Scan>
    decreases |text|
  {
    match ReadLine(text)
    case Eof => Close(st)
    case Bad => None
    case Got(line, rest) =>
      var next := IndexLine(st, line, way);
      if next.None? then None else ScanLines(next.value, rest, way)
  }

  /** parse_index. */
  function ParseIndex(text: string, way: Way): Option<seq<Listed>> {
    var first := ReadLine(text);
    if !first.Got? || first.line != IndexHeader then None
    else
      var end := ScanLines(Idle([]), first.rest, way);
      if end.None? || end.value.done == [] then None else Some(end.value.done)
  }

  method ReadIndex(text: string) returns (catalog: Option<seq<Listed>>)
    ensures catalog == ParseIndex(text, Again)
  {
    var first := ReadLine(text);
    if !first.Got? || first.line != IndexHeader { return None; }
    ghost var target := ScanLines(Idle([]), first.rest, Again);
    var st, rest := Idle([]), first.rest;
    while true
      invariant ScanLines(st, rest, Again) == target
      decreases |rest|
    {
      var read := ReadLine(rest);
      if read.Eof? { break; }
      if read.Bad? { return None; }
      var next := IndexLine(st, read.line, Again);
      if next.None? { return None; }
      st, rest := next.value, read.rest;
    }
    var end := Close(st);
    catalog := if end.None? || end.value.done == [] then None else Some(end.value.done);
  }

  // --- writing

  function Block(p: Listed, tail: string): string {
    "package=" + p.filename + "\n" + ("size=" + Decimal(p.size) + "\n" + ("sha256=" + p.sha256 + "\n" +
      PrintFields(FieldsOf(p.manifest), "\n" + tail)))
  }

  function Blocks(catalog: seq<Listed>): string {
    if catalog == [] then "" else Block(catalog[0], Blocks(catalog[1..]))
  }

  /** write_index. */
  function IndexOf(catalog: seq<Listed>): string { IndexHeader + "\n" + "\n" + Blocks(catalog) }

  lemma {:induction false} PrintTail(fs: Fields, tail: string)
    ensures PrintFields(fs, tail) == PrintFields(fs, "") + tail
    decreases fs
  {
    hide Line;
    if fs.OneField? { PrintTail(fs.rest, tail); }
  }

  lemma BlockPieces(p: Listed, tail: string)
    ensures Block(p, tail) == "package=" + p.filename + "\n" + ("size=" + Decimal(p.size) + "\n" +
      ("sha256=" + p.sha256 + "\n" + (Print(p.manifest) + "\n"))) + tail
  {
    hide FieldsOf, Decimal, PrintFields;
    var m := Print(p.manifest);
    PrintTail(FieldsOf(p.manifest), "\n" + tail);
    Reassociate("package=" + p.filename + "\n", "size=" + Decimal(p.size) + "\n", "sha256=" + p.sha256 + "\n", m, tail);
  }

  lemma Reassociate(a: string, b: string, c: string, m: string, tail: string)
    ensures a + (b + (c + (m + ("\n" + tail)))) == a + (b + (c + (m + "\n"))) + tail
  {
    var t := m + "\n";
    assert m + ("\n" + tail) == t + tail;
    assert c + (t + tail) == c + t + tail;
    assert b + (c + t + tail) == b + (c + t) + tail;
    assert a + (b + (c + t) + tail) == a + (b + (c + t)) + tail;
  }

  /** write_index: the entries in order, unless a manifest does not validate. */
  method WriteIndex(catalog: seq<Listed>) returns (out: Option<string>)
    ensures out == if forall p :: p in catalog ==> Validates(p.manifest) then Some(IndexOf(catalog)) else None
  {
    hide Validates, FieldsOf, Decimal, PrintFields, Block;
    var text := IndexHeader + "\n" + "\n";
    for i := 0 to |catalog|
      invariant text + Blocks(catalog[i..]) == IndexOf(catalog)
      invariant forall j :: 0 <= j < i ==> Validates(catalog[j].manifest)
    {
      var p := catalog[i];
      assert p in catalog && catalog[i..][0] == p && catalog[i..][1..] == catalog[i + 1..];
      var manifest := WriteStream(p.manifest);
      if manifest.None? { return None; }
      BlockPieces(p, Blocks(catalog[i + 1..]));
      text := text + ("package=" + p.filename + "\n" + ("size=" + Decimal(p.size) + "\n" +
        ("sha256=" + p.sha256 + "\n" + (manifest.value + "\n"))));
    }
    assert catalog[|catalog|..] == [] && text + Blocks([]) == text;
    out := Some(text);
  }

  // --- reading again is reading once

  lemma OneLine(m: Manifest, line: string)
    requires Free(line, '\n') && |line| < MaxLine
    ensures ParseLines(m, line + "\n") == ParseLine(m, line)
  {
    hide ParseLine;
    CutLine(line, "");
    assert line + "\n" + "" == line + "\n";
  }

  /** Printing what was read so far and reading it again with the next line is reading
      that line, up to the size a manifest may have. */
  lemma RereadIsParseLine(m: Manifest, line: string)
    requires Sane(m) && Free(line, '\n') && Free(line, '\0') && |line| < MaxLine
    ensures Reread(m, line) == if SizeOf(m) + |line| + 1 <= MaxSize then ParseLine(m, line) else None
  {
    hide Partial, LinesFit, ParseLines, ParseLine, PrintFields, FieldsOf, SizeOf, Find;
    var text := PrintFields(FieldsOf(m), line + "\n");
    PrintedSize(FieldsOf(m), line + "\n");
    SizeIsPrinted(m);
    FieldsAreScalar(m);
    PrintedIsCString(FieldsOf(m), line + "\n");
    WholeCString(text);
    ParseContinues(m, line + "\n");
    OneLine(m, line);
  }

  /** The line is not one of the entry's own: it goes to the manifest reader. */
  predicate ForManifest(st: Scan, line: string) {
    && st.inside && line != "" && line != "--- files ---"
    && !StartsWith(line, "package=") && !StartsWith(line, "size=") && !StartsWith(line, "sha256=")
  }

  /** With this line what was read of the manifest so far prints in too many bytes. */
  predicate Overflows(st: Scan, line: string) { ForManifest(st, line) && SizeOf(st.manifest) + |line| + 1 > 1_048_576 }

  /** So a line of the index has the same effect both ways, unless it overflows. */
  lemma LineAgrees(st: Scan, line: string)
    requires Sane(st.manifest) && Free(line, '\n') && Free(line, '\0') && |line| < MaxLine
    ensures IndexLine(st, line, Again) == if Overflows(st, line) then None else IndexLine(st, line, Once)
    ensures var next := IndexLine(st, line, Once);
      next.Some? ==> Sane(next.value.manifest) && SizeOf(next.value.manifest) <= SizeOf(st.manifest) + |line| + 1
  {
    hide Sane, SizeOf, ParseLine, Reread, StartsWith, PackageFilename, HexChar, ParseUnsigned, Validates;
    RereadIsParseLine(st.manifest, line);
    if ParseLine(st.manifest, line).Some? { LineKeepsSane(st.manifest, line); }
    BlankIsSane();
  }

  /** One pass over the lines meets a line that overflows. */
  predicate Overgrown(st: Scan, text: string)
    decreases |text|
  {
    match ReadLine(text)
    case Eof => false
    case Bad => false
    case Got(line, rest) =>
      Overflows(st, line) || (var next := IndexLine(st, line, Once); next.Some? && Overgrown(next.value, rest))
  }

  lemma {:induction false} ScanAgrees(st: Scan, text: string)
    requires Sane(st.manifest)
    ensures ScanLines(st, text, Again) == if Overgrown(st, text) then None else ScanLines(st, text, Once)
    decreases |text|
  {
    hide Sane, SizeOf, IndexLine, Close, Overflows;
    match ReadLine(text)
    case Eof =>
    case Bad =>
    case Got(line, rest) =>
      LineAgrees(st, line);
      var next := IndexLine(st, line, Once);
      if next.Some? { ScanAgrees(next.value, rest); }
  }

  /** Reading everything again at each line of an index gives what one pass over the
      lines gives, unless a manifest outgrows its limit on the way; then it is refused. */
  lemma RereadingIsOnePass(text: string)
    ensures ParseIndex(text, Again) ==
      if ReadLine(text).Got? && Overgrown(Idle([]), ReadLine(text).rest) then None else ParseIndex(text, Once)
  {
    hide Sane, SizeOf, ScanLines, Overgrown;
    BlankIsSane();
    var first := ReadLine(text);
    if first.Got? { ScanAgrees(Idle([]), first.rest); }
  }

  lemma {:induction false} ShortIsNotOvergrown(st: Scan, text: string)
    requires Sane(st.manifest) && SizeOf(st.manifest) + |text| <= MaxSize
    ensures !Overgrown(st, text)
    decreases |text|
  {
    hide Sane, SizeOf, IndexLine;
    match ReadLine(text)
    case Eof =>
    case Bad =>
    case Got(line, rest) =>
      LineAgrees(st, line);
      var next := IndexLine(st, line, Once);
      if next.Some? { ShortIsNotOvergrown(next.value, rest); }
  }

  /** So an index that is accepted, and one of at most the size of one manifest, reads as
      in one pass. */
  lemma AcceptedIsOnePass(text: string)
    requires ParseIndex(text, Again).Some? || |text| <= 1_048_576
    ensures ParseIndex(text, Once) == ParseIndex(text, Again)
  {
    hide Sane, SizeOf, ScanLines, Overgrown, ParseIndex;
    RereadingIsOnePass(text);
    BlankIsSane();
    if ReadLine(text).Got? && |text| <= MaxSize { ShortIsNotOvergrown(Idle([]), ReadLine(text).rest); }
  }

  // --- round trip

  predicate HexText(s: string) { forall i :: 0 <= i < |s| ==> IsDigit(s[i]) || 'a' <= s[i] <= 'f' }

  /** Lines of at most 4094 bytes, as the index reader takes them. */
  predicate Narrow(fs: Fields) { fs.OneField? ==> |Line(fs.key, fs.value)| < 4095 && Narrow(fs.rest) }

  /** A package as the scan of a repository lists it. */
  predicate Writable(p: Listed) {
    && PackageFilename(p.filename) && Free(p.filename, '\0')
    && p.size <= SizeMax && |p.sha256| == 64 && HexText(p.sha256)
    && Validates(p.manifest) && p.manifest.release <= UintMax && LinesFit(p.manifest)
  }

  predicate ShortName(p: Listed) { |p.filename| <= 4086 }

  /** The manifest's lines and its size are what the index reader takes. */
  predicate NarrowManifest(m: Manifest) { Narrow(FieldsOf(m)) && |Print(m)| <= 1_048_576 }

  /** A package the index can carry. */
  predicate Indexable(p: Listed) { Writable(p) && Free(p.filename, '\n') && ShortName(p) && NarrowManifest(p.manifest) }

  predicate Clean(line: string) {
    Free(line, '\n') && Free(line, '\0') && |line| < MaxRead && (line != "" ==> line[|line| - 1] != '\r')
  }

  lemma ReadClean(line: string, rest: string)
    requires Clean(line)
    ensures ReadLine(line + "\n" + rest) == Got(line, rest)
  {
    CutLine(line, rest);
  }

  lemma ScanClean(st: Scan, line: string, rest: string, way: Way)
    requires Clean(line)
    ensures ScanLines(st, line + "\n" + rest, way) ==
      if IndexLine(st, line, way).None? then None else ScanLines(IndexLine(st, line, way).value, rest, way)
  {
    hide IndexLine, ReadLine;
    ReadClean(line, rest);
  }

  /** A printed manifest line is not mistaken for another field of the entry. */
  lemma OwnKeyword(k: Key, value: string)
    requires Scalar(value)
    ensures var line := Line(k, value);
      && line != "" && !StartsWith(line, "package=") && !StartsWith(line, "size=") && !StartsWith(line, "sha256=")
      && line != "--- files ---"
  {
    hide KeyText, KeyOf;
    var line := Line(k, value);
    KeyTextPlain(k);
    KeyTextReads(k);
    FindAt(line, '=', |KeyText(k)|);
    NoSuchKey();
    OtherKeyword(k, value, "package");
    OtherKeyword(k, value, "size");
    OtherKeyword(k, value, "sha256");
    assert line[0] == KeyText(k)[0];
    assert "package" + "=" == "package=" && "size" + "=" == "size=" && "sha256" + "=" == "sha256=";
  }

  lemma NoSuchKey()
    ensures KeyOf("package") == None && KeyOf("size") == None && KeyOf("sha256") == None
  {
  }

  lemma KeywordIsKey(k: Key, value: string, word: string)
    requires Free(word, '=') && StartsWith(Line(k, value), word + "=")
    ensures word == KeyText(k)
  {
    hide KeyText;
    var line, key := Line(k, value), KeyText(k);
    KeyTextPlain(k);
    FindAt(line, '=', |key|);
    assert line[..|word| + 1] == word + "=";
    assert forall i :: 0 <= i <= |word| ==> line[i] == (word + "=")[i];
    FindAt(line, '=', |word|);
    assert line[..|key|] == key;
  }

  lemma OtherKeyword(k: Key, value: string, word: string)
    requires Free(word, '=') && KeyOf(word) == None
    ensures !StartsWith(Line(k, value), word + "=")
  {
    hide KeyText, KeyOf, StartsWith;
    KeyTextReads(k);
    if StartsWith(Line(k, value), word + "=") { KeywordIsKey(k, value, word); }
  }

  lemma LineIsClean(k: Key, value: string)
    requires Scalar(value) && |Line(k, value)| < MaxRead
    ensures Clean(Line(k, value))
  {
    hide KeyText;
    LineHasNoEnd(k, value);
    KeyTextPlain(k);
    var line := Line(k, value);
    assert line[|line| - 1] == value[|value| - 1];
  }

  /** Scanning the printed fields of a manifest assigns them. */
  lemma {:induction false} ScanFields(st: Scan, fs: Fields, tail: string)
    requires st.inside && AllScalar(fs) && Narrow(fs) && Sane(st.manifest) && Assign(st.manifest, fs).Some?
    requires SizeOf(st.manifest) + FieldsSize(fs) <= MaxSize
    ensures ScanLines(st, PrintFields(fs, tail), Again) ==
      ScanLines(st.(manifest := Assign(st.manifest, fs).value, sawManifest := st.sawManifest || fs.OneField?), tail, Again)
    decreases fs
  {
    hide Sane, SizeOf, SetField, Line, IndexLine, ReadLine;
    if fs.OneField? {
      var line := Line(fs.key, fs.value);
      LineIsClean(fs.key, fs.value);
      ScanClean(st, line, PrintFields(fs.rest, tail), Again);
      ManifestLineScans(st, fs.key, fs.value);
      var m := SetField(st.manifest, fs.key, fs.value).value;
      ScanFields(st.(manifest := m, sawManifest := true), fs.rest, tail);
    }
  }

  lemma ManifestLineScans(st: Scan, k: Key, value: string)
    requires st.inside && Scalar(value) && |Line(k, value)| < MaxRead && Sane(st.manifest) && SetField(st.manifest, k, value).Some?
    requires SizeOf(st.manifest) + |Line(k, value)| + 1 <= MaxSize
    ensures var m := SetField(st.manifest, k, value).value;
      && IndexLine(st, Line(k, value), Again) == Some(st.(manifest := m, sawManifest := true))
      && Sane(m) && SizeOf(m) <= SizeOf(st.manifest) + |Line(k, value)| + 1
  {
    hide Sane, SizeOf, SetField, Line, ParseLine, Reread, StartsWith;
    LineIsClean(k, value);
    OwnKeyword(k, value);
    RereadIsParseLine(st.manifest, Line(k, value));
    ParsePrintedLine(st.manifest, k, value);
    LineKeepsSane(st.manifest, Line(k, value));
  }

  lemma HeadLines(done: seq<Listed>, p: Listed)
    requires Writable(p)
    ensures var s1 := Idle(done).(inside := true, filename := p.filename);
      var s2 := s1.(size := Some(p.size));
      && IndexLine(Idle(done), "package=" + p.filename, Again) == Some(s1)
      && IndexLine(s1, "size=" + Decimal(p.size), Again) == Some(s2)
      && IndexLine(s2, "sha256=" + p.sha256, Again) == Some(s2.(sha256 := Some(p.sha256)))
  {
    hide ManifestLine, Close, Validates, LinesFit, Narrow, ParseUnsigned, PackageFilename, Decimal;
    ParseDecimal(p.size, SizeMax);
    FieldLine("package=", p.filename);
    FieldLine("size=", Decimal(p.size));
    FieldLine("sha256=", p.sha256);
    DiffersAt("size=" + Decimal(p.size), "package=", 0);
    DiffersAt("sha256=" + p.sha256, "package=", 0);
    DiffersAt("sha256=" + p.sha256, "size=", 1);
    LowerStays(p.sha256);
    assert forall i :: 7 <= i < 71 ==> ("sha256=" + p.sha256)[i] == p.sha256[i - 7];
  }

  lemma DiffersAt(s: string, prefix: string, i: nat)
    requires i < |s| && i < |prefix| && s[i] != prefix[i]
    ensures !StartsWith(s, prefix)
  {
    assert |s| >= |prefix| ==> s[..|prefix|][i] == s[i];
  }

  lemma FieldLine(word: string, value: string)
    ensures StartsWith(word + value, word) && (word + value)[|word|..] == value
  {
  }

  lemma LowerStays(s: string)
    requires HexText(s)
    ensures LowerAll(s) == s
  {
  }

  lemma DecimalIsShort(n: nat)
    requires n <= SizeMax
    ensures |Decimal(n)| <= 20
  {
    hide Decimal;
    assert Pow10(5) == 100000;
    assert Pow10(10) == 10_000_000_000;
    assert Pow10(15) == 1_000_000_000_000_000;
    assert Pow10(20) == 100_000_000_000_000_000_000;
    DecimalLength(n, 20);
  }

  lemma WordIsClean(word: string, value: string)
    requires Free(word, '\n') && Free(word, '\0') && Free(value, '\n') && Free(value, '\0')
    requires |word| + |value| < MaxRead && value != "" && value[|value| - 1] != '\r'
    ensures Clean(word + value)
  {
  }

  lemma HeadIsClean(p: Listed)
    requires Writable(p) && Free(p.filename, '\n') && ShortName(p)
    ensures Clean("package=" + p.filename) && Clean("size=" + Decimal(p.size)) && Clean("sha256=" + p.sha256) && Clean("")
  {
    hide Validates, LinesFit, Narrow, Decimal, Clean, PackageFilename, HexText, Free;
    DecimalIsShort(p.size);
    HexIsFree(p.sha256);
    DecimalIsFree(p.size);
    FilenameEnds(p.filename);
    WordsAreFree();
    WordIsClean("package=", p.filename);
    WordIsClean("size=", Decimal(p.size));
    WordIsClean("sha256=", p.sha256);
    assert Clean("") by { NothingIsClean(); }
  }

  lemma NothingIsClean()
    ensures Clean("")
  {
  }

  lemma WordsAreFree()
    ensures Free("package=", '\n') && Free("package=", '\0') && Free("size=", '\n') && Free("size=", '\0')
    ensures Free("sha256=", '\n') && Free("sha256=", '\0')
  {
  }

  lemma HexIsFree(s: string)
    requires HexText(s)
    ensures Free(s, '\n') && Free(s, '\0') && (s != "" ==> s[|s| - 1] != '\r')
  {
  }

  lemma DecimalIsFree(n: nat)
    ensures var s := Decimal(n); Free(s, '\n') && Free(s, '\0') && s[|s| - 1] != '\r'
  {
    hide Decimal;
  }

  lemma FilenameEnds(name: string)
    requires PackageFilename(name)
    ensures name != "" && name[|name| - 1] == 'x'
  {
    assert name[|name| - 1] == name[|name| - 4..][3];
  }

  /** A line too long for the reader. */
  lemma ScanLong(st: Scan, line: string, rest: string, way: Way)
    requires Free(line, '\n') && |line| >= MaxRead
    ensures ScanLines(st, line + "\n" + rest, way) == None
  {
    CutLine(line, rest);
  }

  /** A manifest that is too wide or too large ends the scan. */
  lemma {:induction false} ScanFieldsFails(st: Scan, fs: Fields, tail: string)
    requires st.inside && fs.OneField? && AllScalar(fs) && Sane(st.manifest) && Assign(st.manifest, fs).Some?
    requires !Narrow(fs) || SizeOf(Assign(st.manifest, fs).value) > MaxSize
    ensures ScanLines(st, PrintFields(fs, tail), Again) == None
    decreases fs
  {
    hide Sane, SizeOf, SetField, Line, IndexLine, ReadLine;
    var k, value, rest := fs.key, fs.value, PrintFields(fs.rest, tail);
    var line := Line(k, value);
    if |line| >= MaxRead {
      LineHasNoEnd(k, value);
      ScanLong(st, line, rest, Again);
    } else {
      LineIsClean(k, value);
      ScanClean(st, line, rest, Again);
      if SizeOf(st.manifest) + |line| + 1 > MaxSize {
        ManifestLineTooMuch(st, k, value);
      } else {
        ManifestLineScans(st, k, value);
        ScanFieldsFails(st.(manifest := SetField(st.manifest, k, value).value, sawManifest := true), fs.rest, tail);
      }
    }
  }

  lemma ManifestLineTooMuch(st: Scan, k: Key, value: string)
    requires st.inside && Scalar(value) && |Line(k, value)| < MaxRead && Sane(st.manifest)
    requires SizeOf(st.manifest) + |Line(k, value)| + 1 > MaxSize
    ensures IndexLine(st, Line(k, value), Again) == None
  {
    hide Sane, SizeOf, SetField, Line, ParseLine, Reread, StartsWith;
    LineIsClean(k, value);
    OwnKeyword(k, value);
    RereadIsParseLine(st.manifest, Line(k, value));
  }

  /** The state after the three lines before the manifest. */
  function AfterHead(done: seq<Listed>, p: Listed): Scan {
    Scan(done, true, p.filename, Some(p.size), Some(p.sha256), Blank, false)
  }

  lemma ScanHead(done: seq<Listed>, p: Listed, tail: string)
    requires Writable(p) && Free(p.filename, '\n')
    ensures ScanLines(Idle(done), Block(p, tail), Again) ==
      if ShortName(p) then ScanLines(AfterHead(done, p), PrintFields(FieldsOf(p.manifest), "\n" + tail), Again) else None
  {
    hide Writable, IndexLine, ScanLines, PrintFields, FieldsOf, Decimal, Clean, Free;
    var s1 := Idle(done).(inside := true, filename := p.filename);
    var s2 := s1.(size := Some(p.size));
    var t3 := PrintFields(FieldsOf(p.manifest), "\n" + tail);
    var t2 := "sha256=" + p.sha256 + "\n" + t3;
    var t1 := "size=" + Decimal(p.size) + "\n" + t2;
    if ShortName(p) {
      HeadLines(done, p);
      HeadIsClean(p);
      ScanClean(Idle(done), "package=" + p.filename, t1, Again);
      ScanClean(s1, "size=" + Decimal(p.size), t2, Again);
      ScanClean(s2, "sha256=" + p.sha256, t3, Again);
    } else {
      NameHasNoEnd(p.filename);
      ScanLong(Idle(done), "package=" + p.filename, t1, Again);
    }
  }

  lemma NameHasNoEnd(name: string)
    requires Free(name, '\n')
    ensures Free("package=" + name, '\n')
  {
  }

  /** One written entry gives one entry of the catalogue, or spoils the index. */
  lemma ScanBlock(done: seq<Listed>, p: Listed, tail: string)
    requires Writable(p) && Free(p.filename, '\n')
    ensures ScanLines(Idle(done), Block(p, tail), Again) ==
      if Indexable(p) then ScanLines(Idle(done + [p]), tail, Again) else None
  {
    hide Writable, IndexLine, ScanLines, PrintFields, FieldsOf, Clean, Block, NarrowManifest, ShortName;
    ScanHead(done, p, tail);
    var s3 := AfterHead(done, p);
    ScanManifest(s3, p, "\n" + tail);
    var s4 := s3.(manifest := p.manifest, sawManifest := true);
    assert "" + "\n" + tail == "\n" + tail;
    NothingIsClean();
    ScanClean(s4, "", tail, Again);
    BlankLineCloses(s4, p);
  }

  lemma BlankLineCloses(st: Scan, p: Listed)
    requires Writable(p) && st == Scan(st.done, true, p.filename, Some(p.size), Some(p.sha256), p.manifest, true)
    ensures IndexLine(st, "", Again) == Some(Idle(st.done + [p]))
  {
    hide Validates;
  }

  lemma ScanManifest(st: Scan, p: Listed, tail: string)
    requires Writable(p) && st.inside && st.manifest == Blank
    ensures ScanLines(st, PrintFields(FieldsOf(p.manifest), tail), Again) ==
      if NarrowManifest(p.manifest) then ScanLines(st.(manifest := p.manifest, sawManifest := true), tail, Again) else None
  {
    hide Validates, Partial, LinesFit, ScanLines, PrintFields, FieldsOf, Assign, PackageFilename, Narrow, Sane, SizeOf,
      FieldsSize, AllScalar, HexText, Free;
    var m := p.manifest;
    ValidIsPartial(m);
    FieldsAreScalar(m);
    AssignAll(m);
    BlankIsSane();
    PrintedSize(FieldsOf(m), "");
    SizeIsPrinted(m);
    if NarrowManifest(m) { ScanFields(st, FieldsOf(m), tail); } else { ScanFieldsFails(st, FieldsOf(m), tail); }
  }

  lemma ScanNothing(done: seq<Listed>)
    ensures ScanLines(Idle(done), "", Again) == Some(Idle(done))
  {
  }

  predicate AllIndexable(catalog: seq<Listed>) { forall i :: 0 <= i < |catalog| ==> Indexable(catalog[i]) }

  predicate AllWritable(catalog: seq<Listed>) { forall i :: 0 <= i < |catalog| ==> Writable(catalog[i]) }

  predicate NamesHold(catalog: seq<Listed>) { forall i :: 0 <= i < |catalog| ==> Free(catalog[i].filename, '\n') }

  lemma {:induction false} ScanBlocks(done: seq<Listed>, catalog: seq<Listed>)
    requires AllWritable(catalog) && NamesHold(catalog)
    ensures ScanLines(Idle(done), Blocks(catalog), Again) == if AllIndexable(catalog) then Some(Idle(done + catalog)) else None
    decreases |catalog|
  {
    hide Indexable, Block, IndexLine, ScanLines, Writable, Free;
    if catalog == [] {
      assert done + catalog == done;
      ScanNothing(done);
    } else {
      ScanBlock(done, catalog[0], Blocks(catalog[1..]));
      assert done + [catalog[0]] + catalog[1..] == done + catalog;
      ScanBlocks(done + [catalog[0]], catalog[1..]);
      assert AllIndexable(catalog) <==> Indexable(catalog[0]) && AllIndexable(catalog[1..]);
    }
  }

  // --- no name that was read holds a line end

  predicate NamesRead(st: Scan) { NamesHold(st.done) && Free(st.filename, '\n') }

  lemma LineKeepsNames(st: Scan, line: string, way: Way)
    requires NamesRead(st) && Free(line, '\n') && IndexLine(st, line, way).Some?
    ensures NamesRead(IndexLine(st, line, way).value)
  {
    hide ManifestLine, Validates, StartsWith, PackageFilename, HexChar, ParseUnsigned;
    if line != "" && StartsWith(line, "package=") { TailHasNoEnd(line); }
  }

  lemma TailHasNoEnd(line: string)
    requires Free(line, '\n') && StartsWith(line, "package=")
    ensures Free(line[8..], '\n')
  {
  }

  lemma {:induction false} ScanKeepsNames(st: Scan, text: string, way: Way)
    requires NamesRead(st) && ScanLines(st, text, way).Some?
    ensures NamesRead(ScanLines(st, text, way).value)
    decreases |text|
  {
    hide NamesRead, IndexLine;
    match ReadLine(text)
    case Eof => CloseKeepsNames(st);
    case Bad =>
    case Got(line, rest) =>
      LineKeepsNames(st, line, way);
      ScanKeepsNames(IndexLine(st, line, way).value, rest, way);
  }

  lemma CloseKeepsNames(st: Scan)
    requires NamesRead(st) && Close(st).Some?
    ensures NamesRead(Close(st).value)
  {
    hide Validates;
  }

  const MaxIndexSize := 16 * 1024 * 1024

  /** pux_repo_load_index. */
  function LoadIndex(text: string): Option<seq<Listed>> { if |text| > MaxIndexSize then None else ParseIndex(text, Again) }

  /** Writing an index and loading it gives the catalogue exactly when each entry is one
      the index can carry, and the file is not too large. */
  lemma IndexThenParse(catalog: seq<Listed>)
    requires catalog != [] && AllWritable(catalog)
    ensures LoadIndex(IndexOf(catalog)) == Some(catalog) <==> AllIndexable(catalog) && |IndexOf(catalog)| <= MaxIndexSize
  {
    hide Indexable, Writable, ScanLines, ReadLine, IndexLine, Blocks;
    var rest := "\n" + Blocks(catalog);
    assert IndexOf(catalog) == IndexHeader + "\n" + rest;
    assert Clean(IndexHeader) && Clean("");
    ReadClean(IndexHeader, rest);
    assert "" + "\n" + Blocks(catalog) == rest;
    ScanClean(Idle([]), "", Blocks(catalog), Again);
    BlankLineIgnored();
    assert [] + catalog == catalog;
    if NamesHold(catalog) {
      ScanBlocks([], catalog);
    } else {
      if AllIndexable(catalog) { EndsAreNotIndexable(catalog); }
      if ScanLines(Idle([]), Blocks(catalog), Again).Some? { ScanKeepsNames(Idle([]), Blocks(catalog), Again); }
    }
  }

  lemma EndsAreNotIndexable(catalog: seq<Listed>)
    requires AllIndexable(catalog)
    ensures NamesHold(catalog)
  {
  }

  lemma BlankLineIgnored()
    ensures IndexLine(Idle([]), "", Again) == Some(Idle([]))
  {
  }

  // --- a line that fits the package and not the index

  /** A manifest whose description makes a line of 4095 bytes. */
  function WideManifest(): Manifest {
    Manifest(1, "pkg", "1", 1, "noarch", seq(4083, _ => 'x'), "free", [], [], [], [])
  }

  lemma WideManifestFits()
    ensures Validates(WideManifest()) && LinesFit(WideManifest()) && |Print(WideManifest())| <= MaxSize
    ensures |Line(Description, WideManifest().description)| == 4095
  {
    SmallFits(WideManifest());
    hide Print, LinesFit;
  }

  lemma NarrowIfSet(m: Manifest, k: Key, rest: Fields)
    requires !IsList(k) && Narrow(IfSet(m, k, rest))
    ensures Narrow(rest) && (Field(m, k) != "" ==> |Line(k, Field(m, k))| < MaxRead)
  {
    hide Line, Field;
  }

  lemma WideAfter(m: Manifest, rest: Fields)
    requires m.description != "" && |Line(Description, m.description)| >= MaxRead
    ensures !Narrow(ScalarFields(m, rest))
  {
    hide Line, Narrow, IfSet;
    var f6 := IfSet(m, License, rest);
    var f5 := IfSet(m, Description, f6);
    var f4 := IfSet(m, Arch, f5);
    var f3 := IfSet(m, Release, f4);
    var f2 := IfSet(m, Version, f3);
    var f1 := IfSet(m, Name, f2);
    if Narrow(ScalarFields(m, rest)) {
      NarrowIfSet(m, Format, f1);
      NarrowIfSet(m, Name, f2);
      NarrowIfSet(m, Version, f3);
      NarrowIfSet(m, Release, f4);
      NarrowIfSet(m, Arch, f5);
      NarrowIfSet(m, Description, f6);
    }
  }

  /** Such a package is valid, and the index that lists it alone cannot be read. */
  lemma WideLineSpoilsIndex(p: Listed)
    requires Writable(p) && Free(p.filename, '\n') && p.manifest == WideManifest()
    ensures LoadIndex(IndexOf([p])) == None
  {
    hide Writable, LinesFit, Print, ScanLines, ReadLine, IndexLine, Blocks, ScalarFields, Narrow;
    WideManifestFits();
    WideAfter(WideManifest(), ListFields(WideManifest()));
    var rest := "\n" + Blocks([p]);
    assert IndexOf([p]) == IndexHeader + "\n" + rest;
    assert Clean(IndexHeader) && Clean("");
    ReadClean(IndexHeader, rest);
    assert "" + "\n" + Blocks([p]) == rest;
    ScanClean(Idle([]), "", Blocks([p]), Again);
    BlankLineIgnored();
    ScanBlocks([], [p]);
    assert !Indexable([p][0]);
  }
}
