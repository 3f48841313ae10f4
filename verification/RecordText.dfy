/** The record of an installed package: its manifest and its file list as text. */
module RecordText {
  import opened Strings
  import opened Package
  import opened Database
  import opened Tree
  import opened Text
  import opened ManifestText

  const Header := "# pux-record=1"
  const Marker := "# files"
  const Arrow := " -> "
  const MaxEntries := 4096
  const MaxEntryLine := 4095

  // --- reading

  /** append_file. */
  function AppendFile(files: seq<Entry>, e: Entry): Option<seq<Entry>> {
    if |files| >= MaxEntries || !SafePath(e.path) || |e.path| >= 4096 || Lists(files, e.path) then None
    else if e.kind.LinkKind? && (e.target == "" || |e.target| >= 4096) then None
    else Some(files + [e])
  }

  /** One line of the file list. */
  function ParseEntry(files: seq<Entry>, line: string): Option<seq<Entry>> {
    if line == "" then Some(files)
    else if line[0] == 'l' then
      if |line| < 7 then None
      else
        var rest := line[2..];
        var arrow := FindText(rest, Arrow);
        if arrow == |rest| || arrow == 0 || arrow + 4 == |rest| then None
        else AppendFile(files, Entry(LinkKind, rest[..arrow], rest[arrow + 4..]))
    else if |line| < 3 || line[1] != ' ' then None
    else if line[0] == 'f' then AppendFile(files, Entry(FileKind, line[2..], ""))
    else if line[0] == 'd' then AppendFile(files, Entry(DirKind, line[2..], ""))
    else None
  }

  function ParseEntries(files: seq<Entry>, text: string): Option<seq<Entry>>
    decreases |text|
  {
    if text == "" then Some(files)
    else
      var n := Find(text, '\n');
      if n > MaxEntryLine then None
      else
        var next := ParseEntry(files, text[..n]);
        if next.None? || n == |text| then next else ParseEntries(next.value, text[n + 1..])
  }

  function Separator(): string { "\n" + Marker + "\n" }

  /** parse_record_buffer. */
  function ParseRecord(buffer: string): Option<Record> {
    var text := CString(buffer);
    var at := FindText(text, Separator());
    if at == |text| then None
    else
      var head := text[..at];
      if |head| <= |Header| || head[..|Header|] != Header || head[|Header|] != '\n' then None
      else
        var m := Parse(head[|Header| + 1..]);
        if m.None? || !Validates(m.value) then None
        else
          var files := ParseEntries([], text[at + |Separator()|..]);
          if files.None? then None else Some(Record(m.value, Sorted(files.value)))
  }

  method ReadEntries(text: string) returns (files: Option<seq<Entry>>)
    ensures files == ParseEntries([], text)
  {
    hide ParseEntry, Find;
    var cursor, current := 0, [];
    while cursor < |text|
      invariant cursor <= |text| && ParseEntries(current, text[cursor..]) == ParseEntries([], text)
    {
      var rest := text[cursor..];
      var n := Find(rest, '\n');
      if n > MaxEntryLine { return None; }
      var next := ParseEntry(current, rest[..n]);
      if next.None? || n == |rest| { return next; }
      assert rest[n + 1..] == text[cursor + n + 1..];
      current := next.value;
      cursor := cursor + n + 1;
    }
    files := Some(current);
  }

  // --- writing

  function EntryLine(e: Entry): string {
    match e.kind
    case FileKind => "f " + e.path
    case DirKind => "d " + e.path
    case LinkKind => "l " + e.path + Arrow + e.target
  }

  function PrintEntries(files: seq<Entry>): string {
    if files == [] then "" else EntryLine(files[0]) + "\n" + PrintEntries(files[1..])
  }

  /** What pux_db_register_package checks of one entry. */
  predicate Registrable(e: Entry) {
    SafePath(e.path) && |e.path| < 4096 && (if e.kind.LinkKind? then e.target != "" && |e.target| < 4096 else e.target == "")
  }

  function RecordText(rec: Record): string { Header + "\n" + Print(rec.manifest) + Marker + "\n" + PrintEntries(rec.files) }

  /** pux_db_register_package: the text written, if the arguments are accepted. */
  function WriteRecord(rec: Record): Option<string> {
    if Validates(rec.manifest) && (forall e :: e in rec.files ==> Registrable(e)) && Distinct(Paths(rec.files))
    then Some(RecordText(rec)) else None
  }

  /** write_file_list. */
  method WriteFileList(files: seq<Entry>) returns (out: string)
    ensures out == PrintEntries(files)
  {
    out := "";
    for i := 0 to |files|
      invariant out + PrintEntries(files[i..]) == PrintEntries(files)
    {
      assert files[i..][0] == files[i] && files[i..][1..] == files[i + 1..];
      out := out + (EntryLine(files[i]) + "\n");
    }
  }

  // --- round trip

  /** The path does not hide the arrow that separates it from a link's target. */
  predicate Unambiguous(path: string) {
    (forall i: nat :: i < |path| ==> !OccursAt(path, Arrow, i)) && !(|path| >= 3 && path[|path| - 3..] == " ->")
  }

  lemma ArrowPosition(path: string, target: string)
    ensures FindText(path + Arrow + target, Arrow) == |path| <==> Unambiguous(path)
  {
    var text := path + Arrow + target;
    assert OccursAt(text, Arrow, |path|);
    forall i: nat | i < |path| ensures OccursAt(text, Arrow, i) <==> OccursAt(path, Arrow, i) || (i + 3 == |path| && path[i..] == " ->") {
      ArrowInside(path, target, i);
    }
    if Unambiguous(path) {
      FindTextAt(text, Arrow, |path|);
    } else if |path| >= 3 && path[|path| - 3..] == " ->" {
      assert OccursAt(text, Arrow, |path| - 3);
    } else {
      var i: nat :| i < |path| && OccursAt(path, Arrow, i);
      assert OccursAt(text, Arrow, i);
    }
  }

  lemma ArrowInside(path: string, target: string, i: nat)
    requires i < |path|
    ensures OccursAt(path + Arrow + target, Arrow, i) <==> OccursAt(path, Arrow, i) || (i + 3 == |path| && path[i..] == " ->")
  {
    var text := path + Arrow + target;
    assert Arrow == [' ', '-', '>', ' '];
    FourAt(text, i);
    if i + 4 <= |path| {
      FourAt(path, i);
    } else {
      assert text[|path|] == ' ' && text[|path| + 1] == '-' && text[|path| + 2] == '>';
      if i + 3 == |path| { assert path[i..] == [path[i], path[i + 1], path[i + 2]] && " ->" == [' ', '-', '>']; }
    }
  }

  lemma FourAt(s: string, i: nat)
    requires i + 4 <= |s|
    ensures OccursAt(s, Arrow, i) <==> s[i] == ' ' && s[i + 1] == '-' && s[i + 2] == '>' && s[i + 3] == ' '
  {
    var cut := s[i..i + 4];
    assert cut == [s[i], s[i + 1], s[i + 2], s[i + 3]] && Arrow == [' ', '-', '>', ' '];
  }

  /** A link entry reads back exactly when its path does not hide the arrow; any other
      entry reads back. */
  lemma EntryReads(files: seq<Entry>, e: Entry)
    requires Registrable(e) && |files| < MaxEntries && !Lists(files, e.path)
    ensures ParseEntry(files, EntryLine(e)) == Some(files + [e]) <==> (e.kind.LinkKind? ==> Unambiguous(e.path))
  {
    hide SafePath;
    var line := EntryLine(e);
    assert e.path != "" by { SafeNotEmpty(e.path); }
    assert AppendFile(files, e) == Some(files + [e]);
    if e.kind.LinkKind? {
      var rest := line[2..];
      assert rest == e.path + Arrow + e.target;
      ArrowPosition(e.path, e.target);
      var at := FindText(rest, Arrow);
      if Unambiguous(e.path) {
        assert rest[..at] == e.path && rest[at + 4..] == e.target;
      } else {
        assert at != |e.path|;
        if at < |rest| {
          var other := Entry(LinkKind, rest[..at], rest[at + 4..]);
          assert |other.path| != |e.path|;
          assert (files + [other])[|files|] == other && (files + [e])[|files|] == e;
        }
      }
    } else {
      var c := if e.kind.FileKind? then 'f' else 'd';
      assert line == [c, ' '] + e.path;
      assert line[0] == c && line[1] == ' ' && line[2..] == e.path && |line| >= 3;
      assert e == Entry(e.kind, e.path, "");
      assert ParseEntry(files, line) == AppendFile(files, e);
    }
  }

  lemma SafeNotEmpty(path: string)
    requires SafePath(path)
    ensures path != ""
  {
  }

  /** An entry whose line reads back. */
  predicate Storable(e: Entry) {
    && Registrable(e) && |EntryLine(e)| <= 4095 && Free(EntryLine(e), '\n')
    && (e.kind.LinkKind? ==> Unambiguous(e.path))
  }

  predicate AllStorable(files: seq<Entry>) { forall i :: 0 <= i < |files| ==> Storable(files[i]) }

  /** The lines are C strings. */
  predicate NulFree(files: seq<Entry>) { forall i :: 0 <= i < |files| ==> Free(EntryLine(files[i]), '\0') }

  lemma {:induction false} EntriesRead(files: seq<Entry>, more: seq<Entry>)
    requires Distinct(Paths(files + more)) && |files| + |more| <= MaxEntries
    requires AllStorable(more)
    ensures ParseEntries(files, PrintEntries(more)) == Some(files + more)
    decreases |more|
  {
    hide Registrable, Unambiguous, EntryLine, ParseEntry;
    if more == [] {
      assert files + more == files;
    } else {
      var e, rest := more[0], more[1..];
      var line := EntryLine(e);
      assert Storable(e);
      NotListed(files, more);
      EntryReads(files, e);
      CutLine(line, PrintEntries(rest));
      assert files + [e] + rest == files + more;
      EntriesRead(files + [e], rest);
    }
  }

  lemma NotListed(files: seq<Entry>, more: seq<Entry>)
    requires more != [] && Distinct(Paths(files + more))
    ensures !Lists(files, more[0].path)
  {
    var all := files + more;
    forall i | 0 <= i < |files| ensures files[i].path != more[0].path {
      assert Paths(all)[i] == files[i].path && Paths(all)[|files|] == more[0].path;
    }
  }

  /** A missing line end at the end of the text makes no difference. */
  lemma {:induction false} FinalLineEnd(m: Manifest, text: string)
    ensures ParseLines(m, text + "\n") == ParseLines(m, text)
    decreases |text|
  {
    hide ParseLine;
    assert ParseLine(m, "") == Some(m) by { EmptyLine(m); }
    var n := Find(text, '\n');
    var whole := text + "\n";
    FindAt(whole, '\n', n);
    assert whole[..n] == text[..n];
    if n < |text| {
      var next := ParseLine(m, text[..n]);
      assert whole[n + 1..] == text[n + 1..] + "\n";
      if next.Some? { FinalLineEnd(next.value, text[n + 1..]); }
    } else {
      assert text[..n] == text && whole[n + 1..] == "";
    }
  }

  lemma EmptyLine(m: Manifest)
    ensures ParseLine(m, "") == Some(m)
  {
  }

  /** No line after the first begins with the mark of a comment. */
  predicate NoLaterHash(s: string) { forall i :: 0 <= i < |s| - 1 && s[i] == '\n' ==> s[i + 1] != '#' }

  lemma {:induction false} FieldsHaveNoHash(fs: Fields)
    requires AllScalar(fs)
    ensures var s := PrintFields(fs, ""); NoLaterHash(s) && (s != "" ==> s[0] != '#' && s[|s| - 1] == '\n')
    decreases fs
  {
    if fs.OneField? {
      hide KeyText;
      var line, rest := Line(fs.key, fs.value), PrintFields(fs.rest, "");
      KeyTextPlain(fs.key);
      LineHasNoEnd(fs.key, fs.value);
      FieldsHaveNoHash(fs.rest);
      assert line[0] == KeyText(fs.key)[0];
      GluedLines(line, rest);
    }
  }

  lemma GluedLines(line: string, rest: string)
    requires line != "" && Free(line, '\n') && line[0] != '#'
    requires NoLaterHash(rest) && (rest != "" ==> rest[0] != '#' && rest[|rest| - 1] == '\n')
    ensures var s := line + "\n" + rest; NoLaterHash(s) && s[0] != '#' && s[|s| - 1] == '\n'
  {
    var s := line + "\n" + rest;
    assert forall i :: 0 <= i < |rest| ==> s[|line| + 1 + i] == rest[i];
  }

  lemma MarkerPosition(head: string, tail: string)
    requires head != "" && head[|head| - 1] == '\n' && NoLaterHash(head)
    ensures var text := head + Marker + "\n" + tail;
      FindText(text, Separator()) == |head| - 1 && text[|head| - 1 + |Separator()|..] == tail
  {
    var text := head + Marker + "\n" + tail;
    var at := |head| - 1;
    assert Separator() == "\n# files\n" && Marker + "\n" == "# files\n";
    assert text[at..at + 9] == Separator();
    forall i: nat | i < at ensures !OccursAt(text, Separator(), i) {
      if i + 9 <= |text| {
        var cut := text[i..i + 9];
        assert cut[0] == text[i] == head[i] && cut[1] == text[i + 1] == head[i + 1];
      }
    }
    FindTextAt(text, Separator(), at);
  }

  /** The limits a record must keep to be read again. */
  predicate Readable(rec: Record) {
    && LinesFit(rec.manifest) && |Print(rec.manifest)| <= 1_048_577
    && |rec.files| <= 4096 && AllStorable(rec.files)
  }

  lemma ManifestReads(m: Manifest)
    requires Validates(m) && m.release <= UintMax
    ensures var s := Print(m); |s| > 1 && NoLaterHash(s) && s[0] != '#' && s[|s| - 1] == '\n' && Free(s, '\0')
    ensures Parse(Print(m)[..|Print(m)| - 1]) == if LinesFit(m) && |Print(m)| <= MaxSize + 1 then Some(m) else None
  {
    hide Validates, LinesFit, ParseLines, PrintFields, FieldsOf;
    ValidIsPartial(m);
    FieldsAreScalar(m);
    FieldsHaveNoHash(FieldsOf(m));
    PrintedIsCString(FieldsOf(m), "");
    LongerThanOne(m);
    var s := Print(m);
    var cut := s[..|s| - 1];
    WholeCString(cut);
    assert cut + "\n" == s;
    FinalLineEnd(Blank, cut);
    ParseContinues(m, "");
    NoLines(m);
  }

  lemma LongerThanOne(m: Manifest)
    requires Validates(m)
    ensures |Print(m)| > 1
  {
    hide KeyText;
    KeyTextPlain(Format);
  }

  lemma {:induction false} EntriesAreCString(files: seq<Entry>)
    requires NulFree(files)
    ensures Free(PrintEntries(files), '\0')
  {
    hide EntryLine;
    if files != [] { EntriesAreCString(files[1..]); }
  }

  /** What is read of a record: its manifest, within the limits, and whatever the lines
      of the file list say. */
  lemma RecordReads(rec: Record)
    requires WriteRecord(rec).Some? && rec.manifest.release <= UintMax && NulFree(rec.files)
    ensures var m := rec.manifest; var read := ParseEntries([], PrintEntries(rec.files));
      ParseRecord(WriteRecord(rec).value) ==
        if LinesFit(m) && |Print(m)| <= MaxSize + 1 && read.Some? then Some(Record(m, Sorted(read.value))) else None
  {
    hide Validates, LinesFit, Registrable, Print, PrintEntries, Parse, ParseEntries, Sorted, FindText, Find, EntryLine;
    var m, tail := rec.manifest, PrintEntries(rec.files);
    ManifestReads(m);
    EntriesAreCString(rec.files);
    var head := Header + "\n" + Print(m);
    HeadHasNoHash(m, head);
    var text := head + Marker + "\n" + tail;
    assert RecordText(rec) == text;
    assert Free(text, '\0');
    WholeCString(text);
    MarkerPosition(head, tail);
    assert text[..|head| - 1][|Header| + 1..] == Print(m)[..|Print(m)| - 1];
    assert text[..|head| - 1][..|Header|] == Header;
  }

  /** Every entry that is read is one whose line reads back. */
  lemma ParsedEntry(files: seq<Entry>, line: string)
    requires AllStorable(files) && Distinct(Paths(files)) && |files| <= MaxEntries
    requires Free(line, '\n') && |line| <= MaxEntryLine && ParseEntry(files, line).Some?
    ensures var read := ParseEntry(files, line).value;
      AllStorable(read) && Distinct(Paths(read)) && |read| <= MaxEntries
  {
    hide SafePath, Unambiguous, FindText;
    if line != "" {
      var read := ParseEntry(files, line).value;
      var e := read[|files|];
      if line[0] == 'l' {
        var rest := line[2..];
        assert rest == e.path + Arrow + e.target by { CutAtArrow(rest); }
        ArrowPosition(e.path, e.target);
        assert forall i :: 0 <= i < |rest| ==> rest[i] == line[i + 2];
      } else {
        assert EntryLine(e) == line;
      }
      assert Storable(e);
      assert forall i :: 0 <= i < |files| ==> read[i] == files[i];
      SnocDistinct(files, e);
    }
  }

  lemma CutAtArrow(rest: string)
    ensures var at := FindText(rest, Arrow); at < |rest| ==> at + 4 <= |rest| && rest == rest[..at] + Arrow + rest[at + 4..]
  {
    var at := FindText(rest, Arrow);
    if at < |rest| {
      assert OccursAt(rest, Arrow, at);
      ThreePieces(rest, at);
    }
  }

  lemma ThreePieces(s: string, at: nat)
    requires OccursAt(s, Arrow, at)
    ensures s == s[..at] + Arrow + s[at + 4..]
  {
    assert s == s[..at] + s[at..at + 4] + s[at + 4..];
  }

  lemma SnocDistinct(files: seq<Entry>, e: Entry)
    requires Distinct(Paths(files)) && !Lists(files, e.path)
    ensures Distinct(Paths(files + [e]))
  {
    forall i, j | 0 <= i < j < |files| + 1 ensures Paths(files + [e])[i] != Paths(files + [e])[j] {
      if j < |files| { assert Paths(files)[i] != Paths(files)[j]; }
    }
  }

  lemma {:induction false} ParsedEntries(files: seq<Entry>, text: string)
    requires AllStorable(files) && Distinct(Paths(files)) && |files| <= MaxEntries && ParseEntries(files, text).Some?
    ensures var read := ParseEntries(files, text).value;
      AllStorable(read) && Distinct(Paths(read)) && |read| <= MaxEntries
    decreases |text|
  {
    hide ParseEntry, AllStorable, Distinct, Paths;
    if text != "" {
      var n := Find(text, '\n');
      ParsedEntry(files, text[..n]);
      if n < |text| { ParsedEntries(ParseEntry(files, text[..n]).value, text[n + 1..]); }
    }
  }

  /** Registering a package and reading its record gives the manifest and the same
      entries, sorted by path, exactly when the record is within the limits and each
      entry's line reads back. */
  lemma WriteThenRead(rec: Record)
    requires WriteRecord(rec).Some? && rec.manifest.release <= UintMax && NulFree(rec.files)
    ensures ParseRecord(WriteRecord(rec).value) == Some(Record(rec.manifest, Sorted(rec.files))) <==> Readable(rec)
  {
    hide WriteRecord, ParseRecord, LinesFit, Print, PrintEntries, ParseEntries, AllStorable, Storable, Registrable, Sorted;
    RecordReads(rec);
    DistinctRecord(rec);
    var read := ParseEntries([], PrintEntries(rec.files));
    if Readable(rec) {
      assert [] + rec.files == rec.files;
      EntriesRead([], rec.files);
    } else if read.Some? {
      NothingStored();
      ParsedEntries([], PrintEntries(rec.files));
      if Sorted(read.value) == Sorted(rec.files) { SameSorted(read.value, rec.files); }
    }
  }

  lemma DistinctRecord(rec: Record)
    requires WriteRecord(rec).Some?
    ensures Distinct(Paths(rec.files))
  {
  }

  lemma NothingStored()
    ensures AllStorable([]) && Distinct(Paths([]))
  {
  }

  lemma SameSorted(files: seq<Entry>, others: seq<Entry>)
    requires Distinct(Paths(files)) && Distinct(Paths(others)) && Sorted(files) == Sorted(others)
    ensures |files| == |others| && (AllStorable(files) ==> AllStorable(others))
  {
    hide Storable, Sorted;
    SortedLength(files);
    SortedLength(others);
    SortedProperties(files);
    SortedProperties(others);
    if AllStorable(files) {
      forall i | 0 <= i < |others| ensures Storable(others[i]) {
        assert others[i] in others;
        var j :| 0 <= j < |files| && files[j] == others[i];
      }
    }
  }

  lemma HeadHasNoHash(m: Manifest, head: string)
    requires head == Header + "\n" + Print(m)
    requires var s := Print(m); |s| > 1 && NoLaterHash(s) && s[0] != '#' && s[|s| - 1] == '\n'
    ensures head[|head| - 1] == '\n' && NoLaterHash(head)
  {
    hide Print;
    var s := Print(m);
    assert head[|Header|] == '\n' && forall i :: 0 <= i < |s| ==> head[|Header| + 1 + i] == s[i];
    assert Free(Header, '\n');
    assert forall i :: 0 <= i < |Header| ==> head[i] == Header[i];
  }

  /** A record that is sorted already, as those of the transactions are, reads back
      as it is. */
  lemma SortedReadsBack(rec: Record)
    requires WriteRecord(rec).Some? && rec.manifest.release <= UintMax && NulFree(rec.files) && Ascending(rec.files)
    ensures ParseRecord(WriteRecord(rec).value) == Some(rec) <==> Readable(rec)
  {
    hide WriteRecord, ParseRecord, Readable;
    WriteThenRead(rec);
    SortedStays(rec.files);
  }

  lemma {:induction false} SortedStays(files: seq<Entry>)
    requires Ascending(files)
    ensures Sorted(files) == files
  {
    if files != [] {
      var rest := files[1..];
      SortedStays(rest);
      assert files == [files[0]] + rest;
      if rest != [] { assert StrCmp(files[0].path, files[1].path) < 0; }
    }
  }
}
