/** What the database holds of a package: the record file, as it reads back. */
module Stored {
  import opened Package
  import opened Database
  import opened Tree
  import opened Text
  import opened ManifestText
  import opened RecordText

  const MaxRecordSize := 16 * 1024 * 1024

  /** pux_db_read_package, once the file is found. */
  function ReadRecord(text: string): Option<Record> { if |text| > MaxRecordSize then None else ParseRecord(text) }

  /** The record of a registered package; None when it cannot be read. */
  function ReadBack(rec: Record): Option<Record> {
    if WriteRecord(rec).None? then None else ReadRecord(WriteRecord(rec).value)
  }

  // --- payloads that archives carry

  /** A manifest as it was read from an archive. */
  predicate ManifestFits(m: Manifest) {
    Validates(m) && m.release <= UintMax && LinesFit(m) && |Print(m)| <= 1_048_577
  }

  /** The lengths and characters that the fields of an archive allow. */
  predicate FieldNames(t: Tree) {
    forall p :: p in t ==>
      |p| <= 92 && Free(p, '\0') && (t[p].Link? ==> |t[p].target| <= 100 && Scalar(t[p].target))
  }

  /** No path holds a line end, and no path of a link hides the arrow. */
  predicate Recordable(t: Tree) {
    forall p :: p in t ==> Free(p, '\n') && (t[p].Link? ==> Unambiguous(p))
  }

  lemma NodeLine(p: string, n: Node)
    requires SafePath(p) && |p| <= 92 && Free(p, '\0') && (n.Link? ==> |n.target| <= 100 && Scalar(n.target))
    ensures var e := EntryOf(p, n);
      && Registrable(e) && |EntryLine(e)| <= 198 && Free(EntryLine(e), '\0')
      && (Storable(e) <==> Free(p, '\n') && (n.Link? ==> Unambiguous(p)))
  {
    hide SafePath, Unambiguous;
    var e := EntryOf(p, n);
    var line := EntryLine(e);
    assert forall i :: 0 <= i < |p| ==> line[i + 2] == p[i];
  }

  lemma {:induction false} EntriesAreShort(files: seq<Entry>)
    requires forall i :: 0 <= i < |files| ==> |EntryLine(files[i])| <= 198
    ensures |PrintEntries(files)| <= 199 * |files|
  {
    hide EntryLine;
    if files != [] { EntriesAreShort(files[1..]); }
  }

  lemma EntryOfRecords(files: seq<Entry>, t: Tree, i: nat)
    requires Records(files, t) && SafePaths(t) && FieldNames(t) && i < |files|
    ensures Registrable(files[i]) && |EntryLine(files[i])| <= 198 && Free(EntryLine(files[i]), '\0')
    ensures var p := files[i].path; p in t && (Storable(files[i]) <==> Free(p, '\n') && (t[p].Link? ==> Unambiguous(p)))
  {
    NodeLine(files[i].path, t[files[i].path]);
  }

  /** The list that collect_tree makes of such a payload is always accepted. */
  lemma PayloadRegisters(m: Manifest, files: seq<Entry>, t: Tree)
    requires ManifestFits(m) && Records(files, t) && SafePaths(t) && FieldNames(t)
    ensures WriteRecord(Record(m, files)).Some? && NulFree(files)
    ensures AllStorable(files) <==> Recordable(t)
    ensures |PrintEntries(files)| <= 199 * |files|
  {
    hide Validates, LinesFit, Print, Registrable, Storable, EntryLine, Unambiguous, Free;
    forall i | 0 <= i < |files|
      ensures Registrable(files[i]) && |EntryLine(files[i])| <= 198 && Free(EntryLine(files[i]), '\0')
      ensures var p := files[i].path; p in t && (Storable(files[i]) <==> Free(p, '\n') && (t[p].Link? ==> Unambiguous(p)))
    {
      EntryOfRecords(files, t, i);
    }
    EntriesAreShort(files);
    if AllStorable(files) {
      forall p | p in t ensures Free(p, '\n') && (t[p].Link? ==> Unambiguous(p)) {
        var i :| 0 <= i < |files| && files[i].path == p;
      }
    }
  }

  /** A package is recorded as it is exactly when its payload is recordable: the limits
      on lines, counts and sizes hold for whatever comes from an archive. */
  lemma RecordedIffRecordable(m: Manifest, files: seq<Entry>, t: Tree)
    requires ManifestFits(m) && Records(files, t) && SafePaths(t) && FieldNames(t) && |files| <= MaxEntries
    ensures ReadBack(Record(m, files)) == Some(Record(m, Sorted(files))) <==> Recordable(t)
  {
    hide Validates, LinesFit, Print, AllStorable, Recordable, PrintEntries, ParseRecord, NulFree, Records, FieldNames, SafePaths, Sorted;
    PayloadRegisters(m, files, t);
    WriteThenRead(Record(m, files));
  }

  /** Whatever reads back carries the manifest, and its files ascend. */
  lemma ReadBackShape(rec: Record)
    requires ManifestFits(rec.manifest) && NulFree(rec.files) && ReadBack(rec).Some?
    ensures ReadBack(rec).value.manifest == rec.manifest && Ascending(ReadBack(rec).value.files)
  {
    hide Validates, LinesFit, Print, AllStorable, PrintEntries, ParseEntries, ParseRecord, WriteRecord, NulFree, Sorted, Distinct;
    RecordReads(rec);
    NothingStored();
    ParsedEntries([], PrintEntries(rec.files));
    SortedProperties(ParseEntries([], PrintEntries(rec.files)).value);
  }

  // --- paths that the record does not keep

  /** A line end in a name starts another entry. */
  lemma LineEndCuts(c: char, rest: string)
    requires c != '/' && c != '.' && c != '\n'
    ensures ParseEntries([], PrintEntries([Entry(FileKind, [c] + "\n" + rest, "")])) ==
      ParseEntries([Entry(FileKind, [c], "")], rest + "\n")
  {
    hide ParseEntries, PrintEntries, EntryLine, ParseEntry;
    NamePrinted(c, rest);
    FileLine([], c);
    assert [] + [Entry(FileKind, [c], "")] == [Entry(FileKind, [c], "")];
    FirstLineRead(['f', ' ', c], rest + "\n", [], [Entry(FileKind, [c], "")]);
  }

  lemma NamePrinted(c: char, rest: string)
    ensures PrintEntries([Entry(FileKind, [c] + "\n" + rest, "")]) == ['f', ' ', c] + "\n" + (rest + "\n")
  {
    hide PrintEntries;
    OneEntry(Entry(FileKind, [c] + "\n" + rest, ""));
    Rejoined(c, rest);
  }

  lemma FirstLineRead(line: string, rest: string, files: seq<Entry>, read: seq<Entry>)
    requires Free(line, '\n') && |line| <= MaxEntryLine && ParseEntry(files, line) == Some(read)
    ensures ParseEntries(files, line + "\n" + rest) == ParseEntries(read, rest)
  {
    hide ParseEntry, Find;
    CutLine(line, rest);
  }

  lemma Rejoined(c: char, rest: string)
    ensures "f " + ([c] + "\n" + rest) + "\n" == ['f', ' ', c] + "\n" + (rest + "\n")
  {
  }

  /** One file, whose name holds a line end, is recorded as two other files. */
  lemma LineEndSplits()
    ensures ParseEntries([], PrintEntries([Entry(FileKind, "x\nf y", "")])) ==
      Some([Entry(FileKind, "x", ""), Entry(FileKind, "y", "")])
  {
    hide ParseEntry, PrintEntries;
    var f, g := Entry(FileKind, "x", ""), Entry(FileKind, "y", "");
    LineEndCuts('x', "f y");
    assert ['x'] + "\n" + "f y" == "x\nf y" && ['x'] == "x" && "f y" + "\n" == "f y" + "\n" + "";
    CutLine("f y", "");
    FileLine([f], 'y');
    assert "f y" == ['f', ' ', 'y'] && "y" == ['y'] && [f] + [g] == [f, g];
  }

  /** One file whose name holds a line end makes its record unreadable. */
  lemma LineEndSpoils()
    ensures ParseEntries([], PrintEntries([Entry(FileKind, "x\nbad", "")])) == None
  {
    hide PrintEntries;
    LineEndCuts('x', "bad");
    assert ['x'] + "\n" + "bad" == "x\nbad" && "bad" + "\n" == "bad" + "\n" + "";
    CutLine("bad", "");
  }

  lemma OneEntry(e: Entry)
    ensures PrintEntries([e]) == EntryLine(e) + "\n"
  {
    assert [e][0] == e && [e][1..] == [];
    assert PrintEntries([]) == "";
    assert EntryLine(e) + "\n" + "" == EntryLine(e) + "\n";
  }

  lemma OneLetter(c: char)
    requires c != '/' && c != '.'
    ensures SafePath([c])
  {
    assert NextSlash([c], 0) == 1 by { assert NextSlash([c], 1) == 1; }
    assert [c][0..1] == [c] && [c][0] != '.';
  }

  lemma FileLine(files: seq<Entry>, c: char)
    requires c != '/' && c != '.' && |files| < MaxEntries && !Lists(files, [c])
    ensures ParseEntry(files, ['f', ' ', c]) == Some(files + [Entry(FileKind, [c], "")])
  {
    OneLetter(c);
    assert ['f', ' ', c][2..] == [c];
  }
}
