/** What any index that loads holds, and which of its lines are taken or refused. */
module IndexLayout {
  import opened Text
  import opened ManifestText
  import opened IndexText

  /** A name of a package file, and nothing above it in a path. */
  predicate FileName(name: string) {
    4 <= |name| < 4096 && name[|name| - 4..] == ".pux" && name != "index.pux" && forall i :: 0 <= i < |name| ==> name[i] != '/'
  }

  predicate LowerHex(s: string) { |s| == 64 && forall i :: 0 <= i < 64 ==> '0' <= s[i] <= '9' || 'a' <= s[i] <= 'f' }

  predicate GoodEntry(p: Listed) { FileName(p.filename) && p.size < 0x1_0000_0000_0000_0000 && LowerHex(p.sha256) && Validates(p.manifest) }

  predicate GoodScan(st: Scan) {
    && (forall p :: p in st.done ==> GoodEntry(p))
    && (st.inside ==> FileName(st.filename))
    && (st.size.Some? ==> st.size.value < 0x1_0000_0000_0000_0000)
    && (st.sha256.Some? ==> LowerHex(st.sha256.value))
  }

  lemma LineKeepsGood(st: Scan, line: string, way: Way)
    requires GoodScan(st) && IndexLine(st, line, way).Some?
    ensures GoodScan(IndexLine(st, line, way).value)
  {
    hide Validates, ManifestLine, ParseUnsigned, LowerHex;
    if line == "" {
    } else if StartsWith(line, "sha256=") && st.inside && !StartsWith(line, "package=") && !StartsWith(line, "size=") {
      Lowered(line[7..]);
      assert forall i :: 7 <= i < |line| ==> line[7..][i - 7] == line[i];
    } else if StartsWith(line, "size=") {
      SizeIsBounded(line[5..]);
    }
  }

  lemma SizeIsBounded(text: string)
    ensures ParseUnsigned(text, SizeMax).Some? ==> ParseUnsigned(text, SizeMax).value < 0x1_0000_0000_0000_0000
  {
  }

  lemma Lowered(s: string)
    ensures |s| == 64 && (forall i :: 0 <= i < 64 ==> HexChar(s[i])) ==> LowerHex(LowerAll(s))
  {
  }

  lemma {:induction false} ScanKeepsGood(st: Scan, text: string, way: Way)
    requires GoodScan(st) && ScanLines(st, text, way).Some?
    ensures GoodScan(ScanLines(st, text, way).value)
    decreases |text|
  {
    hide GoodScan, IndexLine, Close;
    match ReadLine(text)
    case Eof => ClosingKeepsGood(st);
    case Bad =>
    case Got(line, rest) =>
      LineKeepsGood(st, line, way);
      ScanKeepsGood(IndexLine(st, line, way).value, rest, way);
  }

  lemma ClosingKeepsGood(st: Scan)
    requires GoodScan(st) && Close(st).Some?
    ensures GoodScan(Close(st).value)
  {
    hide Validates, LowerHex, FileName;
  }

  /** Whatever index loads, it lists at least one package, and each under a plain file name,
      with a size, a digest of 64 lower-case digits, and a valid manifest. */
  lemma LoadedIsGood(text: string)
    requires ParseIndex(text, Again).Some?
    ensures ParseIndex(text, Again).value != [] && forall p :: p in ParseIndex(text, Again).value ==> GoodEntry(p)
  {
    hide ScanLines, GoodEntry;
    ScanKeepsGood(Idle([]), ReadLine(text).rest, Again);
  }

  /** A digest may be spelled in either case. */
  lemma DigestIsLowered(st: Scan, digest: string, way: Way)
    requires st.inside && st.sha256.None? && |digest| == 64
    requires forall i :: 0 <= i < 64 ==> '0' <= digest[i] <= '9' || 'a' <= digest[i] <= 'f' || 'A' <= digest[i] <= 'F'
    ensures var next := IndexLine(st, "sha256=" + digest, way);
      next.Some? && next.value == st.(sha256 := next.value.sha256) && next.value.sha256.Some? && |next.value.sha256.value| == 64
      && forall i :: 0 <= i < 64 ==>
        next.value.sha256.value[i] == if 'A' <= digest[i] <= 'F' then digest[i] + 32 as char else digest[i]
  {
    var line := "sha256=" + digest;
    assert line[7..] == digest && line[..7] == "sha256=" && line[0] == 's' && line[1] == 'h';
    assert forall i :: 7 <= i < 71 ==> line[i] == digest[i - 7];
  }

  /** Refused: a package within a package, a second size or digest, the marker of a record,
      and anything but a package, or a blank line, outside of one. */
  lemma LinesRefused(st: Scan, rest: string, line: string, way: Way)
    ensures st.inside ==> IndexLine(st, "package=" + rest, way).None?
    ensures st.size.Some? ==> IndexLine(st, "size=" + rest, way).None?
    ensures st.sha256.Some? ==> IndexLine(st, "sha256=" + rest, way).None?
    ensures IndexLine(st, "--- files ---", way).None?
    ensures !st.inside && line != "" && !(|line| >= 8 && line[..8] == "package=") ==> IndexLine(st, line, way).None?
  {
    hide PackageFilename, ParseUnsigned, ManifestLine, HexChar;
    assert ("package=" + rest)[..8] == "package=";
    assert ("size=" + rest)[..5] == "size=" && ("size=" + rest)[0] == 's';
    assert ("sha256=" + rest)[..7] == "sha256=" && ("sha256=" + rest)[0] == 's' && ("sha256=" + rest)[1] == 'h';
    assert "--- files ---"[0] == '-';
  }

  /** A package is listed when its entry ends, if size, digest and a valid manifest were
      there. */
  lemma EntryIsListed(st: Scan)
    requires st.inside
    ensures Close(st).Some? <==> st.size.Some? && st.sha256.Some? && st.sawManifest && Validates(st.manifest)
    ensures Close(st).Some? ==> Close(st).value == Idle(st.done + [Listed(st.filename, st.size.value, st.sha256.value, st.manifest)])
  {
    hide Validates;
  }

  /** Which names are those of package files. */
  lemma FileNameIs(name: string)
    ensures PackageFilename(name) <==> FileName(name)
  {
  }

  /** A line may end in a carriage return and a line feed. */
  lemma EitherLineEnd(line: string, rest: string)
    requires |line| <= 4093 && forall i :: 0 <= i < |line| ==> line[i] !in {'\n', '\r', '\0'}
    ensures ReadLine(line + "\r\n" + rest) == ReadLine(line + "\n" + rest) == Got(line, rest)
  {
    ReadClean(line, rest);
    var text := line + "\r";
    assert text + "\n" + rest == line + "\r\n" + rest;
    CutLine(text, rest);
    assert text[..|text| - 1] == line;
  }
}
