/** Where things stand in an archive that was built, byte for byte, and what the readers
    make of an archive that was cut short. */
module ArchiveLayout {
  import opened Package
  import opened Text
  import opened ManifestText
  import opened Tree
  import opened Ustar
  import opened UstarHeader
  import opened Archive
  import opened ArchiveRoundTrip

  /** The size in whole blocks of 512 bytes. */
  function Rounded(size: nat): nat { (size + 511) / 512 * 512 }

  lemma PaddingRounds(size: nat)
    ensures size + PaddingOf(size) == Rounded(size) && Rounded(size) % 512 == 0 && PaddingOf(size) < 512
  {
  }

  /** What a member takes: a block for its header, and whole blocks for the contents of a
      file. */
  function Room(it: Item): nat { 512 + if it.node.File? then Rounded(|it.node.data|) else 0 }

  /** How far behind the manifest the header of member `k` stands. */
  function Offset(items: seq<Item>, k: nat): nat
    requires k <= |items|
  {
    if k == 0 then 0 else Room(items[0]) + Offset(items[1..], k - 1)
  }

  lemma MemberRoom(it: Item)
    ensures |MemberBytes(it)| == Room(it) && Room(it) % 512 == 0
    ensures MemberBytes(it)[..512] == HeaderOf(MemberOf(it))
    ensures it.node.File? ==> Contents(MemberBytes(it), 512, it.node.data)
  {
    hide HeaderOf, MemberOf, PaddingOf;
    if it.node.File? { PaddingRounds(|it.node.data|); }
  }

  /** The contents of a file stand at `at`, with less than a block of NULs up to the next
      block. */
  predicate Contents(s: string, at: nat, data: string) {
    && at + Rounded(|data|) <= |s| && Rounded(|data|) < |data| + 512
    && s[at..at + |data|] == data
    && forall i :: at + |data| <= i < at + Rounded(|data|) ==> s[i] == '\0'
  }

  lemma {:induction false} MembersFrom(items: seq<Item>, k: nat)
    requires k <= |items|
    ensures Offset(items, k) % 512 == 0 && Offset(items, k) <= |MembersBytes(items)|
    ensures MembersBytes(items)[Offset(items, k)..] == MembersBytes(items[k..])
    ensures |MembersBytes(items)| == Offset(items, |items|) + 1024
    decreases |items|
  {
    hide MemberBytes, Room;
    if items != [] {
      MemberRoom(items[0]);
      if k > 0 {
        MembersFrom(items[1..], k - 1);
        assert items[1..][k - 1..] == items[k..];
      } else {
        MembersFrom(items[1..], 0);
      }
    }
  }

  /** Where the header of member `k` stands: behind the manifest's header, its text in whole
      blocks, and the members before. */
  function Start(text: string, items: seq<Item>, k: nat): nat
    requires k <= |items|
  {
    512 + Rounded(|text|) + Offset(items, k)
  }

  lemma BehindManifest(text: string, mode: nat, items: seq<Item>, k: nat)
    requires k <= |items|
    ensures var s := ArchiveOf(text, mode, items);
      && Start(text, items, k) % 512 == 0 && Start(text, items, k) <= |s|
      && s[Start(text, items, k)..] == MembersBytes(items[k..])
      && |s| == Start(text, items, |items|) + 1024
      && s[..512] == HeaderOf(ManifestMember(text, mode)) && Contents(s, 512, text)
  {
    hide HeaderOf, MembersBytes, PaddingOf, Offset, ManifestMember;
    PaddingRounds(|text|);
    MembersFrom(items, k);
    var h, rest := HeaderOf(ManifestMember(text, mode)), MembersBytes(items);
    var head := h + Padded(text);
    assert ArchiveOf(text, mode, items) == head + rest;
    assert (head + rest)[|head| + Offset(items, k)..] == rest[Offset(items, k)..];
  }

  /** Every header of a built archive stands on a block boundary, its file's contents right
      behind it, and two blocks of NULs end the archive. */
  lemma HeadersOnBlocks(text: string, mode: nat, items: seq<Item>, k: nat)
    requires k < |items|
    ensures var s, at := ArchiveOf(text, mode, items), Start(text, items, k);
      && at % 512 == 0 && at + 512 <= |s| && s[at..at + 512] == HeaderOf(MemberOf(items[k]))
      && (items[k].node.File? ==> Contents(s, at + 512, items[k].node.data))
  {
    hide HeaderOf, MemberOf, MemberBytes, ArchiveOf, Rounded, Start, PaddingOf;
    var s, at := ArchiveOf(text, mode, items), Start(text, items, k);
    BehindManifest(text, mode, items, k);
    MemberRoom(items[k]);
    var rest := s[at..];
    assert rest == MemberBytes(items[k]) + MembersBytes(items[k..][1..]);
    assert rest[..512] == MemberBytes(items[k])[..512];
    if items[k].node.File? { ContentsIn(s, at, MemberBytes(items[k]), items[k].node.data); }
  }

  lemma ContentsIn(s: string, at: nat, member: string, data: string)
    requires at <= |s| && |member| <= |s| - at && s[at..][..|member|] == member && Contents(member, 512, data)
    ensures Contents(s, at + 512, data)
  {
    hide Rounded;
    PaddingRounds(|data|);
    forall i | 512 <= i < 512 + Rounded(|data|) ensures s[at + i] == member[i] { assert s[at..][..|member|][i] == s[at + i]; }
    assert s[at + 512..at + 512 + |data|] == member[512..512 + |data|];
    forall i | at + 512 + |data| <= i < at + 512 + Rounded(|data|) ensures s[i] == '\0' { assert s[at + (i - at)] == member[i - at]; }
  }

  lemma EndsInNuls(text: string, mode: nat, items: seq<Item>)
    ensures var s := ArchiveOf(text, mode, items);
      |s| % 512 == 0 && |s| >= 1024 && forall i :: |s| - 1024 <= i < |s| ==> s[i] == '\0'
  {
    hide HeaderOf, ArchiveOf, Start;
    var s, at := ArchiveOf(text, mode, items), Start(text, items, |items|);
    BehindManifest(text, mode, items, |items|);
    assert items[|items|..] == [];
    forall i | at <= i < |s| ensures s[i] == '\0' { assert s[i] == s[at..][i - at]; }
  }

  // --- archives cut short

  lemma {:induction false} MembersCutShort(items: seq<Item>, count: nat, text: string, n: nat)
    requires n < |MembersBytes(items)| && forall i :: 0 <= i < |items| ==> Archivable(items[i])
    ensures ValidateFrom(MembersBytes(items)[..n], count, Some(text)).None?
    decreases |items|
  {
    hide Archivable, ReadHeader, MemberBytes, HeaderOf, MemberOf, ArchivePath, Next, Pow8, SecondZero;
    if n >= 512 {
      if items == [] {
        OneBlockIsNotTwo(n);
      } else {
        var it, rest := items[0], MembersBytes(items[1..]);
        MemberRoom(it);
        MemberHeaderReads(it);
        MemberNameReads(it);
        MemberCutShort(it, rest, n);
        if n >= Room(it) { MembersCutShort(items[1..], count + 1, text, n - Room(it)); }
      }
    }
  }

  lemma OneBlockIsNotTwo(n: nat)
    requires 512 <= n < 1024
    ensures var s := Nuls(1024)[..n]; ReadHeader(s[..512]) == Zero && !SecondZero(s)
  {
  }

  lemma NextOfCut(whole: string, size: nat, room: nat, n: nat)
    requires room == 512 + size + PaddingOf(size) && 512 <= n <= |whole| && room <= |whole|
    ensures Next(whole[..n], size) == if n >= room then whole[room..][..n - room] else ""
  {
    hide PaddingOf;
    var s := whole[..n];
    if n >= room { assert s[512..][room - 512..] == whole[room..][..n - room]; }
  }

  lemma MemberCutShort(it: Item, rest: string, n: nat)
    requires |MemberBytes(it)| == Room(it) && 512 <= n < Room(it) + |rest|
    ensures var s, size := (MemberBytes(it) + rest)[..n], MemberOf(it).size;
      && |s| == n && s[..512] == HeaderOf(MemberOf(it))
      && Next(s, size) == if n >= Room(it) then rest[..n - Room(it)] else ""
  {
    hide HeaderOf, PaddingOf, MemberBytes, Next, Rounded;
    MemberRoom(it);
    SizeOf(it);
    var whole := MemberBytes(it) + rest;
    assert whole[..n][..512] == MemberBytes(it)[..512];
    assert whole[Room(it)..] == rest;
    NextOfCut(whole, MemberOf(it).size, Room(it), n);
  }

  lemma SizeOf(it: Item)
    ensures 512 + MemberOf(it).size + PaddingOf(MemberOf(it).size) == Room(it)
  {
    PaddingRounds(MemberOf(it).size);
  }

  /** Of a built archive the readers take nothing less than the whole: cut anywhere, it
      neither validates nor unpacks. */
  lemma CutShortIsRefused(text: string, mode: nat, items: seq<Item>, n: nat)
    requires text != "" && |text| <= MaxSize && forall i :: 0 <= i < |items| ==> Archivable(items[i])
    requires n < |ArchiveOf(text, mode, items)|
    ensures Validate(ArchiveOf(text, mode, items)[..n]).None? && Extract(ArchiveOf(text, mode, items)[..n]).None?
  {
    hide ValidateFrom, ArchiveOf, Archivable;
    CutShortFrom(text, mode, items, n);
  }

  lemma CutShortFrom(text: string, mode: nat, items: seq<Item>, n: nat)
    requires text != "" && |text| <= MaxSize && forall i :: 0 <= i < |items| ==> Archivable(items[i])
    requires n < |ArchiveOf(text, mode, items)|
    ensures ValidateFrom(ArchiveOf(text, mode, items)[..n], 0, None).None?
  {
    hide ReadHeader, HeaderOf, MembersBytes, ArchiveOf, Next, Archivable, Rounded;
    if n >= 512 {
      var s, at := ArchiveOf(text, mode, items)[..n], 512 + Rounded(|text|);
      ManifestHeaderReads(text, mode);
      ManifestCutShort(text, mode, items, n);
      assert ReadHeader(s[..512]) == Valid(ManifestName, |text|, RegularKind);
      if n >= at {
        MembersCutShort(items, 1, text, n - at);
      } else {
        assert ValidateFrom("", 1, Some(text)).None?;
      }
    }
  }

  lemma ManifestCutShort(text: string, mode: nat, items: seq<Item>, n: nat)
    requires 512 <= n < |ArchiveOf(text, mode, items)|
    ensures var s, at := ArchiveOf(text, mode, items)[..n], 512 + Rounded(|text|);
      && |s| == n && s[..512] == HeaderOf(ManifestMember(text, mode))
      && (n >= 512 + |text| ==> s[512..][..|text|] == text)
      && |ArchiveOf(text, mode, items)| == at + |MembersBytes(items)|
      && Next(s, |text|) == if n >= at then MembersBytes(items)[..n - at] else ""
  {
    hide HeaderOf, MembersBytes, PaddingOf, ManifestMember, Next, Rounded, ArchiveOf;
    BehindManifest(text, mode, items, 0);
    PaddingRounds(|text|);
    var whole, at := ArchiveOf(text, mode, items), 512 + Rounded(|text|);
    assert Offset(items, 0) == 0;
    assert items[0..] == items;
    assert n >= 512 + |text| ==> whole[..n][512..][..|text|] == whole[512..512 + |text|];
    NextOfCut(whole, |text|, at, n);
  }

  // --- headers, byte for byte

  /** `text` from `from` on, with NULs up to `to`. */
  predicate Holds(h: string, from: nat, to: nat, text: string) {
    from + |text| <= to <= |h| && h[from..from + |text|] == text && forall i :: from + |text| <= i < to ==> h[i] == '\0'
  }

  /** Octal digits and a NUL. */
  predicate HoldsOctal(h: string, from: nat, to: nat, n: nat) {
    from < to <= |h| && (forall i :: from <= i < to - 1 ==> '0' <= h[i] <= '7') && OctalValue(h[from..to - 1]) == n && h[to - 1] == '\0'
  }

  /** The fields of a header, as POSIX lays out the ustar format. */
  lemma HeaderLayout(m: Member)
    requires Fits(m)
    ensures var h := HeaderOf(m);
      && Holds(h, 0, 100, m.name) && h[156] == m.kind && Holds(h, 157, 257, m.target)
      && Holds(h, 257, 263, "ustar") && h[263..265] == "00" && Holds(h, 265, 297, "root") && Holds(h, 297, 329, "root")
      && Holds(h, 329, 512, "")
  {
    hide OctalField, SumField, Sum, Pow8;
    var h := HeaderOf(m);
    assert forall i :: (0 <= i < 100 || 156 <= i < 512) ==> h[i] == HeaderByte(m, i);
    assert h[0..|m.name|] == m.name;
    assert h[157..157 + |m.target|] == m.target;
    assert h[257..262] == "ustar" && h[263..265] == "00" && h[265..269] == "root" && h[297..301] == "root";
  }

  /** And its numbers: mode, owner, group, size and time. */
  lemma HeaderNumbers(m: Member)
    requires Fits(m)
    ensures var h := HeaderOf(m);
      && HoldsOctal(h, 100, 108, m.mode) && HoldsOctal(h, 108, 116, 0) && HoldsOctal(h, 116, 124, 0)
      && HoldsOctal(h, 124, 136, m.size) && HoldsOctal(h, 136, 148, 0)
  {
    hide OctalField, SumField, Sum, Pow8, OctalValue, HoldsOctal;
    var h := HeaderOf(m);
    assert forall i :: 100 <= i < 148 ==> h[i] == HeaderByte(m, i);
    NoOverflow();
    OctalIn(h, 100, 8, m.mode);
    OctalIn(h, 108, 8, 0);
    OctalIn(h, 116, 8, 0);
    OctalIn(h, 124, 12, m.size);
    OctalIn(h, 136, 12, 0);
  }

  lemma OctalIn(h: string, at: nat, width: nat, n: nat)
    requires 0 < width && at + width <= |h| && n < Pow8(width - 1)
    requires forall i :: at <= i < at + width ==> h[i] == OctalField(n, width)[i - at]
    ensures HoldsOctal(h, at, at + width, n)
  {
    hide Octal, OctalValue, Pow8;
    OctalReads(n, width - 1);
    assert h[at..at + width - 1] == Octal(n, width - 1);
  }

  /** The checksum is that of the header with blanks in its place. */
  lemma ChecksumStands(m: Member)
    requires Fits(m)
    ensures var h := HeaderOf(m);
      && OctalValue(h[148..154]) == Sum(h[..148] + "        " + h[156..]) && h[154] == '\0' && h[155] == ' '
  {
    hide Octal, Sum, Pow8, OctalValue, Unsummed;
    var h, n := HeaderOf(m), Sum(Unsummed(m));
    Slices(m);
    SumStaysSmall(m);
    OctalReads(n, 6);
    assert h[148..156][..6] == h[148..154] == Octal(n, 6);
    assert h[148..156][6] == '\0' && h[148..156][7] == ' ';
  }

  lemma {:induction false} SumOfChanged(s: string, i: nat, c: char)
    requires i < |s|
    ensures Sum(s[i := c]) == Sum(s) + c as int - s[i] as int
  {
    var n := |s| - 1;
    if i == n { assert s[i := c][..n] == s[..n]; } else {
      assert s[i := c][..n] == s[..n][i := c];
      SumOfChanged(s[..n], i, c);
    }
  }

  /** A header that is changed in one byte, whichever outside of the checksum itself, is
      not read. */
  lemma DamageIsDetected(h: string, i: nat, c: char)
    requires |h| == 512 && ReadHeader(h).Valid? && i < 512 && !(148 <= i < 156) && c != h[i]
    ensures ReadHeader(h[i := c]).Invalid?
  {
    hide ParseOctal, Sum, FieldText, Allowed;
    var d := h[i := c];
    assert d[148..156] == h[148..156];
    ChecksumNotBlank(h);
    var k :| 148 <= k < 156 && h[k] != '\0';
    assert d[k] == h[k];
    assert Blanked(d) == Blanked(h)[i := c] && Blanked(h)[i] == h[i];
    SumOfChanged(Blanked(h), i, c);
    assert Sum(Blanked(d)) != Sum(Blanked(h));
  }

  lemma ChecksumNotBlank(h: string)
    requires |h| == 512 && ParseOctal(h[148..156]).Some?
    ensures exists k :: 148 <= k < 156 && h[k] != '\0'
  {
    hide OctalValue;
    var field := h[148..156];
    if forall k :: 148 <= k < 156 ==> h[k] == '\0' {
      assert forall k :: 0 <= k < 8 ==> field[k] == '\0';
      NothingToParse(field);
    }
  }

  lemma {:induction false} NothingToParse(field: string)
    requires forall k :: 0 <= k < |field| ==> field[k] == '\0'
    ensures SkipFillers(field) == ""
  {
    if field != "" { NothingToParse(field[1..]); }
  }

  /** How each node is entered, and the manifest. */
  lemma MembersAre(p: string, data: string, mode: nat, target: string, text: string)
    ensures MemberOf(Item(p, File(data, mode))) == Member("payload/" + p, mode % 4096, |data|, '\0', "")
    ensures MemberOf(Item(p, Dir(mode))) == Member("payload/" + p + "/", mode % 4096, 0, '5', "")
    ensures MemberOf(Item(p, Link(target))) == Member("payload/" + p, 511, 0, '2', if |target| <= 100 then target else target[..100])
    ensures ManifestMember(text, mode) == Member("META/manifest", mode % 4096, |text|, '\0', "")
  {
  }

  /** What a reader takes as a member: its kind, its name, and links without contents. */
  lemma AcceptedMembers(h: string)
    requires |h| == 512 && ReadHeader(h).Valid?
    ensures var r := ReadHeader(h); var name := Strip(r.name);
      && r.kind in {'\0', '0', '2', '5'} && (r.kind == '2' ==> r.size == 0)
      && (name == "META" || name == "META/manifest" || name == "payload" || (|name| >= 8 && name[..8] == "payload/"))
      && SafePath(name) && Holds(h, 257, 263, "ustar")
  {
    hide ParseOctal, Sum, SafePath;
    var field := h[257..263];
    assert CString(field) == "ustar";
    assert field[..5] == "ustar" && |field| == 6;
    assert h[257..262] == field[..5] && h[262] == field[5];
  }

  function Unslashed(name: string): string { if name != "" && name[|name| - 1] == '/' then name[..|name| - 1] else name }

  predicate KnownName(p: string) { p == "META" || p == "META/manifest" || p == "payload" || (|p| >= 8 && p[..8] == "payload/") }

  /** The names a member may have: META, its manifest, payload, and what is below payload,
      each with or without a slash at its end. */
  lemma NamesAllowed(name: string)
    ensures Allowed(name) <==> 0 < |name| < 4096 && SafePath(Strip(name)) && Strip(name) == Unslashed(name) && KnownName(Unslashed(name))
  {
    if name != "" && name[0] == '/' {
      var p := Strip(name);
      if SafePath(p) { NoFinalSlash(p); }
    }
  }

  /** Directories that no member names are made on the way, with mode 0755. */
  lemma {:induction false} ParentsAreMade(t: Tree, p: string, i: nat)
    requires i <= |p| && MakeParents(t, p, i).Some?
    ensures var u := MakeParents(t, p, i).value;
      && (forall q :: q in t ==> q in u && u[q] == t[q])
      && (forall q :: q in u && q !in t ==> Below(p, q) && u[q] == Dir(493))
    decreases |p| - i
  {
    var j := NextSlash(p, i);
    if j < |p| {
      assert Below(p, p[..j]);
      ParentsAreMade(if p[..j] in t then t else t[p[..j] := Dir(493)], p, j + 1);
    }
  }

  /** What can be packed: paths of at most 92 characters, 91 for a directory, files below 8
      gibibytes, and links with printable targets. */
  lemma PackableIs(it: Item)
    ensures Packable(it) <==>
      && it.path != "" && |it.path| <= (if it.node.Dir? then 91 else 92)
      && (it.node.Link? ==> Scalar(if |it.node.target| <= 100 then it.node.target else it.node.target[..100]))
    ensures SizeFits(it) <==> (it.node.File? ==> |it.node.data| < 0x2_0000_0000)
  {
    hide Scalar, Pow8;
    PowersOfEight();
  }

  /** The mode of a member that has none is 0644. */
  lemma ModeIs(h: string)
    requires |h| == 512
    ensures SafeMode(h) == if ParseOctal(h[100..108]).None? then 420 else ParseOctal(h[100..108]).value % 1024
  {
  }

  /** The validator takes one manifest, a file of either spelling, not empty, of at most a
      mebibyte, and all there. */
  lemma ManifestTakenIff(s: string, count: nat, data: Option<string>)
    requires |s| >= 512 && count < 1_000_000
    requires ReadHeader(s[..512]).Valid? && ReadHeader(s[..512]).name == "META/manifest"
    ensures var r := ReadHeader(s[..512]);
      ValidateFrom(s, count, data) ==
        if data.None? && 0 < r.size <= 1_048_576 && r.kind in {'\0', '0'} && r.size <= |s| - 512
        then ValidateFrom(Next(s, r.size), count + 1, Some(s[512..512 + r.size])) else None
  {
    hide ReadHeader, Next;
    var r := ReadHeader(s[..512]);
    if r.size <= |s| - 512 { assert s[512..][..r.size] == s[512..512 + r.size]; }
  }

  /** Nothing is placed where a path is taken, but for a directory. */
  lemma TakenIsRefused(t: Tree, p: string, h: string, kind: char, size: nat, body: string)
    requires |h| == 512 && p in t && !(kind == '5' && t[p].Dir?)
    ensures Place(t, p, h, kind, size, body).None?
  {
    hide SafeMode, FieldText;
    if MakeParents(t, p, 0).Some? { ParentsAreMade(t, p, 0); }
  }

  /** Directories have no contents. */
  lemma FullDirectoryRefused(t: Tree, p: string, h: string, size: nat, body: string)
    requires |h| == 512 && size > 0
    ensures Place(t, p, h, '5', size, body).None?
  {
    hide SafeMode, FieldText, MakeParents;
  }

  /** Numbers in a header may have blanks or NULs around them. */
  lemma BlanksAround(n: nat, k: nat, before: char, after: char)
    requires 0 < k && n < Pow8(k) && n < 0x1_0000_0000_0000_0000 && before in {' ', '\0'} && after in {' ', '\0'}
    ensures ParseOctal([before] + (Octal(n, k) + [after])) == Some(n)
  {
    hide Pow8, OctalValue, UntilFiller;
    var digits := Octal(n, k);
    ParseWritten(n, k, [after]);
    var field := [before] + (digits + [after]);
    assert field[1..] == digits + [after];
    assert SkipFillers(field) == SkipFillers(digits + [after]);
  }
}
