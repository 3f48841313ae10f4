/** Archives that were built are accepted and unpack to the tree they were built from. */
module ArchiveRoundTrip {
  import opened Strings
  import opened Package
  import opened Text
  import opened ManifestText
  import opened Tree
  import opened Ustar
  import opened UstarHeader
  import opened Archive

  // --- one listing for each tree

  lemma FirstIsLeast(a: seq<Item>, x: Item)
    requires Ordered(a) && x in a
    ensures a[0] == x || StrCmp(ArchivePath(a[0]), ArchivePath(x)) < 0
  {
    var i :| 0 <= i < |a| && a[i] == x;
  }

  lemma FirstItem(a: seq<Item>, b: seq<Item>)
    requires Ordered(a) && Ordered(b) && a != [] && b != [] && forall x :: x in a <==> x in b
    ensures a[0] == b[0]
  {
    FirstIsLeast(a, b[0]);
    FirstIsLeast(b, a[0]);
    StrCmpZero(ArchivePath(a[0]), ArchivePath(b[0]));
  }

  lemma {:induction false} OrderedOnce(a: seq<Item>, b: seq<Item>)
    requires Ordered(a) && Ordered(b) && forall x :: x in a <==> x in b
    ensures a == b
  {
    assert a != [] ==> a[0] in b;
    assert b != [] ==> b[0] in a;
    if a != [] {
      FirstItem(a, b);
      TailItems(a, b);
      TailItems(b, a);
      OrderedOnce(a[1..], b[1..]);
      assert a == [a[0]] + a[1..] && b == [b[0]] + b[1..];
    }
  }

  lemma TailItems(a: seq<Item>, b: seq<Item>)
    requires Ordered(a) && a != [] && b != [] && a[0] == b[0] && forall x :: x in a <==> x in b
    ensures Ordered(a[1..]) && forall x :: x in a[1..] ==> x in b[1..]
  {
    forall x | x in a[1..] ensures x in b[1..] {
      var i :| 0 <= i < |a| - 1 && a[1..][i] == x;
      assert StrCmp(ArchivePath(a[0]), ArchivePath(a[i + 1])) < 0;
      StrCmpZero(ArchivePath(a[0]), ArchivePath(x));
      assert x in a;
      assert b == [b[0]] + b[1..];
    }
  }

  /** A tree has one listing: the bytes of its archive do not depend on the order in
      which directories are read. */
  lemma OneListing(a: seq<Item>, b: seq<Item>, t: Tree)
    requires Listing(a, t) && Listing(b, t)
    ensures a == b
  {
    OrderedOnce(a, b);
  }

  // --- building

  ghost predicate Buildable(text: string, t: Tree) {
    && text != "" && |text| <= 1_048_576 && Parse(text).Some? && Validates(Parse(text).value)
    && |t| <= 1_000_000 && forall p :: p in t ==> Packable(Item(p, t[p])) && SizeFits(Item(p, t[p]))
  }

  /** C strings of bytes: what paths, targets and modes are. */
  predicate CText(s: string) { Bytes(s) && Free(s, '\0') }

  ghost predicate ByteTree(t: Tree) {
    SafePaths(t) && forall p :: p in t ==> CText(p) && (t[p].Link? ==> CText(t[p].target))
  }

  lemma {:induction false} InsertGrows(it: Item, items: seq<Item>)
    ensures |InsertItem(it, items)| == |items| + 1
  {
    if items != [] { InsertGrows(it, items[1..]); }
  }

  /** The payload directory is read in any order; each node is checked and collected. */
  method CollectPayload(t: Tree) returns (items: Option<seq<Item>>)
    requires ByteTree(t)
    ensures items.None? <==> |t| > 1_000_000 || exists p :: p in t && !Packable(Item(p, t[p]))
    ensures items.Some? ==> Listing(items.value, t)
  {
    var left, sorted := t.Keys, [];
    while left != {}
      invariant left <= t.Keys && Ordered(sorted)
      invariant forall it :: it in sorted <==> it.path in t && it.path !in left && t[it.path] == it.node
      invariant forall p :: p in t && p !in left ==> Packable(Item(p, t[p]))
      invariant |sorted| + |left| == |t| && |sorted| <= MaxMembers
      decreases left
    {
      var p :| p in left;
      left := left - {p};
      var it := Item(p, t[p]);
      if !Packable(it) || |sorted| >= MaxMembers { return None; }
      InsertGrows(it, sorted);
      forall x | x in sorted ensures ArchivePath(x) != ArchivePath(it) { DistinctArchivePaths(t, x, it); }
      InsertKeepsOrder(it, sorted);
      sorted := InsertItem(it, sorted);
    }
    items := Some(sorted);
  }

  lemma MemberIsWritable(it: Item)
    requires Packable(it) && CText(it.path) && (it.node.Link? ==> CText(it.node.target))
    ensures var m := MemberOf(it);
      && m.mode < Pow8(7) && |m.target| <= NameSize && Bytes(m.name) && Bytes(m.target) && |m.name| <= NameSize
      && m.kind as int < 256 && Free(m.name, '\0') && Free(m.target, '\0') && (SizeFits(it) <==> m.size < Pow8(11))
  {
    PowersOfEight();
  }

  /** write_payload_entry for each item, and the two blocks that end the archive. */
  method WriteMembers(items: seq<Item>) returns (out: Option<string>)
    requires forall it :: it in items ==> Packable(it) && CText(it.path) && (it.node.Link? ==> CText(it.node.target))
    ensures out.Some? <==> forall it :: it in items ==> SizeFits(it)
    ensures out.Some? ==> out.value == MembersBytes(items)
  {
    hide Packable, HeaderOf, CText, Pow8;
    var text := "";
    for i := 0 to |items|
      invariant text + MembersBytes(items[i..]) == MembersBytes(items)
      invariant forall j :: 0 <= j < i ==> SizeFits(items[j])
    {
      var it := items[i];
      assert it in items && items[i..][0] == it && items[i..][1..] == items[i + 1..];
      MemberIsWritable(it);
      var header := WriteHeader(MemberOf(it));
      if header.None? { return None; }
      var body := if it.node.File? then Padded(it.node.data) else "";
      assert MemberBytes(it) == header.value + body;
      text := text + (header.value + body);
    }
    out := Some(text + Nuls(2 * BlockSize));
  }

  /** pux_package_build. */
  method Build(text: string, mode: nat, t: Tree) returns (out: Option<string>)
    requires ByteTree(t)
    ensures out.Some? <==> Buildable(text, t)
    ensures out.Some? ==> exists items :: Listing(items, t) && out.value == ArchiveOf(text, mode, items)
  {
    hide Parse, Validates, HeaderOf, MembersBytes, Pow8;
    var m := Parse(text);
    if text == "" || |text| > MaxSize || m.None? || !Validates(m.value) { return None; }
    var items := CollectPayload(t);
    if items.None? { return None; }
    assert forall it :: it in items.value ==> it == Item(it.path, t[it.path]);
    assert forall p :: p in t ==> Item(p, t[p]) in items.value;
    var members := WriteMembers(items.value);
    if members.None? { return None; }
    PowersOfEight();
    ManifestFits(text, mode);
    var header := WriteHeader(ManifestMember(text, mode));
    out := Some(header.value + (Padded(text) + members.value));
  }

  lemma ManifestFits(text: string, mode: nat)
    requires |text| <= MaxSize
    ensures Fits(ManifestMember(text, mode)) && Free(ManifestName, '\0')
  {
    PowersOfEight();
  }

  // --- accepted

  /** What extraction makes of a node. */
  function Restored(n: Node): Node {
    match n
    case File(data, mode) => File(data, mode % 1024)
    case Dir(mode) => Dir(mode % 1024)
    case Link(target) => Link(Cut100(target))
  }

  predicate Archivable(it: Item) {
    SafePath(it.path) && Packable(it) && SizeFits(it) && CText(it.path) && (it.node.Link? ==> CText(it.node.target))
  }

  lemma PayloadIsSafe(p: string)
    requires SafePath(p)
    ensures SafePath(PayloadPrefix + p)
  {
    var q := PayloadPrefix + p;
    assert q[..7] == "payload" && q[7] == '/';
    SlashAt(q, 0, 7);
    SafeFromShift(PayloadPrefix, p, 0);
    assert q[0..7] == "payload";
  }

  lemma {:induction false} SlashAt(q: string, i: nat, j: nat)
    requires i <= j < |q| && q[j] == '/' && forall k :: i <= k < j ==> q[k] != '/'
    ensures NextSlash(q, i) == j
    decreases j - i
  {
    if i < j { SlashAt(q, i + 1, j); }
  }

  lemma {:induction false} SlashShift(prefix: string, p: string, i: nat)
    requires i <= |p|
    ensures NextSlash(prefix + p, |prefix| + i) == |prefix| + NextSlash(p, i)
    decreases |p| - i
  {
    if i < |p| && p[i] != '/' { SlashShift(prefix, p, i + 1); }
  }

  lemma SliceShift(prefix: string, p: string, i: nat, j: nat)
    requires i <= j <= |p|
    ensures (prefix + p)[|prefix| + i..|prefix| + j] == p[i..j]
  {
  }

  lemma {:induction false} SafeFromShift(prefix: string, p: string, i: nat)
    requires i <= |p|
    ensures SafeFrom(prefix + p, |prefix| + i) <==> SafeFrom(p, i)
    decreases |p| - i
  {
    hide NextSlash, SafeComponent;
    SlashShift(prefix, p, i);
    var j := NextSlash(p, i);
    SliceShift(prefix, p, i, j);
    if j < |p| { SafeFromShift(prefix, p, j + 1); }
  }

  /** The name of a member is one the readers allow, and leads back to the path. */
  lemma MemberNameReads(it: Item)
    requires Archivable(it)
    ensures var name := ArchivePath(it);
      && Allowed(name) && InPayload(name) && |name| > 8 && name != ManifestName && name != "META" && name != "payload"
      && Strip(name[8..]) == it.path && SafeName(it.path)
  {
    hide SafePath, Packable;
    var name := ArchivePath(it);
    NoFinalSlash(it.path);
    PayloadIsSafe(it.path);
    PackableIsShort(it);
    assert name[8..] == it.path + if it.node.Dir? then "/" else "";
    assert Strip(name) == PayloadPrefix + it.path;
    assert Strip(it.path) == it.path;
    assert name[..8] == PayloadPrefix && (PayloadPrefix + it.path)[..8] == PayloadPrefix;
    assert name[0] == 'p' && ManifestName[0] == 'M' && "META"[0] == 'M';
  }

  lemma PackableIsShort(it: Item)
    requires Packable(it)
    ensures |ArchivePath(it)| <= 100
  {
  }

  lemma MemberHeaderReads(it: Item)
    requires Archivable(it)
    ensures var m := MemberOf(it); var h := HeaderOf(m);
      && ReadHeader(h) == Valid(ArchivePath(it), m.size, m.kind) && m.size < Pow8(11)
      && FieldText(h, 157, 100) == m.target && ParseOctal(h[100..108]) == Some(m.mode)
  {
    hide Allowed, Pow8, ReadHeader, HeaderOf, CText, ParseOctal, SafePath;
    MemberIsWritable(it);
    MemberNameReads(it);
    if it.node.Link? { LinkIsScalar(it); }
    HeaderReads(MemberOf(it));
  }

  lemma LinkIsScalar(it: Item)
    requires Packable(it) && it.node.Link?
    ensures Scalar(MemberOf(it).target)
  {
  }

  /** A member takes its header, its contents and its padding: the next one starts
      right after them. */
  lemma MemberCuts(it: Item, rest: string)
    ensures var s := MemberBytes(it) + rest; var size := MemberOf(it).size;
      && |s| >= BlockSize && s[..BlockSize] == HeaderOf(MemberOf(it)) && Next(s, size) == rest
      && (it.node.File? ==> |s[BlockSize..]| >= size && s[BlockSize..][..size] == it.node.data)
  {
    hide HeaderOf, PaddingOf, ArchivePath;
    var h, size := HeaderOf(MemberOf(it)), MemberOf(it).size;
    var body := if it.node.File? then Padded(it.node.data) else "";
    assert NoPadding() by { ZeroPadding(); }
    HeadAndBody(h, body, rest, size);
    if it.node.File? { assert (body + rest)[..size] == it.node.data; }
  }

  predicate NoPadding() { PaddingOf(0) == 0 }

  lemma ZeroPadding()
    ensures NoPadding()
  {
  }

  lemma HeadAndBody(h: string, body: string, rest: string, size: nat)
    requires |h| == BlockSize && |body| == size + PaddingOf(size)
    ensures var s := h + body + rest;
      s[..BlockSize] == h && s[BlockSize..] == body + rest && Next(s, size) == rest
  {
    hide PaddingOf;
    var s := h + body + rest;
    assert s[..BlockSize] == h;
    assert Drop(s, BlockSize) == body + rest && s[BlockSize..] == body + rest;
    assert (body + rest)[|body|..] == rest;
    if |rest| == 0 { assert rest == ""; }
  }

  lemma EndReads()
    ensures var s := Nuls(2 * BlockSize);
      |s| >= BlockSize && ReadHeader(s[..BlockSize]) == Zero && SecondZero(s)
  {
  }

  lemma SizesAreSmall(n: nat)
    requires n < Pow8(11)
    ensures n <= LongMax
  {
    PowersOfEight();
  }

  lemma {:induction false} MembersValidate(items: seq<Item>, count: nat, text: string)
    requires count <= MaxMembers && forall i :: 0 <= i < |items| ==> Archivable(items[i])
    ensures ValidateFrom(MembersBytes(items), count, Some(text)) == if count + |items| <= MaxMembers then Some(text) else None
    decreases |items|
  {
    hide Archivable, ReadHeader, MemberBytes, HeaderOf, MemberOf, ArchivePath, Next, Pow8, SecondZero;
    if items == [] {
      EndReads();
    } else {
      var it, rest := items[0], MembersBytes(items[1..]);
      MemberCuts(it, rest);
      MemberHeaderReads(it);
      MemberNameReads(it);
      SizesAreSmall(MemberOf(it).size);
      if count < MaxMembers { MembersValidate(items[1..], count + 1, text); }
    }
  }

  lemma ManifestHeaderReads(text: string, mode: nat)
    requires |text| <= MaxSize
    ensures ReadHeader(HeaderOf(ManifestMember(text, mode))) == Valid(ManifestName, |text|, RegularKind)
  {
    hide ReadHeader, HeaderOf, SafePath;
    ManifestFits(text, mode);
    ManifestNameAllowed();
    HeaderReads(ManifestMember(text, mode));
  }

  lemma ManifestNameAllowed()
    ensures Allowed(ManifestName)
  {
    var p := ManifestName;
    SlashAt(p, 0, 4);
    assert p[0..4] == "META" && p[5..13] == "manifest";
    assert NextSlash(p, 5) == 13 by { NoSlash(p, 5); }
  }

  lemma {:induction false} NoSlash(p: string, i: nat)
    requires i <= |p| && forall k :: i <= k < |p| ==> p[k] != '/'
    ensures NextSlash(p, i) == |p|
    decreases |p| - i
  {
    if i < |p| { NoSlash(p, i + 1); }
  }

  /** The manifest member is read, and the payload follows it. */
  lemma ManifestCuts(text: string, mode: nat, items: seq<Item>)
    requires text != "" && |text| <= MaxSize
    ensures var s := ArchiveOf(text, mode, items);
      && |s| >= BlockSize && s[..BlockSize] == HeaderOf(ManifestMember(text, mode))
      && Next(s, |text|) == MembersBytes(items) && |s[BlockSize..]| >= |text| && s[BlockSize..][..|text|] == text
  {
    hide HeaderOf, MembersBytes, PaddingOf;
    var h, rest := HeaderOf(ManifestMember(text, mode)), MembersBytes(items);
    HeadAndBody(h, Padded(text), rest, |text|);
    assert h + (Padded(text) + rest) == h + Padded(text) + rest;
    assert (Padded(text) + rest)[..|text|] == text;
  }

  /** What was built is accepted exactly when manifest and payload stay within the
      million members a reader takes; the builder allows one member more. */
  lemma BuiltValidates(text: string, mode: nat, items: seq<Item>)
    requires text != "" && |text| <= MaxSize && Parse(text).Some? && Validates(Parse(text).value)
    requires forall i :: 0 <= i < |items| ==> Archivable(items[i])
    ensures Validate(ArchiveOf(text, mode, items)) == if |items| < MaxMembers then Parse(text) else None
  {
    hide Archivable, ReadHeader, HeaderOf, ManifestMember, MembersBytes, ArchiveOf, Next, Parse, Validates;
    ManifestCuts(text, mode, items);
    ManifestHeaderReads(text, mode);
    MembersValidate(items, 1, text);
  }

  // --- unpacked

  lemma {:induction false} ParentsStand(t: Tree, p: string, i: nat)
    requires i <= |p| && ParentsPresent(t, p)
    ensures MakeParents(t, p, i) == Some(t)
    decreases |p| - i
  {
    var j := NextSlash(p, i);
    if j < |p| {
      assert Below(p, p[..j]);
      ParentsStand(t, p, j + 1);
    }
  }

  /** The items can be placed one after the other: none is there yet, and the parents
      of each are there or come before it. */
  ghost predicate Ready(items: seq<Item>, t: Tree) {
    && (forall k :: 0 <= k < |items| ==> items[k].path !in t)
    && (forall j, k :: 0 <= j < k < |items| ==> items[j].path != items[k].path)
    && (forall k, d :: 0 <= k < |items| && Below(items[k].path, d) ==> ParentKnown(items, t, k, d))
  }

  ghost predicate ParentKnown(items: seq<Item>, t: Tree, k: nat, d: string)
    requires k < |items|
  {
    (d in t && t[d].Dir?) || exists j :: 0 <= j < k && items[j].path == d && items[j].node.Dir?
  }

  function Unpacked(items: seq<Item>, t: Tree): Tree {
    if items == [] then t else Unpacked(items[1..], t[items[0].path := Restored(items[0].node)])
  }

  lemma ReadyNext(items: seq<Item>, t: Tree)
    requires items != [] && Ready(items, t)
    ensures ParentsPresent(t, items[0].path)
    ensures Ready(items[1..], t[items[0].path := Restored(items[0].node)])
  {
    var rest, u := items[1..], t[items[0].path := Restored(items[0].node)];
    forall d | Below(items[0].path, d) ensures d in t && t[d].Dir? { assert ParentKnown(items, t, 0, d); }
    forall k, d | 0 <= k < |rest| && Below(rest[k].path, d) ensures ParentKnown(rest, u, k, d) {
      assert ParentKnown(items, t, k + 1, d);
      if !(d in t && t[d].Dir?) {
        var j :| 0 <= j < k + 1 && items[j].path == d && items[j].node.Dir?;
        if j > 0 { assert rest[j - 1] == items[j]; }
      }
    }
  }

  lemma SafeModeReads(it: Item)
    requires Archivable(it)
    ensures SafeMode(HeaderOf(MemberOf(it))) == MemberOf(it).mode % 1024
    ensures !it.node.Link? ==> MemberOf(it).mode % 1024 == it.node.mode % 1024
  {
    hide HeaderOf, ArchivePath, FieldText, ParseOctal, ReadHeader, Archivable;
    MemberHeaderReads(it);
  }

  lemma PlaceRestores(it: Item, t: Tree, body: string)
    requires Archivable(it) && it.path !in t && ParentsPresent(t, it.path)
    requires it.node.File? ==> |body| >= |it.node.data| && body[..|it.node.data|] == it.node.data
    ensures var m := MemberOf(it);
      Place(t, it.path, HeaderOf(m), m.kind, m.size, body) == Some(t[it.path := Restored(it.node)])
  {
    hide Archivable, HeaderOf, ArchivePath, FieldText, ParseOctal, MakeParents, ReadHeader, Cut100, SafeMode;
    MemberHeaderReads(it);
    SafeModeReads(it);
    ParentsStand(t, it.path, 0);
  }

  lemma {:induction false} MembersExtract(items: seq<Item>, t: Tree)
    requires Ready(items, t) && forall i :: 0 <= i < |items| ==> Archivable(items[i])
    ensures ExtractFrom(MembersBytes(items), t) == Some(Unpacked(items, t))
    decreases |items|
  {
    hide Archivable, ReadHeader, MemberBytes, HeaderOf, MemberOf, ArchivePath, Next, Pow8, SecondZero, Place, Restored, Ready,
      ParentsPresent, SafeName;
    if items == [] {
      EndReads();
    } else {
      var it, rest := items[0], MembersBytes(items[1..]);
      MemberCuts(it, rest);
      MemberHeaderReads(it);
      MemberNameReads(it);
      SizesAreSmall(MemberOf(it).size);
      ReadyNext(items, t);
      FirstIsNew(items, t);
      BodySize(it);
      PlaceRestores(it, t, (MemberBytes(it) + rest)[BlockSize..]);
      MembersExtract(items[1..], t[it.path := Restored(it.node)]);
    }
  }

  lemma FirstIsNew(items: seq<Item>, t: Tree)
    requires items != [] && Ready(items, t)
    ensures items[0].path !in t
  {
  }

  lemma BodySize(it: Item)
    ensures it.node.File? ==> MemberOf(it).size == |it.node.data|
  {
  }

  /** Directories sort before what they hold. */
  lemma ParentSortsFirst(x: Item, y: Item)
    requires Below(y.path, x.path) && x.node.Dir? && SafePath(y.path)
    ensures StrCmp(ArchivePath(x), ArchivePath(y)) < 0
  {
    var a, b := ArchivePath(x), ArchivePath(y);
    NoFinalSlash(y.path);
    var below := y.path[|x.path| + 1..];
    var rest := below + if y.node.Dir? then "/" else "";
    assert y.path == x.path + "/" + below;
    assert b == a + rest && a == a + "";
    StrCmpCommonPrefix(a, "", rest);
    assert below != "";
  }

  lemma ListingIsReady(items: seq<Item>, t: Tree)
    requires Listing(items, t) && WellFormed(t) && SafePaths(t)
    ensures Ready(items, map[])
  {
    forall j, k | 0 <= j < k < |items| ensures items[j].path != items[k].path { StrCmpZero(ArchivePath(items[j]), ArchivePath(items[k])); }
    forall k, d | 0 <= k < |items| && Below(items[k].path, d) ensures ParentKnown(items, map[], k, d) {
      assert items[k] in items && ParentsPresent(t, items[k].path);
      var x := Item(d, t[d]);
      assert x in items;
      var j :| 0 <= j < |items| && items[j] == x;
      ParentSortsFirst(x, items[k]);
      StrCmpZero(ArchivePath(x), ArchivePath(items[k]));
      assert j < k;
    }
  }

  /** The payload with the contents and modes an archive carries. */
  function RestoredTree(t: Tree): Tree { map p | p in t :: Restored(t[p]) }

  lemma {:induction false} UnpackedHolds(items: seq<Item>, u: Tree)
    requires forall j, k :: 0 <= j < k < |items| ==> items[j].path != items[k].path
    ensures var v := Unpacked(items, u);
      && (forall p :: p in v <==> p in u || exists k :: 0 <= k < |items| && items[k].path == p)
      && (forall k :: 0 <= k < |items| ==> v[items[k].path] == Restored(items[k].node))
      && (forall p :: p in u && (forall k :: 0 <= k < |items| ==> items[k].path != p) ==> v[p] == u[p])
    decreases |items|
  {
    hide Restored;
    if items != [] {
      var rest := items[1..];
      UnpackedHolds(rest, u[items[0].path := Restored(items[0].node)]);
      assert forall k :: 0 < k < |items| ==> items[k] == rest[k - 1];
    }
  }

  lemma ItemAt(items: seq<Item>, t: Tree, p: string) returns (k: nat)
    requires Listing(items, t) && p in t
    ensures k < |items| && items[k] == Item(p, t[p])
  {
    assert Item(p, t[p]) in items;
    k :| 0 <= k < |items| && items[k] == Item(p, t[p]);
  }

  lemma PathListed(items: seq<Item>, t: Tree, k: nat)
    requires Listing(items, t) && k < |items|
    ensures items[k].path in t
  {
    assert items[k] in items;
  }

  lemma UnpackedListing(items: seq<Item>, t: Tree)
    requires Listing(items, t) && forall j, k :: 0 <= j < k < |items| ==> items[j].path != items[k].path
    ensures Unpacked(items, map[]) == RestoredTree(t)
  {
    hide Restored, Listing, Unpacked;
    UnpackedHolds(items, map[]);
    var v := Unpacked(items, map[]);
    forall p | p in t ensures p in v && v[p] == Restored(t[p]) { var k := ItemAt(items, t, p); }
    forall k | 0 <= k < |items| ensures items[k].path in t { PathListed(items, t, k); }
    assert forall p :: p in v ==> p in t;
  }

  lemma {:induction false} ListingSize(items: seq<Item>, t: Tree)
    requires forall j, k :: 0 <= j < k < |items| ==> items[j].path != items[k].path
    requires forall p :: p in t <==> exists k :: 0 <= k < |items| && items[k].path == p
    ensures |items| == |t|
    decreases |items|
  {
    if items == [] {
      assert forall p :: p !in t;
      assert t == map[];
    } else {
      var last := items[|items| - 1].path;
      assert last in t;
      ListingSize(items[..|items| - 1], t - {last});
      assert t == (t - {last})[last := t[last]];
    }
  }

  lemma ItemsOf(text: string, items: seq<Item>, t: Tree)
    requires Buildable(text, t) && ByteTree(t) && Listing(items, t)
    ensures forall i :: 0 <= i < |items| ==> Archivable(items[i])
  {
    hide Packable, SizeFits, Parse, Validates, CText;
    forall i | 0 <= i < |items| ensures Archivable(items[i]) {
      assert items[i] in items;
      assert items[i] == Item(items[i].path, t[items[i].path]);
    }
  }

  lemma ListedOnce(items: seq<Item>, t: Tree)
    requires Listing(items, t)
    ensures forall j, k :: 0 <= j < k < |items| ==> items[j].path != items[k].path
    ensures |items| == |t|
  {
    forall j, k | 0 <= j < k < |items| ensures items[j].path != items[k].path {
      StrCmpZero(ArchivePath(items[j]), ArchivePath(items[k]));
      assert items[j] in items && items[k] in items;
    }
    forall p ensures p in t <==> exists k :: 0 <= k < |items| && items[k].path == p {
      if p in t {
        assert Item(p, t[p]) in items;
        var k :| 0 <= k < |items| && items[k] == Item(p, t[p]);
      }
      if k :| 0 <= k < |items| && items[k].path == p { assert items[k] in items; }
    }
    ListingSize(items, t);
  }

  /** A package that was built validates to its manifest exactly when its payload has
      less than a million entries; its payload then unpacks to the same paths, contents
      and targets, the modes less set-user-id and set-group-id, targets cut at 100. */
  lemma BuildThenExtract(text: string, mode: nat, t: Tree, items: seq<Item>)
    requires Buildable(text, t) && ByteTree(t) && WellFormed(t) && Listing(items, t)
    ensures Validate(ArchiveOf(text, mode, items)) == if |t| < 1_000_000 then Parse(text) else None
    ensures Extract(ArchiveOf(text, mode, items)) == if |t| < 1_000_000 then Some(RestoredTree(t)) else None
  {
    hide Archivable, ArchiveOf, ValidateFrom, ExtractFrom, Parse, Validates, WellFormed, Listing, Ready, ByteTree, RestoredTree;
    ItemsOf(text, items, t);
    ListedOnce(items, t);
    BuiltValidates(text, mode, items);
    if |t| < MaxMembers {
      ReadyAndListed(items, t);
      ManifestSkipped(text, mode, items);
      MembersExtract(items, map[]);
      UnpackedListing(items, t);
    }
  }

  lemma ReadyAndListed(items: seq<Item>, t: Tree)
    requires Listing(items, t) && WellFormed(t) && ByteTree(t)
    ensures Ready(items, map[])
  {
    ListingIsReady(items, t);
  }

  lemma ManifestSkipped(text: string, mode: nat, items: seq<Item>)
    requires text != "" && |text| <= MaxSize
    ensures ExtractFrom(ArchiveOf(text, mode, items), map[]) == ExtractFrom(MembersBytes(items), map[])
  {
    hide ReadHeader, HeaderOf, ManifestMember, MembersBytes, ArchiveOf, Next, Place;
    ManifestCuts(text, mode, items);
    ManifestHeaderReads(text, mode);
  }

  /** The same tree with modes less set-user-id and set-group-id. */
  function SafeModes(t: Tree): Tree {
    map p | p in t :: if t[p].File? then t[p].(mode := t[p].mode % 1024) else if t[p].Dir? then Dir(t[p].mode % 1024) else t[p]
  }

  /** Link targets survive the archive exactly when none is longer than 100 bytes. */
  lemma TargetsSurviveIffShort(t: Tree)
    ensures RestoredTree(t) == SafeModes(t) <==> forall p :: p in t && t[p].Link? ==> |t[p].target| <= NameSize
  {
    if RestoredTree(t) == SafeModes(t) {
      forall p | p in t && t[p].Link? ensures |t[p].target| <= NameSize {
        assert RestoredTree(t)[p] == SafeModes(t)[p];
      }
    }
  }
}
