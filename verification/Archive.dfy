/** Package archives: the builder, the validator and the extractor. */
module Archive {
  import opened Strings
  import opened Package
  import opened ManifestText
  import opened Tree
  import opened Ustar
  import opened UstarHeader

  const MaxMembers := 1_000_000
  const LongMax: nat := 0x7fff_ffff_ffff_ffff
  const LinkMode := 0x1ff  // the mode of every symbolic link

  /** struct build_entry: a node of the payload directory. */
  datatype Item = Item(path: string, node: Node)

  // --- building

  function ArchivePath(it: Item): string { PayloadPrefix + it.path + if it.node.Dir? then "/" else "" }

  /** readlink into 100 bytes cuts a longer target silently. */
  function Cut100(target: string): string { if |target| <= NameSize then target else target[..NameSize] }

  function MemberOf(it: Item): Member {
    match it.node
    case File(data, mode) => Member(ArchivePath(it), mode % 4096, |data|, RegularKind, "")
    case Dir(mode) => Member(ArchivePath(it), mode % 4096, 0, DirectoryKind, "")
    case Link(target) => Member(ArchivePath(it), LinkMode, 0, LinkKind, Cut100(target))
  }

  /** What add_tree demands of a node. */
  predicate Packable(it: Item) {
    it.path != "" && |ArchivePath(it)| <= NameSize && (it.node.Link? ==> Scalar(Cut100(it.node.target)))
  }

  predicate SizeFits(it: Item) { it.node.File? ==> |it.node.data| < Pow8(11) }

  function PaddingOf(size: nat): nat { (BlockSize - size % BlockSize) % BlockSize }

  function Nuls(n: nat): (s: string)
    ensures |s| == n && forall i :: 0 <= i < n ==> s[i] == '\0'
  {
    seq(n, _ => '\0')
  }

  function Padded(data: string): string { data + Nuls(PaddingOf(|data|)) }

  /** A member: its header, and for a file the contents and padding. */
  function MemberBytes(it: Item): string {
    HeaderOf(MemberOf(it)) + if it.node.File? then Padded(it.node.data) else ""
  }

  function MembersBytes(items: seq<Item>): string {
    if items == [] then Nuls(2 * BlockSize) else MemberBytes(items[0]) + MembersBytes(items[1..])
  }

  function ManifestMember(text: string, mode: nat): Member { Member(ManifestName, mode % 4096, |text|, RegularKind, "") }

  /** The bytes of an archive with these members. */
  function ArchiveOf(text: string, mode: nat, items: seq<Item>): string {
    HeaderOf(ManifestMember(text, mode)) + (Padded(text) + MembersBytes(items))
  }

  // --- the order of the members

  function InsertItem(it: Item, items: seq<Item>): seq<Item> {
    if items == [] then [it]
    else if StrCmp(ArchivePath(it), ArchivePath(items[0])) < 0 then [it] + items
    else [items[0]] + InsertItem(it, items[1..])
  }

  predicate Ordered(items: seq<Item>) {
    forall i, j :: 0 <= i < j < |items| ==> StrCmp(ArchivePath(items[i]), ArchivePath(items[j])) < 0
  }

  /** The nodes of the tree, each once, in the order of their archive paths. */
  ghost predicate Listing(items: seq<Item>, t: Tree) {
    Ordered(items) && forall it :: it in items <==> it.path in t && t[it.path] == it.node
  }

  lemma {:induction false} InsertKeepsOrder(it: Item, items: seq<Item>)
    requires Ordered(items) && forall x :: x in items ==> ArchivePath(x) != ArchivePath(it)
    ensures Ordered(InsertItem(it, items)) && forall x :: x in InsertItem(it, items) <==> x == it || x in items
  {
    if items != [] {
      assert items == [items[0]] + items[1..];
      if StrCmp(ArchivePath(it), ArchivePath(items[0])) < 0 {
        forall j | 0 <= j < |items| ensures StrCmp(ArchivePath(it), ArchivePath(items[j])) < 0 {
          if j > 0 { StrCmpTransitive(ArchivePath(it), ArchivePath(items[0]), ArchivePath(items[j])); }
        }
      } else {
        var rest := InsertItem(it, items[1..]);
        InsertKeepsOrder(it, items[1..]);
        StrCmpZero(ArchivePath(it), ArchivePath(items[0]));
        assert ArchivePath(items[0]) != ArchivePath(it);
        forall j | 0 <= j < |rest| ensures StrCmp(ArchivePath(items[0]), ArchivePath(rest[j])) < 0 { assert rest[j] in rest; }
      }
    }
  }

  lemma DistinctArchivePaths(t: Tree, x: Item, y: Item)
    requires SafePaths(t) && x.path in t && t[x.path] == x.node && y.path in t && t[y.path] == y.node && x != y
    ensures ArchivePath(x) != ArchivePath(y)
  {
    if ArchivePath(x) == ArchivePath(y) {
      NoFinalSlash(x.path);
      NoFinalSlash(y.path);
      assert ArchivePath(x)[8..] == x.path + if x.node.Dir? then "/" else "";
      assert ArchivePath(y)[8..] == y.path + if y.node.Dir? then "/" else "";
      SamePaths(x.path, x.node.Dir?, y.path, y.node.Dir?);
    }
  }

  lemma SamePaths(p: string, c: bool, q: string, d: bool)
    requires p != "" && q != "" && p[|p| - 1] != '/' && q[|q| - 1] != '/'
    requires p + (if c then "/" else "") == q + (if d then "/" else "")
    ensures p == q
  {
    var s := p + if c then "/" else "";
    assert c <==> s[|s| - 1] == '/';
    assert d <==> s[|s| - 1] == '/';
    assert p == s[..|p|] && q == s[..|q|];
  }

  lemma NoFinalSlash(p: string)
    requires SafePath(p)
    ensures p != "" && p[|p| - 1] != '/' && p[0] != '/'
  {
    SafeComponentAt(p, 0, 0);
    if p[|p| - 1] == '/' { SafeComponentAt(p, 0, |p|); }
  }

  // --- the readers

  function Drop(s: string, n: nat): (r: string)
    ensures |r| <= |s| && (|s| > 0 && n > 0 ==> |r| < |s|)
  {
    if n >= |s| then "" else s[n..]
  }

  predicate SecondZero(s: string) { |s| >= 2 * BlockSize && ZeroBlock(s[BlockSize..2 * BlockSize]) }

  predicate Regular(kind: char) { kind == RegularKind || kind == OtherRegularKind }

  /** What follows a member's contents and padding. */
  function Next(s: string, size: nat): string { Drop(Drop(s, BlockSize), size + PaddingOf(size)) }

  /** The loop of the validator: the contents of the manifest member. */
  function ValidateFrom(s: string, count: nat, data: Option<string>): Option<string>
    decreases |s|
  {
    if |s| < BlockSize then None
    else
      match ReadHeader(s[..BlockSize])
      case Zero => if SecondZero(s) then data else None
      case Invalid => None
      case Valid(name, size, kind) =>
        var body := s[BlockSize..];
        if size > LongMax || count + 1 > MaxMembers then None
        else if name != ManifestName then ValidateFrom(Next(s, size), count + 1, data)
        else if !Regular(kind) || data.Some? || size == 0 || size > MaxSize || |body| < size then None
        else ValidateFrom(Next(s, size), count + 1, Some(body[..size]))
  }

  /** pux_package_archive_validate. */
  function Validate(s: string): Option<Manifest> {
    var data := ValidateFrom(s, 0, None);
    if data.None? then None
    else
      var m := Parse(data.value);
      if m.Some? && Validates(m.value) then m else None
  }

  /** open_parent_dir: missing parents are created, existing ones must be directories. */
  function MakeParents(t: Tree, p: string, i: nat): Option<Tree>
    requires i <= |p|
    decreases |p| - i
  {
    var j := NextSlash(p, i);
    if j == |p| then Some(t)
    else
      var d := p[..j];
      if d !in t then MakeParents(t[d := Dir(0x1ed)], p, j + 1)
      else if t[d].Dir? then MakeParents(t, p, j + 1)
      else None
  }

  /** safe_mode: less the bits for set-user-id and set-group-id. */
  function SafeMode(h: string): nat
    requires |h| == BlockSize
  {
    var mode := ParseOctal(h[100..108]);
    if mode.None? then 0x1a4 else mode.value % 1024
  }

  /** extract_directory, extract_symlink and extract_regular_file. */
  function Place(t: Tree, p: string, h: string, kind: char, size: nat, body: string): Option<Tree>
    requires |h| == BlockSize
  {
    var parents := MakeParents(t, p, 0);
    if parents.None? then None
    else if kind == DirectoryKind then
      if size != 0 then None
      else if p !in parents.value then Some(parents.value[p := Dir(SafeMode(h))])
      else if parents.value[p].Dir? then parents
      else None
    else if p in parents.value then None
    else if kind == LinkKind then Some(parents.value[p := Link(FieldText(h, 157, 100))])
    else if |body| < size then None
    else Some(parents.value[p := File(body[..size], SafeMode(h))])
  }

  /** The loop of the extractor over the members, into the tree `t`. */
  function ExtractFrom(s: string, t: Tree): Option<Tree>
    decreases |s|
  {
    if |s| < BlockSize then None
    else
      var h := s[..BlockSize];
      match ReadHeader(h)
      case Zero => if SecondZero(s) then Some(t) else None
      case Invalid => None
      case Valid(name, size, kind) =>
        if size > LongMax then None
        else if name == "META" || name == ManifestName || name == "payload" then ExtractFrom(Next(s, size), t)
        else if !InPayload(name) || |name| == 8 || !SafeName(Strip(name[8..])) then None
        else
          var placed := Place(t, Strip(name[8..]), h, kind, size, s[BlockSize..]);
          if placed.None? then None else ExtractFrom(Next(s, size), placed.value)
  }

  /** pux_package_archive_extract into an empty directory. */
  function Extract(s: string): Option<Tree> {
    if Validate(s).None? then None else ExtractFrom(s, map[])
  }

  method ValidateArchive(s: string) returns (m: Option<Manifest>)
    ensures m == Validate(s)
  {
    hide ReadHeader, Parse, Validates, ZeroBlock;
    var rest, count, data := s, 0, None;
    while true
      invariant ValidateFrom(rest, count, data) == ValidateFrom(s, 0, None)
      decreases |rest|
    {
      if |rest| < BlockSize { return None; }
      var header := ReadHeader(rest[..BlockSize]);
      if header.Zero? { break; }
      if header.Invalid? || header.size > LongMax { return None; }
      if header.name == ManifestName {
        var body := rest[BlockSize..];
        if !Regular(header.kind) || data.Some? { return None; }
        if header.size == 0 || header.size > MaxSize || |body| < header.size { return None; }
        data := Some(body[..header.size]);
      }
      rest := Next(rest, header.size);
      count := count + 1;
      if count > MaxMembers { return None; }
    }
    if !SecondZero(rest) || data.None? { return None; }
    var parsed := Parse(data.value);
    m := if parsed.Some? && Validates(parsed.value) then parsed else None;
  }

  method ExtractArchive(s: string) returns (t: Option<Tree>)
    ensures t == Extract(s)
  {
    var m := ValidateArchive(s);
    if m.None? { return None; }
    var rest, tree := s, map[];
    while true
      invariant ExtractFrom(rest, tree) == ExtractFrom(s, map[])
      decreases |rest|
    {
      if |rest| < BlockSize { return None; }
      var h := rest[..BlockSize];
      var header := ReadHeader(h);
      if header.Zero? { return if SecondZero(rest) then Some(tree) else None; }
      if header.Invalid? || header.size > LongMax { return None; }
      var name := header.name;
      if name != "META" && name != ManifestName && name != "payload" {
        if !InPayload(name) || |name| == 8 || !SafeName(Strip(name[8..])) { return None; }
        var placed := Place(tree, Strip(name[8..]), h, header.kind, header.size, rest[BlockSize..]);
        if placed.None? { return None; }
        tree := placed.value;
      }
      rest := Next(rest, header.size);
    }
  }
}
