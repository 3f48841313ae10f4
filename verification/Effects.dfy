/** What the three transactions do to a tree, in terms a caller sees. */
module Effects {
  import opened Strings
  import opened Version
  import opened Package
  import opened Database
  import opened Tree
  import opened Staging
  import opened Collect
  import opened Text
  import opened ManifestText
  import opened ManifestSize
  import opened Stored
  import opened Transaction

  /** An installation only adds: every existing path keeps its node, and what is
      new comes from the payload. */
  lemma InstallOnlyAdds(arch: string, t: Tree, db: Db, broken: set<string>, a: Archive, t': Tree, db': Db, broken': set<string>)
    requires InstallGuard(arch, t, db, a) && Installed(t, db, broken, a, t', db', broken')
    ensures forall p :: p in t ==> p in t' && t'[p] == t[p]
    ensures forall p :: p in t' && p !in t ==> p in a.payload && t'[p] == a.payload[p]
    ensures forall p :: p in a.payload ==> p in t'
  {
    forall p | p in t && p in a.payload ensures a.payload[p].Dir? {
      assert PlaceFree(db, t, EntryOf(p, a.payload[p]));
    }
  }

  // --- removals and links that lead nowhere

  /** Every recorded link leads somewhere when its turn comes, the files and links
      before it in the list being gone. */
  predicate LinksResolve(t: Tree, files: seq<Entry>, access: AccessTest) {
    forall i :: 0 <= i < |files| && !files[i].kind.DirKind? && files[i].path in t && t[files[i].path].Link? ==>
      access(t - Leaves(files[..i]), files[i].path).Reaches?
  }

  lemma LinksResolveStep(t: Tree, files: seq<Entry>, access: AccessTest, t1: Tree)
    requires files != [] && Distinct(Paths(files))
    requires t1 == t - Leaves(files[..1])
    requires var e := files[0]; !e.kind.DirKind? && e.path in t && t[e.path].Link? ==> access(t, e.path).Reaches?
    ensures LinksResolve(t, files, access) <==> LinksResolve(t1, files[1..], access)
  {
    var rest := files[1..];
    assert t - Leaves(files[..0]) == t;
    forall i | 0 <= i < |rest|
      ensures t1 - Leaves(rest[..i]) == t - Leaves(files[..i + 1])
      ensures rest[i].path in t1 <==> rest[i].path in t
    {
      assert files[..i + 1] == files[..1] + rest[..i];
      assert Leaves(files[..i + 1]) == Leaves(files[..1]) + Leaves(rest[..i]);
      assert Paths(files)[i + 1] != Paths(files)[0];
    }
    if LinksResolve(t1, rest, access) {
      forall i | 0 <= i < |files| && !files[i].kind.DirKind? && files[i].path in t && t[files[i].path].Link?
        ensures access(t - Leaves(files[..i]), files[i].path).Reaches?
      {
        if i > 0 { assert files[i] == rest[i - 1]; }
      }
    }
    if LinksResolve(t, files, access) {
      forall i | 0 <= i < |rest| && !rest[i].kind.DirKind? && rest[i].path in t1 && t1[rest[i].path].Link?
        ensures access(t1 - Leaves(rest[..i]), rest[i].path).Reaches?
      {
        assert rest[i] == files[i + 1];
      }
    }
  }

  /** Moving aside never touches what is not listed as a file or link. */
  lemma {:induction false} AsideKeepsOthers(t: Tree, files: seq<Entry>, access: AccessTest)
    ensures forall p :: p in Aside(t, files, access) ==> p in t && Aside(t, files, access)[p] == t[p]
    ensures forall p :: p in t && p !in Leaves(files) ==> p in Aside(t, files, access)
  {
    if files != [] {
      var e := files[0];
      AsideKeepsOthers(LessOne(t, e, access), files[1..], access);
      assert files == [e] + files[1..];
      assert Leaves(files) == Leaves(files[1..]) + if e.kind.DirKind? then {} else {e.path};
    }
  }

  /** A removal that no test stops takes all recorded files and links exactly when no
      recorded link is dangling at its turn: access follows the link. */
  lemma {:induction false} RemovalCompleteIffLinksResolve(t: Tree, files: seq<Entry>, access: AccessTest)
    requires Distinct(Paths(files)) && NeverStuck(t, files, access)
    ensures Aside(t, files, access) == t - Leaves(files) <==> LinksResolve(t, files, access)
    decreases |files|
  {
    if files != [] {
      var e, rest := files[0], files[1..];
      if !e.kind.DirKind? && e.path in t && !Visible(t, e.path, access) {
        DanglingStays(t, files, access);
      } else {
        var t1 := t - Leaves(files[..1]);
        AsideStep(t, files, access, t1);
        LinksResolveStep(t, files, access, t1);
        RemovalCompleteIffLinksResolve(t1, rest, access);
      }
    }
  }

  lemma AsideStep(t: Tree, files: seq<Entry>, access: AccessTest, t1: Tree)
    requires files != [] && Distinct(Paths(files)) && t1 == t - Leaves(files[..1])
    requires var e := files[0]; e.kind.DirKind? || e.path !in t || Visible(t, e.path, access)
    ensures Aside(t, files, access) == Aside(t1, files[1..], access)
    ensures NeverStuck(t, files, access) ==> NeverStuck(t1, files[1..], access)
    ensures t1 - Leaves(files[1..]) == t - Leaves(files) && Distinct(Paths(files[1..]))
  {
    var e, rest := files[0], files[1..];
    assert files[..1] == [e] && files == [e] + rest;
    assert Leaves([e]) == if e.kind.DirKind? then {} else {e.path};
    assert Leaves(files) == Leaves([e]) + Leaves(rest);
    assert t1 == LessOne(t, e, access);
    forall i, j | 0 <= i < j < |rest| ensures rest[i].path != rest[j].path {
      assert Paths(files)[i + 1] != Paths(files)[j + 1];
    }
  }

  /** A link whose target is missing at its turn is left behind. */
  lemma DanglingStays(t: Tree, files: seq<Entry>, access: AccessTest)
    requires files != [] && Distinct(Paths(files))
    requires var e := files[0]; !e.kind.DirKind? && e.path in t && t[e.path].Link? && access(t, e.path).Missing?
    ensures !LinksResolve(t, files, access) && files[0].path in Aside(t, files, access)
    ensures files[0].path in Leaves(files)
  {
    var e, rest := files[0], files[1..];
    assert t - Leaves(files[..0]) == t;
    AsideKeepsOthers(t, rest, access);
    forall i | 0 <= i < |rest| ensures rest[i].path != e.path { assert Paths(files)[i + 1] != Paths(files)[0]; }
  }

  /** A recorded link that leads nowhere when its turn comes, what went before it
      being gone. */
  predicate LeftBehind(t: Tree, order: seq<Entry>, i: nat, access: AccessTest)
    requires i < |order|
  {
    && !order[i].kind.DirKind? && order[i].path in t && t[order[i].path].Link?
    && !access(Aside(t, order[..i], access), order[i].path).Reaches?
  }

  function Dangling(t: Tree, order: seq<Entry>, access: AccessTest): set<string> {
    set i | 0 <= i < |order| && LeftBehind(t, order, i, access) :: order[i].path
  }

  lemma {:induction false} AsideInTwo(t: Tree, a: seq<Entry>, b: seq<Entry>, access: AccessTest)
    ensures Aside(t, a + b, access) == Aside(Aside(t, a, access), b, access)
  {
    if a == [] {
      assert a + b == b;
    } else {
      assert (a + b)[1..] == a[1..] + b;
      AsideInTwo(LessOne(t, a[0], access), a[1..], b, access);
    }
  }

  /** Each recorded file or link is decided at its own turn. */
  lemma AsideAtTurn(t: Tree, order: seq<Entry>, i: nat, access: AccessTest)
    requires Distinct(Paths(order)) && i < |order| && !order[i].kind.DirKind? && order[i].path in t
    ensures order[i].path in Aside(t, order, access) <==> LeftBehind(t, order, i, access)
  {
    var e, before, rest := order[i], order[..i], order[i + 1..];
    var now := Aside(t, before, access);
    assert order == before + ([e] + rest);
    AsideInTwo(t, before, [e] + rest, access);
    AsideKeepsOthers(t, before, access);
    AsideKeepsOthers(LessOne(now, e, access), rest, access);
    assert ([e] + rest)[1..] == rest;
    forall j | 0 <= j < |order| && order[j].path == e.path ensures j == i { assert Paths(order)[j] == Paths(order)[i]; }
  }

  /** Moving aside takes the listed files and links but for the dangling ones. */
  lemma AsideLeavesDangling(t: Tree, order: seq<Entry>, access: AccessTest)
    requires Distinct(Paths(order))
    ensures Aside(t, order, access) == t - (Leaves(order) - Dangling(t, order, access))
  {
    hide Aside, LeftBehind;
    AsideKeepsOthers(t, order, access);
    forall p | p in t && p in Leaves(order)
      ensures p in Aside(t, order, access) <==> p in Dangling(t, order, access)
    {
      var i :| 0 <= i < |order| && order[i].path == p && !order[i].kind.DirKind?;
      AsideAtTurn(t, order, i, access);
      forall j | 0 <= j < |order| && order[j].path == p ensures j == i { assert Paths(order)[j] == Paths(order)[i]; }
    }
  }

  /** What a removal deletes: recorded files, recorded links that lead somewhere at
      their turn, and a recorded directory exactly when no other package records it and
      nothing else remains below it, a link that was left behind included. */
  lemma RemoveDeletesExactly(t: Tree, db: Db, name: string, access: AccessTest, t': Tree, db': Db)
    requires GoodRecords(db) && RemoveGuard(t, db, name) && Removed(t, db, name, access, t', db')
    ensures var files, order := db[name].files, RemovalOrder(db[name].files);
      var gone := Leaves(files) - Dangling(t, order, access);
      forall p :: p in t' <==> p in t && p !in gone && !GoesWithItsContents(t, db, name, gone, p)
    ensures forall p :: p in t' ==> t'[p] == t[p]
  {
    hide Aside, Dangling, NotNeeded;
    var files, order := db[name].files, RemovalOrder(db[name].files);
    DescendingOrder(files);
    AsideLeavesDangling(t, order, access);
    assert Leaves(order) == Leaves(files);
    var may, gone := MayPrune(db, order, map[], name), Leaves(files) - Dangling(t, order, access);
    var left := t - gone;
    forall p ensures p in may && p in t && t[p].Dir? <==> OwnDirectory(t, db, name, p) { MayPruneIff(db, files, order, name, p); }
    forall p | p in left ensures Removable(left, may, p) <==> GoesWithItsContents(t, db, name, gone, p) {
      RemovableIff(t, left, may, db, name, gone, p);
    }
  }

  /** So no recorded file survives, and a recorded link does exactly if it was
      left behind. */
  lemma RemoveDeletesFiles(t: Tree, db: Db, name: string, access: AccessTest, t': Tree, db': Db)
    requires GoodRecords(db) && RemoveGuard(t, db, name) && Removed(t, db, name, access, t', db')
    ensures forall e :: e in db[name].files && e.kind.FileKind? ==> e.path !in t'
    ensures var order := RemovalOrder(db[name].files);
      forall i: nat :: i < |order| && order[i].kind.LinkKind? ==> (order[i].path in t' <==> LeftBehind(t, order, i, access))
  {
    hide Aside, NotNeeded;
    var files, order := db[name].files, RemovalOrder(db[name].files);
    DescendingOrder(files);
    AsideLeavesDangling(t, order, access);
    forall i: nat | i < |order| && !order[i].kind.DirKind?
      ensures order[i].path in t' <==> LeftBehind(t, order, i, access)
    {
      assert order[i] in files;
      if order[i].path in t { AsideAtTurn(t, order, i, access); }
    }
  }

  /** The test on a link fails when its turn comes, other than for a missing target. */
  predicate StopsAt(t: Tree, order: seq<Entry>, i: nat, access: AccessTest)
    requires i < |order|
  {
    var now, p := Aside(t, order[..i], access), order[i].path;
    !order[i].kind.DirKind? && p in now && now[p].Link? && access(now, p).Fails?
  }

  /** Nothing stops a removal exactly if no such test fails. */
  lemma {:induction false} NeverStuckIff(t: Tree, order: seq<Entry>, access: AccessTest)
    ensures NeverStuck(t, order, access) <==> forall i: nat :: i < |order| ==> !StopsAt(t, order, i, access)
  {
    if order != [] {
      var u, rest := LessOne(t, order[0], access), order[1..];
      NeverStuckIff(u, rest, access);
      assert order[..0] == [];
      assert StopsAt(t, order, 0, access) <==> !order[0].kind.DirKind? && Stuck(t, order[0].path, access);
      forall i: nat | i < |rest| ensures StopsAt(t, order, i + 1, access) <==> StopsAt(u, rest, i, access) {
        assert order[..i + 1][0] == order[0] && order[..i + 1][1..] == rest[..i];
      }
      if forall i: nat :: i < |order| ==> !StopsAt(t, order, i, access) {
        forall i: nat | i < |rest| ensures !StopsAt(u, rest, i, access) { assert !StopsAt(t, order, i + 1, access); }
      }
      if forall i: nat :: i < |rest| ==> !StopsAt(u, rest, i, access) {
        forall i: nat | 0 < i < |order| ensures !StopsAt(t, order, i, access) { assert !StopsAt(u, rest, i - 1, access); }
      }
    }
  }

  /** Where all links resolve, all recorded files and links go. */
  lemma CompleteRemovalDeletes(t: Tree, db: Db, name: string, access: AccessTest, t': Tree, db': Db)
    requires GoodRecords(db) && RemoveGuard(t, db, name) && Removed(t, db, name, access, t', db')
    requires LinksResolve(t, RemovalOrder(db[name].files), access)
    ensures var files := db[name].files;
      forall p :: p in t' <==> p in t && p !in Leaves(files) && !GoesWithItsContents(t, db, name, Leaves(files), p)
    ensures forall p :: p in t' ==> t'[p] == t[p]
  {
    hide Aside, NotNeeded;
    var order := RemovalOrder(db[name].files);
    DescendingOrder(db[name].files);
    RemovalCompleteIffLinksResolve(t, order, access);
    assert Leaves(order) == Leaves(db[name].files);
    RemoveDeletesExactly(t, db, name, access, t', db');
    NothingDangles(t, order, access);
  }

  lemma NothingDangles(t: Tree, order: seq<Entry>, access: AccessTest)
    requires Distinct(Paths(order)) && Aside(t, order, access) == t - Leaves(order)
    ensures Dangling(t, order, access) == {}
  {
    forall i: nat | i < |order| ensures !LeftBehind(t, order, i, access) {
      assert order[i] in order;
      if LeftBehind(t, order, i, access) { AsideAtTurn(t, order, i, access); }
    }
  }

  lemma MayPruneIff(db: Db, files: seq<Entry>, order: seq<Entry>, name: string, p: string)
    requires forall e :: e in order <==> e in files
    ensures p in MayPrune(db, order, map[], name) <==> ListsAs(files, DirKind, p) && OnlyOwner(db, name, p)
  {
    if ListsAs(files, DirKind, p) {
      var i :| 0 <= i < |files| && files[i].kind == DirKind && files[i].path == p;
      assert files[i] in order;
    }
  }

  lemma RemovableIff(t: Tree, left: Tree, may: set<string>, db: Db, name: string, gone: set<string>, d: string)
    requires name in db && left == t - gone && d in left
    requires forall p :: p in may && p in t && t[p].Dir? <==> OwnDirectory(t, db, name, p)
    ensures Removable(left, may, d) <==> GoesWithItsContents(t, db, name, gone, d)
  {
    if Removable(left, may, d) {
      forall p | p in t && Below(p, d) ensures p in gone || OwnDirectory(t, db, name, p) {
        if p in left { assert p in may && left[p].Dir?; }
      }
    }
    if GoesWithItsContents(t, db, name, gone, d) {
      forall p | p in left && Below(p, d) ensures p in may && left[p].Dir? {
        assert OwnDirectory(t, db, name, p);
      }
    }
  }

  /** A recorded directory with nothing below it but what is gone and directories of
      the same package, no other package recording it or one of these. */
  ghost predicate GoesWithItsContents(t: Tree, db: Db, name: string, gone: set<string>, d: string)
    requires name in db
  {
    && d in t && OwnDirectory(t, db, name, d)
    && forall p :: p in t && Below(p, d) ==> p in gone || OwnDirectory(t, db, name, p)
  }

  ghost predicate OwnDirectory(t: Tree, db: Db, name: string, d: string)
    requires name in db
  {
    ListsAs(db[name].files, DirKind, d) && OnlyOwner(db, name, d) && d in t && t[d].Dir?
  }

  // --- upgrades

  /** A failed upgrade restores the tree if the payload has no file or link where the
      tree has one that the old record does not hold. */
  lemma NothingForeignRestores(t: Tree, db: Db, a: Archive, placed: bool, t': Tree)
    requires a.manifest.name in db && Foreign(t, a.payload, db[a.manifest.name].files) == {}
    requires UpgradeUndone(t, db, a, placed, t')
    ensures t' == t
  {
    var lost :| lost <= Foreign(t, a.payload, db[a.manifest.name].files) && t' == t - lost;
    assert lost == {};
    assert t - lost == t;
  }

  /** How an accepted upgrade can end that does not succeed, after so many calls. */
  ghost predicate FailsLeaving(t: Tree, db: Db, a: Archive, forwardCalls: nat, t': Tree)
    requires a.manifest.name in db
  {
    var r := CommitOutcome(forwardCalls, UpgradeCalls(t, db, a));
    !r.Done? && UpgradeUndone(t, db, a, r.Unregistered?, t')
  }

  /** Every way of failing restores the tree exactly when nothing foreign is in the way;
      writing the record is the call at which all of it is lost. */
  lemma UpgradeAtomicIff(t: Tree, db: Db, a: Archive)
    requires a.manifest.name in db
    ensures (forall forwardCalls, t' :: FailsLeaving(t, db, a, forwardCalls, t') ==> t' == t) <==>
            Foreign(t, a.payload, db[a.manifest.name].files) == {}
  {
    var foreign := Foreign(t, a.payload, db[a.manifest.name].files);
    if foreign == {} {
      forall forwardCalls, t' | FailsLeaving(t, db, a, forwardCalls, t') ensures t' == t {
        NothingForeignRestores(t, db, a, CommitOutcome(forwardCalls, UpgradeCalls(t, db, a)).Unregistered?, t');
      }
    } else {
      assert SomeLost(t, foreign, t - foreign);
      assert FailsLeaving(t, db, a, UpgradeCalls(t, db, a), t - foreign);
      var p :| p in foreign;
      assert p in t && p !in t - foreign;
    }
  }

  lemma AcceptedIsInstalled(arch: string, t: Tree, db: Db, a: Archive)
    requires UpgradeAccepted(arch, t, db, a)
    ensures a.manifest.name in db
  {
  }

  lemma ForeignIsThere(t: Tree, s: Tree, old_: seq<Entry>)
    ensures forall p :: p in Foreign(t, s, old_) ==> p in t
  {
  }

  /** A run to that point: an accepted upgrade in which the write of the record is the
      first call to fail. It restores the tree exactly when nothing was foreign. */
  method UpgradeFailingLate(e: Engine, a: Archive) returns (r: Outcome)
    requires e.Valid() && ValidArchive(a) && e.broken == {}
    requires UpgradeAccepted(e.arch, e.tree, e.db, a) && UpgradeUnshared(e.db, a)
    modifies e
    ensures r == Unregistered && e.db == old(e.db)
    ensures e.tree == old(e.tree) - Foreign(old(e.tree), a.payload, old(e.db)[a.manifest.name].files)
    ensures e.tree == old(e.tree) <==> Foreign(old(e.tree), a.payload, old(e.db)[a.manifest.name].files) == {}
  {
    hide ValidArchive, UpgradeAccepted, UpgradeUnshared, Upgraded, Foreign, UpgradeCalls;
    AcceptedIsInstalled(e.arch, e.tree, e.db, a);
    ghost var foreign := Foreign(e.tree, a.payload, e.db[a.manifest.name].files);
    ForeignIsThere(e.tree, a.payload, e.db[a.manifest.name].files);
    assert forall p :: p in foreign ==> p in e.tree && p !in e.tree - foreign;
    r := e.Upgrade(a, UpgradeCalls(e.tree, e.db, a));
  }

  /** A package, and its next version, which has another file. */
  function SamplePackage(): Manifest { Manifest(1, "pkg", "1", 1, "noarch", "a package", "free", [], [], [], []) }

  function NextVersion(): Archive { Archive(SamplePackage().(version := "2"), map["x" := File("theirs", 420)]) }

  lemma WordsAreValid()
    ensures Token("pkg") && Token("1") && Token("2") && Token("noarch") && Scalar("a package") && Scalar("free")
  {
  }

  lemma SamplePackageFits()
    ensures ManifestFits(SamplePackage()) && ManifestFits(SamplePackage().(version := "2"))
  {
    hide Token, Scalar, Print, LinesFit;
    WordsAreValid();
    SmallFits(SamplePackage());
    SmallFits(SamplePackage().(version := "2"));
  }

  /** An archive that holds one file at its top. */
  lemma OneFileArchive(m: Manifest, p: string, n: Node)
    requires ManifestFits(m) && SafePath(p) && |p| <= 92 && Free(p, '/') && Free(p, '\0') && n.File? && ValidNode(n)
    ensures var a := Archive(m, map[p := n]); ValidArchive(a) && Collectable(a.payload)
  {
    hide ManifestFits, SafePath;
    assert forall d :: !Below(p, d);
  }

  lemma NextVersionIsValid()
    ensures ValidArchive(NextVersion()) && Collectable(NextVersion().payload)
  {
    hide ManifestFits, SafePath, ValidArchive, Collectable;
    SamplePackageFits();
    OneLetter('x');
    assert "x" == ['x'];
    OneFileArchive(NextVersion().manifest, "x", File("theirs", 420));
  }

  lemma NextVersionIsNewer()
    ensures Newer(NextVersion().manifest, SamplePackage())
  {
    assert Cut("2", true) == Part("2", End) && Cut("1", true) == Part("1", End);
    assert Value("2") == 2 by { assert Value("2"[..0]) == 0; }
    assert Value("1") == 1 by { assert Value("1"[..0]) == 0; }
  }

  function OwnFile(): Node { File("ours", 420) }

  /** The package is installed with its one file. */
  function SampleDb(): Db { map["pkg" := Record(SamplePackage(), [Entry(FileKind, "y", "")])] }

  /** The upgrade is accepted where a file that nobody recorded has that name. */
  lemma NextVersionIsAccepted(arch: string, t: Tree)
    requires t == map["x" := File("mine", 420), "y" := OwnFile()]
    ensures UpgradeAccepted(arch, t, SampleDb(), NextVersion())
  {
    hide Newer, PathsAllow;
    NextVersionIsNewer();
    NextPathsAllowed(t);
  }

  lemma NextPathsAllowed(t: Tree)
    requires t == map["x" := File("mine", 420), "y" := OwnFile()]
    ensures NextVersion().manifest.name in SampleDb() && PathsAllow(t, SampleDb(), NextVersion())
  {
    hide Owns, Collectable, ValidArchive;
    SampleOwner();
    NextVersionIsValid();
    var a := NextVersion();
    assert a.manifest.name == "pkg" && "x" in a.payload && a.payload.Keys == {"x"};
    assert Unclaimed(SampleDb(), "x");
    assert forall p :: p in a.payload ==> KindFits(t, EntryOf(p, a.payload[p]));
    assert KindsStay(SampleDb()["pkg"].files, a.payload);
  }

  lemma SampleOwner()
    ensures forall n, p :: Owns(SampleDb(), n, p) <==> n == "pkg" && p == "y"
    ensures SampleDb()["pkg"].files == [Entry(FileKind, "y", "")] && Leaves(SampleDb()["pkg"].files) == {"y"}
  {
    var e := Entry(FileKind, "y", "");
    assert SampleDb()["pkg"].files[0] == e && e in SampleDb()["pkg"].files;
  }

  lemma OneIsForeign(t: Tree)
    requires t == map["x" := File("mine", 420), "y" := OwnFile()]
    ensures UpgradeUnshared(SampleDb(), NextVersion())
    ensures NextVersion().manifest.name == "pkg" && Foreign(t, NextVersion().payload, SampleDb()["pkg"].files) == {"x"}
  {
    hide Owns;
    SampleOwner();
  }

  /** A file of the user, lost: it has the name of a new file of a package, the upgrade
      is accepted, and fails when it writes the record. The package keeps its own file. */
  method LosesForeignFile(arch: string) returns (e: Engine, r: Outcome)
    ensures r == Unregistered && e.db == SampleDb()
    ensures e.tree == map["y" := OwnFile()]
  {
    hide ValidArchive, UpgradeAccepted, UpgradeUnshared, Foreign, Newer;
    var t: Tree := map["x" := File("mine", 420), "y" := OwnFile()];
    NextVersionIsValid();
    NextVersionIsAccepted(arch, t);
    OneIsForeign(t);
    e := new Engine(arch, t, SampleDb(), {});
    r := UpgradeFailingLate(e, NextVersion());
    assert t - {"x"} == map["y" := OwnFile()];
  }

  /** Committing a payload over what is left of a tree, then pruning. */
  lemma ExchangeEffect(t: Tree, s: Tree, gone: set<string>, may: set<string>, t': Tree)
    requires t' == Pruned(Committed(t - gone, s), may)
    requires forall p :: p in s && p in t ==> (s[p].Dir? <==> t[p].Dir?)
    requires forall p :: p in may && p in s ==> !s[p].Dir?
    ensures forall p :: p in s ==> p in t' && (t'[p] == s[p] || (s[p].Dir? && t'[p].Dir?))
    ensures forall p :: p in gone && p !in s ==> p !in t'
    ensures forall p :: p !in s && p !in gone && p !in may ==> (p in t' <==> p in t) && (p in t ==> t'[p] == t[p])
  {
    var mid := Committed(t - gone, s);
    forall p | p in s ensures p in mid && (mid[p] == s[p] || (s[p].Dir? && mid[p].Dir?)) { }
    forall p | p in s && p in may ensures !Removable(mid, may, p) { }
  }

  /** The kinds of node of a payload that passed the path checks. */
  lemma AcceptedKinds(t: Tree, s: Tree)
    requires forall p :: p in s ==> KindFits(t, EntryOf(p, s[p]))
    ensures forall p :: p in s && p in t ==> (s[p].Dir? <==> t[p].Dir?)
  {
    forall p | p in s && p in t ensures s[p].Dir? <==> t[p].Dir? { assert KindFits(t, EntryOf(p, s[p])); }
  }

  lemma MayPruneOnlyListed(db: Db, files: seq<Entry>, kept: Tree, name: string)
    requires Ascending(files)
    ensures forall p :: p in MayPrune(db, RemovalOrder(files), kept, name) ==>
      Lists(files, p) && !(p in kept && kept[p].Dir?) && OnlyOwner(db, name, p)
    ensures forall p :: p in Leaves(files) ==> Lists(files, p)
  {
    DescendingOrder(files);
    forall p | p in MayPrune(db, RemovalOrder(files), kept, name) ensures Lists(files, p) {
      var e :| e in RemovalOrder(files) && e.path == p;
      assert e in files;
    }
  }

  /** A successful upgrade: the payload is there, files and links only the old
      record had are gone, and no path outside the two lists is touched. */
  lemma UpgradeEffect(arch: string, t: Tree, db: Db, broken: set<string>, a: Archive, t': Tree, db': Db, broken': set<string>)
    requires UpgradeAccepted(arch, t, db, a) && Upgraded(t, db, broken, a, t', db', broken') && GoodRecords(db)
    ensures var old_ := db[a.manifest.name].files;
      && (forall p :: p in a.payload ==> p in t' && (t'[p] == a.payload[p] || (a.payload[p].Dir? && t'[p].Dir?)))
      && (forall p :: p in Leaves(old_) && p !in a.payload ==> p !in t')
      && (forall p :: p !in a.payload && !Lists(old_, p) ==> (p in t' <==> p in t) && (p in t ==> t'[p] == t[p]))
  {
    var name := a.manifest.name;
    var old_ := db[name].files;
    AcceptedKinds(t, a.payload);
    MayPruneOnlyListed(db, old_, a.payload, name);
    ExchangeEffect(t, a.payload, Leaves(old_), MayPrune(db, RemovalOrder(old_), a.payload, name), t');
  }

  lemma LongerNameIsGreater()
    ensures StrCmp("lib.so.1", "lib.so") > 0 && "lib.so.1" != "lib.so"
  {
    assert "lib.so.1" == "lib.so" + ".1" && "lib.so" == "lib.so" + "";
    StrCmpCommonPrefix("lib.so", ".1", "");
    assert |"lib.so"| == 6 && |"lib.so.1"| == 8;
  }

  // --- a library and its versioned name

  /** access on a link whose target is a path of the same directory. */
  function Beside(): AccessTest {
    (now: Tree, p) => if p in now && now[p].Link? && now[p].target in now then Reaches else Missing
  }

  function LibraryTree(): Tree { map["lib.so" := Link("lib.so.1"), "lib.so.1" := File("", 420)] }

  function LibraryFiles(): seq<Entry> { [Entry(LinkKind, "lib.so", "lib.so.1"), Entry(FileKind, "lib.so.1", "")] }

  function LibraryDb(): Db { map["pkg" := Record(SamplePackage(), LibraryFiles())] }

  lemma LibraryOrder() returns (order: seq<Entry>)
    ensures Ascending(LibraryFiles()) && order == RemovalOrder(LibraryFiles())
    ensures order == [Entry(FileKind, "lib.so.1", ""), Entry(LinkKind, "lib.so", "lib.so.1")]
  {
    hide StrCmp;
    LongerNameIsGreater();
    StrCmpZero("lib.so.1", "lib.so");
    var files := LibraryFiles();
    assert files[1..] == [files[1]] && [files[1]][1..] == [] && Sorted([]) == [];
    assert Sorted([files[1]]) == [files[1]];
    assert Sorted(files) == files;
    order := [Entry(FileKind, "lib.so.1", ""), Entry(LinkKind, "lib.so", "lib.so.1")];
  }

  /** A recorded link whose target is removed first stays behind: access no longer
      sees it, where lstat would. */
  lemma LibraryLinkStays(t: Tree, order: seq<Entry>)
    requires t == LibraryTree() && order == RemovalOrder(LibraryFiles())
    ensures NeverStuck(t, order, Beside()) && Aside(t, order, Beside()) == map["lib.so" := Link("lib.so.1")]
    ensures Aside(t, order, Lstat()) == map[]
  {
    LongerNameIsGreater();
    hide StrCmp, RemovalOrder;
    var list := LibraryOrder();
    var t1 := t - {"lib.so.1"};
    assert t1 == map["lib.so" := Link("lib.so.1")];
    assert order[1..] == [order[1]] && order[1..][1..] == [];
    assert Visible(t, "lib.so.1", Beside()) && !Visible(t1, "lib.so", Beside());
    assert LessOne(t, order[0], Beside()) == t1 && LessOne(t1, order[1], Beside()) == t1;
    assert NeverStuck(t1, [], Beside());
    assert NeverStuck(t1, order[1..], Beside());
    assert Aside(t1, order[1..], Beside()) == Aside(t1, [], Beside());
    AsideTakesLeaves(t, order);
    assert order[0] in order && order[1] in order;
  }

  lemma LibraryIsThere()
    ensures WellFormed(LibraryTree())
    ensures forall e :: e in LibraryFiles() ==> e.path in LibraryTree() && Matches(e, LibraryTree()[e.path])
  {
    LongerNameIsGreater();
    forall p, d | p == "lib.so" || p == "lib.so.1" ensures !Below(p, d) {
      assert |"lib.so"| == 6 && |"lib.so.1"| == 8;
    }
  }

  lemma LibraryRemovable(t: Tree, db: Db)
    requires t == LibraryTree() && db == LibraryDb()
    ensures WellFormed(t) && GoodRecords(db) && RemoveGuard(t, db, "pkg") && SoleOwner(db, "pkg", db["pkg"].files)
  {
    hide LibraryTree, LibraryFiles, Ascending, Matches;
    var order := LibraryOrder();
    LibraryIsThere();
  }

  lemma NoDirectories(t: Tree, db: Db, order: seq<Entry>, name: string)
    requires forall e :: e in order ==> !e.kind.DirKind?
    ensures Pruned(t, MayPrune(db, order, map[], name)) == t
  {
  }

  /** The engine removes the package, and its link is still there. */
  method LinkOutlivesPackage(arch: string) returns (e: Engine, r: Outcome)
    ensures r == Done && e.db == map[]
    ensures e.tree == map["lib.so" := Link("lib.so.1")]
  {
    hide LibraryTree, LibraryFiles, WellFormed, GoodRecords, RemoveGuard, SoleOwner, RemovalOrder, Aside, NeverStuck, Descending, Beside, Pruned, MayPrune;
    var t, db := LibraryTree(), LibraryDb();
    var order := RemovalOrder(LibraryFiles());
    LibraryRemovable(t, db);
    LibraryLinkStays(t, order);
    e := new Engine(arch, t, db, {});
    r := e.Remove("pkg", Beside(), 2 + AsideCalls(t, order, Beside()));
    var list := LibraryOrder();
    NoDirectories(Aside(t, order, Beside()), db, order, "pkg");
  }
}
