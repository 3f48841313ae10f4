/** Runs of transactions: what holds in every reachable state. */
module History {
  import opened Strings
  import opened Version
  import opened VersionOrder
  import opened Package
  import opened Requirements
  import opened Database
  import opened UpgradeChecks
  import opened Closure
  import opened Tree
  import opened Staging
  import opened Collect
  import opened Text
  import opened ManifestText
  import opened ManifestSize
  import opened RecordText
  import opened Stored
  import opened Transaction
  import opened Effects

  /** The live tree, the records that can be read, and the names of the others. */
  datatype State = State(tree: Tree, db: Db, broken: set<string>)

  datatype Step =
    | Installs(archive: Archive)
    | Removes(name: string, access: AccessTest)
    | Upgrades(archive: Archive)

  /** An upgrade that succeeded. */
  ghost predicate TookEffect(arch: string, s: State, a: Archive, s': State) {
    && UpgradeAccepted(arch, s.tree, s.db, a) && s.broken == {}
    && Upgraded(s.tree, s.db, s.broken, a, s'.tree, s'.db, s'.broken)
  }

  /** One transaction, successful or not, from `s` to `s'`. */
  ghost predicate Next(arch: string, s: State, step: Step, s': State) {
    match step
    case Installs(a) =>
      ValidArchive(a) && (s' == s ||
        (InstallGuard(arch, s.tree, s.db, a) && Installed(s.tree, s.db, s.broken, a, s'.tree, s'.db, s'.broken)))
    case Removes(name, access) =>
      s' == s ||
        (RemoveGuard(s.tree, s.db, name) && s.broken == s'.broken == {} && Removed(s.tree, s.db, name, access, s'.tree, s'.db))
    case Upgrades(a) =>
      ValidArchive(a) && (s' == s || TookEffect(arch, s, a, s') ||
        (UpgradeAccepted(arch, s.tree, s.db, a) && s'.db == s.db && s'.broken == s.broken
          && UpgradeUndone(s.tree, s.db, a, false, s'.tree)))
  }

  /** Whatever the methods of the engine do is one of these steps. */
  method Perform(e: Engine, step: Step, forwardCalls: nat) returns (r: Outcome)
    requires e.Valid() && (!step.Removes? ==> ValidArchive(step.archive))
    modifies e
    ensures e.Valid()
    ensures Next(e.arch, State(old(e.tree), old(e.db), old(e.broken)), step, State(e.tree, e.db, e.broken))
  {
    hide ValidArchive, InstallGuard, Installed, RemoveGuard, Removed, UpgradeAccepted, Upgraded;
    match step
    case Installs(a) => r := e.Install(a, forwardCalls);
    case Removes(name, access) => r := e.Remove(name, access, forwardCalls);
    case Upgrades(a) => r := e.Upgrade(a, forwardCalls);
  }

  // --- the invariants

  /** Every recorded path is there, with its recorded type and target. */
  ghost predicate Live(t: Tree, db: Db) {
    forall n, e :: n in db && e in db[n].files ==> e.path in t && Matches(e, t[e.path])
  }

  /** A path that one package records as a file or link, no other records at all. */
  ghost predicate Exclusive(db: Db) {
    forall n, m :: n in db && m in db && n != m ==> NoneClaims(db[n].files, db[m].files)
  }

  /** No entry of `others` has the path of a file or link of `files`. */
  ghost predicate NoneClaims(files: seq<Entry>, others: seq<Entry>) {
    forall e, f :: e in files && f in others && !e.kind.DirKind? ==> e.path != f.path
  }

  ghost predicate FilesInvariant(s: State) {
    s.broken == {} && WellFormed(s.tree) && GoodRecords(s.db) && Live(s.tree, s.db) && Exclusive(s.db)
  }

  lemma OwnsEntry(db: Db, n: string, e: Entry)
    requires n in db && e in db[n].files
    ensures Owns(db, n, e.path)
  {
    var i :| 0 <= i < |db[n].files| && db[n].files[i] == e;
  }

  lemma EntryOfPath(db: Db, n: string, p: string) returns (e: Entry)
    requires Owns(db, n, p)
    ensures e in db[n].files && e.path == p
  {
    var i :| 0 <= i < |db[n].files| && db[n].files[i].path == p;
    e := db[n].files[i];
  }

  // --- one record changes, the others stay

  /** The other packages' paths keep nodes that match. */
  ghost predicate OthersLive(t: Tree, db: Db, name: string) {
    forall n, e :: n in db && n != name && e in db[n].files ==> e.path in t && Matches(e, t[e.path])
  }

  /** Where another package records a path of the payload, both hold a directory. */
  ghost predicate SharedDirectories(db: Db, name: string, s: Tree) {
    forall n, e :: n in db && n != name && e in db[n].files && e.path in s ==> e.kind.DirKind? && s[e.path].Dir?
  }

  lemma ReplacedIsLive(t: Tree, db: Db, name: string, s: Tree, rec: Record)
    requires OthersLive(t, db, name) && Records(rec.files, s)
    requires forall p :: p in s ==> p in t && (t[p] == s[p] || (s[p].Dir? && t[p].Dir?))
    ensures Live(t, db[name := rec])
  {
    RecordsAreEntries(rec.files, s);
  }

  lemma ReplacedIsExclusive(db: Db, name: string, s: Tree, rec: Record)
    requires Exclusive(db) && SharedDirectories(db, name, s) && Records(rec.files, s)
    ensures Exclusive(db[name := rec])
  {
    RecordsAreEntries(rec.files, s);
    var db' := db[name := rec];
    forall n, m | n in db' && m in db' && n != m ensures NoneClaims(db'[n].files, db'[m].files) {
      if n == name {
        PayloadClaims(db, name, s, rec.files, m);
      } else if m == name {
        PayloadClaims(db, name, s, rec.files, n);
      } else {
        assert n in db && m in db;
      }
    }
  }

  lemma PayloadClaims(db: Db, name: string, s: Tree, files: seq<Entry>, n: string)
    requires SharedDirectories(db, name, s) && n in db && n != name
    requires forall e :: e in files ==> e.path in s && e == EntryOf(e.path, s[e.path])
    ensures NoneClaims(files, db[n].files) && NoneClaims(db[n].files, files)
  {
  }

  // --- installation

  lemma InstallShares(t: Tree, db: Db, s: Tree, name: string)
    requires Live(t, db) && forall p :: p in s ==> PlaceFree(db, t, EntryOf(p, s[p]))
    ensures SharedDirectories(db, name, s)
    ensures forall p :: p in s && p in t ==> (s[p].Dir? <==> t[p].Dir?)
  {
    forall n, e | n in db && n != name && e in db[n].files && e.path in s ensures e.kind.DirKind? && s[e.path].Dir? {
      OwnsEntry(db, n, e);
      assert PlaceFree(db, t, EntryOf(e.path, s[e.path])) && Matches(e, t[e.path]);
    }
    forall p | p in s && p in t ensures s[p].Dir? <==> t[p].Dir? { assert PlaceFree(db, t, EntryOf(p, s[p])); }
  }

  lemma InstallKeepsFiles(arch: string, s: State, a: Archive, s': State)
    requires FilesInvariant(s) && ValidArchive(a) && Recordable(a.payload)
    requires InstallGuard(arch, s.tree, s.db, a) && Installed(s.tree, s.db, s.broken, a, s'.tree, s'.db, s'.broken)
    ensures FilesInvariant(s')
  {
    hide ManifestFits, FieldNames, Recordable, Registered;
    FaithfulIffRecordable(s.db, s.broken, a, s'.db, s'.broken);
    var name := a.manifest.name;
    var rec := s'.db[name];
    InstallOnlyAdds(arch, s.tree, s.db, s.broken, a, s'.tree, s'.db, s'.broken);
    InstallShares(s.tree, s.db, a.payload, name);
    CommitKeepsWellFormed(s.tree, a.payload);
    AddRecord(s.db, rec);
    ReplacedIsLive(s'.tree, s.db, name, a.payload, rec);
    ReplacedIsExclusive(s.db, name, a.payload, rec);
  }

  // --- removal

  /** What a removal moves aside and prunes belongs to no one else. */
  lemma RemoveSparesOthers(t: Tree, db: Db, name: string, access: AccessTest, t': Tree)
    requires name in db && Ascending(db[name].files) && Live(t, db) && Exclusive(db)
    requires var order := RemovalOrder(db[name].files);
      t' == Pruned(Aside(t, order, access), MayPrune(db, order, map[], name))
    ensures Live(t', db - {name})
  {
    var db', order := db - {name}, RemovalOrder(db[name].files);
    DescendingOrder(db[name].files);
    AsideKeepsOthers(t, order, access);
    MayPruneOnlyListed(db, db[name].files, map[], name);
    forall n, e | n in db' && e in db'[n].files ensures e.path in t' && Matches(e, t'[e.path]) {
      assert n in db && n != name;
      OwnsEntry(db, n, e);
      assert NoneClaims(db[name].files, db[n].files);
      assert e.path !in Leaves(db[name].files);
    }
  }

  lemma RemoveKeepsFiles(s: State, name: string, access: AccessTest, s': State)
    requires FilesInvariant(s)
    requires RemoveGuard(s.tree, s.db, name) && Removed(s.tree, s.db, name, access, s'.tree, s'.db) && s'.broken == {}
    ensures FilesInvariant(s')
  {
    var order := RemovalOrder(s.db[name].files);
    DescendingOrder(s.db[name].files);
    AsideKeepsWellFormed(s.tree, order, access);
    PruneKeepsWellFormed(Aside(s.tree, order, access), MayPrune(s.db, order, map[], name));
    RemoveSparesOthers(s.tree, s.db, name, access, s'.tree);
  }

  lemma {:induction false} AsideKeepsWellFormed(t: Tree, files: seq<Entry>, access: AccessTest)
    requires WellFormed(t)
    requires forall e :: e in files && !e.kind.DirKind? && e.path in t ==> !t[e.path].Dir?
    ensures WellFormed(Aside(t, files, access))
  {
    if files != [] {
      var e := files[0];
      if !e.kind.DirKind? && e.path in t { DropLeavesKeepsWellFormed(t, {e.path}); }
      AsideKeepsWellFormed(LessOne(t, e, access), files[1..], access);
    }
  }

  // --- upgrade

  lemma UpgradeShares(t: Tree, db: Db, a: Archive)
    requires Live(t, db) && Exclusive(db) && a.manifest.name in db && PathsAllow(t, db, a)
    ensures SharedDirectories(db, a.manifest.name, a.payload)
  {
    var name, s := a.manifest.name, a.payload;
    forall n, f | n in db && n != name && f in db[n].files && f.path in s ensures f.kind.DirKind? && s[f.path].Dir? {
      OwnsEntry(db, n, f);
      assert KindFits(t, EntryOf(f.path, s[f.path])) && Matches(f, t[f.path]);
      if Owns(db, name, f.path) {
        var e := EntryOfPath(db, name, f.path);
        assert Matches(e, t[f.path]) && f.kind.DirKind?;
      }
    }
  }

  lemma UpgradeSparesOthers(t: Tree, db: Db, a: Archive, t': Tree)
    requires Live(t, db) && Exclusive(db) && a.manifest.name in db && Ascending(db[a.manifest.name].files)
    requires SharedDirectories(db, a.manifest.name, a.payload)
    requires forall p :: p in a.payload && p in t ==> (a.payload[p].Dir? <==> t[p].Dir?)
    requires var name := a.manifest.name; var old_ := db[name].files;
      t' == Pruned(Committed(t - Leaves(old_), a.payload), MayPrune(db, RemovalOrder(old_), a.payload, name))
    ensures OthersLive(t', db, a.manifest.name)
    ensures forall p :: p in a.payload ==> p in t' && (t'[p] == a.payload[p] || (a.payload[p].Dir? && t'[p].Dir?))
  {
    var name := a.manifest.name;
    var old_ := db[name].files;
    MayPruneOnlyListed(db, old_, a.payload, name);
    ExchangeEffect(t, a.payload, Leaves(old_), MayPrune(db, RemovalOrder(old_), a.payload, name), t');
    forall n, e | n in db && n != name && e in db[n].files ensures e.path in t' && Matches(e, t'[e.path]) {
      OwnsEntry(db, n, e);
      assert NoneClaims(old_, db[n].files);
      assert e.path !in Leaves(old_);
    }
  }

  lemma UpgradeKeepsShape(t: Tree, db: Db, a: Archive)
    requires WellFormed(t) && ValidArchive(a) && a.manifest.name in db && AsRecorded(t, db[a.manifest.name].files)
    requires forall p :: p in a.payload && p in t ==> (a.payload[p].Dir? <==> t[p].Dir?)
    ensures var name := a.manifest.name; var old_ := db[name].files;
      WellFormed(Pruned(Committed(t - Leaves(old_), a.payload), MayPrune(db, RemovalOrder(old_), a.payload, name)))
  {
    var name := a.manifest.name;
    var old_ := db[name].files;
    DropLeavesKeepsWellFormed(t, Leaves(old_));
    CommitKeepsWellFormed(t - Leaves(old_), a.payload);
    PruneKeepsWellFormed(Committed(t - Leaves(old_), a.payload), MayPrune(db, RemovalOrder(old_), a.payload, name));
  }

  lemma UpgradeKeepsFiles(arch: string, s: State, a: Archive, s': State)
    requires FilesInvariant(s) && ValidArchive(a) && Recordable(a.payload) && TookEffect(arch, s, a, s')
    ensures FilesInvariant(s')
  {
    hide ManifestFits, FieldNames, Recordable, Registered, ManifestsAllow, MayPrune;
    FaithfulIffRecordable(s.db, s.broken, a, s'.db, s'.broken);
    var name := a.manifest.name;
    var rec := s'.db[name];
    AcceptedKinds(s.tree, a.payload);
    AddRecord(s.db, rec);
    UpgradeKeepsShape(s.tree, s.db, a);
    UpgradeShares(s.tree, s.db, a);
    UpgradeSparesOthers(s.tree, s.db, a, s'.tree);
    ReplacedIsLive(s'.tree, s.db, name, a.payload, rec);
    ReplacedIsExclusive(s.db, name, a.payload, rec);
  }

  /** A failed upgrade loses only files that nobody records. */
  lemma ForeignIsUnrecorded(t: Tree, db: Db, a: Archive)
    requires Live(t, db) && Exclusive(db) && a.manifest.name in db && PathsAllow(t, db, a)
    ensures var foreign := Foreign(t, a.payload, db[a.manifest.name].files);
      && (forall p :: p in foreign ==> !t[p].Dir?)
      && (forall n, e :: n in db && e in db[n].files ==> e.path !in foreign)
  {
    var name := a.manifest.name;
    var foreign := Foreign(t, a.payload, db[name].files);
    UpgradeShares(t, db, a);
    AcceptedKinds(t, a.payload);
    forall e | e in db[name].files ensures e.path !in foreign { assert Matches(e, t[e.path]); }
  }

  lemma UndoneKeepsFiles(s: State, a: Archive, s': State)
    requires FilesInvariant(s) && a.manifest.name in s.db && PathsAllow(s.tree, s.db, a)
    requires s'.db == s.db && s'.broken == s.broken && UpgradeUndone(s.tree, s.db, a, false, s'.tree)
    ensures FilesInvariant(s')
  {
    ForeignIsUnrecorded(s.tree, s.db, a);
    var lost :| lost <= Foreign(s.tree, a.payload, s.db[a.manifest.name].files) && s'.tree == s.tree - lost;
    DropLeavesKeepsWellFormed(s.tree, lost);
  }

  /** What the record of the archive's payload says is what the payload holds. */
  predicate RecordableStep(step: Step) { !step.Removes? ==> Recordable(step.archive.payload) }

  lemma StepKeepsFiles(arch: string, s: State, step: Step, s': State)
    requires FilesInvariant(s) && Next(arch, s, step, s') && RecordableStep(step)
    ensures FilesInvariant(s')
  {
    hide ManifestFits, FieldNames, Recordable, InstallGuard, Installed, UpgradeAccepted, Upgraded, RemoveGuard, Removed;
    if s' != s {
      match step
      case Installs(a) => InstallKeepsFiles(arch, s, a, s');
      case Removes(name, access) => RemoveKeepsFiles(s, name, access, s');
      case Upgrades(a) =>
        if TookEffect(arch, s, a, s') {
          UpgradeKeepsFiles(arch, s, a, s');
        } else {
          AcceptedPaths(arch, s, a);
          UndoneKeepsFiles(s, a, s');
        }
    }
  }

  lemma AcceptedPaths(arch: string, s: State, a: Archive)
    requires UpgradeAccepted(arch, s.tree, s.db, a)
    ensures a.manifest.name in s.db && PathsAllow(s.tree, s.db, a)
  {
  }

  // --- a file name that the record does not keep

  function LineEndArchive(): Archive { Archive(SamplePackage(), map["x\nf y" := File("", 420)]) }

  function Nothing(): State { State(map[], map[], {}) }

  /** The state after installing it where nothing was: one file, and a record of two. */
  function TwoRecorded(): State {
    State(LineEndArchive().payload,
      map["pkg" := Record(SamplePackage(), TwoNames())], {})
  }

  lemma LineEndArchiveIsValid()
    ensures ValidArchive(LineEndArchive()) && Collectable(LineEndArchive().payload) && !Recordable(LineEndArchive().payload)
  {
    hide ManifestFits, SafePath, ValidArchive, Collectable;
    SamplePackageFits();
    LineEndName();
    OneFileArchive(SamplePackage(), "x\nf y", File("", 420));
    assert "x\nf y" in LineEndArchive().payload;
  }

  lemma LineEndName()
    ensures var p := "x\nf y"; SafePath(p) && Free(p, '/') && Free(p, '\0') && !Free(p, '\n') && |p| == 5
  {
    var p := "x\nf y";
    assert |p| == 5 && p[0] == 'x' && p[1] == '\n' && p[2] == 'f' && p[3] == ' ' && p[4] == 'y';
    NoSlashBefore(p, 0);
    assert p[0..5] == p && p != "." && p != "..";
  }

  lemma {:induction false} NoSlashBefore(p: string, i: nat)
    requires i <= |p| && forall k :: i <= k < |p| ==> p[k] != '/'
    ensures NextSlash(p, i) == |p|
    decreases |p| - i
  {
    if i < |p| { NoSlashBefore(p, i + 1); }
  }

  function OneName(): Entry { Entry(FileKind, "x\nf y", "") }

  function TwoNames(): seq<Entry> { [Entry(FileKind, "x", ""), Entry(FileKind, "y", "")] }

  lemma ReadsAsTwo(m: Manifest)
    requires ManifestFits(m)
    ensures ReadBack(Record(m, [OneName()])) == Some(Record(m, TwoNames()))
  {
    hide ParseEntries, PrintEntries, ParseRecord, WriteRecord, Sorted, Recordable, NulFree, TwoNames;
    LineEndSplits();
    assert ParseEntries([], PrintEntries([OneName()])) == Some(TwoNames()) by { NamesSpelled(); }
    LineEndName();
    OneRecord(OneName().path, File("", 420));
    PayloadRegisters(m, [OneName()], map[OneName().path := File("", 420)]);
    ManifestLimits(m);
    RecordReads(Record(m, [OneName()]));
    TwoSorted(TwoNames());
    ShortRecord(m, [OneName()]);
  }

  lemma NamesSpelled()
    ensures OneName() == Entry(FileKind, "x\nf y", "") && TwoNames() == [Entry(FileKind, "x", ""), Entry(FileKind, "y", "")]
  {
  }

  lemma TwoAreRecorded()
    ensures Registered(map[], {}, LineEndArchive(), TwoRecorded().db, {})
  {
    hide ManifestFits, ReadBack, Records;
    SamplePackageFits();
    ReadsAsTwo(SamplePackage());
    OneRecord(OneName().path, File("", 420));
    assert Records([OneName()], LineEndArchive().payload);
  }

  lemma OneRecord(p: string, n: Node)
    ensures Records([EntryOf(p, n)], map[p := n])
  {
    assert [EntryOf(p, n)][0].path == p;
  }

  lemma ManifestLimits(m: Manifest)
    requires ManifestFits(m)
    ensures Validates(m) && m.release <= UintMax && LinesFit(m) && |Print(m)| <= MaxSize + 1
  {
  }

  lemma TwoSorted(read: seq<Entry>)
    requires read == TwoNames()
    ensures Sorted(read) == read
  {
    assert read[1..] == [read[1]] && Sorted([]) == [] && [read[1]][1..] == [];
    assert Insert(read[1], []) == [read[1]] && Sorted([read[1]]) == [read[1]];
    assert StrCmp("x", "y") < 0;
  }

  lemma ShortRecord(m: Manifest, files: seq<Entry>)
    requires WriteRecord(Record(m, files)).Some? && |Print(m)| <= MaxSize + 1 && |PrintEntries(files)| <= 199 * |files| && |files| <= 4096
    ensures |WriteRecord(Record(m, files)).value| <= MaxRecordSize
  {
    hide Print, PrintEntries;
  }

  lemma LineEndIsAccepted(arch: string)
    ensures InstallGuard(arch, map[], map[], LineEndArchive())
  {
    hide ManifestFits, Recordable;
    LineEndArchiveIsValid();
    assert "x\nf y" in LineEndArchive().payload;
  }

  lemma TwoAreNotLive()
    ensures !Live(TwoRecorded().tree, TwoRecorded().db)
  {
    var s, e := TwoRecorded(), TwoNames()[0];
    assert "pkg" in s.db && e in s.db["pkg"].files;
    assert |e.path| == 1 && |"x\nf y"| == 5;
  }

  lemma BadName(p: string)
    requires p == "x\nbad"
    ensures SafePath(p) && Free(p, '\0') && |p| == 5
  {
    assert |p| == 5 && p[0] == 'x' && p[1] == '\n' && p[2] == 'b' && p[3] == 'a' && p[4] == 'd';
    NoSlashBefore(p, 0);
    assert p[0..5] == p && p != "." && p != "..";
  }

  lemma OneFileFits(p: string)
    requires SafePath(p) && Free(p, '\0') && |p| <= 92
    ensures SafePaths(map[p := File("", 420)]) && FieldNames(map[p := File("", 420)])
  {
  }

  /** Another such name: the record cannot be read at all. */
  lemma RecordSpoiled(m: Manifest)
    requires ManifestFits(m)
    ensures ReadBack(Record(m, [Entry(FileKind, "x\nbad", "")])) == None
  {
    var p := "x\nbad";
    BadName(p);
    OneFileFits(p);
    hide SafePath, SafePaths, FieldNames, Records, Free, ParseEntries, PrintEntries, ParseRecord, WriteRecord, Sorted, Recordable, NulFree;
    LineEndSpoils();
    OneRecord(p, File("", 420));
    PayloadRegisters(m, [Entry(FileKind, p, "")], map[p := File("", 420)]);
    ManifestLimits(m);
    RecordReads(Record(m, [Entry(FileKind, p, "")]));
  }

  /** The installation is accepted, its record lists two files that are not there, and
      the one that is there belongs to no package. */
  lemma UnrecordableBreaksFiles(arch: string)
    ensures FilesInvariant(Nothing()) && Next(arch, Nothing(), Installs(LineEndArchive()), TwoRecorded())
    ensures !FilesInvariant(TwoRecorded())
  {
    hide ManifestFits, FieldNames, Recordable, Registered, InstallGuard, Live;
    LineEndArchiveIsValid();
    LineEndIsAccepted(arch);
    TwoAreRecorded();
    TwoAreNotLive();
    assert Committed(map[], LineEndArchive().payload) == LineEndArchive().payload;
    assert FilesInvariant(Nothing()) by { FreshKeepsAll(Nothing()); }
  }

  lemma OneRecorded(files: seq<Entry>, p: string, n: Node)
    requires Records(files, map[p := n])
    ensures files == [EntryOf(p, n)]
  {
    RecordsCount(files, map[p := n]);
    assert |map[p := n]| == 1;
    assert files[0].path in map[p := n];
  }

  lemma RegistersTwo(db': Db, broken': set<string>)
    requires Registered(map[], {}, LineEndArchive(), db', broken')
    ensures db' == TwoRecorded().db && broken' == {}
  {
    hide ManifestFits, ReadBack, Records;
    var a := LineEndArchive();
    var files :| Records(files, a.payload) && |files| <= MAX_FILES
      && db' == StoredDb(map[], Record(a.manifest, files)) && broken' == StoredBroken({}, Record(a.manifest, files));
    OneRecorded(files, OneName().path, File("", 420));
    SamplePackageFits();
    ReadsAsTwo(SamplePackage());
  }

  /** The engine, installing it where nothing was. */
  method RecordsTwo(arch: string) returns (e: Engine, r: Outcome)
    ensures r == Done && State(e.tree, e.db, e.broken) == TwoRecorded()
    ensures !FilesInvariant(State(e.tree, e.db, e.broken))
  {
    hide ValidArchive, InstallGuard, Registered, FilesInvariant, TwoNames, CommitCalls;
    var a := LineEndArchive();
    LineEndArchiveIsValid();
    LineEndIsAccepted(arch);
    e := new Engine(arch, map[], map[], {});
    r := e.Install(a, 2 + CommitCalls(map[], a.payload));
    RegistersTwo(e.db, e.broken);
    assert Committed(map[], a.payload) == a.payload;
    UnrecordableBreaksFiles(arch);
  }

  // --- dependencies

  predicate DependenciesInvariant(s: State) { s.broken == {} && GoodRecords(s.db) && Closed(s.db) }

  /** If the step is an upgrade that succeeds, the new version meets the versioned
      demands on it. */
  ghost predicate DemandsMet(arch: string, s: State, step: Step, s': State) {
    step.Upgrades? && TookEffect(arch, s, step.archive, s') ==> DemandsHold(s.db, step.archive.manifest)
  }

  /** A step keeps all dependencies met exactly if the record it writes can be read and
      it is not an upgrade that misses a versioned demand. */
  lemma StepKeepsDependencies(arch: string, s: State, step: Step, s': State)
    requires DependenciesInvariant(s) && Next(arch, s, step, s')
    ensures DependenciesInvariant(s') <==> s'.broken == {} && DemandsMet(arch, s, step, s')
  {
    hide ManifestFits, FieldNames, Registered, DemandsHold, Closed, RemoveGuard;
    if step.Upgrades? && TookEffect(arch, s, step.archive, s') {
      if s'.broken == {} { UpgradeDecides(arch, s, step.archive, s'); }
    } else if s' != s && s'.broken == {} {
      match step
      case Installs(a) =>
        ReadableRecord(s.db, a, s'.db, s'.broken);
        InstallKeepsClosed(s.db, s'.db[a.manifest.name]);
      case Removes(name, access) =>
        RemovalAllowed(s.tree, s.db, name);
        RemoveKeepsClosedIffNotNeeded(s.db, name);
      case Upgrades(a) =>
    }
  }

  lemma RemovalAllowed(t: Tree, db: Db, name: string)
    requires RemoveGuard(t, db, name)
    ensures name in db && NotNeeded(db, db[name].manifest)
  {
  }

  lemma UpgradeDecides(arch: string, s: State, a: Archive, s': State)
    requires DependenciesInvariant(s) && ValidArchive(a) && TookEffect(arch, s, a, s') && s'.broken == {}
    ensures DependenciesInvariant(s') <==> DemandsHold(s.db, a.manifest)
  {
    hide ManifestFits, FieldNames, Registered, DemandsHold, Closed, ReplacementsMet, DependentsKept, PathsAllow;
    ReadableRecord(s.db, a, s'.db, s'.broken);
    UpgradeKeepsClosedIff(s.db, s'.db[a.manifest.name]);
  }

  // --- an upgrade past the versioned demand of another package

  function LibUpgrade(): Archive { Archive(Sample("lib", "1a10", []), map["l" := File("", 420)]) }

  function LibAndApp(): State {
    State(map["a" := File("", 420), "l" := File("", 420)],
      map["app" := Record(Sample("app", "1", [SampleNeed()]), [Entry(FileKind, "a", "")]),
          "lib" := Record(Sample("lib", "1a1", []), [Entry(FileKind, "l", "")])], {})
  }

  lemma LibUpgradeFits()
    ensures ManifestFits(LibUpgrade().manifest)
  {
    hide Token, Scalar, Print, LinesFit;
    WordsAreValid();
    assert Token("lib") && Token("1a10") by { SampleWords(); }
    SmallFits(LibUpgrade().manifest);
  }

  lemma SampleWords()
    ensures Token("lib") && Token("1a10")
  {
  }

  lemma LibUpgradeIsValid()
    ensures ValidArchive(LibUpgrade()) && Collectable(LibUpgrade().payload) && Recordable(LibUpgrade().payload)
  {
    hide ManifestFits, SafePath, ValidArchive, Collectable;
    LibUpgradeFits();
    OneLetter('l');
    assert "l" == ['l'];
    OneFileArchive(LibUpgrade().manifest, "l", File("", 420));
  }

  lemma LibAndAppOwners(db: Db)
    requires db == LibAndApp().db
    ensures forall n, p :: Owns(db, n, p) <==> (n == "app" && p == "a") || (n == "lib" && p == "l")
    ensures forall rec: Record :: rec.manifest == LibUpgrade().manifest ==> SampleUpgrade(db, rec)
    ensures GoodRecords(db)
  {
    assert db["app"].files[0].path == "a" && db["lib"].files[0].path == "l";
  }

  lemma LibManifestAllowed(arch: string, db: Db)
    requires db == LibAndApp().db
    ensures ManifestsAllow(arch, db, LibUpgrade().manifest)
  {
    hide SampleNeed, CompareRuns, ReplacementsMet, DependentsKept, Closed, Named, DemandsHold;
    LibAndAppOwners(db);
    IrregularUpgradeBreaks(db, Record(LibUpgrade().manifest, []));
  }

  lemma LibPathsAllowed(t: Tree, db: Db)
    requires t == LibAndApp().tree && db == LibAndApp().db
    ensures PathsAllow(t, db, LibUpgrade()) && UpgradeUnshared(db, LibUpgrade())
    ensures WellFormed(t) && AsRecorded(t, db["lib"].files)
  {
    hide SampleNeed, Owns, SampleUpgrade, ValidArchive;
    LibAndAppOwners(db);
    LibUpgradeIsValid();
    assert db["lib"].files == [Entry(FileKind, "l", "")] && LibUpgrade().manifest.name == "lib";
    assert LibUpgrade().payload == map["l" := File("", 420)];
  }

  /** The engine accepts and completes it, and the demand of the other package is not met. */
  method UpgradesPastDemand(arch: string) returns (e: Engine, r: Outcome)
    ensures DependenciesInvariant(LibAndApp())
    ensures r == Done && e.broken == {} && e.db.Keys == {"app", "lib"} && !Closed(e.db)
  {
    hide ValidArchive, ManifestsAllow, PathsAllow, AsRecorded, UpgradeUnshared, Registered, Recordable, UpgradeCalls, SampleUpgrade,
      Closed, DemandsHold, WellFormed, GoodRecords, Records, Pruned, Committed, MayPrune, Collectable;
    var s, a := LibAndApp(), LibUpgrade();
    LibUpgradeIsValid();
    LibManifestAllowed(arch, s.db);
    LibPathsAllowed(s.tree, s.db);
    LibAndAppOwners(s.db);
    e := new Engine(arch, s.tree, s.db, {});
    r := e.Upgrade(a, 1 + UpgradeCalls(s.tree, s.db, a));
    FaithfulIffRecordable(s.db, {}, a, e.db, e.broken);
    IrregularUpgradeBreaks(s.db, e.db["lib"]);
  }

  /** The archive of the step mentions regular versions only. */
  predicate RegularStep(step: Step) { !step.Removes? ==> RegularManifest(step.archive.manifest) }

  predicate RegularDb(db: Db) { forall n :: n in db ==> RegularManifest(db[n].manifest) }

  /** With regular versions the demands are met, and stay regular. */
  lemma RegularStepMeetsDemands(arch: string, s: State, step: Step, s': State)
    requires DependenciesInvariant(s) && Next(arch, s, step, s') && s'.broken == {}
    requires RegularDb(s.db) && RegularStep(step)
    ensures DemandsMet(arch, s, step, s') && RegularDb(s'.db)
  {
    hide ManifestFits, FieldNames, Registered, DemandsHold, Closed, ReplacementsMet, DependentsKept, RegularManifest, PathsAllow;
    if step.Upgrades? && TookEffect(arch, s, step.archive, s') {
      var a := step.archive;
      ReadableRecord(s.db, a, s'.db, s'.broken);
      UpgradeKeepsClosed(s.db, s'.db[a.manifest.name]);
      UpgradeKeepsClosedIff(s.db, s'.db[a.manifest.name]);
    } else if s' != s && step.Installs? {
      ReadableRecord(s.db, step.archive, s'.db, s'.broken);
    }
  }

  // --- runs

  /** A run: one state more than steps, each step leading to the next state. */
  ghost predicate Run(arch: string, states: seq<State>, steps: seq<Step>) {
    |states| == |steps| + 1 && forall i :: 0 <= i < |steps| ==> Next(arch, states[i], steps[i], states[i + 1])
  }

  /** No package is installed; the tree holds whatever it holds. */
  ghost predicate Fresh(s: State) { s.db == map[] && s.broken == {} && WellFormed(s.tree) }

  lemma FreshKeepsAll(s: State)
    requires Fresh(s)
    ensures FilesInvariant(s) && DependenciesInvariant(s) && RegularDb(s.db)
  {
  }

  /** In every state of every run of recordable payloads that starts with no package
      installed, all records can be read, recorded paths are live and files have one
      owner. */
  lemma {:induction false} EveryRunKeepsFiles(arch: string, states: seq<State>, steps: seq<Step>, k: nat)
    requires Run(arch, states, steps) && k < |states| && Fresh(states[0])
    requires forall i :: 0 <= i < |steps| ==> RecordableStep(steps[i])
    ensures FilesInvariant(states[k]) && states[k].broken == {}
  {
    hide Next, RecordableStep;
    if k > 0 {
      EveryRunKeepsFiles(arch, states, steps, k - 1);
      StepKeepsFiles(arch, states[k - 1], steps[k - 1], states[k]);
    } else {
      FreshKeepsAll(states[0]);
    }
  }

  /** All dependencies of all installed packages are met in every state of such a run,
      whatever its payloads, exactly if each of its upgrades meets the versioned demands
      on the new version and no state has a record that cannot be read. */
  lemma EveryRunKeepsDependencies(arch: string, states: seq<State>, steps: seq<Step>)
    requires Run(arch, states, steps) && Fresh(states[0])
    ensures (forall k :: 0 <= k < |states| ==> DependenciesInvariant(states[k])) <==>
            (forall k :: 0 <= k < |states| ==> states[k].broken == {}) &&
            (forall i :: 0 <= i < |steps| ==> DemandsMet(arch, states[i], steps[i], states[i + 1]))
  {
    hide Closed, DemandsMet, Next;
    if forall k :: 0 <= k < |states| ==> DependenciesInvariant(states[k]) {
      forall i | 0 <= i < |steps| ensures DemandsMet(arch, states[i], steps[i], states[i + 1]) {
        StepKeepsDependencies(arch, states[i], steps[i], states[i + 1]);
      }
    }
    if && (forall k :: 0 <= k < |states| ==> states[k].broken == {})
       && (forall i :: 0 <= i < |steps| ==> DemandsMet(arch, states[i], steps[i], states[i + 1]))
    {
      forall k | 0 <= k < |states| ensures DependenciesInvariant(states[k]) { DemandsKeepRun(arch, states, steps, k); }
    }
  }

  lemma {:induction false} DemandsKeepRun(arch: string, states: seq<State>, steps: seq<Step>, k: nat)
    requires Run(arch, states, steps) && Fresh(states[0]) && k < |states|
    requires forall j :: 0 <= j < |states| ==> states[j].broken == {}
    requires forall i :: 0 <= i < |steps| ==> DemandsMet(arch, states[i], steps[i], states[i + 1])
    ensures DependenciesInvariant(states[k])
  {
    hide DependenciesInvariant, DemandsMet, Next;
    if k > 0 {
      DemandsKeepRun(arch, states, steps, k - 1);
      StepKeepsDependencies(arch, states[k - 1], steps[k - 1], states[k]);
    } else {
      FreshKeepsAll(states[0]);
    }
  }

  /** In particular, with regular versions, as long as all records can be read. */
  lemma {:induction false} RegularRunKeepsDependencies(arch: string, states: seq<State>, steps: seq<Step>, k: nat)
    requires Run(arch, states, steps) && Fresh(states[0]) && k < |states|
    requires forall i :: 0 <= i < |steps| ==> RegularStep(steps[i])
    requires forall j :: 0 <= j <= k ==> states[j].broken == {}
    ensures DependenciesInvariant(states[k]) && RegularDb(states[k].db)
  {
    hide DependenciesInvariant, DemandsMet, Next, RegularStep, RegularDb;
    if k > 0 {
      RegularRunKeepsDependencies(arch, states, steps, k - 1);
      RegularStepMeetsDemands(arch, states[k - 1], steps[k - 1], states[k]);
      StepKeepsDependencies(arch, states[k - 1], steps[k - 1], states[k]);
    } else {
      FreshKeepsAll(states[0]);
    }
  }

  /** Whatever the payload's order, the record of the step's archive can be read. */
  ghost predicate ReadableStep(step: Step) { !step.Removes? ==> ReadableArchive(step.archive) }

  lemma StepKeepsReadable(arch: string, s: State, step: Step, s': State)
    requires s.broken == {} && Next(arch, s, step, s') && ReadableStep(step)
    ensures s'.broken == {}
  {
    hide ValidArchive, ReadableArchive, Registered, InstallGuard, UpgradeAccepted, RemoveGuard, Removed;
    if s' != s {
      match step
      case Installs(a) => ReadableStaysClear(s.db, a, s'.db, s'.broken);
      case Removes(name, access) =>
      case Upgrades(a) => if TookEffect(arch, s, a, s') { ReadableStaysClear(s.db, a, s'.db, s'.broken); }
    }
  }

  lemma {:induction false} EveryRunKeepsReadable(arch: string, states: seq<State>, steps: seq<Step>, k: nat)
    requires Run(arch, states, steps) && Fresh(states[0]) && k < |states|
    requires forall i :: 0 <= i < |steps| ==> ReadableStep(steps[i])
    ensures states[k].broken == {}
  {
    hide Next, ReadableStep;
    if k > 0 {
      EveryRunKeepsReadable(arch, states, steps, k - 1);
      StepKeepsReadable(arch, states[k - 1], steps[k - 1], states[k]);
    }
  }

  /** With archives whose records can be read, all dependencies are met in every state of
      such a run exactly if each of its upgrades meets the versioned demands; with regular
      versions they always are. */
  lemma ReadableRunKeepsDependencies(arch: string, states: seq<State>, steps: seq<Step>)
    requires Run(arch, states, steps) && Fresh(states[0])
    requires forall i :: 0 <= i < |steps| ==> ReadableStep(steps[i])
    ensures (forall k :: 0 <= k < |states| ==> DependenciesInvariant(states[k])) <==>
            (forall i :: 0 <= i < |steps| ==> DemandsMet(arch, states[i], steps[i], states[i + 1]))
    ensures (forall i :: 0 <= i < |steps| ==> RegularStep(steps[i])) ==>
            forall k :: 0 <= k < |states| ==> DependenciesInvariant(states[k]) && RegularDb(states[k].db)
  {
    hide DependenciesInvariant, DemandsMet, Next, RegularStep, RegularDb, ReadableStep, Fresh;
    forall k | 0 <= k < |states| ensures states[k].broken == {} { EveryRunKeepsReadable(arch, states, steps, k); }
    EveryRunKeepsDependencies(arch, states, steps);
    if forall i :: 0 <= i < |steps| ==> RegularStep(steps[i]) {
      forall k | 0 <= k < |states| ensures DependenciesInvariant(states[k]) && RegularDb(states[k].db) {
        RegularRunKeepsDependencies(arch, states, steps, k);
      }
    }
  }

  // --- upgrades only rise

  lemma BehindOrder(a: Manifest, b: Manifest, c: Manifest)
    ensures Behind(a, a)
    ensures !Behind(a, b) && !Behind(b, c) ==> !Behind(a, c)
    ensures !Behind(a, b) ==> Behind(b, a)
  {
    hide CompareRuns;
    RunsIsTotalPreorder(c.version, b.version, a.version);
    RunsIsTotalPreorder(a.version, c.version, b.version);
    RunsIsTotalPreorder(b.version, a.version, c.version);
    RunsIsTotalPreorder(a.version, a.version, a.version);
  }

  /** The step is an upgrade of the package that succeeds. */
  ghost predicate UpgradesPackage(arch: string, s: State, step: Step, s': State, n: string) {
    step.Upgrades? && step.archive.manifest.name == n && TookEffect(arch, s, step.archive, s')
  }

  /** Whatever a registration makes of its package, the other packages keep their records. */
  lemma RegistersOne(db: Db, broken: set<string>, a: Archive, db': Db, broken': set<string>, n: string)
    requires ValidArchive(a) && Registered(db, broken, a, db', broken') && n in db'
    ensures if n == a.manifest.name then db'[n].manifest == a.manifest else n in db && db'[n] == db[n]
  {
    hide ManifestFits, FieldNames, SafePaths, WellFormed, WriteRecord, NulFree, Records, ReadBack;
    var files :| Records(files, a.payload) && |files| <= MAX_FILES
      && db' == StoredDb(db, Record(a.manifest, files)) && broken' == StoredBroken(broken, Record(a.manifest, files));
    PayloadRegisters(a.manifest, files, a.payload);
    if ReadBack(Record(a.manifest, files)).Some? { ReadBackShape(Record(a.manifest, files)); }
  }

  /** A package that stays installed keeps its manifest, or is upgraded to one that is ahead
      in version, or in release at the same version. */
  lemma StepRises(arch: string, s: State, step: Step, s': State, n: string)
    requires Next(arch, s, step, s') && n in s.db && n in s'.db
    ensures UpgradesPackage(arch, s, step, s', n) ==> !Behind(s'.db[n].manifest, s.db[n].manifest)
    ensures !UpgradesPackage(arch, s, step, s', n) ==> s'.db[n].manifest == s.db[n].manifest
  {
    hide ValidArchive, InstallGuard, Registered, UpgradeAccepted, RemoveGuard, Behind, UpgradeUndone, Committed;
    match step
    case Installs(a) =>
      if s' != s {
        NewInstall(arch, s, a);
        RegistersOne(s.db, s.broken, a, s'.db, s'.broken, n);
      }
    case Removes(name, access) =>
    case Upgrades(a) =>
      if TookEffect(arch, s, a, s') {
        AcceptedRises(arch, s, a);
        RegistersOne(s.db, s.broken, a, s'.db, s'.broken, n);
      }
  }

  lemma NewInstall(arch: string, s: State, a: Archive)
    requires InstallGuard(arch, s.tree, s.db, a)
    ensures a.manifest.name !in s.db
  {
  }

  lemma AcceptedRises(arch: string, s: State, a: Archive)
    requires UpgradeAccepted(arch, s.tree, s.db, a)
    ensures a.manifest.name in s.db && !Behind(a.manifest, s.db[a.manifest.name].manifest)
  {
    hide ManifestsAllow, PathsAllow, AsRecorded;
    AllowedIsNewer(arch, s.db, a.manifest);
  }

  /** While a package stays installed, upgrades only take it forward in version and release:
      no sequence of them, of any versions whatever, leads back to where it was. */
  lemma {:induction false} UpgradesOnlyRise(arch: string, states: seq<State>, steps: seq<Step>, n: string, i: nat, j: nat)
    requires Run(arch, states, steps) && i <= j < |states|
    requires forall k :: i <= k <= j ==> n in states[k].db
    ensures var was, now := states[i].db[n].manifest, states[j].db[n].manifest;
      if exists k :: i <= k < j && UpgradesPackage(arch, states[k], steps[k], states[k + 1], n) then !Behind(now, was) else now == was
    decreases j
  {
    hide Next, Behind, UpgradesPackage;
    if i < j {
      UpgradesOnlyRise(arch, states, steps, n, i, j - 1);
      StepRises(arch, states[j - 1], steps[j - 1], states[j], n);
      BehindOrder(states[j].db[n].manifest, states[j - 1].db[n].manifest, states[i].db[n].manifest);
    }
  }
}
