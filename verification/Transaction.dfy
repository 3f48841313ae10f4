/** The transaction engine: install, remove and upgrade over a live tree, a
    staging area and the package database. `budget` is the number of forward
    calls (mkdir, rename, record writes, staging) that still succeed; the next one
    fails, at any point. Calls made while rolling back do not fail. */
module Transaction {
  import opened Strings
  import opened Package
  import opened Version
  import opened VersionScan
  import opened Database
  import opened UpgradeChecks
  import opened Closure
  import opened Tree
  import opened Staging
  import opened Collect
  import opened RecordText
  import opened Stored

  /** A package archive: its manifest and the tree that extraction stages. */
  datatype Archive = Archive(manifest: Manifest, payload: Tree)

  /** What an archive that passed validation and extraction holds. */
  ghost predicate ValidArchive(a: Archive) {
    ManifestFits(a.manifest) && WellFormed(a.payload) && SafePaths(a.payload) && FieldNames(a.payload)
  }

  datatype Outcome =
    | Done
    | Refused       // a check said no
    | NotNewer      // an upgrade to the same or an older version
    | Faulted       // a call on the tree or the staging area failed
    | Unregistered  // the record could not be written or removed

  function Reversed(files: seq<Entry>): (r: seq<Entry>)
    ensures |r| == |files| && forall i :: 0 <= i < |r| ==> r[i] == files[|files| - 1 - i]
  {
    seq(|files|, i requires 0 <= i < |files| => files[|files| - 1 - i])
  }

  class Engine {
    const arch: string
    var tree: Tree
    var stage: Tree
    var removed: Tree
    var db: Db
    var broken: set<string>
    var budget: nat

    constructor (arch: string, tree: Tree, db: Db, broken: set<string>)
      requires WellFormed(tree) && GoodRecords(db) && db.Keys !! broken
      ensures Valid() && this.arch == arch && this.tree == tree && this.db == db && this.broken == broken
    {
      this.arch, this.tree, this.db, this.broken := arch, tree, db, broken;
      stage, removed, budget := map[], map[], 0;
    }

    ghost predicate Valid()
      reads this
    {
      WellFormed(tree) && GoodRecords(db) && db.Keys !! broken
    }

    // --- file system calls

    method Call() returns (ok: bool)
      modifies this`budget
      ensures ok <==> old(budget) > 0
      ensures budget == if ok then old(budget) - 1 else 0
    {
      ok := budget > 0;
      if ok { budget := budget - 1; }
    }

    method Mkdir(p: string, node: Node) returns (ok: bool)
      requires node.Dir?
      modifies this`tree, this`budget
      ensures ok <==> old(budget) > 0 && p !in old(tree) && CanCreate(old(tree), p)
      ensures tree == if ok then old(tree)[p := node] else old(tree)
      ensures budget == if old(budget) > 0 then old(budget) - 1 else 0
    {
      ok := Call();
      if !ok || p in tree || !CanCreate(tree, p) { return false; }
      tree := tree[p := node];
    }

    /** rename from the staged payload to the live tree. */
    method MoveIn(p: string) returns (ok: bool)
      modifies this`tree, this`stage, this`budget
      ensures ok <==> old(budget) > 0 && p in old(stage) && !(p in old(tree) && old(tree)[p].Dir?) && CanCreate(old(tree), p)
      ensures tree == if ok then old(tree)[p := old(stage)[p]] else old(tree)
      ensures stage == if ok then old(stage) - {p} else old(stage)
      ensures budget == if old(budget) > 0 then old(budget) - 1 else 0
    {
      ok := Call();
      if !ok || p !in stage || (p in tree && tree[p].Dir?) || !CanCreate(tree, p) { return false; }
      tree, stage := tree[p := stage[p]], stage - {p};
    }

    /** rename from the live tree to the backup area, whose directories are made
        on the way. */
    method MoveOut(p: string) returns (ok: bool)
      modifies this`tree, this`removed, this`budget
      ensures ok <==> old(budget) > 0 && p in old(tree)
      ensures tree == if ok then old(tree) - {p} else old(tree)
      ensures removed == if ok then old(removed)[p := old(tree)[p]] else old(removed)
      ensures budget == if old(budget) > 0 then old(budget) - 1 else 0
    {
      ok := Call();
      if !ok || p !in tree { return false; }
      tree, removed := tree - {p}, removed[p := tree[p]];
    }

    /** rename from the backup area to the live tree, while rolling back. */
    method MoveBack(p: string)
      modifies this`tree
      ensures tree == if p in removed && !(p in old(tree) && old(tree)[p].Dir?) && CanCreate(old(tree), p)
                      then old(tree)[p := removed[p]] else old(tree)
    {
      if p in removed && !(p in tree && tree[p].Dir?) && CanCreate(tree, p) { tree := tree[p := removed[p]]; }
    }

    method Unlink(p: string)
      modifies this`tree
      ensures tree == if p in old(tree) && !old(tree)[p].Dir? then old(tree) - {p} else old(tree)
    {
      if p in tree && !tree[p].Dir? { tree := tree - {p}; }
    }

    method Rmdir(p: string)
      modifies this`tree
      ensures tree == if p in old(tree) && old(tree)[p].Dir? && Empty(old(tree), p) then old(tree) - {p} else old(tree)
    {
      if p in tree && tree[p].Dir? && Empty(tree, p) { tree := tree - {p}; }
    }

    /** ensure_destination_parent: walks the path from the root, creating what is
        missing, and stops at anything that is not a directory. */
    method EnsureParent(p: string) returns (ok: bool)
      modifies this`tree
      ensures ParentsPresent(old(tree), p) ==> ok && tree == old(tree)
      ensures ok ==> ParentsPresent(tree, p)
      ensures forall q :: q in old(tree) ==> q in tree && tree[q] == old(tree)[q]
      ensures forall q :: q in tree && q !in old(tree) ==> Below(p, q) && tree[q] == Dir(493)
    {
      var i := 0;
      while i < |p|
        invariant 0 <= i <= |p|
        invariant forall q :: Below(p, q) && |q| < i ==> q in tree && tree[q].Dir?
        invariant forall q :: q in old(tree) ==> q in tree && tree[q] == old(tree)[q]
        invariant forall q :: q in tree && q !in old(tree) ==> Below(p, q) && tree[q] == Dir(493)
        invariant ParentsPresent(old(tree), p) ==> tree == old(tree)
      {
        if p[i] == '/' {
          assert Below(p, p[..i]);
          if p[..i] !in tree { tree := tree[p[..i] := Dir(493)]; }
          if !tree[p[..i]].Dir? { return false; }
        }
        i := i + 1;
      }
      ok := true;
    }

    /** One file of a commit: its parents, then the rename. */
    method PlaceFile(p: string) returns (ok: bool)
      modifies this`tree, this`stage, this`budget
      ensures ok ==> old(budget) > 0 && p in old(stage) && p in tree && tree[p] == old(stage)[p]
      ensures ParentsPresent(old(tree), p) ==>
        && (ok <==> old(budget) > 0 && p in old(stage) && !(p in old(tree) && old(tree)[p].Dir?))
        && tree == (if ok then old(tree)[p := old(stage)[p]] else old(tree))
      ensures stage == if ok then old(stage) - {p} else old(stage)
      ensures ok ==> budget == old(budget) - 1
    {
      ok := EnsureParent(p);
      if !ok { return; }
      ParentsGiveCanCreate(tree, p);
      ok := MoveIn(p);
    }

    // --- placing the staged payload

    /** The first pass of a commit: directories, in list order. */
    method CreateDirs(files: seq<Entry>) returns (ok: bool, created: seq<string>)
      requires Fits(tree, stage) && Records(files, stage) && ParentsFirst(Paths(files))
      modifies this`tree, this`budget
      ensures Placed(old(tree), stage, created, []) && tree == Overlay(old(tree), stage, created)
      ensures ok ==> Creating(old(tree), stage, files, |files|, created)
      ensures ok <==> |NewDirs(old(tree), stage)| <= old(budget)
      ensures ok ==> budget == old(budget) - |NewDirs(old(tree), stage)|
    {
      hide Creating, Placed, ParentsFirst, NewDirs, Records;
      created := [];
      var i := 0;
      NothingCreated(tree, stage, files);
      while i < |files|
        invariant 0 <= i <= |files|
        invariant Creating(old(tree), stage, files, i, created) && tree == Overlay(old(tree), stage, created)
        invariant budget == old(budget) - |created|
      {
        var p := files[i].path;
        if files[i].kind.DirKind? {
          if p in tree {
            KindAgrees(old(tree), stage, files, i, created);
            CreateSkip(old(tree), stage, files, i, created);
            if !tree[p].Dir? {
              assert false;
              return false, created;
            }
          } else {
            MoreToCreate(old(tree), stage, files, i, created);
            CreateNext(old(tree), stage, files, i, created);
            ParentsGiveCanCreate(tree, p);
            ok := Mkdir(p, stage[p]);
            if !ok {
              CreatingPlaces(old(tree), stage, files, i, created);
              return;
            }
            created := created + [p];
          }
        } else {
          CreateSkip(old(tree), stage, files, i, created);
        }
        i := i + 1;
      }
      AllCreated(old(tree), stage, files, created);
      CreatingPlaces(old(tree), stage, files, i, created);
      ok := true;
    }

    /** The second pass: files and links, each one recorded after its rename. */
    method MoveFiles(files: seq<Entry>, created: seq<string>, ghost t: Tree, ghost s: Tree)
      returns (ok: bool, moved: seq<string>)
      requires Fits(t, s) && Records(files, s) && ParentsFirst(Paths(files))
      requires Moving(t, s, files, 0, created, []) && tree == Overlay(t, s, created) && stage == s
      modifies this`tree, this`stage, this`budget
      ensures Placed(t, s, created, moved) && tree == Overlay(t, s, created + moved)
      ensures ok ==> AllPlaced(t, s, created, moved)
      ensures ok <==> |LeafPaths(s)| <= old(budget)
      ensures ok ==> budget == old(budget) - |LeafPaths(s)|
    {
      moved := [];
      var i := 0;
      assert created + [] == created;
      while i < |files|
        invariant 0 <= i <= |files|
        invariant Moving(t, s, files, i, created, moved) && tree == Overlay(t, s, created + moved)
        invariant stage == Without(s, moved)
        invariant budget == old(budget) - |moved|
      {
        if !files[i].kind.DirKind? {
          var p := files[i].path;
          MoveNext(t, s, files, i, created, moved);
          MoreToMove(t, s, files, i, created, moved);
          ok := PlaceFile(p);
          if !ok { return; }
          TakeOutOne(s, moved, p);
          moved := moved + [p];
        } else {
          MoveSkip(t, s, files, i, created, moved);
        }
        i := i + 1;
      }
      MovingDone(t, s, files, created, moved);
      AllMoved(t, s, created, moved);
      ok := true;
    }

    /** Both passes; `created` and `moved` are the lists the rollback needs. */
    method CommitStage(files: seq<Entry>) returns (ok: bool, moved: seq<string>, created: seq<string>)
      requires Fits(tree, stage) && Records(files, stage) && ParentsFirst(Paths(files))
      modifies this`tree, this`stage, this`budget
      ensures Placed(old(tree), old(stage), created, moved)
      ensures tree == Overlay(old(tree), old(stage), created + moved)
      ensures ok ==> AllPlaced(old(tree), old(stage), created, moved)
      ensures ok <==> CommitCalls(old(tree), old(stage)) <= old(budget)
      ensures ok ==> budget == old(budget) - CommitCalls(old(tree), old(stage))
    {
      moved := [];
      ok, created := CreateDirs(files);
      assert created + [] == created;
      if ok { ok, moved := MoveFiles(files, created, old(tree), old(stage)); }
    }

    /** The first loop of rollback_transaction: unlink, last one first. */
    method UndoMoves(moved: seq<string>, created: seq<string>, ghost t: Tree, ghost s: Tree)
      requires Placed(t, s, created, moved) && tree == Overlay(t, s, created + moved)
      modifies this`tree
      ensures tree == Overlay(Without(t, moved), s, created)
    {
      var k := |moved|;
      assert moved[k..] == [] && moved[..k] == moved && Without(t, []) == t;
      while k > 0
        invariant 0 <= k <= |moved|
        invariant tree == Overlay(Without(t, moved[k..]), s, created + moved[..k])
      {
        k := k - 1;
        UndoMove(t, s, created, moved, k);
        Unlink(moved[k]);
      }
      assert moved[0..] == moved && created + moved[..0] == created;
    }

    /** The second loop: remove the created directories, last one first. */
    method UndoDirs(created: seq<string>, ghost base: Tree, ghost s: Tree)
      requires Distinct(created) && ParentsFirst(created) && tree == Overlay(base, s, created)
      requires forall c :: c in created ==> c in s && s[c].Dir? && c !in base && Empty(base, c)
      modifies this`tree
      ensures tree == base
    {
      var k := |created|;
      assert created[..k] == created;
      while k > 0
        invariant 0 <= k <= |created|
        invariant tree == Overlay(base, s, created[..k])
      {
        k := k - 1;
        assert created[k] in created && created[k] in created[..k + 1];
        NothingBelow(base, s, created, k);
        UndoCreate(base, s, created, k);
        Rmdir(created[k]);
      }
      assert created[..0] == [];
    }

    /** rollback_transaction. */
    method UndoCommit(moved: seq<string>, created: seq<string>, ghost t: Tree, ghost s: Tree)
      requires WellFormed(t) && Placed(t, s, created, moved) && tree == Overlay(t, s, created + moved)
      modifies this`tree
      ensures tree == Without(t, moved)
    {
      UndoMoves(moved, created, t, s);
      forall c | c in created ensures Empty(Without(t, moved), c) {
        forall p | p in t ensures !Below(p, c) { assert ParentsPresent(t, p); }
      }
      UndoDirs(created, Without(t, moved), s);
    }

    // --- recorded files out of the way

    /** The loop that moves recorded files and links into the backup area. */
    method MoveAside(files: seq<Entry>, access: AccessTest) returns (ok: bool, moved: seq<string>)
      requires Distinct(Paths(files)) && removed == map[]
      requires forall e :: e in files && !e.kind.DirKind? && e.path in tree ==> !tree[e.path].Dir?
      modifies this`tree, this`removed, this`budget
      ensures TakenOut(old(tree), tree, removed, moved)
      ensures forall p :: p in moved ==> p in Leaves(files)
      ensures ok ==> tree == Aside(old(tree), files, access)
      ensures ok <==> NeverStuck(old(tree), files, access) && AsideCalls(old(tree), files, access) <= old(budget)
      ensures ok ==> budget == old(budget) - AsideCalls(old(tree), files, access)
    {
      moved := [];
      var i := 0;
      assert files[0..] == files;
      while i < |files|
        invariant 0 <= i <= |files|
        invariant TakenOut(old(tree), tree, removed, moved)
        invariant forall p :: p in moved ==> p in Leaves(files)
        invariant forall j :: i <= j < |files| ==> files[j].path !in moved
        invariant Aside(tree, files[i..], access) == Aside(old(tree), files, access)
        invariant NeverStuck(tree, files[i..], access) <==> NeverStuck(old(tree), files, access)
        invariant |moved| + AsideCalls(tree, files[i..], access) == AsideCalls(old(tree), files, access)
        invariant budget == old(budget) - |moved|
      {
        var e := files[i];
        assert files[i..][0] == e && files[i..][1..] == files[i + 1..] && e in files;
        if !e.kind.DirKind? && Stuck(tree, e.path, access) { return false, moved; }
        if !e.kind.DirKind? && Visible(tree, e.path, access) {
          ok := MoveOut(e.path);
          if !ok { return; }
          TakeOutOne(old(tree), moved, e.path);
          forall j | i + 1 <= j < |files| ensures files[j].path != e.path {
            assert Paths(files)[j] != Paths(files)[i];
          }
          moved := moved + [e.path];
        }
        i := i + 1;
      }
      ok := true;
    }

    /** The reverse loop of a rollback: the backups go back to the live tree. */
    method RestoreMoved(moved: seq<string>)
      requires Distinct(moved) && removed.Keys == set p | p in moved
      requires forall p :: p in moved ==> ParentsPresent(tree, p) && p !in tree
      modifies this`tree
      ensures tree == Overlay(old(tree), removed, moved)
    {
      var k := |moved|;
      assert moved[k..] == [];
      while k > 0
        invariant 0 <= k <= |moved|
        invariant tree == Overlay(old(tree), removed, moved[k..])
      {
        k := k - 1;
        var p := moved[k];
        assert p in moved && p !in moved[k + 1..];
        OverlayKeepsParents(old(tree), removed, moved[k + 1..], p);
        var ok := EnsureParent(p);
        ParentsGiveCanCreate(tree, p);
        PutBackOne(old(tree), removed, moved, k);
        MoveBack(p);
      }
      assert moved[0..] == moved;
    }

    // --- directories left empty

    /** The rmdir loop after a commit, on paths in descending order: what else
        lies in a directory, or another owner, keeps it. */
    method PruneDirs(files: seq<Entry>, keep: seq<Entry>, name: string, ghost kept: Tree)
      requires Descending(files) && Records(keep, kept) && broken <= {name}
      modifies this`tree
      ensures tree == Pruned(old(tree), MayPrune(db, files, kept, name))
    {
      ghost var may := MayPrune(db, files, kept, name);
      var i := 0;
      assert Gone(tree, may, files, 0) == {};
      while i < |files|
        invariant 0 <= i <= |files|
        invariant tree == old(tree) - Gone(old(tree), may, files, i)
      {
        var d := files[i].path;
        PruneStep(old(tree), db, files, kept, name, i);
        ListsDirIffKept(keep, kept, d);
        if files[i].kind.DirKind? && !ListsAs(keep, DirKind, d) {
          var owner := FindOwner(db, broken, d, Some(name));
          if owner.Unowned? { Rmdir(d); }
        }
        i := i + 1;
      }
      assert files[..i] == files;
      AllGone(old(tree), db, files, kept, name);
    }

    // --- checks against the tree and the records

    method Preflight(files: seq<Entry>) returns (ok: bool)
      ensures ok ==> forall e :: e in files ==> PlaceFree(db, tree, e)
      ensures !ok ==> broken != {} || exists e :: e in files && !PlaceFree(db, tree, e)
    {
      for i := 0 to |files|
        invariant forall j :: 0 <= j < i ==> PlaceFree(db, tree, files[j])
      {
        var e := files[i];
        assert e in files;
        var owner := FindOwner(db, broken, e.path, None);
        if owner.Unreadable? || (owner.OwnedBy? && !e.kind.DirKind?) { return false; }
        if e.path in tree {
          if e.kind.DirKind? {
            if !tree[e.path].Dir? { return false; }
          } else {
            return false;
          }
        }
      }
      ok := true;
    }

    /** validate_removal_paths, for files that `name` records. */
    method ValidateRemoval(name: string, files: seq<Entry>) returns (ok: bool)
      requires forall e :: e in files ==> Owns(db, name, e.path)
      ensures ok ==> AsRecorded(tree, files)
      ensures AsRecorded(tree, files) && SoleOwner(db, name, files) && broken == {} ==> ok
    {
      for i := 0 to |files|
        invariant AsRecorded(tree, files[..i])
      {
        var e := files[i];
        assert e in files;
        var owner := FindOwner(db, broken, e.path, None);
        if !owner.OwnedBy? { return false; }
        if owner.name != name && !e.kind.DirKind? { return false; }
        if e.path in tree && !Matches(e, tree[e.path]) { return false; }
        assert files[..i + 1] == files[..i] + [e];
      }
      assert files[..|files|] == files;
      ok := true;
    }

    /** The path checks of an upgrade: no other owner, no other kind of node. */
    method UpgradePreflight(name: string, files: seq<Entry>) returns (ok: bool)
      ensures ok ==> EntriesFit(tree, db, name, files)
      ensures EntriesFit(tree, db, name, files) && SoleOwner(db, name, files) && broken == {} ==> ok
    {
      for i := 0 to |files|
        invariant EntriesFit(tree, db, name, files[..i])
      {
        var e := files[i];
        assert e in files;
        var owner := FindOwner(db, broken, e.path, None);
        if owner.Unreadable? || (owner.OwnedBy? && owner.name != name && !e.kind.DirKind?) { return false; }
        if e.path in tree && !KindFits(tree, e) { return false; }
        assert files[..i + 1] == files[..i] + [e];
      }
      assert files[..|files|] == files;
      ok := true;
    }

    /** No path of the old record comes back as another kind of entry. */
    method KindsKeptCheck(old_: seq<Entry>, new_: seq<Entry>) returns (ok: bool)
      ensures ok <==> KindsKept(old_, new_)
    {
      for i := 0 to |old_|
        invariant forall j :: 0 <= j < i ==> Lists(new_, old_[j].path) ==> ListsAs(new_, old_[j].kind, old_[j].path)
      {
        assert old_[i] in old_;
        if !ListsAs(new_, old_[i].kind, old_[i].path) && Lists(new_, old_[i].path) { return false; }
      }
      ok := true;
    }

    // --- records

    /** pux_db_register_package: the record is written as text, and counts from then on
        as it reads back. */
    method Register(m: Manifest, files: seq<Entry>) returns (ok: bool)
      modifies this`db, this`broken, this`budget
      ensures ok <==> old(budget) > 0 && WriteRecord(Record(m, files)).Some?
      ensures db == if ok then StoredDb(old(db), Record(m, files)) else old(db)
      ensures broken == if ok then StoredBroken(old(broken), Record(m, files)) else old(broken)
    {
      ok := Call();
      if !ok { return; }
      var text := WriteRecord(Record(m, files));
      if text.None? { return false; }
      var read := ReadRecord(text.value);
      db := if read.Some? then db[m.name := read.value] else db - {m.name};
      broken := if read.Some? then broken - {m.name} else broken + {m.name};
    }

    method Unregister(name: string) returns (ok: bool)
      modifies this`db, this`budget
      ensures ok <==> old(budget) > 0 && name in old(db)
      ensures db == if ok then old(db) - {name} else old(db)
      ensures ok ==> budget == old(budget) - 1
    {
      ok := Call();
      if !ok || name !in db { return false; }
      db := db - {name};
    }

    // --- the three transactions

    /** What an installation and an upgrade share: commit the staged payload and
        write the record; if either fails, take the payload back. */
    method PlaceAndRegister(m: Manifest, files: seq<Entry>) returns (r: Outcome, ghost moved: seq<string>)
      requires Fits(tree, stage) && Records(files, stage) && ParentsFirst(Paths(files))
      requires WriteRecord(Record(m, files)).Some?
      modifies this`tree, this`stage, this`db, this`broken, this`budget
      ensures r == CommitOutcome(old(budget), CommitCalls(old(tree), old(stage)))
      ensures r.Done? ==> tree == Committed(old(tree), old(stage))
      ensures r.Done? ==> db == StoredDb(old(db), Record(m, files)) && broken == StoredBroken(old(broken), Record(m, files))
      ensures !r.Done? ==> db == old(db) && broken == old(broken) && tree == Without(old(tree), moved)
      ensures forall p :: p in moved ==> p in old(stage) && !old(stage)[p].Dir?
      ensures r.Unregistered? ==> forall p :: p in old(stage) && !old(stage)[p].Dir? ==> p in moved
    {
      hide WriteRecord, StoredDb, StoredBroken, CommitCalls, Committed, Distinct, ParentsFirst, Records;
      var ok, placed, created := CommitStage(files);
      moved := placed;
      if !ok {
        UndoCommit(placed, created, old(tree), old(stage));
        return Faulted, moved;
      }
      AllPlacedIsCommitted(old(tree), old(stage), created, placed);
      ok := Register(m, files);
      if !ok {
        UndoCommit(placed, created, old(tree), old(stage));
        return Unregistered, moved;
      }
      r := Done;
    }

    /** Validating and staging an archive: lists what extraction left in the
        staging area. */
    method Stage(a: Archive) returns (r: Outcome, files: seq<Entry>)
      requires ValidArchive(a)
      modifies this`stage, this`budget
      ensures r.Done? || r.Refused? || r.Faulted?
      ensures r.Done? ==> stage == a.payload && Records(files, a.payload) && ParentsFirst(Paths(files))
      ensures r.Done? ==> Collectable(a.payload) && a.payload != map[] && |files| == |a.payload|
      ensures r.Refused? ==> !(Collectable(a.payload) && a.payload != map[])
      ensures r.Faulted? <==> old(budget) == 0
      ensures !r.Faulted? ==> budget == old(budget) - 1
    {
      files := [];
      var ok := Call();
      if !ok { return Faulted, files; }
      stage := a.payload;
      ok, files := CollectTree(stage);
      if !ok { return Refused, files; }
      RecordsCount(files, stage);
      r := if |files| == 0 then Refused else Done;
    }

    /** pux_install_package. `forwardCalls` is how many calls succeed. */
    method Install(a: Archive, forwardCalls: nat) returns (r: Outcome)
      requires Valid() && ValidArchive(a)
      modifies this
      ensures Valid()
      ensures r.Done? ==> InstallGuard(arch, old(tree), old(db), a)
                          && Installed(old(tree), old(db), old(broken), a, tree, db, broken)
      ensures !r.Done? ==> tree == old(tree) && db == old(db) && broken == old(broken)
      ensures r.Refused? ==> !InstallGuard(arch, old(tree), old(db), a) || old(broken) != {}
      ensures r.Refused? || r == CommitOutcome(forwardCalls, 1 + CommitCalls(old(tree), a.payload))
      ensures !InstallGuard(arch, old(tree), old(db), a) ==> r.Refused? || forwardCalls == 0
      ensures (a.manifest.arch != arch && a.manifest.arch != "noarch") || a.manifest.name in old(db) ==> r.Refused?
    {
      hide ManifestFits, FieldNames, SafePaths, WriteRecord, Committed, StoredDb, StoredBroken, CommitCalls, ParentsFirst, Records;
      budget, stage, removed := forwardCalls, map[], map[];
      if !FitsArch(a.manifest, arch) || a.manifest.name in db { return Refused; }
      var ok := DependencyCheck(db, broken, a.manifest);
      if !ok { return Refused; }
      var files;
      r, files := Stage(a);
      if !r.Done? { stage := map[]; return; }
      ok := Preflight(files);
      if !ok {
        if exists e :: e in files && !PlaceFree(db, tree, e) { PlacesNotFree(db, tree, files, a.payload); }
        stage := map[];
        return Refused;
      }
      PlacesFree(db, tree, files, a.payload);
      assert InstallGuard(arch, old(tree), old(db), a);
      PayloadRegisters(a.manifest, files, a.payload);
      ghost var moved;
      r, moved := PlaceAndRegister(a.manifest, files);
      if r.Done? {
        InstalledBy(old(tree), old(db), old(broken), a, files);
      } else {
        NothingReplaced(old(tree), a.payload, moved);
      }
      stage := map[];
    }

    /** The end of a rollback: what was moved aside goes back. Files of the tree
        that a commit replaced, and its rollback unlinked, do not come back. */
    method PutBack(moved: seq<string>, ghost t: Tree, ghost mid: Tree, ghost lost: seq<string>)
      requires WellFormed(t) && TakenOut(t, mid, removed, moved) && tree == Without(mid, lost)
      requires forall p :: p in lost && p in t ==> !t[p].Dir?
      modifies this`tree
      ensures tree == t - (set p | p in lost && p in mid)
    {
      RestoreReady(t, mid, removed, moved, lost);
      PutBackAll(t, mid, removed, moved, lost);
      RestoreMoved(moved);
    }

    /** The part of a removal that can be undone: files out of the way, then the
        record. */
    method TakeOut(name: string, files: seq<Entry>, access: AccessTest) returns (r: Outcome)
      requires WellFormed(tree) && Distinct(Paths(files)) && removed == map[] && name in db
      requires forall e :: e in files && !e.kind.DirKind? && e.path in tree ==> !tree[e.path].Dir?
      modifies this`tree, this`removed, this`db, this`budget
      ensures r == if NeverStuck(old(tree), files, access) then CommitOutcome(old(budget), AsideCalls(old(tree), files, access)) else Faulted
      ensures r.Done? ==> tree == Aside(old(tree), files, access) && db == old(db) - {name}
      ensures !r.Done? ==> tree == old(tree) && db == old(db)
      ensures WellFormed(tree)
    {
      var ok, moved := MoveAside(files, access);
      ghost var mid := tree;
      TakenOutKeepsWellFormed(old(tree), mid, removed, moved);
      r := Faulted;
      if ok {
        ok := Unregister(name);
        r := Unregistered;
      }
      if ok { return Done; }
      assert Without(mid, []) == mid;
      PutBack(moved, old(tree), mid, []);
    }

    /** pux_remove_package. `access` is the answer on links. */
    method Remove(name: string, access: AccessTest, forwardCalls: nat) returns (r: Outcome)
      requires Valid()
      modifies this
      ensures Valid() && broken == old(broken)
      ensures r.Done? ==> RemoveGuard(old(tree), old(db), name) && old(broken) == {}
                          && Removed(old(tree), old(db), name, access, tree, db)
      ensures !r.Done? ==> tree == old(tree) && db == old(db)
      ensures r.Refused? ==> !(RemoveGuard(old(tree), old(db), name) && SoleOwner(old(db), name, old(db)[name].files))
                             || old(broken) != {}
      ensures !RemoveGuard(old(tree), old(db), name) ==> r.Refused?
      ensures !r.Refused? ==>
        var order := RemovalOrder(old(db)[name].files);
        r == if forwardCalls > 0 && NeverStuck(old(tree), order, access)
             then CommitOutcome(forwardCalls, 1 + AsideCalls(old(tree), order, access)) else Faulted
    {
      hide NotNeeded, NeverStuck, AsideCalls, Aside, MayPrune, Pruned, RemovalOrder, Owns;
      budget, stage, removed := forwardCalls, map[], map[];
      if name !in db { return Refused; }
      var rec := db[name];
      var verdict := FindReverseDependency(db, broken, rec.manifest);
      assert broken == {} ==> broken <= {rec.manifest.name};
      if !verdict.Clear? { return Refused; }
      OwnFiles(db, name);
      var ok := ValidateRemoval(name, rec.files);
      if !ok { return Refused; }
      var files := RemovalOrder(rec.files);
      DescendingOrder(rec.files);
      ok := Call();
      if !ok { return Faulted; }
      r := TakeOut(name, files, access);
      if r.Done? {
        ghost var left := tree;
        PruneDirs(files, [], name, map[]);
        PruneKeepsWellFormed(left, MayPrune(db, files, map[], name));
        assert old(db) - {name} == db - {name};
        PruneElsewhere(old(db), db, files, map[], name);
      }
    }

    /** The checks of an upgrade that only read manifests and records. */
    method UpgradeChecks(a: Archive) returns (r: Outcome)
      requires Valid()
      modifies {}
      ensures r.Done? || r.Refused? || r.NotNewer?
      ensures r.Done? ==> a.manifest.name in db && ManifestsAllow(arch, db, a.manifest) && AsRecorded(tree, db[a.manifest.name].files)
      ensures r.Done? ==> broken == {}
      ensures r.Refused? ==> broken != {} || !(a.manifest.name in db && ManifestsAllow(arch, db, a.manifest)
                               && AsRecorded(tree, db[a.manifest.name].files)
                               && SoleOwner(db, a.manifest.name, db[a.manifest.name].files))
      ensures r.NotNewer? <==> (a.manifest.arch == arch || a.manifest.arch == "noarch")
                               && a.manifest.name in db && Behind(a.manifest, db[a.manifest.name].manifest)
    {
      hide CompareRuns;
      var name := a.manifest.name;
      if !FitsArch(a.manifest, arch) || name !in db { return Refused; }
      var rec := db[name];
      var c := CompareLocal(a.manifest.version, rec.manifest.version);
      if c < 0 || (c == 0 && a.manifest.release <= rec.manifest.release) { return NotNewer; }
      var ok := ReplacementCheck(db, broken, rec.manifest, a.manifest);
      if !ok { return Refused; }
      ok := DependentCheck(db, broken, rec.manifest, a.manifest);
      if !ok { return Refused; }
      ok := ConflictCheck(db, broken, rec.manifest, a.manifest);
      if !ok { return Refused; }
      OwnFiles(db, name);
      ok := ValidateRemoval(name, rec.files);
      r := if ok then Done else Refused;
    }

    /** The exchange at the heart of an upgrade: old files aside, payload in place,
        record replaced; or everything undone. */
    method Exchange(a: Archive, old_: seq<Entry>, files: seq<Entry>) returns (r: Outcome)
      requires ValidArchive(a) && stage == a.payload && removed == map[]
      requires Records(files, a.payload) && ParentsFirst(Paths(files)) && Ascending(old_)
      requires WellFormed(tree) && AsRecorded(tree, old_) && Fits(tree, a.payload)
      requires WriteRecord(Record(a.manifest, files)).Some?
      modifies this`tree, this`stage, this`removed, this`db, this`broken, this`budget
      ensures r == CommitOutcome(old(budget), ExchangeCalls(old(tree), old_, a.payload))
      ensures r.Done? ==> tree == Committed(old(tree) - Leaves(old_), a.payload)
      ensures r.Done? ==> db == StoredDb(old(db), Record(a.manifest, files))
                          && broken == StoredBroken(old(broken), Record(a.manifest, files))
      ensures WellFormed(tree)
      ensures !r.Done? ==> db == old(db) && broken == old(broken)
      ensures !r.Done? ==> SomeLost(old(tree), Foreign(old(tree), a.payload, old_), tree)
      ensures r.Unregistered? ==> tree == old(tree) - Foreign(old(tree), a.payload, old_)
    {
      hide ManifestFits, FieldNames, WriteRecord, Committed, StoredDb, StoredBroken, CommitCalls, LeavesThere, Foreign, Ascending, Distinct,
        Records, ParentsFirst, Aside, AsideCalls, NeverStuck, Fits, Overlay;
      var t := tree;
      AscendingIsDistinct(old_);
      AsideTakesLeaves(t, old_);
      AsideCallsAll(t, old_);
      var ok, moved := MoveAside(old_, Lstat());
      var mid := tree;
      TakenOutKeepsWellFormed(t, mid, removed, moved);
      ghost var lost: seq<string> := [];
      r := Faulted;
      assert Without(mid, []) == mid;
      if ok {
        FitsAfterTaking(t, mid, a.payload);
        SameCommitCalls(t, mid, old_, a.payload);
        r, lost := PlaceAndRegister(a.manifest, files);
        if r.Done? {
          CommitKeepsWellFormed(mid, a.payload);
          return;
        }
      }
      LostIsForeign(t, mid, a.payload, old_, moved, lost);
      DropLeavesKeepsWellFormed(t, set p | p in lost && p in mid);
      PutBack(moved, t, mid, lost);
    }

    /** Staging the new payload and checking its paths. */
    method PrepareUpgrade(a: Archive) returns (r: Outcome, files: seq<Entry>)
      requires Valid() && ValidArchive(a) && a.manifest.name in db
      modifies this`stage, this`budget
      ensures r.Done? || r.Refused? || r.Faulted?
      ensures r.Done? ==> PathsAllow(tree, db, a)
      ensures r.Done? ==> stage == a.payload && Records(files, a.payload) && ParentsFirst(Paths(files))
                          && Fits(tree, a.payload) && |files| <= MAX_FILES
      ensures r.Refused? ==> broken != {} || !(PathsAllow(tree, db, a) && UpgradeUnshared(db, a))
      ensures r.Faulted? <==> old(budget) == 0
      ensures !r.Faulted? ==> budget == old(budget) - 1
    {
      var name := a.manifest.name;
      r, files := Stage(a);
      if !r.Done? { return; }
      var ok := UpgradePreflight(name, files);
      if ok { ok := KindsKeptCheck(db[name].files, files); }
      UpgradePaths(tree, db, files, a);
      r := if ok then Done else Refused;
    }

    /** Everything an upgrade checks before it touches the live tree. */
    method UpgradeGate(a: Archive) returns (r: Outcome, files: seq<Entry>)
      requires Valid() && ValidArchive(a)
      modifies this`stage, this`budget
      ensures r.Done? || r.Refused? || r.NotNewer? || r.Faulted?
      ensures r.Done? ==> UpgradeAccepted(arch, tree, db, a) && broken == {}
      ensures r.Done? ==> stage == a.payload && Records(files, a.payload) && ParentsFirst(Paths(files))
                          && Fits(tree, a.payload) && |files| <= MAX_FILES
      ensures r.Refused? ==> broken != {} || !(UpgradeAccepted(arch, tree, db, a) && UpgradeUnshared(db, a))
      ensures r.NotNewer? <==> (a.manifest.arch == arch || a.manifest.arch == "noarch")
                               && a.manifest.name in db && Behind(a.manifest, db[a.manifest.name].manifest)
      ensures r.Faulted? ==> a.manifest.name in db && old(budget) == 0
      ensures r.Done? ==> old(budget) > 0 && budget == old(budget) - 1
    {
      hide ManifestsAllow, AsRecorded, PathsAllow, SoleOwner, OnlyOwner, Owns, Behind, Records, ParentsFirst, Fits, WellFormed, SafePaths, FieldNames, ManifestFits;
      files := [];
      r := UpgradeChecks(a);
      if r.Done? { r, files := PrepareUpgrade(a); }
    }

    /** pux_upgrade_package. */
    method Upgrade(a: Archive, forwardCalls: nat) returns (r: Outcome)
      requires Valid() && ValidArchive(a)
      modifies this
      ensures Valid()
      ensures r.Done? ==> UpgradeAccepted(arch, old(tree), old(db), a) && old(broken) == {}
                          && Upgraded(old(tree), old(db), old(broken), a, tree, db, broken)
      ensures !r.Done? ==> db == old(db) && broken == old(broken)
      ensures r.Refused? || r.NotNewer? ==> tree == old(tree)
      ensures r.Refused? ==> !(UpgradeAccepted(arch, old(tree), old(db), a) && UpgradeUnshared(old(db), a)) || old(broken) != {}
      ensures r.NotNewer? <==> (a.manifest.arch == arch || a.manifest.arch == "noarch")
                               && a.manifest.name in old(db) && Behind(a.manifest, old(db)[a.manifest.name].manifest)
      ensures r.Faulted? || r.Unregistered? ==> UpgradeUndone(old(tree), old(db), a, r.Unregistered?, tree)
      ensures r.Faulted? || r.Unregistered? ==> tree == old(tree) || UpgradeAccepted(arch, old(tree), old(db), a)
      ensures r.Refused? || r.NotNewer? ||
        (a.manifest.name in old(db) && r == CommitOutcome(forwardCalls, UpgradeCalls(old(tree), old(db), a)))
      ensures UpgradeAccepted(arch, old(tree), old(db), a) && UpgradeUnshared(old(db), a) && old(broken) == {} ==>
        r == CommitOutcome(forwardCalls, UpgradeCalls(old(tree), old(db), a))
      ensures !UpgradeAccepted(arch, old(tree), old(db), a) ==> r.Refused? || r.NotNewer? || forwardCalls == 0
    {
      hide Collectable, Ascending, Records, ParentsFirst, WellFormed, Committed, MayPrune, SafePaths, Distinct, AsRecorded, ManifestFits,
        FieldNames, WriteRecord, StoredDb, StoredBroken, Foreign, ManifestsAllow, PathsAllow, Behind, ExchangeCalls, UpgradeUnshared,
        Pruned, RemovalOrder, SomeLost, Registered, Fits, Descending;
      budget, stage, removed := forwardCalls, map[], map[];
      NothingLost(tree, db, a);
      if a.manifest.name in db && ManifestsAllow(arch, db, a.manifest) { AllowedIsNewer(arch, db, a.manifest); }
      var files;
      r, files := UpgradeGate(a);
      if r.Done? {
        var old_ := db[a.manifest.name].files;
        PayloadRegisters(a.manifest, files, a.payload);
        r := Exchange(a, old_, files);
        if r.Done? {
          UpgradedBy(old(tree), old(db), old(broken), a, files, tree);
          OnlyItself(Record(a.manifest, files));
          PruneDirs(RemovalOrder(old_), files, a.manifest.name, a.payload);
        }
      }
      stage := map[];
    }
  }

  // --- counting calls

  /** How a transaction ends that makes `calls` calls and then writes or deletes the
      record: the budget runs out before, at that last one, or not at all. */
  function CommitOutcome(budget: nat, calls: nat): Outcome {
    if budget < calls then Faulted else if budget == calls then Unregistered else Done
  }

  /** An upgrade moves the old files aside and commits the payload. */
  function ExchangeCalls(t: Tree, old_: seq<Entry>, s: Tree): nat { |LeavesThere(t, old_)| + CommitCalls(t, s) }

  /** Staging is one call. */
  function UpgradeCalls(t: Tree, db: Db, a: Archive): nat
    requires a.manifest.name in db
  {
    1 + ExchangeCalls(t, db[a.manifest.name].files, a.payload)
  }

  lemma NothingCreated(t: Tree, s: Tree, files: seq<Entry>)
    ensures Creating(t, s, files, 0, []) && Overlay(t, s, []) == t
  {
  }

  lemma CreateSkip(t: Tree, s: Tree, files: seq<Entry>, i: nat, created: seq<string>)
    requires Creating(t, s, files, i, created) && i < |files|
    requires files[i].kind.DirKind? ==> files[i].path in Overlay(t, s, created)
    ensures Creating(t, s, files, i + 1, created)
  {
    forall p | p in created ensures exists j :: 0 <= j < i + 1 && files[j].path == p {
      var j :| 0 <= j < i && files[j].path == p;
    }
  }

  lemma CreatingPlaces(t: Tree, s: Tree, files: seq<Entry>, i: nat, created: seq<string>)
    requires Creating(t, s, files, i, created)
    ensures Placed(t, s, created, [])
  {
  }

  lemma KindAgrees(t: Tree, s: Tree, files: seq<Entry>, i: nat, created: seq<string>)
    requires Fits(t, s) && Records(files, s) && i < |files| && Creating(t, s, files, i, created)
    requires files[i].kind.DirKind? && files[i].path in Overlay(t, s, created)
    ensures Overlay(t, s, created)[files[i].path].Dir?
  {
  }

  lemma MoreToCreate(t: Tree, s: Tree, files: seq<Entry>, i: nat, created: seq<string>)
    requires Records(files, s) && i < |files| && Creating(t, s, files, i, created)
    requires files[i].kind.DirKind? && files[i].path !in Overlay(t, s, created)
    ensures |created| < |NewDirs(t, s)|
  {
    var p := files[i].path;
    assert p !in created;
    forall k | 0 <= k < |created| ensures created[k] in NewDirs(t, s) - {p} { assert created[k] in created; }
    DistinctBound(created, NewDirs(t, s) - {p});
    assert NewDirs(t, s) == (NewDirs(t, s) - {p}) + {p};
  }

  lemma AllCreated(t: Tree, s: Tree, files: seq<Entry>, created: seq<string>)
    requires Records(files, s) && Creating(t, s, files, |files|, created)
    ensures |created| == |NewDirs(t, s)|
  {
    forall k | 0 <= k < |created| ensures created[k] in NewDirs(t, s) { assert created[k] in created; }
    forall p | p in NewDirs(t, s) ensures p in created { var i :| 0 <= i < |files| && files[i].path == p; }
    DistinctBound(created, NewDirs(t, s));
  }

  lemma MoreToMove(t: Tree, s: Tree, files: seq<Entry>, i: nat, created: seq<string>, moved: seq<string>)
    requires Records(files, s) && i < |files| && Moving(t, s, files, i, created, moved)
    requires !files[i].kind.DirKind? && files[i].path !in moved
    ensures |moved| < |LeafPaths(s)|
  {
    var p := files[i].path;
    forall k | 0 <= k < |moved| ensures moved[k] in LeafPaths(s) - {p} { assert moved[k] in moved; }
    DistinctBound(moved, LeafPaths(s) - {p});
    assert LeafPaths(s) == (LeafPaths(s) - {p}) + {p};
  }

  lemma AllMoved(t: Tree, s: Tree, created: seq<string>, moved: seq<string>)
    requires Placed(t, s, created, moved) && AllPlaced(t, s, created, moved)
    ensures |moved| == |LeafPaths(s)|
  {
    forall k | 0 <= k < |moved| ensures moved[k] in LeafPaths(s) { assert moved[k] in moved; }
    DistinctBound(moved, LeafPaths(s));
  }

  /** Moving the old files aside does not change what the commit has to do. */
  lemma SameCommitCalls(t: Tree, mid: Tree, old_: seq<Entry>, s: Tree)
    requires Fits(t, s) && mid == t - Leaves(old_) && AsRecorded(t, old_)
    ensures CommitCalls(mid, s) == CommitCalls(t, s)
  {
    assert forall e :: e in old_ && !e.kind.DirKind? && e.path in t ==> !t[e.path].Dir?;
    assert forall p :: p in s && s[p].Dir? && p in t ==> t[p].Dir?;
    assert NewDirs(mid, s) == NewDirs(t, s);
  }

  predicate ListsAs(files: seq<Entry>, kind: Kind, path: string) {
    exists i :: 0 <= i < |files| && files[i].kind == kind && files[i].path == path
  }

  /** The directories a cleanup may try to remove: recorded as such, not kept by
      the new record, and recorded by no other package. */
  ghost function MayPrune(db: Db, files: seq<Entry>, kept: Tree, name: string): set<string> {
    set e | e in files && e.kind.DirKind? && !(e.path in kept && kept[e.path].Dir?) && OnlyOwner(db, name, e.path) :: e.path
  }

  lemma ListsDirIffKept(keep: seq<Entry>, kept: Tree, d: string)
    requires Records(keep, kept)
    ensures ListsAs(keep, DirKind, d) <==> d in kept && kept[d].Dir?
  {
    if d in kept { var i :| 0 <= i < |keep| && keep[i].path == d; }
  }

  ghost predicate OnlyOwner(db: Db, name: string, path: string) { forall n :: Owns(db, n, path) ==> n == name }

  lemma MayPruneEntry(db: Db, files: seq<Entry>, kept: Tree, name: string, i: nat)
    requires Descending(files) && i < |files|
    ensures var d := files[i].path;
      d in MayPrune(db, files, kept, name) <==>
      files[i].kind.DirKind? && !(d in kept && kept[d].Dir?) && OnlyOwner(db, name, d)
  {
    var d := files[i].path;
    if d in MayPrune(db, files, kept, name) {
      var j :| 0 <= j < |files| && files[j].path == d && files[j].kind.DirKind?;
      AscendingIsDistinct(files);
      assert Paths(files)[i] == Paths(files)[j];
    }
    assert files[i] in files;
  }

  /** The removable directories among the first `i` entries. */
  ghost function Gone(t: Tree, may: set<string>, files: seq<Entry>, i: nat): set<string>
    requires i <= |files|
  {
    set x | x in may && Removable(t, may, x) && Lists(files[..i], x)
  }

  lemma PruneStep(t: Tree, db: Db, files: seq<Entry>, kept: Tree, name: string, i: nat)
    requires Descending(files) && i < |files|
    ensures var d, may := files[i].path, MayPrune(db, files, kept, name);
      var before, after := Gone(t, may, files, i), Gone(t, may, files, i + 1);
      && (d in may <==> files[i].kind.DirKind? && !(d in kept && kept[d].Dir?) && OnlyOwner(db, name, d))
      && d !in before
      && t - after == if d in may && d in t && t[d].Dir? && Empty(t - before, d) then t - before - {d} else t - before
  {
    var d, may := files[i].path, MayPrune(db, files, kept, name);
    var before, after := Gone(t, may, files, i), Gone(t, may, files, i + 1);
    MayPruneEntry(db, files, kept, name, i);
    ListsSnoc(files, i);
    if d in may && d in t && t[d].Dir? {
      forall x | x in may && Removable(t, may, x) && Below(x, d) ensures x in before {
        assert Lists(files, x);
        ChildrenComeFirst(files, i, x);
      }
      PruneOne(t, may, before, d);
    }
    assert after == if d in may && Removable(t, may, d) then before + {d} else before;
  }

  lemma AllGone(t: Tree, db: Db, files: seq<Entry>, kept: Tree, name: string)
    ensures var may := MayPrune(db, files, kept, name);
      t - Gone(t, may, files, |files|) == Pruned(t, may)
  {
    var may := MayPrune(db, files, kept, name);
    assert files[..|files|] == files;
    forall d | d in may ensures Lists(files, d) { }
    assert Gone(t, may, files, |files|) == set d | d in may && Removable(t, may, d);
  }

  lemma ListsSnoc(files: seq<Entry>, i: nat)
    requires i < |files| && Descending(files)
    ensures forall x :: Lists(files[..i + 1], x) <==> Lists(files[..i], x) || x == files[i].path
    ensures !Lists(files[..i], files[i].path)
  {
    AscendingIsDistinct(files);
    forall j | 0 <= j < i ensures files[..i][j].path != files[i].path {
      assert Paths(files)[j] != Paths(files)[i];
    }
    forall x ensures Lists(files[..i + 1], x) <==> Lists(files[..i], x) || x == files[i].path {
      if Lists(files[..i], x) {
        var j :| 0 <= j < i && files[..i][j].path == x;
        assert files[..i + 1][j].path == x;
      }
      assert files[..i + 1][i].path == files[i].path;
    }
  }

  // --- what the checks demand

  ghost predicate Unclaimed(db: Db, path: string) { forall n :: !Owns(db, n, path) }

  ghost predicate PlaceFree(db: Db, t: Tree, e: Entry) {
    if e.kind.DirKind? then e.path in t ==> t[e.path].Dir? else Unclaimed(db, e.path) && e.path !in t
  }

  predicate Matches(e: Entry, n: Node) {
    match e.kind
    case FileKind => n.File?
    case DirKind => n.Dir?
    case LinkKind => n.Link? && n.target == e.target
  }

  /** What is still there of the recorded paths is as recorded. */
  predicate AsRecorded(t: Tree, files: seq<Entry>) { forall e :: e in files && e.path in t ==> Matches(e, t[e.path]) }

  ghost predicate SoleOwner(db: Db, name: string, files: seq<Entry>) {
    forall e :: e in files && !e.kind.DirKind? ==> OnlyOwner(db, name, e.path)
  }

  predicate KindFits(t: Tree, e: Entry) {
    e.path in t ==>
      match e.kind
      case FileKind => t[e.path].File?
      case DirKind => t[e.path].Dir?
      case LinkKind => t[e.path].Link?
  }

  predicate KindsKept(old_: seq<Entry>, new_: seq<Entry>) {
    forall e :: e in old_ && Lists(new_, e.path) ==> ListsAs(new_, e.kind, e.path)
  }

  /** When an installation goes ahead, failing calls apart. */
  ghost predicate InstallGuard(arch: string, t: Tree, db: Db, a: Archive) {
    && FitsArch(a.manifest, arch) && a.manifest.name !in db && DependenciesMet(db, a.manifest)
    && Collectable(a.payload) && a.payload != map[]
    && forall p :: p in a.payload ==> PlaceFree(db, t, EntryOf(p, a.payload[p]))
  }

  // --- records as they are stored

  /** The readable records after a registration. */
  function StoredDb(db: Db, rec: Record): Db {
    var name := rec.manifest.name;
    if ReadBack(rec).Some? then db[name := ReadBack(rec).value] else db - {name}
  }

  /** The records that cannot be read after a registration. */
  function StoredBroken(broken: set<string>, rec: Record): set<string> {
    if ReadBack(rec).Some? then broken - {rec.manifest.name} else broken + {rec.manifest.name}
  }

  /** The payload was registered, in whatever order it was collected. */
  ghost predicate Registered(db: Db, broken: set<string>, a: Archive, db': Db, broken': set<string>) {
    exists files :: Records(files, a.payload) && |files| <= MAX_FILES
      && db' == StoredDb(db, Record(a.manifest, files)) && broken' == StoredBroken(broken, Record(a.manifest, files))
  }

  /** The record of the package says what its payload holds. */
  ghost predicate Faithful(db: Db, a: Archive, db': Db) {
    var name := a.manifest.name;
    && name in db' && db' == db[name := db'[name]] && db'[name].manifest == a.manifest
    && Records(db'[name].files, a.payload) && Ascending(db'[name].files)
  }

  /** A registered package is recorded faithfully exactly when its payload is recordable. */
  lemma FaithfulIffRecordable(db: Db, broken: set<string>, a: Archive, db': Db, broken': set<string>)
    requires ValidArchive(a) && Registered(db, broken, a, db', broken')
    ensures Faithful(db, a, db') <==> Recordable(a.payload)
    ensures Recordable(a.payload) ==> broken' == broken - {a.manifest.name}
  {
    hide ManifestFits, Recordable, FieldNames, SafePaths, WellFormed, WriteRecord;
    var files :| Records(files, a.payload) && |files| <= MAX_FILES
      && db' == StoredDb(db, Record(a.manifest, files)) && broken' == StoredBroken(broken, Record(a.manifest, files));
    RecordedIffRecordable(a.manifest, files, a.payload);
    SortedRecords(files, a.payload);
    if Faithful(db, a, db') {
      assert ReadBack(Record(a.manifest, files)) == Some(db'[a.manifest.name]);
      SameRecords(db'[a.manifest.name].files, Sorted(files), a.payload);
    }
  }

  /** The package of the archive has a record now, which carries its manifest. */
  predicate CarriesManifest(db: Db, a: Archive, db': Db) {
    var name := a.manifest.name;
    name in db' && db' == db[name := db'[name]] && db'[name].manifest == a.manifest
  }

  /** However its payload is listed, the record of the archive can be read. */
  ghost predicate ReadableArchive(a: Archive) {
    forall files :: Records(files, a.payload) && |files| <= MAX_FILES ==> ReadBack(Record(a.manifest, files)).Some?
  }

  lemma RecordableIsReadable(a: Archive)
    requires ValidArchive(a) && Recordable(a.payload)
    ensures ReadableArchive(a)
  {
    hide ManifestFits, Recordable, FieldNames, SafePaths, WellFormed, ReadBack, Records;
    forall files | Records(files, a.payload) && |files| <= MAX_FILES ensures ReadBack(Record(a.manifest, files)).Some? {
      RecordedIffRecordable(a.manifest, files, a.payload);
    }
  }

  lemma ReadableStaysClear(db: Db, a: Archive, db': Db, broken': set<string>)
    requires ReadableArchive(a) && Registered(db, {}, a, db', broken')
    ensures broken' == {}
  {
    hide Records, ReadBack;
  }

  /** A record that can be read carries the manifest, whatever its list of files says. */
  lemma ReadableRecord(db: Db, a: Archive, db': Db, broken': set<string>)
    requires ValidArchive(a) && GoodRecords(db) && Registered(db, {}, a, db', broken') && broken' == {}
    ensures CarriesManifest(db, a, db') && GoodRecords(db')
  {
    hide ManifestFits, FieldNames, SafePaths, WellFormed, WriteRecord, NulFree, Records, ReadBack;
    var files :| Records(files, a.payload) && |files| <= MAX_FILES
      && db' == StoredDb(db, Record(a.manifest, files)) && broken' == StoredBroken({}, Record(a.manifest, files));
    PayloadRegisters(a.manifest, files, a.payload);
    ReadBackShape(Record(a.manifest, files));
    AddRecord(db, db'[a.manifest.name]);
  }

  /** A tree has one ascending list of entries. */
  lemma SameRecords(files: seq<Entry>, others: seq<Entry>, t: Tree)
    requires Records(files, t) && Records(others, t) && Ascending(files) && Ascending(others)
    ensures files == others
  {
    RecordsAreEntries(files, t);
    RecordsAreEntries(others, t);
    AscendingOnce(files, others);
  }

  lemma OnlyItself(rec: Record)
    ensures StoredBroken({}, rec) <= {rec.manifest.name}
  {
  }

  lemma StoreKeepsGood(db: Db, broken: set<string>, a: Archive, files: seq<Entry>)
    requires GoodRecords(db) && db.Keys !! broken && ValidArchive(a) && Records(files, a.payload)
    ensures var rec := Record(a.manifest, files); GoodRecords(StoredDb(db, rec)) && StoredDb(db, rec).Keys !! StoredBroken(broken, rec)
  {
    hide ManifestFits, FieldNames, SafePaths, WellFormed, WriteRecord, NulFree;
    PayloadRegisters(a.manifest, files, a.payload);
    if ReadBack(Record(a.manifest, files)).Some? { ReadBackShape(Record(a.manifest, files)); }
  }

  /** What an installation does: the whole payload in place, and registered. */
  ghost predicate Installed(t: Tree, db: Db, broken: set<string>, a: Archive, t': Tree, db': Db, broken': set<string>) {
    t' == Committed(t, a.payload) && Registered(db, broken, a, db', broken')
  }

  lemma PlacesNotFree(db: Db, t: Tree, files: seq<Entry>, s: Tree)
    requires Records(files, s) && exists e :: e in files && !PlaceFree(db, t, e)
    ensures exists p :: p in s && !PlaceFree(db, t, EntryOf(p, s[p]))
  {
    var e :| e in files && !PlaceFree(db, t, e);
    var i :| 0 <= i < |files| && files[i] == e;
    assert files[i].path in s;
  }

  lemma PlacesFree(db: Db, t: Tree, files: seq<Entry>, s: Tree)
    requires Records(files, s) && forall e :: e in files ==> PlaceFree(db, t, e)
    requires WellFormed(t) && WellFormed(s) && SafePaths(s)
    ensures forall p :: p in s ==> PlaceFree(db, t, EntryOf(p, s[p]))
    ensures Fits(t, s) && forall p :: p in s && !s[p].Dir? ==> p !in t
  {
    forall p | p in s ensures PlaceFree(db, t, EntryOf(p, s[p])) {
      var i :| 0 <= i < |files| && files[i].path == p;
      assert files[i] in files;
    }
    forall p | p in s && p in t ensures s[p].Dir? <==> t[p].Dir? {
      assert PlaceFree(db, t, EntryOf(p, s[p]));
    }
  }

  lemma InstalledBy(t: Tree, db: Db, broken: set<string>, a: Archive, files: seq<Entry>)
    requires Fits(t, a.payload) && Records(files, a.payload) && |files| <= MAX_FILES && ValidArchive(a)
    requires GoodRecords(db) && db.Keys !! broken
    ensures var rec := Record(a.manifest, files); var db', broken' := StoredDb(db, rec), StoredBroken(broken, rec);
      Installed(t, db, broken, a, Committed(t, a.payload), db', broken') && WellFormed(Committed(t, a.payload))
      && GoodRecords(db') && db'.Keys !! broken'
  {
    hide ManifestFits, ReadBack;
    CommitKeepsWellFormed(t, a.payload);
    StoreKeepsGood(db, broken, a, files);
  }

  /** Every record is stored under its package's name, its files in path order. */
  predicate GoodRecords(db: Db) { Named(db) && forall n :: n in db ==> Ascending(db[n].files) }

  lemma AddRecord(db: Db, rec: Record)
    requires GoodRecords(db) && Ascending(rec.files)
    ensures GoodRecords(db[rec.manifest.name := rec])
  {
  }

  /** Nothing of the tree was in the way, so the rollback restores it. */
  lemma NothingReplaced(t: Tree, s: Tree, moved: seq<string>)
    requires forall p :: p in moved ==> p in s && !s[p].Dir?
    requires forall p :: p in s && !s[p].Dir? ==> p !in t
    ensures Without(t, moved) == t
  {
  }

  /** When a removal goes ahead, failing calls apart. */
  predicate RemoveGuard(t: Tree, db: Db, name: string) {
    name in db && NotNeeded(db, db[name].manifest) && AsRecorded(t, db[name].files)
  }

  /** A record's files in the order the removal visits them. */
  function RemovalOrder(files: seq<Entry>): seq<Entry> { Reversed(Sorted(files)) }

  /** What a removal does: the files and links that are visible when their turn
      comes are gone, then the directories nothing else holds, and the record. */
  ghost predicate Removed(t: Tree, db: Db, name: string, access: AccessTest, t': Tree, db': Db)
    requires name in db
  {
    var order := RemovalOrder(db[name].files);
    && db' == db - {name} && NeverStuck(t, order, access)
    && t' == Pruned(Aside(t, order, access), MayPrune(db, order, map[], name))
  }

  lemma OwnFiles(db: Db, name: string)
    requires name in db
    ensures forall e :: e in db[name].files ==> Owns(db, name, e.path)
  {
  }

  lemma DescendingOrder(files: seq<Entry>)
    requires Ascending(files)
    ensures var order := RemovalOrder(files);
      && Descending(order) && Distinct(Paths(order)) && |order| == |files|
      && forall e :: e in order <==> e in files
  {
    AscendingIsDistinct(files);
    SortedProperties(files);
    SortedLength(files);
    var sorted, order := Sorted(files), RemovalOrder(files);
    forall i, j | 0 <= i < j < |order| ensures StrCmp(order[i].path, order[j].path) > 0 {
      StrCmpZero(order[j].path, order[i].path);
    }
    AscendingIsDistinct(order);
    forall e | e in sorted ensures e in order {
      var i :| 0 <= i < |sorted| && sorted[i] == e;
      assert order[|sorted| - 1 - i] == e;
    }
  }

  // --- upgrades

  /** The version is lower, or the same with no higher release. */
  predicate Behind(new_: Manifest, old_: Manifest) {
    || CompareRuns(new_.version, old_.version) < 0
    || (CompareRuns(new_.version, old_.version) == 0 && new_.release <= old_.release)
  }

  predicate Newer(new_: Manifest, old_: Manifest) {
    var c := CompareRuns(new_.version, old_.version);
    c > 0 || (c == 0 && new_.release > old_.release)
  }

  predicate ManifestsAllow(arch: string, db: Db, new_: Manifest)
    requires new_.name in db
  {
    var old_ := db[new_.name].manifest;
    && FitsArch(new_, arch) && Newer(new_, old_)
    && ReplacementsMet(db, old_, new_) && DependentsKept(db, old_, new_) && NoConflict(db, old_, new_)
  }

  lemma AllowedIsNewer(arch: string, db: Db, new_: Manifest)
    requires new_.name in db && ManifestsAllow(arch, db, new_)
    ensures new_.arch == arch || new_.arch == "noarch"
    ensures !Behind(new_, db[new_.name].manifest)
  {
    hide CompareRuns, ReplacementsMet, DependentsKept, NoConflict;
  }

  /** No recorded path comes back as another kind of node. */
  predicate KindsStay(old_: seq<Entry>, s: Tree) {
    forall e :: e in old_ && e.path in s ==> EntryOf(e.path, s[e.path]).kind == e.kind
  }

  /** What the path checks of an upgrade establish. */
  ghost predicate PathsAllow(t: Tree, db: Db, a: Archive)
    requires a.manifest.name in db
  {
    && Collectable(a.payload) && a.payload != map[]
    && (forall p :: p in a.payload ==> KindFits(t, EntryOf(p, a.payload[p])))
    && (forall p :: p in a.payload && !a.payload[p].Dir? ==> Unclaimed(db, p) || Owns(db, a.manifest.name, p))
    && KindsStay(db[a.manifest.name].files, a.payload)
  }

  /** What an upgrade that goes ahead has established. */
  ghost predicate UpgradeAccepted(arch: string, t: Tree, db: Db, a: Archive) {
    var name := a.manifest.name;
    && name in db && ManifestsAllow(arch, db, a.manifest) && AsRecorded(t, db[name].files)
    && PathsAllow(t, db, a)
  }

  /** Together with this, what makes an upgrade go ahead: no path of either list
      recorded by someone else as well. */
  ghost predicate UpgradeUnshared(db: Db, a: Archive) {
    var name := a.manifest.name;
    && (name in db ==> SoleOwner(db, name, db[name].files))
    && (forall p :: p in a.payload && !a.payload[p].Dir? ==> OnlyOwner(db, name, p))
  }

  /** What an upgrade does. */
  ghost predicate Upgraded(t: Tree, db: Db, broken: set<string>, a: Archive, t': Tree, db': Db, broken': set<string>)
    requires a.manifest.name in db
  {
    var name := a.manifest.name;
    var old_ := db[name].files;
    && Registered(db, broken, a, db', broken')
    && t' == Pruned(Committed(t - Leaves(old_), a.payload), MayPrune(db, RemovalOrder(old_), a.payload, name))
  }

  /** Files and links of the tree that the payload would replace although the old
      record does not hold them. */
  ghost function Foreign(t: Tree, s: Tree, old_: seq<Entry>): set<string> {
    set p | p in s && !s[p].Dir? && p in t && p !in Leaves(old_)
  }

  /** `t'` is `t` without some of the paths in `most`. */
  ghost predicate SomeLost(t: Tree, most: set<string>, t': Tree) { exists lost :: lost <= most && t' == t - lost }

  /** What a failed upgrade leaves: all of the tree but foreign files that were
      already replaced, and these are all of them once every file was placed. */
  ghost predicate UpgradeUndone(t: Tree, db: Db, a: Archive, placed: bool, t': Tree) {
    && a.manifest.name in db
    && var foreign := Foreign(t, a.payload, db[a.manifest.name].files);
       SomeLost(t, foreign, t') && (placed ==> t' == t - foreign)
  }

  lemma NothingLost(t: Tree, db: Db, a: Archive)
    ensures a.manifest.name in db ==> UpgradeUndone(t, db, a, false, t)
  {
    assert t - {} == t;
  }

  lemma DropLeavesKeepsWellFormed(t: Tree, lost: set<string>)
    requires WellFormed(t) && forall p :: p in lost && p in t ==> !t[p].Dir?
    ensures WellFormed(t - lost)
  {
    forall p | p in t ensures ParentsPresent(t - lost, p) { assert ParentsPresent(t, p); }
  }

  /** The other packages decide what may be pruned. */
  lemma PruneElsewhere(db: Db, db': Db, files: seq<Entry>, kept: Tree, name: string)
    requires db - {name} == db' - {name}
    ensures MayPrune(db, files, kept, name) == MayPrune(db', files, kept, name)
  {
    forall p ensures OnlyOwner(db, name, p) <==> OnlyOwner(db', name, p) {
      forall n | n != name ensures Owns(db, n, p) <==> Owns(db', n, p) {
        assert n in db <==> n in db - {name};
        assert n in db' <==> n in db' - {name};
        assert n in db ==> db[n] == (db - {name})[n] == (db' - {name})[n] == db'[n];
      }
    }
  }

  /** The exchange, then the cleanup, is an upgrade. */
  lemma UpgradedBy(t: Tree, db: Db, broken: set<string>, a: Archive, files: seq<Entry>, mid: Tree)
    requires a.manifest.name in db && GoodRecords(db) && db.Keys !! broken && ValidArchive(a) && WellFormed(mid)
    requires Records(files, a.payload) && |files| <= MAX_FILES
    requires mid == Committed(t - Leaves(db[a.manifest.name].files), a.payload)
    ensures var rec := Record(a.manifest, files); var db', broken' := StoredDb(db, rec), StoredBroken(broken, rec);
      var order := RemovalOrder(db[a.manifest.name].files);
      var t' := Pruned(mid, MayPrune(db', order, a.payload, a.manifest.name));
      Descending(order) && WellFormed(t') && GoodRecords(db') && db'.Keys !! broken' && Upgraded(t, db, broken, a, t', db', broken')
  {
    hide ManifestFits, ReadBack, MayPrune, FieldNames, SafePaths;
    var rec := Record(a.manifest, files);
    var order := RemovalOrder(db[a.manifest.name].files);
    DescendingOrder(db[a.manifest.name].files);
    PruneKeepsWellFormed(mid, MayPrune(db, order, a.payload, a.manifest.name));
    StoreKeepsGood(db, broken, a, files);
    PruneElsewhere(db, StoredDb(db, rec), order, a.payload, a.manifest.name);
  }

  lemma FitsAfterTaking(t: Tree, mid: Tree, s: Tree)
    requires Fits(t, s) && WellFormed(mid) && forall p :: p in mid ==> p in t && mid[p] == t[p]
    ensures Fits(mid, s)
  {
  }

  lemma LostIsForeign(t: Tree, mid: Tree, s: Tree, old_: seq<Entry>, moved: seq<string>, lost: seq<string>)
    requires Fits(t, s) && mid == Without(t, moved) && (forall p :: p in moved ==> p in Leaves(old_))
    requires forall p :: p in lost ==> p in s && !s[p].Dir?
    requires lost != [] ==> mid == t - Leaves(old_)
    ensures forall p :: p in lost && p in t ==> !t[p].Dir?
    ensures (set p | p in lost && p in mid) <= Foreign(t, s, old_)
    ensures mid == t - Leaves(old_) && (forall p :: p in s && !s[p].Dir? ==> p in lost) ==>
              (set p | p in lost && p in mid) == Foreign(t, s, old_)
  {
  }

  /** What the loop over the new paths checks. */
  ghost predicate EntriesFit(t: Tree, db: Db, name: string, files: seq<Entry>) {
    forall e :: e in files ==> KindFits(t, e) && (e.kind.DirKind? || Unclaimed(db, e.path) || Owns(db, name, e.path))
  }

  lemma RecordsAreEntries(files: seq<Entry>, s: Tree)
    requires Records(files, s)
    ensures forall p :: p in s ==> EntryOf(p, s[p]) in files
    ensures forall e :: e in files ==> e.path in s && e == EntryOf(e.path, s[e.path])
  {
    forall p | p in s ensures EntryOf(p, s[p]) in files {
      var i :| 0 <= i < |files| && files[i].path == p;
      assert files[i] in files;
    }
  }

  /** The path checks, in terms of the payload the list records. */
  lemma UpgradePaths(t: Tree, db: Db, files: seq<Entry>, a: Archive)
    requires a.manifest.name in db && Records(files, a.payload) && WellFormed(t) && ValidArchive(a)
    requires Collectable(a.payload) && a.payload != map[]
    ensures PathsAllow(t, db, a) <==>
            EntriesFit(t, db, a.manifest.name, files) && KindsKept(db[a.manifest.name].files, files)
    ensures EntriesFit(t, db, a.manifest.name, files) ==> Fits(t, a.payload)
    ensures UpgradeUnshared(db, a) ==> SoleOwner(db, a.manifest.name, files)
  {
    hide ManifestFits, FieldNames, KindFits, Collectable, Distinct, ListsAs, Lists;
    var name := a.manifest.name;
    EntriesFitPayload(t, db, name, files, a.payload);
    KindsKeptIffStay(db[name].files, files, a.payload);
    RecordsAreEntries(files, a.payload);
  }

  lemma EntriesFitPayload(t: Tree, db: Db, name: string, files: seq<Entry>, s: Tree)
    requires Records(files, s) && WellFormed(t) && WellFormed(s) && SafePaths(s)
    ensures EntriesFit(t, db, name, files) <==>
      (forall p :: p in s ==> KindFits(t, EntryOf(p, s[p]))) &&
      (forall p :: p in s && !s[p].Dir? ==> Unclaimed(db, p) || Owns(db, name, p))
    ensures EntriesFit(t, db, name, files) ==> Fits(t, s)
  {
    RecordsAreEntries(files, s);
    if EntriesFit(t, db, name, files) {
      forall p | p in s ensures KindFits(t, EntryOf(p, s[p])) && (!s[p].Dir? ==> Unclaimed(db, p) || Owns(db, name, p)) {
        assert EntryOf(p, s[p]) in files;
      }
    }
  }

  lemma KindsKeptIffStay(old_: seq<Entry>, files: seq<Entry>, s: Tree)
    requires Records(files, s)
    ensures KindsKept(old_, files) <==> KindsStay(old_, s)
  {
    forall e | e in old_
      ensures Lists(files, e.path) <==> e.path in s
      ensures e.path in s ==> (ListsAs(files, e.kind, e.path) <==> EntryOf(e.path, s[e.path]).kind == e.kind)
    {
    }
  }
}
