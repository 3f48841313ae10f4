/** Installing a resolved plan, package by package. */
module InstallPlan {
  import opened Package
  import opened Database
  import opened Tree
  import opened Staging
  import opened Collect
  import opened Stored
  import opened Transaction
  import opened Effects
  import opened Search
  import opened Solutions
  import opened Plans

  /** manifests_match_exact. */
  predicate SameIdentity(l: Manifest, r: Manifest) {
    l.name == r.name && l.version == r.version && l.release == r.release && l.arch == r.arch
  }

  predicate AlreadyInstalled(db: Db, m: Manifest) { m.name in db && SameIdentity(m, db[m.name].manifest) }

  /** A package of that name is installed that differs in version, release or
      architecture. */
  predicate OtherInstalled(db: Db, m: Manifest) {
    m.name in db && var i := db[m.name].manifest; i.name != m.name || i.version != m.version || i.release != m.release || i.arch != m.arch
  }

  /** Each dependency of each archive is met by an archive before it. */
  predicate DependencyFirst(archives: seq<Archive>) {
    forall i, e :: 0 <= i < |archives| && e in archives[i].manifest.depends ==>
      DbParse(e).Some? && exists j :: 0 <= j < i && DbMatches(archives[j].manifest, DbParse(e).value)
  }

  predicate DistinctNames(archives: seq<Archive>) {
    forall i, j :: 0 <= i < j < |archives| ==> archives[i].manifest.name != archives[j].manifest.name
  }

  /** Records that look like an archive of the plan carry its manifest. */
  predicate RecordsAgree(db: Db, archives: seq<Archive>) {
    forall a :: a in archives && AlreadyInstalled(db, a.manifest) ==> db[a.manifest.name].manifest == a.manifest
  }

  /** The archives are those of the plan, and the index told the truth about them. */
  predicate ArchivesOf(p: Problem, plan: seq<nat>, archives: seq<Archive>)
    requires InRange(p, plan)
  {
    |archives| == |plan| && forall i :: 0 <= i < |plan| ==> archives[i].manifest == ManifestOf(p, plan[i])
  }

  /** What the resolver matched, the database accepts: the plan of an acyclic
      catalogue suits the installer. */
  lemma PlanSuitsInstaller(p: Problem, name: string, plan: seq<nat>, archives: seq<Archive>)
    requires Planned(p, Everything, name) == Some(plan) && Acyclic(p) && ArchivesOf(p, plan, archives)
    ensures DependencyFirst(archives) && DistinctNames(archives)
    ensures forall a :: a in archives ==> FitsArch(a.manifest, p.arch)
  {
    hide Acyclic, Resolve, PassesConflicts, Supported, Apart;
    PlanIsClosed(p, name, plan);
    AcyclicPlanIsOrdered(p, name, plan);
    ResolveKeepsCoherent(p, Everything, Root(name), Start);
    forall i: nat, e | i < |archives| && e in archives[i].manifest.depends
      ensures DbParse(e).Some? && exists j :: 0 <= j < i && DbMatches(archives[j].manifest, DbParse(e).value)
    {
      assert e in DependsOf(p, plan[i]);
      var j :| 0 <= j < i && Meets(p, plan[j], e);
      ResolverParseIsDbParse(e, ManifestOf(p, plan[j]), p.arch);
      assert DbMatches(archives[j].manifest, DbParse(e).value);
    }
  }

  /** The first `n` archives are installed, with their own manifests. */
  predicate InstalledUpTo(db: Db, archives: seq<Archive>, n: nat)
    requires n <= |archives|
  {
    forall j :: 0 <= j < n ==> archives[j].manifest.name in db && db[archives[j].manifest.name].manifest == archives[j].manifest
  }

  lemma EarlierMeet(db: Db, archives: seq<Archive>, i: nat)
    requires i < |archives| && DependencyFirst(archives) && InstalledUpTo(db, archives, i)
    ensures DependenciesMet(db, archives[i].manifest)
  {
    forall e | e in archives[i].manifest.depends ensures DbParse(e).Some? && Satisfied(db, DbParse(e).value) {
      var j :| 0 <= j < i && DbMatches(archives[j].manifest, DbParse(e).value);
      assert archives[j].manifest.name in db;
    }
  }

  datatype PlanOutcome =
    | AllInstalled
    | OtherVersion(at: nat)              // the package is installed at another version
    | Stopped(at: nat, outcome: Outcome)

  /** What the archive holds can be collected and put in place. */
  ghost predicate Placeable(t: Tree, db: Db, a: Archive) {
    Collectable(a.payload) && a.payload != map[] && forall p :: p in a.payload ==> PlaceFree(db, t, EntryOf(p, a.payload[p]))
  }

  /** All records are readable, and those of the archives will be. */
  ghost predicate Clean(broken: set<string>, archives: seq<Archive>) {
    broken == {} && forall a :: a in archives ==> ReadableArchive(a)
  }

  /** The plan that a resolver with full rollback computes for an acyclic catalogue. */
  ghost predicate Suited(arch: string, db: Db, broken: set<string>, archives: seq<Archive>) {
    && Clean(broken, archives)
    && DependencyFirst(archives) && DistinctNames(archives) && RecordsAgree(db, archives)
    && forall a :: a in archives ==> FitsArch(a.manifest, arch)
  }

  /** The pass over the plan before anything changes. */
  method FindOtherVersion(db: Db, archives: seq<Archive>) returns (at: nat)
    ensures at <= |archives|
    ensures forall i :: 0 <= i < at ==> archives[i].manifest.name in db ==> AlreadyInstalled(db, archives[i].manifest)
    ensures at < |archives| ==> archives[at].manifest.name in db && !AlreadyInstalled(db, archives[at].manifest)
  {
    at := 0;
    while at < |archives|
      invariant at <= |archives|
      invariant forall i :: 0 <= i < at ==> archives[i].manifest.name in db ==> AlreadyInstalled(db, archives[i].manifest)
    {
      var m := archives[at].manifest;
      if m.name in db && !SameIdentity(m, db[m.name].manifest) { return; }
      at := at + 1;
    }
  }

  /** The database after the first `i` archives of the plan. */
  ghost predicate Reached(start: Db, db: Db, archives: seq<Archive>, i: nat)
    requires i <= |archives|
  {
    && (forall n :: n in start ==> n in db && db[n] == start[n])
    && (forall n :: n in db && n !in start ==> exists j :: 0 <= j < i && archives[j].manifest.name == n)
    && (forall j :: 0 <= j < i ==> AlreadyInstalled(db, archives[j].manifest))
  }

  lemma ReachedNothing(db: Db, archives: seq<Archive>)
    ensures Reached(db, db, archives, 0) && InstalledUpTo(db, archives, 0)
  {
  }

  lemma ReachedEnd(start: Db, db: Db, archives: seq<Archive>, i: nat)
    requires i <= |archives| && Reached(start, db, archives, i)
    ensures forall n :: n in start ==> n in db && db[n] == start[n]
    ensures forall j :: 0 <= j < i ==> AlreadyInstalled(db, archives[j].manifest)
  {
  }

  lemma ReachedSkipping(start: Db, db: Db, archives: seq<Archive>, i: nat)
    requires i < |archives| && Reached(start, db, archives, i) && AlreadyInstalled(db, archives[i].manifest)
    ensures Reached(start, db, archives, i + 1)
    ensures InstalledUpTo(db, archives, i) && db[archives[i].manifest.name].manifest == archives[i].manifest ==>
      InstalledUpTo(db, archives, i + 1)
  {
  }

  lemma ReachedInstalling(start: Db, db: Db, archives: seq<Archive>, i: nat, rec: Record)
    requires i < |archives| && Reached(start, db, archives, i)
    requires rec.manifest == archives[i].manifest && rec.manifest.name !in db
    ensures Reached(start, db[rec.manifest.name := rec], archives, i + 1)
    ensures InstalledUpTo(db, archives, i) ==> InstalledUpTo(db[rec.manifest.name := rec], archives, i + 1)
  {
  }

  /** A package that is skipped carries the manifest of its archive. */
  lemma KeepsOwnManifest(arch: string, start: Db, db: Db, archives: seq<Archive>, i: nat)
    requires Suited(arch, start, {}, archives) && i < |archives| && Reached(start, db, archives, i)
    requires AlreadyInstalled(db, archives[i].manifest)
    ensures db[archives[i].manifest.name].manifest == archives[i].manifest
  {
    assert archives[i] in archives;
  }

  /** The one check left that can refuse. */
  lemma OnlyPathsRefuse(arch: string, start: Db, t: Tree, db: Db, archives: seq<Archive>, i: nat)
    requires Suited(arch, start, {}, archives) && i < |archives| && Reached(start, db, archives, i)
    requires archives[i].manifest.name in start ==> AlreadyInstalled(start, archives[i].manifest)
    requires !AlreadyInstalled(db, archives[i].manifest) && InstalledUpTo(db, archives, i)
    ensures DependenciesMet(db, archives[i].manifest) && archives[i].manifest.name !in db
    ensures InstallGuard(arch, t, db, archives[i]) <==> Placeable(t, db, archives[i])
  {
    EarlierMeet(db, archives, i);
    assert archives[i] in archives;
  }

  ghost predicate KeepsAll(start: Db, db: Db) { forall n :: n in start ==> n in db && db[n] == start[n] }

  lemma InstallationKeeps(arch: string, t: Tree, db: Db, broken: set<string>, a: Archive, t': Tree, db': Db, broken': set<string>)
    requires ValidArchive(a) && GoodRecords(db)
    requires InstallGuard(arch, t, db, a) && Installed(t, db, broken, a, t', db', broken')
    ensures KeepsAll(db, db') && a.manifest.name !in db
    ensures ReadableArchive(a) && broken == {} ==> CarriesManifest(db, a, db') && broken' == {}
  {
    hide ValidArchive, ReadableArchive, CarriesManifest, Registered, DependenciesMet, PlaceFree, Collectable, GoodRecords;
    NewNameKeeps(db, broken, a, db', broken');
    if ReadableArchive(a) && broken == {} {
      ReadableStaysClear(db, a, db', broken');
      ReadableRecord(db, a, db', broken');
    }
  }

  lemma NewNameKeeps(db: Db, broken: set<string>, a: Archive, db': Db, broken': set<string>)
    requires Registered(db, broken, a, db', broken') && a.manifest.name !in db
    ensures KeepsAll(db, db')
  {
    hide Records, ReadBack;
  }

  lemma ValidRecords(e: Engine)
    requires e.Valid()
    ensures GoodRecords(e.db)
  {
  }

  /** One package of the plan that is not installed yet: a step of the loop. */
  method InstallNext(e: Engine, a: Archive, forwardCalls: nat) returns (outcome: Outcome)
    requires e.Valid() && ValidArchive(a)
    modifies e
    ensures e.Valid() && KeepsAll(old(e.db), e.db)
    ensures forall p :: p in old(e.tree) ==> p in e.tree && e.tree[p] == old(e.tree)[p]
    ensures !outcome.Done? ==> e.tree == old(e.tree) && e.db == old(e.db) && e.broken == old(e.broken)
    ensures outcome.Refused? ==> !InstallGuard(e.arch, old(e.tree), old(e.db), a) || old(e.broken) != {}
    ensures !outcome.Refused? ==> outcome == CommitOutcome(forwardCalls, 1 + CommitCalls(old(e.tree), a.payload))
    ensures outcome.Done? ==> a.manifest.name !in old(e.db) && a.manifest.name in e.db.Keys + e.broken && StillThere(old(e.db), old(e.broken), e.db, e.broken)
    ensures outcome.Done? && ReadableArchive(a) && old(e.broken) == {} ==> CarriesManifest(old(e.db), a, e.db) && e.broken == {}
  {
    hide ValidArchive, InstallGuard, Installed, ReadableArchive, CarriesManifest, CommitOutcome, CommitCalls, StillThere;
    ghost var tree, before, broken := e.tree, e.db, e.broken;
    assert GoodRecords(before) by { ValidRecords(e); }
    outcome := e.Install(a, forwardCalls);
    if outcome.Done? {
      InstallOnlyAdds(e.arch, tree, before, broken, a, e.tree, e.db, e.broken);
      InstallationKeeps(e.arch, tree, before, broken, a, e.tree, e.db, e.broken);
      InstallationRegisters(tree, before, broken, a, e.tree, e.db, e.broken);
    }
  }

  /** What was recorded, readably or not, is recorded still. */
  predicate StillThere(db: Db, broken: set<string>, db': Db, broken': set<string>) { db.Keys + broken <= db'.Keys + broken' }

  lemma InstallationRegisters(t: Tree, db: Db, broken: set<string>, a: Archive, t': Tree, db': Db, broken': set<string>)
    requires Installed(t, db, broken, a, t', db', broken')
    ensures a.manifest.name in db'.Keys + broken' && StillThere(db, broken, db', broken')
  {
    hide Records, ReadBack, Committed;
    var files :| Records(files, a.payload) && |files| <= MAX_FILES
      && db' == StoredDb(db, Record(a.manifest, files)) && broken' == StoredBroken(broken, Record(a.manifest, files));
  }

  /** The plan loop of install_from_repository_policy. On a suited plan no
      dependency check fails, and the only refusal left is about paths. */
  method InstallAll(e: Engine, archives: seq<Archive>, forwardCalls: seq<nat>) returns (r: PlanOutcome)
    requires e.Valid() && |forwardCalls| == |archives| && forall a :: a in archives ==> ValidArchive(a)
    modifies e
    ensures e.Valid()
    ensures forall n :: n in old(e.db) ==> n in e.db && e.db[n] == old(e.db)[n]
    ensures forall p :: p in old(e.tree) ==> p in e.tree && e.tree[p] == old(e.tree)[p]
    ensures r.AllInstalled? && Clean(old(e.broken), archives) ==>
      e.broken == {} && forall j :: 0 <= j < |archives| ==> AlreadyInstalled(e.db, archives[j].manifest)
    ensures r.OtherVersion? <==> exists i :: 0 <= i < |archives| && OtherInstalled(old(e.db), archives[i].manifest)
    ensures r.OtherVersion? ==> r.at < |archives| && OtherInstalled(old(e.db), archives[r.at].manifest)
    ensures r.OtherVersion? ==> e.tree == old(e.tree) && e.db == old(e.db) && e.broken == old(e.broken)
    ensures r.Stopped? ==> r.at < |archives| && !r.outcome.Done?
    ensures r.Stopped? ==> !AlreadyInstalled(e.db, archives[r.at].manifest)
    ensures r.Stopped? && !r.outcome.Refused? ==>
      r.outcome == CommitOutcome(forwardCalls[r.at], 1 + CommitCalls(e.tree, archives[r.at].payload))
    ensures r.Stopped? && r.outcome.Refused? && Clean(old(e.broken), archives) ==>
      !InstallGuard(e.arch, e.tree, e.db, archives[r.at])
    ensures r.AllInstalled? ==> RecordedUpTo(e.db, e.broken, archives, |archives|)
    ensures r.Stopped? && Clean(old(e.broken), archives) ==>
      e.broken == {} && forall j :: 0 <= j < r.at ==> AlreadyInstalled(e.db, archives[j].manifest)
    ensures r.Stopped? && Suited(e.arch, old(e.db), old(e.broken), archives) ==>
      && DependenciesMet(e.db, archives[r.at].manifest)
      && (r.outcome.Refused? ==> !Placeable(e.tree, e.db, archives[r.at]))
  {
    hide Engine.Valid, ValidArchive, InstallGuard, Placeable, InstalledUpTo, Reached, DependenciesMet, CarriesManifest, CommitOutcome,
      ReadableArchive, DependencyFirst, DistinctNames, RecordsAgree, CommitCalls, StillThere;
    var other := FindOtherVersion(e.db, archives);
    if other < |archives| {
      assert OtherInstalled(e.db, archives[other].manifest);
      return OtherVersion(other);
    }
    ghost var nodes := e.tree;
    ghost var start, clean, suited := e.db, Clean(e.broken, archives), Suited(e.arch, e.db, e.broken, archives);
    ReachedNothing(start, archives);
    for i := 0 to |archives|
      invariant e.Valid() && KeepsAll(start, e.db)
      invariant RecordedUpTo(e.db, e.broken, archives, i)
      invariant forall p :: p in nodes ==> p in e.tree && e.tree[p] == nodes[p]
      invariant clean ==> e.broken == {} && Reached(start, e.db, archives, i)
      invariant suited ==> clean && InstalledUpTo(e.db, archives, i)
    {
      var a := archives[i];
      if a.manifest.name in e.db && SameIdentity(a.manifest, e.db[a.manifest.name].manifest) {
        if clean { ReachedSkipping(start, e.db, archives, i); }
        if suited { KeepsOwnManifest(e.arch, start, e.db, archives, i); }
        continue;
      }
      if suited { OnlyPathsRefuse(e.arch, start, e.tree, e.db, archives, i); }
      ghost var before, broken := e.db, e.broken;
      var outcome := InstallNext(e, a, forwardCalls[i]);
      if !outcome.Done? {
        if clean { ReachedEnd(start, e.db, archives, i); }
        return Stopped(i, outcome);
      }
      RecordedNext(before, broken, e.db, e.broken, archives, i);
      if clean { ReachedCarrying(start, before, e.db, archives, i); }
    }
    if clean { ReachedEnd(start, e.db, archives, |archives|); }
    r := AllInstalled;
  }

  predicate RecordedUpTo(db: Db, broken: set<string>, archives: seq<Archive>, n: nat)
    requires n <= |archives|
  {
    forall j :: 0 <= j < n ==> archives[j].manifest.name in db.Keys + broken
  }

  lemma RecordedNext(db: Db, broken: set<string>, db': Db, broken': set<string>, archives: seq<Archive>, i: nat)
    requires i < |archives| && RecordedUpTo(db, broken, archives, i) && StillThere(db, broken, db', broken')
    requires archives[i].manifest.name in db'.Keys + broken'
    ensures RecordedUpTo(db', broken', archives, i + 1)
  {
  }

  lemma ReachedCarrying(start: Db, db: Db, db': Db, archives: seq<Archive>, i: nat)
    requires i < |archives| && Reached(start, db, archives, i) && CarriesManifest(db, archives[i], db') && archives[i].manifest.name !in db
    ensures Reached(start, db', archives, i + 1)
    ensures InstalledUpTo(db, archives, i) ==> InstalledUpTo(db', archives, i + 1)
  {
    hide Reached, InstalledUpTo;
    ReachedInstalling(start, db, archives, i, db'[archives[i].manifest.name]);
  }
}
