/** Which transactions are accepted, exactly, in a state that a run can reach: in terms of
    the tree, the manifests and who records what, without the program's checks. */
module Acceptance {
  import opened Package
  import opened Database
  import opened UpgradeChecks
  import opened Closure
  import opened Tree
  import opened Collect
  import opened Transaction
  import opened History
  import opened Expressions

  /** There is something to install, at most 4096 nodes, with printable link targets. */
  predicate Presentable(s: Tree) {
    && 0 < |s| <= 4096
    && forall p :: p in s && s[p].Link? ==>
      s[p].target != "" && forall i :: 0 <= i < |s[p].target| ==> ' ' <= s[p].target[i] && s[p].target[i] as int != 127
  }

  lemma PresentableIffCollectable(s: Tree)
    ensures Presentable(s) <==> Collectable(s) && s != map[]
  {
  }

  lemma RecordedIsThere(s: State, n: string, p: string)
    requires FilesInvariant(s) && Owns(s.db, n, p)
    ensures p in s.tree
  {
    var e := EntryOfPath(s.db, n, p);
  }

  lemma PathsAcceptedIff(s: State, payload: Tree)
    requires FilesInvariant(s)
    ensures (forall p :: p in payload ==> PlaceFree(s.db, s.tree, EntryOf(p, payload[p]))) <==>
            (forall p :: p in payload && p in s.tree ==> payload[p].Dir? && s.tree[p].Dir?)
  {
    hide FilesInvariant;
    if forall p :: p in payload ==> PlaceFree(s.db, s.tree, EntryOf(p, payload[p])) {
      forall p | p in payload && p in s.tree ensures payload[p].Dir? && s.tree[p].Dir? {
        assert PlaceFree(s.db, s.tree, EntryOf(p, payload[p]));
      }
    }
    if forall p :: p in payload && p in s.tree ==> payload[p].Dir? && s.tree[p].Dir? {
      forall p | p in payload ensures PlaceFree(s.db, s.tree, EntryOf(p, payload[p])) {
        forall n | Owns(s.db, n, p) ensures p in s.tree { RecordedIsThere(s, n, p); }
      }
    }
  }

  /** An installation is accepted exactly if the package suits the machine and is not
      installed, some installed package accepts each of its dependencies, and its payload
      meets the tree only in directories. */
  lemma InstallAcceptedIff(arch: string, s: State, a: Archive)
    requires FilesInvariant(s)
    ensures InstallGuard(arch, s.tree, s.db, a) <==>
      && (a.manifest.arch == arch || a.manifest.arch == "noarch") && a.manifest.name !in s.db
      && (forall e :: e in a.manifest.depends ==> SomeAccepts(s.db, e))
      && Presentable(a.payload)
      && forall p :: p in a.payload && p in s.tree ==> a.payload[p].Dir? && s.tree[p].Dir?
  {
    hide FilesInvariant, DependenciesMet, SomeAccepts, Collectable, Presentable, PlaceFree;
    AcceptedIsMet(s.db, a.manifest);
    PathsAcceptedIff(s, a.payload);
    PresentableIffCollectable(a.payload);
  }

  /** What is recorded is there as recorded, and no one else records a file of it. */
  lemma RecordedAsIs(s: State, name: string)
    requires FilesInvariant(s) && name in s.db
    ensures AsRecorded(s.tree, s.db[name].files) && SoleOwner(s.db, name, s.db[name].files)
  {
    forall e, n | e in s.db[name].files && !e.kind.DirKind? && Owns(s.db, n, e.path) ensures n == name {
      var f := EntryOfPath(s.db, n, e.path);
      assert n != name ==> NoneClaims(s.db[name].files, s.db[n].files);
    }
  }

  /** A removal is accepted exactly if the dependencies of the other packages are met
      without the package. */
  lemma RemovalAcceptedIff(s: State, name: string)
    requires FilesInvariant(s) && DependenciesInvariant(s) && name in s.db
    ensures RemoveGuard(s.tree, s.db, name) && SoleOwner(s.db, name, s.db[name].files) <==> Closed(s.db - {name})
  {
    hide Closed, NotNeeded, AsRecorded, SoleOwner;
    RecordedAsIs(s, name);
    RemoveKeepsClosedIffNotNeeded(s.db, name);
  }

  predicate SameKind(a: Node, b: Node) { (a.File? && b.File?) || (a.Dir? && b.Dir?) || (a.Link? && b.Link?) }

  /** No other package records the path. */
  ghost predicate NoOneElse(db: Db, name: string, p: string) { forall n :: n in db && n != name ==> !Lists(db[n].files, p) }

  lemma UpgradePathsIff(s: State, a: Archive)
    requires FilesInvariant(s) && a.manifest.name in s.db
    ensures PathsAllow(s.tree, s.db, a) && UpgradeUnshared(s.db, a) <==>
      && Presentable(a.payload)
      && (forall p :: p in a.payload && p in s.tree ==> SameKind(a.payload[p], s.tree[p]))
      && (forall p :: p in a.payload && !a.payload[p].Dir? ==> NoOneElse(s.db, a.manifest.name, p))
  {
    var name, t := a.manifest.name, a.payload;
    PresentableIffCollectable(t);
    RecordedAsIs(s, name);
    hide Collectable, Presentable, SoleOwner, FilesInvariant, AsRecorded, KindFits, OnlyOwner, NoOneElse, Lists;
    forall p | p in t ensures KindFits(s.tree, EntryOf(p, t[p])) <==> (p in s.tree ==> SameKind(t[p], s.tree[p])) {
      KindFitsIs(s.tree, p, t[p]);
    }
    forall p ensures OnlyOwner(s.db, name, p) <==> NoOneElse(s.db, name, p) { OwnersAre(s.db, name, p); }
    if (forall p :: p in t && p in s.tree ==> SameKind(t[p], s.tree[p])) {
      forall e | e in s.db[name].files && e.path in t ensures EntryOf(e.path, t[e.path]).kind == e.kind {
        RecordedKind(s, name, e);
      }
    }
    if (forall p :: p in t && !t[p].Dir? ==> NoOneElse(s.db, name, p)) {
      forall p | p in t && !t[p].Dir? ensures Unclaimed(s.db, p) || Owns(s.db, name, p) { OneOwner(s.db, name, p); }
    }
  }

  lemma KindFitsIs(t: Tree, p: string, n: Node)
    ensures KindFits(t, EntryOf(p, n)) <==> (p in t ==> SameKind(n, t[p]))
  {
  }

  lemma OneOwner(db: Db, name: string, p: string)
    requires NoOneElse(db, name, p)
    ensures Unclaimed(db, p) || Owns(db, name, p)
  {
  }

  lemma OwnersAre(db: Db, name: string, p: string)
    ensures OnlyOwner(db, name, p) <==> NoOneElse(db, name, p)
  {
    if OnlyOwner(db, name, p) {
      forall n | n in db && n != name ensures !Lists(db[n].files, p) { assert Owns(db, n, p) ==> n == name; }
    }
  }

  /** A recorded path is there, as the kind of node it is recorded as, a link with the target
      it is recorded with. */
  lemma RecordedKind(s: State, name: string, e: Entry)
    requires FilesInvariant(s) && name in s.db && e in s.db[name].files
    ensures e.path in s.tree
    ensures match e.kind
            case FileKind => s.tree[e.path].File?
            case DirKind => s.tree[e.path].Dir?
            case LinkKind => s.tree[e.path] == Link(e.target)
  {
  }

  /** An upgrade is accepted exactly if the package suits the machine, is installed and not
      behind, the manifests allow it, and its payload has the kind of node that is there
      wherever one is, and no file or link that another package records. */
  lemma UpgradeAcceptedIff(arch: string, s: State, a: Archive)
    requires FilesInvariant(s)
    ensures UpgradeAccepted(arch, s.tree, s.db, a) && UpgradeUnshared(s.db, a) <==>
      && (a.manifest.arch == arch || a.manifest.arch == "noarch")
      && a.manifest.name in s.db && !Behind(a.manifest, s.db[a.manifest.name].manifest)
      && (var old_ := s.db[a.manifest.name].manifest;
          ReplacementsMet(s.db, old_, a.manifest) && DependentsKept(s.db, old_, a.manifest) && NoConflict(s.db, old_, a.manifest))
      && Presentable(a.payload)
      && (forall p :: p in a.payload && p in s.tree ==> SameKind(a.payload[p], s.tree[p]))
      && (forall p :: p in a.payload && !a.payload[p].Dir? ==> NoOneElse(s.db, a.manifest.name, p))
  {
    hide FilesInvariant, Presentable, PathsAllow, UpgradeUnshared, ReplacementsMet, DependentsKept, NoConflict, NoOneElse, SameKind, AsRecorded;
    if a.manifest.name in s.db {
      UpgradePathsIff(s, a);
      RecordedAsIs(s, a.manifest.name);
      NewerIffNotBehind(a.manifest, s.db[a.manifest.name].manifest);
    }
  }

  lemma NewerIffNotBehind(a: Manifest, b: Manifest)
    ensures Newer(a, b) <==> !Behind(a, b)
  {
  }

  // --- in any state

  /** A path that some package records is refused to a file or link of another, even where
      it is gone from the tree. */
  lemma ClaimedIsRefused(arch: string, t: Tree, db: Db, a: Archive, n: string, p: string)
    requires n in db && Lists(db[n].files, p) && p in a.payload && !a.payload[p].Dir?
    ensures !InstallGuard(arch, t, db, a)
    ensures a.manifest.name in db && !Lists(db[a.manifest.name].files, p) ==> !PathsAllow(t, db, a)
  {
    assert Owns(db, n, p);
    assert !PlaceFree(db, t, EntryOf(p, a.payload[p]));
  }

  predicate NodeIs(e: Entry, n: Node) {
    match e.kind
    case FileKind => n.File?
    case DirKind => n.Dir?
    case LinkKind => n == Link(e.target)
  }

  /** What is gone of the recorded paths does not stop a removal; what has become another
      kind of node, or a link elsewhere, does. */
  lemma GoneDoesNotMatter(t: Tree, files: seq<Entry>)
    ensures AsRecorded(t, files) <==> forall e :: e in files && e.path in t ==> NodeIs(e, t[e.path])
  {
  }
}
