/** The database of installed packages and the scans over it. A scan visits the
    records in an arbitrary order, as readdir does, and gives up at a record that
    cannot be read: `db` holds the records that can be, `broken` names the others. */
module Database {
  import opened Package

  datatype Kind = FileKind | DirKind | LinkKind

  /** struct pux_db_file_entry; `target` is "" unless the entry is a link. */
  datatype Entry = Entry(kind: Kind, path: string, target: string)

  datatype Record = Record(manifest: Manifest, files: seq<Entry>)

  type Db = map<string, Record>

  // --- dependencies

  predicate Satisfied(db: Db, r: Requirement) { exists n :: n in db && DbMatches(db[n].manifest, r) }

  predicate SatisfiedWithout(db: Db, r: Requirement, gone: string) {
    exists n :: n in db && n != gone && DbMatches(db[n].manifest, r)
  }

  /** Every dependency of `m` reads as an expression some installed package satisfies. */
  predicate DependenciesMet(db: Db, m: Manifest) {
    forall e :: e in m.depends ==> DbParse(e).Some? && Satisfied(db, DbParse(e).value)
  }

  /** The promise to installed packages: all their dependencies are met. */
  predicate Closed(db: Db) { forall n :: n in db ==> DependenciesMet(db, db[n].manifest) }

  /** No installed package but the target itself rests on the target alone. */
  predicate NotNeeded(db: Db, target: Manifest) {
    forall n, e :: n in db && n != target.name && e in db[n].manifest.depends ==>
      && DbParse(e).Some?
      && (DbMatches(target, DbParse(e).value) ==> SatisfiedWithout(db, DbParse(e).value, target.name))
  }

  /** pux_db_dependency_satisfied; None when the expression does not parse, or when a
      record that cannot be read comes before one that satisfies it. */
  method DependencySatisfied(db: Db, broken: set<string>, e: string) returns (satisfied: Option<bool>)
    ensures satisfied.None? ==> DbParse(e).None? || broken != {}
    ensures satisfied.Some? ==> DbParse(e).Some? && (satisfied.value <==> Satisfied(db, DbParse(e).value))
    ensures satisfied == Some(false) ==> broken == {}
  {
    var r := DbParse(e);
    if r.None? { return None; }
    var entries, found := db.Keys + broken, false;
    while entries != {} && !found
      invariant entries <= db.Keys + broken
      invariant found ==> Satisfied(db, r.value)
      invariant !found ==> broken <= entries
      invariant !found ==> forall n :: n in db && n !in entries ==> !DbMatches(db[n].manifest, r.value)
      decreases entries
    {
      var n :| n in entries;
      entries := entries - {n};
      if n in broken { return None; }
      found := DbMatches(db[n].manifest, r.value);
    }
    satisfied := Some(found);
  }

  /** dependency_check of an installation. */
  method DependencyCheck(db: Db, broken: set<string>, m: Manifest) returns (ok: bool)
    ensures ok ==> DependenciesMet(db, m)
    ensures !ok ==> !DependenciesMet(db, m) || broken != {}
  {
    for i := 0 to |m.depends|
      invariant forall j :: 0 <= j < i ==> DbParse(m.depends[j]).Some? && Satisfied(db, DbParse(m.depends[j]).value)
    {
      var satisfied := DependencySatisfied(db, broken, m.depends[i]);
      if satisfied != Some(true) {
        assert m.depends[i] in m.depends;
        return false;
      }
    }
    ok := true;
  }

  /** The nested scan of pux_db_find_reverse_dependency: another record that
      satisfies the requirement. */
  method SatisfiedByOther(db: Db, broken: set<string>, r: Requirement, gone: string) returns (other: Option<bool>)
    ensures other.Some? ==> (other.value <==> SatisfiedWithout(db, r, gone))
    ensures other.None? ==> !(broken <= {gone})
  {
    var entries := db.Keys + broken;
    var found := false;
    while entries != {} && !found
      invariant entries <= db.Keys + broken
      invariant found ==> SatisfiedWithout(db, r, gone)
      invariant !found ==> forall n :: n in db && n !in entries && n != gone ==> !DbMatches(db[n].manifest, r)
      decreases entries
    {
      var n :| n in entries;
      entries := entries - {n};
      if n != gone {
        if n in broken { return None; }
        found := DbMatches(db[n].manifest, r);
      }
    }
    other := Some(found);
  }

  datatype Verdict = Clear | RequiredBy(name: string) | Malformed

  predicate RestsOn(db: Db, n: string, target: Manifest) {
    && n in db && n != target.name
    && exists e :: e in db[n].manifest.depends && DbParse(e).Some? && DbMatches(target, DbParse(e).value)
                   && !SatisfiedWithout(db, DbParse(e).value, target.name)
  }

  /** pux_db_find_reverse_dependency. */
  method FindReverseDependency(db: Db, broken: set<string>, target: Manifest) returns (v: Verdict)
    ensures v.Clear? <==> NotNeeded(db, target) && broken <= {target.name}
    ensures v.RequiredBy? ==> RestsOn(db, v.name, target)
  {
    var entries := db.Keys + broken;
    while entries != {}
      invariant entries <= db.Keys + broken
      invariant forall n :: n in broken && n !in entries ==> n == target.name
      invariant forall n, e :: n in db && n !in entries && n != target.name && e in db[n].manifest.depends ==>
        && DbParse(e).Some?
        && (DbMatches(target, DbParse(e).value) ==> SatisfiedWithout(db, DbParse(e).value, target.name))
      decreases entries
    {
      var n :| n in entries;
      entries := entries - {n};
      if n != target.name {
        if n in broken { return Malformed; }
        var depends := db[n].manifest.depends;
        for i := 0 to |depends|
          invariant forall j :: 0 <= j < i ==>
            && DbParse(depends[j]).Some?
            && (DbMatches(target, DbParse(depends[j]).value) ==>
                  SatisfiedWithout(db, DbParse(depends[j]).value, target.name))
        {
          var r := DbParse(depends[i]);
          assert depends[i] in depends;
          if r.None? { return Malformed; }
          if DbMatches(target, r.value) {
            var other := SatisfiedByOther(db, broken, r.value, target.name);
            if other.None? { return Malformed; }
            if !other.value { return RequiredBy(n); }
          }
        }
      }
    }
    v := Clear;
  }

  // --- ownership

  predicate Lists(files: seq<Entry>, path: string) { exists i :: 0 <= i < |files| && files[i].path == path }

  predicate Owns(db: Db, n: string, path: string) { n in db && Lists(db[n].files, path) }

  datatype Owner = OwnedBy(name: string) | Unowned | Unreadable

  /** db_find_owner_excluding: the first record found to list the path. */
  method FindOwner(db: Db, broken: set<string>, path: string, excluded: Option<string>) returns (owner: Owner)
    ensures owner.OwnedBy? ==> Owns(db, owner.name, path) && excluded != Some(owner.name)
    ensures owner.Unowned? ==> forall n :: Owns(db, n, path) || n in broken ==> excluded == Some(n)
    ensures owner.Unreadable? ==> exists n :: n in broken && excluded != Some(n)
  {
    var entries := db.Keys + broken;
    while entries != {}
      invariant entries <= db.Keys + broken
      invariant forall n :: n in broken && n !in entries ==> excluded == Some(n)
      invariant forall n :: n in db && n !in entries && Owns(db, n, path) ==> excluded == Some(n)
      decreases entries
    {
      var n :| n in entries;
      entries := entries - {n};
      if excluded != Some(n) {
        if n in broken { return Unreadable; }
        var files := db[n].files;
        for i := 0 to |files|
          invariant forall j :: 0 <= j < i ==> files[j].path != path
        {
          if files[i].path == path { return OwnedBy(n); }
        }
      }
    }
    owner := Unowned;
  }
}
