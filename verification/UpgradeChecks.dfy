/** The three checks an upgrade makes on manifests before it touches any file. */
module UpgradeChecks {
  import opened Package
  import opened Database

  /** What dependency_check_for_replacement demands of one dependency. */
  predicate ReplacementMet(db: Db, old_: Manifest, new_: Manifest, e: string) {
    UpgradeParse(e).Some? &&
    var r := UpgradeParse(e).value;
    || UpgradeMatches(new_, r)
    || (if r.op.Any? && HasCapability(old_, r.name) then HasCapability(new_, r.name)
        else r.name != new_.name && DbParse(e).Some? && Satisfied(db, DbParse(e).value))
  }

  predicate ReplacementsMet(db: Db, old_: Manifest, new_: Manifest) {
    forall e :: e in new_.depends ==> ReplacementMet(db, old_, new_, e)
  }

  /** What upgrade_plan_dependent_check demands of one dependency of another package. */
  predicate DependentKept(old_: Manifest, new_: Manifest, e: string) {
    UpgradeParse(e).Some? &&
    (HasCapability(old_, UpgradeParse(e).value.name) ==> UpgradeMatches(new_, UpgradeParse(e).value))
  }

  predicate DependentsKept(db: Db, old_: Manifest, new_: Manifest) {
    forall n, e :: n in db && n != old_.name && e in db[n].manifest.depends ==> DependentKept(old_, new_, e)
  }

  predicate Unversioned(conflict: string) { OperatorAt(conflict) == |conflict| }

  /** What upgrade_conflict_check demands of another installed package. */
  predicate Compatible(new_: Manifest, installed: Manifest) {
    && (forall c :: c in new_.conflicts ==> !HasCapability(installed, c))
    && (forall c :: c in installed.conflicts ==> Unversioned(c) && !HasCapability(new_, c))
  }

  predicate NoConflict(db: Db, old_: Manifest, new_: Manifest) {
    && (forall c :: c in new_.conflicts ==> Unversioned(c))
    && (forall n :: n in db && n != old_.name ==> Compatible(new_, db[n].manifest))
  }

  method ReplacementCheck(db: Db, broken: set<string>, old_: Manifest, new_: Manifest) returns (ok: bool)
    ensures ok ==> ReplacementsMet(db, old_, new_)
    ensures !ok ==> !ReplacementsMet(db, old_, new_) || broken != {}
  {
    for i := 0 to |new_.depends|
      invariant forall j :: 0 <= j < i ==> ReplacementMet(db, old_, new_, new_.depends[j])
    {
      var e := new_.depends[i];
      assert e in new_.depends;
      var parsed := UpgradeParse(e);
      if parsed.None? { return false; }
      var r := parsed.value;
      var satisfied := false;
      if UpgradeMatches(new_, r) {
        satisfied := true;
      } else if r.op.Any? && HasCapability(old_, r.name) {
        satisfied := HasCapability(new_, r.name);
      } else if r.name != new_.name {
        var found := DependencySatisfied(db, broken, e);
        if found.None? { return false; }
        satisfied := found.value;
      }
      if !satisfied { return false; }
    }
    ok := true;
  }

  method DependentCheck(db: Db, broken: set<string>, old_: Manifest, new_: Manifest) returns (ok: bool)
    ensures ok <==> DependentsKept(db, old_, new_) && broken <= {old_.name}
  {
    var entries := db.Keys + broken;
    while entries != {}
      invariant entries <= db.Keys + broken
      invariant forall n :: n in broken && n !in entries ==> n == old_.name
      invariant forall n, e :: n in db && n !in entries && n != old_.name && e in db[n].manifest.depends ==>
        DependentKept(old_, new_, e)
      decreases entries
    {
      var n :| n in entries;
      entries := entries - {n};
      if n != old_.name {
        if n in broken { return false; }
        var depends := db[n].manifest.depends;
        for i := 0 to |depends|
          invariant forall j :: 0 <= j < i ==> DependentKept(old_, new_, depends[j])
        {
          assert depends[i] in depends;
          var parsed := UpgradeParse(depends[i]);
          if parsed.None? { return false; }
          if HasCapability(old_, parsed.value.name) && !UpgradeMatches(new_, parsed.value) { return false; }
        }
      }
    }
    ok := true;
  }

  method ConflictCheck(db: Db, broken: set<string>, old_: Manifest, new_: Manifest) returns (ok: bool)
    ensures ok <==> NoConflict(db, old_, new_) && broken <= {old_.name}
  {
    for i := 0 to |new_.conflicts|
      invariant forall j :: 0 <= j < i ==> Unversioned(new_.conflicts[j])
    {
      assert new_.conflicts[i] in new_.conflicts;
      if !Unversioned(new_.conflicts[i]) { return false; }
    }
    var entries := db.Keys + broken;
    while entries != {}
      invariant entries <= db.Keys + broken
      invariant forall n :: n in broken && n !in entries ==> n == old_.name
      invariant forall n :: n in db && n !in entries && n != old_.name ==> Compatible(new_, db[n].manifest)
      decreases entries
    {
      var n :| n in entries;
      entries := entries - {n};
      if n != old_.name {
        if n in broken { return false; }
        var compatible := CompatibleWith(new_, db[n].manifest);
        if !compatible { return false; }
      }
    }
    ok := true;
  }

  method CompatibleWith(new_: Manifest, installed: Manifest) returns (ok: bool)
    ensures ok <==> Compatible(new_, installed)
  {
    for i := 0 to |new_.conflicts|
      invariant forall j :: 0 <= j < i ==> !HasCapability(installed, new_.conflicts[j])
    {
      assert new_.conflicts[i] in new_.conflicts;
      if HasCapability(installed, new_.conflicts[i]) { return false; }
    }
    for i := 0 to |installed.conflicts|
      invariant forall j :: 0 <= j < i ==> Unversioned(installed.conflicts[j]) && !HasCapability(new_, installed.conflicts[j])
    {
      assert installed.conflicts[i] in installed.conflicts;
      if !Unversioned(installed.conflicts[i]) { return false; }
      if HasCapability(new_, installed.conflicts[i]) { return false; }
    }
    ok := true;
  }
}
