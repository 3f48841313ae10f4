/** The dependency promise under each change of the database. */
module Closure {
  import opened Strings
  import opened Version
  import opened Package
  import opened Requirements
  import opened Database
  import opened UpgradeChecks

  predicate Named(db: Db) { forall n :: n in db ==> db[n].manifest.name == n }

  lemma InstallKeepsClosed(db: Db, rec: Record)
    requires Closed(db) && rec.manifest.name !in db && DependenciesMet(db, rec.manifest)
    ensures Closed(db[rec.manifest.name := rec])
  {
    var after := db[rec.manifest.name := rec];
    forall n, e | n in after && e in after[n].manifest.depends
      ensures DbParse(e).Some? && Satisfied(after, DbParse(e).value)
    {
      var q :| q in db && DbMatches(db[q].manifest, DbParse(e).value);
      assert q in after && after[q] == db[q];
    }
  }

  /** The reverse dependency check refuses a removal exactly when the removal
      would break the promise. */
  lemma RemoveKeepsClosedIffNotNeeded(db: Db, name: string)
    requires Closed(db) && Named(db) && name in db
    ensures Closed(db - {name}) <==> NotNeeded(db, db[name].manifest)
  {
    var target, after := db[name].manifest, db - {name};
    if NotNeeded(db, target) {
      forall n, e | n in after && e in after[n].manifest.depends
        ensures DbParse(e).Some? && Satisfied(after, DbParse(e).value)
      {
        var r := DbParse(e).value;
        var q :| q in db && DbMatches(db[q].manifest, r);
        if q == name {
          assert SatisfiedWithout(db, r, name);
          var o :| o in db && o != name && DbMatches(db[o].manifest, r);
          assert o in after;
        } else {
          assert q in after;
        }
      }
    }
    if Closed(after) {
      forall n, e | n in db && n != name && e in db[n].manifest.depends && DbMatches(target, DbParse(e).value)
        ensures SatisfiedWithout(db, DbParse(e).value, name)
      {
        assert n in after && e in after[n].manifest.depends;
        var o :| o in after && DbMatches(after[o].manifest, DbParse(e).value);
        assert o in db && o != name;
      }
    }
  }

  /** Every installed package's versioned demand on `new_`, and its own, holds of it
      as the database compares versions. */
  predicate DemandsHold(db: Db, new_: Manifest) {
    forall n, e :: n in db && e in (if n == new_.name then new_ else db[n].manifest).depends && DbParse(e).Some? ==>
      DemandHolds(DbParse(e).value, new_)
  }

  predicate DemandHolds(r: Requirement, new_: Manifest) {
    r.name == new_.name && !r.op.Any? ==> Holds(r.op, CompareBoundary(new_.version, r.version))
  }

  /** An upgrade that passes its checks keeps the promise exactly when the new version
      meets the versioned demands on it, as the database reads them: the checks read
      them with another comparator. */
  lemma UpgradeKeepsClosedIff(db: Db, rec: Record)
    requires Closed(db) && Named(db) && rec.manifest.name in db
    requires ReplacementsMet(db, db[rec.manifest.name].manifest, rec.manifest)
    requires DependentsKept(db, db[rec.manifest.name].manifest, rec.manifest)
    ensures Closed(db[rec.manifest.name := rec]) <==> DemandsHold(db, rec.manifest)
  {
    var name, new_ := rec.manifest.name, rec.manifest;
    var after, old_ := db[name := rec], db[name].manifest;
    if DemandsHold(db, new_) {
      forall n, e | n in after && e in after[n].manifest.depends
        ensures DbParse(e).Some? && Satisfied(after, DbParse(e).value)
      {
        assert n in db;
        if n == name {
          assert ReplacementMet(db, old_, new_, e);
          NewDependencyMet(db, rec, e);
        } else {
          assert DependentKept(old_, new_, e);
          OldDependencyMet(db, rec, e);
        }
      }
    }
    if Closed(after) {
      forall n, e | n in db && e in (if n == name then new_ else db[n].manifest).depends && DbParse(e).Some?
        ensures DemandHolds(DbParse(e).value, new_)
      {
        assert n in after && e in after[n].manifest.depends;
        OnlyByItself(after, rec, DbParse(e).value);
      }
    }
  }

  /** A versioned demand is met by the package of that name or not at all. */
  lemma OnlyByItself(after: Db, rec: Record, r: Requirement)
    requires (forall n :: n in after && n != rec.manifest.name ==> after[n].manifest.name == n)
    requires rec.manifest.name in after && after[rec.manifest.name] == rec && Satisfied(after, r)
    ensures DemandHolds(r, rec.manifest)
  {
  }

  lemma NewDependencyMet(db: Db, rec: Record, e: string)
    requires Named(db) && rec.manifest.name in db && e in rec.manifest.depends
    requires ReplacementMet(db, db[rec.manifest.name].manifest, rec.manifest, e)
    requires DbParse(e).Some? ==> DemandHolds(DbParse(e).value, rec.manifest)
    ensures DbParse(e).Some? && Satisfied(db[rec.manifest.name := rec], DbParse(e).value)
  {
    var name := rec.manifest.name;
    var after, r := db[name := rec], UpgradeParse(e).value;
    UpgradeParseIsDbParse(e);
    if UpgradeMatches(rec.manifest, r) {
      assert name in after && after[name] == rec && DbMatches(rec.manifest, DbParse(e).value);
    } else {
      var q :| q in db && DbMatches(db[q].manifest, DbParse(e).value);
      assert q != name;
      assert q in after && after[q] == db[q];
    }
  }

  lemma OldDependencyMet(db: Db, rec: Record, e: string)
    requires Named(db) && rec.manifest.name in db
    requires DependentKept(db[rec.manifest.name].manifest, rec.manifest, e)
    requires DbParse(e).Some? && Satisfied(db, DbParse(e).value) && DemandHolds(DbParse(e).value, rec.manifest)
    ensures Satisfied(db[rec.manifest.name := rec], DbParse(e).value)
  {
    var name := rec.manifest.name;
    var after, r := db[name := rec], UpgradeParse(e).value;
    UpgradeParseIsDbParse(e);
    if HasCapability(db[name].manifest, r.name) {
      assert name in after && after[name] == rec && DbMatches(rec.manifest, DbParse(e).value);
    } else {
      var q :| q in db && DbMatches(db[q].manifest, DbParse(e).value);
      assert q != name;
      assert q in after && after[q] == db[q];
    }
  }

  /** With regular versions an upgrade that passes its checks keeps the promise. */
  lemma UpgradeKeepsClosed(db: Db, rec: Record)
    requires Closed(db) && Named(db) && rec.manifest.name in db
    requires ReplacementsMet(db, db[rec.manifest.name].manifest, rec.manifest)
    requires DependentsKept(db, db[rec.manifest.name].manifest, rec.manifest)
    requires RegularManifest(rec.manifest)
    requires forall n :: n in db ==> RegularManifest(db[n].manifest)
    ensures Closed(db[rec.manifest.name := rec])
  {
    var name, new_ := rec.manifest.name, rec.manifest;
    var old_ := db[name].manifest;
    forall n, e | n in db && e in (if n == name then new_ else db[n].manifest).depends && DbParse(e).Some?
      ensures DemandHolds(DbParse(e).value, new_)
    {
      if n == name {
        assert ReplacementMet(db, old_, new_, e);
      } else {
        assert DependentKept(old_, new_, e);
      }
      UpgradeParseIsDbParse(e);
      UpgradeMatchesIsDbMatches(e, new_);
    }
    UpgradeKeepsClosedIff(db, rec);
  }

  // --- versions on which the comparators disagree

  function Sample(name: string, version: string, depends: seq<string>): Manifest {
    Manifest(1, name, version, 1, "noarch", "a package", "free", depends, [], [], [])
  }

  lemma CutSamples()
    ensures Cut("1a10", false) == Part("1", Part("a", Part("10", End))) && Cut("1a10", true) == Part("1a10", End)
    ensures Cut("1a9", false) == Part("1", Part("a", Part("9", End))) && Cut("1a9", true) == Part("1a9", End)
    ensures Cut("1a1", false) == Part("1", Part("a", Part("1", End))) && Cut("1a1", true) == Part("1a1", End)
  {
    CutLetterDigit('9');
    CutLetterDigit('1');
    CutTwoDigits();
  }

  lemma CutLetterDigit(d: char)
    requires IsDigit(d)
    ensures Cut(['1', 'a', d], false) == Part("1", Part("a", Part([d], End))) && Cut(['1', 'a', d], true) == Part(['1', 'a', d], End)
  {
    assert Cut([d], false) == Part([d], End) && Cut([d], true) == Part([d], End);
    assert ['a', d][1..] == [d] && ['1', 'a', d][1..] == ['a', d];
  }

  lemma CutTwoDigits()
    ensures Cut("1a10", false) == Part("1", Part("a", Part("10", End))) && Cut("1a10", true) == Part("1a10", End)
  {
    assert Cut("10", false) == Part("10", End) by { assert Cut("0", false) == Part("0", End); }
    assert Cut("a10", false) == Part("a", Part("10", End));
    assert Cut("10", true) == Part("10", End) by { assert Cut("0", true) == Part("0", End); }
    assert Cut("a10", true) == Part("a10", End);
  }

  lemma SampleNumbers()
    ensures Value("1") == 1 && Value("9") == 9 && Value("10") == 10
  {
    assert "1"[..0] == "" && "9"[..0] == "";
    assert "10"[..1] == "1";
  }

  lemma BoundarySamples()
    ensures CompareBoundary("1a1", "1a9") < 0 && CompareBoundary("1a10", "1a9") > 0
  {
    hide Cut, Value, StrCmp;
    CutSamples();
    SampleNumbers();
    StrCmpZero("a", "a");
  }

  lemma RunSamples()
    ensures CompareRuns("1a10", "1a9") < 0 && CompareRuns("1a10", "1a1") > 0
  {
    hide Cut, Value;
    CutSamples();
    assert StrCmp("1a10", "1a9") < 0;
    assert StrCmp("1a10", "1a1") > 0;
  }

  function SampleNeed(): string { "lib<=1a9" }

  lemma NeedParses()
    ensures DbParse(SampleNeed()) == Some(Requirement("lib", Le, "1a9"))
    ensures UpgradeParse(SampleNeed()) == Some(Requirement("lib", Le, "1a9"))
  {
    OperatorPlace();
    hide OperatorAt;
    var e := SampleNeed();
    assert e[..3] == "lib" && e[3] == '<' && e[4] == '=' && e[5..] == "1a9";
  }

  lemma OperatorPlace()
    ensures OperatorAt(SampleNeed()) == 3
  {
  }

  /** `app` needs a version of `lib` up to 1a9; `lib` goes from 1a1 to 1a10. */
  predicate SampleUpgrade(db: Db, rec: Record) {
    && db.Keys == {"app", "lib"} && rec.manifest == Sample("lib", "1a10", [])
    && db["app"].manifest == Sample("app", "1", [SampleNeed()]) && db["lib"].manifest == Sample("lib", "1a1", [])
  }

  lemma SampleIsClosed(db: Db, rec: Record)
    requires SampleUpgrade(db, rec)
    ensures Closed(db) && Named(db)
  {
    hide CompareBoundary, SampleNeed, DbParse;
    BoundarySamples();
    NeedParses();
    assert "lib" in db && DbMatches(db["lib"].manifest, DbParse(SampleNeed()).value);
    forall n, e | n in db && e in db[n].manifest.depends ensures n == "app" && e == SampleNeed() { }
  }

  lemma SamplePassesChecks(db: Db, rec: Record)
    requires SampleUpgrade(db, rec)
    ensures ReplacementsMet(db, db["lib"].manifest, rec.manifest) && DependentsKept(db, db["lib"].manifest, rec.manifest)
  {
    hide CompareRuns, SampleNeed, UpgradeParse;
    RunSamples();
    NeedParses();
  }

  /** Without regular versions the checks of an upgrade do not suffice: the new version
      is below 1a9 to the check and above it to the database. */
  lemma IrregularUpgradeBreaks(db: Db, rec: Record)
    requires SampleUpgrade(db, rec)
    ensures Closed(db) && Named(db) && CompareRuns("1a10", "1a1") > 0
    ensures ReplacementsMet(db, db["lib"].manifest, rec.manifest) && DependentsKept(db, db["lib"].manifest, rec.manifest)
    ensures !Closed(db["lib" := rec]) && !DemandsHold(db, rec.manifest)
  {
    hide DemandsHold, CompareBoundary, CompareRuns, SampleNeed, DbParse, Closed, Named, ReplacementsMet, DependentsKept;
    SampleIsClosed(db, rec);
    SamplePassesChecks(db, rec);
    RunSamples();
    SampleBreaks(db, rec);
    UpgradeKeepsClosedIff(db, rec);
  }

  lemma SampleBreaks(db: Db, rec: Record)
    requires SampleUpgrade(db, rec)
    ensures !Closed(db["lib" := rec])
  {
    hide CompareBoundary, SampleNeed, DbParse;
    BoundarySamples();
    NeedParses();
    var after := db["lib" := rec];
    assert SampleNeed() in after["app"].manifest.depends;
    assert forall n :: n in after ==> !DbMatches(after[n].manifest, Requirement("lib", Le, "1a9"));
  }
}
