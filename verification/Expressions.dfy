/** Dependency expressions as texts: which texts each of the three parsers takes for
    which requirement, and what an accepted text demands of a package. */
module Expressions {
  import opened Version
  import opened Package
  import opened Database
  import opened UpgradeChecks
  import opened Search

  predicate NoOperators(s: string) { forall i :: 0 <= i < |s| ==> s[i] !in {'<', '>', '='} }

  lemma FirstOperator(name: string, rest: string)
    requires NoOperators(name) && (rest == "" || rest[0] in {'<', '>', '='})
    ensures OperatorAt(name + rest) == |name|
  {
    var e := name + rest;
    assert forall i :: 0 <= i < |name| ==> e[i] == name[i];
    if rest != "" { assert e[|name|] == rest[0]; }
  }

  lemma Rejoined(e: string, n: nat, width: nat)
    requires n + width <= |e|
    ensures e == e[..n] + e[n..n + width] + e[n + width..]
  {
  }

  /** What the database takes for `r`: any rest after the operator is the version. */
  predicate DbSpells(r: Requirement) {
    r.name != "" && NoOperators(r.name) &&
    match r.op
    case Any => r.version == ""
    case Lt => r.version != "" && r.version[0] != '='
    case Gt => r.version != "" && r.version[0] != '='
    case _ => r.version != ""
  }

  lemma DbReadsExactly(e: string, r: Requirement)
    ensures DbParse(e) == Some(r) <==> DbSpells(r) && e == Spelled(r)
  {
    hide DbParse, DbSpells, Spelled;
    if DbSpells(r) && e == Spelled(r) { SpelledForDb(r); }
    if DbParse(e) == Some(r) { ReadByDb(e, r); }
  }

  lemma SpelledForDb(r: Requirement)
    requires DbSpells(r)
    ensures DbParse(Spelled(r)) == Some(r)
  {
    hide OperatorAt;
    var e := Spelled(r);
    assert e == r.name + (OpText(r.op) + r.version);
    FirstOperator(r.name, OpText(r.op) + r.version);
    if !r.op.Any? {
      hide Spelled;
      DbPieces(r);
    } else {
      assert Spelled(r) == r.name;
    }
  }

  lemma ReadByDb(e: string, r: Requirement)
    requires DbParse(e) == Some(r)
    ensures DbSpells(r) && e == Spelled(r)
  {
    hide OperatorAt;
    var n := OperatorAt(e);
    if n < |e| {
      var width := if e[n] != '=' && n + 1 < |e| && e[n + 1] == '=' then 2 else 1;
      Rejoined(e, n, width);
      assert e[n..n + width] == OpText(r.op);
      assert width == 1 ==> r.version[0] == e[n + 1];
    } else {
      assert Spelled(r) == e;
    }
  }

  lemma DbPieces(r: Requirement)
    requires DbSpells(r) && !r.op.Any?
    ensures var e, n, w := Spelled(r), |r.name|, |OpText(r.op)|;
      && n < |e| && e[..n] == r.name && e[n] == OpText(r.op)[0] && e[n + w..] == r.version
      && n + 1 < |e| && e[n + 1] == if w == 2 then '=' else r.version[0]
  {
  }

  predicate NoBlanks(s: string) { forall i :: 0 <= i < |s| ==> s[i] !in {' ', '\t', '\n', '\U{0B}', '\U{0C}', '\r'} }

  lemma ResolverIsStricter(e: string)
    ensures ResolverParse(e) ==
      if DbParse(e).Some? && NoBlanks(e) && NoOperators(DbParse(e).value.version) then DbParse(e) else None
  {
    hide OperatorOf;
    if NoBlanks(e) { assert forall i :: 0 <= i < |e| ==> !IsSpace(e[i]); }
    if exists i :: 0 <= i < |e| && !(e[i] !in {' ', '\t', '\n', '\U{0B}', '\U{0C}', '\r'}) {
      var i :| 0 <= i < |e| && e[i] in {' ', '\t', '\n', '\U{0B}', '\U{0C}', '\r'};
      assert IsSpace(e[i]);
    }
    if DbParse(e).Some? { NoneOrSome(DbParse(e).value.version); }
  }

  lemma NoneOrSome(version: string)
    ensures OperatorAt(version) == |version| <==> NoOperators(version)
  {
    if NoOperators(version) { FirstOperator(version, ""); assert version + "" == version; }
  }

  /** The resolver takes exactly the texts that spell a name, or a name, one operator
      and a version, without blanks. */
  lemma ResolverReadsExactly(e: string, r: Requirement)
    ensures ResolverParse(e) == Some(r) <==> Spellable(r) && e == Spelled(r)
  {
    hide ResolverParse, DbParse;
    ResolverIsStricter(e);
    DbReadsExactly(e, r);
    if e == Spelled(r) {
      assert forall i :: 0 <= i < |r.name| ==> e[i] == r.name[i];
      assert forall i :: 0 <= i < |r.version| ==> e[|r.name| + |OpText(r.op)| + i] == r.version[i];
    }
  }

  /** What the upgrade check takes for `r`: bounded lengths, `==` besides `=`, and no
      blank, tab or line end in the version. */
  predicate UpgradeSpells(e: string, r: Requirement) {
    && 0 < |r.name| < 256 && NoOperators(r.name)
    && if r.op.Any? then r.version == "" && e == r.name
       else
         && 0 < |r.version| < 256 && (forall i :: 0 <= i < |r.version| ==> r.version[i] !in {' ', '\t', '\r', '\n'})
         && ((e == Spelled(r) && (|OpText(r.op)| == 1 ==> r.version[0] != '=')) || (r.op.Eq? && e == r.name + "==" + r.version))
  }

  lemma UpgradeReadsExactly(e: string, r: Requirement)
    ensures UpgradeParse(e) == Some(r) <==> UpgradeSpells(e, r)
  {
    hide UpgradeParse, UpgradeSpells;
    if UpgradeSpells(e, r) { SpelledForUpgrade(e, r); }
    if UpgradeParse(e) == Some(r) { ReadByUpgrade(e, r); }
  }

  lemma SpelledForUpgrade(e: string, r: Requirement)
    requires UpgradeSpells(e, r)
    ensures UpgradeParse(e) == Some(r)
  {
    hide OperatorAt;
    if r.op.Any? {
      FirstOperator(r.name, "");
      assert r.name + "" == r.name;
    } else {
      hide UpgradeParse;
      var op := if r.op.Eq? && e == r.name + "==" + r.version then "==" else OpText(r.op);
      assert r == Requirement(r.name, r.op, r.version) && e == r.name + op + r.version;
      UpgradeReads(r.name, op, r.version);
    }
  }

  lemma ReadByUpgrade(e: string, r: Requirement)
    requires UpgradeParse(e) == Some(r)
    ensures UpgradeSpells(e, r)
  {
    hide OperatorAt, Spelled;
    var n := OperatorAt(e);
    if n < |e| {
      var width := if n + 1 < |e| && e[n + 1] == '=' then 2 else 1;
      Rejoined(e, n, width);
      OperatorThere(e, n, width, r);
      assert Unbroken(r.version);
    }
  }

  lemma OperatorThere(e: string, n: nat, width: nat, r: Requirement)
    requires 0 < width && n + width < |e| && e[n] in {'<', '>', '='} && width == (if e[n + 1] == '=' then 2 else 1)
    requires r.op == OperatorOf(e[n], width) && r.name == e[..n] && r.version == e[n + width..] && r.version != ""
    ensures if r.op.Eq? && width == 2 then e == r.name + "==" + r.version
      else e == Spelled(r) && |OpText(r.op)| == width && (width == 1 ==> r.version[0] != '=')
  {
    Rejoined(e, n, width);
    assert e[n..n + width] == if r.op.Eq? && width == 2 then "==" else OpText(r.op);
    assert width == 1 ==> r.version[0] == e[n + 1];
  }

  lemma UpgradeReads(name: string, op: string, version: string)
    requires NoOperators(name) && 0 < |name| < 256 && 0 < |version| < 256
    requires forall i :: 0 <= i < |version| ==> version[i] !in {' ', '\t', '\r', '\n'}
    requires 0 < |op| <= 2 && op[0] in {'<', '>', '='} && if |op| == 2 then op[1] == '=' else version[0] != '='
    ensures UpgradeParse(name + op + version) == Some(Requirement(name, OperatorOf(op[0], |op|), version))
  {
    hide OperatorAt, OperatorOf;
    UpgradePieces(name, op, version);
  }

  lemma UpgradePieces(name: string, op: string, version: string)
    requires NoOperators(name) && op != "" && |op| <= 2 && op[0] in {'<', '>', '='} && version != ""
    ensures var e, n := name + op + version, |name|;
      && OperatorAt(e) == n < |e| && e[..n] == name && e[n] == op[0] && e[n + |op|..] == version
      && n + 1 < |e| && e[n + 1] == if |op| == 2 then op[1] else version[0]
  {
    var e := name + op + version;
    assert e == name + (op + version);
    FirstOperator(name, op + version);
  }

  // --- what a text demands

  predicate DbAccepts(m: Manifest, e: string) { DbParse(e).Some? && DbMatches(m, DbParse(e).value) }

  predicate UpgradeAccepts(m: Manifest, e: string) { UpgradeParse(e).Some? && UpgradeMatches(m, UpgradeParse(e).value) }

  /** Whether a comparison with the version that was asked for is what the operator asks. */
  predicate Demands(op: string, cmp: int) {
    (op == "=" ==> cmp == 0) && (op == "<" ==> cmp < 0) && (op == "<=" ==> cmp <= 0) && (op == ">" ==> cmp > 0) && (op == ">=" ==> cmp >= 0)
  }

  predicate OperatorText(op: string) { op == "=" || op == "<" || op == "<=" || op == ">" || op == ">=" }

  /** A name demands a package of that name or one that provides it; with an operator and
      a version it demands a package of that name with such a version. */
  lemma DatabaseDemands(m: Manifest, n: string, op: string, v: string)
    requires Word(n) && Word(v) && OperatorText(op)
    ensures ResolverParse(n).Some? && (DbAccepts(m, n) <==> m.name == n || n in m.provided)
    ensures ResolverParse(n + op + v).Some?
    ensures DbAccepts(m, n + op + v) <==> m.name == n && Demands(op, CompareBoundary(m.version, v))
  {
    NamedAlone(n);
    ReadsWithOperator(n, op, v);
    assert op != ">=" && op != "<=" ==> |op| == 1;
    hide ResolverParse, DbParse, CompareBoundary;
  }

  lemma NamedAlone(n: string)
    requires Word(n)
    ensures ResolverParse(n) == Some(Root(n)) == DbParse(n)
  {
    hide ResolverParse, DbParse;
    SpelledReads(Root(n));
    assert Spelled(Root(n)) == n;
  }

  /** A candidate that fits the machine matches for the resolver what it would satisfy when
      installed; best of all under its own name. */
  lemma ResolverDemands(m: Manifest, e: string, arch: string)
    requires ResolverParse(e).Some?
    ensures var kind := CandidateMatch(m, ResolverParse(e).value, arch);
      && (kind != 0 <==> (m.arch == arch || m.arch == "noarch") && DbAccepts(m, e))
      && (kind == 2 <==> kind != 0 && m.name == ResolverParse(e).value.name) && kind <= 2
  {
    ResolverParseIsDbParse(e, m, arch);
    hide ResolverParse, DbParse, CompareBoundary, Holds;
  }

  /** The same for the checks of an upgrade, which compare versions in their own way. */
  lemma UpgradeDemands(m: Manifest, n: string, op: string, v: string)
    requires Word(n) && Word(v) && |n| < 256 && |v| < 256 && OperatorText(op)
    ensures UpgradeAccepts(m, n) <==> m.name == n || n in m.provided
    ensures UpgradeAccepts(m, n + op + v) <==> m.name == n && Demands(op, CompareRuns(m.version, v))
    ensures UpgradeAccepts(m, n + "==" + v) <==> m.name == n && CompareRuns(m.version, v) == 0
  {
    hide UpgradeParse, CompareRuns;
    UpgradeReadsExactly(n, Root(n));
    UpgradeReads(n, op, v);
    UpgradeReads(n, "==", v);
    assert op != ">=" && op != "<=" ==> |op| == 1;
  }

  predicate Carries(m: Manifest, n: string) { m.name == n || n in m.provided }

  predicate SomeAccepts(db: Db, e: string) { exists k :: k in db && DbAccepts(db[k].manifest, e) }

  lemma AcceptedIsMet(db: Db, m: Manifest)
    ensures DependenciesMet(db, m) <==> forall e :: e in m.depends ==> SomeAccepts(db, e)
  {
    hide DbParse, DbMatches;
    if forall e :: e in m.depends ==> SomeAccepts(db, e) {
      forall e | e in m.depends ensures DbParse(e).Some? && Satisfied(db, DbParse(e).value) {
        var k :| k in db && DbAccepts(db[k].manifest, e);
      }
    }
    if DependenciesMet(db, m) {
      forall e | e in m.depends ensures SomeAccepts(db, e) {
        var k :| k in db && DbMatches(db[k].manifest, DbParse(e).value);
        assert DbAccepts(db[k].manifest, e);
      }
    }
  }

  /** What an upgrade asks of the new version for a dependency of another package: what the
      old version carried the new one must carry, at a version that is demanded. */
  lemma DependentsDemand(old_: Manifest, new_: Manifest, n: string, op: string, v: string)
    requires Word(n) && Word(v) && |n| < 256 && |v| < 256 && OperatorText(op)
    ensures DependentKept(old_, new_, n) <==> (Carries(old_, n) ==> Carries(new_, n))
    ensures DependentKept(old_, new_, n + op + v) <==>
            (Carries(old_, n) ==> new_.name == n && Demands(op, CompareRuns(new_.version, v)))
  {
    UpgradeNames(n, op, v);
    UpgradeDemands(new_, n, op, v);
    hide UpgradeParse, UpgradeMatches, CompareRuns, Demands;
  }

  lemma UpgradeNames(n: string, op: string, v: string)
    requires Word(n) && Word(v) && |n| < 256 && |v| < 256 && OperatorText(op)
    ensures UpgradeParse(n) == Some(Root(n))
    ensures UpgradeParse(n + op + v).Some? && UpgradeParse(n + op + v).value.name == n && !UpgradeParse(n + op + v).value.op.Any?
  {
    hide UpgradeParse;
    UpgradeReadsExactly(n, Root(n));
    UpgradeReads(n, op, v);
    assert op != ">=" && op != "<=" ==> |op| == 1;
  }

  /** And for a dependency of the new version itself: it carries it, or another installed
      package does, unless the old version carried it without a version. */
  lemma ReplacementDemands(db: Db, old_: Manifest, new_: Manifest, n: string, op: string, v: string)
    requires Word(n) && Word(v) && |n| < 256 && |v| < 256 && OperatorText(op)
    ensures ReplacementMet(db, old_, new_, n) <==>
            Carries(new_, n) || (!Carries(old_, n) && n != new_.name && SomeAccepts(db, n))
    ensures ReplacementMet(db, old_, new_, n + op + v) <==>
            (new_.name == n && Demands(op, CompareRuns(new_.version, v))) || (n != new_.name && SomeAccepts(db, n + op + v))
  {
    UpgradeNames(n, op, v);
    UpgradeDemands(new_, n, op, v);
    AcceptedIsSatisfied(db, n);
    AcceptedIsSatisfied(db, n + op + v);
    hide UpgradeParse, UpgradeMatches, DbParse, DbMatches, CompareRuns, Demands;
  }

  lemma AcceptedIsSatisfied(db: Db, e: string)
    ensures SomeAccepts(db, e) <==> DbParse(e).Some? && Satisfied(db, DbParse(e).value)
  {
    hide DbParse, DbMatches;
    if DbParse(e).Some? && Satisfied(db, DbParse(e).value) {
      var k :| k in db && DbMatches(db[k].manifest, DbParse(e).value);
      assert DbAccepts(db[k].manifest, e);
    }
  }

  // --- conflicts

  /** One package does not conflict with the other: it names no version, and nothing that
      the other carries. */
  predicate Spares(m: Manifest, other: Manifest) { forall c :: c in m.conflicts ==> NoOperators(c) && !Carries(other, c) }

  lemma UnversionedIffNoOperators(c: string)
    ensures Unversioned(c) <==> NoOperators(c)
  {
    NoneOrSome(c);
  }

  /** The resolver on trying a candidate, its final pass, and an upgrade read conflicts alike. */
  lemma ConflictsReadAlike(m: Manifest, other: Manifest)
    ensures HoldsApart(m, other) <==> Spares(m, other)
    ensures (forall c :: c in m.conflicts ==> NoOperators(c)) ==>
            (Compatible(m, other) <==> Spares(m, other) && Spares(other, m)) &&
            (BothWays(m, other) <==> Spares(m, other) && Spares(other, m))
    ensures Search.Supported(m) <==> forall c :: c in m.conflicts ==> NoOperators(c)
  {
    hide Unversioned, NoOperators;
    forall c ensures Unversioned(c) <==> NoOperators(c) { UnversionedIffNoOperators(c); }
  }

  lemma AdmissibleIffSpared(p: Problem, s: set<nat>, c: nat)
    requires Within(p, s) && c < |p.candidates|
    ensures var m := ManifestOf(p, c);
      Admissible(p, s, c) <==> Spares(m, m) && forall j :: j in s ==> Spares(m, ManifestOf(p, j)) && Spares(ManifestOf(p, j), m)
  {
    hide Spares, BothWays, HoldsApart;
    var m := ManifestOf(p, c);
    ConflictsReadAlike(m, m);
    SelfSpared(m);
    forall j | j in s ensures Search.Supported(m) ==> (BothWays(m, ManifestOf(p, j)) <==> Spares(m, ManifestOf(p, j)) && Spares(ManifestOf(p, j), m)) {
      ConflictsReadAlike(m, ManifestOf(p, j));
    }
  }

  lemma SelfSpared(m: Manifest)
    ensures Search.Supported(m) && !Clash(m, m) <==> Spares(m, m)
  {
    hide Unversioned, NoOperators;
    forall c ensures Unversioned(c) <==> NoOperators(c) { UnversionedIffNoOperators(c); }
  }

  lemma NoConflictIffSpared(db: Db, old_: Manifest, new_: Manifest)
    ensures NoConflict(db, old_, new_) <==>
      && (forall c :: c in new_.conflicts ==> NoOperators(c))
      && forall n :: n in db && n != old_.name ==> Spares(new_, db[n].manifest) && Spares(db[n].manifest, new_)
  {
    hide Spares, Compatible, BothWays, HoldsApart;
    forall n | n in db { ConflictsReadAlike(new_, db[n].manifest); }
    ConflictsReadAlike(new_, new_);
  }
}
