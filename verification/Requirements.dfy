/** When the upgrade check and the database read a dependency alike. */
module Requirements {
  import opened Strings
  import opened Version
  import opened VersionOrder
  import opened Package

  /** Plain runs of less than 64 characters: all comparators agree on such versions. */
  predicate Regular(v: string) { Plain(v) && ShortRuns(v) }

  /** The versions a manifest mentions are regular. */
  predicate RegularManifest(m: Manifest) {
    Regular(m.version) &&
    forall e :: e in m.depends && DbParse(e).Some? ==> Regular(DbParse(e).value.version)
  }

  lemma LeadingSeparator(c: char, v: string)
    requires !IsAlnum(c)
    ensures Cut([c] + v, false) == Cut(v, false) && Cut([c] + v, true) == Cut(v, true)
    ensures Regular([c] + v) <==> Regular(v)
  {
    var s := [c] + v;
    assert s[1..] == v;
    if Plain(s) {
      forall k: nat ensures !Mixed(v, k) { if Mixed(v, k) { assert Mixed(s, k + 1); } }
    }
    if Plain(v) {
      forall k: nat ensures !Mixed(s, k) { if Mixed(s, k) { assert Mixed(v, k - 1); } }
    }
  }

  /** The upgrade parser accepts less than the database parser; what it accepts
      has the same name and operator, and the same version up to one leading `=`. */
  lemma UpgradeParseIsDbParse(e: string)
    requires UpgradeParse(e).Some?
    ensures DbParse(e).Some?
    ensures var u, d := UpgradeParse(e).value, DbParse(e).value;
      && u.name == d.name
      && u.op == d.op
      && (u.version == d.version || d.version == ['='] + u.version)
  {
    var n := OperatorAt(e);
    var equals := n + 1 < |e| && e[n + 1] == '=';
    var upgradeWidth := if equals then 2 else 1;
    var dbWidth := if e[n..] != "" && e[n] != '=' && equals then 2 else 1;
    if n < |e| {
      assert UpgradeParse(e).value.op == OperatorOf(e[n], upgradeWidth);
      assert DbParse(e).value.op == OperatorOf(e[n], dbWidth);
    }
    if n < |e| && e[n] == '=' && equals {
      assert e[n + 1..] == ['='] + e[n + 2..];
    }
  }

  /** On regular versions the upgrade check decides a dependency as the database does. */
  lemma UpgradeMatchesIsDbMatches(e: string, m: Manifest)
    requires UpgradeParse(e).Some? && Regular(m.version)
    requires Regular(DbParse(e).value.version)
    ensures UpgradeMatches(m, UpgradeParse(e).value) <==> DbMatches(m, DbParse(e).value)
  {
    UpgradeParseIsDbParse(e);
    var u, d := UpgradeParse(e).value, DbParse(e).value;
    LeadingSeparator('=', u.version);
    PlainComparatorsAgree(m.version, u.version);
    PlainComparatorsAgree(m.version, d.version);
  }
}
