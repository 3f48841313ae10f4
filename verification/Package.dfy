/** Package manifests and dependency expressions. */
module Package {
  import opened Version

  datatype Option<+T> = None | Some(value: T)

  /** struct pux_package_manifest; an unset string field is "". */
  datatype Manifest = Manifest(
    format: nat, name: string, version: string, release: nat, arch: string,
    description: string, license: string,
    depends: seq<string>, provided: seq<string>, conflicts: seq<string>, replaced: seq<string>)

  datatype Op = Any | Eq | Lt | Le | Gt | Ge

  datatype Requirement = Requirement(name: string, op: Op, version: string)

  predicate IsOperator(c: char) { c == '<' || c == '>' || c == '=' }

  predicate IsSpace(c: char) { c == ' ' || '\t' <= c <= '\r' }

  /** strpbrk(s, "<>="): the first operator character, or the length. */
  function OperatorAt(s: string): (n: nat)
    ensures n <= |s|
    ensures n < |s| ==> IsOperator(s[n])
    ensures forall i :: 0 <= i < n ==> !IsOperator(s[i])
  {
    if s == "" || IsOperator(s[0]) then 0 else 1 + OperatorAt(s[1..])
  }

  /** The operator that starts with `c` and is `width` characters long. */
  function OperatorOf(c: char, width: nat): Op {
    if c == '<' then (if width == 2 then Le else Lt)
    else if c == '>' then (if width == 2 then Ge else Gt)
    else Eq
  }

  /** parse_requirement in the resolver: no whitespace, one operator. */
  function ResolverParse(e: string): Option<Requirement> {
    if e == "" || (exists i :: 0 <= i < |e| && IsSpace(e[i])) then None
    else
      var n := OperatorAt(e);
      if n == |e| then Some(Requirement(e, Any, ""))
      else if n == 0 then None
      else
        var width := if e[n] != '=' && n + 1 < |e| && e[n + 1] == '=' then 2 else 1;
        var version := e[n + width..];
        if version == "" || OperatorAt(version) < |version| then None
        else Some(Requirement(e[..n], OperatorOf(e[n], width), version))
  }

  /** db_requirement_parse: the rest of the expression is the version. */
  function DbParse(e: string): Option<Requirement> {
    if e == "" then None
    else
      var n := OperatorAt(e);
      if n == |e| then Some(Requirement(e, Any, ""))
      else if n == 0 then None
      else
        var width := if e[n] != '=' && n + 1 < |e| && e[n + 1] == '=' then 2 else 1;
        var version := e[n + width..];
        if version == "" then None
        else Some(Requirement(e[..n], OperatorOf(e[n], width), version))
  }

  predicate Unbroken(s: string) { forall i :: 0 <= i < |s| ==> s[i] !in {' ', '\t', '\r', '\n'} }

  /** parse_upgrade_requirement: `==` reads as `=`, lengths are bounded, and the
      version holds no blank, tab or line end. */
  function UpgradeParse(e: string): Option<Requirement> {
    var n := OperatorAt(e);
    if n == 0 || n >= 256 then None
    else if n == |e| then Some(Requirement(e, Any, ""))
    else
      var width := if n + 1 < |e| && e[n + 1] == '=' then 2 else 1;
      var version := e[n + width..];
      if version == "" || |version| >= 256 || !Unbroken(version) then None
      else Some(Requirement(e[..n], OperatorOf(e[n], width), version))
  }

  predicate Holds(op: Op, cmp: int) {
    match op
    case Any => true
    case Eq => cmp == 0
    case Lt => cmp < 0
    case Le => cmp <= 0
    case Gt => cmp > 0
    case Ge => cmp >= 0
  }

  /** capability_exists, conflict_token_matches and manifest_has_capability. */
  predicate HasCapability(m: Manifest, name: string) { m.name == name || name in m.provided }

  /** db_requirement_matches. */
  predicate DbMatches(m: Manifest, r: Requirement) {
    if m.name == r.name then r.op.Any? || Holds(r.op, CompareBoundary(m.version, r.version))
    else r.op.Any? && r.name in m.provided
  }

  /** upgrade_requirement_satisfied_by_manifest. */
  predicate UpgradeMatches(m: Manifest, r: Requirement) {
    if r.op.Any? then HasCapability(m, r.name)
    else r.name == m.name && Holds(r.op, CompareRuns(m.version, r.version))
  }

  predicate FitsArch(m: Manifest, arch: string) { m.arch == arch || m.arch == "noarch" }

  /** candidate_match: 2 by name, 1 by an unversioned provide, 0 not at all. */
  function CandidateMatch(m: Manifest, r: Requirement, arch: string): nat {
    if !FitsArch(m, arch) then 0
    else if m.name == r.name then if r.op.Any? || Holds(r.op, CompareBoundary(m.version, r.version)) then 2 else 0
    else if !r.op.Any? then 0
    else if r.name in m.provided then 1 else 0
  }

  /** An expression the resolver accepts reads the same to the database, and a
      candidate the resolver takes for it satisfies it there. */
  lemma ResolverParseIsDbParse(e: string, m: Manifest, arch: string)
    requires ResolverParse(e).Some?
    ensures DbParse(e) == ResolverParse(e)
    ensures CandidateMatch(m, ResolverParse(e).value, arch) != 0 <==>
            FitsArch(m, arch) && DbMatches(m, DbParse(e).value)
  {
  }

  // --- expressions as text

  function OpText(op: Op): string {
    match op
    case Any => ""
    case Eq => "="
    case Lt => "<"
    case Le => "<="
    case Gt => ">"
    case Ge => ">="
  }

  function Spelled(r: Requirement): string { r.name + OpText(r.op) + r.version }

  /** Characters that end a name or a version, or are refused in them. */
  function Delimiters(): set<char> { {'<', '>', '=', ' ', '\t', '\n', '\U{0B}', '\U{0C}', '\r'} }

  predicate Word(s: string) { s != "" && forall i :: 0 <= i < |s| ==> s[i] !in Delimiters() }

  predicate Spellable(r: Requirement) { Word(r.name) && if r.op.Any? then r.version == "" else Word(r.version) }

  lemma OperatorAtFirst(name: string, rest: string)
    requires Word(name) && rest != "" && IsOperator(rest[0])
    ensures OperatorAt(name + rest) == |name|
  {
    var e := name + rest;
    assert e[|name|] == rest[0] && forall i :: 0 <= i < |name| ==> e[i] == name[i];
  }

  lemma NoOperator(s: string)
    requires Word(s)
    ensures OperatorAt(s) == |s|
  {
  }

  predicate OpSpelling(op: string) {
    op != "" && IsOperator(op[0]) && (|op| == 2 ==> op[0] != '=' && op[1] == '=') && |op| <= 2
  }

  lemma ReadsWithOperator(name: string, op: string, version: string)
    requires Word(name) && Word(version) && OpSpelling(op)
    ensures var e := name + op + version; var r := Requirement(name, OperatorOf(op[0], |op|), version);
      ResolverParse(e) == Some(r) && DbParse(e) == Some(r)
  {
    hide OperatorAt, OperatorOf;
    var e := name + op + version;
    NoOperator(version);
    assert e == name + (op + version) && (op + version)[0] == op[0];
    OperatorAtFirst(name, op + version);
    NoSpaces(name, op, version);
    Pieces(name, op, version);
  }

  lemma Pieces(name: string, op: string, version: string)
    requires name != "" && version != "" && op != "" && |op| <= 2
    ensures var e := name + op + version; var n := |name|;
      && e[..n] == name && e[n] == op[0] && e[n + |op|..] == version && n + 1 < |e|
      && e[n + 1] == if |op| == 2 then op[1] else version[0]
  {
  }

  lemma NoSpaces(name: string, op: string, version: string)
    requires Word(name) && Word(version) && OpSpelling(op)
    ensures var e := name + op + version; forall i :: 0 <= i < |e| ==> !IsSpace(e[i])
  {
  }

  /** A requirement that is spelled out reads back, to resolver and database alike. */
  lemma SpelledReads(r: Requirement)
    requires Spellable(r)
    ensures ResolverParse(Spelled(r)) == Some(r) && DbParse(Spelled(r)) == Some(r)
  {
    hide OperatorAt;
    if r.op.Any? {
      NoOperator(r.name);
      assert Spelled(r) == r.name;
    } else {
      hide ResolverParse, DbParse;
      ReadsWithOperator(r.name, OpText(r.op), r.version);
    }
  }
}
