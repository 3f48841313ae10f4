/** The resolver's search: which candidates get selected, in which order they
    enter the plan, and the methods that run the search on a selection array. */
module Search {
  import opened Strings
  import opened Version
  import opened Package
  import opened UpgradeChecks

  datatype Candidate = Candidate(manifest: Manifest, path: string)

  datatype Problem = Problem(candidates: seq<Candidate>, arch: string)

  /** What abandoning a candidate deselects: the program as written clears the
      candidate's own flag, a full rollback also what was selected under it. */
  datatype Rollback = OwnFlag | Everything

  datatype Progress = Progress(selected: set<nat>, plan: seq<nat>, steps: nat)

  datatype Answer = Answer(ok: bool, after: Progress)

  const StepLimit := 65536

  function Indices(n: nat): (s: set<nat>)
    ensures forall i: nat :: i in s <==> i < n
    ensures |s| == n
  {
    if n == 0 then {} else Indices(n - 1) + {n - 1}
  }

  predicate Within(p: Problem, s: set<nat>) { s <= Indices(|p.candidates|) }

  function Unselected(p: Problem, s: set<nat>): set<nat> { Indices(|p.candidates|) - s }

  function ManifestOf(p: Problem, i: nat): Manifest
    requires i < |p.candidates|
  {
    p.candidates[i].manifest
  }

  // --- tests on the selection

  predicate MatchesAt(p: Problem, i: nat, r: Requirement)
    requires i < |p.candidates|
  {
    CandidateMatch(ManifestOf(p, i), r, p.arch) != 0
  }

  /** requirement_satisfied. */
  predicate SatisfiedBy(p: Problem, s: set<nat>, r: Requirement)
    requires Within(p, s)
  {
    exists i :: i in s && MatchesAt(p, i, r)
  }

  /** selected_has_name. */
  predicate HasName(p: Problem, s: set<nat>, name: string)
    requires Within(p, s)
  {
    exists i :: i in s && ManifestOf(p, i).name == name
  }

  predicate Supported(m: Manifest) { forall c :: c in m.conflicts ==> Unversioned(c) }

  predicate Clash(m: Manifest, other: Manifest) { exists c :: c in m.conflicts && HasCapability(other, c) }

  predicate BothWays(m: Manifest, other: Manifest) { !Clash(m, other) && Supported(other) && !Clash(other, m) }

  /** candidate_conflicts_with_selected, negated. */
  predicate Admissible(p: Problem, s: set<nat>, c: nat)
    requires Within(p, s) && c < |p.candidates|
  {
    && Supported(ManifestOf(p, c))
    && !Clash(ManifestOf(p, c), ManifestOf(p, c))
    && forall j :: j in s ==> BothWays(ManifestOf(p, c), ManifestOf(p, j))
  }

  // --- the order in which matches are tried

  /** candidate_preferred: match kind, version, release, path. */
  predicate Preferred(arch: string, r: Requirement, left: Candidate, right: Candidate) {
    var l, r_ := CandidateMatch(left.manifest, r, arch), CandidateMatch(right.manifest, r, arch);
    if l != r_ then l > r_
    else
      var v := CompareBoundary(left.manifest.version, right.manifest.version);
      if v != 0 then v > 0
      else if left.manifest.release != right.manifest.release then left.manifest.release > right.manifest.release
      else StrCmp(left.path, right.path) < 0
  }

  predicate PreferredAt(p: Problem, r: Requirement, i: nat, j: nat)
    requires i < |p.candidates| && j < |p.candidates|
  {
    Preferred(p.arch, r, p.candidates[i], p.candidates[j])
  }

  predicate InRange(p: Problem, m: seq<nat>) { forall k :: 0 <= k < |m| ==> m[k] < |p.candidates| }

  /** The unselected matches among the first `n` candidates. */
  function Matching(p: Problem, s: set<nat>, r: Requirement, n: nat): (m: seq<nat>)
    requires n <= |p.candidates|
    ensures forall i: nat :: i in m <==> i < n && i !in s && MatchesAt(p, i, r)
    ensures InRange(p, m)
    ensures forall i, j :: 0 <= i < j < |m| ==> m[i] < m[j]
  {
    if n == 0 then []
    else
      var m := Matching(p, s, r, n - 1);
      if n - 1 in s || !MatchesAt(p, n - 1, r) then m
      else
        assert forall i: nat :: i in m + [n - 1] <==> i in m || i == n - 1;
        assert forall k :: 0 <= k < |m| ==> m[k] in m;
        m + [n - 1]
  }

  /** The inner loop of the exchange sort, from position `j` on. */
  function Pass(p: Problem, r: Requirement, m: seq<nat>, i: nat, j: nat): (sorted: seq<nat>)
    requires InRange(p, m) && i < j <= |m|
    ensures |sorted| == |m| && InRange(p, sorted)
    decreases |m| - j
  {
    if j == |m| then m
    else Pass(p, r, if PreferredAt(p, r, m[i], m[j]) then m else m[i := m[j]][j := m[i]], i, j + 1)
  }

  /** The outer loop of the exchange sort, from position `i` on. */
  function Sorting(p: Problem, r: Requirement, m: seq<nat>, i: nat): (sorted: seq<nat>)
    requires InRange(p, m)
    ensures |sorted| == |m| && InRange(p, sorted)
    decreases |m| - i
  {
    if i >= |m| then m else Sorting(p, r, Pass(p, r, m, i, i + 1), i + 1)
  }

  /** The matches in the order in which they are tried. */
  function Arranged(p: Problem, r: Requirement, s: set<nat>): (order: seq<nat>)
    ensures InRange(p, order)
  {
    Sorting(p, r, Matching(p, s, r, |p.candidates|), 0)
  }

  // --- the search

  /** `t` goes on from `s`: the plan and the selection grow, the new plan entries
      being distinct and newly selected. */
  ghost predicate Extends(s: Progress, t: Progress) {
    && s.plan <= t.plan && s.selected <= t.selected
    && (forall i :: |s.plan| <= i < |t.plan| ==> t.plan[i] in t.selected && t.plan[i] !in s.selected)
    && (forall i, j :: |s.plan| <= i < j < |t.plan| ==> t.plan[i] != t.plan[j])
  }

  function Select(s: Progress, c: nat): Progress { s.(selected := s.selected + {c}) }

  /** The state after candidate `c`, tried in state `s`, failed in state `t`. */
  function Abandon(undo: Rollback, s: Progress, c: nat, t: Progress): Progress {
    Progress(if undo.Everything? then s.selected else t.selected - {c}, s.plan, t.steps)
  }

  lemma ExtendsTransitive(s: Progress, t: Progress, u: Progress)
    requires Extends(s, t) && Extends(t, u)
    ensures Extends(s, u)
  {
    assert forall i :: |s.plan| <= i < |t.plan| ==> u.plan[i] == t.plan[i];
  }

  lemma AbandonExtends(p: Problem, undo: Rollback, s: Progress, c: nat, t: Progress)
    requires c !in s.selected && Extends(Select(s, c), t) && Within(p, t.selected)
    ensures var back := Abandon(undo, s, c, t);
      && Extends(s, back) && Within(p, back.selected) && Unselected(p, back.selected) <= Unselected(p, s.selected)
    ensures Extends(s, t.(plan := t.plan + [c]))
  {
    assert c in t.selected;
  }

  predicate Eligible(p: Problem, s: set<nat>, c: nat)
    requires Within(p, s) && c < |p.candidates|
  {
    !HasName(p, s, ManifestOf(p, c).name) && Admissible(p, s, c)
  }

  /** An eligible candidate is new: selecting it leaves fewer to select. */
  lemma Shrinks(p: Problem, s: Progress, c: nat)
    requires Within(p, s.selected) && c < |p.candidates| && Eligible(p, s.selected, c)
    ensures c !in s.selected && Within(p, Select(s, c).selected)
    ensures Unselected(p, Select(s, c).selected) < Unselected(p, s.selected)
  {
    assert c in Unselected(p, s.selected) && c !in Unselected(p, Select(s, c).selected);
  }

  /** resolve_requirement. */
  function Resolve(p: Problem, undo: Rollback, r: Requirement, s: Progress): (a: Answer)
    requires Within(p, s.selected)
    ensures Within(p, a.after.selected) && Extends(s, a.after)
    decreases Unselected(p, s.selected), 2, 0
  {
    var now := s.(steps := s.steps + 1);
    if now.steps > StepLimit then Answer(false, now)
    else if SatisfiedBy(p, s.selected, r) then Answer(true, now)
    else if HasName(p, s.selected, r.name) then Answer(false, now)
    else Try(p, undo, now, Arranged(p, r, s.selected))
  }

  /** The loop of resolve_requirement over the sorted matches. */
  function Try(p: Problem, undo: Rollback, s: Progress, order: seq<nat>): (a: Answer)
    requires Within(p, s.selected) && InRange(p, order)
    ensures Within(p, a.after.selected) && Extends(s, a.after)
    decreases Unselected(p, s.selected), 1, |order|
  {
    if order == [] then Answer(false, s)
    else
      var c := order[0];
      if !Eligible(p, s.selected, c) then Try(p, undo, s, order[1..])
      else
        Shrinks(p, s, c);
        var a := Depend(p, undo, Select(s, c), ManifestOf(p, c).depends);
        AbandonExtends(p, undo, s, c, a.after);
        if a.ok then Answer(true, a.after.(plan := a.after.plan + [c]))
        else
          var back := Abandon(undo, s, c, a.after);
          ExtendsTransitive(s, back, Try(p, undo, back, order[1..]).after);
          Try(p, undo, back, order[1..])
  }

  /** The loop of resolve_requirement over the dependencies of one candidate. */
  function Depend(p: Problem, undo: Rollback, s: Progress, depends: seq<string>): (a: Answer)
    requires Within(p, s.selected)
    ensures Within(p, a.after.selected) && Extends(s, a.after)
    decreases Unselected(p, s.selected), 3, |depends|
  {
    if depends == [] then Answer(true, s)
    else
      var r := ResolverParse(depends[0]);
      if r.None? then Answer(false, s)
      else
        var a := Resolve(p, undo, r.value, s);
        if !a.ok then a
        else
          assert Unselected(p, a.after.selected) <= Unselected(p, s.selected);
          Depend(p, undo, a.after, depends[1..])
  }

  // --- the plan for a package

  const Start := Progress({}, [], 0)

  /** The package asked for, under its own name, exists for the architecture. */
  predicate RootFound(p: Problem, name: string) {
    exists c :: c in p.candidates && c.manifest.name == name && FitsArch(c.manifest, p.arch)
  }

  function Root(name: string): Requirement { Requirement(name, Any, "") }

  predicate HoldsApart(l: Manifest, r: Manifest) {
    forall c :: c in l.conflicts ==> Unversioned(c) && !HasCapability(r, c)
  }

  /** resolve_conflicts_in_plan. */
  predicate PassesConflicts(p: Problem, plan: seq<nat>)
    requires InRange(p, plan)
  {
    forall i, j :: 0 <= i < j < |plan| ==>
      HoldsApart(ManifestOf(p, plan[i]), ManifestOf(p, plan[j])) && HoldsApart(ManifestOf(p, plan[j]), ManifestOf(p, plan[i]))
  }

  /** The candidates pux_resolve_package_plan puts in its plan, before it looks at paths. */
  function Planned(p: Problem, undo: Rollback, name: string): (plan: Option<seq<nat>>)
    ensures plan.Some? ==> InRange(p, plan.value)
  {
    if name == "" || !RootFound(p, name) then None
    else
      var a := Resolve(p, undo, Root(name), Start);
      if a.ok && PassesConflicts(p, a.after.plan) then Some(a.after.plan) else None
  }

  /** has_suffix(path, ".pux"). */
  predicate IsArchive(path: string) { |path| > 4 && path[|path| - 4..] == ".pux" }

  function PathsOf(p: Problem, plan: seq<nat>): (paths: seq<string>)
    requires InRange(p, plan)
    ensures |paths| == |plan| && forall i :: 0 <= i < |plan| ==> paths[i] == p.candidates[plan[i]].path
  {
    seq(|plan|, i requires 0 <= i < |plan| => p.candidates[plan[i]].path)
  }

  predicate AllArchives(paths: seq<string>) { forall i :: 0 <= i < |paths| ==> IsArchive(paths[i]) }

  /** pux_resolve_package_plan: the archives to install, in order. */
  function PlanPaths(p: Problem, undo: Rollback, name: string): Option<seq<string>> {
    var plan := Planned(p, undo, name);
    if plan.None? || !AllArchives(PathsOf(p, plan.value)) then None else Some(PathsOf(p, plan.value))
  }
}
