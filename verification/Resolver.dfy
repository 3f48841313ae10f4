/** The resolver on its selection array: the search of module Search, step by step. */
module Resolver {
  import opened Package
  import opened Search

  /** A selection that grew by `c` at least has more elements. */
  lemma OneMore(s: set<nat>, c: nat, t: set<nat>)
    requires c !in s && s + {c} <= t
    ensures |s| < |t|
  {
    assert t == (s + {c}) + (t - (s + {c}));
  }

  lemma NoFewer(s: set<nat>, t: set<nat>)
    requires s <= t
    ensures |s| <= |t|
  {
    assert t == s + (t - s);
  }

  /** The indices whose flag is set. */
  function FlagSet(flags: seq<bool>): set<nat> { set i | 0 <= i < |flags| && flags[i] }

  lemma Flagged(flags: seq<bool>, c: nat, value: bool)
    requires c < |flags|
    ensures FlagSet(flags[c := value]) == if value then FlagSet(flags) + {c} else FlagSet(flags) - {c}
  {
  }

  class Solver {
    const problem: Problem
    const selected: array<bool>
    var plan: seq<nat>
    var steps: nat

    ghost predicate Valid()
      reads this
    {
      selected.Length == |problem.candidates|
    }

    ghost function Selected(): (s: set<nat>)
      reads this, selected
      ensures Valid() ==> Within(problem, s)
    {
      FlagSet(selected[..])
    }

    ghost function Now(): Progress
      reads this, selected
    {
      Progress(Selected(), plan, steps)
    }

    constructor (problem: Problem)
      ensures Valid() && fresh(selected) && this.problem == problem
      ensures Now() == Progress({}, [], 0)
    {
      this.problem := problem;
      selected := new bool[|problem.candidates|](_ => false);
      plan := [];
      steps := 0;
    }

    method RequirementSatisfied(r: Requirement) returns (yes: bool)
      requires Valid()
      ensures yes <==> SatisfiedBy(problem, Selected(), r)
    {
      for i := 0 to selected.Length
        invariant forall j :: 0 <= j < i && selected[j] ==> !MatchesAt(problem, j, r)
      {
        if selected[i] && MatchesAt(problem, i, r) {
          assert i in Selected();
          return true;
        }
      }
      yes := false;
    }

    method SelectedHasName(name: string) returns (yes: bool)
      requires Valid()
      ensures yes <==> HasName(problem, Selected(), name)
    {
      for i := 0 to selected.Length
        invariant forall j :: 0 <= j < i && selected[j] ==> ManifestOf(problem, j).name != name
      {
        if selected[i] && ManifestOf(problem, i).name == name {
          assert i in Selected();
          return true;
        }
      }
      yes := false;
    }

    method ConflictsWithSelected(c: nat) returns (yes: bool)
      requires Valid() && c < |problem.candidates|
      ensures yes <==> !Admissible(problem, Selected(), c)
    {
      var m := ManifestOf(problem, c);
      if !Supported(m) { return true; }
      for i := 0 to |m.conflicts|
        invariant forall k :: 0 <= k < i ==> !HasCapability(m, m.conflicts[k])
        invariant forall k, j :: 0 <= k < i && j in Selected() ==> !HasCapability(ManifestOf(problem, j), m.conflicts[k])
      {
        if HasCapability(m, m.conflicts[i]) {
          assert Clash(m, m);
          return true;
        }
        for j := 0 to selected.Length
          invariant forall l :: 0 <= l < j && selected[l] ==> !HasCapability(ManifestOf(problem, l), m.conflicts[i])
        {
          if selected[j] && HasCapability(ManifestOf(problem, j), m.conflicts[i]) {
            assert j in Selected() && Clash(m, ManifestOf(problem, j));
            return true;
          }
        }
      }
      assert forall j :: j in Selected() ==> !Clash(m, ManifestOf(problem, j));
      for j := 0 to selected.Length
        invariant forall l :: 0 <= l < j && selected[l] ==>
          Supported(ManifestOf(problem, l)) && !Clash(ManifestOf(problem, l), m)
      {
        if selected[j] {
          var other := ManifestOf(problem, j);
          assert j in Selected();
          if !Supported(other) || Clash(other, m) { return true; }
        }
      }
      yes := false;
    }

    /** The unselected candidates that match, in catalogue order. */
    method CollectMatches(r: Requirement) returns (m: seq<nat>)
      requires Valid()
      ensures m == Matching(problem, Selected(), r, |problem.candidates|)
    {
      m := [];
      for i := 0 to |problem.candidates|
        invariant m == Matching(problem, Selected(), r, i)
      {
        if !selected[i] && MatchesAt(problem, i, r) { m := m + [i]; }
      }
    }

    /** One round of the exchange sort, in place. */
    method SortPass(m: array<nat>, r: Requirement, i: nat)
      requires InRange(problem, m[..]) && i < m.Length
      modifies m
      ensures InRange(problem, m[..]) && m[..] == Pass(problem, r, old(m[..]), i, i + 1)
    {
      ghost var target := Pass(problem, r, m[..], i, i + 1);
      for j := i + 1 to m.Length
        invariant InRange(problem, m[..])
        invariant Pass(problem, r, m[..], i, j) == target
      {
        ghost var was := m[..];
        if !PreferredAt(problem, r, m[i], m[j]) {
          m[i], m[j] := m[j], m[i];
          assert m[..] == was[i := was[j]][j := was[i]];
        }
      }
    }

    /** The exchange sort, in place. */
    method SortMatches(m: array<nat>, r: Requirement)
      requires InRange(problem, m[..])
      modifies m
      ensures InRange(problem, m[..]) && m[..] == Sorting(problem, r, old(m[..]), 0)
    {
      ghost var target := Sorting(problem, r, m[..], 0);
      for i := 0 to m.Length
        invariant InRange(problem, m[..])
        invariant Sorting(problem, r, m[..], i) == target
      {
        SortPass(m, r, i);
      }
    }

    method ArrangeMatches(r: Requirement) returns (m: array<nat>)
      requires Valid()
      ensures fresh(m) && InRange(problem, m[..]) && Now() == old(Now())
      ensures m[..] == Arranged(problem, r, Selected())
    {
      var collected := CollectMatches(r);
      m := new nat[|collected|](i requires 0 <= i < |collected| => collected[i]);
      assert m[..] == collected;
      SortMatches(m, r);
    }

    /** `depth` counts the candidates under trial; each of them is selected, so that
        the nesting ends within as many levels as there are candidates, and one. */
    method ResolveRequirement(r: Requirement, ghost depth: nat) returns (ok: bool)
      requires Valid() && depth <= |Selected()|
      modifies this`plan, this`steps, selected
      ensures Valid() && Answer(ok, Now()) == Resolve(problem, OwnFlag, r, old(Now()))
      ensures depth <= |problem.candidates|
      decreases Unselected(problem, Selected()), 2
    {
      ghost var start := Now();
      NoFewer(Selected(), Indices(|problem.candidates|));
      steps := steps + 1;
      assert Now() == start.(steps := steps);
      if steps > StepLimit { return false; }
      var satisfied := RequirementSatisfied(r);
      if satisfied { return true; }
      var present := SelectedHasName(r.name);
      if present { return false; }
      var matches := ArrangeMatches(r);
      assert Selected() == start.selected;
      ok := TryMatches(matches, depth);
    }

    /** The loop over the sorted matches. */
    method TryMatches(matches: array<nat>, ghost depth: nat) returns (ok: bool)
      requires Valid() && depth <= |Selected()| && InRange(problem, matches[..])
      requires matches as object != selected
      modifies this`plan, this`steps, selected
      ensures Valid() && Answer(ok, Now()) == Try(problem, OwnFlag, old(Now()), old(matches[..]))
      decreases Unselected(problem, Selected()), 1
    {
      ghost var start, order := Selected(), matches[..];
      ghost var target := Try(problem, OwnFlag, Now(), order);
      for i := 0 to matches.Length
        invariant matches[..] == order && Valid() && start <= Selected() && depth <= |Selected()|
        invariant Try(problem, OwnFlag, Now(), order[i..]) == target
      {
        var c := matches[i];
        assert order[i..][0] == c && order[i..][1..] == order[i + 1..];
        var named := SelectedHasName(ManifestOf(problem, c).name);
        if named { continue; }
        var conflicts := ConflictsWithSelected(c);
        if conflicts { continue; }
        var done := TryCandidate(c, depth);
        if done { return true; }
      }
      ok := false;
    }

    /** One round of the loop over the matches, for an eligible candidate. */
    method TryCandidate(c: nat, ghost depth: nat) returns (ok: bool)
      requires Valid() && depth <= |Selected()| && c < |problem.candidates| && Eligible(problem, Selected(), c)
      modifies this`plan, this`steps, selected
      ensures Valid()
      ensures var s := old(Now()); var a := Depend(problem, OwnFlag, Select(s, c), ManifestOf(problem, c).depends);
        ok == a.ok && Now() == if ok then a.after.(plan := a.after.plan + [c]) else Abandon(OwnFlag, s, c, a.after)
      ensures old(Selected()) <= Selected() && depth <= |Selected()|
      decreases Unselected(problem, Selected()), 0
    {
      hide Eligible, Depend, Unselected, FlagSet;
      ghost var start := Now();
      Shrinks(problem, start, c);
      var planned := |plan|;
      ghost var flags := selected[..];
      selected[c] := true;
      assert selected[..] == flags[c := true];
      assert Now() == Select(start, c) by { Flagged(flags, c, true); }
      OneMore(start.selected, c, Selected());
      ok := ResolveDependencies(ManifestOf(problem, c).depends, depth + 1);
      if ok {
        plan := plan + [c];
      } else {
        ghost var failed := Now();
        flags := selected[..];
        selected[c] := false;
        plan := plan[..planned];
        assert selected[..] == flags[c := false];
        assert Now() == Abandon(OwnFlag, start, c, failed) by { Flagged(flags, c, false); }
      }
      NoFewer(start.selected, Selected());
    }

    /** The loop over the dependencies of a candidate under trial. */
    method ResolveDependencies(depends: seq<string>, ghost depth: nat) returns (ok: bool)
      requires Valid() && depth <= |Selected()|
      modifies this`plan, this`steps, selected
      ensures Valid() && Answer(ok, Now()) == Depend(problem, OwnFlag, old(Now()), depends)
      decreases Unselected(problem, Selected()), 3
    {
      ghost var start, target := Selected(), Depend(problem, OwnFlag, Now(), depends);
      for i := 0 to |depends|
        invariant Valid() && start <= Selected() && depth <= |Selected()|
        invariant Depend(problem, OwnFlag, Now(), depends[i..]) == target
      {
        assert depends[i..][0] == depends[i] && depends[i..][1..] == depends[i + 1..];
        var dependency := ResolverParse(depends[i]);
        if dependency.None? { return false; }
        var met := ResolveRequirement(dependency.value, depth);
        if !met { return false; }
        NoFewer(start, Selected());
      }
      ok := true;
    }
  }

  method ConflictPass(p: Problem, plan: seq<nat>) returns (ok: bool)
    requires InRange(p, plan)
    ensures ok <==> PassesConflicts(p, plan)
  {
    for i := 0 to |plan|
      invariant forall k, l :: 0 <= k < i && k < l < |plan| ==>
        HoldsApart(ManifestOf(p, plan[k]), ManifestOf(p, plan[l])) && HoldsApart(ManifestOf(p, plan[l]), ManifestOf(p, plan[k]))
    {
      var left := ManifestOf(p, plan[i]);
      for j := i + 1 to |plan|
        invariant forall l :: i < l < j ==> HoldsApart(left, ManifestOf(p, plan[l])) && HoldsApart(ManifestOf(p, plan[l]), left)
      {
        var right := ManifestOf(p, plan[j]);
        if !HoldsApart(left, right) || !HoldsApart(right, left) { return false; }
      }
    }
    ok := true;
  }

  /** The search and the conflict pass of pux_resolve_package_plan. */
  method FindPlan(p: Problem, name: string) returns (plan: Option<seq<nat>>)
    ensures plan == Planned(p, OwnFlag, name)
  {
    if name == "" || !RootFound(p, name) { return None; }
    var solver := new Solver(p);
    var ok := solver.ResolveRequirement(Root(name), 0);
    if !ok { return None; }
    var free := ConflictPass(p, solver.plan);
    plan := if free then Some(solver.plan) else None;
  }

  /** pux_resolve_package_plan. */
  method ResolvePackagePlan(p: Problem, name: string) returns (paths: Option<seq<string>>)
    ensures paths == PlanPaths(p, OwnFlag, name)
  {
    hide Planned, IsArchive;
    var found := FindPlan(p, name);
    if found.None? { return None; }
    var plan := found.value;
    var out := [];
    for i := 0 to |plan|
      invariant |out| == i
      invariant out == PathsOf(p, plan)[..i] && AllArchives(out)
    {
      var path := p.candidates[plan[i]].path;
      if !IsArchive(path) {
        assert PathsOf(p, plan)[i] == path;
        return None;
      }
      out := out + [path];
    }
    assert out == PathsOf(p, plan);
    paths := Some(out);
  }
}
