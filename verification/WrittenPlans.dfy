/** When the plan of the search as written is closed: exactly, and for which catalogues
    for sure. */
module WrittenPlans {
  import opened Package
  import opened Search
  import opened Solutions
  import opened Plans

  // --- exactly

  /** Each dependency of each entry is met by an entry. */
  predicate ClosedPlan(p: Problem, plan: seq<nat>)
    requires InRange(p, plan)
  {
    forall i, e :: i in plan && e in DependsOf(p, i) ==> MetInPlan(p, plan, e)
  }

  predicate MetInPlan(p: Problem, plan: seq<nat>, e: string) { exists j :: j in plan && Meets(p, j, e) }

  /** What was selected and lost from the plan meets no dependency that the plan does
      not meet itself. */
  predicate LostUnneeded(p: Problem, t: Progress)
    requires InRange(p, t.plan)
  {
    forall q, i, e :: q in t.selected && q !in t.plan && i in t.plan && e in DependsOf(p, i) && Meets(p, q, e) ==>
      MetInPlan(p, t.plan, e)
  }

  /** The plan as written is closed exactly when no candidate lost from it was needed. */
  lemma ClosedIffLostUnneeded(p: Problem, r: Requirement)
    ensures var t := Resolve(p, OwnFlag, r, Start).after;
      InRange(p, t.plan) && (ClosedPlan(p, t.plan) <==> LostUnneeded(p, t))
  {
    hide Resolve, Meets;
    ResolveCovers(p, r, Start);
    var t := Resolve(p, OwnFlag, r, Start).after;
    if LostUnneeded(p, t) {
      forall i, e | i in t.plan && e in DependsOf(p, i) ensures MetInPlan(p, t.plan, e) {
        if forall j :: j in t.plan ==> !Meets(p, j, e) {
          var k :| 0 <= k < |t.plan| && t.plan[k] == i;
          var q := GapMeansLost(p, r, k, e);
        }
      }
    }
  }

  // --- catalogues

  /** `c` and all it requires, directly or through others, have one dependency at most. */
  ghost predicate Thin(p: Problem, c: nat) {
    forall q: nat :: q < |p.candidates| && Leads(p, c, q) ==> |DependsOf(p, q)| <= 1
  }

  /** Where there is a choice between two candidates, they are thin. */
  ghost predicate Mild(p: Problem, r: Requirement) {
    forall i: nat, j: nat :: i < |p.candidates| && j < |p.candidates| && i != j && MatchesAt(p, i, r) && MatchesAt(p, j, r) ==>
      Thin(p, i)
  }

  ghost predicate MildCatalogue(p: Problem) {
    forall i: nat, e :: i < |p.candidates| && e in DependsOf(p, i) && ResolverParse(e).Some? ==> Mild(p, ResolverParse(e).value)
  }

  ghost predicate ThinMatches(p: Problem, r: Requirement) {
    forall i: nat :: i < |p.candidates| && MatchesAt(p, i, r) ==> Thin(p, i)
  }

  lemma ThinItself(p: Problem, c: nat)
    requires c < |p.candidates| && Thin(p, c)
    ensures |DependsOf(p, c)| <= 1
  {
    assert Chain(p, [c]);
    assert Leads(p, c, c);
  }

  lemma ThinBelow(p: Problem, c: nat, e: string)
    requires c < |p.candidates| && Thin(p, c) && e in DependsOf(p, c) && ResolverParse(e).Some?
    ensures ThinMatches(p, ResolverParse(e).value)
  {
    forall i: nat | i < |p.candidates| && MatchesAt(p, i, ResolverParse(e).value) ensures Thin(p, i) {
      assert Needs(p, c, i) by { assert Meets(p, i, e); }
      forall q: nat | q < |p.candidates| && Leads(p, i, q) ensures |DependsOf(p, q)| <= 1 {
        var path :| path != [] && Chain(p, path) && path[0] == i && path[|path| - 1] == q;
        var longer := [c] + path;
        assert Chain(p, longer) && longer[0] == c && longer[|longer| - 1] == q;
        assert Leads(p, c, q);
      }
    }
  }

  // --- below a choice a failed trial leaves nothing

  /** Both searches end alike, and a failed one leaves what it found. */
  ghost predicate SameEnd(s: Progress, a: Answer, b: Answer) {
    a == b && (!a.ok ==> a.after.selected == s.selected && a.after.plan == s.plan)
  }

  lemma {:induction false} ThinResolve(p: Problem, r: Requirement, s: Progress)
    requires Within(p, s.selected) && ThinMatches(p, r)
    ensures SameEnd(s, Resolve(p, OwnFlag, r, s), Resolve(p, Everything, r, s))
    decreases Unselected(p, s.selected), 2, 0
  {
    hide Try, Arranged, HasName, MatchesAt, Thin;
    ArrangedMatch(p, r, s.selected);
    ThinTry(p, s.(steps := s.steps + 1), Arranged(p, r, s.selected));
  }

  lemma {:induction false} ThinTry(p: Problem, s: Progress, order: seq<nat>)
    requires Within(p, s.selected) && InRange(p, order) && forall k :: 0 <= k < |order| ==> Thin(p, order[k])
    ensures SameEnd(s, Try(p, OwnFlag, s, order), Try(p, Everything, s, order))
    decreases Unselected(p, s.selected), 1, |order|
  {
    hide Eligible, Depend, Thin;
    if order != [] {
      var c := order[0];
      if !Eligible(p, s.selected, c) {
        ThinTry(p, s, order[1..]);
      } else {
        Shrinks(p, s, c);
        ThinItself(p, c);
        ThinDepend(p, c, Select(s, c), DependsOf(p, c));
        var a := Depend(p, OwnFlag, Select(s, c), DependsOf(p, c));
        if !a.ok {
          var back := Abandon(OwnFlag, s, c, a.after);
          assert back.selected == s.selected;
          ThinTry(p, back, order[1..]);
        }
      }
    }
  }

  lemma {:induction false} ThinDepend(p: Problem, c: nat, s: Progress, depends: seq<string>)
    requires Within(p, s.selected) && c < |p.candidates| && Thin(p, c)
    requires |depends| <= 1 && forall e :: e in depends ==> e in DependsOf(p, c)
    ensures SameEnd(s, Depend(p, OwnFlag, s, depends), Depend(p, Everything, s, depends))
    decreases Unselected(p, s.selected), 3, |depends|
  {
    hide Resolve, Thin, ThinMatches, ResolverParse;
    if depends != [] && ResolverParse(depends[0]).Some? {
      assert depends[0] in depends && depends[1..] == [];
      ThinBelow(p, c, depends[0]);
      ThinResolve(p, ResolverParse(depends[0]).value, s);
    }
  }

  // --- so that in a mild catalogue nothing gets lost

  /** Both searches succeed or fail, and succeed alike. */
  ghost predicate SameSuccess(a: Answer, b: Answer) { a.ok == b.ok && (a.ok ==> a == b) }

  lemma FewMatches(p: Problem, r: Requirement, s: set<nat>)
    requires Mild(p, r)
    ensures ThinMatches(p, r) || |Arranged(p, r, s)| <= 1
  {
    hide MatchesAt, Thin, Sorting;
    var m := Matching(p, s, r, |p.candidates|);
    if |m| > 1 {
      assert m[0] in m && m[1] in m && m[0] < m[1];
      forall i: nat | i < |p.candidates| && MatchesAt(p, i, r) ensures Thin(p, i) {
        assert i != m[0] || i != m[1];
      }
    }
  }

  lemma {:induction false} MildResolve(p: Problem, r: Requirement, s: Progress)
    requires Within(p, s.selected) && MildCatalogue(p) && Mild(p, r)
    ensures SameSuccess(Resolve(p, OwnFlag, r, s), Resolve(p, Everything, r, s))
    decreases Unselected(p, s.selected), 2, 0
  {
    hide Try, Arranged, HasName, MatchesAt, Mild, MildCatalogue, ThinMatches;
    FewMatches(p, r, s.selected);
    if ThinMatches(p, r) {
      ThinResolve(p, r, s);
    } else {
      SingleTry(p, s.(steps := s.steps + 1), Arranged(p, r, s.selected));
    }
  }

  lemma {:induction false} SingleTry(p: Problem, s: Progress, order: seq<nat>)
    requires Within(p, s.selected) && InRange(p, order) && |order| <= 1 && MildCatalogue(p)
    ensures SameSuccess(Try(p, OwnFlag, s, order), Try(p, Everything, s, order))
    decreases Unselected(p, s.selected), 1, |order|
  {
    hide Eligible, Depend, MildCatalogue;
    if order != [] {
      var c := order[0];
      assert order[1..] == [];
      if Eligible(p, s.selected, c) {
        Shrinks(p, s, c);
        MildDepend(p, c, Select(s, c), DependsOf(p, c));
      }
    }
  }

  lemma {:induction false} MildDepend(p: Problem, c: nat, s: Progress, depends: seq<string>)
    requires Within(p, s.selected) && c < |p.candidates| && MildCatalogue(p)
    requires forall e :: e in depends ==> e in DependsOf(p, c)
    ensures SameSuccess(Depend(p, OwnFlag, s, depends), Depend(p, Everything, s, depends))
    decreases Unselected(p, s.selected), 3, |depends|
  {
    hide Resolve, Mild, ResolverParse;
    if depends != [] && ResolverParse(depends[0]).Some? {
      assert depends[0] in depends && depends[0] in DependsOf(p, c);
      var r := ResolverParse(depends[0]).value;
      MildResolve(p, r, s);
      var a := Resolve(p, OwnFlag, r, s);
      if a.ok {
        assert Unselected(p, a.after.selected) <= Unselected(p, s.selected);
        MildDepend(p, c, a.after, depends[1..]);
      }
    }
  }

  /** Where candidates compete only with thin dependencies below them, the search as
      written plans what full rollback plans. */
  lemma MildPlansAgree(p: Problem, name: string)
    requires MildCatalogue(p) && Mild(p, Root(name))
    ensures Planned(p, OwnFlag, name) == Planned(p, Everything, name)
  {
    hide Resolve, MildCatalogue, Mild;
    MildResolve(p, Root(name), Start);
  }

  /** So its plan is closed and in dependency order, without cycles each dependency
      being met earlier. */
  lemma MildPlanIsClosed(p: Problem, name: string, plan: seq<nat>)
    requires MildCatalogue(p) && Mild(p, Root(name)) && Planned(p, OwnFlag, name) == Some(plan)
    ensures ClosedPlan(p, plan) && exists q :: q in plan && MatchesAt(p, q, Root(name))
    ensures forall i: nat, e :: i < |plan| && e in DependsOf(p, plan[i]) ==> exists j :: Delivers(p, plan, i, e, j)
    ensures Acyclic(p) ==> forall i: nat, e :: i < |plan| && e in DependsOf(p, plan[i]) ==>
      exists j :: 0 <= j < i && Meets(p, plan[j], e)
  {
    hide Resolve, MildCatalogue, Mild, Planned, Acyclic, MatchesAt;
    MildPlansAgree(p, name);
    PlanIsClosed(p, name, plan);
    if Acyclic(p) { AcyclicPlanIsOrdered(p, name, plan); }
    forall i, e | i in plan && e in DependsOf(p, i) ensures MetInPlan(p, plan, e) {
      var k: nat :| k < |plan| && plan[k] == i;
      var j: nat :| Delivers(p, plan, k, e, j);
      assert plan[j] in plan;
    }
  }

  /** In particular where no dependency, and not the root, has two matches. */
  ghost predicate OneEach(p: Problem, r: Requirement) {
    forall i: nat, j: nat :: i < |p.candidates| && j < |p.candidates| && MatchesAt(p, i, r) && MatchesAt(p, j, r) ==> i == j
  }

  lemma OneEachIsMild(p: Problem, name: string)
    requires OneEach(p, Root(name))
    requires forall i: nat, e :: i < |p.candidates| && e in DependsOf(p, i) && ResolverParse(e).Some? ==>
      OneEach(p, ResolverParse(e).value)
    ensures MildCatalogue(p) && Mild(p, Root(name))
  {
    hide MatchesAt, Thin;
    forall i: nat, e | i < |p.candidates| && e in DependsOf(p, i) && ResolverParse(e).Some?
      ensures Mild(p, ResolverParse(e).value)
    {
      assert OneEach(p, ResolverParse(e).value);
    }
  }
}
