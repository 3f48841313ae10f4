/** Closed plans, in dependency order: what full rollback gives, and when the
    search as written gives the same. */
module Plans {
  import opened Package
  import opened Search
  import opened Solutions

  /** Candidate `q` meets the dependency expression `e`. */
  predicate Meets(p: Problem, q: nat, e: string) {
    q < |p.candidates| && ResolverParse(e).Some? && MatchesAt(p, q, ResolverParse(e).value)
  }

  function DependsOf(p: Problem, i: nat): seq<string>
    requires i < |p.candidates|
  {
    ManifestOf(p, i).depends
  }

  predicate Needs(p: Problem, a: nat, b: nat)
    requires a < |p.candidates|
  {
    exists e :: e in DependsOf(p, a) && Meets(p, b, e)
  }

  /** Each candidate has a dependency that the next one meets. */
  predicate Chain(p: Problem, path: seq<nat>) {
    InRange(p, path) && forall i :: 0 <= i < |path| - 1 ==> Needs(p, path[i], path[i + 1])
  }

  /** `a` is `b`, or requires it directly or through others. */
  ghost predicate Leads(p: Problem, a: nat, b: nat) {
    exists path :: path != [] && Chain(p, path) && path[0] == a && path[|path| - 1] == b
  }

  ghost predicate Acyclic(p: Problem) {
    forall path :: |path| > 1 && Chain(p, path) ==> path[0] != path[|path| - 1]
  }

  // --- the invariant of the search with full rollback

  /** What is selected is planned already or still under trial. */
  ghost predicate Tied(s: Progress, stack: seq<nat>) { forall x :: x in s.selected <==> x in s.plan || x in stack }

  ghost predicate Provider(p: Problem, s: Progress, i: nat, e: string, q: nat)
    requires i < |s.plan|
  {
    Meets(p, q, e) && q in s.selected && (q in s.plan[..i] || Leads(p, q, s.plan[i]))
  }

  ghost predicate GroundedAt(p: Problem, s: Progress, i: nat)
    requires i < |s.plan| && s.plan[i] < |p.candidates|
  {
    forall e :: e in DependsOf(p, s.plan[i]) ==> exists q :: Provider(p, s, i, e, q)
  }

  ghost predicate Grounded(p: Problem, s: Progress) {
    InRange(p, s.plan) && forall i :: 0 <= i < |s.plan| ==> GroundedAt(p, s, i)
  }

  ghost predicate Sound(p: Problem, s: Progress, stack: seq<nat>) {
    Within(p, s.selected) && Tied(s, stack) && Chain(p, stack) && Grounded(p, s)
  }

  /** `r` is a dependency of the candidate on top, unless nothing is under trial. */
  predicate Wanted(p: Problem, stack: seq<nat>, r: Requirement)
    requires InRange(p, stack)
  {
    stack != [] ==> exists e :: e in DependsOf(p, stack[|stack| - 1]) && ResolverParse(e) == Some(r)
  }

  lemma StackLeads(p: Problem, stack: seq<nat>, q: nat)
    requires Chain(p, stack) && q in stack
    ensures Leads(p, q, stack[|stack| - 1])
  {
    var k :| 0 <= k < |stack| && stack[k] == q;
    var path := stack[k..];
    assert Chain(p, path) && path[0] == q && path[|path| - 1] == stack[|stack| - 1];
  }

  lemma GrowthKeepsGrounds(p: Problem, s: Progress, t: Progress, i: nat)
    requires i < |s.plan| && s.plan <= t.plan && s.selected <= t.selected
    requires s.plan[i] < |p.candidates| && GroundedAt(p, s, i)
    ensures GroundedAt(p, t, i)
  {
    assert t.plan[..i] == s.plan[..i];
    forall e | e in DependsOf(p, t.plan[i]) ensures exists q :: Provider(p, t, i, e, q) {
      var q :| Provider(p, s, i, e, q);
      assert Provider(p, t, i, e, q);
    }
  }

  /** A candidate whose dependencies are all met enters the plan. */
  lemma AppendKeepsSound(p: Problem, s: Progress, stack: seq<nat>, c: nat)
    requires c < |p.candidates| && Sound(p, s, stack + [c])
    requires forall e :: e in DependsOf(p, c) ==> MetBy(p, s.selected, e)
    ensures Sound(p, s.(plan := s.plan + [c]), stack)
  {
    var t := s.(plan := s.plan + [c]);
    assert InRange(p, stack + [c]) && (stack + [c])[|stack|] == c;
    forall i | 0 <= i < |t.plan| ensures GroundedAt(p, t, i) {
      if i < |s.plan| {
        GrowthKeepsGrounds(p, s, t, i);
      } else {
        forall e | e in DependsOf(p, c) ensures exists q :: Provider(p, t, i, e, q) {
          var q :| q in s.selected && Meets(p, q, e);
          if q in stack + [c] { StackLeads(p, stack + [c], q); }
          assert t.plan[..i] == s.plan;
          assert Provider(p, t, i, e, q);
        }
      }
    }
    assert forall k :: 0 <= k < |stack| ==> stack[k] == (stack + [c])[k];
  }

  lemma SelectKeepsSound(p: Problem, s: Progress, stack: seq<nat>, c: nat, r: Requirement)
    requires Sound(p, s, stack) && c < |p.candidates| && MatchesAt(p, c, r) && Wanted(p, stack, r)
    ensures Sound(p, Select(s, c), stack + [c])
  {
    hide GroundedAt, MatchesAt;
    var t := Select(s, c);
    forall i | 0 <= i < |t.plan| ensures GroundedAt(p, t, i) { GrowthKeepsGrounds(p, s, t, i); }
    if stack != [] {
      var e :| e in DependsOf(p, stack[|stack| - 1]) && ResolverParse(e) == Some(r);
      assert Meets(p, c, e) && Needs(p, stack[|stack| - 1], c);
    }
  }

  lemma SoundIsWithin(p: Problem, s: Progress, stack: seq<nat>)
    requires Sound(p, s, stack)
    ensures Within(p, s.selected)
  {
  }

  lemma {:induction false} ResolveSound(p: Problem, r: Requirement, s: Progress, stack: seq<nat>)
    requires Sound(p, s, stack) && Wanted(p, stack, r)
    ensures var a := Resolve(p, Everything, r, s); a.ok ==> Sound(p, a.after, stack) && SatisfiedBy(p, a.after.selected, r)
    decreases Unselected(p, s.selected), 2, 0
  {
    hide Sound, Wanted, Try, Arranged, HasName, MatchesAt;
    SoundIsWithin(p, s, stack);
    var now := s.(steps := s.steps + 1);
    StepsKeepSound(p, s, now, stack);
    ArrangedMatch(p, r, s.selected);
    TrySound(p, r, now, Arranged(p, r, s.selected), stack);
  }

  lemma StepsKeepSound(p: Problem, s: Progress, t: Progress, stack: seq<nat>)
    requires Sound(p, s, stack) && t.selected == s.selected && t.plan == s.plan
    ensures Sound(p, t, stack)
  {
    forall i | 0 <= i < |t.plan| ensures GroundedAt(p, t, i) { GrowthKeepsGrounds(p, s, t, i); }
  }

  lemma {:induction false} TrySound(p: Problem, r: Requirement, s: Progress, order: seq<nat>, stack: seq<nat>)
    requires Sound(p, s, stack) && Wanted(p, stack, r)
    requires InRange(p, order) && forall k :: 0 <= k < |order| ==> MatchesAt(p, order[k], r)
    ensures var a := Try(p, Everything, s, order); a.ok ==> Sound(p, a.after, stack) && SatisfiedBy(p, a.after.selected, r)
    decreases Unselected(p, s.selected), 1, |order|
  {
    if order != [] {
      var c := order[0];
      if !Eligible(p, s.selected, c) {
        TrySound(p, r, s, order[1..], stack);
      } else {
        Shrinks(p, s, c);
        SelectKeepsSound(p, s, stack, c, r);
        DependSound(p, Select(s, c), DependsOf(p, c), stack + [c]);
        var a := Depend(p, Everything, Select(s, c), DependsOf(p, c));
        if a.ok {
          AppendKeepsSound(p, a.after, stack, c);
          assert c in a.after.selected;
        } else {
          var back := Abandon(Everything, s, c, a.after);
          StepsKeepSound(p, s, back, stack);
          TrySound(p, r, back, order[1..], stack);
        }
      }
    }
  }

  predicate MetBy(p: Problem, s: set<nat>, e: string) { exists q :: q in s && Meets(p, q, e) }

  lemma FirstIsMet(p: Problem, e: string, s: set<nat>, t: set<nat>)
    requires Within(p, s) && s <= t && ResolverParse(e).Some? && SatisfiedBy(p, s, ResolverParse(e).value)
    ensures MetBy(p, t, e)
  {
    var q :| q in s && MatchesAt(p, q, ResolverParse(e).value);
    assert q in t && Meets(p, q, e);
  }

  lemma {:induction false} DependSound(p: Problem, s: Progress, depends: seq<string>, stack: seq<nat>)
    requires Sound(p, s, stack) && stack != []
    requires forall e :: e in depends ==> e in DependsOf(p, stack[|stack| - 1])
    ensures var a := Depend(p, Everything, s, depends);
      a.ok ==> Sound(p, a.after, stack) && forall e :: e in depends ==> MetBy(p, a.after.selected, e)
    decreases Unselected(p, s.selected), 3, |depends|
  {
    if depends != [] && ResolverParse(depends[0]).Some? {
      var first, rest := depends[0], depends[1..];
      assert first in depends && forall e :: e in depends <==> e == first || e in rest;
      var r := ResolverParse(first).value;
      ResolveSound(p, r, s, stack);
      var a := Resolve(p, Everything, r, s);
      if a.ok {
        assert Unselected(p, a.after.selected) <= Unselected(p, s.selected);
        DependSound(p, a.after, rest, stack);
        var b := Depend(p, Everything, a.after, rest);
        if b.ok { FirstIsMet(p, first, a.after.selected, b.after.selected); }
      }
    }
  }

  // --- plans

  /** Entry `j` of the plan meets the dependency `e` of entry `i`, and comes before
      it or requires it in turn. */
  ghost predicate Delivers(p: Problem, plan: seq<nat>, i: nat, e: string, j: nat)
    requires i < |plan|
  {
    j < |plan| && Meets(p, plan[j], e) && (j < i || Leads(p, plan[j], plan[i]))
  }

  lemma EmptyIsSound(p: Problem, r: Requirement)
    ensures Sound(p, Start, []) && Wanted(p, [], r) && Coherent(p, Start.selected)
  {
  }

  lemma GroundedDelivers(p: Problem, t: Progress)
    requires Sound(p, t, [])
    ensures InRange(p, t.plan) && forall q :: q in t.selected <==> q in t.plan
    ensures forall i: nat, e :: i < |t.plan| && e in DependsOf(p, t.plan[i]) ==> exists j :: Delivers(p, t.plan, i, e, j)
  {
    hide Meets, Leads, Within;
    var plan := t.plan;
    forall i: nat, e | i < |plan| && e in DependsOf(p, plan[i]) ensures exists j :: Delivers(p, plan, i, e, j) {
      assert GroundedAt(p, t, i);
      var q :| Provider(p, t, i, e, q);
      if q in plan[..i] {
        var j :| 0 <= j < i && plan[j] == q;
        assert Delivers(p, plan, i, e, j);
      } else {
        var j :| 0 <= j < |plan| && plan[j] == q;
        assert Delivers(p, plan, i, e, j);
      }
    }
  }

  lemma PlanIsClosed(p: Problem, name: string, plan: seq<nat>)
    requires Planned(p, Everything, name) == Some(plan)
    ensures exists q :: q in plan && MatchesAt(p, q, Root(name))
    ensures forall i: nat, e :: i < |plan| && e in DependsOf(p, plan[i]) ==> exists j :: Delivers(p, plan, i, e, j)
    ensures forall i, j :: 0 <= i < j < |plan| ==> ManifestOf(p, plan[i]).name != ManifestOf(p, plan[j]).name
  {
    hide Delivers, Sound, MatchesAt, Resolve, PassesConflicts, RootFound, Wanted;
    EmptyIsSound(p, Root(name));
    ResolveSound(p, Root(name), Start, []);
    ResolveKeepsCoherent(p, Everything, Root(name), Start);
    GroundedDelivers(p, Resolve(p, Everything, Root(name), Start).after);
  }

  /** Without cycles each dependency is met by an earlier entry. */
  lemma AcyclicPlanIsOrdered(p: Problem, name: string, plan: seq<nat>)
    requires Planned(p, Everything, name) == Some(plan) && Acyclic(p)
    ensures forall i: nat, e :: i < |plan| && e in DependsOf(p, plan[i]) ==>
      exists j :: 0 <= j < i && Meets(p, plan[j], e)
  {
    PlanIsClosed(p, name, plan);
    forall i: nat, e | i < |plan| && e in DependsOf(p, plan[i]) ensures exists j :: 0 <= j < i && Meets(p, plan[j], e) {
      var j: nat :| Delivers(p, plan, i, e, j);
      NoWayBack(p, plan[i], e, plan[j]);
    }
  }

  lemma NoWayBack(p: Problem, a: nat, e: string, b: nat)
    requires Acyclic(p) && a < |p.candidates| && e in DependsOf(p, a) && Meets(p, b, e)
    ensures !Leads(p, b, a)
  {
    assert Needs(p, a, b);
    forall path | path != [] && Chain(p, path) && path[0] == b ensures path[|path| - 1] != a {
      var round := [a] + path;
      assert Chain(p, round) && round[|round| - 1] == path[|path| - 1];
    }
  }

  // --- the search as written against full rollback

  /** Everything newly selected is also newly planned. */
  predicate NothingLost(s: Progress, t: Progress) {
    forall x :: x in t.selected ==> x in s.selected || (|s.plan| <= |t.plan| && x in t.plan[|s.plan|..])
  }

  lemma {:induction false} ResolveAgrees(p: Problem, r: Requirement, s: Progress)
    requires Within(p, s.selected) && NothingLost(s, Resolve(p, OwnFlag, r, s).after)
    ensures Resolve(p, Everything, r, s) == Resolve(p, OwnFlag, r, s)
    decreases Unselected(p, s.selected), 2, 0
  {
    var now := s.(steps := s.steps + 1);
    if now.steps <= StepLimit && !SatisfiedBy(p, s.selected, r) && !HasName(p, s.selected, r.name) {
      TryAgrees(p, now, Arranged(p, r, s.selected));
    }
  }

  /** What a failed trial leaves behind is never planned later. */
  lemma NothingLeftBehind(s: Progress, back: Progress, t: Progress)
    requires s.plan == back.plan && s.selected <= back.selected && Extends(back, t) && NothingLost(s, t)
    ensures back.selected == s.selected
  {
    forall x | x in back.selected ensures x in s.selected {
      assert x in t.selected;
      assert forall i :: |s.plan| <= i < |t.plan| ==> t.plan[i] != x;
    }
  }

  lemma {:induction false} TryAgrees(p: Problem, s: Progress, order: seq<nat>)
    requires Within(p, s.selected) && InRange(p, order) && NothingLost(s, Try(p, OwnFlag, s, order).after)
    ensures Try(p, Everything, s, order) == Try(p, OwnFlag, s, order)
    decreases Unselected(p, s.selected), 1, |order|
  {
    if order != [] {
      var c := order[0];
      if !Eligible(p, s.selected, c) {
        TryAgrees(p, s, order[1..]);
      } else {
        Shrinks(p, s, c);
        var a := Depend(p, OwnFlag, Select(s, c), DependsOf(p, c));
        if a.ok {
          PlannedLosesNothing(s, c, a.after);
          DependAgrees(p, Select(s, c), DependsOf(p, c));
        } else {
          var back := Abandon(OwnFlag, s, c, a.after);
          AbandonExtends(p, OwnFlag, s, c, a.after);
          NothingLeftBehind(s, back, Try(p, OwnFlag, back, order[1..]).after);
          DependAgrees(p, Select(s, c), DependsOf(p, c));
          TryAgrees(p, back, order[1..]);
        }
      }
    }
  }

  lemma PlannedLosesNothing(s: Progress, c: nat, t: Progress)
    requires Extends(Select(s, c), t) && NothingLost(s, t.(plan := t.plan + [c]))
    ensures NothingLost(Select(s, c), t)
  {
    assert (t.plan + [c])[|s.plan|..] == t.plan[|s.plan|..] + [c];
  }

  lemma {:induction false} DependAgrees(p: Problem, s: Progress, depends: seq<string>)
    requires Within(p, s.selected) && NothingLost(s, Depend(p, OwnFlag, s, depends).after)
    ensures Depend(p, Everything, s, depends) == Depend(p, OwnFlag, s, depends)
    decreases Unselected(p, s.selected), 3, |depends|
  {
    if depends != [] && ResolverParse(depends[0]).Some? {
      var r := ResolverParse(depends[0]).value;
      var a := Resolve(p, OwnFlag, r, s);
      if a.ok {
        assert Unselected(p, a.after.selected) <= Unselected(p, s.selected);
        FirstLosesNothing(s, a.after, Depend(p, OwnFlag, a.after, depends[1..]).after);
        ResolveAgrees(p, r, s);
        DependAgrees(p, a.after, depends[1..]);
      } else {
        ResolveAgrees(p, r, s);
      }
    }
  }

  lemma FirstLosesNothing(s: Progress, t: Progress, u: Progress)
    requires Extends(s, t) && Extends(t, u) && NothingLost(s, u)
    ensures NothingLost(s, t) && NothingLost(t, u)
  {
    assert u.plan[|s.plan|..] == t.plan[|s.plan|..] + u.plan[|t.plan|..];
    assert forall x :: x in u.plan[|t.plan|..] ==> x !in t.selected;
  }

  /** Where the search as written succeeds, it did what full rollback does exactly
      when it ends with as many selected candidates as planned ones. */
  lemma WrittenIsFullIffCountsAgree(p: Problem, r: Requirement)
    requires Resolve(p, OwnFlag, r, Start).ok
    ensures var a := Resolve(p, OwnFlag, r, Start);
      a == Resolve(p, Everything, r, Start) <==> |a.after.selected| == |a.after.plan|
  {
    var a := Resolve(p, OwnFlag, r, Start);
    CountTells(a.after);
    if NothingLost(Start, a.after) { ResolveAgrees(p, r, Start); }
    if a == Resolve(p, Everything, r, Start) {
      ResolveSound(p, r, Start, []);
      assert a.after.plan[0..] == a.after.plan;
    }
  }

  /** Then the program's plan is one of full rollback: closed, in dependency order. */
  lemma WrittenPlanIsFull(p: Problem, name: string, plan: seq<nat>)
    requires Planned(p, OwnFlag, name) == Some(plan)
    requires |Resolve(p, OwnFlag, Root(name), Start).after.selected| == |plan|
    ensures Planned(p, Everything, name) == Some(plan)
  {
    WrittenIsFullIffCountsAgree(p, Root(name));
  }

  // --- what the search as written still gives

  predicate Covered(p: Problem, s: Progress) {
    InRange(p, s.plan) && forall i, e :: 0 <= i < |s.plan| && e in DependsOf(p, s.plan[i]) ==> MetBy(p, s.selected, e)
  }

  lemma GrowthKeepsCover(p: Problem, s: Progress, t: Progress)
    requires Covered(p, s) && s.plan == t.plan && s.selected <= t.selected
    ensures Covered(p, t)
  {
    forall i, e | 0 <= i < |t.plan| && e in DependsOf(p, t.plan[i]) ensures MetBy(p, t.selected, e) {
      assert e in DependsOf(p, s.plan[i]) && MetBy(p, s.selected, e);
      var q :| q in s.selected && Meets(p, q, e);
      assert q in t.selected;
    }
  }

  lemma {:induction false} ResolveCovers(p: Problem, r: Requirement, s: Progress)
    requires Within(p, s.selected) && Covered(p, s)
    ensures var a := Resolve(p, OwnFlag, r, s); Covered(p, a.after) && (a.ok ==> SatisfiedBy(p, a.after.selected, r))
    decreases Unselected(p, s.selected), 2, 0
  {
    hide Covered, Try, Arranged, HasName, MatchesAt;
    var now := s.(steps := s.steps + 1);
    GrowthKeepsCover(p, s, now);
    ArrangedMatch(p, r, s.selected);
    TryCovers(p, r, now, Arranged(p, r, s.selected));
  }

  lemma {:induction false} TryCovers(p: Problem, r: Requirement, s: Progress, order: seq<nat>)
    requires Within(p, s.selected) && Covered(p, s)
    requires InRange(p, order) && forall k :: 0 <= k < |order| ==> MatchesAt(p, order[k], r)
    ensures var a := Try(p, OwnFlag, s, order); Covered(p, a.after) && (a.ok ==> SatisfiedBy(p, a.after.selected, r))
    decreases Unselected(p, s.selected), 1, |order|
  {
    hide Covered, Eligible, Depend, MatchesAt;
    if order != [] {
      var c := order[0];
      if !Eligible(p, s.selected, c) {
        TryCovers(p, r, s, order[1..]);
      } else {
        Shrinks(p, s, c);
        GrowthKeepsCover(p, s, Select(s, c));
        DependCovers(p, Select(s, c), DependsOf(p, c));
        var a := Depend(p, OwnFlag, Select(s, c), DependsOf(p, c));
        AbandonExtends(p, OwnFlag, s, c, a.after);
        if a.ok {
          AppendCovers(p, a.after, c);
          assert c in a.after.selected;
        } else {
          var back := Abandon(OwnFlag, s, c, a.after);
          GrowthKeepsCover(p, s, back);
          TryCovers(p, r, back, order[1..]);
        }
      }
    }
  }

  lemma AppendCovers(p: Problem, s: Progress, c: nat)
    requires Covered(p, s) && c < |p.candidates| && forall e :: e in DependsOf(p, c) ==> MetBy(p, s.selected, e)
    ensures Covered(p, s.(plan := s.plan + [c]))
  {
    hide MetBy;
  }

  lemma {:induction false} DependCovers(p: Problem, s: Progress, depends: seq<string>)
    requires Within(p, s.selected) && Covered(p, s)
    ensures var a := Depend(p, OwnFlag, s, depends);
      Covered(p, a.after) && (a.ok ==> forall e :: e in depends ==> MetBy(p, a.after.selected, e))
    decreases Unselected(p, s.selected), 3, |depends|
  {
    hide Covered, Resolve, ResolverParse, SatisfiedBy;
    if depends != [] && ResolverParse(depends[0]).Some? {
      var first, rest := depends[0], depends[1..];
      assert first in depends && forall e :: e in depends <==> e == first || e in rest;
      var r := ResolverParse(first).value;
      ResolveCovers(p, r, s);
      var a := Resolve(p, OwnFlag, r, s);
      if a.ok {
        assert Unselected(p, a.after.selected) <= Unselected(p, s.selected);
        DependCovers(p, a.after, rest);
        var b := Depend(p, OwnFlag, a.after, rest);
        if b.ok { FirstIsMet(p, first, a.after.selected, b.after.selected); }
      }
    }
  }

  /** As written, too, each dependency of a planned candidate is met by a selected one:
      where no planned one meets it, one that was selected and lost from the plan does. */
  lemma GapMeansLost(p: Problem, r: Requirement, i: nat, e: string) returns (q: nat)
    requires var t := Resolve(p, OwnFlag, r, Start).after; i < |t.plan| && t.plan[i] < |p.candidates| && e in DependsOf(p, t.plan[i])
    requires forall x :: x in Resolve(p, OwnFlag, r, Start).after.plan ==> !Meets(p, x, e)
    ensures var t := Resolve(p, OwnFlag, r, Start).after; q in t.selected && q !in t.plan && Meets(p, q, e)
  {
    hide Resolve;
    ResolveCovers(p, r, Start);
    assert MetBy(p, Resolve(p, OwnFlag, r, Start).after.selected, e);
    q :| q in Resolve(p, OwnFlag, r, Start).after.selected && Meets(p, q, e);
  }

  function Elements(s: seq<nat>): set<nat> { set x | x in s }

  lemma CountTells(t: Progress)
    requires Extends(Start, t)
    ensures NothingLost(Start, t) <==> |t.selected| == |t.plan|
  {
    var planned := Elements(t.plan);
    DistinctCount(t.plan);
    var lost := t.selected - planned;
    assert t.plan[0..] == t.plan && planned <= t.selected;
    assert t.selected == planned + lost;
    assert |lost| == 0 <==> forall x :: x in t.selected ==> x in planned;
  }

  lemma {:induction false} DistinctCount(s: seq<nat>)
    requires forall i, j :: 0 <= i < j < |s| ==> s[i] != s[j]
    ensures |Elements(s)| == |s|
  {
    if s != [] {
      DistinctCount(s[1..]);
      assert s[0] !in s[1..];
      assert Elements(s) == {s[0]} + Elements(s[1..]);
    }
  }
}
