/** Which candidate the search takes, and a plan that the search as written gets wrong. */
module Choices {
  import opened Version
  import opened Package
  import opened Search
  import opened Solutions
  import opened Plans

  /** Candidate `m` is not taken in state `t`: its name or a conflict with what is selected
      there stands against it, or one of its dependencies is not resolved from there. */
  predicate GivenUp(p: Problem, undo: Rollback, t: Progress, m: nat)
    requires Within(p, t.selected) && m < |p.candidates|
  {
    Eligible(p, t.selected, m) ==> !Depend(p, undo, Select(t, m), DependsOf(p, m)).ok
  }

  /** What the loop goes on with after it gave up candidate `c`. */
  function AfterRound(p: Problem, undo: Rollback, s: Progress, c: nat): (back: Progress)
    requires Within(p, s.selected) && c < |p.candidates|
    ensures Within(p, back.selected) && back.plan == s.plan && s.selected <= back.selected
    ensures undo.Everything? ==> back.selected == s.selected
  {
    if !Eligible(p, s.selected, c) then s
    else
      Shrinks(p, s, c);
      var a := Depend(p, undo, Select(s, c), DependsOf(p, c));
      AbandonExtends(p, undo, s, c, a.after);
      Abandon(undo, s, c, a.after)
  }

  /** The state in which the loop, entered in `s`, has its turn with `order[k]`, the
      matches before it being given up. */
  function Turn(p: Problem, undo: Rollback, s: Progress, order: seq<nat>, k: nat): (t: Progress)
    requires Within(p, s.selected) && InRange(p, order) && k <= |order|
    ensures Within(p, t.selected) && t.plan == s.plan && s.selected <= t.selected
    ensures undo.Everything? ==> t.selected == s.selected
    decreases k
  {
    if k == 0 then s else Turn(p, undo, AfterRound(p, undo, s, order[0]), order[1..], k - 1)
  }

  /** One round of the loop: it ends with its candidate or goes on without. */
  lemma OneRound(p: Problem, undo: Rollback, s: Progress, order: seq<nat>)
    requires Within(p, s.selected) && InRange(p, order) && order != []
    ensures Try(p, undo, s, order) ==
      if GivenUp(p, undo, s, order[0]) then Try(p, undo, AfterRound(p, undo, s, order[0]), order[1..])
      else Answer(true, Taken(p, undo, s, order[0]))
  {
    hide Eligible, Depend, Abandon;
  }

  /** The state after candidate `c` is taken: its dependencies resolved, then itself planned. */
  function Taken(p: Problem, undo: Rollback, t: Progress, c: nat): Progress
    requires Within(p, t.selected) && c < |p.candidates|
  {
    var after := Depend(p, undo, Select(t, c), DependsOf(p, c)).after;
    after.(plan := after.plan + [c])
  }

  predicate EndsWith(plan: seq<nat>, c: nat) { plan != [] && plan[|plan| - 1] == c }

  /** The loop takes the first match that it does not give up at its turn, and fails only
      when it gives all of them up. */
  lemma {:induction false} TryTakesFirst(p: Problem, undo: Rollback, s: Progress, order: seq<nat>) returns (k: nat)
    requires Within(p, s.selected) && InRange(p, order)
    ensures k <= |order| && forall j :: 0 <= j < k ==> GivenUp(p, undo, Turn(p, undo, s, order, j), order[j])
    ensures var a, t := Try(p, undo, s, order), Turn(p, undo, s, order, k);
      if a.ok then k < |order| && !GivenUp(p, undo, t, order[k]) && a.after == Taken(p, undo, t, order[k])
      else k == |order| && a.after == t
    decreases |order|
  {
    hide GivenUp, AfterRound, Taken, Turn, Try;
    FirstTurn(p, undo, s, order);
    k := 0;
    if order != [] {
      var c, rest := order[0], order[1..];
      OneRound(p, undo, s, order);
      if GivenUp(p, undo, s, c) {
        var back := AfterRound(p, undo, s, c);
        var later := TryTakesFirst(p, undo, back, rest);
        k := later + 1;
        LaterTurn(p, undo, s, order, later);
        forall j | 0 <= j < k ensures GivenUp(p, undo, Turn(p, undo, s, order, j), order[j]) {
          if j > 0 { LaterTurn(p, undo, s, order, j - 1); }
        }
      }
    }
  }

  lemma FirstTurn(p: Problem, undo: Rollback, s: Progress, order: seq<nat>)
    requires Within(p, s.selected) && InRange(p, order)
    ensures Turn(p, undo, s, order, 0) == s && (order == [] ==> Try(p, undo, s, order) == Answer(false, s))
  {
  }

  lemma LaterTurn(p: Problem, undo: Rollback, s: Progress, order: seq<nat>, j: nat)
    requires Within(p, s.selected) && InRange(p, order) && j < |order|
    ensures Turn(p, undo, s, order, j + 1) == Turn(p, undo, AfterRound(p, undo, s, order[0]), order[1..], j)
    ensures j + 1 < |order| ==> order[j + 1] == order[1..][j]
  {
    hide AfterRound;
  }

  /** Match `m` had its turn before place `k` and was given up then. */
  predicate PassedOver(p: Problem, undo: Rollback, s: Progress, order: seq<nat>, k: nat, m: nat)
    requires Within(p, s.selected) && InRange(p, order) && k <= |order|
  {
    exists j :: 0 <= j < k && order[j] == m && GivenUp(p, undo, Turn(p, undo, s, order, j), m)
  }

  /** On short versions: when a requirement makes the search select a candidate, each
      strictly better match had its turn before and was given up then. */
  lemma ChosenIsBest(p: Problem, undo: Rollback, r: Requirement, s: Progress) returns (k: nat)
    requires ShortVersions(p) && Within(p, s.selected)
    requires !SatisfiedBy(p, s.selected, r) && Resolve(p, undo, r, s).ok
    ensures var order, now := Arranged(p, r, s.selected), s.(steps := s.steps + 1);
      && k < |order| && order[k] !in s.selected && MatchesAt(p, order[k], r)
      && !GivenUp(p, undo, Turn(p, undo, now, order, k), order[k])
      && Resolve(p, undo, r, s).after == Taken(p, undo, Turn(p, undo, now, order, k), order[k])
      && EndsWith(Resolve(p, undo, r, s).after.plan, order[k])
      && forall m: nat :: m < |p.candidates| && m !in s.selected && MatchesAt(p, m, r) && Outranks(p, r, m, order[k]) ==>
        PassedOver(p, undo, now, order, k, m)
  {
    hide Try, Arranged, PreferredAt, Outranks, MatchesAt, GivenUp, Turn, ShortVersions, Depend;
    var now := s.(steps := s.steps + 1);
    var order := Arranged(p, r, s.selected);
    ArrangedMatch(p, r, s.selected);
    k := TryTakesFirst(p, undo, now, order);
    assert order[k] in order;
    forall m: nat | m < |p.candidates| && m !in s.selected && MatchesAt(p, m, r) && Outranks(p, r, m, order[k])
      ensures PassedOver(p, undo, now, order, k, m)
    {
      assert m in order;
      var j :| 0 <= j < |order| && order[j] == m;
      BetterComesFirst(p, r, s.selected, j, k);
    }
  }

  lemma BetterComesFirst(p: Problem, r: Requirement, s: set<nat>, j: nat, k: nat)
    requires ShortVersions(p) && j < |Arranged(p, r, s)| && k < |Arranged(p, r, s)|
    requires Outranks(p, r, Arranged(p, r, s)[j], Arranged(p, r, s)[k])
    ensures j < k
  {
    hide ShortVersions, Outranks, Arranged;
    var order := Arranged(p, r, s);
    ArrangedOrder(p, r, s);
    PreferenceIsOrder(p, r, order[j], order[k], order[j]);
  }

  /** Packages of the wanted name are tried before packages that only provide it. */
  lemma NamesBeforeProvides(p: Problem, r: Requirement, s: set<nat>, j: nat, k: nat)
    requires j < k < |Arranged(p, r, s)|
    requires ManifestOf(p, Arranged(p, r, s)[k]).name == r.name
    ensures ManifestOf(p, Arranged(p, r, s)[j]).name == r.name
  {
    hide Arranged, CompareBoundary;
    var order := Arranged(p, r, s);
    ArrangedMatch(p, r, s);
    ArrangedByKind(p, r, s);
    assert MatchesAt(p, order[k], r);
  }

  // --- a plan of the search as written

  lemma BareName(e: string)
    requires e != "" && forall i :: 0 <= i < |e| ==> !IsOperator(e[i]) && !IsSpace(e[i])
    ensures ResolverParse(e) == Some(Root(e))
  {
  }

  predicate Simple(p: Problem, i: nat, name: string, depends: seq<string>)
    requires i < |p.candidates|
  {
    var m := ManifestOf(p, i);
    m.name == name && m.depends == depends && FitsArch(m, p.arch) && m.provided == [] && m.conflicts == []
  }

  /** The newer `app` needs `lib` and what nobody provides, the older needs `lib`. */
  predicate TwoApps(p: Problem, app: string, lib: string, missing: string) {
    && |p.candidates| == 3 && app != lib && app != missing && lib != missing
    && Simple(p, 0, app, [lib, missing]) && Simple(p, 1, app, [lib]) && Simple(p, 2, lib, [])
    && PreferredAt(p, Root(app), 0, 1)
    && app != "" && ResolverParse(lib) == Some(Root(lib)) && ResolverParse(missing) == Some(Root(missing))
  }

  lemma NewestFirst(p: Problem, app: string, lib: string, missing: string)
    requires TwoApps(p, app, lib, missing)
    ensures Arranged(p, Root(app), {}) == [0, 1]
  {
    var r := Root(app);
    assert MatchesAt(p, 0, r) && MatchesAt(p, 1, r) && !MatchesAt(p, 2, r);
    assert Matching(p, {}, r, 0) == [];
    assert Matching(p, {}, r, 1) == [0];
    assert Matching(p, {}, r, 2) == [0, 1];
    assert Matching(p, {}, r, 3) == [0, 1];
    assert Pass(p, r, [0, 1], 0, 1) == [0, 1];
    assert Sorting(p, r, [0, 1], 1) == [0, 1];
  }

  lemma OnlyLib(p: Problem, app: string, lib: string, missing: string)
    requires TwoApps(p, app, lib, missing)
    ensures Arranged(p, Root(lib), {0}) == [2]
  {
    var r := Root(lib);
    assert !MatchesAt(p, 0, r) && !MatchesAt(p, 1, r) && MatchesAt(p, 2, r);
    assert Matching(p, {0}, r, 0) == [];
    assert Matching(p, {0}, r, 1) == [];
    assert Matching(p, {0}, r, 2) == [];
    assert Matching(p, {0}, r, 3) == [2];
    assert Sorting(p, r, [2], 1) == [2];
  }

  lemma LibSelected(p: Problem, app: string, lib: string, missing: string, s: Progress)
    requires TwoApps(p, app, lib, missing) && s == Progress({0}, [], 1)
    ensures Resolve(p, OwnFlag, Root(lib), s) == Answer(true, Progress({0, 2}, [2], 2))
  {
    hide Arranged;
    OnlyLib(p, app, lib, missing);
    var now := s.(steps := s.steps + 1);
    assert Select(now, 2) == Progress({0, 2}, [], 2);
    assert Depend(p, OwnFlag, Select(now, 2), []) == Answer(true, Select(now, 2));
    assert Try(p, OwnFlag, now, [2]) == Answer(true, Progress({0, 2}, [2], 2));
  }

  lemma NoneProvides(p: Problem, app: string, lib: string, missing: string)
    requires TwoApps(p, app, lib, missing)
    ensures Arranged(p, Root(missing), {0, 2}) == []
  {
    hide PreferredAt, Arranged;
    var r := Root(missing);
    var order := Arranged(p, r, {0, 2});
    assert order != [] ==> order[0] in order;
    assert !MatchesAt(p, 0, r) && !MatchesAt(p, 1, r) && !MatchesAt(p, 2, r);
    ArrangedMatch(p, r, {0, 2});
    assert forall i: nat :: i !in order;
  }

  lemma MissingFails(p: Problem, app: string, lib: string, missing: string)
    requires TwoApps(p, app, lib, missing)
    ensures Resolve(p, OwnFlag, Root(missing), Progress({0, 2}, [2], 2)) == Answer(false, Progress({0, 2}, [2], 3))
  {
    hide PreferredAt, Arranged;
    NoneProvides(p, app, lib, missing);
  }

  lemma NewerFails(p: Problem, app: string, lib: string, missing: string)
    requires TwoApps(p, app, lib, missing)
    ensures Depend(p, OwnFlag, Progress({0}, [], 1), [lib, missing]) == Answer(false, Progress({0, 2}, [2], 3))
  {
    LibSelected(p, app, lib, missing, Progress({0}, [], 1));
    MissingFails(p, app, lib, missing);
    assert [lib, missing][1..] == [missing];
  }

  lemma OlderSucceeds(p: Problem, app: string, lib: string, missing: string)
    requires TwoApps(p, app, lib, missing)
    ensures Depend(p, OwnFlag, Progress({1, 2}, [], 3), [lib]) == Answer(true, Progress({1, 2}, [], 4))
  {
    var s := Progress({1, 2}, [], 3);
    assert 2 in s.selected && MatchesAt(p, 2, Root(lib));
    assert Resolve(p, OwnFlag, Root(lib), s) == Answer(true, s.(steps := 4));
    assert Depend(p, OwnFlag, s.(steps := 4), []) == Answer(true, s.(steps := 4));
  }

  lemma NewerAbandoned(p: Problem, app: string, lib: string, missing: string, s: Progress)
    requires TwoApps(p, app, lib, missing) && s == Progress({}, [], 1)
    ensures Try(p, OwnFlag, s, [0, 1]) == Try(p, OwnFlag, Progress({2}, [], 3), [1])
  {
    NewerFails(p, app, lib, missing);
    assert Select(s, 0) == Progress({0}, [], 1);
    assert Abandon(OwnFlag, s, 0, Progress({0, 2}, [2], 3)) == Progress({2}, [], 3);
    assert [0, 1][1..] == [1];
  }

  lemma OlderPlanned(p: Problem, app: string, lib: string, missing: string)
    requires TwoApps(p, app, lib, missing)
    ensures Try(p, OwnFlag, Progress({2}, [], 3), [1]) == Answer(true, Progress({1, 2}, [1], 4))
  {
    OlderSucceeds(p, app, lib, missing);
    assert Select(Progress({2}, [], 3), 1) == Progress({1, 2}, [], 3);
  }

  lemma AppResolved(p: Problem, app: string, lib: string, missing: string, s: Progress)
    requires TwoApps(p, app, lib, missing) && s == Start
    ensures Resolve(p, OwnFlag, Root(app), s) == Answer(true, Progress({1, 2}, [1], 4))
  {
    var now := s.(steps := s.steps + 1);
    NewestFirst(p, app, lib, missing);
    NewerAbandoned(p, app, lib, missing, now);
    OlderPlanned(p, app, lib, missing);
  }

  /** The older app is planned without its dependency: the library stays selected
      from the trial of the newer app, but left the plan. */
  lemma DependencyLost(p: Problem, app: string, lib: string, missing: string)
    requires TwoApps(p, app, lib, missing)
    ensures Planned(p, OwnFlag, app) == Some([1])
    ensures lib in DependsOf(p, 1) && !Meets(p, 1, lib)
  {
    AppResolved(p, app, lib, missing, Start);
    assert p.candidates[0] in p.candidates;
  }

  function Archive(name: string, version: string, depends: seq<string>): Candidate {
    Candidate(Manifest(1, name, version, 1, "noarch", "", "", depends, [], [], []), name + "-" + version + ".pux")
  }

  lemma TwoIsNewer()
    ensures CompareBoundary("2", "1") == 1
  {
    assert Cut("2", false) == Part("2", End) && Cut("1", false) == Part("1", End);
    assert Value("2") == 2 by { assert Value("2"[..0]) == 0; }
    assert Value("1") == 1 by { assert Value("1"[..0]) == 0; }
  }

  /** Such a catalogue. */
  lemma TwoAppsExist()
    ensures TwoApps(
      Problem([Archive("app", "2", ["lib", "missing"]), Archive("app", "1", ["lib"]), Archive("lib", "1", [])], "x86_64"),
      "app", "lib", "missing")
  {
    hide CompareBoundary, ResolverParse;
    TwoIsNewer();
    BareName("lib");
    BareName("missing");
  }
}
