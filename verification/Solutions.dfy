/** What the search keeps, finds and prefers. */
module Solutions {
  import opened Strings
  import opened Version
  import opened VersionOrder
  import opened Package
  import opened Search

  // --- the exchange sort

  lemma PassStep(p: Problem, r: Requirement, m: seq<nat>, i: nat, j: nat) returns (next: seq<nat>)
    requires InRange(p, m) && i < j < |m|
    ensures InRange(p, next) && |next| == |m| && multiset(next) == multiset(m) && forall k :: 0 <= k < i ==> next[k] == m[k]
    ensures Pass(p, r, m, i, j) == Pass(p, r, next, i, j + 1)
  {
    hide PreferredAt;
    SwapPermutes(m, i, j);
    next := if PreferredAt(p, r, m[i], m[j]) then m else m[i := m[j]][j := m[i]];
  }

  lemma SwapPermutes(m: seq<nat>, i: nat, j: nat)
    requires i < j < |m|
    ensures multiset(m[i := m[j]][j := m[i]]) == multiset(m)
  {
  }

  lemma {:induction false} PassPermutes(p: Problem, r: Requirement, m: seq<nat>, i: nat, j: nat)
    requires InRange(p, m) && i < j <= |m|
    ensures multiset(Pass(p, r, m, i, j)) == multiset(m)
    ensures forall k :: 0 <= k < i ==> Pass(p, r, m, i, j)[k] == m[k]
    decreases |m| - j
  {
    if j < |m| {
      var next := PassStep(p, r, m, i, j);
      PassPermutes(p, r, next, i, j + 1);
    }
  }

  /** The sorted matches are the matches. */
  lemma {:induction false} SortingPermutes(p: Problem, r: Requirement, m: seq<nat>, i: nat)
    requires InRange(p, m)
    ensures multiset(Sorting(p, r, m, i)) == multiset(m)
    decreases |m| - i
  {
    if i < |m| {
      PassPermutes(p, r, m, i, i + 1);
      SortingPermutes(p, r, Pass(p, r, m, i, i + 1), i + 1);
    }
  }

  /** What is tried are the unselected matches, all of them. */
  lemma ArrangedMatch(p: Problem, r: Requirement, s: set<nat>)
    ensures forall i: nat :: i in Arranged(p, r, s) <==> i < |p.candidates| && i !in s && MatchesAt(p, i, r)
    ensures forall k :: 0 <= k < |Arranged(p, r, s)| ==> MatchesAt(p, Arranged(p, r, s)[k], r)
  {
    var m := Matching(p, s, r, |p.candidates|);
    SortingPermutes(p, r, m, 0);
    var order := Arranged(p, r, s);
    forall i: nat ensures i in order <==> i in m { assert i in order <==> i in multiset(order); }
    assert forall k :: 0 <= k < |order| ==> order[k] in order;
  }

  predicate ShortVersions(p: Problem) { forall c :: c in p.candidates ==> Short(c.manifest.version) }

  /** A transitive relation that the exchange sort establishes: it holds of whatever
      comes before and what comes after it when they are compared. */
  ghost predicate Ranks(p: Problem, r: Requirement, good: (nat, nat) -> bool) {
    && (forall i: nat, j: nat :: i < |p.candidates| && j < |p.candidates| ==> if PreferredAt(p, r, i, j) then good(i, j) else good(j, i))
    && (forall i: nat, j: nat, k: nat :: good(i, j) && good(j, k) ==> good(i, k))
  }

  predicate Heads(good: (nat, nat) -> bool, x: nat, m: seq<nat>, from: nat) { forall k :: from <= k < |m| ==> good(x, m[k]) }

  /** Every element has the relation to all that come after it. */
  predicate Ordered(good: (nat, nat) -> bool, m: seq<nat>, n: nat)
    requires n <= |m|
  {
    forall k :: 0 <= k < n ==> Heads(good, m[k], m, k + 1)
  }

  lemma {:induction false} PassKeepsHead(p: Problem, r: Requirement, good: (nat, nat) -> bool, m: seq<nat>, i: nat, j: nat, x: nat)
    requires InRange(p, m) && i < j <= |m| && Heads(good, x, m, i)
    ensures Heads(good, x, Pass(p, r, m, i, j), i)
    decreases |m| - j
  {
    hide PreferredAt;
    if j < |m| { PassKeepsHead(p, r, good, if PreferredAt(p, r, m[i], m[j]) then m else m[i := m[j]][j := m[i]], i, j + 1, x); }
  }

  lemma {:induction false} PassFindsBest(p: Problem, r: Requirement, good: (nat, nat) -> bool, m: seq<nat>, i: nat, j: nat)
    requires Ranks(p, r, good) && InRange(p, m) && i < j <= |m|
    requires forall k :: i < k < j ==> good(m[i], m[k])
    ensures Heads(good, Pass(p, r, m, i, j)[i], Pass(p, r, m, i, j), i + 1)
    decreases |m| - j
  {
    hide PreferredAt;
    if j < |m| {
      var next := if PreferredAt(p, r, m[i], m[j]) then m else m[i := m[j]][j := m[i]];
      assert good(next[i], next[j]);
      forall k | i < k < j + 1 ensures good(next[i], next[k]) { }
      PassFindsBest(p, r, good, next, i, j + 1);
    }
  }

  lemma PassOrdersOne(p: Problem, r: Requirement, good: (nat, nat) -> bool, m: seq<nat>, i: nat)
    requires Ranks(p, r, good) && InRange(p, m) && i < |m| && Ordered(good, m, i)
    ensures Ordered(good, Pass(p, r, m, i, i + 1), i + 1)
  {
    hide Ranks, Pass;
    PassFindsBest(p, r, good, m, i, i + 1);
    var next := Pass(p, r, m, i, i + 1);
    forall k | 0 <= k < i ensures Heads(good, next[k], next, k + 1) { HeadStays(p, r, good, m, i, k); }
  }

  lemma HeadStays(p: Problem, r: Requirement, good: (nat, nat) -> bool, m: seq<nat>, i: nat, k: nat)
    requires InRange(p, m) && k < i < |m| && Heads(good, m[k], m, k + 1)
    ensures var next := Pass(p, r, m, i, i + 1); Heads(good, next[k], next, k + 1)
  {
    hide Pass, PreferredAt;
    PassPermutes(p, r, m, i, i + 1);
    PassKeepsHead(p, r, good, m, i, i + 1, m[k]);
  }

  lemma {:induction false} SortingOrders(p: Problem, r: Requirement, good: (nat, nat) -> bool, m: seq<nat>, i: nat)
    requires Ranks(p, r, good) && InRange(p, m) && i <= |m| && Ordered(good, m, i)
    ensures Ordered(good, Sorting(p, r, m, i), |m|)
    decreases |m| - i
  {
    hide Ranks, Pass, Ordered;
    if i < |m| {
      PassOrdersOne(p, r, good, m, i);
      SortingOrders(p, r, good, Pass(p, r, m, i, i + 1), i + 1);
    }
  }

  lemma ArrangedRanks(p: Problem, r: Requirement, s: set<nat>, good: (nat, nat) -> bool)
    requires Ranks(p, r, good)
    ensures Ordered(good, Arranged(p, r, s), |Arranged(p, r, s)|)
  {
    hide Ranks;
    SortingOrders(p, r, good, Matching(p, s, r, |p.candidates|), 0);
  }

  /** How well a candidate matches: 2 by name, 1 as a provider. */
  function KindOf(p: Problem, r: Requirement, i: nat): nat
    requires i < |p.candidates|
  {
    CandidateMatch(p.candidates[i].manifest, r, p.arch)
  }

  /** `i` is the better candidate: by the kind of match, then the higher version, then the
      higher release, then the path that sorts first. */
  predicate Outranks(p: Problem, r: Requirement, i: nat, j: nat)
    requires i < |p.candidates| && j < |p.candidates|
  {
    var a, b := p.candidates[i], p.candidates[j];
    var c := CompareBoundary(a.manifest.version, b.manifest.version);
    || KindOf(p, r, i) > KindOf(p, r, j)
    || (KindOf(p, r, i) == KindOf(p, r, j) && c > 0)
    || (KindOf(p, r, i) == KindOf(p, r, j) && c == 0 && a.manifest.release > b.manifest.release)
    || (KindOf(p, r, i) == KindOf(p, r, j) && c == 0 && a.manifest.release == b.manifest.release && StrCmp(a.path, b.path) < 0)
  }

  /** `j` is not strictly better than `i`. */
  predicate AsGood(p: Problem, r: Requirement, i: nat, j: nat) {
    i < |p.candidates| && j < |p.candidates| && !Outranks(p, r, j, i)
  }

  /** On short versions the preference is a strict weak order. */
  lemma PreferenceIsOrder(p: Problem, r: Requirement, i: nat, j: nat, k: nat)
    requires ShortVersions(p) && i < |p.candidates| && j < |p.candidates| && k < |p.candidates|
    ensures PreferredAt(p, r, i, j) <==> Outranks(p, r, i, j)
    ensures Outranks(p, r, i, j) ==> AsGood(p, r, i, j)
    ensures AsGood(p, r, i, j) && AsGood(p, r, j, k) ==> AsGood(p, r, i, k)
  {
    var a, b, c := p.candidates[i], p.candidates[j], p.candidates[k];
    var u, v, w := a.manifest.version, b.manifest.version, c.manifest.version;
    BoundaryIsTotalPreorder(u, v, w);
    BoundaryIsTotalPreorder(w, v, u);
    BoundaryIsTotalPreorder(u, w, v);
    BoundaryIsTotalPreorder(v, w, u);
    BoundaryIsTotalPreorder(v, u, w);
    StrCmpZero(a.path, b.path);
    StrCmpZero(b.path, c.path);
    StrCmpZero(a.path, c.path);
    if StrCmp(a.path, b.path) <= 0 && StrCmp(b.path, c.path) <= 0 { StrCmpTransitive(a.path, b.path, c.path); }
  }

  /** On short versions the matches are tried best first. */
  lemma ArrangedOrder(p: Problem, r: Requirement, s: set<nat>)
    requires ShortVersions(p)
    ensures forall j, k :: 0 <= j < k < |Arranged(p, r, s)| ==> AsGood(p, r, Arranged(p, r, s)[j], Arranged(p, r, s)[k])
  {
    hide ShortVersions, PreferredAt, Outranks, Arranged;
    var good := (i: nat, j: nat) => AsGood(p, r, i, j);
    forall i: nat, j: nat | i < |p.candidates| && j < |p.candidates| ensures if PreferredAt(p, r, i, j) then good(i, j) else good(j, i) {
      PreferenceIsOrder(p, r, i, j, i);
    }
    forall i: nat, j: nat, k: nat | good(i, j) && good(j, k) ensures good(i, k) { PreferenceIsOrder(p, r, i, j, k); }
    ArrangedRanks(p, r, s, good);
    var order := Arranged(p, r, s);
    forall j, k | 0 <= j < k < |order| ensures AsGood(p, r, order[j], order[k]) {
      assert Heads(good, order[j], order, j + 1);
    }
  }

  /** On short versions matches are tried by kind, then from the highest version down, then
      from the highest release down, then by path. */
  lemma TriedInOrder(p: Problem, r: Requirement, s: set<nat>, j: nat, k: nat)
    requires ShortVersions(p) && j < k < |Arranged(p, r, s)|
    ensures var x, y := Arranged(p, r, s)[j], Arranged(p, r, s)[k];
      var a, b := p.candidates[x], p.candidates[y];
      var c := CompareBoundary(a.manifest.version, b.manifest.version);
      && KindOf(p, r, x) >= KindOf(p, r, y)
      && (KindOf(p, r, x) == KindOf(p, r, y) ==> c >= 0)
      && (KindOf(p, r, x) == KindOf(p, r, y) && c == 0 ==> a.manifest.release >= b.manifest.release)
      && (KindOf(p, r, x) == KindOf(p, r, y) && c == 0 && a.manifest.release == b.manifest.release ==> StrCmp(a.path, b.path) <= 0)
  {
    hide CandidateMatch, Arranged, Short, CompareBoundary, StrCmp;
    var x, y := Arranged(p, r, s)[j], Arranged(p, r, s)[k];
    ArrangedOrder(p, r, s);
    assert AsGood(p, r, x, y);
    ShortAntisymmetric(p, x, y);
    StrCmpZero(p.candidates[x].path, p.candidates[y].path);
  }

  lemma ShortAntisymmetric(p: Problem, x: nat, y: nat)
    requires ShortVersions(p) && x < |p.candidates| && y < |p.candidates|
    ensures var u, v := p.candidates[x].manifest.version, p.candidates[y].manifest.version;
      CompareBoundary(u, v) == -CompareBoundary(v, u)
  {
    var u, v := p.candidates[x].manifest.version, p.candidates[y].manifest.version;
    BoundaryIsTotalPreorder(u, v, u);
  }

  /** Whatever the versions, a match of a better kind is tried first. */
  lemma ArrangedByKind(p: Problem, r: Requirement, s: set<nat>)
    ensures var order := Arranged(p, r, s); forall j, k :: 0 <= j < k < |order| ==>
      CandidateMatch(ManifestOf(p, order[j]), r, p.arch) >= CandidateMatch(ManifestOf(p, order[k]), r, p.arch)
  {
    hide Arranged, CandidateMatch, StrCmp;
    var kind := (i: nat) => if i < |p.candidates| then CandidateMatch(ManifestOf(p, i), r, p.arch) else 0;
    var good := (i: nat, j: nat) => kind(i) >= kind(j);
    forall i: nat, j: nat | i < |p.candidates| && j < |p.candidates| ensures if PreferredAt(p, r, i, j) then good(i, j) else good(j, i) { }
    forall i: nat, j: nat, k: nat | good(i, j) && good(j, k) ensures good(i, k) { }
    ArrangedRanks(p, r, s, good);
    var order := Arranged(p, r, s);
    forall j, k | 0 <= j < k < |order| ensures kind(order[j]) >= kind(order[k]) {
      assert Heads(good, order[j], order, j + 1);
    }
  }

  // --- the selection is coherent at every moment

  predicate Fits(p: Problem, i: nat)
    requires i < |p.candidates|
  {
    FitsArch(ManifestOf(p, i), p.arch)
  }

  /** Two selected candidates differ in name and do not conflict either way. */
  predicate Apart(l: Manifest, r: Manifest) { l.name != r.name && !Clash(l, r) && !Clash(r, l) }

  predicate Coherent(p: Problem, s: set<nat>)
    requires Within(p, s)
  {
    && (forall i :: i in s ==> Fits(p, i) && Supported(ManifestOf(p, i)))
    && (forall i, j :: i in s && j in s && i != j ==> Apart(ManifestOf(p, i), ManifestOf(p, j)))
  }

  lemma {:induction false} ResolveKeepsCoherent(p: Problem, undo: Rollback, r: Requirement, s: Progress)
    requires Within(p, s.selected) && Coherent(p, s.selected)
    ensures Coherent(p, Resolve(p, undo, r, s).after.selected)
    decreases Unselected(p, s.selected), 2, 0
  {
    var now := s.(steps := s.steps + 1);
    ArrangedMatch(p, r, s.selected);
    TryKeepsCoherent(p, undo, now, Arranged(p, r, s.selected));
  }

  lemma SelectKeepsCoherent(p: Problem, s: Progress, c: nat)
    requires Within(p, s.selected) && Coherent(p, s.selected) && c < |p.candidates| && Fits(p, c) && Eligible(p, s.selected, c)
    ensures Coherent(p, Select(s, c).selected)
  {
  }

  lemma FewerCoherent(p: Problem, s: set<nat>, t: set<nat>)
    requires Within(p, t) && s <= t && Coherent(p, t)
    ensures Coherent(p, s)
  {
  }

  lemma {:induction false} TryKeepsCoherent(p: Problem, undo: Rollback, s: Progress, order: seq<nat>)
    requires Within(p, s.selected) && Coherent(p, s.selected)
    requires InRange(p, order) && forall k :: 0 <= k < |order| ==> Fits(p, order[k])
    ensures Coherent(p, Try(p, undo, s, order).after.selected)
    decreases Unselected(p, s.selected), 1, |order|
  {
    hide Coherent, Eligible, Depend, Fits;
    if order != [] {
      var c := order[0];
      if !Eligible(p, s.selected, c) {
        TryKeepsCoherent(p, undo, s, order[1..]);
      } else {
        Shrinks(p, s, c);
        SelectKeepsCoherent(p, s, c);
        DependKeepsCoherent(p, undo, Select(s, c), ManifestOf(p, c).depends);
        var a := Depend(p, undo, Select(s, c), ManifestOf(p, c).depends);
        if !a.ok {
          var back := Abandon(undo, s, c, a.after);
          assert s.selected <= back.selected <= a.after.selected;
          FewerCoherent(p, back.selected, a.after.selected);
          assert Unselected(p, back.selected) <= Unselected(p, s.selected);
          TryKeepsCoherent(p, undo, back, order[1..]);
        }
      }
    }
  }

  lemma {:induction false} DependKeepsCoherent(p: Problem, undo: Rollback, s: Progress, depends: seq<string>)
    requires Within(p, s.selected) && Coherent(p, s.selected)
    ensures Coherent(p, Depend(p, undo, s, depends).after.selected)
    decreases Unselected(p, s.selected), 3, |depends|
  {
    if depends != [] && ResolverParse(depends[0]).Some? {
      var r := ResolverParse(depends[0]).value;
      ResolveKeepsCoherent(p, undo, r, s);
      var a := Resolve(p, undo, r, s);
      assert Unselected(p, a.after.selected) <= Unselected(p, s.selected);
      DependKeepsCoherent(p, undo, a.after, depends[1..]);
    }
  }

  /** The conflict pass over the finished plan never fails: what the search selects
      already passes it, with or without full rollback. */
  lemma ConflictPassNeverFails(p: Problem, undo: Rollback, r: Requirement)
    ensures var plan := Resolve(p, undo, r, Start).after.plan; InRange(p, plan) && PassesConflicts(p, plan)
  {
    ResolveKeepsCoherent(p, undo, r, Start);
    var after := Resolve(p, undo, r, Start).after;
    forall i, j | 0 <= i < j < |after.plan|
      ensures HoldsApart(ManifestOf(p, after.plan[i]), ManifestOf(p, after.plan[j]))
      ensures HoldsApart(ManifestOf(p, after.plan[j]), ManifestOf(p, after.plan[i]))
    {
      assert after.plan[i] in after.selected && after.plan[j] in after.selected && after.plan[i] != after.plan[j];
    }
  }

  predicate IsPackageFile(path: string) { |path| > 4 && path[|path| - 4..] == ".pux" }

  /** There is a plan exactly if the package asked for is there under its own name for the
      machine, the search succeeds, and every package it planned is an archive. */
  lemma PlanExistsIff(p: Problem, undo: Rollback, name: string)
    ensures var a := Resolve(p, undo, Root(name), Start);
      PlanPaths(p, undo, name).Some? <==>
        && name != "" && (exists c :: c in p.candidates && c.manifest.name == name && (c.manifest.arch == p.arch || c.manifest.arch == "noarch"))
        && a.ok && forall i :: i in a.after.plan ==> i < |p.candidates| && IsPackageFile(p.candidates[i].path)
    ensures var a, paths := Resolve(p, undo, Root(name), Start), PlanPaths(p, undo, name);
      paths.Some? ==> PlannedPaths(p, a.after.plan, paths.value)
  {
    hide Resolve, PassesConflicts;
    ConflictPassNeverFails(p, undo, Root(name));
  }

  predicate PlannedPaths(p: Problem, plan: seq<nat>, paths: seq<string>) {
    |paths| == |plan| && forall k :: 0 <= k < |plan| ==> plan[k] < |p.candidates| && paths[k] == p.candidates[plan[k]].path
  }

  /** The search gives up after 65536 requirements. */
  lemma LimitIs(p: Problem, undo: Rollback, r: Requirement, s: Progress)
    requires Within(p, s.selected) && SatisfiedBy(p, s.selected, r)
    ensures Resolve(p, undo, r, s).ok <==> s.steps < 65536
  {
  }
}
