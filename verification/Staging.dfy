/** Facts about laying a staged payload over a tree and taking it back, on values. */
module Staging {
  import opened Strings
  import opened Database
  import opened Tree

  // --- the parent of a path

  function DirName(p: string): (d: string)
    ensures |d| <= |p|
  {
    if p == "" then ""
    else if p[|p| - 1] == '/' then p[..|p| - 1]
    else DirName(p[..|p| - 1])
  }

  /** What mkdir and rename need of the parent of their target. */
  predicate CanCreate(t: Tree, p: string) { DirName(p) == "" || (DirName(p) in t && t[DirName(p)].Dir?) }

  lemma {:induction false} DirNameBelow(p: string)
    requires DirName(p) != ""
    ensures Below(p, DirName(p))
  {
    var q := p[..|p| - 1];
    if p[|p| - 1] != '/' {
      DirNameBelow(q);
      assert p[..|DirName(p)|] == q[..|DirName(p)|];
    }
  }

  lemma AddKeepsWellFormed(t: Tree, p: string, n: Node)
    requires WellFormed(t) && ParentsPresent(t, p) && (p in t ==> !t[p].Dir? || n.Dir?)
    ensures WellFormed(t[p := n])
  {
    var t' := t[p := n];
    forall q | q in t' ensures ParentsPresent(t', q) { assert ParentsPresent(t, q); }
  }

  lemma LeafIsEmpty(t: Tree, p: string)
    requires WellFormed(t) && (p in t ==> !t[p].Dir?)
    ensures Empty(t, p)
  {
    forall q | q in t ensures !Below(q, p) { assert ParentsPresent(t, q); }
  }

  // --- placing a payload

  /** The payload `s` fits over `t`: the same kind of node wherever both have one. */
  ghost predicate Fits(t: Tree, s: Tree) {
    WellFormed(t) && WellFormed(s) && SafePaths(s) &&
    forall p :: p in s && p in t ==> (s[p].Dir? <==> t[p].Dir?)
  }

  /** `created` and `moved` are a part of `s` that was laid over `t`. */
  ghost predicate Placed(t: Tree, s: Tree, created: seq<string>, moved: seq<string>) {
    && Distinct(created) && Distinct(moved) && ParentsFirst(created)
    && (forall p :: p in created ==> p in s && s[p].Dir? && p !in t)
    && (forall p :: p in moved ==> p in s && !s[p].Dir?)
  }

  /** All of the payload: missing directories created, everything else moved in. */
  ghost predicate AllPlaced(t: Tree, s: Tree, created: seq<string>, moved: seq<string>) {
    && (forall p :: p in s && s[p].Dir? ==> p in t || p in created)
    && (forall p :: p in s && !s[p].Dir? ==> p in moved)
  }

  /** The tree with the whole payload in place; existing directories keep their node. */
  function Committed(t: Tree, s: Tree): Tree {
    t + (map p | p in s && !(s[p].Dir? && p in t) :: s[p])
  }

  lemma AllPlacedIsCommitted(t: Tree, s: Tree, created: seq<string>, moved: seq<string>)
    requires Placed(t, s, created, moved) && AllPlaced(t, s, created, moved)
    ensures Overlay(t, s, created + moved) == Committed(t, s)
  {
    assert (map p | p in created + moved && p in s :: s[p]) == (map p | p in s && !(s[p].Dir? && p in t) :: s[p]);
  }

  /** The directories a commit has to create, and the files and links it moves in: one
      call for each. */
  function NewDirs(t: Tree, s: Tree): set<string> { set p | p in s && s[p].Dir? && p !in t }

  function LeafPaths(s: Tree): set<string> { set p | p in s && !s[p].Dir? }

  function CommitCalls(t: Tree, s: Tree): nat { |NewDirs(t, s)| + |LeafPaths(s)| }

  /** When its turn comes, every directory above an entry is there. */
  lemma ParentsPlaced(t: Tree, s: Tree, files: seq<Entry>, i: nat, placed: seq<string>)
    requires Fits(t, s) && Records(files, s) && ParentsFirst(Paths(files)) && i < |files|
    requires forall j :: 0 <= j < |files| && (files[i].kind.DirKind? ==> j < i) && files[j].kind.DirKind?
               ==> files[j].path in t || files[j].path in placed
    requires forall p :: p in placed ==> p in s && (s[p].Dir? || Empty(s, p))
    ensures ParentsPresent(Overlay(t, s, placed), files[i].path)
  {
    var p, ps := files[i].path, Paths(files);
    assert ParentsPresent(s, p);
    forall d | Below(p, d) ensures d in Overlay(t, s, placed) && Overlay(t, s, placed)[d].Dir? {
      assert d in s && s[d].Dir?;
      var j :| 0 <= j < |files| && files[j].path == d;
      assert ps[i] == p && ps[j] == d;
    }
  }

  /** The directories created for the first `i` entries of the list. */
  ghost predicate Creating(t: Tree, s: Tree, files: seq<Entry>, i: nat, created: seq<string>) {
    && i <= |files| && Placed(t, s, created, [])
    && (forall p :: p in created ==> exists j :: 0 <= j < i && files[j].path == p)
    && (forall j :: 0 <= j < i && files[j].kind.DirKind? ==> files[j].path in t || files[j].path in created)
  }

  lemma CreateNext(t: Tree, s: Tree, files: seq<Entry>, i: nat, created: seq<string>)
    requires Fits(t, s) && Records(files, s) && ParentsFirst(Paths(files)) && i < |files|
    requires Creating(t, s, files, i, created) && files[i].kind.DirKind? && files[i].path !in t
    ensures var p, now := files[i].path, Overlay(t, s, created);
      && p in s && s[p].Dir? && p !in now && ParentsPresent(now, p)
      && Creating(t, s, files, i + 1, created + [p])
      && Overlay(t, s, created + [p]) == now[p := s[p]]
  {
    var p, ps := files[i].path, Paths(files);
    assert ps[i] == p && p in s && s[p].Dir?;
    forall q | q in created ensures q != p && !Below(q, p) {
      var j :| 0 <= j < i && files[j].path == q;
      assert ps[j] == q;
    }
    assert files[i].kind.DirKind?;
    CreateParents(t, s, files, i, created);
    CreatingSnoc(t, s, files, i, created);
    OverlaySnoc(t, s, created, p);
  }

  lemma CreateParents(t: Tree, s: Tree, files: seq<Entry>, i: nat, created: seq<string>)
    requires Fits(t, s) && Records(files, s) && ParentsFirst(Paths(files)) && i < |files|
    requires Creating(t, s, files, i, created) && files[i].kind.DirKind?
    ensures ParentsPresent(Overlay(t, s, created), files[i].path)
  {
    hide ParentsFirst, ParentsPresent;
    ParentsPlaced(t, s, files, i, created);
  }

  lemma CreatingSnoc(t: Tree, s: Tree, files: seq<Entry>, i: nat, created: seq<string>)
    requires Creating(t, s, files, i, created) && i < |files|
    requires var p := files[i].path; p in s && s[p].Dir? && p !in t && forall q :: q in created ==> q != p && !Below(q, p)
    ensures Creating(t, s, files, i + 1, created + [files[i].path])
  {
    hide Below;
    assert forall k :: 0 <= k < |created| ==> created[k] in created;
    forall p | p in created + [files[i].path] ensures exists j :: 0 <= j < i + 1 && files[j].path == p {
      if p in created { var j :| 0 <= j < i && files[j].path == p; }
    }
  }

  /** The files and links among the first `i` entries, moved after all directories. */
  ghost predicate Moving(t: Tree, s: Tree, files: seq<Entry>, i: nat, created: seq<string>, moved: seq<string>) {
    && i <= |files| && Placed(t, s, created, moved)
    && (forall p :: p in moved ==> exists j :: 0 <= j < i && files[j].path == p)
    && (forall j :: 0 <= j < |files| && files[j].kind.DirKind? ==> files[j].path in t || files[j].path in created)
    && (forall j :: 0 <= j < i && !files[j].kind.DirKind? ==> files[j].path in moved)
  }

  lemma MoveNext(t: Tree, s: Tree, files: seq<Entry>, i: nat, created: seq<string>, moved: seq<string>)
    requires Fits(t, s) && Records(files, s) && ParentsFirst(Paths(files)) && i < |files|
    requires Moving(t, s, files, i, created, moved) && !files[i].kind.DirKind?
    ensures var p, now := files[i].path, Overlay(t, s, created + moved);
      && p in s && !s[p].Dir? && p !in moved && !(p in now && now[p].Dir?) && ParentsPresent(now, p)
      && Moving(t, s, files, i + 1, created, moved + [p])
      && Overlay(t, s, created + (moved + [p])) == now[p := s[p]]
  {
    var p, ps := files[i].path, Paths(files);
    assert ps[i] == p && p in s && !s[p].Dir?;
    forall q | q in moved ensures q != p {
      var j :| 0 <= j < i && files[j].path == q;
      assert ps[j] == q;
    }
    hide ParentsPresent, ParentsFirst;
    MoveParents(t, s, files, i, created, moved);
    assert created + (moved + [p]) == (created + moved) + [p];
    OverlaySnoc(t, s, created + moved, p);
    MovingSnoc(t, s, files, i, created, moved);
  }

  lemma MoveParents(t: Tree, s: Tree, files: seq<Entry>, i: nat, created: seq<string>, moved: seq<string>)
    requires Fits(t, s) && Records(files, s) && ParentsFirst(Paths(files)) && i < |files|
    requires Moving(t, s, files, i, created, moved) && !files[i].kind.DirKind?
    ensures ParentsPresent(Overlay(t, s, created + moved), files[i].path)
  {
    forall q | q in created + moved ensures q in s && (s[q].Dir? || Empty(s, q)) {
      if q in moved { LeafIsEmpty(s, q); }
    }
    ParentsPlaced(t, s, files, i, created + moved);
  }

  lemma MovingSnoc(t: Tree, s: Tree, files: seq<Entry>, i: nat, created: seq<string>, moved: seq<string>)
    requires Moving(t, s, files, i, created, moved) && i < |files|
    requires var p := files[i].path; p in s && !s[p].Dir? && p !in moved
    ensures Moving(t, s, files, i + 1, created, moved + [files[i].path])
  {
    forall p | p in moved + [files[i].path] ensures exists j :: 0 <= j < i + 1 && files[j].path == p {
      if p in moved { var j :| 0 <= j < i && files[j].path == p; }
    }
  }

  lemma MoveSkip(t: Tree, s: Tree, files: seq<Entry>, i: nat, created: seq<string>, moved: seq<string>)
    requires Moving(t, s, files, i, created, moved) && i < |files| && files[i].kind.DirKind?
    ensures Moving(t, s, files, i + 1, created, moved)
  {
    forall p | p in moved ensures exists j :: 0 <= j < i + 1 && files[j].path == p {
      var j :| 0 <= j < i && files[j].path == p;
    }
  }

  lemma MovingDone(t: Tree, s: Tree, files: seq<Entry>, created: seq<string>, moved: seq<string>)
    requires Records(files, s) && Moving(t, s, files, |files|, created, moved)
    ensures AllPlaced(t, s, created, moved)
  {
    forall p | p in s ensures if s[p].Dir? then p in t || p in created else p in moved {
      var j :| 0 <= j < |files| && files[j].path == p;
    }
  }

  /** Taking back the last file moved in. */
  lemma UndoMove(t: Tree, s: Tree, created: seq<string>, moved: seq<string>, k: nat)
    requires Placed(t, s, created, moved) && k < |moved|
    ensures var now := Overlay(Without(t, moved[k + 1..]), s, created + moved[..k + 1]);
      && moved[k] in now && !now[moved[k]].Dir?
      && now - {moved[k]} == Overlay(Without(t, moved[k..]), s, created + moved[..k])
  {
    var q, early, late := moved[k], created + moved[..k], moved[k + 1..];
    assert q in moved && q !in created;
    assert created + moved[..k + 1] == early + [q];
    assert moved[k..] == [q] + late;
    OverlaySnoc(Without(t, late), s, early, q);
    assert q !in early;
    assert Without(t, late) - {q} == Without(t, [q] + late);
    OverlayWithout(Without(t, late), s, early, q);
  }

  lemma OverlayWithout(t: Tree, s: Tree, ps: seq<string>, q: string)
    requires q !in ps && q in s
    ensures Overlay(t, s, ps)[q := s[q]] - {q} == Overlay(t - {q}, s, ps)
  {
  }

  /** Taking back the last directory created: nothing is left below it. */
  lemma UndoCreate(t: Tree, s: Tree, created: seq<string>, k: nat)
    requires Distinct(created) && k < |created| && created[k] in s
    requires forall p :: p in created ==> p !in t
    ensures Overlay(t, s, created[..k + 1]) - {created[k]} == Overlay(t, s, created[..k])
  {
    var q, before := created[k], Overlay(t, s, created[..k]);
    assert created[..k + 1] == created[..k] + [q];
    OverlaySnoc(t, s, created[..k], q);
    assert q in created && q !in created[..k];
    assert q !in before;
  }

  lemma NothingBelow(t: Tree, s: Tree, created: seq<string>, k: nat)
    requires ParentsFirst(created) && k < |created|
    requires forall p :: p in t ==> !Below(p, created[k])
    ensures Empty(Overlay(t, s, created[..k + 1]), created[k])
  {
    forall p | p in created[..k + 1] ensures !Below(p, created[k]) {
      var j :| 0 <= j <= k && created[j] == p;
    }
  }

  lemma ParentsGiveCanCreate(t: Tree, p: string)
    requires ParentsPresent(t, p)
    ensures CanCreate(t, p)
  {
    if DirName(p) != "" { DirNameBelow(p); }
  }

  // --- moving recorded files aside

  /** What access answers on a link, whose target it looks for: that it is there, that
      it is not (ENOENT), or another failure, as on a link to itself. */
  datatype Access = Reaches | Missing | Fails

  type AccessTest = (Tree, string) -> Access

  /** The existence test of a removal. */
  predicate Visible(t: Tree, p: string, access: AccessTest) { p in t && (t[p].Link? ==> access(t, p).Reaches?) }

  /** The test stops the removal. */
  predicate Stuck(t: Tree, p: string, access: AccessTest) { p in t && t[p].Link? && access(t, p).Fails? }

  /** The existence test of an upgrade: lstat sees every node. */
  function Lstat(): AccessTest { (t, p) => Reaches }

  function LessOne(t: Tree, e: Entry, access: AccessTest): Tree {
    if !e.kind.DirKind? && Visible(t, e.path, access) then t - {e.path} else t
  }

  /** What is left after moving the listed files and links aside, in list order. */
  function Aside(t: Tree, files: seq<Entry>, access: AccessTest): Tree {
    if files == [] then t else Aside(LessOne(t, files[0], access), files[1..], access)
  }

  /** How many are moved. */
  function AsideCalls(t: Tree, files: seq<Entry>, access: AccessTest): nat {
    if files == [] then 0
    else
      var e := files[0];
      (if !e.kind.DirKind? && Visible(t, e.path, access) then 1 else 0) + AsideCalls(LessOne(t, e, access), files[1..], access)
  }

  /** No test on the way stops the removal. */
  predicate NeverStuck(t: Tree, files: seq<Entry>, access: AccessTest) {
    files != [] ==>
      && (!files[0].kind.DirKind? ==> !Stuck(t, files[0].path, access))
      && NeverStuck(LessOne(t, files[0], access), files[1..], access)
  }

  function Leaves(files: seq<Entry>): set<string> { set e | e in files && !e.kind.DirKind? :: e.path }

  /** `aside` holds what was taken out of `t`. */
  ghost predicate TakenOut(t: Tree, now: Tree, aside: Tree, moved: seq<string>) {
    && Distinct(moved) && (forall p :: p in moved ==> p in t && !t[p].Dir?)
    && now == Without(t, moved)
    && aside == (map p | p in moved && p in t :: t[p])
  }

  lemma TakeOutOne(t: Tree, moved: seq<string>, p: string)
    requires p in t && p !in moved
    ensures Without(t, moved + [p]) == Without(t, moved) - {p}
    ensures (map q | q in moved + [p] && q in t :: t[q]) == (map q | q in moved && q in t :: t[q])[p := t[p]]
  {
  }

  lemma TakenOutKeepsWellFormed(t: Tree, now: Tree, aside: Tree, moved: seq<string>)
    requires WellFormed(t) && TakenOut(t, now, aside, moved)
    ensures WellFormed(now)
    ensures forall p :: p in moved ==> ParentsPresent(now, p)
  {
    forall p | p in t ensures ParentsPresent(now, p) { assert ParentsPresent(t, p); }
  }

  lemma OverlayKeepsParents(t: Tree, s: Tree, ps: seq<string>, p: string)
    requires ParentsPresent(t, p) && forall q :: q in ps ==> q !in t
    ensures ParentsPresent(Overlay(t, s, ps), p)
  {
  }

  /** After a rollback of the commit: `lost` was unlinked from what the files in
      `moved` had been taken out of. They can all go back. */
  lemma RestoreReady(t: Tree, mid: Tree, aside: Tree, moved: seq<string>, lost: seq<string>)
    requires WellFormed(t) && TakenOut(t, mid, aside, moved)
    requires forall p :: p in lost && p in t ==> !t[p].Dir?
    ensures aside.Keys == set p | p in moved
    ensures forall p :: p in moved ==> ParentsPresent(Without(mid, lost), p) && p !in Without(mid, lost)
  {
    forall p | p in moved ensures ParentsPresent(Without(mid, lost), p) { assert ParentsPresent(t, p); }
  }

  lemma PutBackAll(t: Tree, mid: Tree, aside: Tree, moved: seq<string>, lost: seq<string>)
    requires TakenOut(t, mid, aside, moved)
    ensures Overlay(Without(mid, lost), aside, moved) == t - (set p | p in lost && p in mid)
  {
  }

  lemma PutBackOne(base: Tree, aside: Tree, moved: seq<string>, k: nat)
    requires k < |moved| && moved[k] in aside
    ensures Overlay(base, aside, moved[k + 1..])[moved[k] := aside[moved[k]]] == Overlay(base, aside, moved[k..])
  {
    assert moved[k..] == [moved[k]] + moved[k + 1..];
    OverlayCons(base, aside, moved[k], moved[k + 1..]);
  }

  lemma OverlayCons(t: Tree, s: Tree, q: string, ps: seq<string>)
    requires q in s
    ensures Overlay(t, s, [q] + ps) == Overlay(t, s, ps)[q := s[q]]
  {
  }

  /** Under lstat every recorded file and link goes. */
  lemma {:induction false} AsideTakesLeaves(t: Tree, files: seq<Entry>)
    ensures Aside(t, files, Lstat()) == t - Leaves(files) && NeverStuck(t, files, Lstat())
  {
    if files != [] {
      var e := files[0];
      AsideTakesLeaves(LessOne(t, e, Lstat()), files[1..]);
      assert files == [e] + files[1..];
      assert Leaves(files) == Leaves(files[1..]) + if e.kind.DirKind? then {} else {e.path};
    }
  }

  function LeavesThere(t: Tree, files: seq<Entry>): set<string> { set p | p in Leaves(files) && p in t }

  lemma LeavesStep(t: Tree, e: Entry, rest: seq<Entry>)
    ensures LeavesThere(t, [e] + rest) ==
      if !e.kind.DirKind? && e.path in t then {e.path} + LeavesThere(t - {e.path}, rest) else LeavesThere(t, rest)
    ensures e.path !in LeavesThere(t - {e.path}, rest)
  {
    assert Leaves([e] + rest) == Leaves(rest) + if e.kind.DirKind? then {} else {e.path};
  }

  /** lstat: one call for each recorded file or link that is there. */
  lemma {:induction false} AsideCallsAll(t: Tree, files: seq<Entry>)
    ensures AsideCalls(t, files, Lstat()) == |LeavesThere(t, files)|
  {
    hide LeavesThere;
    if files != [] {
      AsideCallsAll(LessOne(t, files[0], Lstat()), files[1..]);
      assert files == [files[0]] + files[1..];
      LeavesStep(t, files[0], files[1..]);
    } else {
      NoLeaves(t);
    }
  }

  lemma NoLeaves(t: Tree)
    ensures LeavesThere(t, []) == {}
  {
  }

  // --- pruning directories

  /** A directory that pruning deletes: nothing below it but directories that
      may go as well. */
  predicate Removable(t: Tree, may: set<string>, d: string) {
    d in may && d in t && t[d].Dir? && forall p :: p in t && Below(p, d) ==> p in may && t[p].Dir?
  }

  function Pruned(t: Tree, may: set<string>): Tree { t - (set d | d in may && Removable(t, may, d)) }

  /** When everything below it had its turn, rmdir succeeds on just the removable
      directories. */
  lemma PruneOne(t: Tree, may: set<string>, gone: set<string>, d: string)
    requires forall x :: x in gone ==> Removable(t, may, x)
    requires forall x :: x in may && Removable(t, may, x) && Below(x, d) ==> x in gone
    requires d in may && d in t && t[d].Dir?
    ensures Empty(t - gone, d) <==> Removable(t, may, d)
  {
    if Removable(t, may, d) {
      forall p | p in t && Below(p, d) ensures p in gone {
        forall q | q in t && Below(q, p) ensures q in may && t[q].Dir? { BelowTransitive(q, p, d); }
      }
    }
    if Empty(t - gone, d) {
      forall p | p in t && Below(p, d) ensures p in may && t[p].Dir? {
        assert p in gone;
      }
    }
  }

  /** In a descending list everything below entry `i` comes before it. */
  lemma ChildrenComeFirst(files: seq<Entry>, i: nat, p: string)
    requires Descending(files) && i < |files| && Below(p, files[i].path) && Lists(files, p)
    ensures Lists(files[..i], p)
  {
    var j :| 0 <= j < |files| && files[j].path == p;
    BelowIsGreater(p, files[i].path);
    StrCmpZero(p, files[i].path);
    assert j < i;
    assert files[..i][j].path == p;
  }

  lemma PruneKeepsWellFormed(t: Tree, may: set<string>)
    requires WellFormed(t)
    ensures WellFormed(Pruned(t, may))
  {
    var now := Pruned(t, may);
    forall p | p in now ensures ParentsPresent(now, p) {
      assert ParentsPresent(t, p);
      forall d | Below(p, d) ensures d in now {
        if Removable(t, may, d) {
          forall q | q in t && Below(q, p) ensures q in may && t[q].Dir? { BelowTransitive(q, p, d); }
          assert Removable(t, may, p);
        }
      }
    }
  }

  lemma CommitKeepsWellFormed(t: Tree, s: Tree)
    requires Fits(t, s)
    ensures WellFormed(Committed(t, s))
  {
    var now := Committed(t, s);
    forall p | p in now ensures ParentsPresent(now, p) {
      if p in s { assert ParentsPresent(s, p); } else { assert ParentsPresent(t, p); }
    }
  }
}
