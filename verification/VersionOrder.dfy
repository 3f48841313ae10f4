/** What the version comparators compute: a lexicographic order on lists of
    parts, on exactly which versions it is a total preorder, and on exactly
    which versions the two ways of cutting a string agree. */
module VersionOrder {
  import opened Strings
  import opened Version

  // --- the order on lists of parts

  /** Lexicographic order, a proper prefix being lower. */
  function Lex(l: Parts, r: Parts): int {
    if l.End? && r.End? then 0
    else if l.End? then -1
    else if r.End? then 1
    else if ComparePart(l.text, r.text) != 0 then ComparePart(l.text, r.text)
    else Lex(l.rest, r.rest)
  }

  lemma ComparePartOrder(a: string, b: string, c: string)
    ensures ComparePart(a, a) == 0
    ensures ComparePart(a, b) == -ComparePart(b, a)
    ensures ComparePart(a, b) <= 0 && ComparePart(b, c) <= 0 ==>
              ComparePart(a, c) <= 0 && (ComparePart(a, c) == 0 <==> ComparePart(a, b) == 0 && ComparePart(b, c) == 0)
  {
    StrCmpZero(a, a);
    StrCmpZero(a, b);
    StrCmpZero(b, c);
    StrCmpZero(a, c);
    if StrCmp(a, b) <= 0 && StrCmp(b, c) <= 0 { StrCmpTransitive(a, b, c); }
  }

  lemma {:induction false} LexAntisymmetric(l: Parts, r: Parts)
    ensures Lex(l, r) == -Lex(r, l)
  {
    if l.Part? && r.Part? {
      ComparePartOrder(l.text, r.text, r.text);
      LexAntisymmetric(l.rest, r.rest);
    }
  }

  lemma {:induction false} LexTransitive(a: Parts, b: Parts, c: Parts)
    requires Lex(a, b) <= 0 && Lex(b, c) <= 0
    ensures Lex(a, c) <= 0
  {
    if a.Part? && b.Part? && c.Part? {
      ComparePartOrder(a.text, b.text, c.text);
      if ComparePart(a.text, b.text) == 0 && ComparePart(b.text, c.text) == 0 { LexTransitive(a.rest, b.rest, c.rest); }
    }
  }

  // --- from the loops to the order

  predicate Shorter(ps: Parts, limit: nat) { ps.Part? ==> |ps.text| < limit && Shorter(ps.rest, limit) }

  lemma {:induction false} WalkIsLex(l: Parts, r: Parts, limit: nat, rule: Overflow, strcmp: int)
    requires Shorter(l, limit) && Shorter(r, limit)
    ensures Walk(l, r, limit, rule, strcmp) == Lex(l, r)
  {
    if l.Part? && r.Part? { WalkIsLex(l.rest, r.rest, limit, rule, strcmp); }
  }

  lemma {:induction false} WalkCommonPrefix(ps: Parts, l: Parts, r: Parts, limit: nat, rule: Overflow, strcmp: int)
    requires Shorter(ps, limit)
    ensures Walk(Append(ps, l), Append(ps, r), limit, rule, strcmp) == Walk(l, r, limit, rule, strcmp)
  {
    if ps.Part? {
      ComparePartOrder(ps.text, ps.text, ps.text);
      WalkCommonPrefix(ps.rest, l, r, limit, rule, strcmp);
    }
  }

  lemma {:induction false} ShorterAppend(a: Parts, b: Parts, limit: nat)
    ensures Shorter(Append(a, b), limit) <==> Shorter(a, limit) && Shorter(b, limit)
  {
    if a.Part? { ShorterAppend(a.rest, b, limit); }
  }

  lemma {:induction false} ShorterMonotone(ps: Parts, m: nat, n: nat)
    requires Shorter(ps, m) && m <= n
    ensures Shorter(ps, n)
  {
    if ps.Part? { ShorterMonotone(ps.rest, m, n); }
  }

  /** All parts fit the smallest buffer, that of the resolver and the database. */
  predicate Short(v: string) { Shorter(Cut(v, false), 64) }

  /** The resolver's comparison is the lexicographic order of the parts, and a
      total preorder, on short versions. */
  lemma BoundaryIsTotalPreorder(a: string, b: string, c: string)
    requires Short(a) && Short(b) && Short(c)
    ensures CompareBoundary(a, b) == Lex(Cut(a, false), Cut(b, false))
    ensures CompareBoundary(a, b) == -CompareBoundary(b, a)
    ensures CompareBoundary(a, b) <= 0 && CompareBoundary(b, c) <= 0 ==> CompareBoundary(a, c) <= 0
  {
    var x, y, z := Cut(a, false), Cut(b, false), Cut(c, false);
    WalkIsLex(x, y, 64, Fallback, StrCmp(a, b));
    WalkIsLex(y, x, 64, Fallback, StrCmp(b, a));
    WalkIsLex(y, z, 64, Fallback, StrCmp(b, c));
    WalkIsLex(x, z, 64, Fallback, StrCmp(a, c));
    LexAntisymmetric(x, y);
    if Lex(x, y) <= 0 && Lex(y, z) <= 0 { LexTransitive(x, y, z); }
  }

  lemma {:induction false} WalkAlike(ps: Parts, limit: nat, rule: Overflow)
    ensures Walk(ps, ps, limit, rule, 0) == 0
  {
    if ps.Part? {
      ComparePartOrder(ps.text, ps.text, ps.text);
      WalkAlike(ps.rest, limit, rule);
    }
  }

  /** Every comparator calls a version equal to itself, however long its parts. */
  lemma SameVersion(v: string)
    ensures CompareBoundary(v, v) == 0 && CompareIndex(v, v) == 0 && CompareRuns(v, v) == 0 && CompareCli(v, v) == 0
  {
    StrCmpZero(v, v);
    WalkAlike(Cut(v, false), 64, Fallback);
    WalkAlike(Cut(v, false), 128, FallbackAfter);
    WalkAlike(Cut(v, true), 128, AsEnd);
    WalkAlike(Cut(v, true), 128, AsEqual);
  }

  /** The parts before the first that does not fit. */
  function Fitting(ps: Parts, limit: nat): Parts {
    if ps.End? || |ps.text| >= limit then End else Part(ps.text, Fitting(ps.rest, limit))
  }

  lemma {:induction false} WalkToOverlong(l: Parts, r: Parts, limit: nat, strcmp: int)
    ensures Walk(l, r, limit, AsEnd, strcmp) == Lex(Fitting(l, limit), Fitting(r, limit))
  {
    if l.Part? && r.Part? { WalkToOverlong(l.rest, r.rest, limit, strcmp); }
  }

  /** The comparison of the transactions, which ends at an overlong part, is a total
      preorder on all versions. */
  lemma RunsIsTotalPreorder(a: string, b: string, c: string)
    ensures CompareRuns(a, b) == Lex(Fitting(Cut(a, true), 128), Fitting(Cut(b, true), 128))
    ensures CompareRuns(a, b) == -CompareRuns(b, a)
    ensures CompareRuns(a, b) <= 0 && CompareRuns(b, c) <= 0 ==> CompareRuns(a, c) <= 0
  {
    var x, y, z := Fitting(Cut(a, true), 128), Fitting(Cut(b, true), 128), Fitting(Cut(c, true), 128);
    WalkToOverlong(Cut(a, true), Cut(b, true), 128, StrCmp(a, b));
    WalkToOverlong(Cut(b, true), Cut(a, true), 128, StrCmp(b, a));
    WalkToOverlong(Cut(b, true), Cut(c, true), 128, StrCmp(b, c));
    WalkToOverlong(Cut(a, true), Cut(c, true), 128, StrCmp(a, c));
    LexAntisymmetric(x, y);
    if Lex(x, y) <= 0 && Lex(y, z) <= 0 { LexTransitive(x, y, z); }
  }

  /** Within a family the comparators differ only in what they do with overlong parts. */
  lemma FamiliesAgree(a: string, b: string)
    ensures Shorter(Cut(a, false), 128) && Shorter(Cut(b, false), 128) ==> CompareIndex(a, b) == Lex(Cut(a, false), Cut(b, false))
    ensures Shorter(Cut(a, true), 128) && Shorter(Cut(b, true), 128) ==>
      CompareCli(a, b) == CompareRuns(a, b) == Lex(Cut(a, true), Cut(b, true))
  {
    if Shorter(Cut(a, false), 128) && Shorter(Cut(b, false), 128) {
      WalkIsLex(Cut(a, false), Cut(b, false), 128, FallbackAfter, StrCmp(a, b));
    }
    if Shorter(Cut(a, true), 128) && Shorter(Cut(b, true), 128) {
      WalkIsLex(Cut(a, true), Cut(b, true), 128, AsEqual, StrCmp(a, b));
      WalkIsLex(Cut(a, true), Cut(b, true), 128, AsEnd, StrCmp(a, b));
    }
  }

  // --- cutting concatenated strings

  /** No run spans the place where `x` meets `y`. */
  predicate Break(x: string, y: string, whole: bool) {
    x == "" || y == "" || !Joins(x[|x| - 1], y[0], whole)
  }

  lemma {:induction false} CutAppend(x: string, y: string, whole: bool)
    requires Break(x, y, whole)
    ensures Cut(x + y, whole) == Append(Cut(x, whole), Cut(y, whole))
  {
    if x == "" {
      assert x + y == y;
    } else {
      assert (x + y)[1..] == x[1..] + y;
      CutAppend(x[1..], y, whole);
    }
  }

  /** `s` is a single run. */
  predicate OneRun(s: string, whole: bool) {
    s != "" && IsAlnum(s[0]) && forall k :: 0 < k < |s| ==> Joins(s[k - 1], s[k], whole)
  }

  lemma {:induction false} CutOneRun(s: string, whole: bool)
    requires OneRun(s, whole)
    ensures Cut(s, whole) == Part(s, End)
  {
    if |s| > 1 {
      assert forall k :: 0 < k < |s| - 1 ==> Joins(s[1..][k - 1], s[1..][k], whole);
      CutOneRun(s[1..], whole);
      assert s == [s[0]] + s[1..];
    } else {
      assert s == [s[0]] && s[1..] == "";
    }
  }

  /** What precedes the first part of a string, that part, and what follows it. */
  lemma {:induction false} FirstPart(s: string, whole: bool) returns (gap: string, run: string, rest: string)
    requires Cut(s, whole).Part?
    ensures s == gap + (run + rest) && Cut(gap, whole).End? && OneRun(run, whole)
    ensures Break(run, rest, whole) && (gap != "" ==> !IsAlnum(gap[|gap| - 1]))
    decreases |s|
  {
    assert s == [s[0]] + s[1..];
    if !IsAlnum(s[0]) {
      gap, run, rest := FirstPart(s[1..], whole);
      assert ([s[0]] + gap)[1..] == gap;
      gap := [s[0]] + gap;
    } else if |s| > 1 && Joins(s[0], s[1], whole) {
      gap, run, rest := FirstPart(s[1..], whole);
      assert gap == "";
      run := [s[0]] + run;
    } else {
      gap, run, rest := "", [s[0]], s[1..];
    }
  }

  predicate All(ps: Parts, good: string -> bool) { ps.Part? ==> good(ps.text) && All(ps.rest, good) }

  lemma {:induction false} AllAppend(a: Parts, b: Parts, good: string -> bool)
    ensures All(Append(a, b), good) <==> All(a, good) && All(b, good)
  {
    if a.Part? { AllAppend(a.rest, b, good); }
  }

  /** A string with a part that is not `good`, split before the first such part. */
  lemma {:induction false} SplitAtBad(s: string, whole: bool, good: string -> bool)
    returns (pre: string, run: string, rest: string)
    requires !All(Cut(s, whole), good)
    ensures s == pre + (run + rest) && OneRun(run, whole) && !good(run)
    ensures Break(run, rest, whole) && Break(pre, run, whole)
    ensures All(Cut(pre, whole), good)
    decreases |s|
  {
    var gap, run0, rest0 := FirstPart(s, whole);
    CutFirst(gap, run0, rest0, whole);
    if !good(run0) {
      pre, run, rest := gap, run0, rest0;
    } else {
      var pre0;
      pre0, run, rest := SplitAtBad(rest0, whole, good);
      assert rest0[0] == if pre0 == "" then run[0] else pre0[0];
      SplitGlue(gap, run0, pre0, run, whole, good);
      Regroup(gap, run0, pre0, run + rest);
      pre := gap + (run0 + pre0);
    }
  }

  lemma Regroup(a: string, b: string, c: string, d: string)
    ensures a + (b + (c + d)) == (a + (b + c)) + d
  {
  }

  lemma CutFirst(gap: string, run: string, rest: string, whole: bool)
    requires Cut(gap, whole).End? && OneRun(run, whole) && Break(run, rest, whole)
    requires gap != "" ==> !IsAlnum(gap[|gap| - 1])
    ensures Cut(gap + (run + rest), whole) == Part(run, Cut(rest, whole))
  {
    CutAppend(gap, run + rest, whole);
    CutAppend(run, rest, whole);
    CutOneRun(run, whole);
  }

  lemma SplitGlue(gap: string, run0: string, pre0: string, run: string, whole: bool, good: string -> bool)
    requires Cut(gap, whole).End? && OneRun(run0, whole) && good(run0)
    requires gap != "" ==> !IsAlnum(gap[|gap| - 1])
    requires Break(run0, pre0, whole) && (pre0 == "" ==> Break(run0, run, whole))
    requires run != "" && Break(pre0, run, whole)
    requires All(Cut(pre0, whole), good)
    ensures Break(gap + (run0 + pre0), run, whole)
    ensures All(Cut(gap + (run0 + pre0), whole), good)
  {
    CutFirst(gap, run0, pre0, whole);
  }

  // --- the 64 character limit

  /** `v` takes its place among the short versions without breaking the order. */
  ghost predicate Consistent(v: string) {
    forall a, b :: Short(a) && Short(b) && CompareBoundary(a, b) <= 0 && CompareBoundary(b, v) <= 0
      ==> CompareBoundary(a, v) <= 0
  }

  /** The strcmp fallback breaks transitivity at every version that triggers it,
      and at no other: the order is consistent at `v` exactly when all parts of
      `v` have less than 64 characters. */
  lemma ConsistentIffShort(v: string)
    ensures Consistent(v) <==> Short(v)
  {
    if Short(v) {
      forall a, b | Short(a) && Short(b) && CompareBoundary(a, b) <= 0 && CompareBoundary(b, v) <= 0
        ensures CompareBoundary(a, v) <= 0
      {
        BoundaryIsTotalPreorder(a, b, v);
      }
    } else {
      var a, b := LongPartBreaksOrder(v);
    }
  }

  lemma {:induction false} ShorterIsAll(ps: Parts, limit: nat, good: string -> bool)
    requires forall p :: good(p) <==> |p| < limit
    ensures Shorter(ps, limit) <==> All(ps, good)
  {
    if ps.Part? { ShorterIsAll(ps.rest, limit, good); }
  }

  /** With `pre` what comes before the first long part: pre~ < pre!9 < v < pre~. */
  lemma LongPartBreaksOrder(v: string) returns (a: string, b: string)
    requires !Short(v)
    ensures Short(a) && Short(b)
    ensures CompareBoundary(a, b) < 0 && CompareBoundary(b, v) < 0 && CompareBoundary(a, v) > 0
  {
    var good := (p: string) => |p| < 64;
    ShorterIsAll(Cut(v, false), 64, good);
    var pre, run, rest := SplitAtBad(v, false, good);
    ShorterIsAll(Cut(pre, false), 64, good);
    CutAppend(pre, run + rest, false);
    CutAppend(run, rest, false);
    CutOneRun(run, false);
    a, b := LongPartWalk(v, pre, run + rest, Cut(run + rest, false));
  }

  lemma LongPartWalk(v: string, pre: string, rest: string, long: Parts) returns (a: string, b: string)
    requires v == pre + rest && rest != "" && IsAlnum(rest[0]) && Short(pre)
    requires Cut(v, false) == Append(Cut(pre, false), long) && TooLong(long, 64)
    ensures Short(a) && Short(b)
    ensures CompareBoundary(a, b) < 0 && CompareBoundary(b, v) < 0 && CompareBoundary(a, v) > 0
  {
    a, b := pre + "~", pre + "!9";
    WitnessOrder(pre, a, b);
    LongPartFallsBack(v, pre, rest, long, "!9", Part("9", End));
    LongPartFallsBack(v, pre, rest, long, "~", End);
    assert StrCmp("!9", rest) < 0 && StrCmp("~", rest) > 0;
  }

  lemma LongPartFallsBack(v: string, pre: string, rest: string, long: Parts, x: string, tail: Parts)
    requires v == pre + rest && Short(pre)
    requires Cut(v, false) == Append(Cut(pre, false), long) && TooLong(long, 64)
    requires Cut(pre + x, false) == Append(Cut(pre, false), tail)
    ensures CompareBoundary(pre + x, v) == StrCmp(x, rest)
  {
    WalkCommonPrefix(Cut(pre, false), tail, long, 64, Fallback, StrCmp(pre + x, v));
    StrCmpCommonPrefix(pre, x, rest);
  }

  lemma WitnessOrder(pre: string, a: string, b: string)
    requires Short(pre) && a == pre + "~" && b == pre + "!9"
    ensures Cut(a, false) == Append(Cut(pre, false), End)
    ensures Cut(b, false) == Append(Cut(pre, false), Part("9", End))
    ensures Short(a) && Short(b) && CompareBoundary(a, b) < 0
  {
    var ps := Cut(pre, false);
    PartsOfWitnesses(pre);
    ShorterAppend(ps, End, 64);
    ShorterAppend(ps, Part("9", End), 64);
    WalkCommonPrefix(ps, End, Part("9", End), 64, Fallback, StrCmp(a, b));
  }

  /** What the two strings built around a prefix are cut into. */
  lemma PartsOfWitnesses(pre: string)
    ensures Cut(pre + "~", false) == Append(Cut(pre, false), End)
    ensures Cut(pre + "!9", false) == Append(Cut(pre, false), Part("9", End))
  {
    CutAppend(pre, "~", false);
    CutAppend(pre, "!9", false);
    CutOneRun("9", false);
    assert "!9"[1..] == "9" && "~"[1..] == "";
  }

  // --- whole runs against runs cut at class boundaries

  /** A digit stands next to a letter at `k`. */
  predicate Mixed(v: string, k: nat) { 0 < k < |v| && Joins(v[k - 1], v[k], true) && !Joins(v[k - 1], v[k], false) }

  /** Every run is all digits or all letters. */
  predicate Plain(v: string) { forall k: nat :: k < |v| ==> !Mixed(v, k) }

  /** All whole runs fit the smallest buffer. */
  predicate ShortRuns(v: string) { Shorter(Cut(v, true), 64) }

  lemma {:induction false} PlainCutsAgree(v: string)
    requires Plain(v)
    ensures Cut(v, false) == Cut(v, true)
  {
    if v != "" {
      assert !Mixed(v, 1);
      forall k: nat ensures !Mixed(v[1..], k) { assert !Mixed(v, k + 1); }
      PlainCutsAgree(v[1..]);
    }
  }

  /** On plain short versions all five comparators return the lexicographic order. */
  lemma PlainComparatorsAgree(a: string, b: string)
    requires Plain(a) && Plain(b) && ShortRuns(a) && ShortRuns(b)
    ensures var c := Lex(Cut(a, false), Cut(b, false));
      && CompareBoundary(a, b) == c && CompareIndex(a, b) == c
      && CompareRuns(a, b) == c && CompareCli(a, b) == c
  {
    PlainCutsAgree(a);
    PlainCutsAgree(b);
    var x, y := Cut(a, false), Cut(b, false);
    ShorterMonotone(x, 64, 128);
    ShorterMonotone(y, 64, 128);
    WalkIsLex(x, y, 64, Fallback, StrCmp(a, b));
    WalkIsLex(x, y, 128, FallbackAfter, StrCmp(a, b));
    WalkIsLex(x, y, 128, AsEnd, StrCmp(a, b));
    WalkIsLex(x, y, 128, AsEqual, StrCmp(a, b));
  }

  /** A run that both families leave whole. */
  predicate Tame(run: string) { Plain(run) && |run| < 64 }

  /** The resolver and the upgrade check rank `v` alike against every plain short version. */
  ghost predicate Agreeable(v: string) {
    forall w :: Plain(w) && ShortRuns(w) ==> CompareBoundary(v, w) == CompareRuns(v, w)
  }

  /** The two families agree on a version exactly when each of its runs is short
      and does not mix digits and letters. */
  lemma AgreeableIffPlain(v: string)
    ensures Agreeable(v) <==> Plain(v) && ShortRuns(v)
  {
    if Plain(v) && ShortRuns(v) {
      forall w | Plain(w) && ShortRuns(w) ensures CompareBoundary(v, w) == CompareRuns(v, w) {
        PlainComparatorsAgree(v, w);
      }
    } else {
      var w := WildRunSplitsComparators(v);
    }
  }

  lemma {:induction false} TameRuns(v: string)
    requires All(Cut(v, true), Tame)
    ensures Plain(v) && ShortRuns(v)
  {
    if v != "" {
      var ps, rest := Cut(v, true), Cut(v[1..], true);
      var joined := |v| > 1 && Joins(v[0], v[1], true);
      if joined {
        CutStartsHere(v[1..], true);
        assert !Mixed(ps.text, 1);
        forall k: nat ensures !Mixed(rest.text, k) { assert !Mixed(ps.text, k + 1); }
      }
      TameRuns(v[1..]);
      forall k: nat | k < |v| ensures !Mixed(v, k) {
        if k > 1 { assert !Mixed(v[1..], k - 1); }
      }
    }
  }

  lemma CutStartsHere(y: string, whole: bool)
    requires y != "" && IsAlnum(y[0])
    ensures Cut(y, whole).Part? && Cut(y, whole).text != "" && Cut(y, whole).text[0] == y[0]
  {
  }

  lemma {:induction false} StrCmpLonger(p: string, t: string)
    requires t != ""
    ensures StrCmp(p + t, p) == 1
  {
    StrCmpCommonPrefix(p, t, "");
    assert p + "" == p;
  }

  /** A version around its first run that is long or mixed: that run is `piece + inner`,
      and `piece` its first part where it is cut at class boundaries. */
  predicate AtWildRun(v: string, pre: string, piece: string, inner: string, rest: string) {
    var run, c := piece + inner, Cut(pre, true);
    && v == pre + (piece + (inner + rest))
    && OneRun(run, true) && OneRun(piece, false) && Break(piece, inner, false)
    && Break(pre, piece, true) && All(c, Tame) && !Tame(run)
    && Cut(v, false) == Append(c, Part(piece, Cut(inner + rest, false)))
    && Cut(v, true) == Append(c, Part(run, Cut(rest, true)))
  }

  lemma FirstWildRun(v: string) returns (pre: string, piece: string, inner: string, rest: string)
    requires !(Plain(v) && ShortRuns(v))
    ensures AtWildRun(v, pre, piece, inner, rest)
  {
    hide All, Plain, Cut, Joins;
    if All(Cut(v, true), Tame) { TameRuns(v); }
    var run;
    pre, run, rest := SplitAtBad(v, true, Tame);
    piece, inner := FirstPiece(run);
    assert (piece + inner)[0] == piece[0];
    assert (piece + inner) + rest == piece + (inner + rest);
    WildRunCuts(pre, piece, inner, rest);
  }

  /** The first of the parts that a run is cut into at class boundaries. */
  lemma FirstPiece(run: string) returns (piece: string, inner: string)
    requires OneRun(run, true)
    ensures run == piece + inner && OneRun(piece, false) && Break(piece, inner, false)
  {
    var gap;
    CutStartsHere(run, false);
    gap, piece, inner := FirstPart(run, false);
    if gap != "" { CutStartsHere(gap, false); }
    assert gap + (piece + inner) == piece + inner;
  }

  lemma WildRunCuts(pre: string, piece: string, inner: string, rest: string)
    requires OneRun(piece + inner, true) && OneRun(piece, false) && Break(piece, inner, false)
    requires Break(pre, piece + inner, true) && Break(piece + inner, rest, true) && All(Cut(pre, true), Tame)
    ensures Cut(pre + (piece + (inner + rest)), false) == Append(Cut(pre, true), Part(piece, Cut(inner + rest, false)))
    ensures Cut(pre + ((piece + inner) + rest), true) == Append(Cut(pre, true), Part(piece + inner, Cut(rest, true)))
  {
    TameRuns(pre);
    PlainCutsAgree(pre);
    CutAppend(pre, piece + (inner + rest), false);
    CutAppend(piece, inner + rest, false);
    CutOneRun(piece, false);
    CutAppend(pre, (piece + inner) + rest, true);
    CutAppend(piece + inner, rest, true);
    CutOneRun(piece + inner, true);
  }

  /** Numbers written behind separators that are above every letter and digit. */
  function Spell(ps: Parts): (s: string)
    ensures s != "" && s[0] == '~'
  {
    "~" + if ps.End? then "" else ps.text + Spell(ps.rest)
  }

  predicate Numbers(ps: Parts) {
    ps.Part? ==> ps.text != "" && AllDigits(ps.text) && |ps.text| < 64 && Numbers(ps.rest)
  }

  lemma {:induction false} SpellCuts(ps: Parts, whole: bool)
    requires Numbers(ps)
    ensures Cut(Spell(ps), whole) == ps && All(ps, Tame)
  {
    if ps.Part? {
      var tail := ps.text + Spell(ps.rest);
      assert Spell(ps)[1..] == tail;
      SpellCuts(ps.rest, whole);
      CutAppend(ps.text, Spell(ps.rest), whole);
      CutOneRun(ps.text, whole);
    } else {
      assert Spell(ps)[1..] == "";
    }
  }

  /** A list of numbers above `ps`: its numbers are copied up to the first word, which
      every number is above, or up to its end; nothing follows at a long part. */
  function Above(ps: Parts): (a: Parts)
    ensures Numbers(a)
  {
    if TooLong(ps, 64) then End
    else if ps.End? || !AllDigits(ps.text) || ps.text == "" then Part("9", End)
    else Part(ps.text, Above(ps.rest))
  }

  lemma {:induction false} AboveIsHigher(ps: Parts)
    ensures Walk(ps, Above(ps), 64, Fallback, -1) == -1
  {
    if ps.Part? && AllDigits(ps.text) {
      if ps.text != "" && |ps.text| < 64 { AboveIsHigher(ps.rest); }
      assert Value("9") == 9 by { assert Value("9"[..0]) == 0; }
    }
  }

  /** A plain string built on the part before the wild run, and how both families
      compare the version with it. */
  lemma AgainstWitness(v: string, pre: string, piece: string, inner: string, rest: string, x: string, ps: Parts, w: string)
    requires AtWildRun(v, pre, piece, inner, rest) && w == pre + x
    requires Break(pre, x, true) && Cut(x, true) == ps && All(ps, Tame)
    ensures Plain(w) && ShortRuns(w)
    ensures CompareBoundary(v, w) == Walk(Part(piece, Cut(inner + rest, false)), ps, 64, Fallback, StrCmp(piece + (inner + rest), x))
    ensures CompareRuns(v, w) == Walk(Part(piece + inner, Cut(rest, true)), ps, 128, AsEnd, StrCmp(v, w))
  {
    hide Plain, OneRun, Joins;
    var c := Cut(pre, true);
    CutAppend(pre, x, true);
    AllAppend(c, ps, Tame);
    TameRuns(pre);
    TameRuns(w);
    PlainCutsAgree(w);
    ShorterMonotone(c, 64, 128);
    StrCmpCommonPrefix(pre, piece + (inner + rest), x);
    WalkCommonPrefix(c, Part(piece, Cut(inner + rest, false)), ps, 64, Fallback, StrCmp(v, w));
    WalkCommonPrefix(c, Part(piece + inner, Cut(rest, true)), ps, 128, AsEnd, StrCmp(v, w));
  }

  /** A plain version on which the two families disagree with a version that has a long
      or a mixed run; they order the two oppositely if all runs fit the longer buffer. */
  lemma WildRunSplitsComparators(v: string) returns (w: string)
    requires !(Plain(v) && ShortRuns(v))
    ensures Plain(w) && ShortRuns(w) && CompareBoundary(v, w) != CompareRuns(v, w)
    ensures Shorter(Cut(v, true), 128) ==> CompareBoundary(v, w) == -CompareRuns(v, w)
  {
    var pre, piece, inner, rest := FirstWildRun(v);
    ShorterAppend(Cut(pre, true), Part(piece + inner, Cut(rest, true)), 128);
    if |piece| >= 64 || |piece + inner| >= 128 {
      w := LongRunWitness(v, pre, piece, inner, rest);
    } else {
      MixedInside(v, pre, piece, inner, rest);
      if AllDigits(piece) {
        w := DigitRunWitness(v, pre, piece, inner, rest);
      } else {
        w := LetterRunWitness(v, pre, piece, inner, rest);
      }
    }
  }

  lemma MixedInside(v: string, pre: string, piece: string, inner: string, rest: string)
    requires AtWildRun(v, pre, piece, inner, rest) && |piece| < 64
    ensures inner != "" && Tame(piece) && OneRun(piece, true)
    ensures if AllDigits(piece) then !AllDigits(piece + inner) else IsDigit(inner[0]) && !AllDigits(piece + inner)
  {
    var run := piece + inner;
    OneClass(piece);
    forall k | 0 < k < |piece| ensures Joins(piece[k - 1], piece[k], true) { assert Joins(piece[k - 1], piece[k], false); }
    forall k: nat | k < |piece| ensures !Mixed(piece, k) {
      if k > 0 { assert Joins(piece[k - 1], piece[k], false); }
    }
    assert piece + "" == piece;
    assert Joins(run[|piece| - 1], run[|piece|], true);
    assert run[|piece|] == inner[0] && run[..|piece|] == piece;
  }

  /** All characters of a run cut at class boundaries are of the class of the last. */
  lemma OneClass(run: string)
    requires OneRun(run, false)
    ensures if IsDigit(run[|run| - 1]) then AllDigits(run) else !AllDigits(run)
  {
    var k := |run| - 1;
    while k > 0
      invariant 0 <= k < |run| && forall i :: k <= i < |run| ==> IsDigit(run[i]) == IsDigit(run[|run| - 1])
    {
      assert Joins(run[k - 1], run[k], false);
      k := k - 1;
    }
  }

  /** A part too long for the one family or a run too long for the other, against the end. */
  lemma LongRunWitness(v: string, pre: string, piece: string, inner: string, rest: string) returns (w: string)
    requires AtWildRun(v, pre, piece, inner, rest) && (|piece| >= 64 || |piece + inner| >= 128)
    ensures Plain(w) && ShortRuns(w) && CompareBoundary(v, w) != CompareRuns(v, w)
    ensures |piece + inner| < 128 ==> CompareBoundary(v, w) == -CompareRuns(v, w)
  {
    w := pre + "~";
    assert "~"[1..] == "";
    AgainstWitness(v, pre, piece, inner, rest, "~", End, w);
  }

  /** 1 before a, against 1 alone: longer when cut, a word when whole. */
  lemma DigitRunWitness(v: string, pre: string, piece: string, inner: string, rest: string) returns (w: string)
    requires AtWildRun(v, pre, piece, inner, rest) && inner != "" && |piece + inner| < 128
    requires AllDigits(piece) && !AllDigits(piece + inner) && Tame(piece) && OneRun(piece, true)
    ensures Plain(w) && ShortRuns(w) && CompareBoundary(v, w) == 1 && CompareRuns(v, w) == -1
  {
    hide AtWildRun, OneRun, Plain, Cut;
    w := pre + piece;
    GoesOn(v, pre, piece, inner, rest);
    CutOneRun(piece, true);
    AgainstWitness(v, pre, piece, inner, rest, piece, Part(piece, End), w);
    StrCmpLonger(piece, inner + rest);
    ComparePartOrder(piece, piece, piece);
  }

  lemma GoesOn(v: string, pre: string, piece: string, inner: string, rest: string)
    requires AtWildRun(v, pre, piece, inner, rest) && inner != ""
    ensures Cut(inner + rest, false).Part? && Break(pre, piece, true)
  {
    var run := piece + inner;
    assert Joins(run[|piece| - 1], run[|piece|], true);
    CutStartsHere(inner + rest, false);
  }

  /** a before 5, against a, a separator and a number that is not below 5: lower when
      cut, while as a word a5 is above a. */
  lemma LetterRunWitness(v: string, pre: string, piece: string, inner: string, rest: string) returns (w: string)
    requires AtWildRun(v, pre, piece, inner, rest) && inner != "" && |piece + inner| < 128
    requires !AllDigits(piece) && !AllDigits(piece + inner) && IsDigit(inner[0]) && Tame(piece) && OneRun(piece, true)
    ensures Plain(w) && ShortRuns(w) && CompareBoundary(v, w) == -1 && CompareRuns(v, w) == 1
  {
    hide AtWildRun, OneRun, Spell, Above, Plain;
    var l := Cut(inner + rest, false);
    var a := Above(l);
    var x := piece + Spell(a);
    w := pre + x;
    SpelledAfter(piece, a);
    AtPiece(v, pre, piece, inner, rest);
    AgainstWitness(v, pre, piece, inner, rest, x, Part(piece, a), w);
    StrCmpCommonPrefix(piece, inner + rest, Spell(a));
    assert (inner + rest)[0] == inner[0];
    ComparePartOrder(piece, piece, piece);
    AboveIsHigher(l);
    StrCmpLonger(piece, inner);
  }

  lemma AtPiece(v: string, pre: string, piece: string, inner: string, rest: string)
    requires AtWildRun(v, pre, piece, inner, rest)
    ensures piece != "" && forall t :: Break(pre, piece + t, true)
  {
  }

  lemma SpelledAfter(piece: string, a: Parts)
    requires OneRun(piece, true) && Tame(piece) && Numbers(a)
    ensures Cut(piece + Spell(a), true) == Part(piece, a) && All(Part(piece, a), Tame)
  {
    SpellCuts(a, true);
    CutAppend(piece, Spell(a), true);
    CutOneRun(piece, true);
  }
}
