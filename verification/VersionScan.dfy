/** The cursor loops over version strings, proved against `Version`. */
module VersionScan {
  import opened Strings
  import opened Version

  /** Skipping what is not alphanumeric. */
  method SkipLoop(s: string, cursor: nat, whole: bool) returns (p: nat)
    requires cursor <= |s|
    ensures cursor <= p <= |s| && (p < |s| ==> IsAlnum(s[p]))
    ensures Cut(s[p..], whole) == Cut(s[cursor..], whole)
  {
    p := cursor;
    while p < |s| && !IsAlnum(s[p])
      invariant cursor <= p <= |s|
      invariant Cut(s[p..], whole) == Cut(s[cursor..], whole)
    {
      assert s[p..][1..] == s[p + 1..];
      p := p + 1;
    }
  }

  /** The characters `s[start..p]` form one run, and `s[p]` is not part of it. */
  predicate IsRun(s: string, start: nat, p: nat, whole: bool) {
    && start < p <= |s| && IsAlnum(s[start])
    && (forall k :: start < k < p ==> Joins(s[k - 1], s[k], whole))
    && (p < |s| ==> !Joins(s[p - 1], s[p], whole))
  }

  lemma {:induction false} RunIsFirstPart(s: string, start: nat, p: nat, whole: bool)
    requires IsRun(s, start, p, whole)
    ensures Cut(s[start..], whole) == Part(s[start..p], Cut(s[p..], whole))
    decreases p - start
  {
    assert s[start..][1..] == s[start + 1..];
    if start + 1 < p {
      RunIsFirstPart(s, start + 1, p, whole);
      assert s[start..p] == [s[start]] + s[start + 1..p];
    } else {
      assert s[start..p] == [s[start]];
    }
  }

  /** A run cut at class boundaries is all digits or has no digit at all. */
  lemma RunClass(s: string, start: nat, p: nat)
    requires IsRun(s, start, p, false)
    ensures AllDigits(s[start..p]) <==> IsDigit(s[start])
  {
    var k := start + 1;
    while k < p
      invariant start < k <= p
      invariant forall i :: start <= i < k ==> IsDigit(s[i]) == IsDigit(s[start])
    {
      assert Joins(s[k - 1], s[k], false);
      k := k + 1;
    }
    assert s[start..p][0] == s[start];
  }

  /** next_version_part and db_next_version_part: status 1 with a part, 0 at the
      end, -1 when the part does not fit in `limit` bytes with its NUL. The part
      is classified by its first character alone. */
  method NextBoundaryPart(s: string, cursor: nat, limit: nat)
    returns (status: int, part: string, numeric: bool, next: nat)
    requires cursor <= |s|
    ensures var ps := Cut(s[cursor..], false);
            && (status == 0 <==> ps.End?)
            && (status == -1 <==> TooLong(ps, limit))
            && (status == 1 <==> ps.Part? && |ps.text| < limit)
            && (status == 1 ==> next <= |s| && ps == Part(part, Cut(s[next..], false)))
    ensures status == 1 ==> cursor < next && part != "" && numeric == AllDigits(part)
  {
    hide Cut;
    NothingToCut(false);
    status, part, numeric, next := 0, "", false, cursor;
    var start := SkipLoop(s, cursor, false);
    assert s[|s|..] == "";
    if start == |s| { return; }
    numeric := IsDigit(s[start]);
    var p := start;
    while p < |s| && IsAlnum(s[p])
      invariant start <= p <= |s|
      invariant forall k :: start <= k < p ==> IsAlnum(s[k]) && IsDigit(s[k]) == numeric
    {
      if IsDigit(s[p]) != numeric { break; }
      p := p + 1;
    }
    RunIsFirstPart(s, start, p, false);
    if p - start + 1 > limit { status := -1; return; }
    RunClass(s, start, p);
    status, part, next := 1, s[start..p], p;
  }

  /** version_part and cli_compare_version_part: whole runs, numeric only when
      every character is a digit. */
  method NextRun(s: string, cursor: nat, limit: nat)
    returns (status: int, part: string, numeric: bool, next: nat)
    requires cursor <= |s|
    ensures var ps := Cut(s[cursor..], true);
            && (status == 0 <==> ps.End?)
            && (status == -1 <==> TooLong(ps, limit))
            && (status == 1 <==> ps.Part? && |ps.text| < limit)
            && (status == 1 ==> next <= |s| && ps == Part(part, Cut(s[next..], true)))
    ensures status == 1 ==> cursor < next && part != "" && numeric == AllDigits(part)
  {
    hide Cut;
    NothingToCut(true);
    status, part, numeric, next := 0, "", false, cursor;
    var start := SkipLoop(s, cursor, true);
    assert s[|s|..] == "";
    if start == |s| { return; }
    var p := start;
    while p < |s| && IsAlnum(s[p])
      invariant start <= p <= |s|
      invariant forall k :: start <= k < p ==> IsAlnum(s[k])
    {
      p := p + 1;
    }
    RunIsFirstPart(s, start, p, true);
    if p - start + 1 > limit { status := -1; return; }
    part := s[start..p];
    numeric := IsNumeric(part);
    status, next := 1, p;
  }

  lemma NothingToCut(whole: bool)
    ensures Cut("", whole) == End
  {
  }

  method IsNumeric(part: string) returns (numeric: bool)
    ensures numeric <==> AllDigits(part)
  {
    for i := 0 to |part|
      invariant AllDigits(part[..i])
    {
      if !IsDigit(part[i]) { return false; }
    }
    numeric := true;
  }

  /** One round of any comparison loop once both parts are in hand. */
  method ComparePartLoop(a: string, an: bool, b: string, bn: bool, keepLast: bool) returns (c: int)
    requires a != "" && b != "" && an == AllDigits(a) && bn == AllDigits(b)
    ensures c == ComparePart(a, b)
  {
    if an && bn {
      c := CompareNumbers(a, b, keepLast);
    } else if an != bn {
      c := if an then 1 else -1;
    } else {
      c := StrCmp(a, b);
    }
  }

  /** compare_version of the resolver and db_compare_version. */
  method CompareVersion(left: string, right: string) returns (c: int)
    ensures c == CompareBoundary(left, right)
  {
    var l: nat, r: nat := 0, 0;
    assert left[0..] == left && right[0..] == right;
    while true
      invariant l <= |left| && r <= |right|
      invariant Walk(Cut(left[l..], false), Cut(right[r..], false), 64, Fallback, StrCmp(left, right))
             == CompareBoundary(left, right)
      decreases |left| - l
    {
      var lm, lp, ln, l' := NextBoundaryPart(left, l, 64);
      var rm, rp, rn, r' := NextBoundaryPart(right, r, 64);
      if lm < 0 || rm < 0 { return StrCmp(left, right); }
      if lm == 0 && rm == 0 { return 0; }
      if lm == 0 { return -1; }
      if rm == 0 { return 1; }
      c := ComparePartLoop(lp, ln, rp, rn, true);
      if c != 0 { return; }
      l, r := l', r';
    }
  }

  /** compare_version of the index writer: the ends of the strings are noticed
      before the lengths of the parts. */
  method CompareForIndex(left: string, right: string) returns (c: int)
    ensures c == CompareIndex(left, right)
  {
    var l: nat, r: nat := 0, 0;
    assert left[0..] == left && right[0..] == right;
    while true
      invariant l <= |left| && r <= |right|
      invariant Walk(Cut(left[l..], false), Cut(right[r..], false), 128, FallbackAfter, StrCmp(left, right))
             == CompareIndex(left, right)
      decreases |left| - l
    {
      var lm, lp, ln, l' := NextBoundaryPart(left, l, 128);
      var rm, rp, rn, r' := NextBoundaryPart(right, r, 128);
      if lm == 0 && rm == 0 { return 0; }
      if lm == 0 { return -1; }
      if rm == 0 { return 1; }
      if lm < 0 || rm < 0 { return StrCmp(left, right); }
      c := ComparePartLoop(lp, ln, rp, rn, true);
      if c != 0 { return; }
      l, r := l', r';
    }
  }

  /** compare_version_local: a part too long for its buffer reads as the end. */
  method CompareLocal(left: string, right: string) returns (c: int)
    ensures c == CompareRuns(left, right)
  {
    var l: nat, r: nat := 0, 0;
    assert left[0..] == left && right[0..] == right;
    while true
      invariant l <= |left| && r <= |right|
      invariant Walk(Cut(left[l..], true), Cut(right[r..], true), 128, AsEnd, StrCmp(left, right))
             == CompareRuns(left, right)
      decreases |left| - l
    {
      var lm, lp, ln, l' := NextRun(left, l, 128);
      var rm, rp, rn, r' := NextRun(right, r, 128);
      if lm <= 0 && rm <= 0 { return 0; }
      if lm <= 0 { return -1; }
      if rm <= 0 { return 1; }
      c := ComparePartLoop(lp, ln, rp, rn, false);
      if c != 0 { return; }
      l, r := l', r';
    }
  }

  /** cli_compare_versions: a part too long for its buffer makes the versions equal. */
  method CompareForCli(left: string, right: string) returns (c: int)
    ensures c == CompareCli(left, right)
  {
    var l: nat, r: nat := 0, 0;
    assert left[0..] == left && right[0..] == right;
    while true
      invariant l <= |left| && r <= |right|
      invariant Walk(Cut(left[l..], true), Cut(right[r..], true), 128, AsEqual, StrCmp(left, right))
             == CompareCli(left, right)
      decreases |left| - l
    {
      var lm, lp, ln, l' := NextRun(left, l, 128);
      var rm, rp, rn, r' := NextRun(right, r, 128);
      if lm < 0 || rm < 0 { return 0; }
      if lm == 0 && rm == 0 { return 0; }
      if lm == 0 { return -1; }
      if rm == 0 { return 1; }
      c := ComparePartLoop(lp, ln, rp, rn, false);
      if c != 0 { return; }
      l, r := l', r';
    }
  }
}
