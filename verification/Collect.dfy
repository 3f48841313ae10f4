/** collect_tree: the walk over a staged payload that lists its entries, visiting
    each directory in an arbitrary order. */
module Collect {
  import opened Database
  import opened Tree

  const MAX_FILES: nat := 4096

  /** The directory prefix `pre` is "" or ends with a slash. */
  predicate Under(p: string, pre: string) { |pre| < |p| && p[..|pre|] == pre }

  predicate IsPrefix(pre: string) { pre == "" || pre[|pre| - 1] == '/' }

  function Child(p: string, pre: string): string
    requires Under(p, pre)
  {
    p[..NextSlash(p, |pre|)]
  }

  predicate ValidTarget(t: string) { t != "" && forall i :: 0 <= i < |t| ==> ' ' <= t[i] && t[i] != 127 as char }

  predicate ValidNode(n: Node) { n.Link? ==> ValidTarget(n.target) }

  /** What collect_tree accepts. */
  predicate Collectable(t: Tree) { |t| <= MAX_FILES && forall p :: p in t ==> ValidNode(t[p]) }

  function Inside(t: Tree, pre: string): set<string> { set p | p in t && Under(p, pre) }

  lemma ChildShape(pre: string, p: string)
    requires Under(p, pre) && IsPrefix(pre) && SafePath(p)
    ensures var c := Child(p, pre); Under(c, pre) && (p == c || (Below(p, c) && Under(p, c + "/")))
  {
    assert pre != "" ==> p[..|pre|][|pre| - 1] == '/';
    SafeComponentAt(p, 0, |pre|);
    var j := NextSlash(p, |pre|);
    var c := p[..j];
    assert c[..|pre|] == pre;
    if j < |p| {
      SafeComponentAt(p, 0, j + 1);
      assert p[..j + 1] == c + "/";
    }
  }

  lemma {:induction false} ChildOfChild(pre: string, p: string)
    requires Under(p, pre)
    ensures NextSlash(Child(p, pre), |pre|) == |Child(p, pre)|
  {
    var j := NextSlash(p, |pre|);
    var c := p[..j];
    assert forall k :: |pre| <= k < j ==> c[k] == p[k];
  }

  lemma ChildProperties(t: Tree, pre: string, p: string)
    requires WellFormed(t) && SafePaths(t) && p in t && Under(p, pre) && IsPrefix(pre)
    ensures var c := Child(p, pre);
      c in t && Under(c, pre) && Child(c, pre) == c && (p == c || (t[c].Dir? && Under(p, c + "/")))
  {
    ChildShape(pre, p);
    ChildOfChild(pre, p);
    var c := Child(p, pre);
    assert c[..|c|] == c;
    assert ParentsPresent(t, p);
  }

  /** A path below one under `pre` is in the same child of `pre`. */
  lemma SameChild(x: string, y: string, pre: string)
    requires Under(y, pre) && Below(x, y)
    ensures Under(x, pre) && Child(x, pre) == Child(y, pre)
  {
    assert x[..|pre|] == x[..|y|][..|pre|];
    var j := NextSlash(y, |pre|);
    assert x[..|y|] == y;
    SlashAgrees(x, y, |pre|);
    assert x[..j] == y[..j];
  }

  lemma {:induction false} SlashAgrees(x: string, y: string, i: nat)
    requires i <= |y| && Below(x, y)
    ensures NextSlash(x, i) == NextSlash(y, i)
    decreases |y| - i
  {
    if i < |y| {
      assert x[i] == x[..|y|][i];
      if y[i] != '/' { SlashAgrees(x, y, i + 1); }
    }
  }

  lemma UnderChild(x: string, c: string, pre: string)
    requires Under(c, pre) && Under(x, c + "/")
    ensures Below(x, c) && Under(x, pre) && Child(x, pre) == Child(c, pre)
  {
    assert x[..|c| + 1] == c + "/";
    assert x[..|c|] == (c + "/")[..|c|] && x[|c|] == (c + "/")[|c|];
    SameChild(x, c, pre);
  }

  /** `files` extends a list by entries of `t` in the children `done` of `pre`. */
  ghost predicate Gathering(t: Tree, pre: string, before: seq<Entry>, files: seq<Entry>, done: set<string>) {
    && |before| <= |files| && files[..|before|] == before
    && Distinct(Paths(files)) && ParentsFirst(Paths(files))
    && (forall i :: |before| <= i < |files| ==>
          && files[i].path in t && files[i] == EntryOf(files[i].path, t[files[i].path]) && ValidNode(t[files[i].path])
          && Under(files[i].path, pre) && Child(files[i].path, pre) in done)
    && (forall p :: p in t && Under(p, pre) && Child(p, pre) in done ==> Lists(files, p))
  }

  ghost predicate Ready(t: Tree, pre: string, before: seq<Entry>) {
    && WellFormed(t) && SafePaths(t) && IsPrefix(pre)
    && Distinct(Paths(before)) && ParentsFirst(Paths(before)) && |before| <= MAX_FILES
    && forall i :: 0 <= i < |before| ==> before[i].path in t && !Under(before[i].path, pre)
  }

  function Children(t: Tree, pre: string): set<string> { set p | p in Inside(t, pre) :: Child(p, pre) }

  /** Appending the entry of a child that was not visited yet. */
  lemma AppendChild(t: Tree, pre: string, before: seq<Entry>, files: seq<Entry>, done: set<string>, c: string)
    requires Ready(t, pre, before) && Gathering(t, pre, before, files, done)
    requires c in Children(t, pre) && c !in done && c in t && ValidNode(t[c])
    ensures Under(c, pre) && Child(c, pre) == c
    ensures var more := files + [EntryOf(c, t[c])];
      && more[..|before|] == before
      && Distinct(Paths(more)) && ParentsFirst(Paths(more))
      && (forall i :: |before| <= i < |more| ==>
            && more[i].path in t && more[i] == EntryOf(more[i].path, t[more[i].path]) && ValidNode(t[more[i].path])
            && Under(more[i].path, pre) && Child(more[i].path, pre) in done + {c})
      && (forall i :: 0 <= i < |more| ==> more[i].path in t && !Under(more[i].path, c + "/"))
  {
    var q :| q in Inside(t, pre) && Child(q, pre) == c;
    ChildProperties(t, pre, q);
    var more := files + [EntryOf(c, t[c])];
    forall i | 0 <= i < |files| ensures files[i].path in t && files[i].path != c && !Below(files[i].path, c) && !Under(files[i].path, c + "/") {
      if i < |before| { assert files[i] == files[..|before|][i]; }
      if Below(files[i].path, c) { SameChild(files[i].path, c, pre); }
      if Under(files[i].path, c + "/") { UnderChild(files[i].path, c, pre); }
    }
    assert Paths(more) == Paths(files) + [c];
    assert more[..|before|] == files[..|before|];
  }

  lemma LeafDone(t: Tree, pre: string, before: seq<Entry>, files: seq<Entry>, done: set<string>, c: string)
    requires Ready(t, pre, before) && Gathering(t, pre, before, files, done)
    requires c in Children(t, pre) && c !in done && c in t && ValidNode(t[c]) && !t[c].Dir?
    ensures Gathering(t, pre, before, files + [EntryOf(c, t[c])], done + {c})
  {
    AppendChild(t, pre, before, files, done, c);
    var more := files + [EntryOf(c, t[c])];
    forall p | p in t && Under(p, pre) && Child(p, pre) in done + {c} ensures Lists(more, p) {
      if Child(p, pre) == c {
        ChildProperties(t, pre, p);
        assert more[|files|].path == p;
      } else {
        var i :| 0 <= i < |files| && files[i].path == p;
        assert more[i].path == p;
      }
    }
  }

  lemma DirectoryReady(t: Tree, pre: string, before: seq<Entry>, files: seq<Entry>, done: set<string>, c: string)
    requires Ready(t, pre, before) && Gathering(t, pre, before, files, done) && |files| < MAX_FILES
    requires c in Children(t, pre) && c !in done && c in t && t[c].Dir?
    ensures Ready(t, c + "/", files + [EntryOf(c, t[c])])
    ensures Inside(t, c + "/") < Inside(t, pre)
  {
    AppendChild(t, pre, before, files, done, c);
    forall x | x in Inside(t, c + "/") ensures x in Inside(t, pre) { UnderChild(x, c, pre); }
    assert c in Inside(t, pre) && c !in Inside(t, c + "/");
  }

  lemma DirectoryDone(t: Tree, pre: string, before: seq<Entry>, files: seq<Entry>, done: set<string>, c: string, after: seq<Entry>)
    requires Ready(t, pre, before) && Gathering(t, pre, before, files, done)
    requires c in Children(t, pre) && c !in done && c in t && t[c].Dir?
    requires Gathering(t, c + "/", files + [EntryOf(c, t[c])], after, Children(t, c + "/"))
    ensures Gathering(t, pre, before, after, done + {c})
  {
    AppendChild(t, pre, before, files, done, c);
    var more := files + [EntryOf(c, t[c])];
    assert after[..|more|] == more && after[..|before|] == more[..|before|];
    forall i | |before| <= i < |after|
      ensures Under(after[i].path, pre) && Child(after[i].path, pre) in done + {c}
      ensures after[i].path in t && after[i] == EntryOf(after[i].path, t[after[i].path]) && ValidNode(t[after[i].path])
    {
      if i < |more| { assert after[i] == more[i]; } else { UnderChild(after[i].path, c, pre); }
    }
    forall p | p in t && Under(p, pre) && Child(p, pre) in done + {c} ensures Lists(after, p) {
      if Child(p, pre) == c && p != c {
        ChildProperties(t, pre, p);
        assert p in Inside(t, c + "/") && Child(p, c + "/") in Children(t, c + "/");
      } else if p == c {
        assert after[|files|] == more[|files|];
      } else {
        var i :| 0 <= i < |files| && files[i].path == p;
        assert after[i] == more[i] == files[i];
      }
    }
  }

  /** Why a walk that stops early was right to: a bad link, or too many entries. */
  lemma TooMany(t: Tree, files: seq<Entry>, extra: string)
    requires Distinct(Paths(files)) && |files| >= MAX_FILES
    requires forall i :: 0 <= i < |files| ==> files[i].path in t && files[i].path != extra
    requires extra in t
    ensures !Collectable(t)
  {
    DistinctBound(Paths(files) + [extra], t.Keys);
  }

  lemma {:induction false} DistinctBound(ps: seq<string>, s: set<string>)
    requires Distinct(ps) && forall i :: 0 <= i < |ps| ==> ps[i] in s
    ensures |ps| <= |s|
    ensures (forall x :: x in s ==> x in ps) ==> |ps| == |s|
  {
    if ps != [] {
      var n := |ps| - 1;
      DistinctBound(ps[..n], s - {ps[n]});
      assert |s - {ps[n]}| == |s| - 1;
      assert ps == ps[..n] + [ps[n]];
    } else if s != {} {
      var x :| x in s;
    }
  }

  /** One child of a directory: its entry, and for a directory all below it. */
  method CollectChild(t: Tree, pre: string, ghost before: seq<Entry>, files: seq<Entry>, ghost done: set<string>, c: string)
    returns (ok: bool, after: seq<Entry>)
    requires Ready(t, pre, before) && Gathering(t, pre, before, files, done) && |files| <= MAX_FILES
    requires c in Children(t, pre) && c !in done && c in t
    ensures ok ==> Gathering(t, pre, before, after, done + {c}) && |after| <= MAX_FILES
    ensures !ok ==> !Collectable(t)
    decreases Inside(t, pre), 0
  {
    after := files;
    if !ValidNode(t[c]) { return false, files; }
    var more := files + [EntryOf(c, t[c])];
    AppendChild(t, pre, before, files, done, c);
    if |files| >= MAX_FILES {
      forall i | 0 <= i < |files| ensures files[i].path in t && files[i].path != c {
        assert more[i] == files[i] && Paths(more)[i] != Paths(more)[|files|];
      }
      TooMany(t, files, c);
      return false, files;
    }
    if t[c].Dir? {
      DirectoryReady(t, pre, before, files, done, c);
      ok, after := CollectDir(t, c + "/", more);
      if ok { DirectoryDone(t, pre, before, files, done, c, after); }
    } else {
      LeafDone(t, pre, before, files, done, c);
      ok, after := true, more;
    }
  }

  /** collect_tree on one directory: appends to the list everything below it. */
  method CollectDir(t: Tree, pre: string, before: seq<Entry>) returns (ok: bool, files: seq<Entry>)
    requires Ready(t, pre, before)
    ensures ok ==> Gathering(t, pre, before, files, Children(t, pre)) && |files| <= MAX_FILES
    ensures !ok ==> !Collectable(t)
    decreases Inside(t, pre), 1
  {
    ok, files := true, before;
    var entries := Children(t, pre);
    ghost var done := {};
    while entries != {}
      invariant done !! entries && done + entries == Children(t, pre)
      invariant Gathering(t, pre, before, files, done) && |files| <= MAX_FILES
      decreases entries
    {
      var c :| c in entries;
      ChildInTree(t, pre, c);
      ok, files := CollectChild(t, pre, before, files, done, c);
      if !ok { return; }
      entries, done := entries - {c}, done + {c};
    }
    assert done == Children(t, pre);
  }

  lemma ChildInTree(t: Tree, pre: string, c: string)
    requires WellFormed(t) && SafePaths(t) && IsPrefix(pre) && c in Children(t, pre)
    ensures c in t
  {
    var q :| q in Inside(t, pre) && Child(q, pre) == c;
    ChildProperties(t, pre, q);
  }

  /** The whole walk: every node of the payload once, parents first, unless the
      payload is too large or holds an unusable link. */
  method CollectTree(t: Tree) returns (ok: bool, files: seq<Entry>)
    requires WellFormed(t) && SafePaths(t)
    ensures ok <==> Collectable(t)
    ensures ok ==> Records(files, t) && ParentsFirst(Paths(files))
  {
    ok, files := CollectDir(t, "", []);
    if ok {
      AllGathered(t, files);
      RecordsCount(files, t);
    }
  }

  lemma AllGathered(t: Tree, files: seq<Entry>)
    requires SafePaths(t) && Gathering(t, "", [], files, Children(t, ""))
    ensures Records(files, t) && forall p :: p in t ==> ValidNode(t[p])
  {
    forall p | p in t ensures Lists(files, p) && ValidNode(t[p]) {
      SafeComponentAt(p, 0, 0);
      assert p in Inside(t, "");
      assert Child(p, "") in Children(t, "");
      var i :| 0 <= i < |files| && files[i].path == p;
    }
  }

  lemma RecordsCount(files: seq<Entry>, t: Tree)
    requires Records(files, t)
    ensures |files| == |t|
  {
    forall p | p in t ensures p in Paths(files) {
      var i :| 0 <= i < |files| && files[i].path == p;
      assert Paths(files)[i] == p;
    }
    DistinctBound(Paths(files), t.Keys);
  }
}
