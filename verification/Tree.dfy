/** The file tree below an installation root, as a map from relative path to node. */
module Tree {
  import opened Strings
  import opened Database

  datatype Node = File(data: string, mode: nat) | Dir(mode: nat) | Link(target: string)

  type Tree = map<string, Node>

  /** `p` lies somewhere under the directory `d`. */
  predicate Below(p: string, d: string) { |d| < |p| && p[..|d|] == d && p[|d|] == '/' }

  ghost predicate ParentsPresent(t: Tree, p: string) { forall d :: Below(p, d) ==> d in t && t[d].Dir? }

  /** Closed under parents: what lies above a node is a directory. */
  ghost predicate WellFormed(t: Tree) { forall p :: p in t ==> ParentsPresent(t, p) }

  // --- names

  function NextSlash(p: string, i: nat): (j: nat)
    requires i <= |p|
    ensures i <= j <= |p| && (j < |p| ==> p[j] == '/')
    ensures forall k :: i <= k < j ==> p[k] != '/'
    decreases |p| - i
  {
    if i == |p| || p[i] == '/' then i else NextSlash(p, i + 1)
  }

  predicate SafeComponent(c: string) { c != "" && c != "." && c != ".." }

  predicate SafeFrom(p: string, i: nat)
    requires i <= |p|
    decreases |p| - i
  {
    var j := NextSlash(p, i);
    SafeComponent(p[i..j]) && (j < |p| ==> SafeFrom(p, j + 1))
  }

  /** safe_relative_path: slash-separated names, none of them empty, `.` or `..`. */
  predicate SafePath(p: string) { SafeFrom(p, 0) }

  predicate SafePaths(t: Tree) { forall p :: p in t ==> SafePath(p) }

  lemma {:induction false} SafeComponentAt(p: string, i: nat, k: nat)
    requires i <= k <= |p| && SafeFrom(p, i) && (k == i || p[k - 1] == '/')
    ensures SafeFrom(p, k) && k < |p| && p[k] != '/'
    decreases |p| - i
  {
    var j := NextSlash(p, i);
    if k > i { SafeComponentAt(p, j + 1, k); } else { assert i < j; }
  }

  predicate Empty(t: Tree, d: string) { forall p :: p in t ==> !Below(p, d) }

  predicate Distinct(ps: seq<string>) { forall i, j :: 0 <= i < j < |ps| ==> ps[i] != ps[j] }

  /** What lies above a path comes before it. */
  predicate ParentsFirst(ps: seq<string>) { forall i, j :: 0 <= i < j < |ps| ==> !Below(ps[i], ps[j]) }

  function Paths(files: seq<Entry>): (ps: seq<string>)
    ensures |ps| == |files| && forall i :: 0 <= i < |files| ==> ps[i] == files[i].path
  {
    seq(|files|, i requires 0 <= i < |files| => files[i].path)
  }

  /** The tree with some nodes of `s` laid over it. */
  function Overlay(t: Tree, s: Tree, ps: seq<string>): Tree { t + (map p | p in ps && p in s :: s[p]) }

  function Without(t: Tree, ps: seq<string>): Tree { t - (set p | p in ps) }

  lemma OverlaySnoc(t: Tree, s: Tree, ps: seq<string>, q: string)
    requires q in s
    ensures Overlay(t, s, ps + [q]) == Overlay(t, s, ps)[q := s[q]]
  {
  }

  /** The entry that records a node. */
  function EntryOf(p: string, n: Node): Entry {
    match n
    case File(_, _) => Entry(FileKind, p, "")
    case Dir(_) => Entry(DirKind, p, "")
    case Link(target) => Entry(LinkKind, p, target)
  }

  /** `files` records exactly the nodes of `t`, each one once. */
  ghost predicate Records(files: seq<Entry>, t: Tree) {
    && Distinct(Paths(files))
    && (forall i :: 0 <= i < |files| ==> files[i].path in t && files[i] == EntryOf(files[i].path, t[files[i].path]))
    && (forall p :: p in t ==> Lists(files, p))
  }

  // --- path order

  /** Strictly ascending by strcmp on paths: what a stored record holds. */
  predicate Ascending(files: seq<Entry>) {
    forall i, j :: 0 <= i < j < |files| ==> StrCmp(files[i].path, files[j].path) < 0
  }

  predicate Descending(files: seq<Entry>) {
    forall i, j :: 0 <= i < j < |files| ==> StrCmp(files[i].path, files[j].path) > 0
  }

  lemma {:induction false} BelowIsGreater(p: string, d: string)
    requires Below(p, d)
    ensures StrCmp(p, d) > 0
  {
    assert p == d + p[|d|..] && d == d + "";
    StrCmpCommonPrefix(d, p[|d|..], "");
  }

  lemma BelowTransitive(p: string, q: string, d: string)
    requires Below(p, q) && Below(q, d)
    ensures Below(p, d)
  {
    assert p[..|d|] == p[..|q|][..|d|];
  }

  /** Insertion by path, the effect qsort has on a list of distinct paths. */
  function Insert(e: Entry, files: seq<Entry>): seq<Entry> {
    if files == [] then [e]
    else if StrCmp(e.path, files[0].path) < 0 then [e] + files
    else [files[0]] + Insert(e, files[1..])
  }

  function Sorted(files: seq<Entry>): seq<Entry> {
    if files == [] then [] else Insert(files[0], Sorted(files[1..]))
  }

  lemma {:induction false} InsertProperties(e: Entry, files: seq<Entry>)
    ensures forall x :: x in Insert(e, files) <==> x == e || x in files
    ensures Ascending(files) && (forall x :: x in files ==> x.path != e.path) ==> Ascending(Insert(e, files))
  {
    if files != [] {
      assert files == [files[0]] + files[1..];
      if StrCmp(e.path, files[0].path) < 0 {
        if Ascending(files) { InsertFirst(e, files); }
      } else {
        var rest := Insert(e, files[1..]);
        InsertProperties(e, files[1..]);
        StrCmpZero(e.path, files[0].path);
        if Ascending(files) && forall x :: x in files ==> x.path != e.path {
          forall i | 0 <= i < |rest| ensures StrCmp(files[0].path, rest[i].path) < 0 {
            assert rest[i] in rest;
          }
        }
      }
    }
  }

  lemma InsertFirst(e: Entry, files: seq<Entry>)
    requires files != [] && StrCmp(e.path, files[0].path) < 0 && Ascending(files)
    ensures Ascending([e] + files)
  {
    forall i | 0 < i < |files| ensures StrCmp(e.path, files[i].path) < 0 {
      StrCmpTransitive(e.path, files[0].path, files[i].path);
    }
  }

  lemma {:induction false} SortedProperties(files: seq<Entry>)
    requires Distinct(Paths(files))
    ensures forall x :: x in Sorted(files) <==> x in files
    ensures Ascending(Sorted(files))
  {
    if files != [] {
      var rest := files[1..];
      assert files == [files[0]] + rest;
      assert forall i :: 0 <= i < |rest| ==> Paths(rest)[i] == Paths(files)[i + 1];
      SortedProperties(rest);
      forall x | x in Sorted(rest) ensures x.path != files[0].path {
        var j :| 0 <= j < |rest| && rest[j] == x;
        assert Paths(files)[j + 1] != Paths(files)[0];
      }
      InsertProperties(files[0], Sorted(rest));
    }
  }

  lemma {:induction false} SortedLength(files: seq<Entry>)
    ensures |Sorted(files)| == |files|
  {
    if files != [] {
      SortedLength(files[1..]);
      InsertLength(files[0], Sorted(files[1..]));
    }
  }

  lemma {:induction false} InsertLength(e: Entry, files: seq<Entry>)
    ensures |Insert(e, files)| == |files| + 1
  {
    if files != [] { InsertLength(e, files[1..]); }
  }

  lemma AscendingIsDistinct(files: seq<Entry>)
    requires Ascending(files) || Descending(files)
    ensures Distinct(Paths(files))
  {
    forall i, j | 0 <= i < j < |files| ensures files[i].path != files[j].path {
      StrCmpZero(files[i].path, files[j].path);
    }
  }

  /** Sorting a list of records keeps what it records. */
  lemma SortedRecords(files: seq<Entry>, t: Tree)
    requires Records(files, t)
    ensures Records(Sorted(files), t) && Ascending(Sorted(files))
  {
    SortedProperties(files);
    var sorted := Sorted(files);
    AscendingIsDistinct(sorted);
    forall i | 0 <= i < |sorted|
      ensures sorted[i].path in t && sorted[i] == EntryOf(sorted[i].path, t[sorted[i].path])
    {
      assert sorted[i] in sorted;
    }
    forall p | p in t ensures Lists(sorted, p) {
      var i :| 0 <= i < |files| && files[i].path == p;
      assert files[i] in files;
      var j :| 0 <= j < |sorted| && sorted[j] == files[i];
    }
  }

  lemma LeastFirst(files: seq<Entry>, e: Entry)
    requires Ascending(files) && e in files
    ensures files[0] == e || StrCmp(files[0].path, e.path) < 0
  {
    var i :| 0 <= i < |files| && files[i] == e;
  }

  /** Ascending lists of the same entries are the same. */
  lemma {:induction false} AscendingOnce(a: seq<Entry>, b: seq<Entry>)
    requires Ascending(a) && Ascending(b) && forall e :: e in a <==> e in b
    ensures a == b
  {
    assert a != [] ==> a[0] in b;
    assert b != [] ==> b[0] in a;
    if a != [] {
      LeastFirst(a, b[0]);
      LeastFirst(b, a[0]);
      StrCmpZero(a[0].path, b[0].path);
      AscendingTail(a, b);
      AscendingTail(b, a);
      AscendingOnce(a[1..], b[1..]);
      assert a == [a[0]] + a[1..] && b == [b[0]] + b[1..];
    }
  }

  lemma AscendingTail(a: seq<Entry>, b: seq<Entry>)
    requires Ascending(a) && a != [] && b != [] && a[0] == b[0] && forall e :: e in a <==> e in b
    ensures Ascending(a[1..]) && forall e :: e in a[1..] ==> e in b[1..]
  {
    forall e | e in a[1..] ensures e in b[1..] {
      var i :| 0 <= i < |a| - 1 && a[1..][i] == e;
      assert StrCmp(a[0].path, a[i + 1].path) < 0;
      StrCmpZero(a[0].path, e.path);
      assert e in a;
      assert b == [b[0]] + b[1..];
    }
  }
}
