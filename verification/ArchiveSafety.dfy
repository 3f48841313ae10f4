/** Whatever bytes are unpacked, the result is a tree below the destination: names are
    safe, what lies above a node is a directory, never a link, and names and targets
    keep the lengths of the header fields. */
module ArchiveSafety {
  import opened Package
  import opened Text
  import opened ManifestText
  import opened ManifestSize
  import opened Tree
  import opened Staging
  import opened Stored
  import opened Ustar
  import opened UstarHeader
  import opened Archive
  import opened ArchiveRoundTrip
  import Transaction

  ghost predicate Sound(t: Tree) { WellFormed(t) && SafePaths(t) && FieldNames(t) }

  predicate NameFits(p: string) { |p| <= 92 && Free(p, '\0') }

  lemma {:induction false} SafePrefix(p: string, i: nat, j: nat)
    requires i <= j < |p| && SafeFrom(p, i) && p[j] == '/'
    ensures SafeFrom(p[..j], i)
    decreases j - i
  {
    var k := NextSlash(p, i);
    if k < j {
      SlashAt(p[..j], i, k);
      assert p[..j][i..k] == p[i..k];
      SafePrefix(p, k + 1, j);
    } else {
      NoSlash(p[..j], i);
      assert p[..j][i..j] == p[i..j];
    }
  }

  /** What lies above `p` ends before one of its slashes. */
  lemma AboveIsPrefix(p: string, d: string)
    requires Below(p, d)
    ensures d == p[..|d|] && p[|d|] == '/'
  {
  }

  /** The directories above `p` that end before position `i` are there. */
  ghost predicate KnownUpTo(t: Tree, p: string, i: nat) {
    forall d :: Below(p, d) && |d| < i ==> d in t && t[d].Dir?
  }

  lemma NewParent(t: Tree, p: string, i: nat, j: nat, mode: nat)
    requires Sound(t) && SafePath(p) && NameFits(p) && i <= j < |p| && j == NextSlash(p, i) && p[..j] !in t && KnownUpTo(t, p, i)
    ensures Sound(t[p[..j] := Dir(mode)]) && KnownUpTo(t[p[..j] := Dir(mode)], p, j + 1)
  {
    hide SafePath, NextSlash;
    var d := p[..j];
    var u := t[d := Dir(mode)];
    PrefixIsSafe(p, j);
    forall c | Below(d, c) ensures c in t && t[c].Dir? {
      assert Below(p, c);
      EndsBefore(p, i, j, c);
    }
    KnownToNext(u, p, i, j);
    AddKeepsWellFormed(t, d, Dir(mode));
  }

  lemma PrefixIsSafe(p: string, j: nat)
    requires SafePath(p) && j < |p| && p[j] == '/'
    ensures SafePath(p[..j])
  {
    SafePrefix(p, 0, j);
  }

  /** Between `i` and the next slash no directory above `p` ends. */
  lemma EndsBefore(p: string, i: nat, j: nat, c: string)
    requires i <= j <= |p| && (forall k :: i <= k < j ==> p[k] != '/') && Below(p, c) && |c| < j
    ensures |c| < i
  {
    AboveIsPrefix(p, c);
  }

  lemma KnownToNext(t: Tree, p: string, i: nat, j: nat)
    requires i <= j < |p| && (forall k :: i <= k < j ==> p[k] != '/')
    requires forall d :: Below(p, d) && |d| < i ==> d in t && t[d].Dir?
    requires p[..j] in t && t[p[..j]].Dir?
    ensures KnownUpTo(t, p, j + 1)
  {
    forall d | Below(p, d) && |d| < j + 1 ensures d in t && t[d].Dir? {
      AboveIsPrefix(p, d);
      if |d| < j { EndsBefore(p, i, j, d); }
    }
  }

  lemma {:induction false} ParentsMade(t: Tree, p: string, i: nat)
    requires Sound(t) && SafePath(p) && NameFits(p) && i <= |p| && KnownUpTo(t, p, i) && MakeParents(t, p, i).Some?
    ensures var u := MakeParents(t, p, i).value; Sound(u) && ParentsPresent(u, p)
    decreases |p| - i
  {
    hide SafePath, Sound;
    var j := NextSlash(p, i);
    if j == |p| {
      forall d | Below(p, d) ensures d in t && t[d].Dir? { EndsBefore(p, i, j, d); }
    } else if p[..j] !in t {
      NewParent(t, p, i, j, 0x1ed);
      ParentsMade(t[p[..j] := Dir(0x1ed)], p, j + 1);
    } else if t[p[..j]].Dir? {
      KnownToNext(t, p, i, j);
      ParentsMade(t, p, j + 1);
    }
  }

  lemma PlaceKeepsSound(t: Tree, p: string, h: string, kind: char, size: nat, body: string)
    requires Sound(t) && SafePath(p) && NameFits(p) && |h| == BlockSize && Place(t, p, h, kind, size, body).Some?
    requires kind == LinkKind ==> Scalar(FieldText(h, 157, 100))
    ensures Sound(Place(t, p, h, kind, size, body).value)
  {
    hide SafePath, MakeParents, ParentsPresent, WellFormed, FieldText, SafeMode, Scalar;
    FieldIsShort(h, 157);
    ParentsMade(t, p, 0);
    var u := MakeParents(t, p, 0).value;
    if p !in u { AddKeepsWellFormed(u, p, Place(t, p, h, kind, size, body).value[p]); }
  }

  lemma FieldIsShort(h: string, at: nat)
    requires at + 100 <= |h|
    ensures |FieldText(h, at, 100)| <= 100 && Free(FieldText(h, at, 100), '\0')
  {
  }

  /** The name of a payload member leads to a safe path. */
  lemma PayloadNameIsSafe(name: string)
    requires Allowed(name) && InPayload(name) && |name| > 8 && |name| <= 100 && Free(name, '\0')
    ensures SafePath(Strip(name[8..])) && NameFits(Strip(name[8..]))
  {
    hide SafeFrom;
    var p := Strip(name[8..]);
    assert name == PayloadPrefix + name[8..];
    assert Strip(name) == PayloadPrefix + p;
    BelowPayload(p);
  }

  lemma BelowPayload(p: string)
    requires SafePath(PayloadPrefix + p)
    ensures SafePath(p)
  {
    var q := PayloadPrefix + p;
    SlashAt(q, 0, 7);
    assert SafeFrom(q, 8);
    hide SafeFrom;
    SafeFromShift(PayloadPrefix, p, 0);
  }

  lemma {:induction false} ExtractKeepsSound(s: string, t: Tree)
    requires Sound(t) && ExtractFrom(s, t).Some?
    ensures Sound(ExtractFrom(s, t).value)
    decreases |s|
  {
    hide Sound, Place, SafeName, Allowed, PaddingOf, SecondZero;
    var h := s[..BlockSize];
    var header := ReadHeader(h);
    if header.Valid? {
      var name, size := header.name, header.size;
      AllowedByHeader(h);
      if name == "META" || name == ManifestName || name == "payload" {
        ExtractKeepsSound(Next(s, size), t);
      } else {
        PayloadNameIsSafe(name);
        PlaceKeepsSound(t, Strip(name[8..]), h, header.kind, size, s[BlockSize..]);
        ExtractKeepsSound(Next(s, size), Place(t, Strip(name[8..]), h, header.kind, size, s[BlockSize..]).value);
      }
    }
  }

  lemma AllowedByHeader(h: string)
    requires |h| == BlockSize && ReadHeader(h).Valid?
    ensures var header := ReadHeader(h);
      && Allowed(header.name) && |header.name| <= 100 && Free(header.name, '\0')
      && (header.kind == LinkKind ==> Scalar(FieldText(h, 157, 100)))
  {
    FieldIsShort(h, 0);
  }

  /** Any archive that unpacks at all is one the transactions can take: its manifest
      within the limits of a record, and a payload with safe names of bounded length,
      closed under parents. */
  lemma ExtractedIsInstallable(s: string)
    requires Extract(s).Some?
    ensures WellFormed(Extract(s).value) && SafePaths(Extract(s).value)
    ensures Transaction.ValidArchive(Transaction.Archive.Archive(Validate(s).value, Extract(s).value))
  {
    hide ExtractFrom, ValidateFrom, Parse, Validates, LinesFit;
    EmptyIsSound();
    ExtractKeepsSound(s, map[]);
    ParsedFits(ValidateFrom(s, 0, None).value);
  }

  lemma EmptyIsSound()
    ensures Sound(map[])
  {
  }
}
