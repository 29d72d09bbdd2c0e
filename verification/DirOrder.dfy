/**
 * The comparison the XML backend sorts its directories with before a sync: meant to put every
 * directory before the ones it lies in. It is a strict total order exactly when no character of a key
 * sorts below the slash.
 */
module DirOrder {
  import opened Paths

  /** Plain comparison of two C strings; the end of a string is below every character. */
  function CompareText(a: string, b: string): int {
    if a == "" then (if b == "" then 0 else -1)
    else if b == "" then 1
    else if a[0] == b[0] then CompareText(a[1..], b[1..])
    else if a[0] < b[0] then -1 else 1
  }

  /** What dircmp decides for two keys. */
  function DirCmp(a: string, b: string): int {
    if KeyIsBelow(a, b) then 1 else if KeyIsBelow(b, a) then -1 else CompareText(a, b)
  }

  /** dircmp, walking both keys to the first difference. */
  method Compare(a: string, b: string) returns (order: int)
    ensures order == DirCmp(a, b)
  {
    if KeyIsBelow(a, b) {
      return 1;
    }
    if KeyIsBelow(b, a) {
      return -1;
    }
    var i := 0;
    while i < |a| && i < |b| && a[i] == b[i]
      invariant 0 <= i <= |a| && i <= |b|
      invariant CompareText(a[i..], b[i..]) == CompareText(a, b)
    {
      assert a[i..][1..] == a[i + 1..] && b[i..][1..] == b[i + 1..];
      i := i + 1;
    }
    if i == |a| && i == |b| {
      return 0;
    }
    order := if i == |a| || (i < |b| && a[i] < b[i]) then -1 else 1;
  }

  // ----- the order it is meant to be -----

  /** Where a key ends ranks between the slash that leads on to a subdirectory and all other characters. */
  function Rank(s: string): int {
    if s == "" then 2 * '/' as int + 1 else 2 * s[0] as int
  }

  /** Lexicographic by rank. */
  function RankCmp(a: string, b: string): int {
    if a == b then 0
    else if Rank(a) < Rank(b) then -1
    else if Rank(a) > Rank(b) then 1
    else if a == "" || b == "" then 0
    else RankCmp(a[1..], b[1..])
  }

  lemma {:induction false} RankCmpIsAntisymmetric(a: string, b: string)
    ensures RankCmp(a, b) == -RankCmp(b, a) && (RankCmp(a, b) == 0 <==> a == b)
  {
    if a != b && a != "" && b != "" && a[0] == b[0] {
      assert a == [a[0]] + a[1..] && b == [b[0]] + b[1..];
      RankCmpIsAntisymmetric(a[1..], b[1..]);
    }
  }

  lemma {:induction false} RankCmpIsTransitive(a: string, b: string, c: string)
    requires RankCmp(a, b) == -1 && RankCmp(b, c) == -1
    ensures RankCmp(a, c) == -1
  {
    RankCmpIsAntisymmetric(a, b);
    RankCmpIsAntisymmetric(b, c);
    RankCmpIsAntisymmetric(a, c);
    if a != "" && b != "" && c != "" && a[0] == b[0] == c[0] {
      RankCmpIsTransitive(a[1..], b[1..], c[1..]);
    }
  }

  // ----- dircmp is that order -----

  /** Keys whose components use the given characters only. */
  predicate Over(alphabet: set<char>, p: Path) {
    forall i, j :: 0 <= i < |p| && 0 <= j < |p[i]| ==> p[i][j] in alphabet
  }

  predicate AboveSlash(alphabet: set<char>) {
    forall c :: c in alphabet ==> c > '/'
  }

  predicate NothingBelowSlash(s: string) {
    forall i :: 0 <= i < |s| ==> s[i] >= '/'
  }

  lemma {:induction false} SlashedCharacters(alphabet: set<char>, p: Path)
    requires Over(alphabet, p) && AboveSlash(alphabet)
    ensures NothingBelowSlash(Slashed(p))
  {
    if p != [] {
      assert Over(alphabet, p[1..]) by {
        assert forall i :: 0 <= i < |p[1..]| ==> p[1..][i] == p[i + 1];
      }
      SlashedCharacters(alphabet, p[1..]);
    }
  }

  /** Of two texts neither of which is the other cut at a slash, the plain comparison is the one by rank. */
  lemma {:induction false} PlainIsByRank(a: string, b: string)
    requires NothingBelowSlash(a) && NothingBelowSlash(b) && a != b
    requires !(a <= b && b[|a|] == '/') && !(b <= a && a[|b|] == '/')
    ensures CompareText(a, b) == RankCmp(a, b)
  {
    if a != "" && b != "" && a[0] == b[0] {
      var a', b' := a[1..], b[1..];
      assert a == [a[0]] + a' && b == [b[0]] + b';
      assert a' <= b' ==> a <= b && b'[|a'|..] == b[|a|..];
      assert b' <= a' ==> b <= a && a'[|b'|..] == a[|b|..];
      PlainIsByRank(a', b');
    }
  }

  /** A text that goes on with a slash where the other ends comes first. */
  lemma {:induction false} LongerFirst(a: string, b: string)
    requires a <= b && a != b && b[|a|] == '/'
    ensures RankCmp(b, a) == -1
  {
    if a != "" {
      assert a[1..] <= b[1..] && b[1..][|a| - 1] == '/';
      LongerFirst(a[1..], b[1..]);
    }
  }

  lemma {:induction false} AboveIsPrefixOfText(p: Path, q: Path)
    requires p <= q && p != q && ValidPath(q)
    ensures Slashed(p) <= Slashed(q) && Slashed(p) != Slashed(q) && Slashed(q)[|Slashed(p)|] == '/'
  {
    var rest := q[|p|..];
    assert q == p + rest && rest != [];
    SlashedAppend(p, rest);
    SlashedStart(rest);
    assert ValidPath(rest) by {
      assert forall i :: 0 <= i < |rest| ==> rest[i] == q[|p| + i];
    }
  }

  lemma {:induction false} TextTellsApart(p: Path, q: Path)
    requires ValidPath(p) && ValidPath(q) && p != q
    ensures Slashed(p) != Slashed(q) && Text(p) != Text(q)
    ensures !(p <= q) && !(q <= p) ==> p != [] && q != []
  {
    KeyIsBelowIsPrefix(p, q);
    KeyIsBelowIsPrefix(q, p);
    SlashedStart(p);
    SlashedStart(q);
  }

  /** On keys with nothing below the slash, dircmp compares by rank. */
  lemma {:induction false} DirCmpIsByRank(alphabet: set<char>, p: Path, q: Path)
    requires AboveSlash(alphabet) && Over(alphabet, p) && Over(alphabet, q)
    requires ValidPath(p) && ValidPath(q) && p != q
    ensures DirCmp(Text(p), Text(q)) == RankCmp(Slashed(p), Slashed(q)) != 0
  {
    KeyIsBelowIsPrefix(p, q);
    KeyIsBelowIsPrefix(q, p);
    TextTellsApart(p, q);
    RankCmpIsAntisymmetric(Slashed(p), Slashed(q));
    if p <= q {
      AboveIsPrefixOfText(p, q);
      LongerFirst(Slashed(p), Slashed(q));
    } else if q <= p {
      AboveIsPrefixOfText(q, p);
      LongerFirst(Slashed(q), Slashed(p));
    } else {
      SlashedCharacters(alphabet, p);
      SlashedCharacters(alphabet, q);
      PlainIsByRank(Slashed(p), Slashed(q));
    }
  }

  /** Whatever the characters, a directory is sorted before those it lies in. */
  lemma DescendantsFirst(p: Path, q: Path)
    requires ValidPath(p) && ValidPath(q) && p <= q && p != q
    ensures DirCmp(Text(q), Text(p)) == -1 && DirCmp(Text(p), Text(q)) == 1
  {
    KeyIsBelowIsPrefix(p, q);
    KeyIsBelowIsPrefix(q, p);
  }

  ghost predicate StrictTotalOrder(alphabet: set<char>) {
    && (forall p, q | Key(alphabet, p) && Key(alphabet, q) && p != q ::
          DirCmp(Text(p), Text(q)) == -DirCmp(Text(q), Text(p)) != 0)
    && (forall p, q, r | Key(alphabet, p) && Key(alphabet, q) && Key(alphabet, r) && p != r ::
          DirCmp(Text(p), Text(q)) == -1 && DirCmp(Text(q), Text(r)) == -1 ==> DirCmp(Text(p), Text(r)) == -1)
  }

  predicate Key(alphabet: set<char>, p: Path) {
    ValidPath(p) && Over(alphabet, p)
  }

  /** A character below the slash makes a cycle of a directory, its subdirectory and a longer name. */
  lemma Cycle(x: string, y: string, c: char)
    requires ValidComponent(x) && ValidComponent(y) && c < '/'
    ensures DirCmp(Text([x, y]), Text([x])) == -1
    ensures DirCmp(Text([x]), Text([x + [c]])) == -1
    ensures DirCmp(Text([x + [c]]), Text([x, y])) == -1 && DirCmp(Text([x, y]), Text([x + [c]])) == 1
  {
    var sub, dir, longer := [x, y], [x], [x + [c]];
    DescendantsFirst(dir, sub);
    assert sub[0] == x && longer[0] == x + [c];
    assert !(dir <= longer) && !(longer <= dir) && !(longer <= sub) && !(sub <= longer);
    KeyIsBelowIsPrefix(dir, longer);
    KeyIsBelowIsPrefix(longer, dir);
    KeyIsBelowIsPrefix(longer, sub);
    KeyIsBelowIsPrefix(sub, longer);
    assert Slashed([]) == "";
    assert Slashed(dir) == "/" + x && Slashed(longer) == ("/" + x) + [c];
    assert Slashed([y]) == "/" + y;
    assert sub[1..] == [y];
    assert Slashed(sub) == ("/" + x) + ("/" + y);
    SameStart("/" + x, "", [c]);
    SameStart("/" + x, [c], "/" + y);
    SameStart("/" + x, "/" + y, [c]);
    assert ("/" + x) + "" == "/" + x;
  }

  lemma {:induction false} SameStart(s: string, a: string, b: string)
    ensures CompareText(s + a, s + b) == CompareText(a, b)
  {
    if s == "" {
      assert s + a == a && s + b == b;
    } else {
      assert (s + a)[1..] == s[1..] + a && (s + b)[1..] == s[1..] + b;
      SameStart(s[1..], a, b);
    }
  }

  /** dircmp orders the keys over an alphabet strictly and totally exactly when all of it is above the slash. */
  lemma OrderExactlyWhen(alphabet: set<char>)
    requires '/' !in alphabet
    ensures StrictTotalOrder(alphabet) <==> AboveSlash(alphabet)
  {
    if AboveSlash(alphabet) {
      forall p, q | Key(alphabet, p) && Key(alphabet, q) && p != q
        ensures DirCmp(Text(p), Text(q)) == -DirCmp(Text(q), Text(p)) != 0
      {
        DirCmpIsByRank(alphabet, p, q);
        DirCmpIsByRank(alphabet, q, p);
        RankCmpIsAntisymmetric(Slashed(p), Slashed(q));
      }
      forall p, q, r | Key(alphabet, p) && Key(alphabet, q) && Key(alphabet, r) && p != r
                       && DirCmp(Text(p), Text(q)) == -1 && DirCmp(Text(q), Text(r)) == -1
        ensures DirCmp(Text(p), Text(r)) == -1
      {
        OrderedChain(alphabet, p, q, r);
      }
    } else {
      var c :| c in alphabet && c <= '/';
      Cycle([c], [c], c);
      var sub, dir, longer := [[c], [c]], [[c]], [[c] + [c]];
      assert Key(alphabet, sub) && Key(alphabet, dir) && Key(alphabet, longer);
      assert sub[0] == [c] && longer[0] != [c];
    }
  }

  lemma OrderedChain(alphabet: set<char>, p: Path, q: Path, r: Path)
    requires AboveSlash(alphabet) && Key(alphabet, p) && Key(alphabet, q) && Key(alphabet, r) && p != r
    requires DirCmp(Text(p), Text(q)) == -1 && DirCmp(Text(q), Text(r)) == -1
    ensures DirCmp(Text(p), Text(r)) == -1
  {
    assert p != q && q != r;
    DirCmpIsByRank(alphabet, p, q);
    DirCmpIsByRank(alphabet, q, r);
    DirCmpIsByRank(alphabet, p, r);
    RankCmpIsTransitive(Slashed(p), Slashed(q), Slashed(r));
  }
}
