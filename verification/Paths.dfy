/**
 * Keys and directories. A key such as "/apps/foo" is the sequence of its components,
 * the root "/" is the empty sequence, and "above" is the component-prefix order. The second
 * half of the module ties that reading to the slash-separated text the C functions work on.
 */
module Paths {

  type Path = seq<string>

  /** The key that holds p, and the root for the root. */
  function Parent(p: Path): Path {
    if p == [] then [] else p[..|p| - 1]
  }

  /** d is p itself or one of the directories it lies in. */
  predicate IsBelow(above: Path, below: Path) {
    above <= below
  }

  predicate Covered(dirs: set<Path>, p: Path) {
    exists d :: d in dirs && IsBelow(d, p)
  }

  lemma PrefixesAreComparable(a: Path, b: Path, p: Path)
    requires a <= p && b <= p
    ensures a <= b || b <= a
  {
    if |a| <= |b| {
      assert a == p[..|a|] == b[..|a|];
    } else {
      assert b == p[..|b|] == a[..|b|];
    }
  }

  lemma PrefixIsTransitive(a: Path, b: Path, c: Path)
    requires a <= b && b <= c
    ensures a <= c
  {
    assert a == b[..|a|] == c[..|a|];
  }

  lemma PrefixIsAntisymmetric(a: Path, b: Path)
    requires a <= b
    ensures b <= a ==> a == b
  {
  }

  lemma PrefixOfParent(a: Path, p: Path)
    requires p != []
    ensures a <= Parent(p) <==> a <= p && a != p
  {
    var q := Parent(p);
    assert p == q + [p[|p| - 1]];
    if a <= p && a != p {
      assert a == p[..|a|] == q[..|a|];
    }
    if a <= q {
      PrefixIsTransitive(a, q, p);
    }
  }

  // ----- slash-separated text -----

  predicate ValidComponent(c: string) {
    c != "" && '/' !in c
  }

  predicate ValidPath(p: Path) {
    forall i :: 0 <= i < |p| ==> ValidComponent(p[i])
  }

  /** Every component preceded by a slash. */
  function Slashed(p: Path): string {
    if p == [] then "" else "/" + p[0] + Slashed(p[1..])
  }

  function Text(p: Path): string {
    if p == [] then "/" else Slashed(p)
  }

  /** gconf_key_is_below, on text. */
  predicate KeyIsBelow(above: string, below: string) {
    above == "/" || (above <= below && (|below| == |above| || below[|above|] == '/'))
  }

  /** strrchr (s, '/'): the position of the last slash, or -1. */
  function LastSlash(s: string): (i: int)
    ensures -1 <= i < |s|
    ensures i >= 0 ==> s[i] == '/'
    ensures forall j :: i < j < |s| ==> s[j] != '/'
  {
    if s == "" then -1
    else if s[|s| - 1] == '/' then |s| - 1
    else LastSlash(s[..|s| - 1])
  }

  /** gconf_key_directory, on text. */
  function KeyDirectory(key: string): string
    requires LastSlash(key) >= 0
  {
    if LastSlash(key) == 0 then "/" else key[..LastSlash(key)]
  }

  /** gconf_key_key, on text. */
  function KeyKey(key: string): string
    requires LastSlash(key) >= 0
  {
    key[LastSlash(key) + 1..]
  }

  lemma {:induction false} SlashedAppend(p: Path, q: Path)
    ensures Slashed(p + q) == Slashed(p) + Slashed(q)
  {
    if p == [] {
      assert p + q == q;
    } else {
      assert (p + q)[1..] == p[1..] + q;
      SlashedAppend(p[1..], q);
    }
  }

  lemma {:induction false} SlashedStart(p: Path)
    ensures Slashed(p) == "" || Slashed(p)[0] == '/'
    ensures p != [] && ValidPath(p) ==> |Slashed(p)| >= 2
  {
    if p != [] {
      assert Slashed(p)[0] == '/';
    }
  }

  /** Two slash-free words, each followed by nothing or by a slash, are told apart by their text. */
  lemma FirstWordsAgree(x: string, u: string, y: string, v: string)
    requires '/' !in x && '/' !in y
    requires u == "" || u[0] == '/'
    requires v == "" || v[0] == '/'
    requires x + u <= y + v
    requires |x + u| == |y + v| || (y + v)[|x + u|] == '/'
    ensures x == y
    ensures u <= v && (|u| == |v| || v[|u|] == '/')
  {
    var a, b := x + u, y + v;
    assert forall i :: 0 <= i < |a| ==> a[i] == b[i];
    assert forall i :: 0 <= i < |x| ==> a[i] == x[i];
    assert v != "" ==> b[|y|] == v[0];
    if |x| < |y| {
      assert false;
    }
    if |y| < |x| {
      assert false;
    }
    assert x == a[..|x|] == b[..|x|] == y;
    assert u == a[|x|..] && v == b[|x|..];
    assert forall i :: 0 <= i < |u| ==> u[i] == a[|x| + i] == b[|x| + i] == v[i];
  }

  /** The textual test is the component-prefix order, root and partial components included. */
  lemma KeyIsBelowIsPrefix(a: Path, b: Path)
    requires ValidPath(a) && ValidPath(b)
    ensures KeyIsBelow(Text(a), Text(b)) <==> IsBelow(a, b)
  {
    if a <= b && a != [] {
      var rest := b[|a|..];
      assert b == a + rest;
      SlashedAppend(a, rest);
      SlashedStart(rest);
      SlashedStart(a);
    }
    if KeyIsBelow(Text(a), Text(b)) && a != [] {
      SlashedStart(a);
      if b == [] {
        assert false;
      } else {
        SlashedPrefix(a, b);
      }
    }
  }

  lemma {:induction false} SlashedPrefix(a: Path, b: Path)
    requires ValidPath(a) && ValidPath(b)
    requires Slashed(a) <= Slashed(b)
    requires |Slashed(a)| == |Slashed(b)| || Slashed(b)[|Slashed(a)|] == '/'
    ensures a <= b
  {
    if a != [] {
      SlashedStart(a);
      if b == [] {
        assert false;
      } else {
        var x, y := Slashed(a)[1..], Slashed(b)[1..];
        assert x == a[0] + Slashed(a[1..]) && y == b[0] + Slashed(b[1..]);
        assert x <= y;
        SlashedStart(a[1..]);
        SlashedStart(b[1..]);
        FirstWordsAgree(a[0], Slashed(a[1..]), b[0], Slashed(b[1..]));
        SlashedPrefix(a[1..], b[1..]);
        assert a == [a[0]] + a[1..] && b == [b[0]] + b[1..];
      }
    }
  }

  /** Cutting the text at its last slash drops the last component, and keeps it. */
  lemma KeyDirectoryIsParent(p: Path)
    requires p != [] && ValidPath(p)
    ensures LastSlash(Text(p)) >= 0
    ensures KeyDirectory(Text(p)) == Text(Parent(p))
    ensures KeyKey(Text(p)) == p[|p| - 1]
  {
    var q, c := Parent(p), p[|p| - 1];
    assert p == q + [c];
    SlashedAppend(q, [c]);
    assert Slashed([c]) == "/" + c + Slashed([]);
    var t, n := Text(p), |Slashed(q)|;
    assert t == Slashed(q) + ("/" + c);
    assert t[n] == '/';
    assert forall j :: n < j < |t| ==> t[j] == c[j - n - 1];
    assert LastSlash(t) == n;
    SlashedStart(q);
    assert t[..n] == Slashed(q);
  }

  // ----- valid names -----

  const InvalidChars: string := " \t\r\n\"$&<>,+=#!()'|{}[]?~`;%\\"

  /** The loop of gconf_valid_key: no empty component, none that starts with a period, and plain characters. */
  predicate ValidFrom(s: string, afterSlash: bool) {
    if s == "" then !afterSlash
    else if s[0] == '/' then !afterSlash && ValidFrom(s[1..], true)
    else
      && !(afterSlash && s[0] == '.') && s[0] as int <= 127 && s[0] !in InvalidChars
      && ValidFrom(s[1..], false)
  }

  /** gconf_valid_key. */
  predicate ValidKey(key: string) {
    key != "" && key[0] == '/' && (key == "/" || ValidFrom(key, false))
  }

  /** What may stand in a key beside slashes: ASCII, but no blanks, brackets, quotes and the like. */
  predicate PlainChar(c: char) {
    c as int <= 127 && c !in {' ', '\t', '\r', '\n', '"', '$', '&', '<', '>', ',', '+', '=', '#', '!',
                              '(', ')', '\'', '|', '{', '}', '[', ']', '?', '~', '`', ';', '%', '\\'}
  }

  /** Neither a second slash nor a period stands behind a slash. */
  predicate NamesFollow(s: string) {
    forall i :: 0 <= i < |s| - 1 && s[i] == '/' ==> s[i + 1] != '/' && s[i + 1] != '.'
  }

  lemma InvalidCharsAre(c: char)
    ensures PlainChar(c) <==> c as int <= 127 && c !in InvalidChars
  {
  }

  lemma {:induction false} ValidFromExactlyWhen(s: string, afterSlash: bool)
    requires s != ""
    ensures ValidFrom(s, afterSlash) <==>
            && (afterSlash ==> s[0] != '/' && s[0] != '.') && s[|s| - 1] != '/' && NamesFollow(s)
            && forall i :: 0 <= i < |s| ==> s[i] == '/' || PlainChar(s[i])
  {
    InvalidCharsAre(s[0]);
    var rest := s[1..];
    assert forall i :: 0 <= i < |rest| ==> rest[i] == s[i + 1];
    if rest != "" {
      ValidFromExactlyWhen(rest, s[0] == '/');
      NamesFollowOn(s);
      assert rest[|rest| - 1] == s[|s| - 1];
      assert forall i :: 0 < i < |s| ==> s[i] == rest[i - 1];
    }
  }

  lemma NamesFollowOn(s: string)
    requires |s| >= 2
    ensures NamesFollow(s) <==> NamesFollow(s[1..]) && (s[0] == '/' ==> s[1] != '/' && s[1] != '.')
  {
    var rest := s[1..];
    assert forall i :: 0 <= i < |rest| ==> rest[i] == s[i + 1];
    if NamesFollow(rest) && (s[0] == '/' ==> s[1] != '/' && s[1] != '.') {
      forall i | 0 <= i < |s| - 1 && s[i] == '/'
        ensures s[i + 1] != '/' && s[i + 1] != '.'
      {
        assert i > 0 ==> rest[i - 1] == s[i] && rest[i] == s[i + 1];
      }
    }
  }

  /**
   * A key is valid exactly if it is the root, or begins with a slash, does not end with one, has neither a
   * slash nor a period behind a slash, and holds no characters but slashes and plain ones.
   */
  lemma {:induction false} ValidKeyExactlyWhen(key: string)
    ensures ValidKey(key) <==>
            || key == "/"
            || (&& key != "" && key[0] == '/' && key[|key| - 1] != '/' && NamesFollow(key)
                && forall i :: 0 <= i < |key| ==> key[i] == '/' || PlainChar(key[i]))
  {
    if key != "" {
      ValidFromExactlyWhen(key, false);
    }
  }
}
