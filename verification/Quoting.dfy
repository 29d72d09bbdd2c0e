/**
 * Quoting and unquoting of strings. A C string is its characters up to the terminator; a buffer is
 * an array holding one.
 */
module Quoting {

  const NUL: char := '\0'

  predicate IsCString(s: string) {
    forall i :: 0 <= i < |s| ==> s[i] != NUL
  }

  /** The buffer holds the C string s from position 0. */
  ghost predicate Holds(buffer: array<char>, s: string)
    reads buffer
  {
    |s| < buffer.Length && IsCString(s) && buffer[..|s|] == s && buffer[|s|] == NUL
  }

  // ----- what quoting and unquoting mean -----

  function EscapedChar(c: char): string {
    if c == '"' then ['\\', '"'] else if c == '\\' then ['\\', '\\'] else [c]
  }

  function Escaped(s: string): string {
    if s == "" then "" else EscapedChar(s[0]) + Escaped(s[1..])
  }

  function Quote(s: string): string {
    "\"" + Escaped(s) + "\""
  }

  /** The text found, the position just after it, and whether both quotation marks were there. */
  datatype Unquoted = Unquoted(text: string, end: nat, ok: bool)

  function UnquoteFrom(s: string, i: nat): (u: Unquoted)
    requires i <= |s|
    ensures i <= u.end <= |s| && |u.text| <= u.end - i
    ensures u.ok ==> |u.text| < u.end - i
    decreases |s| - i
  {
    if i == |s| then Unquoted("", i, false)
    else if s[i] == '"' then Unquoted("", i + 1, true)
    else if s[i] == '\\' && i + 1 < |s| && (s[i + 1] == '"' || s[i + 1] == '\\') then
      var u := UnquoteFrom(s, i + 2);
      u.(text := [s[i + 1]] + u.text)
    else
      var u := UnquoteFrom(s, i + 1);
      u.(text := [s[i]] + u.text)
  }

  /** Text that does not start with a quotation mark is left as it is, and nothing of it is consumed. */
  function Unquote(s: string): (u: Unquoted)
    ensures u.end <= |s|
    ensures s != "" && s[0] == '"' ==> |u.text| < u.end
    ensures !(s != "" && s[0] == '"') ==> u.text == s && u.end == 0 && !u.ok
  {
    if s == "" || s[0] != '"' then Unquoted(s, 0, false) else UnquoteFrom(s, 1)
  }

  // ----- the round trip -----

  /** Reading one character, escaped or not, and going on behind it. */
  lemma UnquoteOne(all: string, i: nat, c: char)
    requires i + |EscapedChar(c)| <= |all| && all[i..i + |EscapedChar(c)|] == EscapedChar(c)
    ensures var u := UnquoteFrom(all, i + |EscapedChar(c)|);
            UnquoteFrom(all, i) == u.(text := [c] + u.text)
  {
    var e := EscapedChar(c);
    assert all[i] == all[i..i + |e|][0] == e[0];
    if |e| == 2 {
      assert all[i + 1] == all[i..i + |e|][1] == e[1];
    }
  }

  lemma SplitRange(all: string, i: nat, e: string, tail: string, end: nat)
    requires i + |e| + |tail| == end <= |all| && all[i..end] == e + tail
    ensures all[i..i + |e|] == e && all[i + |e|..end] == tail
  {
    var both := all[i..end];
    assert all[i..i + |e|] == both[..|e|] && all[i + |e|..end] == both[|e|..];
  }

  lemma {:induction false} EscapedStarts(s: string)
    requires s != ""
    ensures Escaped(s) == EscapedChar(s[0]) + Escaped(s[1..])
  {
  }

  lemma {:induction false} EscapedRange(all: string, i: nat, s: string, end: nat) returns (next: nat)
    requires s != "" && i + |Escaped(s)| == end <= |all| && all[i..end] == Escaped(s)
    ensures next == i + |EscapedChar(s[0])| && all[i..next] == EscapedChar(s[0])
    ensures next + |Escaped(s[1..])| == end && all[next..end] == Escaped(s[1..])
  {
    EscapedStarts(s);
    SplitRange(all, i, EscapedChar(s[0]), Escaped(s[1..]), end);
    next := i + |EscapedChar(s[0])|;
  }

  lemma {:induction false} UnquoteEscaped(all: string, i: nat, s: string, end: nat)
    requires i + |Escaped(s)| == end < |all| && all[i..end] == Escaped(s) && all[end] == '"'
    ensures UnquoteFrom(all, i) == Unquoted(s, end + 1, true)
    decreases |s|
  {
    if s != "" {
      var next := EscapedRange(all, i, s, end);
      UnquoteOne(all, i, s[0]);
      UnquoteEscaped(all, next, s[1..], end);
      assert [s[0]] + s[1..] == s;
    }
  }

  /** A quoted prefix is recovered whatever follows it, and the rest is left to be read next. */
  lemma UnquoteQuoted(s: string, rest: string)
    ensures Unquote(Quote(s) + rest) == Unquoted(s, |Quote(s)|, true)
  {
    var all := Quote(s) + rest;
    assert all[1..1 + |Escaped(s)|] == Escaped(s);
    UnquoteEscaped(all, 1, s, 1 + |Escaped(s)|);
  }

  lemma {:induction false} EscapedAppend(s: string, c: char)
    ensures Escaped(s + [c]) == Escaped(s) + EscapedChar(c)
  {
    if s == "" {
      assert s + [c] == [c];
      assert Escaped([c]) == EscapedChar(c) + Escaped([]);
    } else {
      assert (s + [c])[1..] == s[1..] + [c];
      EscapedAppend(s[1..], c);
    }
  }

  lemma {:induction false} EscapedIsCString(s: string)
    requires IsCString(s)
    ensures IsCString(Escaped(s)) && |s| <= |Escaped(s)| <= 2 * |s|
  {
    if s != "" {
      EscapedIsCString(s[1..]);
    }
  }

  // ----- the buffer algorithms -----

  /** Having written this much and read up to position s, what remains to read completes the text. */
  ghost predicate UnquoteReaches(given: string, written: string, s: nat) {
    && s <= |given|
    && Unquote(given) == UnquoteFrom(given, s).(text := written + UnquoteFrom(given, s).text)
  }

  lemma UnquoteStart(given: string)
    requires given != "" && given[0] == '"'
    ensures UnquoteReaches(given, "", 1)
  {
  }

  lemma UnquoteEnd(given: string, written: string)
    requires UnquoteReaches(given, written, |given|)
    ensures Unquote(given) == Unquoted(written, |given|, false)
  {
    assert written + "" == written;
  }

  lemma UnquoteStep(given: string, written: string, s: nat)
    requires UnquoteReaches(given, written, s) && s < |given|
    ensures given[s] == '"' ==> Unquote(given) == Unquoted(written, s + 1, true)
    ensures given[s] == '\\' && s + 1 < |given| && (given[s + 1] == '"' || given[s + 1] == '\\') ==>
              UnquoteReaches(given, written + [given[s + 1]], s + 2)
    ensures given[s] != '"' &&
            !(given[s] == '\\' && s + 1 < |given| && (given[s + 1] == '"' || given[s + 1] == '\\')) ==>
              UnquoteReaches(given, written + [given[s]], s + 1)
  {
    if given[s] == '\\' && s + 1 < |given| && (given[s + 1] == '"' || given[s + 1] == '\\') {
      var u := UnquoteFrom(given, s + 2);
      assert written + ([given[s + 1]] + u.text) == (written + [given[s + 1]]) + u.text;
    } else if given[s] != '"' {
      var u := UnquoteFrom(given, s + 1);
      assert written + ([given[s]] + u.text) == (written + [given[s]]) + u.text;
    }
  }

  lemma QuoteStep(src: string, s: nat)
    requires s < |src|
    ensures "\"" + Escaped(src[..s + 1]) == "\"" + Escaped(src[..s]) + EscapedChar(src[s])
  {
    EscapedAppend(src[..s], src[s]);
    assert src[..s + 1] == src[..s] + [src[s]];
  }

  /** *d++ = c, behind what was written before. */
  method Put(buffer: array<char>, d: nat, c: char, ghost written: string)
    requires d < buffer.Length && buffer[..d] == written
    modifies buffer
    ensures buffer[..d + 1] == written + [c]
    ensures forall i :: d < i < buffer.Length ==> buffer[i] == old(buffer[i])
  {
    buffer[d] := c;
  }

  /** *d = '\0': the buffer holds what was written. */
  method Terminate(buffer: array<char>, d: nat, ghost written: string)
    requires d < buffer.Length && buffer[..d] == written && IsCString(written)
    modifies buffer
    ensures Holds(buffer, written)
    ensures forall i :: d < i < buffer.Length ==> buffer[i] == old(buffer[i])
  {
    buffer[d] := NUL;
  }

  /** One character of the source, with a backslash before it where it needs one. */
  method PutEscaped(buffer: array<char>, d: nat, c: char, ghost written: string) returns (d': nat)
    requires d + |EscapedChar(c)| <= buffer.Length && buffer[..d] == written
    modifies buffer
    ensures d' == d + |EscapedChar(c)| && buffer[..d'] == written + EscapedChar(c)
  {
    d' := d;
    if c == '"' || c == '\\' {
      Put(buffer, d', '\\', written);
      d' := d' + 1;
    }
    Put(buffer, d', c, buffer[..d']);
    d' := d' + 1;
  }

  /** gconf_quote_string: into a fresh buffer of twice the length plus four, one character of it unused. */
  method QuoteString(src: string) returns (dest: array<char>)
    requires IsCString(src)
    ensures fresh(dest) && dest.Length == 2 * |src| + 4
    ensures Holds(dest, Quote(src)) && |Quote(src)| + 1 <= 2 * |src| + 3
  {
    EscapedIsCString(src);
    dest := new char[2 * |src| + 4];
    Put(dest, 0, '"', "");
    var d, s := 1, 0;
    while s < |src|
      invariant 0 <= s <= |src| && 1 <= d <= 2 * s + 1
      invariant dest[..d] == "\"" + Escaped(src[..s])
    {
      QuoteStep(src, s);
      d := PutEscaped(dest, d, src[s], "\"" + Escaped(src[..s]));
      s := s + 1;
    }
    assert src[..s] == src;
    Put(dest, d, '"', dest[..d]);
    d := d + 1;
    dest[d] := NUL;
    assert dest[..d] == Quote(src);
  }

  /** In the middle of unquoting: written is the text so far, and from the read position on nothing was touched. */
  ghost predicate Copying(str: array<char>, orig: seq<char>, given: string, written: string, dest: nat, s: nat)
    reads str
  {
    && |orig| == str.Length && IsCString(given) && |given| < |orig| && orig[..|given|] == given && orig[|given|] == NUL
    && dest < s <= |given| && dest == |written| && str[..dest] == written && IsCString(written)
    && (forall i :: s <= i < str.Length ==> str[i] == orig[i])
    && UnquoteReaches(given, written, s)
  }

  lemma ReadAhead(str: array<char>, orig: seq<char>, given: string, written: string, dest: nat, s: nat)
    requires Copying(str, orig, given, written, dest, s)
    ensures forall i :: s <= i < |given| ==> str[i] == given[i] && str[i] != NUL
    ensures str[|given|] == NUL
  {
    assert forall i :: 0 <= i < |given| ==> orig[..|given|][i] == orig[i];
  }

  /** One turn of the loop on a character other than the closing quotation mark. */
  method CopyOne(str: array<char>, dest: nat, s: nat, ghost orig: seq<char>, ghost given: string, ghost written: string)
    returns (s': nat, ghost written': string)
    requires Copying(str, orig, given, written, dest, s) && s < |given| && str[s] != '"'
    modifies str
    ensures s < s' && Copying(str, orig, given, written', dest + 1, s')
  {
    ReadAhead(str, orig, given, written, dest, s);
    UnquoteStep(given, written, s);
    var c := str[s];
    s' := s + 1;
    if c == '\\' && (str[s'] == '"' || str[s'] == '\\') {
      c := str[s'];
      s' := s' + 1;
    }
    written' := written + [c];
    Put(str, dest, c, written);
  }

  /**
   * gconf_unquote_string_inplace: writes the text over the string it reads. The read position stays
   * strictly ahead of the write position, so nothing is overwritten before it was read.
   */
  method UnquoteStringInplace(str: array<char>, ghost given: string) returns (end: nat, ok: bool)
    requires Holds(str, given)
    modifies str
    ensures end == Unquote(given).end && ok == Unquote(given).ok
    ensures Holds(str, Unquote(given).text)
    ensures str[end..] == old(str[end..])
  {
    if str[0] != '"' {
      return 0, false;
    }
    ghost var orig := str[..];
    ghost var written := "";
    var dest, s := 0, 1;
    assert given != "" && given[0] == '"';
    UnquoteStart(given);
    while str[s] != NUL
      invariant Copying(str, orig, given, written, dest, s)
      decreases |given| - s
    {
      ReadAhead(str, orig, given, written, dest, s);
      if str[s] == '"' {
        UnquoteStep(given, written, s);
        Terminate(str, dest, written);
        return s + 1, true;
      }
      s, written := CopyOne(str, dest, s, orig, given, written);
      dest := dest + 1;
    }
    ReadAhead(str, orig, given, written, dest, s);
    UnquoteEnd(given, written);
    Terminate(str, dest, written);
    return s, false;
  }

  // ----- texts that were not quoted by this code -----

  /** A backslash in front of any other character stands for itself. */
  lemma {:induction false} LoneBackslashStays(s: string, i: nat)
    requires i + 1 < |s| && s[i] == '\\' && s[i + 1] != '"' && s[i + 1] != '\\'
    ensures var u, rest := UnquoteFrom(s, i), UnquoteFrom(s, i + 2);
            u.text == "\\" + [s[i + 1]] + rest.text && u.end == rest.end && u.ok == rest.ok
  {
    assert UnquoteFrom(s, i + 1).text == [s[i + 1]] + UnquoteFrom(s, i + 2).text;
  }

  /** Without a closing quotation mark everything is taken, and the failure is reported. */
  lemma {:induction false} UnclosedIsTaken(s: string, i: nat)
    requires i <= |s| && forall j :: i <= j < |s| ==> s[j] != '"' && s[j] != '\\'
    ensures UnquoteFrom(s, i) == Unquoted(s[i..], |s|, false)
    decreases |s| - i
  {
    if i < |s| {
      UnclosedIsTaken(s, i + 1);
      assert s[i..] == [s[i]] + s[i + 1..];
    }
  }
}
