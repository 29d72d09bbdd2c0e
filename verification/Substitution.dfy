/** Substitution of $(name) in a source path, into a buffer that grows as it is filled. */
module Substitution {
  import opened Quoting

  /** strchr: the first position of c at or after from, or the length when there is none. */
  function Find(s: string, c: char, from: nat): (i: nat)
    requires from <= |s|
    ensures from <= i <= |s| && (i < |s| ==> s[i] == c)
    decreases |s| - from
  {
    if from == |s| || s[from] == c then from else Find(s, c, from + 1)
  }

  /** At position i a variable reference starts that is closed further on. */
  predicate ReferenceAt(s: string, i: nat) {
    i + 1 < |s| && s[i] == '$' && s[i + 1] == '(' && Find(s, ')', i + 2) < |s|
  }

  /** What the text at position i becomes, and where to go on: a reference as a whole or one character. */
  function Turn(s: string, variable: string -> string, i: nat): (t: (string, nat))
    requires i < |s|
    ensures i < t.1 <= |s|
  {
    if ReferenceAt(s, i) then
      var end := Find(s, ')', i + 2);
      (variable(s[i + 2..end]), end + 1)
    else ([s[i]], i + 1)
  }

  /** What the text from position i on becomes. The value of a variable is not looked at again. */
  function SubstFrom(s: string, variable: string -> string, i: nat): string
    requires i <= |s|
    decreases |s| - i
  {
    if i == |s| then ""
    else
      var t := Turn(s, variable, i);
      t.0 + SubstFrom(s, variable, t.1)
  }

  function Subst(s: string, variable: string -> string): string {
    SubstFrom(s, variable, 0)
  }

  /** g_realloc: a larger buffer that starts with what the old one held. */
  method Realloc(buffer: array<char>, length: nat) returns (larger: array<char>)
    requires buffer.Length <= length
    ensures fresh(larger) && larger.Length == length && larger[..buffer.Length] == buffer[..]
  {
    larger := new char[length](_ => NUL);
    var i := 0;
    while i < buffer.Length
      invariant 0 <= i <= buffer.Length && larger[..i] == buffer[..i]
    {
      larger[i] := buffer[i];
      i := i + 1;
    }
  }

  /** strcpy (&buffer[pos], text), terminator included. */
  method CopyInto(buffer: array<char>, pos: nat, text: string)
    requires pos + |text| < buffer.Length
    modifies buffer
    ensures buffer[..pos + |text|] == old(buffer[..pos]) + text && buffer[pos + |text|] == NUL
  {
    var i := 0;
    while i < |text|
      invariant 0 <= i <= |text| && buffer[..pos + i] == old(buffer[..pos]) + text[..i]
    {
      buffer[pos + i] := text[i];
      i := i + 1;
      assert buffer[..pos + i] == buffer[..pos + i - 1] + [text[i - 1]];
    }
    assert text[..i] == text;
    buffer[pos + |text|] := NUL;
    assert buffer[..pos + |text|] == old(buffer[..pos]) + text;
  }

  /** The output so far: pos characters, within the length accounted for and the three spare ones beyond it. */
  ghost predicate Filled(retval: array<char>, retvalLen: nat, pos: nat, written: string)
    reads retval
  {
    retval.Length == retvalLen + 3 && pos == |written| && pos <= retvalLen && 0 < retvalLen && retval[..pos] == written
  }

  /** A full buffer is doubled. */
  method MakeRoom(retval: array<char>, retvalLen: nat, pos: nat, ghost written: string)
    returns (buffer: array<char>, length: nat)
    requires Filled(retval, retvalLen, pos, written)
    ensures (buffer == retval || fresh(buffer)) && Filled(buffer, length, pos, written) && pos < length
  {
    buffer, length := retval, retvalLen;
    if pos >= length {
      length := length * 2;
      buffer := Realloc(buffer, length + 3);
      assert buffer[..pos] == written;
    }
  }

  /** The value of a variable, for which the buffer grows to just enough. */
  method PutValue(retval: array<char>, retvalLen: nat, pos: nat, varval: string, ghost written: string)
    returns (buffer: array<char>, length: nat)
    requires Filled(retval, retvalLen, pos, written)
    modifies retval
    ensures (buffer == retval || fresh(buffer)) && Filled(buffer, length, pos + |varval|, written + varval)
  {
    buffer, length := retval, retvalLen;
    if length - pos < |varval| {
      length := pos + |varval|;
      buffer := Realloc(buffer, length + 3);
      assert buffer[..pos] == written;
    }
    CopyInto(buffer, pos, varval);
  }

  /** A character that is copied as it is. */
  method PutChar(retval: array<char>, retvalLen: nat, pos: nat, c: char, ghost written: string)
    requires Filled(retval, retvalLen, pos, written) && pos < retvalLen
    modifies retval
    ensures Filled(retval, retvalLen, pos + 1, written + [c])
  {
    retval[pos] := c;
  }

  /** One turn of the loop: a reference as a whole or one character. */
  method PutTurn(src: string, variable: string -> string, iter: nat,
                 retval: array<char>, retvalLen: nat, pos: nat, ghost written: string)
    returns (buffer: array<char>, length: nat, pos': nat, iter': nat)
    requires iter < |src| && Filled(retval, retvalLen, pos, written)
    modifies retval
    ensures buffer == retval || fresh(buffer)
    ensures iter' == Turn(src, variable, iter).1 && Filled(buffer, length, pos', written + Turn(src, variable, iter).0)
  {
    buffer, length := MakeRoom(retval, retvalLen, pos, written);
    if ReferenceAt(src, iter) {
      var varend := Find(src, ')', iter + 2);
      var varval := variable(src[iter + 2..varend]);
      buffer, length := PutValue(buffer, length, pos, varval, written);
      pos' := pos + |varval|;
      iter' := varend + 1;
    } else {
      PutChar(buffer, length, pos, src[iter], written);
      pos' := pos + 1;
      iter' := iter + 1;
    }
  }

  /**
   * subst_variables. The fill position never passes the length accounted for, so the subtraction of
   * the two does not wrap, and every write falls inside the three spare characters beyond it.
   */
  method SubstVariables(src: string, variable: string -> string) returns (retval: array<char>)
    requires IsCString(src) && forall name :: IsCString(variable(name))
    ensures fresh(retval) && Holds(retval, Subst(src, variable))
  {
    var retvalLen: nat := |src| + 1;
    var pos: nat, iter: nat := 0, 0;
    retval := new char[retvalLen + 3](_ => NUL);
    ghost var written := "";
    while iter < |src|
      invariant iter <= |src| && fresh(retval) && Filled(retval, retvalLen, pos, written) && IsCString(written)
      invariant Subst(src, variable) == written + SubstFrom(src, variable, iter)
      decreases |src| - iter
    {
      SubstStep(src, variable, iter, written);
      ghost var added := Turn(src, variable, iter).0;
      retval, retvalLen, pos, iter := PutTurn(src, variable, iter, retval, retvalLen, pos, written);
      written := written + added;
    }
    assert Subst(src, variable) == written;
    Terminate(retval, pos, written);
  }

  /** What one turn of the loop adds. */
  lemma {:induction false} SubstStep(src: string, variable: string -> string, iter: nat, written: string)
    requires iter < |src| && IsCString(src) && forall name :: IsCString(variable(name))
    ensures var t := Turn(src, variable, iter);
            && written + SubstFrom(src, variable, iter) == (written + t.0) + SubstFrom(src, variable, t.1)
            && IsCString(t.0)
  {
    var t := Turn(src, variable, iter);
    Associate(written, t.0, SubstFrom(src, variable, t.1));
  }

  lemma Associate(a: string, b: string, c: string)
    ensures a + (b + c) == (a + b) + c
  {
  }

  // ----- what the substitution is, rule by rule -----

  /** s is what all holds from off on. */
  predicate EndsWith(all: string, off: nat, s: string) {
    |all| == off + |s| && forall i :: 0 <= i < |s| ==> all[off + i] == s[i]
  }

  lemma {:induction false} FindShifts(all: string, off: nat, s: string, c: char, from: nat)
    requires EndsWith(all, off, s) && from <= |s|
    ensures Find(all, c, off + from) == off + Find(s, c, from)
    decreases |s| - from
  {
    if from < |s| && s[from] != c {
      FindShifts(all, off, s, c, from + 1);
    }
  }

  lemma TurnShifts(all: string, off: nat, s: string, variable: string -> string, i: nat)
    requires EndsWith(all, off, s) && i < |s|
    ensures var t := Turn(s, variable, i); Turn(all, variable, off + i) == (t.0, off + t.1)
  {
    assert i + 1 < |s| ==> all[off + (i + 1)] == s[i + 1];
    if i + 1 < |s| {
      FindShifts(all, off, s, ')', i + 2);
    }
    if ReferenceAt(s, i) {
      var end := Find(s, ')', i + 2);
      assert all[off + i + 2..off + end] == s[i + 2..end];
    }
  }

  lemma {:induction false} SubstShifts(all: string, off: nat, s: string, variable: string -> string, i: nat)
    requires EndsWith(all, off, s) && i <= |s|
    ensures SubstFrom(all, variable, off + i) == SubstFrom(s, variable, i)
    decreases |s| - i
  {
    if i < |s| {
      TurnShifts(all, off, s, variable, i);
      SubstShifts(all, off, s, variable, Turn(s, variable, i).1);
    }
  }

  lemma {:induction false} FindIs(s: string, c: char, from: nat, at: nat)
    requires from <= at < |s| && s[at] == c && c !in s[from..at]
    ensures Find(s, c, from) == at
    decreases at - from
  {
    if from < at {
      assert s[from..at] == [s[from]] + s[from + 1..at];
      FindIs(s, c, from + 1, at);
    }
  }

  /** A closed reference becomes its value, and what follows it is treated on its own. */
  lemma SubstReference(name: string, rest: string, variable: string -> string)
    requires ')' !in name
    ensures Subst("$(" + name + ")" + rest, variable) == variable(name) + Subst(rest, variable)
  {
    var a := "$(" + name + ")";
    var s := a + rest;
    var end := 2 + |name|;
    assert s[end] == ')' && s[2..end] == name;
    FindIs(s, ')', 2, end);
    SubstShifts(s, |a|, rest, variable, 0);
  }

  /** Text before the first dollar sign stays as it is. */
  lemma {:induction false} SubstPlain(plain: string, rest: string, variable: string -> string)
    requires '$' !in plain
    ensures Subst(plain + rest, variable) == plain + Subst(rest, variable)
    decreases |plain|
  {
    if plain == "" {
      assert plain + rest == rest;
    } else {
      var s := plain + rest;
      assert s == [plain[0]] + (plain[1..] + rest);
      SubstShifts(s, 1, plain[1..] + rest, variable, 0);
      SubstPlain(plain[1..], rest, variable);
      assert plain == [plain[0]] + plain[1..];
    }
  }

  /** A dollar sign that opens no closed reference stays as it is, and the scan goes on behind it. */
  lemma SubstUnclosed(rest: string, variable: string -> string)
    requires rest == "" || rest[0] != '(' || ')' !in rest
    ensures Subst("$" + rest, variable) == "$" + Subst(rest, variable)
  {
    var s := "$" + rest;
    assert forall i :: 1 <= i < |s| ==> s[i] == rest[i - 1];
    SubstShifts(s, 1, rest, variable, 0);
  }
}
