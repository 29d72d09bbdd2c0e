/** Decimal text of integers: what "%d" prints and what atoi reads. */
module Decimal {

  const INT_MIN := -0x8000_0000
  const INT_MAX := 0x7fff_ffff

  predicate IsInt32(i: int) {
    INT_MIN <= i <= INT_MAX
  }

  function Digit(d: nat): char
    requires d < 10
  {
    ['0', '1', '2', '3', '4', '5', '6', '7', '8', '9'][d]
  }

  predicate IsDigit(c: char) {
    '0' <= c <= '9'
  }

  function NatText(n: nat): string {
    if n < 10 then [Digit(n)] else NatText(n / 10) + [Digit(n % 10)]
  }

  /** printf ("%d"). */
  function IntText(i: int): string {
    if i < 0 then "-" + NatText(-i) else NatText(i)
  }

  predicate IsSpace(c: char) {
    c == ' ' || c == '\t' || c == '\n' || c == '\r' || c == '\U{000B}' || c == '\U{000C}'
  }

  function SkipSpaces(s: string): string {
    if s != "" && IsSpace(s[0]) then SkipSpaces(s[1..]) else s
  }

  function LeadingDigits(s: string): string {
    if s != "" && IsDigit(s[0]) then [s[0]] + LeadingDigits(s[1..]) else ""
  }

  function DigitsValue(s: string): nat
    requires forall i :: 0 <= i < |s| ==> IsDigit(s[i])
  {
    if s == "" then 0
    else
      var last := s[|s| - 1];
      assert IsDigit(last);
      10 * DigitsValue(s[..|s| - 1]) + (last as int - '0' as int)
  }

  lemma {:induction false} LeadingDigitsAreDigits(s: string)
    ensures forall i :: 0 <= i < |LeadingDigits(s)| ==> IsDigit(LeadingDigits(s)[i])
  {
    if s != "" {
      LeadingDigitsAreDigits(s[1..]);
    }
  }

  /** atoi: the value of the digits after optional blanks and an optional sign, before any narrowing. */
  function Atoi(s: string): int {
    var t := SkipSpaces(s);
    var negative := t != "" && t[0] == '-';
    var u := if t != "" && (t[0] == '-' || t[0] == '+') then t[1..] else t;
    LeadingDigitsAreDigits(u);
    if negative then 0 - DigitsValue(LeadingDigits(u)) else DigitsValue(LeadingDigits(u))
  }

  lemma {:induction false} NatTextValue(n: nat)
    ensures NatText(n) != ""
    ensures forall i :: 0 <= i < |NatText(n)| ==> IsDigit(NatText(n)[i])
    ensures DigitsValue(NatText(n)) == n
  {
    var t := NatText(n);
    if n < 10 {
      assert t == [Digit(n)] && t[..0] == "";
    } else {
      NatTextValue(n / 10);
      assert t[..|t| - 1] == NatText(n / 10);
    }
  }

  lemma {:induction false} AllDigitsLead(s: string)
    requires forall i :: 0 <= i < |s| ==> IsDigit(s[i])
    ensures LeadingDigits(s) == s
  {
    if s != "" {
      AllDigitsLead(s[1..]);
      assert s == [s[0]] + s[1..];
    }
  }

  lemma {:induction false} AtoiOfDigits(s: string)
    requires s != "" && forall i :: 0 <= i < |s| ==> IsDigit(s[i])
    ensures Atoi(s) == DigitsValue(s) && Atoi("-" + s) == 0 - DigitsValue(s)
  {
    assert IsDigit(s[0]) && SkipSpaces(s) == s;
    var t := "-" + s;
    assert SkipSpaces(t) == t && t[1..] == s;
    AllDigitsLead(s);
  }

  lemma AtoiReadsIntText(i: int)
    ensures Atoi(IntText(i)) == i
  {
    var n := if i < 0 then -i else i;
    NatTextValue(n);
    AtoiOfDigits(NatText(n));
  }

  /** Blanks in front and whatever follows the digits are passed over; without digits the number is 0. */
  lemma {:induction false} AtoiReads(s: string)
    ensures IsSpace(' ') && IsSpace('\t') && IsSpace('\n') && IsSpace('\r')
    ensures s != "" && IsSpace(s[0]) ==> Atoi(s) == Atoi(s[1..])
    ensures s != "" && (s[0] == '+' || IsDigit(s[0])) ==> Atoi(s) >= 0
    ensures s == "" || !(IsSpace(s[0]) || IsDigit(s[0]) || s[0] == '+' || s[0] == '-') ==> Atoi(s) == 0
    ensures Atoi("12x") == 12 && Atoi("+7") == 7 && Atoi("-7") == -7
  {
    assert "12x"[1..] == "2x" && "2x"[1..] == "x" && "x"[1..] == "";
    assert LeadingDigits("2x") == ['2'] + LeadingDigits("x") && LeadingDigits("12x") == "12";
    assert "12"[..1] == "1" && "1"[..0] == "" && DigitsValue("1") == 1;
    assert "+7"[1..] == "7" && "-7"[1..] == "7" && LeadingDigits("7") == "7" && "7"[..0] == "";
    if s != "" && !IsSpace(s[0]) {
      assert SkipSpaces(s) == s;
    }
  }
}
