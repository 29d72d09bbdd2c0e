/** The words that stand for types and truth values in the files of both backends, and the numbers in them. */
module Words {
  import opened Options
  import opened Values
  import opened Decimal

  function TypeName(t: ValueType): string {
    match t
    case IntType => "int"
    case StringType => "string"
    case FloatType => "float"
    case BoolType => "bool"
    case SchemaType => "schema"
    case ListType => "list"
    case PairType => "pair"
    case InvalidType => "*invalid*"
  }

  function TypeFromName(s: string): ValueType {
    if s == "int" then IntType
    else if s == "float" then FloatType
    else if s == "string" then StringType
    else if s == "bool" then BoolType
    else if s == "schema" then SchemaType
    else if s == "list" then ListType
    else if s == "pair" then PairType
    else InvalidType
  }

  function BoolName(b: bool): string {
    if b then "true" else "false"
  }

  function AfterSign(s: string): string {
    var t := SkipSpaces(s);
    if t != "" && (t[0] == '-' || t[0] == '+') then t[1..] else t
  }

  /** int_from_string: none when there is no digit or the number does not fit. */
  function IntFromString(s: string): Option<int> {
    if LeadingDigits(AfterSign(s)) == "" || !IsInt32(Atoi(s)) then None else Some(Atoi(s))
  }

  const TWO_32: int := 0x1_0000_0000
  const TWO_64: int := 0x1_0000_0000_0000_0000

  /** The low 32 bits of a number, read as a signed number. */
  function Narrow(n: int): int {
    var low := n % TWO_32;
    if low >= 0x8000_0000 then low - TWO_32 else low
  }

  lemma NarrowKeeps(i: int)
    requires IsInt32(i)
    ensures Narrow(i) == i
  {
    if i < 0 {
      assert i % TWO_32 == i + TWO_32;
    }
  }

  /** The words themselves, as they stand in the files. */
  lemma WordsAre()
    ensures TypeName(IntType) == "int" && TypeName(StringType) == "string" && TypeName(FloatType) == "float"
    ensures TypeName(BoolType) == "bool" && TypeName(SchemaType) == "schema"
    ensures TypeName(ListType) == "list" && TypeName(PairType) == "pair"
    ensures BoolName(true) == "true" && BoolName(false) == "false"
  {
  }

  lemma TypeNamesDiffer(t: ValueType)
    ensures TypeFromName(TypeName(t)) == t
  {
  }

  lemma {:induction false} SkipSpacesAtDigits(s: string)
    requires s != "" && !IsSpace(s[0])
    ensures SkipSpaces(s) == s
  {
  }

  lemma {:induction false} DigitsComeBack(n: nat)
    ensures LeadingDigits(AfterSign(NatText(n))) != "" && Atoi(NatText(n)) == n
    ensures LeadingDigits(AfterSign("-" + NatText(n))) != ""
  {
    NatTextValue(n);
    var t := NatText(n);
    AtoiOfDigits(t);
    AllDigitsLead(t);
    assert IsDigit(t[0]);
    SkipSpacesAtDigits(t);
    SkipSpacesAtDigits("-" + t);
    assert ("-" + t)[1..] == t;
  }

  lemma IntComesBack(i: int)
    ensures IntFromString(IntText(i)) == if IsInt32(i) then Some(i) else None
  {
    AtoiReadsIntText(i);
    DigitsComeBack(if i < 0 then -i else i);
  }

  lemma NarrowComesBack(time: int)
    requires IsInt32(time)
    ensures 0 <= time % TWO_64 < TWO_64 && Narrow(time % TWO_64) == time
  {
    if time < 0 {
      var n := time + TWO_64;
      assert time % TWO_64 == n;
      assert n == (TWO_32 - 1) * TWO_32 + (time + TWO_32);
      assert n % TWO_32 == time + TWO_32;
    }
  }
}
