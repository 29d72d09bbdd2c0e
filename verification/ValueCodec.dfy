/**
 * The one-line encoding of a value: a type byte, and for compound values the encodings of the parts,
 * quoted, so that every level of nesting quotes the level below once more.
 */
module ValueCodec {
  import opened Options
  import opened Values
  import opened Quoting
  import opened Decimal

  function TypeByte(t: ValueType): char {
    match t
    case IntType => 'i'
    case BoolType => 'b'
    case FloatType => 'f'
    case StringType => 's'
    case SchemaType => 'c'
    case ListType => 'l'
    case PairType => 'p'
    case InvalidType => 'v'
  }

  function ByteType(c: char): ValueType {
    if c == 'i' then IntType
    else if c == 'b' then BoolType
    else if c == 's' then StringType
    else if c == 'c' then SchemaType
    else if c == 'f' then FloatType
    else if c == 'l' then ListType
    else if c == 'p' then PairType
    else InvalidType
  }

  /**
   * The values the encoder accepts: C strings and 32-bit integers, pairs with both halves, and lists
   * as the list setters leave them.
   */
  predicate Encodable(v: Value) {
    match v
    case IntValue(i) => IsInt32(i)
    case BoolValue(_) => true
    case StringValue(s) => IsCString(s)
    case ListValue(t, elems) =>
      t != ListType && t != PairType && (t == InvalidType ==> elems == [])
      && forall e :: e in elems ==> Encodable(e)
    case PairValue(car, cdr) => car.Some? && cdr.Some? && Encodable(car.value) && Encodable(cdr.value)
    case SchemaValue(sc) =>
      && IsCString(Or(sc.locale)) && IsCString(Or(sc.shortDesc)) && IsCString(Or(sc.longDesc))
      && (sc.defaultValue.Some? ==> Encodable(sc.defaultValue.value))
  }

  function Or(s: Option<string>): string {
    match s
    case None => ""
    case Some(t) => t
  }

  /** gconf_value_encode. */
  function Encode(v: Value): string
    requires Encodable(v)
    decreases v, 1
  {
    match v
    case IntValue(i) => "i" + IntText(i)
    case BoolValue(b) => "b" + if b then "t" else "f"
    case StringValue(s) => "s" + s
    case ListValue(t, elems) => "l" + [TypeByte(t)] + EncodeElems(elems)
    case PairValue(car, cdr) => "p" + Quote(Encode(car.value)) + "," + Quote(Encode(cdr.value))
    case SchemaValue(sc) =>
      "c" + [TypeByte(sc.kind), TypeByte(sc.listType), TypeByte(sc.carType), TypeByte(sc.cdrType)] + ","
      + (Quote(Or(sc.locale)) + ",") + (Quote(Or(sc.shortDesc)) + ",") + (Quote(Or(sc.longDesc)) + ",")
      + Quote(if sc.defaultValue.Some? then Encode(sc.defaultValue.value) else "")
  }

  /** Each element with a comma before it, the first one included. */
  function EncodeElems(elems: seq<Value>): string
    requires forall e :: e in elems ==> Encodable(e)
    decreases elems, 0
  {
    if elems == [] then "" else "," + Quote(Encode(elems[0])) + EncodeElems(elems[1..])
  }

  /**
   * A value, or none where the decoder returns NULL. Unspecified is where the C code leaves what the
   * language defines, reading past the terminator or an integer out of range, or reads a float.
   */
  datatype Decoded = Decoded(value: Value) | NoValue | Unspecified

  datatype DecodedElems = DecodedElems(elems: seq<Value>) | UnspecifiedElems

  function CharAt(s: string, i: nat): char {
    if i < |s| then s[i] else NUL
  }

  /** A list keeps no element type that its setter refuses, and then no elements either. */
  function MakeList(t: ValueType, elems: seq<Value>): Value {
    if t == ListType || t == PairType || t == InvalidType then ListValue(InvalidType, [])
    else ListValue(t, elems)
  }

  /** The quoted string at position i and the position after the character that follows it. */
  function Field(s: string, i: nat): (f: Option<(string, nat)>)
    ensures f.Some? ==> i < f.value.1 && |f.value.0| <= |s| - i
  {
    if i > |s| then None
    else
      var u := Unquote(s[i..]);
      Some((u.text, i + u.end + 1))
  }

  /** gconf_value_decode. Every part it decodes is strictly shorter than what it was given. */
  function Decode(s: string): Decoded
    decreases |s|, 1, 0
  {
    if s == "" then NoValue
    else
      match ByteType(s[0]) {
      case InvalidType => NoValue
      case IntType => if IsInt32(Atoi(s[1..])) then Decoded(IntValue(Atoi(s[1..]))) else Unspecified
      case BoolType => Decoded(BoolValue(CharAt(s, 1) == 't'))
      case FloatType => Unspecified
      case StringType => Decoded(StringValue(s[1..]))
      case ListType =>
        if |s| < 2 then Unspecified
        else
          (match DecodeElems(s, 2)
           case UnspecifiedElems => Unspecified
           case DecodedElems(elems) => Decoded(MakeList(ByteType(s[1]), elems)))
      case PairType => DecodePair(s)
      case SchemaType => DecodeSchema(s)
      }
  }

  /** The loop over the elements: what does not decode is skipped, and only a comma continues it. */
  function DecodeElems(s: string, i: nat): DecodedElems
    requires 2 <= i <= |s|
    decreases |s|, 0, |s| - i
  {
    if i == |s| then DecodedElems([])
    else
      var u := Unquote(s[i..]);
      var first := Decode(u.text);
      if first == Unspecified then UnspecifiedElems
      else
        var elem := if first.Decoded? then [first.value] else [];
        var j := i + u.end;
        if j < |s| && s[j] == ',' then
          match DecodeElems(s, j + 1)
          case UnspecifiedElems => UnspecifiedElems
          case DecodedElems(more) => DecodedElems(elem + more)
        else DecodedElems(elem)
  }

  function ToOption(d: Decoded): Option<Value>
    requires d != Unspecified
  {
    match d
    case Decoded(v) => Some(v)
    case NoValue => None
  }

  function DecodePair(s: string): Decoded
    requires s != ""
    decreases |s|, 0, 0
  {
    var first := Unquote(s[1..]);
    var j := 1 + first.end;
    var j' := if CharAt(s, j) == ',' then j + 1 else j;
    var second := Unquote(s[j'..]);
    var car, cdr := Decode(first.text), Decode(second.text);
    if car == Unspecified || cdr == Unspecified then Unspecified
    else Decoded(PairValue(ToOption(car), ToOption(cdr)))
  }

  function DecodeSchema(s: string): Decoded
    requires s != ""
    decreases |s|, 0, 0
  {
    match Field(s, 6)
    case None => Unspecified
    case Some((locale, i)) =>
      match Field(s, i)
      case None => Unspecified
      case Some((shortDesc, j)) =>
        match Field(s, j)
        case None => Unspecified
        case Some((longDesc, k)) =>
          match Field(s, k)
          case None => Unspecified
          case Some((default, _)) =>
            var d := Decode(default);
            if d == Unspecified then Unspecified
            else Decoded(SchemaValue(Schema(
              ByteType(s[1]), ByteType(s[2]), ByteType(s[3]), ByteType(s[4]),
              None, Some(locale), Some(shortDesc), Some(longDesc), ToOption(d))))
  }

  // ----- the round trip -----

  /** What the encoding does not carry: a schema's owner, and an absent locale or description as distinct from "". */
  function Normal(v: Value): Value
    decreases v, 1
  {
    match v
    case IntValue(_) => v
    case BoolValue(_) => v
    case StringValue(_) => v
    case ListValue(t, elems) => ListValue(t, NormalElems(elems))
    case PairValue(car, cdr) =>
      PairValue(if car.Some? then Some(Normal(car.value)) else None,
                if cdr.Some? then Some(Normal(cdr.value)) else None)
    case SchemaValue(sc) =>
      SchemaValue(Schema(sc.kind, sc.listType, sc.carType, sc.cdrType, None,
                         Some(Or(sc.locale)), Some(Or(sc.shortDesc)), Some(Or(sc.longDesc)),
                         if sc.defaultValue.Some? then Some(Normal(sc.defaultValue.value)) else None))
  }

  function NormalElems(elems: seq<Value>): seq<Value>
    decreases elems, 0
  {
    if elems == [] then [] else [Normal(elems[0])] + NormalElems(elems[1..])
  }

  /** back is what the encoding carries of v: all but an owner, and the absence of a schema's texts. */
  ghost predicate Carried(v: Value, back: Value)
    decreases v
  {
    match v
    case ListValue(t, elems) =>
      && back.ListValue? && back.elemType == t && |back.elems| == |elems|
      && forall i :: 0 <= i < |elems| ==> Carried(elems[i], back.elems[i])
    case PairValue(car, cdr) =>
      && back.PairValue?
      && (car.Some? <==> back.car.Some?) && (car.Some? ==> Carried(car.value, back.car.value))
      && (cdr.Some? <==> back.cdr.Some?) && (cdr.Some? ==> Carried(cdr.value, back.cdr.value))
    case SchemaValue(sc) =>
      && back.SchemaValue?
      && var d := back.schema;
         && d.kind == sc.kind && d.listType == sc.listType && d.carType == sc.carType && d.cdrType == sc.cdrType
         && d.owner == None
         && d.locale == (if sc.locale.Some? then sc.locale else Some(""))
         && d.shortDesc == (if sc.shortDesc.Some? then sc.shortDesc else Some(""))
         && d.longDesc == (if sc.longDesc.Some? then sc.longDesc else Some(""))
         && (sc.defaultValue.Some? <==> d.defaultValue.Some?)
         && (sc.defaultValue.Some? ==> Carried(sc.defaultValue.value, d.defaultValue.value))
    case _ => back == v
  }

  lemma {:induction false} NormalIsCarried(v: Value)
    ensures Carried(v, Normal(v))
    decreases v
  {
    match v
    case ListValue(_, elems) =>
      NormalElemsAt(elems);
      forall i | 0 <= i < |elems|
        ensures Carried(elems[i], Normal(elems[i]))
      {
        NormalIsCarried(elems[i]);
      }
    case PairValue(car, cdr) =>
      if car.Some? {
        NormalIsCarried(car.value);
      }
      if cdr.Some? {
        NormalIsCarried(cdr.value);
      }
    case SchemaValue(sc) =>
      if sc.defaultValue.Some? {
        NormalIsCarried(sc.defaultValue.value);
      }
    case _ =>
  }

  lemma ByteTypeOfTypeByte(t: ValueType)
    ensures ByteType(TypeByte(t)) == t && TypeByte(t) != NUL
  {
  }

  // The lemmas below are about any texts whose decoding is known, not only encodings.

  ghost function Joined(texts: seq<string>): string {
    if texts == [] then "" else "," + Quote(texts[0]) + Joined(texts[1..])
  }

  /** What the loop does with an element that decodes to a value. */
  ghost function Continue(s: string, j: nat, val: Value): DecodedElems
    requires 2 <= j <= |s|
  {
    if j < |s| && s[j] == ',' then
      match DecodeElems(s, j + 1)
      case UnspecifiedElems => UnspecifiedElems
      case DecodedElems(rest) => DecodedElems([val] + rest)
    else DecodedElems([val])
  }

  lemma {:induction false} ElemStep(s: string, i: nat, u: Unquoted, val: Value)
    requires 2 <= i < |s| && u == Unquote(s[i..]) && Decode(u.text) == Decoded(val)
    ensures DecodeElems(s, i) == Continue(s, i + u.end, val)
  {
  }

  ghost predicate Decodes(text: string, val: Value) {
    Decode(text) == Decoded(val)
  }

  ghost predicate ElemsRead(s: string, i: nat, vals: seq<Value>)
    requires 2 <= i <= |s|
  {
    DecodeElems(s, i) == DecodedElems(vals)
  }

  /** An element that decodes, and behind it the end. */
  lemma {:induction false} LastElem(s: string, i: nat, u: Unquoted, vals: seq<Value>)
    requires 2 <= i < |s| && u == Unquote(s[i..]) && i + u.end == |s| && |vals| == 1 && Decodes(u.text, vals[0])
    ensures ElemsRead(s, i, vals)
  {
    ElemStep(s, i, u, vals[0]);
    assert vals == [vals[0]];
  }

  /** An element that decodes, and behind it a comma and the rest. */
  lemma {:induction false} ElemAndRest(s: string, i: nat, u: Unquoted, j: nat, vals: seq<Value>)
    requires 2 <= i < |s| && u == Unquote(s[i..]) && vals != [] && Decodes(u.text, vals[0])
    requires i + u.end == j < |s| && s[j] == ',' && ElemsRead(s, j + 1, vals[1..])
    ensures ElemsRead(s, i, vals)
  {
    ElemStep(s, i, u, vals[0]);
    GoesOn(s, j, vals[0], vals[1..]);
    assert [vals[0]] + vals[1..] == vals;
  }

  lemma {:induction false} GoesOn(s: string, j: nat, val: Value, rest: seq<Value>)
    requires 2 <= j < |s| && s[j] == ',' && ElemsRead(s, j + 1, rest)
    ensures Continue(s, j, val) == DecodedElems([val] + rest)
  {
  }

  ghost predicate AllDecode(texts: seq<string>, vals: seq<Value>) {
    |texts| == |vals| && (texts != [] ==> Decodes(texts[0], vals[0]) && AllDecode(texts[1..], vals[1..]))
  }

  lemma {:induction false} EachDecodes(texts: seq<string>, vals: seq<Value>)
    requires |texts| == |vals| && forall i :: 0 <= i < |texts| ==> Decodes(texts[i], vals[i])
    ensures AllDecode(texts, vals)
    decreases |texts|
  {
    if texts != [] {
      EachDecodes(texts[1..], vals[1..]);
    }
  }

  /** The quoted texts from position i on, each but the last followed by a comma. */
  ghost predicate TextsAt(s: string, i: nat, texts: seq<string>)
    decreases |texts|
  {
    texts != [] && i < |s| &&
    var u := Unquote(s[i..]);
    var j := i + u.end;
    && u.text == texts[0]
    && if |texts| == 1 then j == |s| else j < |s| && s[j] == ',' && TextsAt(s, j + 1, texts[1..])
  }

  lemma {:induction false} JoinedAreAt(s: string, i: nat, texts: seq<string>)
    requires i <= |s| && texts != [] && s[i..] == Joined(texts)[1..]
    ensures TextsAt(s, i, texts)
    decreases |texts|
  {
    var u, j := FirstText(s, i, texts);
    if texts[1..] != [] {
      JoinedAreAt(s, j + 1, texts[1..]);
    }
  }

  lemma {:induction false} DecodeTexts(s: string, i: nat, texts: seq<string>, vals: seq<Value>)
    requires 2 <= i <= |s| && TextsAt(s, i, texts) && AllDecode(texts, vals)
    ensures ElemsRead(s, i, vals)
    decreases |texts|
  {
    var u := Unquote(s[i..]);
    if |texts| == 1 {
      LastElem(s, i, u, vals);
    } else {
      var j := i + u.end;
      DecodeTexts(s, j + 1, texts[1..], vals[1..]);
      ElemAndRest(s, i, u, j, vals);
    }
  }

  lemma {:induction false} FirstText(s: string, i: nat, texts: seq<string>) returns (u: Unquoted, j: nat)
    requires i <= |s| && texts != [] && s[i..] == Joined(texts)[1..]
    ensures i < |s| && u == Unquote(s[i..]) && u.text == texts[0] && j == i + u.end
    ensures j <= |s| && (j == |s| <==> texts[1..] == [])
    ensures j < |s| ==> s[j] == ',' && s[j + 1..] == Joined(texts[1..])[1..]
  {
    var q, more := Quote(texts[0]), Joined(texts[1..]);
    JoinedFirst(s, i, q, more, texts);
    u, j := Unquoted(texts[0], |q|, true), i + |q|;
    UnquoteQuoted(texts[0], more);
  }

  lemma SuffixStarts(s: string, i: nat, q: string, more: string)
    requires i <= |s| && s[i..] == q + more
    ensures i + |q| <= |s| && s[i + |q|..] == more
    ensures more != [] ==> s[i + |q|] == more[0] && s[i + |q| + 1..] == more[1..]
  {
    assert |s| == i + |q| + |more|;
    assert s[i + |q|..] == s[i..][|q|..] == more;
  }

  lemma {:induction false} JoinedStarts(texts: seq<string>)
    requires texts != []
    ensures Joined(texts) != [] && Joined(texts)[0] == ',' && Joined(texts)[1..] == Quote(texts[0]) + Joined(texts[1..])
  {
    var rest := Quote(texts[0]) + Joined(texts[1..]);
    assert Joined(texts) == "," + rest;
  }

  lemma {:induction false} JoinedFirst(s: string, i: nat, q: string, more: string, texts: seq<string>)
    requires i <= |s| && texts != [] && q == Quote(texts[0]) && more == Joined(texts[1..])
    requires s[i..] == Joined(texts)[1..]
    ensures i < |s| && s[i..] == q + more && i + |q| <= |s| && (i + |q| == |s| <==> texts[1..] == [])
    ensures i + |q| < |s| ==> s[i + |q|] == ',' && s[i + |q| + 1..] == more[1..]
  {
    JoinedStarts(texts);
    SuffixStarts(s, i, q, more);
    if texts[1..] != [] {
      JoinedStarts(texts[1..]);
    }
  }

  /** A text that starts with a comma decodes to nothing and is consumed up to that comma. */
  lemma {:induction false} LeadingComma(s: string, body: string)
    requires |s| >= 2 && body != "" && body[0] == ','
    requires s[2..] == body
    ensures DecodeElems(s, 2) == DecodeElems(s, 3)
  {
    assert Unquote(body) == Unquoted(body, 0, false);
    assert Decode(body) == NoValue;
    assert s[2] == body[0];
    var more := DecodeElems(s, 3);
    if more.DecodedElems? {
      assert [] + more.elems == more.elems;
    }
  }

  /** The comma before the first element is read as an element that does not decode, and passed over. */
  lemma {:induction false} DecodeListElems(s: string, texts: seq<string>, vals: seq<Value>)
    requires |s| >= 2 && s[2..] == Joined(texts) && |texts| == |vals|
    requires forall i :: 0 <= i < |texts| ==> Decodes(texts[i], vals[i])
    ensures DecodeElems(s, 2) == DecodedElems(vals)
  {
    var body := Joined(texts);
    if texts != [] {
      LeadingComma(s, body);
      assert s[3..] == s[2..][1..];
      EachDecodes(texts, vals);
      JoinedAreAt(s, 3, texts);
      DecodeTexts(s, 3, texts, vals);
    }
  }

  lemma {:induction false} DecodeListText(s: string, t: ValueType, elems: seq<Value>)
    requires |s| >= 2 && s[0] == 'l' && s[1] == TypeByte(t)
    requires DecodeElems(s, 2) == DecodedElems(elems)
    ensures Decode(s) == Decoded(MakeList(t, elems))
  {
    ByteTypeOfTypeByte(t);
  }

  lemma PairText(a: string, d: string)
    returns (s: string, j: nat)
    ensures s == "p" + Quote(a) + "," + Quote(d) && j == 1 + |Quote(a)|
    ensures j < |s| && s[j] == ',' && s[1..] == Quote(a) + ("," + Quote(d)) && s[j + 1..] == Quote(d) + ""
  {
    s, j := "p" + Quote(a) + "," + Quote(d), 1 + |Quote(a)|;
  }

  lemma {:induction false} DecodePairText(a: string, d: string, car: Value, cdr: Value)
    requires Decode(a) == Decoded(car) && Decode(d) == Decoded(cdr)
    ensures Decode("p" + Quote(a) + "," + Quote(d)) == Decoded(PairValue(Some(car), Some(cdr)))
  {
    var s, j := PairText(a, d);
    UnquoteQuoted(a, "," + Quote(d));
    UnquoteQuoted(d, "");
    PairRead(s, Unquoted(a, |Quote(a)|, true), Unquoted(d, |Quote(d)|, true), car, cdr);
  }

  lemma PairRead(s: string, first: Unquoted, second: Unquoted, car: Value, cdr: Value)
    requires |s| > 1 + first.end && s[0] == 'p' && s[1 + first.end] == ','
    requires first == Unquote(s[1..]) && second == Unquote(s[1 + first.end + 1..])
    requires Decodes(first.text, car) && Decodes(second.text, cdr)
    ensures Decodes(s, PairValue(Some(car), Some(cdr)))
  {
    assert DecodePair(s) == Decoded(PairValue(Some(car), Some(cdr)));
  }

  lemma FieldAt(s: string, before: string, field: string, rest: string)
    requires s == before + Quote(field) + rest
    ensures Field(s, |before|) == Some((field, |before| + |Quote(field)| + 1))
  {
    assert s[|before|..] == Quote(field) + rest;
    UnquoteQuoted(field, rest);
  }

  lemma {:induction false} DecodeSchemaText(s: string, b2: string, b3: string, b4: string,
                                            r1: string, r2: string, r3: string,
                                            locale: string, short: string, long: string, default: string)
    requires |s| >= 6 && s[0] == 'c'
    requires s == s[..6] + Quote(locale) + r1 && s == b2 + Quote(short) + r2
    requires s == b3 + Quote(long) + r3 && s == b4 + Quote(default) + ""
    requires |b2| == 6 + |Quote(locale)| + 1 && |b3| == |b2| + |Quote(short)| + 1 && |b4| == |b3| + |Quote(long)| + 1
    requires Decode(default) != Unspecified
    ensures Decode(s) == Decoded(SchemaValue(Schema(
              ByteType(s[1]), ByteType(s[2]), ByteType(s[3]), ByteType(s[4]),
              None, Some(locale), Some(short), Some(long), ToOption(Decode(default)))))
  {
    FieldAt(s, s[..6], locale, r1);
    FieldAt(s, b2, short, r2);
    FieldAt(s, b3, long, r3);
    FieldAt(s, b4, default, "");
    assert Decode(s) == DecodeSchema(s);
  }

  lemma Regroup(s: string, h: string, l: string, m: string, n: string, d: string)
    returns (r1: string, b2: string, r2: string, b3: string, r3: string, b4: string)
    requires s == h + (l + ",") + (m + ",") + (n + ",") + d
    ensures s == h + l + r1 && s == b2 + m + r2 && s == b3 + n + r3 && s == b4 + d + ""
    ensures |b2| == |h| + |l| + 1 && |b3| == |b2| + |m| + 1 && |b4| == |b3| + |n| + 1
  {
    b2 := h + (l + ",");
    b3 := b2 + (m + ",");
    b4 := b3 + (n + ",");
    r3 := "," + d;
    assert s == b3 + n + r3;
    r2 := "," + (n + r3);
    assert s == b2 + m + r2;
    r1 := "," + (m + r2);
    assert s == h + l + r1;
  }

  lemma {:induction false} EncodeElemsIsJoined(elems: seq<Value>, texts: seq<string>)
    requires forall e :: e in elems ==> Encodable(e)
    requires |texts| == |elems| && forall i :: 0 <= i < |elems| ==> texts[i] == Encode(elems[i])
    ensures EncodeElems(elems) == Joined(texts)
    decreases |elems|
  {
    if elems != [] {
      EncodeElemsIsJoined(elems[1..], texts[1..]);
    }
  }

  lemma {:induction false} NormalElemsAt(elems: seq<Value>)
    ensures |NormalElems(elems)| == |elems|
    ensures forall i :: 0 <= i < |elems| ==> NormalElems(elems)[i] == Normal(elems[i])
    decreases |elems|
  {
    if elems != [] {
      NormalElemsAt(elems[1..]);
    }
  }

  lemma {:induction false} DecodeEncodeList(v: Value)
    requires v.ListValue? && Encodable(v)
    requires forall e :: e in v.elems ==> Decode(Encode(e)) == Decoded(Normal(e))
    ensures Decode(Encode(v)) == Decoded(Normal(v))
  {
    var elems := v.elems;
    assert forall i :: 0 <= i < |elems| ==> elems[i] in elems;
    var texts := seq(|elems|, i requires 0 <= i < |elems| => Encode(elems[i]));
    NormalElemsAt(elems);
    EncodeElemsIsJoined(elems, texts);
    var s := Encode(v);
    assert s[2..] == EncodeElems(elems);
    DecodeListElems(s, texts, NormalElems(elems));
    DecodeListText(s, v.elemType, NormalElems(elems));
  }

  lemma {:induction false} DecodeEncodeSchema(v: Value)
    requires v.SchemaValue? && Encodable(v)
    requires v.schema.defaultValue.Some? ==>
               Decode(Encode(v.schema.defaultValue.value)) == Decoded(Normal(v.schema.defaultValue.value))
    ensures Decode(Encode(v)) == Decoded(Normal(v))
  {
    var sc := v.schema;
    var s, head, locale, short, long, default := SchemaParts(v);
    ByteTypeOfTypeByte(sc.kind);
    ByteTypeOfTypeByte(sc.listType);
    ByteTypeOfTypeByte(sc.carType);
    ByteTypeOfTypeByte(sc.cdrType);
    var r1, b2, r2, b3, r3, b4 := Regroup(s, head, Quote(locale), Quote(short), Quote(long), Quote(default));
    assert s[..6] == head;
    DecodeSchemaText(s, b2, b3, b4, r1, r2, r3, locale, short, long, default);
  }

  lemma {:induction false} SchemaParts(v: Value)
    returns (s: string, head: string, locale: string, short: string, long: string, default: string)
    requires v.SchemaValue? && Encodable(v)
    ensures s == Encode(v)
    ensures s == head + (Quote(locale) + ",") + (Quote(short) + ",") + (Quote(long) + ",") + Quote(default)
    ensures |head| == 6 && |s| >= 6 && s[0] == 'c'
    ensures s[1] == TypeByte(v.schema.kind) && s[2] == TypeByte(v.schema.listType)
    ensures s[3] == TypeByte(v.schema.carType) && s[4] == TypeByte(v.schema.cdrType)
    ensures locale == Or(v.schema.locale) && short == Or(v.schema.shortDesc) && long == Or(v.schema.longDesc)
    ensures default == if v.schema.defaultValue.Some? then Encode(v.schema.defaultValue.value) else ""
  {
    var sc := v.schema;
    s := Encode(v);
    head := "c" + [TypeByte(sc.kind), TypeByte(sc.listType), TypeByte(sc.carType), TypeByte(sc.cdrType)] + ",";
    locale, short, long := Or(sc.locale), Or(sc.shortDesc), Or(sc.longDesc);
    default := if sc.defaultValue.Some? then Encode(sc.defaultValue.value) else "";
    assert head <= s;
    assert s[1] == head[1] && s[2] == head[2] && s[3] == head[3] && s[4] == head[4];
  }

  /** Decoding what was encoded gives the value back, up to what the encoding does not carry. */
  lemma {:induction false} DecodeEncode(v: Value)
    requires Encodable(v)
    ensures Decode(Encode(v)) == Decoded(Normal(v))
    decreases v
  {
    match v
    case IntValue(i) =>
      AtoiReadsIntText(i);
      assert Encode(v)[1..] == IntText(i);
    case BoolValue(b) =>
    case StringValue(s) =>
      assert Encode(v)[1..] == s;
    case ListValue(t, elems) =>
      forall e | e in elems ensures Decode(Encode(e)) == Decoded(Normal(e)) {
        DecodeEncode(e);
      }
      DecodeEncodeList(v);
    case PairValue(car, cdr) =>
      DecodeEncode(car.value);
      DecodeEncode(cdr.value);
      DecodePairText(Encode(car.value), Encode(cdr.value), Normal(car.value), Normal(cdr.value));
    case SchemaValue(sc) =>
      if sc.defaultValue.Some? {
        DecodeEncode(sc.defaultValue.value);
      }
      DecodeEncodeSchema(v);
  }

  /**
   * The round trip said of the values themselves: whatever can be encoded is decoded, at every depth with
   * its integers, truth values, strings, element types and halves, and of a schema with its types, its
   * default, and its locale and descriptions, which are empty where the schema has none.
   */
  lemma {:induction false} EncodedIsCarried(v: Value)
    requires Encodable(v)
    ensures Decode(Encode(v)).Decoded? && Carried(v, Decode(Encode(v)).value)
  {
    DecodeEncode(v);
    NormalIsCarried(v);
  }

  // ----- the encodings of a few values, written out -----

  lemma {:induction false} PlainForms()
    ensures Encode(IntValue(-42)) == "i-42" && Encode(BoolValue(true)) == "bt" && Encode(BoolValue(false)) == "bf"
    ensures Encode(StringValue("a")) == "sa"
  {
  }

  /** A text without quotes and backslashes is only put between quotes. */
  lemma {:induction false} PlainIsQuoted(s: string)
    requires forall i :: 0 <= i < |s| ==> s[i] != '"' && s[i] != '\\'
    ensures Quote(s) == "\"" + s + "\""
  {
    PlainIsEscaped(s);
  }

  lemma {:induction false} PlainIsEscaped(s: string)
    requires forall i :: 0 <= i < |s| ==> s[i] != '"' && s[i] != '\\'
    ensures Escaped(s) == s
  {
    if s != "" {
      PlainIsEscaped(s[1..]);
    }
  }

  lemma {:induction false} ListForm()
    ensures Encode(ListValue(IntType, [IntValue(1), IntValue(2)])) == "li,\"i1\",\"i2\""
  {
    var one, two := IntValue(1), IntValue(2);
    assert [one, two][1..] == [two] && [two][1..] == [];
    PlainIsQuoted("i1");
    PlainIsQuoted("i2");
    assert EncodeElems([two]) == ",\"i2\"";
  }

  lemma {:induction false} PairForm()
    ensures Encode(PairValue(Some(BoolValue(true)), Some(BoolValue(false)))) == "p\"bt\",\"bf\""
  {
    PlainIsQuoted("bt");
    PlainIsQuoted("bf");
  }

  /** A quotation mark and a backslash get a backslash in front. */
  lemma {:induction false} MarksAreEscaped()
    ensures Quote("\"") == "\"\\\"\"" && Quote("\\") == "\"\\\\\""
  {
    assert "\""[1..] == "" && "\\"[1..] == "";
  }

  lemma {:induction false} SchemaForm()
    ensures Encode(SchemaValue(Schema(ListType, StringType, FloatType, PairType, Some("o"), Some("C"), None,
                                      Some("x"), None)))
            == "clsfp,\"C\",\"\",\"x\",\"\""
  {
    PlainIsQuoted("C");
    PlainIsQuoted("");
    PlainIsQuoted("x");
  }

  lemma {:induction false} BareSchemaForm()
    ensures Encode(SchemaValue(Schema(SchemaType, InvalidType, IntType, BoolType, None, None, Some("y"), None, None)))
            == "ccvib,\"\",\"y\",\"\",\"\""
  {
    PlainIsQuoted("");
    PlainIsQuoted("y");
  }

  /** What is decoded of texts no encoder wrote: only "bt" begins a truth, and an unknown type byte is no value. */
  lemma {:induction false} ForeignTexts(rest: string, c: char)
    ensures Decode("") == NoValue
    ensures Decode("b" + rest) == Decoded(BoolValue(rest != "" && rest[0] == 't'))
    ensures Decode("s" + rest) == Decoded(StringValue(rest))
    ensures c !in "ibfsclp" ==> Decode([c] + rest) == NoValue
  {
    assert ("s" + rest)[1..] == rest;
  }
}
