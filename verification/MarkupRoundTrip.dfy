/** Reading back what was written: exactly what the file form keeps of a directory tree. */
module MarkupRoundTrip {
  import opened Options
  import opened Values
  import opened Decimal
  import opened Words
  import opened MarkupFiles

  // ----- what can be written at all -----

  /** What an li element may hold. */
  predicate WritablePrimitive(v: Value) {
    match v
    case IntValue(i) => IsInt32(i)
    case BoolValue(_) => true
    case StringValue(_) => true
    case _ => false
  }

  predicate PlainType(t: ValueType) {
    t != InvalidType && !Compound(t)
  }

  /** What a car or cdr element may hold: nothing that has elements of its own other than a text. */
  predicate WritableHalf(v: Value) {
    match v
    case ListValue(t, elems) => PlainType(t) && elems == []
    case PairValue(car, cdr) => car == None && cdr == None
    case SchemaValue(sc) => WritableSchema(sc)
    case _ => WritablePrimitive(v)
  }

  /** What an entry or default element may hold. */
  predicate WritableValue(v: Value) {
    match v
    case ListValue(t, elems) => PlainType(t) && forall e :: e in elems ==> WritablePrimitive(e) && TypeOf(e) == t
    case PairValue(car, cdr) => (car.Some? ==> WritableHalf(car.value)) && (cdr.Some? ==> WritableHalf(cdr.value))
    case SchemaValue(sc) => WritableSchema(sc)
    case _ => WritablePrimitive(v)
  }

  predicate WritableSchema(sc: Schema) {
    && (sc.kind == ListType ==> !Compound(sc.listType))
    && (sc.kind == PairType ==> !Compound(sc.carType) && !Compound(sc.cdrType))
  }

  predicate WritableEntry(e: FileEntry) {
    && (e.value.Some? ==> WritableValue(e.value.value))
    && (e.value.Some? && e.value.value.SchemaValue? ==> AllWritable(e.localSchemas))
  }

  predicate WritableDefault(ls: LocalSchema) {
    ls.defaultValue.Some? ==> WritableValue(ls.defaultValue.value)
  }

  predicate AllWritable(lss: seq<LocalSchema>) {
    forall ls :: ls in lss ==> WritableDefault(ls)
  }

  predicate WritableDir(d: DirTree) {
    (forall e :: e in d.entries ==> WritableEntry(e)) && forall s :: s in d.subdirs ==> WritableDir(s)
  }

  // ----- what comes back -----

  function NormalText(s: string): string {
    if AllWhitespace(s) then "" else s
  }

  function NormalPrimitive(v: Value): Value {
    match v
    case StringValue(s) => StringValue(NormalText(s))
    case _ => v
  }

  function NormalPrimitives(vs: seq<Value>): seq<Value> {
    if vs == [] then [] else [NormalPrimitive(vs[0])] + NormalPrimitives(vs[1..])
  }

  function NormalHalf(v: Value): Value {
    match v
    case SchemaValue(sc) => SchemaValue(NormalSchema(sc))
    case _ => NormalPrimitive(v)
  }

  function NormalOption(v: Option<Value>): Option<Value> {
    match v
    case None => None
    case Some(w) => Some(NormalHalf(w))
  }

  function NormalValue(v: Value): Value {
    match v
    case ListValue(t, elems) => ListValue(t, NormalPrimitives(elems))
    case PairValue(car, cdr) => PairValue(NormalOption(car), NormalOption(cdr))
    case _ => NormalHalf(v)
  }

  /** The element types a schema's kind has no use for are not kept, nor is anything localized. */
  function NormalSchema(sc: Schema): Schema {
    Schema(sc.kind,
           if sc.kind == ListType then sc.listType else InvalidType,
           if sc.kind == PairType then sc.carType else InvalidType,
           if sc.kind == PairType then sc.cdrType else InvalidType,
           sc.owner, None, None, None, None)
  }

  function NormalLongDesc(d: Option<string>): Option<string> {
    if d.Some? && AllWhitespace(d.value) then None else d
  }

  function NormalLocalSchema(ls: LocalSchema, subtree: bool): LocalSchema {
    LocalSchema(ls.locale,
                if WritesDescs(ls, subtree) then ls.shortDesc else None,
                if WritesDescs(ls, subtree) then NormalLongDesc(ls.longDesc) else None,
                if ls.defaultValue.Some? then Some(NormalValue(ls.defaultValue.value)) else None)
  }

  function NormalLocalSchemas(lss: seq<LocalSchema>, subtree: bool): seq<LocalSchema> {
    if lss == [] then []
    else (if !WritesDescs(lss[0], subtree) && lss[0].defaultValue == None then []
          else [NormalLocalSchema(lss[0], subtree)])
         + NormalLocalSchemas(lss[1..], subtree)
  }

  function NormalEntry(e: FileEntry, subtree: bool): FileEntry {
    match e.value
    case None => e.(localSchemas := [])
    case Some(v) =>
      e.(value := Some(NormalValue(v)),
         localSchemas := if v.SchemaValue? then NormalLocalSchemas(e.localSchemas, subtree) else [])
  }

  function NormalEntries(es: seq<FileEntry>, subtree: bool): seq<FileEntry> {
    if es == [] then [] else [NormalEntry(es[0], subtree)] + NormalEntries(es[1..], subtree)
  }

  function NormalDir(d: DirTree, subtree: bool): DirTree
    decreases d, 1
  {
    DirTree(d.name, NormalEntries(d.entries, subtree), NormalDirs(d.subdirs, subtree))
  }

  function NormalDirs(ds: seq<DirTree>, subtree: bool): seq<DirTree>
    decreases ds, 0
  {
    if ds == [] then [] else [NormalDir(ds[0], subtree)] + NormalDirs(ds[1..], subtree)
  }

  // ----- attributes -----

  lemma TimeComesBack(time: Time)
    ensures TimeFromString(TimeText(time)) == time
  {
    NarrowComesBack(time);
    DigitsComeBack(time % TWO_64);
  }

  /** The value as it stands when its element has just been opened. */
  function Opened(v: Value): Value {
    match v
    case StringValue(_) => StringValue("")
    case ListValue(t, _) => ListValue(t, [])
    case PairValue(_, _) => PairValue(None, None)
    case SchemaValue(sc) => SchemaValue(NormalSchema(sc))
    case _ => v
  }

  /** The attributes written for the value itself can be parsed. */
  predicate Opens(v: Value) {
    match v
    case IntValue(i) => IsInt32(i)
    case ListValue(t, _) => PlainType(t)
    case SchemaValue(sc) => WritableSchema(sc)
    case _ => true
  }

  predicate Present(attrs: Attrs, more: Attrs) {
    && (forall k :: k in attrs ==> k in more && more[k] == attrs[k])
    && more.Keys <= ValueAttrNames
    && forall k :: k in more && k !in attrs ==> k in {"name", "muser", "mtime", "schema"}
  }

  lemma OwnType(v: Value, attrs: Attrs)
    requires Present(ValueAttrs(v), attrs)
    ensures "type" in attrs && TypeFromName(attrs["type"]) == TypeOf(v)
  {
    TypeNamesDiffer(TypeOf(v));
    TypeIsWritten(v);
  }

  lemma TypeIsWritten(v: Value)
    ensures "type" in ValueAttrs(v) && ValueAttrs(v)["type"] == TypeName(TypeOf(v))
  {
    if v.SchemaValue? {
      PartTypes(v.schema);
    }
  }

  lemma PlainAttrsParse(v: Value, attrs: Attrs)
    requires (v.IntValue? || v.BoolValue? || v.StringValue?) && Present(ValueAttrs(v), attrs)
    ensures ParseValue(attrs) == if Opens(v) then Parsed(Opened(v)) else BadValue
  {
    var own := ValueAttrs(v);
    OwnType(v, attrs);
    match v
    case IntValue(i) =>
      IntComesBack(i);
      assert attrs["value"] == own["value"];
    case BoolValue(b) =>
      assert attrs["value"] == own["value"];
    case StringValue(_) =>
  }

  lemma ListAttrsParse(t: ValueType, elems: seq<Value>, attrs: Attrs)
    requires Present(ValueAttrs(ListValue(t, elems)), attrs)
    ensures ParseValue(attrs) == if PlainType(t) then Parsed(ListValue(t, [])) else BadValue
  {
    var own := ValueAttrs(ListValue(t, elems));
    OwnType(ListValue(t, elems), attrs);
    TypeNamesDiffer(t);
    assert attrs["ltype"] == own["ltype"] == TypeName(t);
  }

  lemma ValueAttrsParse(v: Value, attrs: Attrs)
    requires Present(ValueAttrs(v), attrs)
    ensures ParseValue(attrs) == if Opens(v) then Parsed(Opened(v)) else BadValue
  {
    match v
    case ListValue(t, elems) => ListAttrsParse(t, elems, attrs);
    case PairValue(_, _) => OwnType(v, attrs);
    case SchemaValue(sc) =>
      OwnType(v, attrs);
      SchemaIsParsed(attrs);
      SchemaAttrsParse(sc, attrs);
    case _ => PlainAttrsParse(v, attrs);
  }

  lemma SchemaIsParsed(attrs: Attrs)
    requires attrs.Keys <= ValueAttrNames && "type" in attrs && TypeFromName(attrs["type"]) == SchemaType
    ensures ParseValue(attrs) == ParseSchemaAttrs(attrs)
  {
  }

  lemma PartTypes(sc: Schema)
    ensures var parts := PartTypeAttrs(sc);
            && parts.Keys <= {"list_type", "car_type", "cdr_type"}
            && (sc.kind == ListType ==> TypeOfAttr(parts, "list_type") == sc.listType)
            && (sc.kind == PairType ==> TypeOfAttr(parts, "car_type") == sc.carType
                                        && TypeOfAttr(parts, "cdr_type") == sc.cdrType)
  {
    TypeNamesDiffer(sc.listType);
    TypeNamesDiffer(sc.carType);
    TypeNamesDiffer(sc.cdrType);
  }

  lemma OwnSchemaAttrs(sc: Schema)
    ensures var own := ValueAttrs(SchemaValue(sc));
            && "stype" in own && own["stype"] == TypeName(sc.kind) && Attr(own, "owner") == sc.owner
            && (sc.kind == ListType ==> TypeOfAttr(own, "list_type") == sc.listType)
            && (sc.kind == PairType ==> TypeOfAttr(own, "car_type") == sc.carType
                                        && TypeOfAttr(own, "cdr_type") == sc.cdrType)
  {
    PartTypes(sc);
    OwnKind(sc, PartTypeAttrs(sc));
    OwnPartType(sc, "list_type");
    OwnPartType(sc, "car_type");
    OwnPartType(sc, "cdr_type");
  }

  lemma OwnKind(sc: Schema, parts: Attrs)
    requires parts == PartTypeAttrs(sc) && parts.Keys <= {"list_type", "car_type", "cdr_type"}
    ensures var own := ValueAttrs(SchemaValue(sc));
            "stype" in own && own["stype"] == TypeName(sc.kind) && Attr(own, "owner") == sc.owner
  {
    assert "stype" !in parts && "owner" !in parts;
  }

  lemma OwnPartType(sc: Schema, name: string)
    requires name in {"list_type", "car_type", "cdr_type"}
    ensures TypeOfAttr(ValueAttrs(SchemaValue(sc)), name) == TypeOfAttr(PartTypeAttrs(sc), name)
  {
  }

  lemma SchemaAttrsParse(sc: Schema, attrs: Attrs)
    requires Present(ValueAttrs(SchemaValue(sc)), attrs)
    ensures ParseSchemaAttrs(attrs) == if WritableSchema(sc) then Parsed(SchemaValue(NormalSchema(sc))) else BadValue
  {
    var own := ValueAttrs(SchemaValue(sc));
    OwnSchemaAttrs(sc);
    TypeNamesDiffer(sc.kind);
    forall k | k in {"owner", "stype", "list_type", "car_type", "cdr_type"}
      ensures Attr(attrs, k) == Attr(own, k) && TypeOfAttr(attrs, k) == TypeOfAttr(own, k)
    {
    }
    assert attrs["stype"] == own["stype"];
    assert Attr(attrs, "owner") == Attr(own, "owner");
    assert TypeOfAttr(attrs, "list_type") == TypeOfAttr(own, "list_type");
    assert TypeOfAttr(attrs, "car_type") == TypeOfAttr(own, "car_type");
    assert TypeOfAttr(attrs, "cdr_type") == TypeOfAttr(own, "cdr_type");
  }

  lemma OwnAttrsParse(v: Value)
    ensures ParseValue(ValueAttrs(v)) == if Opens(v) then Parsed(Opened(v)) else BadValue
  {
    ValueAttrsParse(v, ValueAttrs(v));
  }

  // ----- runs of the parser -----

  lemma {:induction false} RunAppend(info: ParseInfo, a: seq<Event>, b: seq<Event>)
    ensures Run(info, a + b) == match Run(info, a)
                                case Going(next) => Run(next, b)
                                case other => other
    decreases |a|
  {
    if a == [] {
      assert a + b == b;
    } else {
      assert (a + b)[0] == a[0] && (a + b)[1..] == a[1..] + b;
      var step := Step(info, a[0]);
      if step.Going? {
        RunAppend(step.info, a[1..], b);
      }
    }
  }

  lemma {:induction false} ReachedAppend(info: ParseInfo, a: seq<Event>, b: seq<Event>)
    ensures Reached(info, a + b) == match Run(info, a)
                                    case Going(next) => Reached(next, b)
                                    case _ => Reached(info, a)
    decreases |a|
  {
    if a == [] {
      assert a + b == b;
    } else {
      assert (a + b)[0] == a[0] && (a + b)[1..] == a[1..] + b;
      var step := Step(info, a[0]);
      if step.Going? {
        ReachedAppend(step.info, a[1..], b);
      }
    }
  }

  lemma {:induction false} ReachedEnd(info: ParseInfo, events: seq<Event>)
    ensures Run(info, events).Going? ==> Reached(info, events) == Run(info, events).info
    decreases |events|
  {
    if events != [] && Step(info, events[0]).Going? {
      ReachedEnd(Step(info, events[0]).info, events[1..]);
    }
  }

  lemma {:induction false} RunOne(info: ParseInfo, e: Event)
    ensures Run(info, [e]) == Step(info, e)
  {
    var step := Step(info, e);
    if step.Going? {
      assert Run(step.info, [e][1..]) == step;
    }
  }

  /** An element read as a whole: its start, what is inside, its end. */
  lemma {:induction false} RunElement(info: ParseInfo, start: Event, inside: seq<Event>, end: Event,
                                      inner: ParseInfo, filled: ParseInfo)
    requires Step(info, start) == Going(inner) && Run(inner, inside) == Going(filled)
    ensures Run(info, [start] + inside + [end]) == Step(filled, end)
  {
    RunAppend(info, [start] + inside, [end]);
    RunAppend(info, [start], inside);
    RunOne(info, start);
    RunOne(filled, end);
  }

  // ----- values -----

  /** The parser is inside an element whose value is on top of the value stack. */
  predicate AtValue(info: ParseInfo) {
    && info.states != [] && info.values != []
    && info.states[0] in {InEntry, InDefault, InCar, InCdr, InLi}
    && (info.states[0] == InEntry ==>
          info.currentEntry.Some? && info.currentEntry.value.value.Some? && info.values[0].slot == EntrySlot)
  }

  function WithTop(info: ParseInfo, v: Value): ParseInfo
    requires info.values != []
  {
    info.(values := [info.values[0].(value := v)] + info.values[1..])
  }

  lemma {:induction false} ReadText(info: ParseInfo, s: string)
    requires info.states != [] && info.states[0] == InStringValue
    requires info.values != [] && info.values[0].value == StringValue("")
    ensures Run(info, TextEvent(s)) == Going(WithTop(info, StringValue(NormalText(s))))
  {
    assert WithTop(info, StringValue("")) == info by {
      assert [info.values[0]] + info.values[1..] == info.values;
    }
    if s != "" {
      RunOne(info, Text(s));
    }
  }

  lemma {:induction false} ReadPrimitive(info: ParseInfo, v: Value)
    requires AtValue(info) && WritablePrimitive(v) && info.values[0].value == Opened(v)
    ensures Run(info, ValueChildren(v)) == Going(WithTop(info, NormalPrimitive(v)))
  {
    assert [info.values[0]] + info.values[1..] == info.values;
    if v.StringValue? {
      var inner := Push(info, InStringValue);
      assert Step(info, Start("stringvalue", map[])) == Going(inner) by {
        assert WithTop(info, StringValue("")) == info;
      }
      ReadText(inner, v.s);
      var filled := WithTop(inner, NormalPrimitive(v));
      RunElement(info, Start("stringvalue", map[]), TextEvent(v.s), End("stringvalue"), inner, filled);
      assert filled.states[1..] == info.states;
    }
  }

  /** The stack just after an inner value was opened under an owner that already points to it. */
  function Under(info: ParseInfo, state: State, slot: Slot, v: Value, owner: Value): ParseInfo
    requires info.values != []
  {
    Push(info, state).(values := [Item(v, slot), info.values[0].(value := owner)] + info.values[1..])
  }

  /** Closing an inner element hands its finished value to the owner below it. */
  lemma CloseTop(info: ParseInfo, state: State, slot: Slot, v: Value, owner: Value, owner': Value, end: Event)
    requires info.values != [] && state in {InCar, InCdr, InLi} && slot in {CarSlot, CdrSlot, LiSlot} && end.End?
    requires forall slot0 :: Settle(Item(owner, slot0), Item(v, slot)) == Item(owner', slot0)
    ensures Step(Under(info, state, slot, v, owner), end) == Going(WithTop(info, owner'))
  {
    var full := Under(info, state, slot, v, owner);
    assert full.values[1..] == [info.values[0].(value := owner)] + info.values[1..];
    assert full.values[1..][1..] == info.values[1..];
    assert full.states[1..] == info.states;
  }

  /** What is inside an inner element, read with only the element's own value in view. */
  lemma {:induction false} ReadUnder(info: ParseInfo, state: State, slot: Slot, v: Value, owner: Value)
    requires info.values != [] && state in {InCar, InCdr, InLi} && WritableHalf(v)
    ensures Run(Under(info, state, slot, Opened(v), owner), ValueChildren(v)) ==
            Going(Under(info, state, slot, NormalHalf(v), owner))
  {
    var inner := Under(info, state, slot, Opened(v), owner);
    if WritablePrimitive(v) {
      ReadPrimitive(inner, v);
    } else {
      TopTwice(inner, NormalHalf(v), NormalHalf(v));
    }
    TopUnder(info, state, slot, Opened(v), NormalHalf(v), owner);
  }

  lemma TopUnder(info: ParseInfo, state: State, slot: Slot, v: Value, v': Value, owner: Value)
    requires info.values != []
    ensures WithTop(Under(info, state, slot, v, owner), v') == Under(info, state, slot, v', owner)
  {
  }

  /** Reading what is inside an inner element and closing it leaves the owner with the whole value. */
  lemma {:induction false} CloseInner(info: ParseInfo, state: State, slot: Slot, v: Value, owner: Value, owner': Value,
                                      start: Event, end: Event)
    requires info.values != [] && state in {InCar, InCdr, InLi} && slot in {CarSlot, CdrSlot, LiSlot}
    requires WritableHalf(v) && Step(info, start) == Going(Under(info, state, slot, Opened(v), owner)) && end.End?
    requires forall slot0 :: Settle(Item(owner, slot0), Item(NormalHalf(v), slot)) == Item(owner', slot0)
    ensures Run(info, [start] + ValueChildren(v) + [end]) == Going(WithTop(info, owner'))
  {
    ReadUnder(info, state, slot, v, owner);
    CloseTop(info, state, slot, NormalHalf(v), owner, owner', end);
    RunElement(info, start, ValueChildren(v), end,
               Under(info, state, slot, Opened(v), owner), Under(info, state, slot, NormalHalf(v), owner));
  }

  /** The parser is inside an entry or default element whose value may have elements of its own. */
  predicate AtOuter(info: ParseInfo) {
    AtValue(info) && info.states[0] in {InEntry, InDefault}
  }

  lemma LiElement(info: ParseInfo, attrs: Attrs)
    requires AtOuter(info)
    ensures Step(info, Start("li", attrs)) == StartLi(info, attrs)
  {
  }

  lemma HalfElement(info: ParseInfo, isCar: bool, attrs: Attrs)
    requires AtOuter(info)
    ensures Step(info, Start(if isCar then "car" else "cdr", attrs)) == StartCarOrCdr(info, isCar, attrs)
  {
  }

  lemma LiStarts(info: ParseInfo, t: ValueType, done: seq<Value>, v: Value)
    requires AtOuter(info)
    requires info.values[0].value == ListValue(t, done) && WritablePrimitive(v) && TypeOf(v) == t
    ensures Step(info, Start("li", ValueAttrs(v))) ==
            Going(Under(info, InLi, LiSlot, Opened(v), ListValue(t, done + [Opened(v)])))
  {
    OwnAttrsParse(v);
    LiElement(info, ValueAttrs(v));
  }

  lemma {:induction false} ReadLi(info: ParseInfo, t: ValueType, done: seq<Value>, v: Value)
    requires AtOuter(info)
    requires info.values[0].value == ListValue(t, done) && WritablePrimitive(v) && TypeOf(v) == t
    ensures Run(info, WriteValue("li", v)) == Going(WithTop(info, ListValue(t, done + [NormalPrimitive(v)])))
  {
    LiStarts(info, t, done, v);
    var owner, owner' := ListValue(t, done + [Opened(v)]), ListValue(t, done + [NormalPrimitive(v)]);
    assert owner.elems[..|owner.elems| - 1] == done;
    CloseInner(info, InLi, LiSlot, v, owner, owner', Start("li", ValueAttrs(v)), End("li"));
  }

  lemma TopTwice(info: ParseInfo, v: Value, v': Value)
    requires info.values != []
    ensures WithTop(WithTop(info, v), v') == WithTop(info, v')
    ensures info.values[0].value == v ==> WithTop(info, v) == info
    ensures AtValue(info) ==> AtValue(WithTop(info, v))
  {
    assert [info.values[0]] + info.values[1..] == info.values;
    assert WithTop(info, v).values[1..] == info.values[1..];
  }

  lemma {:induction false} OneMoreNormal(done: seq<Value>, elems: seq<Value>)
    requires elems != []
    ensures done + [NormalPrimitive(elems[0])] + NormalPrimitives(elems[1..]) == done + NormalPrimitives(elems)
  {
  }

  lemma {:induction false} ReadElems(info: ParseInfo, t: ValueType, done: seq<Value>, elems: seq<Value>)
    requires AtOuter(info) && info.values[0].value == ListValue(t, done)
    requires forall e :: e in elems ==> WritablePrimitive(e) && TypeOf(e) == t
    ensures Run(info, WriteElems(elems)) == Going(WithTop(info, ListValue(t, done + NormalPrimitives(elems))))
    decreases |elems|
  {
    if elems == [] {
      assert done + [] == done;
      TopTwice(info, ListValue(t, done), ListValue(t, done));
    } else {
      ReadLi(info, t, done, elems[0]);
      var done' := done + [NormalPrimitive(elems[0])];
      RunAppend(info, WriteValue("li", elems[0]), WriteElems(elems[1..]));
      TopTwice(info, ListValue(t, done'), ListValue(t, done' + NormalPrimitives(elems[1..])));
      ReadElems(WithTop(info, ListValue(t, done')), t, done', elems[1..]);
      OneMoreNormal(done, elems);
    }
  }

  lemma HalfStarts(info: ParseInfo, isCar: bool, other: Option<Value>, v: Value)
    requires AtOuter(info) && Opens(v)
    requires info.values[0].value == if isCar then PairValue(None, other) else PairValue(other, None)
    ensures var owner := if isCar then PairValue(Some(Opened(v)), other) else PairValue(other, Some(Opened(v)));
            Step(info, Start(if isCar then "car" else "cdr", ValueAttrs(v))) ==
            Going(Under(info, if isCar then InCar else InCdr, if isCar then CarSlot else CdrSlot, Opened(v), owner))
  {
    OwnAttrsParse(v);
    HalfElement(info, isCar, ValueAttrs(v));
  }

  lemma {:induction false} ReadCar(info: ParseInfo, cdr: Option<Value>, v: Value)
    requires AtOuter(info)
    requires info.values[0].value == PairValue(None, cdr) && WritableHalf(v)
    ensures Run(info, WriteValue("car", v)) == Going(WithTop(info, PairValue(Some(NormalHalf(v)), cdr)))
  {
    HalfStarts(info, true, cdr, v);
    CloseInner(info, InCar, CarSlot, v, PairValue(Some(Opened(v)), cdr), PairValue(Some(NormalHalf(v)), cdr),
               Start("car", ValueAttrs(v)), End("car"));
  }

  lemma {:induction false} ReadCdr(info: ParseInfo, car: Option<Value>, v: Value)
    requires AtOuter(info)
    requires info.values[0].value == PairValue(car, None) && WritableHalf(v)
    ensures Run(info, WriteValue("cdr", v)) == Going(WithTop(info, PairValue(car, Some(NormalHalf(v)))))
  {
    HalfStarts(info, false, car, v);
    CloseInner(info, InCdr, CdrSlot, v, PairValue(car, Some(Opened(v))), PairValue(car, Some(NormalHalf(v))),
               Start("cdr", ValueAttrs(v)), End("cdr"));
  }

  lemma {:induction false} ReadPair(info: ParseInfo, car: Option<Value>, cdr: Option<Value>)
    requires AtOuter(info) && info.values[0].value == PairValue(None, None)
    requires WritableValue(PairValue(car, cdr))
    ensures Run(info, ValueChildren(PairValue(car, cdr))) ==
            Going(WithTop(info, PairValue(NormalOption(car), NormalOption(cdr))))
  {
    var first := if car.Some? then WriteValue("car", car.value) else [];
    var second := if cdr.Some? then WriteValue("cdr", cdr.value) else [];
    RunAppend(info, first, second);
    assert [info.values[0]] + info.values[1..] == info.values;
    if car.Some? {
      ReadCar(info, None, car.value);
    }
    var next := WithTop(info, PairValue(NormalOption(car), None));
    assert Run(info, first) == Going(next);
    assert [next.values[0]] + next.values[1..] == next.values;
    assert next.values[1..] == info.values[1..];
    if cdr.Some? {
      ReadCdr(next, NormalOption(car), cdr.value);
    }
  }

  lemma {:induction false} ReadValue(info: ParseInfo, v: Value)
    requires AtOuter(info)
    requires WritableValue(v) && info.values[0].value == Opened(v)
    ensures Run(info, ValueChildren(v)) == Going(WithTop(info, NormalValue(v)))
  {
    match v
    case ListValue(t, elems) =>
      ReadElems(info, t, [], elems);
      assert [] + NormalPrimitives(elems) == NormalPrimitives(elems);
    case PairValue(car, cdr) => ReadPair(info, car, cdr);
    case SchemaValue(sc) => TopTwice(info, Opened(v), Opened(v));
    case _ => ReadPrimitive(info, v);
  }

  // ----- local schemas -----

  /** The parser is inside an entry that holds a schema, with some local schemas read already. */
  predicate AtSchemaEntry(info: ParseInfo) {
    && AtValue(info) && info.states[0] == InEntry
    && info.currentEntry.value.value.value.SchemaValue?
  }

  predicate AtLocalSchema(info: ParseInfo) {
    info.states != [] && info.states[0] == InLocalSchema && info.localSchemas != []
  }

  function WithFirst(info: ParseInfo, ls: LocalSchema): ParseInfo
    requires info.localSchemas != []
  {
    info.(localSchemas := [ls] + info.localSchemas[1..])
  }

  /** The state inside a default element whose value was given by its start tag. */
  function InsideDefault(info: ParseInfo, v: Value): ParseInfo
    requires info.localSchemas != []
  {
    WithFirst(Push(info, InDefault), info.localSchemas[0].(defaultValue := Some(v)))
      .(values := [Item(v, DefaultSlot)] + info.values)
  }

  lemma DefaultStarts(info: ParseInfo, v: Value)
    requires AtLocalSchema(info) && info.localSchemas[0].defaultValue == None && Opens(v)
    ensures Step(info, Start("default", ValueAttrs(v))) == Going(InsideDefault(info, Opened(v)))
  {
    OwnAttrsParse(v);
    assert StartLocalSchemaChild(info, "default", ValueAttrs(v)) == Going(InsideDefault(info, Opened(v)));
  }

  lemma DefaultEnds(info: ParseInfo, v0: Value, v: Value)
    requires AtLocalSchema(info)
    ensures Step(WithTop(InsideDefault(info, v0), v), End("default")) ==
            Going(WithFirst(info, info.localSchemas[0].(defaultValue := Some(v))))
  {
    var filled := WithTop(InsideDefault(info, v0), v);
    assert filled.values[1..] == info.values;
    assert filled.localSchemas[1..] == info.localSchemas[1..];
    assert filled.states[1..] == info.states;
  }

  lemma {:induction false} ReadDefault(info: ParseInfo, v: Value)
    requires AtLocalSchema(info) && info.localSchemas[0].defaultValue == None && WritableValue(v)
    ensures Run(info, WriteValue("default", v)) ==
            Going(WithFirst(info, info.localSchemas[0].(defaultValue := Some(NormalValue(v)))))
  {
    DefaultStarts(info, v);
    var inner := InsideDefault(info, Opened(v));
    ReadValue(inner, v);
    RunElement(info, Start("default", ValueAttrs(v)), ValueChildren(v), End("default"), inner,
               WithTop(inner, NormalValue(v)));
    DefaultEnds(info, Opened(v), NormalValue(v));
  }

  lemma {:induction false} ReadLongDesc(info: ParseInfo, desc: string)
    requires AtLocalSchema(info) && info.localSchemas[0].longDesc == None
    ensures Run(info, [Start("longdesc", map[])] + TextEvent(desc) + [End("longdesc")]) ==
            Going(WithFirst(info, info.localSchemas[0].(longDesc := NormalLongDesc(Some(desc)))))
  {
    var start := Start("longdesc", map[]);
    var inner := Push(info, InLongDesc);
    assert Step(info, start) == Going(inner);
    assert [info.localSchemas[0]] + info.localSchemas[1..] == info.localSchemas;
    var filled := WithFirst(inner, info.localSchemas[0].(longDesc := NormalLongDesc(Some(desc))));
    if desc == "" {
      assert Run(inner, TextEvent(desc)) == Going(filled);
    } else {
      RunOne(inner, Text(desc));
    }
    RunElement(info, start, TextEvent(desc), End("longdesc"), inner, filled);
    assert filled.states[1..] == info.states;
  }

  lemma LocalSchemaStarts(info: ParseInfo, ls: LocalSchema, subtree: bool)
    requires AtSchemaEntry(info)
    ensures Step(info, Start("local_schema", LocalSchemaAttrs(ls, subtree))) ==
            Going(Push(info, InLocalSchema).(localSchemas := [Bare(ls, subtree)] + info.localSchemas))
  {
    var attrs := LocalSchemaAttrs(ls, subtree);
    assert attrs["locale"] == ls.locale;
    assert Attr(attrs, "short_desc") == Bare(ls, subtree).shortDesc;
    assert Step(info, Start("local_schema", attrs)) == StartLocalSchema(info, attrs);
  }

  /** The local schema as its start tag gives it. */
  function Bare(ls: LocalSchema, subtree: bool): LocalSchema {
    LocalSchema(ls.locale, if WritesDescs(ls, subtree) then ls.shortDesc else None, None, None)
  }

  lemma {:induction false} ReadSchemaParts(info: ParseInfo, ls: LocalSchema, subtree: bool)
    requires AtLocalSchema(info) && WritableDefault(ls)
    requires info.localSchemas[0] == Bare(ls, subtree)
    ensures Run(info, DefaultEvents(ls) + DescEvents(ls, subtree)) ==
            Going(WithFirst(info, NormalLocalSchema(ls, subtree)))
  {
    var ls0 := info.localSchemas[0];
    var ls1 := ls0.(defaultValue := NormalLocalSchema(ls, subtree).defaultValue);
    RunAppend(info, DefaultEvents(ls), DescEvents(ls, subtree));
    assert [ls0] + info.localSchemas[1..] == info.localSchemas;
    if ls.defaultValue.Some? {
      ReadDefault(info, ls.defaultValue.value);
    }
    var middle := WithFirst(info, ls1);
    assert Run(info, DefaultEvents(ls)) == Going(middle);
    assert middle.localSchemas[1..] == info.localSchemas[1..];
    if DescEvents(ls, subtree) != [] {
      ReadLongDesc(middle, ls.longDesc.value);
    }
  }

  lemma {:induction false} ReadLocalSchema(info: ParseInfo, ls: LocalSchema, subtree: bool)
    requires AtSchemaEntry(info) && WritableDefault(ls)
    requires WritesDescs(ls, subtree) || ls.defaultValue.Some?
    ensures Run(info, WriteLocalSchema(ls, subtree)) ==
            Going(info.(localSchemas := [NormalLocalSchema(ls, subtree)] + info.localSchemas))
  {
    var start := Start("local_schema", LocalSchemaAttrs(ls, subtree));
    var parts := DefaultEvents(ls) + DescEvents(ls, subtree);
    LocalSchemaStarts(info, ls, subtree);
    var inner := Push(info, InLocalSchema).(localSchemas := [Bare(ls, subtree)] + info.localSchemas);
    ReadSchemaParts(inner, ls, subtree);
    assert inner.localSchemas[1..] == info.localSchemas;
    var filled := WithFirst(inner, NormalLocalSchema(ls, subtree));
    RunElement(info, start, parts, End("local_schema"), inner, filled);
    assert filled.states[1..] == info.states;
  }

  /** The elements of xs prepended one after the other. */
  function Onto<T>(acc: seq<T>, xs: seq<T>): seq<T>
    decreases |xs|
  {
    if xs == [] then acc else Onto([xs[0]] + acc, xs[1..])
  }

  lemma {:induction false} ReverseSnoc<T>(a: seq<T>, x: T)
    ensures Reverse(a + [x]) == [x] + Reverse(a)
  {
    if a == [] {
      assert a + [x] == [x] && [x][1..] == [];
    } else {
      assert (a + [x])[1..] == a[1..] + [x];
      ReverseSnoc(a[1..], x);
    }
  }

  lemma {:induction false} ReverseCons<T>(acc: seq<T>, x: T)
    ensures Reverse([x] + acc) == Reverse(acc) + [x]
  {
    assert ([x] + acc)[1..] == acc;
  }

  /** The reversal when an element ends restores the order in which its parts were read. */
  lemma {:induction false} ReversalRestores<T>(acc: seq<T>, xs: seq<T>)
    ensures Reverse(Onto(acc, xs)) == Reverse(acc) + xs
    decreases |xs|
  {
    if xs == [] {
      assert Reverse(acc) + xs == Reverse(acc);
    } else {
      ReversalRestores([xs[0]] + acc, xs[1..]);
      ReverseCons(acc, xs[0]);
      assert Reverse(acc) + [xs[0]] + xs[1..] == Reverse(acc) + xs;
    }
  }

  lemma {:induction false} ReadLocalSchemas(info: ParseInfo, lss: seq<LocalSchema>, subtree: bool)
    requires AtSchemaEntry(info)
    requires AllWritable(lss)
    ensures Run(info, WriteLocalSchemas(lss, subtree)) ==
            Going(info.(localSchemas := Onto(info.localSchemas, NormalLocalSchemas(lss, subtree))))
    decreases |lss|
  {
    if lss != [] {
      var ls := lss[0];
      var rest := NormalLocalSchemas(lss[1..], subtree);
      RunAppend(info, WriteLocalSchema(ls, subtree), WriteLocalSchemas(lss[1..], subtree));
      if WritesDescs(ls, subtree) || ls.defaultValue.Some? {
        var first := NormalLocalSchema(ls, subtree);
        ReadLocalSchema(info, ls, subtree);
        ReadLocalSchemas(info.(localSchemas := [first] + info.localSchemas), lss[1..], subtree);
        assert ([first] + rest)[1..] == rest;
      } else {
        assert [] + rest == rest;
        ReadLocalSchemas(info, lss[1..], subtree);
      }
    }
  }

  // ----- entries and directories -----

  /** The parser is directly inside a directory. */
  predicate AtDir(info: ParseInfo) {
    && info.states != [] && info.states[0] in {InGconf, InDir} && info.dirStack != []
    && info.currentEntry == None && info.values == [] && info.localSchemas == []
  }

  function WithDir(info: ParseInfo, d: DirTree): ParseInfo
    requires info.dirStack != []
  {
    info.(dirStack := [d] + info.dirStack[1..])
  }

  function OpenedEntry(e: FileEntry): FileEntry {
    e.(value := if e.value.Some? then Some(Opened(e.value.value)) else None, localSchemas := [])
  }

  lemma EntryHeadRead(e: FileEntry)
    ensures var head := EntryHead(e);
            && "name" in head && head["name"] == e.name && "mtime" in head && head["mtime"] == TimeText(e.modTime)
            && Attr(head, "schema") == e.schemaName && Attr(head, "muser") == e.modUser
            && head.Keys <= {"name", "mtime", "schema", "muser"}
  {
  }

  lemma EntryAttrsRead(e: FileEntry)
    ensures var attrs := EntryAttrs(e);
            && "name" in attrs && attrs["name"] == e.name && "mtime" in attrs && attrs["mtime"] == TimeText(e.modTime)
            && Attr(attrs, "schema") == e.schemaName && Attr(attrs, "muser") == e.modUser
            && attrs.Keys <= ValueAttrNames
            && (if e.value.Some? then Present(ValueAttrs(e.value.value), attrs) else "type" !in attrs)
  {
    EntryHeadRead(e);
    var head, attrs := EntryHead(e), EntryAttrs(e);
    if e.value.Some? {
      OwnKeys(e.value.value);
      Apart(head, ValueAttrs(e.value.value), attrs);
    } else {
      assert attrs == head;
    }
  }

  lemma Apart(head: Attrs, own: Attrs, attrs: Attrs)
    requires attrs == head + own
    requires head.Keys <= {"name", "mtime", "schema", "muser"}
    requires own.Keys <= {"value", "type", "stype", "ltype", "list_type", "car_type", "cdr_type", "owner"}
    ensures forall k :: k in head ==> k in attrs && attrs[k] == head[k]
    ensures forall k {:trigger Attr(attrs, k)} :: k in {"name", "mtime", "schema", "muser"} ==>
              Attr(attrs, k) == Attr(head, k)
    ensures Present(own, attrs)
  {
    forall k ensures k in own <==> k in own.Keys {}
    forall k ensures k in head <==> k in head.Keys {}
  }

  lemma OwnKeys(v: Value)
    ensures ValueAttrs(v).Keys <=
            {"value", "type", "stype", "ltype", "list_type", "car_type", "cdr_type", "owner"}
  {
    if v.SchemaValue? {
      PartTypes(v.schema);
    }
  }

  lemma EntryStarts(info: ParseInfo, e: FileEntry)
    requires AtDir(info) && (e.value.Some? ==> Opens(e.value.value))
    ensures Step(info, Start("entry", EntryAttrs(e))) ==
            Going(Push(info, InEntry).(
              currentEntry := Some(OpenedEntry(e)),
              values := if e.value.Some? then [Item(Opened(e.value.value), EntrySlot)] else []))
  {
    var attrs := EntryAttrs(e);
    EntryAttrsRead(e);
    TimeComesBack(e.modTime);
    EntryValueParses(e);
    EntryElement(info, attrs);
    var items := if e.value.Some? then [Item(Opened(e.value.value), EntrySlot)] else [];
    assert items + info.values == items;
  }

  lemma EntryElement(info: ParseInfo, attrs: Attrs)
    requires AtDir(info)
    ensures Step(info, Start("entry", attrs)) == StartEntry(info, attrs)
  {
  }

  lemma EntryValueParses(e: FileEntry)
    ensures ParseValue(EntryAttrs(e)) ==
            if e.value == None then NoType
            else if Opens(e.value.value) then Parsed(Opened(e.value.value)) else BadValue
  {
    EntryAttrsRead(e);
    if e.value.Some? {
      ValueAttrsParse(e.value.value, EntryAttrs(e));
    }
  }

  lemma ReadEntryChildren(inner: ParseInfo, e: FileEntry, subtree: bool) returns (filled: ParseInfo)
    requires WritableEntry(e) && inner.states != [] && inner.states[0] == InEntry
    requires inner.currentEntry == Some(OpenedEntry(e)) && inner.localSchemas == []
    requires inner.values == if e.value.Some? then [Item(Opened(e.value.value), EntrySlot)] else []
    ensures Run(inner, EntryChildren(e, subtree)) == Going(filled)
    ensures filled == inner.(values := filled.values, localSchemas := filled.localSchemas)
    ensures Reverse(filled.localSchemas) == NormalEntry(e, subtree).localSchemas
    ensures filled.values == match NormalEntry(e, subtree).value
                             case None => []
                             case Some(v) => [Item(v, EntrySlot)]
  {
    filled := inner;
    if e.value.Some? {
      var v := e.value.value;
      assert inner.values[1..] == [];
      if v.SchemaValue? {
        ReadLocalSchemas(inner, e.localSchemas, subtree);
        var kept := NormalLocalSchemas(e.localSchemas, subtree);
        filled := inner.(localSchemas := Onto([], kept));
        ReversalRestores([], kept);
        assert [] + kept == kept;
      } else {
        ReadValue(inner, v);
        filled := WithTop(inner, NormalValue(v));
      }
    }
  }

  lemma {:induction false} ReadEntry(info: ParseInfo, e: FileEntry, subtree: bool)
    requires AtDir(info) && WritableEntry(e)
    ensures var d := info.dirStack[0];
            Run(info, WriteEntry(e, subtree)) ==
            Going(WithDir(info, d.(entries := [NormalEntry(e, subtree)] + d.entries)))
  {
    EntryStarts(info, e);
    var start := Start("entry", EntryAttrs(e));
    var inner := Step(info, start).info;
    var filled := ReadEntryChildren(inner, e, subtree);
    RunElement(info, start, EntryChildren(e, subtree), End("entry"), inner, filled);
    EntryEnds(info, e, subtree, filled);
  }

  lemma EntryEnds(info: ParseInfo, e: FileEntry, subtree: bool, filled: ParseInfo)
    requires AtDir(info)
    requires filled == Push(info, InEntry).(currentEntry := Some(OpenedEntry(e)), values := filled.values,
                                            localSchemas := filled.localSchemas)
    requires Reverse(filled.localSchemas) == NormalEntry(e, subtree).localSchemas
    requires filled.values == match NormalEntry(e, subtree).value
                              case None => []
                              case Some(v) => [Item(v, EntrySlot)]
    ensures var d := info.dirStack[0];
            Step(filled, End("entry")) == Going(WithDir(info, d.(entries := [NormalEntry(e, subtree)] + d.entries)))
  {
    assert filled.states[1..] == info.states;
    if filled.values != [] {
      assert filled.values[1..] == [];
    }
    assert Step(filled, End("entry")) == EndEntry(filled);
  }

  lemma {:induction false} ReadEntries(info: ParseInfo, es: seq<FileEntry>, subtree: bool)
    requires AtDir(info) && forall e :: e in es ==> WritableEntry(e)
    ensures var d := info.dirStack[0];
            Run(info, WriteEntries(es, subtree)) ==
            Going(WithDir(info, d.(entries := Onto(d.entries, NormalEntries(es, subtree)))))
    decreases |es|
  {
    var d := info.dirStack[0];
    if es == [] {
      assert [d] + info.dirStack[1..] == info.dirStack;
    } else {
      var first, rest := NormalEntry(es[0], subtree), NormalEntries(es[1..], subtree);
      ReadEntry(info, es[0], subtree);
      RunAppend(info, WriteEntry(es[0], subtree), WriteEntries(es[1..], subtree));
      var next := WithDir(info, d.(entries := [first] + d.entries));
      ReadEntries(next, es[1..], subtree);
      assert ([first] + rest)[1..] == rest;
      assert next.dirStack[1..] == info.dirStack[1..];
    }
  }

  /** Everything between the tags of a directory that starts out empty. */
  lemma {:induction false} ReadDirBody(inner: ParseInfo, d: DirTree, withSubdirs: bool, subtree: bool)
    requires AtDir(inner) && inner.dirStack[0] == DirTree(d.name, [], [])
    requires WritableDir(d) && (withSubdirs ==> inner.allowSubdirs)
    ensures Run(inner, WriteEntries(d.entries, subtree) + if withSubdirs then WriteDirs(d.subdirs, subtree) else []) ==
            Going(WithDir(inner, DirTree(d.name, Onto([], NormalEntries(d.entries, subtree)),
                                         if withSubdirs then Onto([], NormalDirs(d.subdirs, subtree)) else [])))
    decreases d, 1
  {
    var es := WriteEntries(d.entries, subtree);
    var ds := if withSubdirs then WriteDirs(d.subdirs, subtree) else [];
    ReadEntries(inner, d.entries, subtree);
    var middle := WithDir(inner, DirTree(d.name, Onto([], NormalEntries(d.entries, subtree)), []));
    RunAppend(inner, es, ds);
    assert middle.dirStack[1..] == inner.dirStack[1..];
    if withSubdirs {
      ReadDirs(middle, d.subdirs, subtree);
    }
  }

  lemma {:induction false} ReadDir(info: ParseInfo, d: DirTree, subtree: bool)
    requires AtDir(info) && info.allowSubdirs && WritableDir(d)
    ensures var top := info.dirStack[0];
            Run(info, WriteDir(d, subtree)) ==
            Going(WithDir(info, top.(subdirs := [NormalDir(d, subtree)] + top.subdirs)))
    decreases d, 2
  {
    var start := Start("dir", map["name" := d.name]);
    var inner := Push(info, InDir).(dirStack := [DirTree(d.name, [], [])] + info.dirStack);
    assert Step(info, start) == Going(inner);
    ReadDirBody(inner, d, true, subtree);
    assert inner.dirStack[1..] == info.dirStack;
    var read := DirTree(d.name, Onto([], NormalEntries(d.entries, subtree)), Onto([], NormalDirs(d.subdirs, subtree)));
    RunElement(info, start, WriteEntries(d.entries, subtree) + WriteDirs(d.subdirs, subtree), End("dir"),
               inner, WithDir(inner, read));
    BothRestored(d, subtree);
    DirEnds(info, NormalDir(d, subtree), read, End("dir"));
  }

  lemma {:induction false} BothRestored(d: DirTree, subtree: bool)
    ensures Reverse(Onto([], NormalEntries(d.entries, subtree))) == NormalEntries(d.entries, subtree)
    ensures Reverse(Onto([], NormalDirs(d.subdirs, subtree))) == NormalDirs(d.subdirs, subtree)
  {
    ReversalRestores([], NormalEntries(d.entries, subtree));
    ReversalRestores([], NormalDirs(d.subdirs, subtree));
    assert [] + NormalEntries(d.entries, subtree) == NormalEntries(d.entries, subtree);
    assert [] + NormalDirs(d.subdirs, subtree) == NormalDirs(d.subdirs, subtree);
  }

  lemma DirEnds(info: ParseInfo, done: DirTree, read: DirTree, end: Event)
    requires AtDir(info) && end.End?
    requires done == DirTree(read.name, Reverse(read.entries), Reverse(read.subdirs))
    ensures var top := info.dirStack[0];
            Step(Push(info, InDir).(dirStack := [read] + info.dirStack), end) ==
            Going(WithDir(info, top.(subdirs := [done] + top.subdirs)))
  {
    var filled := Push(info, InDir).(dirStack := [read] + info.dirStack);
    assert filled.states[1..] == info.states && filled.dirStack[1..] == info.dirStack;
    assert Step(filled, end) == EndDir(filled);
  }

  lemma {:induction false} ReadDirs(info: ParseInfo, ds: seq<DirTree>, subtree: bool)
    requires AtDir(info) && info.allowSubdirs && forall d :: d in ds ==> WritableDir(d)
    ensures var top := info.dirStack[0];
            Run(info, WriteDirs(ds, subtree)) ==
            Going(WithDir(info, top.(subdirs := Onto(top.subdirs, NormalDirs(ds, subtree)))))
    decreases ds, 0
  {
    var top := info.dirStack[0];
    if ds == [] {
      assert [top] + info.dirStack[1..] == info.dirStack;
    } else {
      var first, rest := NormalDir(ds[0], subtree), NormalDirs(ds[1..], subtree);
      ReadDir(info, ds[0], subtree);
      RunAppend(info, WriteDir(ds[0], subtree), WriteDirs(ds[1..], subtree));
      var next := WithDir(info, top.(subdirs := [first] + top.subdirs));
      ReadDirs(next, ds[1..], subtree);
      assert ([first] + rest)[1..] == rest;
      assert next.dirStack[1..] == info.dirStack[1..];
    }
  }

  // ----- the file as a whole -----

  /** What a saved directory reads back as: without its subdirectories when they have files of their own. */
  function Kept(root: DirTree, subtree: bool): DirTree {
    DirTree(root.name, NormalEntries(root.entries, subtree), if subtree then NormalDirs(root.subdirs, subtree) else [])
  }

  lemma FileEnds(info: ParseInfo, read: DirTree)
    requires info.states == [InGconf, InStart] && info.dirStack == [read]
    ensures Step(info, End("gconf")) ==
            Going(info.(states := [InStart], dirStack := [],
                        root := Some(DirTree(read.name, Reverse(read.entries), Reverse(read.subdirs)))))
  {
    assert info.states[1..] == [InStart] && info.dirStack[1..] == [];
    assert Step(info, End("gconf")) == EndDir(info);
  }

  lemma {:induction false} ReadFile(root: DirTree, subtree: bool)
    requires WritableDir(root) && !(root.entries == [] && (!subtree || root.subdirs == []))
    ensures var outcome := Run(Init(root.name, subtree), WriteFile(root, subtree));
            outcome.Going? && outcome.info.root == Some(Kept(root, subtree))
  {
    var info := Init(root.name, subtree);
    var start := Start("gconf", map[]);
    var inner := Push(info, InGconf);
    assert Step(info, start) == Going(inner);
    ReadDirBody(inner, root, subtree, subtree);
    var body := WriteEntries(root.entries, subtree) + if subtree then WriteDirs(root.subdirs, subtree) else [];
    var read := DirTree(root.name, Onto([], NormalEntries(root.entries, subtree)),
                        if subtree then Onto([], NormalDirs(root.subdirs, subtree)) else []);
    RunElement(info, start, body, End("gconf"), inner, WithDir(inner, read));
    FileEnds(WithDir(inner, read), read);
    BothRestored(root, subtree);
  }

  /** Parsing what was written gives, in the same order, exactly what the file form keeps. */
  lemma {:induction false} LoadSaved(root: DirTree, subtree: bool)
    requires WritableDir(root)
    ensures Load(root.name, WriteFile(root, subtree), subtree) == Some(Kept(root, subtree))
  {
    if root.entries == [] && (!subtree || root.subdirs == []) {
      assert WriteFile(root, subtree) == [];
    } else {
      ReadFile(root, subtree);
    }
  }

  // ----- which trees come back unchanged -----

  predicate CanonicalPrimitive(v: Value) {
    v.StringValue? ==> v.s == "" || !AllWhitespace(v.s)
  }

  predicate CanonicalHalf(v: Value) {
    if v.SchemaValue? then CanonicalSchema(v.schema) else CanonicalPrimitive(v)
  }

  predicate CanonicalValue(v: Value) {
    match v
    case ListValue(_, elems) => forall i :: 0 <= i < |elems| ==> CanonicalPrimitive(elems[i])
    case PairValue(car, cdr) => (car.Some? ==> CanonicalHalf(car.value)) && (cdr.Some? ==> CanonicalHalf(cdr.value))
    case _ => CanonicalHalf(v)
  }

  predicate CanonicalSchema(sc: Schema) {
    && (sc.kind != ListType ==> sc.listType == InvalidType)
    && (sc.kind != PairType ==> sc.carType == InvalidType && sc.cdrType == InvalidType)
    && sc.locale == None && sc.shortDesc == None && sc.longDesc == None && sc.defaultValue == None
  }

  predicate CanonicalLocalSchema(ls: LocalSchema, subtree: bool) {
    && (WritesDescs(ls, subtree) || (ls.shortDesc == None && ls.longDesc == None && ls.defaultValue.Some?))
    && (ls.longDesc.Some? ==> !AllWhitespace(ls.longDesc.value))
    && (ls.defaultValue.Some? ==> CanonicalValue(ls.defaultValue.value))
  }

  predicate CanonicalEntry(e: FileEntry, subtree: bool) {
    match e.value
    case None => e.localSchemas == []
    case Some(v) =>
      CanonicalValue(v) && if v.SchemaValue? then AllCanonical(e.localSchemas, subtree) else e.localSchemas == []
  }

  predicate CanonicalDir(d: DirTree, subtree: bool) {
    && (forall i :: 0 <= i < |d.entries| ==> CanonicalEntry(d.entries[i], subtree))
    && forall i :: 0 <= i < |d.subdirs| ==> CanonicalDir(d.subdirs[i], subtree)
  }

  lemma {:induction false} PrimitivesUnchanged(vs: seq<Value>)
    ensures NormalPrimitives(vs) == vs <==> forall i :: 0 <= i < |vs| ==> CanonicalPrimitive(vs[i])
    decreases |vs|
  {
    if vs != [] {
      PrimitivesUnchanged(vs[1..]);
      assert vs == [vs[0]] + vs[1..];
      assert NormalPrimitives(vs)[0] == NormalPrimitive(vs[0]);
      assert NormalPrimitives(vs)[1..] == NormalPrimitives(vs[1..]);
      assert forall i :: 1 <= i < |vs| ==> vs[i] == vs[1..][i - 1];
    }
  }

  lemma ValueUnchanged(v: Value)
    requires WritableValue(v)
    ensures NormalValue(v) == v <==> CanonicalValue(v)
  {
    if v.ListValue? {
      PrimitivesUnchanged(v.elems);
    }
  }

  lemma {:induction false} LocalSchemaUnchanged(ls: LocalSchema, subtree: bool)
    requires WritableDefault(ls)
    ensures NormalLocalSchemas([ls], subtree) == [ls] <==> CanonicalLocalSchema(ls, subtree)
  {
    assert [ls][1..] == [];
    if ls.defaultValue.Some? {
      ValueUnchanged(ls.defaultValue.value);
    }
    if WritesDescs(ls, subtree) || ls.defaultValue.Some? {
      assert NormalLocalSchemas([ls], subtree) == [NormalLocalSchema(ls, subtree)];
    } else {
      assert NormalLocalSchemas([ls], subtree) == [];
    }
  }

  lemma {:induction false} LocalSchemasShrink(lss: seq<LocalSchema>, subtree: bool)
    ensures |NormalLocalSchemas(lss, subtree)| <= |lss|
    decreases |lss|
  {
    if lss != [] {
      LocalSchemasShrink(lss[1..], subtree);
    }
  }

  lemma AtMostOneFirst<T>(first: seq<T>, rest: seq<T>, s: seq<T>)
    requires s != [] && |first| <= 1 && |rest| < |s|
    ensures first + rest == s <==> first == [s[0]] && rest == s[1..]
  {
    assert [s[0]] + s[1..] == s;
    if first + rest == s {
      assert first[0] == s[0] && rest == (first + rest)[1..];
    }
  }

  predicate AllCanonical(lss: seq<LocalSchema>, subtree: bool) {
    forall i :: 0 <= i < |lss| ==> CanonicalLocalSchema(lss[i], subtree)
  }

  lemma AllCanonicalSplits(lss: seq<LocalSchema>, subtree: bool)
    requires lss != []
    ensures AllCanonical(lss, subtree) <==> CanonicalLocalSchema(lss[0], subtree) && AllCanonical(lss[1..], subtree)
  {
    assert forall i :: 1 <= i < |lss| ==> lss[i] == lss[1..][i - 1];
  }

  lemma {:induction false} LocalSchemasUnchanged(lss: seq<LocalSchema>, subtree: bool)
    requires AllWritable(lss)
    ensures NormalLocalSchemas(lss, subtree) == lss <==> AllCanonical(lss, subtree)
    decreases |lss|
  {
    if lss != [] {
      var first, rest := NormalLocalSchemas([lss[0]], subtree), NormalLocalSchemas(lss[1..], subtree);
      LocalSchemaUnchanged(lss[0], subtree);
      LocalSchemasUnchanged(lss[1..], subtree);
      LocalSchemasShrink(lss[1..], subtree);
      assert [lss[0]][1..] == [];
      assert NormalLocalSchemas(lss, subtree) == first + rest;
      AtMostOneFirst(first, rest, lss);
      AllCanonicalSplits(lss, subtree);
    }
  }

  lemma EntryUnchanged(e: FileEntry, subtree: bool)
    requires WritableEntry(e)
    ensures NormalEntry(e, subtree) == e <==> CanonicalEntry(e, subtree)
  {
    if e.value.Some? {
      if e.value.value.SchemaValue? {
        LocalSchemasUnchanged(e.localSchemas, subtree);
      } else {
        ValueUnchanged(e.value.value);
      }
    }
  }

  lemma {:induction false} EntriesUnchanged(es: seq<FileEntry>, subtree: bool)
    requires forall e :: e in es ==> WritableEntry(e)
    ensures NormalEntries(es, subtree) == es <==> forall i :: 0 <= i < |es| ==> CanonicalEntry(es[i], subtree)
    decreases |es|
  {
    if es != [] {
      EntryUnchanged(es[0], subtree);
      EntriesUnchanged(es[1..], subtree);
      assert es == [es[0]] + es[1..];
      assert NormalEntries(es, subtree)[1..] == NormalEntries(es[1..], subtree);
      assert forall i :: 1 <= i < |es| ==> es[i] == es[1..][i - 1];
    }
  }

  lemma {:induction false} DirUnchanged(d: DirTree, subtree: bool)
    requires WritableDir(d)
    ensures NormalDir(d, subtree) == d <==> CanonicalDir(d, subtree)
    decreases d, 1
  {
    EntriesUnchanged(d.entries, subtree);
    DirsUnchanged(d.subdirs, subtree);
  }

  lemma {:induction false} DirsUnchanged(ds: seq<DirTree>, subtree: bool)
    requires forall d :: d in ds ==> WritableDir(d)
    ensures NormalDirs(ds, subtree) == ds <==> forall i :: 0 <= i < |ds| ==> CanonicalDir(ds[i], subtree)
    decreases ds, 0
  {
    if ds != [] {
      DirUnchanged(ds[0], subtree);
      DirsUnchanged(ds[1..], subtree);
      assert ds == [ds[0]] + ds[1..];
      assert NormalDirs(ds, subtree)[1..] == NormalDirs(ds[1..], subtree);
      assert forall i :: 1 <= i < |ds| ==> ds[i] == ds[1..][i - 1];
    }
  }

  /** Among the trees that can be written, saving a whole subtree and parsing it again keeps just the canonical ones. */
  lemma {:induction false} WritableSubtreeComesBackExactlyWhen(root: DirTree)
    requires WritableDir(root)
    ensures Load(root.name, WriteFile(root, true), true) == Some(root) <==> CanonicalDir(root, true)
  {
    LoadSaved(root, true);
    DirUnchanged(root, true);
    assert Kept(root, true) == NormalDir(root, true);
  }

  /** The same for a directory with a file of its own, which holds its entries only. */
  lemma {:induction false} WritableDirComesBackExactlyWhen(root: DirTree)
    requires WritableDir(root)
    ensures Load(root.name, WriteFile(root, false), false) == Some(root.(subdirs := []))
            <==> forall i :: 0 <= i < |root.entries| ==> CanonicalEntry(root.entries[i], false)
  {
    LoadSaved(root, false);
    EntriesUnchanged(root.entries, false);
  }
}
