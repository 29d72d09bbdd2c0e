/**
 * What a data file can turn into, whoever wrote it: everything the parser builds can be written again
 * and is canonical. With it the round trip is characterised for every tree, writable or not.
 */
module MarkupParsed {
  import opened Options
  import opened Values
  import opened MarkupFiles
  import opened MarkupRoundTrip
  import opened MarkupDiscipline

  // ----- what is kept -----

  predicate KeptElem(v: Value) {
    WritablePrimitive(v) && CanonicalPrimitive(v)
  }

  predicate KeptHalf(v: Value) {
    WritableHalf(v) && CanonicalHalf(v)
  }

  predicate KeptValue(v: Value) {
    WritableValue(v) && CanonicalValue(v)
  }

  predicate KeptLocal(ls: LocalSchema) {
    && (ls.longDesc.Some? ==> !AllWhitespace(ls.longDesc.value))
    && (ls.defaultValue.Some? ==> KeptValue(ls.defaultValue.value))
  }

  predicate KeptEntry(e: FileEntry) {
    WritableEntry(e) && CanonicalEntry(e, false)
  }

  predicate KeptDir(d: DirTree) {
    WritableDir(d) && CanonicalDir(d, false)
  }

  /** An item of the value stack holds what its place allows, finished or not. */
  predicate KeptItem(item: Item) {
    match item.slot
    case EntrySlot => KeptValue(item.value)
    case DefaultSlot => KeptValue(item.value)
    case LiSlot => KeptElem(item.value)
    case _ => KeptHalf(item.value)
  }

  lemma {:induction false} ParsedIsKept(attrs: Attrs)
    ensures ParseValue(attrs).Parsed? ==> KeptHalf(ParseValue(attrs).value)
  {
  }

  lemma HalfIsKept(v: Value)
    requires KeptHalf(v)
    ensures KeptValue(v)
  {
  }

  lemma ElemIsKept(v: Value, t: ValueType)
    requires KeptHalf(v) && TypeOf(v) == t && PlainType(t)
    ensures KeptElem(v)
  {
  }

  // ----- the value stack -----

  /** The owners of the stacked values are among those the open elements call for, in that order. */
  predicate Within(values: seq<Item>, slots: seq<Slot>)
    decreases |slots|
  {
    values == [] ||
    (slots != [] && if values[0].slot == slots[0] then Within(values[1..], slots[1..]) else Within(values, slots[1..]))
  }

  lemma {:induction false} TopIsWithin(values: seq<Item>, slots: seq<Slot>)
    requires Within(values, slots) && values != []
    ensures values[0].slot in slots && |values| <= |slots|
    decreases |slots|
  {
    if values[0].slot == slots[0] {
      if values[1..] != [] {
        TopIsWithin(values[1..], slots[1..]);
      }
    } else {
      TopIsWithin(values, slots[1..]);
    }
  }

  lemma {:induction false} WithinWithoutTop(values: seq<Item>, slots: seq<Slot>)
    requires Within(values, slots) && values != []
    ensures Within(values[1..], slots)
    decreases |slots|
  {
    if values[0].slot == slots[0] {
      if values[1..] != [] && values[1].slot == slots[0] {
        WithinWithoutTop(values[1..], slots[1..]);
      }
    } else {
      WithinWithoutTop(values, slots[1..]);
      if values[1..] != [] && values[1].slot == slots[0] {
        WithinWithoutTop(values[1..], slots[1..]);
      }
    }
  }

  /** Closing an element: if its value was not on top, what is popped belonged further down. */
  lemma {:induction false} WithinPopped(values: seq<Item>, slot: Slot, slots: seq<Slot>)
    requires Within(values, [slot] + slots) && values != []
    ensures Within(values[1..], slots)
  {
    assert ([slot] + slots)[1..] == slots;
    if values[0].slot != slot {
      WithinWithoutTop(values, slots);
    }
  }

  lemma {:induction false} WithinPushed(values: seq<Item>, item: Item, slots: seq<Slot>)
    requires Within(values, slots)
    ensures Within([item] + values, [item.slot] + slots)
  {
    assert ([item] + values)[1..] == values && ([item.slot] + slots)[1..] == slots;
  }

  /** An element without a value of its own: there is more the stack could hold. */
  lemma {:induction false} WithinMore(values: seq<Item>, slot: Slot, slots: seq<Slot>)
    requires Within(values, slots) && (values != [] ==> values[0].slot != slot)
    ensures Within(values, [slot] + slots)
  {
    assert ([slot] + slots)[1..] == slots;
  }

  lemma {:induction false} WithinChanged(values: seq<Item>, v: Value, slots: seq<Slot>)
    requires Within(values, slots) && values != []
    ensures Within([values[0].(value := v)] + values[1..], slots)
    decreases |slots|
  {
    var values' := [values[0].(value := v)] + values[1..];
    assert values'[1..] == values[1..];
    if values[0].slot != slots[0] {
      WithinChanged(values, v, slots[1..]);
    }
  }

  // ----- what holds between any two events -----

  predicate HoldsSchema(entry: Option<FileEntry>) {
    entry.Some? && entry.value.value.Some? && entry.value.value.value.SchemaValue?
  }

  predicate StatesFit(info: ParseInfo) {
    && Grammatical(info.states)
    && Within(info.values, Owners(info.states, true))
    && (info.currentEntry.Some? <==> InEntry in info.states)
  }

  predicate ValuesFit(info: ParseInfo) {
    && (forall i :: 0 <= i < |info.values| ==> KeptItem(info.values[i]))
    && (forall i :: 0 <= i < |info.values| && info.values[i].slot == EntrySlot ==>
          && info.currentEntry.Some? && info.currentEntry.value.value.Some?
          && (info.values[i].value.SchemaValue? <==> HoldsSchema(info.currentEntry)))
    && (|info.values| > 1 && info.values[0].slot == LiSlot && info.values[1].value.ListValue? ==>
          TypeOf(info.values[0].value) == info.values[1].value.elemType)
  }

  predicate EntryFits(info: ParseInfo) {
    && (info.currentEntry.Some? ==> KeptEntry(info.currentEntry.value) && info.currentEntry.value.localSchemas == [])
    && (forall i :: 0 <= i < |info.localSchemas| ==> KeptLocal(info.localSchemas[i]))
    && (info.localSchemas != [] ==> HoldsSchema(info.currentEntry))
  }

  predicate TreesFit(info: ParseInfo) {
    && (forall i :: 0 <= i < |info.dirStack| ==> KeptDir(info.dirStack[i]))
    && (info.root.Some? ==> KeptDir(info.root.value))
  }

  predicate Fits(info: ParseInfo) {
    StatesFit(info) && ValuesFit(info) && EntryFits(info) && TreesFit(info)
  }

  /** Inside an entry but not inside an inner element, the value on top is an entry's or a default's. */
  lemma {:induction false} TopIsOuter(info: ParseInfo)
    requires StatesFit(info) && info.states[0] in {InEntry, InLocalSchema, InDefault, InLongDesc} && info.values != []
    ensures info.values[0].slot in {EntrySlot, DefaultSlot}
    ensures info.states[0] == InEntry || info.states[0] == InLocalSchema ==> info.values[0].slot == EntrySlot
  {
    OwnersAre(info.states);
    TopIsWithin(info.values, Owners(info.states, true));
  }

  lemma {:induction false} OwnersAre(states: seq<State>)
    requires Grammatical(states)
    ensures states[0] == InEntry || states[0] == InLocalSchema || states[0] == InLongDesc ==>
              Owners(states, true) == [EntrySlot]
    ensures states[0] == InDefault ==> Owners(states, true) == [DefaultSlot, EntrySlot]
    decreases |states|
  {
    if |states| > 1 {
      PopGrammatical(states);
      if states[0] == InEntry {
        EntryAlone(states);
      } else {
        OwnersAre(states[1..]);
      }
    }
  }

  lemma {:induction false} OutsideNothingIsStacked(info: ParseInfo)
    requires StatesFit(info) && info.states[0] in {InStart, InGconf, InDir}
    ensures info.values == [] && info.currentEntry == None
  {
    Outside(info.states);
  }

  // ----- starting an element -----

  lemma {:induction false} StartEntryFits(info: ParseInfo, attrs: Attrs)
    requires Fits(info) && info.states[0] in {InGconf, InDir} && StartEntry(info, attrs).Going?
    ensures Fits(StartEntry(info, attrs).info)
  {
    OutsideNothingIsStacked(info);
    PushGrammatical(info.states, InEntry);
    var next := StartEntry(info, attrs).info;
    var parsed := ParseValue(attrs);
    ParsedIsKept(attrs);
    EntryAlone(next.states);
    if parsed.Parsed? {
      HalfIsKept(parsed.value);
      WithinPushed(info.values, Item(parsed.value, EntrySlot), []);
    }
  }

  lemma {:induction false} StartDirFits(info: ParseInfo, attrs: Attrs)
    requires Fits(info) && info.states[0] in {InGconf, InDir} && StartDir(info, attrs).Going?
    ensures Fits(StartDir(info, attrs).info)
  {
    OutsideNothingIsStacked(info);
    PushGrammatical(info.states, InDir);
    var next := StartDir(info, attrs).info;
    assert KeptDir(next.dirStack[0]);
    assert next.states[1..] == info.states;
  }

  lemma {:induction false} StartLocalSchemaFits(info: ParseInfo, attrs: Attrs)
    requires Fits(info) && info.states[0] == InEntry && StartLocalSchema(info, attrs).Going?
    ensures Fits(StartLocalSchema(info, attrs).info)
  {
    PushGrammatical(info.states, InLocalSchema);
    assert [] + Owners(info.states, true) == Owners(info.states, true);
  }

  lemma {:induction false} StartDefaultFits(info: ParseInfo, v: Value)
    requires Fits(info) && info.states[0] == InLocalSchema && info.localSchemas != [] && KeptValue(v)
    ensures Fits(Push(info, InDefault).(
              localSchemas := [info.localSchemas[0].(defaultValue := Some(v))] + info.localSchemas[1..],
              values := [Item(v, DefaultSlot)] + info.values))
  {
    var owners := Owners(info.states, true);
    PushGrammatical(info.states, InDefault);
    WithinPushed(info.values, Item(v, DefaultSlot), owners);
    DefaultRefilled(info, v);
  }

  lemma {:induction false} BareDefaultFits(info: ParseInfo)
    requires Fits(info) && info.states[0] == InLocalSchema
    ensures Fits(Push(info, InDefault)) && Fits(Push(info, InLongDesc))
  {
    var owners := Owners(info.states, true);
    PushGrammatical(info.states, InDefault);
    PushGrammatical(info.states, InLongDesc);
    if info.values != [] {
      TopIsOuter(info);
    }
    WithinMore(info.values, DefaultSlot, owners);
    assert [] + owners == owners;
  }

  lemma {:induction false} StartLocalSchemaChildFits(info: ParseInfo, element: string, attrs: Attrs)
    requires Fits(info) && info.states[0] == InLocalSchema && StartLocalSchemaChild(info, element, attrs).Going?
    ensures Fits(StartLocalSchemaChild(info, element, attrs).info)
  {
    BareDefaultFits(info);
    if element == "default" && ParseValue(attrs).Parsed? {
      ParsedIsKept(attrs);
      HalfIsKept(ParseValue(attrs).value);
      StartDefaultFits(info, ParseValue(attrs).value);
    }
  }

  lemma {:induction false} InnerStatesFit(info: ParseInfo, s: State, item: Item, owner: Value)
    requires StatesFit(info) && info.states[0] in {InEntry, InDefault} && info.values != []
    requires s in {InCar, InCdr, InLi} && Owned(s, true) == [item.slot]
    ensures StatesFit(Push(info, s).(values := [item] + ([info.values[0].(value := owner)] + info.values[1..])))
  {
    PushGrammatical(info.states, s);
    WithinChanged(info.values, owner, Owners(info.states, true));
    WithinPushed([info.values[0].(value := owner)] + info.values[1..], item, Owners(info.states, true));
  }

  lemma {:induction false} InnerValuesFit(info: ParseInfo, item: Item, owner: Value)
    requires ValuesFit(info) && info.values != [] && info.values[0].slot in {EntrySlot, DefaultSlot}
    requires item.slot in {CarSlot, CdrSlot, LiSlot} && KeptItem(item)
    requires KeptValue(owner) && (owner.SchemaValue? <==> info.values[0].value.SchemaValue?)
    requires item.slot == LiSlot && owner.ListValue? ==> TypeOf(item.value) == owner.elemType
    ensures ValuesFit(info.(values := [item] + ([info.values[0].(value := owner)] + info.values[1..])))
  {
    var below := [info.values[0].(value := owner)] + info.values[1..];
    assert forall i :: 0 <= i < |below| ==> KeptItem(below[i]) && below[i].slot == info.values[i].slot;
    var values := [item] + below;
    assert forall i :: 1 <= i < |values| ==> values[i] == below[i - 1];
  }

  /** An inner element is opened with a value, below an owner that has changed. */
  lemma {:induction false} InnerFits(info: ParseInfo, s: State, slot: Slot, item: Item, owner: Value)
    requires Fits(info) && info.states[0] in {InEntry, InDefault} && info.values != []
    requires s in {InCar, InCdr, InLi} && Owned(s, true) == [slot] && item.slot == slot && KeptItem(item)
    requires KeptValue(owner) && (owner.SchemaValue? <==> info.values[0].value.SchemaValue?)
    requires slot == LiSlot && owner.ListValue? ==> TypeOf(item.value) == owner.elemType
    ensures Fits(Push(info, s).(values := [item, info.values[0].(value := owner)] + info.values[1..]))
  {
    TopIsOuter(info);
    InnerStatesFit(info, s, item, owner);
    InnerValuesFit(info, item, owner);
    FirstTwo(item, info.values[0].(value := owner), info.values[1..]);
    InnerRestFits(info, s, [item, info.values[0].(value := owner)] + info.values[1..]);
  }

  lemma FirstTwo<T>(a: T, b: T, s: seq<T>)
    ensures [a, b] + s == [a] + ([b] + s)
  {
  }

  lemma InnerRestFits(info: ParseInfo, s: State, values: seq<Item>)
    requires EntryFits(info) && TreesFit(info) && ValuesFit(info.(values := values))
    ensures var next := Push(info, s).(values := values); EntryFits(next) && TreesFit(next) && ValuesFit(next)
  {
  }

  lemma {:induction false} BareInnerFits(info: ParseInfo, s: State, slot: Slot)
    requires Fits(info) && info.states[0] in {InEntry, InDefault}
    requires s in {InCar, InCdr, InLi} && Owned(s, true) == [slot]
    ensures Fits(Push(info, s))
  {
    PushGrammatical(info.states, s);
    if info.values != [] {
      TopIsOuter(info);
    }
    WithinMore(info.values, slot, Owners(info.states, true));
  }

  lemma {:induction false} StartCarOrCdrFits(info: ParseInfo, isCar: bool, attrs: Attrs)
    requires Fits(info) && info.states[0] in {InEntry, InDefault} && StartCarOrCdr(info, isCar, attrs).Going?
    ensures Fits(StartCarOrCdr(info, isCar, attrs).info)
  {
    ParsedIsKept(attrs);
    if ParseValue(attrs).Parsed? {
      var v, pair := ParseValue(attrs).value, info.values[0].value;
      TopIsOuter(info);
      assert KeptItem(info.values[0]);
      if isCar {
        InnerFits(info, InCar, CarSlot, Item(v, CarSlot), PairValue(Some(v), pair.cdr));
      } else {
        InnerFits(info, InCdr, CdrSlot, Item(v, CdrSlot), PairValue(pair.car, Some(v)));
      }
    } else {
      BareInnerFits(info, if isCar then InCar else InCdr, if isCar then CarSlot else CdrSlot);
    }
  }

  lemma {:induction false} StartLiFits(info: ParseInfo, attrs: Attrs)
    requires Fits(info) && info.states[0] in {InEntry, InDefault} && StartLi(info, attrs).Going?
    ensures Fits(StartLi(info, attrs).info)
  {
    ParsedIsKept(attrs);
    if ParseValue(attrs).Parsed? {
      var v, list := ParseValue(attrs).value, info.values[0].value;
      TopIsOuter(info);
      assert KeptItem(info.values[0]);
      ElemIsKept(v, list.elemType);
      GrownListIsKept(list.elemType, list.elems, v);
      InnerFits(info, InLi, LiSlot, Item(v, LiSlot), ListValue(list.elemType, list.elems + [v]));
    } else {
      BareInnerFits(info, InLi, LiSlot);
    }
  }

  lemma GrownListIsKept(t: ValueType, elems: seq<Value>, v: Value)
    requires KeptValue(ListValue(t, elems)) && KeptElem(v) && TypeOf(v) == t
    ensures KeptValue(ListValue(t, elems + [v]))
  {
    assert forall i :: 0 <= i < |elems| ==> elems[i] in elems;
  }

  lemma {:induction false} StartStringValueFits(info: ParseInfo, element: string, attrs: Attrs)
    requires Fits(info) && info.states[0] in {InEntry, InDefault, InCar, InCdr, InLi}
    requires info.values != [] && info.values[0].value.StringValue?
    ensures Fits(Push(info, InStringValue).(values := [info.values[0].(value := StringValue(""))] + info.values[1..]))
  {
    PushGrammatical(info.states, InStringValue);
    assert [] + Owners(info.states, true) == Owners(info.states, true);
    TextFits(Push(info, InStringValue), "");
  }

  /** Another text for the string on top of the stack. */
  lemma {:induction false} TextFits(info: ParseInfo, s: string)
    requires Fits(info) && info.values != [] && info.values[0].value.StringValue? && (s == "" || !AllWhitespace(s))
    ensures Fits(info.(values := [info.values[0].(value := StringValue(s))] + info.values[1..]))
  {
    assert KeptItem(info.values[0]);
    WithinChanged(info.values, StringValue(s), Owners(info.states, true));
  }

  lemma {:induction false} StartValueChildFits(info: ParseInfo, element: string, attrs: Attrs)
    requires Fits(info) && info.states[0] in {InEntry, InDefault, InCar, InCdr, InLi}
    requires StartValueChild(info, element, attrs).Going?
    ensures Fits(StartValueChild(info, element, attrs).info)
  {
    if element == "stringvalue" {
      StartStringValueFits(info, element, attrs);
    } else if element == "local_schema" {
      StartLocalSchemaFits(info, attrs);
    } else if element == "li" {
      StartLiFits(info, attrs);
    } else {
      StartCarOrCdrFits(info, element == "car", attrs);
    }
  }

  lemma {:induction false} StartFits(info: ParseInfo, element: string, attrs: Attrs)
    requires Fits(info) && StartElement(info, element, attrs).Going?
    ensures Fits(StartElement(info, element, attrs).info)
  {
    match info.states[0]
    case InStart =>
      OutsideNothingIsStacked(info);
      PushGrammatical(info.states, InGconf);
      assert ([InGconf] + info.states)[1..] == info.states;
    case InLocalSchema => StartLocalSchemaChildFits(info, element, attrs);
    case InGconf => StartInDirFits(info, element, attrs);
    case InDir => StartInDirFits(info, element, attrs);
    case _ => StartValueChildFits(info, element, attrs);
  }

  lemma {:induction false} StartInDirFits(info: ParseInfo, element: string, attrs: Attrs)
    requires Fits(info) && info.states[0] in {InGconf, InDir} && StartInDir(info, element, attrs).Going?
    ensures Fits(StartInDir(info, element, attrs).info)
  {
    if element == "entry" {
      StartEntryFits(info, attrs);
    } else {
      StartDirFits(info, attrs);
    }
  }

  // ----- ending an element -----

  lemma SettledIsKept(owner: Item, popped: Item)
    requires KeptItem(owner) && owner.slot in {EntrySlot, DefaultSlot} && KeptItem(popped)
    requires popped.slot == LiSlot && owner.value.ListValue? ==> TypeOf(popped.value) == owner.value.elemType
    ensures KeptItem(Settle(owner, popped)) && Settle(owner, popped).slot == owner.slot
    ensures Settle(owner, popped).value.SchemaValue? <==> owner.value.SchemaValue?
  {
    if popped.slot == LiSlot && owner.value.ListValue? && owner.value.elems != [] {
      var elems := owner.value.elems;
      var front := elems[..|elems| - 1];
      assert forall i :: 0 <= i < |front| ==> front[i] in elems && front[i] == elems[i];
      GrownListIsKept(owner.value.elemType, front, popped.value);
    }
  }

  lemma {:induction false} BelowFits(info: ParseInfo, states: seq<State>, slot: Slot)
    requires Fits(info) && Grammatical(states) && InEntry in info.states && InEntry in states && info.values != []
    requires Owners(info.states, true) == [slot] + Owners(states, true)
    requires states[0] in {InEntry, InDefault, InLocalSchema}
    ensures var below := info.(states := states, values := info.values[1..]);
            Fits(below) && (below.values != [] ==> below.values[0].slot in {EntrySlot, DefaultSlot})
  {
    var rest := info.values[1..];
    var below := info.(states := states, values := rest);
    WithinPopped(info.values, slot, Owners(states, true));
    if rest != [] {
      TopIsOuter(below);
    }
    assert forall i :: 0 <= i < |rest| ==> rest[i] == info.values[i + 1];
  }

  /** The top value handed over: to the entry, to the local schema, or to the value it belongs to. */
  lemma {:induction false} PoppedFits(info: ParseInfo, states: seq<State>, slot: Slot)
    requires Fits(info) && Grammatical(states) && states[0] in {InEntry, InDefault, InLocalSchema}
    requires Owners(info.states, true) == [slot] + Owners(states, true)
    requires InEntry in info.states && InEntry in states
    ensures Fits(PopValue(info).(states := states))
  {
    if info.values != [] {
      BelowFits(info, states, slot);
      HandedOver(info, info.(states := states, values := info.values[1..]));
    }
  }

  lemma {:induction false} HandedOver(info: ParseInfo, below: ParseInfo)
    requires ValuesFit(info) && info.values != [] && Fits(below)
    requires below == info.(states := below.states, values := info.values[1..])
    requires below.values != [] ==> below.values[0].slot in {EntrySlot, DefaultSlot}
    ensures Fits(PopValue(info).(states := below.states))
  {
    var popped, rest := info.values[0], info.values[1..];
    assert KeptItem(popped);
    if popped.slot in {CarSlot, CdrSlot, LiSlot} {
      if rest != [] {
        assert rest[0] == info.values[1] && KeptItem(rest[0]);
        SettledIsKept(rest[0], popped);
        HandedOverFits(below, Settle(rest[0], popped).value);
      }
    } else if popped.slot == EntrySlot {
      EntryRefilled(below, popped.value);
    } else if info.localSchemas != [] {
      DefaultRefilled(below, popped.value);
    }
  }

  lemma {:induction false} HandedOverFits(info: ParseInfo, v: Value)
    requires Fits(info) && info.values != [] && info.values[0].slot in {EntrySlot, DefaultSlot} && KeptValue(v)
    requires v.SchemaValue? <==> info.values[0].value.SchemaValue?
    ensures Fits(info.(values := [info.values[0].(value := v)] + info.values[1..]))
  {
    WithinChanged(info.values, v, Owners(info.states, true));
  }

  lemma {:induction false} EntryRefilled(info: ParseInfo, v: Value)
    requires Fits(info) && info.currentEntry.Some? && info.currentEntry.value.value.Some? && KeptValue(v)
    requires v.SchemaValue? <==> HoldsSchema(info.currentEntry)
    ensures Fits(info.(currentEntry := Some(info.currentEntry.value.(value := Some(v)))))
  {
  }

  lemma {:induction false} DefaultRefilled(info: ParseInfo, v: Value)
    requires Fits(info) && info.localSchemas != [] && KeptValue(v)
    ensures Fits(info.(localSchemas := [info.localSchemas[0].(defaultValue := Some(v))] + info.localSchemas[1..]))
  {
    assert KeptLocal(info.localSchemas[0]);
  }

  lemma {:induction false} ReverseMembers<T>(s: seq<T>)
    ensures forall x :: x in Reverse(s) <==> x in s
    decreases |s|
  {
    if s != [] {
      ReverseMembers(s[1..]);
      assert s == [s[0]] + s[1..];
    }
  }

  /** What an entry's end leaves of the value stack, and of the entry. */
  lemma {:induction false} LastPopped(info: ParseInfo)
    requires StatesFit(info) && ValuesFit(info) && EntryFits(info) && info.states[0] == InEntry
    ensures var e := info.currentEntry.value;
            var popped := if e.value.Some? then PopValue(info) else info;
            && popped == info.(values := [], currentEntry := popped.currentEntry)
            && popped.currentEntry.Some? && KeptEntry(popped.currentEntry.value)
            && (HoldsSchema(popped.currentEntry) <==> HoldsSchema(info.currentEntry))
  {
    EntryAlone(info.states);
    if info.values != [] {
      TopIsOuter(info);
      TopIsWithin(info.values, [EntrySlot]);
      assert KeptItem(info.values[0]) && info.values[1..] == [];
    }
  }

  lemma {:induction false} EndEntryFits(info: ParseInfo)
    requires Fits(info) && info.states[0] == InEntry && EndEntry(info).Going?
    ensures Fits(EndEntry(info).info)
  {
    EntryAlone(info.states);
    PopGrammatical(info.states);
    LastPopped(info);
    var popped := if info.currentEntry.value.value.Some? then PopValue(info) else info;
    var entry := popped.currentEntry.value.(localSchemas := Reverse(info.localSchemas));
    LocalsAreKept(popped.currentEntry.value, info.localSchemas);
    DirWithEntry(info.dirStack[0], entry);
  }

  lemma {:induction false} LocalsAreKept(e: FileEntry, lss: seq<LocalSchema>)
    requires KeptEntry(e) && forall i :: 0 <= i < |lss| ==> KeptLocal(lss[i])
    requires lss != [] ==> HoldsSchema(Some(e))
    ensures KeptEntry(e.(localSchemas := Reverse(lss)))
  {
    var reversed := Reverse(lss);
    ReverseMembers(lss);
    forall i | 0 <= i < |reversed|
      ensures KeptLocal(reversed[i])
    {
      assert reversed[i] in lss;
    }
  }

  lemma {:induction false} DirWithEntry(d: DirTree, e: FileEntry)
    requires KeptDir(d) && KeptEntry(e)
    ensures KeptDir(d.(entries := [e] + d.entries))
  {
  }

  lemma {:induction false} DirWithSubdir(d: DirTree, sub: DirTree)
    requires KeptDir(d) && KeptDir(sub)
    ensures KeptDir(d.(subdirs := [sub] + d.subdirs))
  {
  }

  lemma {:induction false} DirReversed(d: DirTree)
    requires KeptDir(d)
    ensures KeptDir(d.(entries := Reverse(d.entries), subdirs := Reverse(d.subdirs)))
  {
    ReverseMembers(d.entries);
    ReverseMembers(d.subdirs);
    var es, ds := Reverse(d.entries), Reverse(d.subdirs);
    forall i | 0 <= i < |es|
      ensures CanonicalEntry(es[i], false)
    {
      assert es[i] in d.entries;
    }
    forall i | 0 <= i < |ds|
      ensures CanonicalDir(ds[i], false)
    {
      assert ds[i] in d.subdirs;
    }
  }

  lemma {:induction false} EndDirFits(info: ParseInfo)
    requires Fits(info) && info.states[0] in {InDir, InGconf} && EndDir(info).Going?
    ensures Fits(EndDir(info).info)
  {
    OutsideNothingIsStacked(info);
    PopGrammatical(info.states);
    DirReversed(info.dirStack[0]);
    var dir, rest := info.dirStack[0], info.dirStack[1..];
    var done := dir.(entries := Reverse(dir.entries), subdirs := Reverse(dir.subdirs));
    if rest != [] {
      DirWithSubdir(rest[0], done);
    }
  }

  lemma {:induction false} EndPlainFits(info: ParseInfo)
    requires Fits(info) && info.states[0] in {InLocalSchema, InLongDesc, InStringValue}
    ensures Fits(Pop(info))
  {
    PopGrammatical(info.states);
    Outside(info.states);
    assert [] + Owners(info.states[1..], true) == Owners(info.states[1..], true);
  }

  lemma {:induction false} EndValueFits(info: ParseInfo)
    requires Fits(info) && info.states[0] in {InDefault, InCar, InCdr, InLi}
    ensures Fits(Pop(PopValue(info)))
  {
    PopGrammatical(info.states);
    Outside(info.states);
    Outside(info.states[1..]);
    PoppedFits(info, info.states[1..], Owned(info.states[0], true)[0]);
    PoppingKeepsStates(info);
  }

  lemma PoppingKeepsStates(info: ParseInfo)
    requires info.states != []
    ensures Pop(PopValue(info)) == PopValue(info).(states := info.states[1..])
  {
    assert PopValue(info).states == info.states;
  }

  lemma {:induction false} EndFits(info: ParseInfo)
    requires Fits(info) && EndElement(info).Going?
    ensures Fits(EndElement(info).info)
  {
    match info.states[0]
    case InStart =>
    case InEntry => EndEntryFits(info);
    case InDir => EndDirFits(info);
    case InGconf => EndDirFits(info);
    case InDefault =>
      EndValueFits(info);
      assert info.values == [] ==> PopValue(info) == info;
    case InCar => EndValueFits(info);
    case InCdr => EndValueFits(info);
    case InLi => EndValueFits(info);
    case _ => EndPlainFits(info);
  }

  lemma {:induction false} StepFits(info: ParseInfo, e: Event)
    requires Fits(info) && Step(info, e).Going?
    ensures Fits(Step(info, e).info)
  {
    match e
    case Start(element, attrs) => StartFits(info, element, attrs);
    case End(_) => EndFits(info);
    case Text(text) =>
      if !AllWhitespace(text) {
        if info.states[0] == InStringValue {
          TextFits(info, text);
        } else {
          assert KeptLocal(info.localSchemas[0]);
        }
      }
  }

  lemma {:induction false} RunFits(info: ParseInfo, events: seq<Event>)
    requires Fits(info) && Run(info, events).Going?
    ensures Fits(Run(info, events).info)
    decreases |events|
  {
    if events != [] {
      StepFits(info, events[0]);
      RunFits(Step(info, events[0]).info, events[1..]);
    }
  }

  lemma {:induction false} ReachedFits(info: ParseInfo, events: seq<Event>)
    requires Fits(info)
    ensures Fits(Reached(info, events))
    decreases |events|
  {
    if events != [] && Step(info, events[0]).Going? {
      StepFits(info, events[0]);
      ReachedFits(Step(info, events[0]).info, events[1..]);
    }
  }

  lemma {:induction false} UnfinishedIsKept(info: ParseInfo)
    requires Fits(info)
    ensures Unfinished(info).Some? ==> KeptEntry(Unfinished(info).value) && Unfinished(info).value.localSchemas == []
    decreases |info.states|
  {
    if info.states[0] == InEntry {
      LastPopped(info);
    } else if info.states[0] !in {InStart, InGconf, InDir} {
      OutwardFits(info);
      UnfinishedIsKept(Outward(info));
    }
  }

  lemma {:induction false} OutwardFits(info: ParseInfo)
    requires Fits(info) && info.states[0] !in {InStart, InGconf, InDir, InEntry}
    ensures Fits(Outward(info))
  {
    if info.states[0] in {InDefault, InCar, InCdr, InLi} {
      EndValueFits(info);
    } else {
      EndPlainFits(info);
    }
  }

  // ----- whatever is read -----

  /** So is whatever is left in a directory when its file cannot be parsed to the end. */
  lemma {:induction false} FilledIsCanonical(name: string, events: seq<Event>)
    ensures KeptDir(Filled(name, events))
    ensures Load(name, events, false).Some? ==> Filled(name, events) == Load(name, events, false).value
  {
    var start := Init(name, false);
    assert KeptDir(DirTree(name, [], []));
    InitFits(name, false);
    ReachedFits(start, events);
    UnfinishedIsKept(Reached(start, events));
    ReachedEnd(start, events);
    var info := Reached(start, events);
    if info.root == None && info.dirStack != [] && Unfinished(info).Some? {
      DirWithEntry(info.dirStack[|info.dirStack| - 1], Unfinished(info).value);
    }
  }

  lemma {:induction false} InitFits(name: string, subtree: bool)
    ensures Fits(Init(name, subtree))
  {
    assert KeptDir(DirTree(name, [], []));
  }

  /** Whatever a file holds, what is read from it can be written again and comes back as it is. */
  lemma {:induction false} ParsedIsCanonical(name: string, events: seq<Event>, subtree: bool)
    ensures Load(name, events, subtree).Some? ==> KeptDir(Load(name, events, subtree).value)
  {
    var start := Init(name, subtree);
    assert KeptDir(DirTree(name, [], []));
    InitFits(name, subtree);
    if Run(start, events).Going? {
      RunFits(start, events);
    }
  }

  /** Writing a directory's own file and parsing it is the identity exactly on the canonical writable ones. */
  lemma {:induction false} DirComesBackExactlyWhen(root: DirTree)
    ensures Load(root.name, WriteFile(root, false), false) == Some(root.(subdirs := []))
            <==> forall e :: e in root.entries ==> KeptEntry(e)
  {
    var flat := root.(subdirs := []);
    assert WriteFile(root, false) == WriteFile(flat, false);
    assert flat.(subdirs := []) == flat && flat.entries == root.entries;
    if Load(root.name, WriteFile(root, false), false) == Some(flat) {
      ParsedIsCanonical(root.name, WriteFile(root, false), false);
      forall e | e in root.entries
        ensures KeptEntry(e)
      {
        var i :| 0 <= i < |root.entries| && root.entries[i] == e;
        assert CanonicalEntry(flat.entries[i], false);
      }
    }
    if forall e :: e in root.entries ==> KeptEntry(e) {
      WritableDirComesBackExactlyWhen(flat);
      assert forall i :: 0 <= i < |flat.entries| ==> flat.entries[i] in root.entries;
    }
  }

  /**
   * Saving a whole subtree and parsing it again is the identity exactly on the canonical trees that can
   * be written: no blank strings or long descriptions, no part types a schema has no use for, nothing
   * localized outside the local schemas, no descriptions for locales other than C, and no values in
   * places the file has no form for.
   */
  lemma {:induction false} SubtreeComesBackExactlyWhen(root: DirTree)
    ensures Load(root.name, WriteFile(root, true), true) == Some(root)
            <==> WritableDir(root) && CanonicalDir(root, true)
  {
    if Load(root.name, WriteFile(root, true), true) == Some(root) {
      ParsedIsCanonical(root.name, WriteFile(root, true), true);
    }
    if WritableDir(root) {
      WritableSubtreeComesBackExactlyWhen(root);
    }
  }
}
