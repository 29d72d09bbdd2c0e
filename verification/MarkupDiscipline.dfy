/**
 * What the parser's stacks hold at every moment of a run: the state stack is a path of the file's
 * grammar, and it determines who owns each value on the value stack and how many directories are open.
 */
module MarkupDiscipline {
  import opened Options
  import opened Values
  import opened MarkupFiles

  /** Which state may lie directly below which on the state stack. */
  predicate Follows(s: State, below: State) {
    match s
    case InStart => false
    case InGconf => below == InStart
    case InDir => below == InGconf || below == InDir
    case InEntry => below == InGconf || below == InDir
    case InLocalSchema => below == InEntry
    case InDefault => below == InLocalSchema
    case InLongDesc => below == InLocalSchema
    case InCar => below == InEntry || below == InDefault
    case InCdr => below == InEntry || below == InDefault
    case InLi => below == InEntry || below == InDefault
    case InStringValue => below in {InEntry, InDefault, InCar, InCdr, InLi}
  }

  predicate Grammatical(states: seq<State>) {
    && states != []
    && if |states| == 1 then states == [InStart] else Follows(states[0], states[1]) && Grammatical(states[1..])
  }

  /** The owners of the stacked values, as the state stack and the open entry determine them. */
  function Owners(states: seq<State>, entryHasValue: bool): seq<Slot> {
    if states == [] then [] else Owned(states[0], entryHasValue) + Owners(states[1..], entryHasValue)
  }

  function Owned(s: State, entryHasValue: bool): seq<Slot> {
    match s
    case InEntry => if entryHasValue then [EntrySlot] else []
    case InDefault => [DefaultSlot]
    case InCar => [CarSlot]
    case InCdr => [CdrSlot]
    case InLi => [LiSlot]
    case _ => []
  }

  function Slots(values: seq<Item>): seq<Slot> {
    if values == [] then [] else [values[0].slot] + Slots(values[1..])
  }

  function OpenDirs(states: seq<State>): nat {
    if states == [] then 0 else (if states[0] == InDir then 1 else 0) + OpenDirs(states[1..])
  }

  predicate EntryHasValue(info: ParseInfo) {
    info.currentEntry.Some? && info.currentEntry.value.value.Some?
  }

  /** What holds between any two events. */
  predicate Disciplined(info: ParseInfo) {
    && Grammatical(info.states)
    && Slots(info.values) == Owners(info.states, EntryHasValue(info))
    && |info.dirStack| == (if info.root.Some? then 0 else OpenDirs(info.states) + 1)
    && (info.root.Some? ==> info.states == [InStart])
    && (info.currentEntry.Some? <==> InEntry in info.states)
    && (info.currentEntry.Some? ==> info.currentEntry.value.localSchemas == [])
    && (info.currentEntry == None ==> info.localSchemas == [])
    && (InLocalSchema in info.states ==> info.localSchemas != [])
    && (info.states[0] == InStringValue ==> info.values != [] && info.values[0].value.StringValue?)
  }

  /** The elements that hold a value of their own say its type. */
  predicate Typed(e: Event) {
    e.Start? && e.element in {"default", "car", "cdr", "li"} ==> "type" in e.attrs
  }

  /**
   * What a reader of well-formed XML can deliver with depth elements open: one outermost element, no
   * end without a start, no text but blanks outside.
   */
  predicate Delivered(events: seq<Event>, depth: nat, begun: bool) {
    events == [] ||
    match events[0]
    case Start(_, _) => (depth > 0 || !begun) && Delivered(events[1..], depth + 1, true)
    case End(_) => depth > 0 && Delivered(events[1..], depth - 1, begun)
    case Text(t) => (depth > 0 || AllWhitespace(t)) && Delivered(events[1..], depth, begun)
  }

  function Delta(e: Event): int {
    match e
    case Start(_, _) => 1
    case End(_) => -1
    case Text(_) => 0
  }

  /** Elements opened less elements closed. */
  function Depth(events: seq<Event>): int {
    if events == [] then 0 else Delta(events[0]) + Depth(events[1..])
  }

  predicate AllTyped(events: seq<Event>) {
    events == [] || (Typed(events[0]) && AllTyped(events[1..]))
  }

  predicate CanFollow(info: ParseInfo, e: Event) {
    match e
    case Start(_, _) => info.states == [InStart] ==> info.root == None
    case End(_) => info.states != [InStart]
    case Text(t) => info.states == [InStart] ==> AllWhitespace(t)
  }

  // ----- the shape of the state stack -----

  /** Below an open directory there are only directories; below an entry no other entry. */
  lemma {:induction false} Outside(states: seq<State>)
    requires Grammatical(states)
    ensures states[0] == InStart <==> |states| == 1
    ensures states[0] in {InStart, InGconf, InDir} ==> InEntry !in states && InLocalSchema !in states
    ensures states[0] in {InStart, InGconf, InDir} ==> forall b :: Owners(states, b) == []
    ensures states[0] !in {InStart, InGconf, InDir} ==> InEntry in states
    ensures states[0] in {InStart, InGconf} ==> OpenDirs(states) == 0
    ensures states[0] in {InLocalSchema, InDefault, InLongDesc} ==> InLocalSchema in states
    decreases |states|
  {
    if |states| > 1 {
      Outside(states[1..]);
      assert states == [states[0]] + states[1..];
    }
  }

  /** An entry's states end where its directory's begin. */
  lemma {:induction false} EntryAlone(states: seq<State>)
    requires Grammatical(states) && states[0] == InEntry
    ensures InEntry !in states[1..] && InLocalSchema !in states[1..]
    ensures forall b :: Owners(states[1..], b) == []
    ensures Owners(states, true) == [EntrySlot] && Owners(states, false) == []
  {
    Outside(states[1..]);
  }

  lemma {:induction false} PushGrammatical(states: seq<State>, s: State)
    requires Grammatical(states) && Follows(s, states[0])
    ensures Grammatical([s] + states)
    ensures forall b :: Owners([s] + states, b) == Owned(s, b) + Owners(states, b)
    ensures OpenDirs([s] + states) == OpenDirs(states) + if s == InDir then 1 else 0
  {
    assert ([s] + states)[1..] == states;
  }

  lemma {:induction false} TopSlot(values: seq<Item>)
    requires Slots(values) != []
    ensures values != [] && values[0].slot == Slots(values)[0] && Slots(values[1..]) == Slots(values)[1..]
  {
  }

  lemma {:induction false} SlotsOfPushed(item: Item, values: seq<Item>)
    ensures Slots([item] + values) == [item.slot] + Slots(values)
  {
    assert ([item] + values)[1..] == values;
  }

  // ----- starting an element -----

  lemma StartInDirDisciplined(info: ParseInfo, element: string, attrs: Attrs)
    requires Disciplined(info) && info.states[0] in {InGconf, InDir}
    ensures var step := StartInDir(info, element, attrs);
            && step != Crashed
            && (step.Going? ==> Disciplined(step.info) && |step.info.states| == |info.states| + 1)
  {
    Outside(info.states);
    PushGrammatical(info.states, InEntry);
    PushGrammatical(info.states, InDir);
    var step := StartInDir(info, element, attrs);
    if step.Going? && element == "entry" {
      var parsed := ParseValue(attrs);
      if parsed.Parsed? {
        SlotsOfPushed(Item(parsed.value, EntrySlot), info.values);
      } else {
        assert [] + info.values == info.values;
      }
    }
  }

  lemma StartLocalSchemaDisciplined(info: ParseInfo, attrs: Attrs)
    requires Disciplined(info) && info.states[0] == InEntry
    ensures var step := StartLocalSchema(info, attrs);
            && step != Crashed
            && (step.Going? ==> Disciplined(step.info) && |step.info.states| == |info.states| + 1)
  {
    PushGrammatical(info.states, InLocalSchema);
  }

  /** The inside of a local schema, entered by a default element with its value or by a long description. */
  lemma InsideLocalSchema(info: ParseInfo, s: State, values: seq<Item>, ls: LocalSchema)
    requires Disciplined(info) && info.states[0] == InLocalSchema && info.localSchemas != []
    requires (s == InDefault && values != [] && values[0].slot == DefaultSlot && values[1..] == info.values)
             || (s == InLongDesc && values == info.values)
    ensures Disciplined(Push(info, s).(localSchemas := [ls] + info.localSchemas[1..], values := values))
  {
    PushGrammatical(info.states, s);
    if s == InDefault {
      assert values == [values[0]] + info.values;
      SlotsOfPushed(values[0], info.values);
    }
  }

  lemma StartLocalSchemaChildDisciplined(info: ParseInfo, element: string, attrs: Attrs)
    requires Disciplined(info) && info.states[0] == InLocalSchema && Typed(Start(element, attrs))
    ensures var step := StartLocalSchemaChild(info, element, attrs);
            && step != Crashed
            && (step.Going? ==> Disciplined(step.info) && |step.info.states| == |info.states| + 1)
  {
    Outside(info.states);
    var ls := info.localSchemas[0];
    if element == "default" && ParseValue(attrs).Parsed? {
      var v := ParseValue(attrs).value;
      InsideLocalSchema(info, InDefault, [Item(v, DefaultSlot)] + info.values, ls.(defaultValue := Some(v)));
    } else if element == "longdesc" {
      assert [ls] + info.localSchemas[1..] == info.localSchemas;
      InsideLocalSchema(info, InLongDesc, info.values, ls);
    }
  }

  /** With a value on top that owns the children: the entry's, the default's or an inner one. */
  lemma OwnerOnTop(info: ParseInfo)
    requires Disciplined(info) && info.states[0] in {InEntry, InDefault, InCar, InCdr, InLi}
    requires info.states[0] == InEntry ==> EntryHasValue(info)
    ensures info.values != [] && info.values[0].slot == Owned(info.states[0], true)[0]
    ensures Slots(info.values[1..]) == Owners(info.states[1..], EntryHasValue(info))
  {
    TopSlot(info.values);
  }

  /** An inner element pushed over an owner that was changed in place. */
  lemma PushInner(info: ParseInfo, s: State, slot: Slot, v: Value, owner: Value)
    requires Disciplined(info) && info.values != [] && s in {InCar, InCdr, InLi}
    requires info.states[0] in {InEntry, InDefault} && Owned(s, EntryHasValue(info)) == [slot]
    ensures var next := Push(info, s).(values := [Item(v, slot), info.values[0].(value := owner)] + info.values[1..]);
            Disciplined(next) && |next.states| == |info.states| + 1
  {
    PushGrammatical(info.states, s);
    var below := [info.values[0].(value := owner)] + info.values[1..];
    SlotsOfPushed(info.values[0].(value := owner), info.values[1..]);
    assert Slots(below) == Slots(info.values);
    SlotsOfPushed(Item(v, slot), below);
    assert [Item(v, slot)] + below == [Item(v, slot), info.values[0].(value := owner)] + info.values[1..];
  }

  lemma StartCarOrCdrDisciplined(info: ParseInfo, isCar: bool, attrs: Attrs)
    requires Disciplined(info) && info.states[0] in {InEntry, InDefault} && "type" in attrs
    requires info.states[0] == InEntry ==> EntryHasValue(info)
    ensures var step := StartCarOrCdr(info, isCar, attrs);
            && step != Crashed
            && (step.Going? ==> Disciplined(step.info) && |step.info.states| == |info.states| + 1)
  {
    OwnerOnTop(info);
    var parsed := ParseValue(attrs);
    if parsed.Parsed? && info.values[0].value.PairValue? {
      var v, pair := parsed.value, info.values[0].value;
      if isCar {
        PushInner(info, InCar, CarSlot, v, PairValue(Some(v), pair.cdr));
      } else {
        PushInner(info, InCdr, CdrSlot, v, PairValue(pair.car, Some(v)));
      }
    }
  }

  lemma StartLiDisciplined(info: ParseInfo, attrs: Attrs)
    requires Disciplined(info) && info.states[0] in {InEntry, InDefault} && "type" in attrs
    requires info.states[0] == InEntry ==> EntryHasValue(info)
    ensures var step := StartLi(info, attrs);
            && step != Crashed
            && (step.Going? ==> Disciplined(step.info) && |step.info.states| == |info.states| + 1)
  {
    OwnerOnTop(info);
    var parsed := ParseValue(attrs);
    if parsed.Parsed? && info.values[0].value.ListValue? {
      var v, list := parsed.value, info.values[0].value;
      PushInner(info, InLi, LiSlot, v, ListValue(list.elemType, list.elems + [v]));
    }
  }

  lemma StartStringValueDisciplined(info: ParseInfo)
    requires Disciplined(info) && info.states[0] in {InEntry, InDefault, InCar, InCdr, InLi} && info.values != []
    ensures var next := Push(info, InStringValue)
                          .(values := [info.values[0].(value := StringValue(""))] + info.values[1..]);
            Disciplined(next) && |next.states| == |info.states| + 1
  {
    PushGrammatical(info.states, InStringValue);
    SlotsOfPushed(info.values[0].(value := StringValue("")), info.values[1..]);
  }

  /** The one case with an owner on top and an element that may stand below it. */
  lemma ChildDisciplined(info: ParseInfo, element: string, attrs: Attrs)
    requires Disciplined(info) && info.states[0] in {InEntry, InDefault} && Typed(Start(element, attrs))
    requires info.states[0] == InEntry ==> EntryHasValue(info)
    requires element in {"car", "cdr", "li"}
    ensures var step := StartValueChild(info, element, attrs);
            && step != Crashed
            && (step.Going? ==> Disciplined(step.info) && |step.info.states| == |info.states| + 1)
  {
    OwnerOnTop(info);
    if element == "li" {
      StartLiDisciplined(info, attrs);
    } else {
      StartCarOrCdrDisciplined(info, element == "car", attrs);
    }
  }

  lemma StartValueChildDisciplined(info: ParseInfo, element: string, attrs: Attrs)
    requires Disciplined(info) && info.states[0] in {InEntry, InDefault, InCar, InCdr, InLi}
    requires Typed(Start(element, attrs))
    ensures var step := StartValueChild(info, element, attrs);
            && step != Crashed
            && (step.Going? ==> Disciplined(step.info) && |step.info.states| == |info.states| + 1)
  {
    if info.states[0] == InEntry && !EntryHasValue(info) {
      Outside(info.states);
    } else if element in {"car", "cdr", "li"} && info.states[0] in {InEntry, InDefault} {
      ChildDisciplined(info, element, attrs);
    } else {
      OwnerOnTop(info);
      if element == "stringvalue" {
        StartStringValueDisciplined(info);
      } else if info.states[0] == InEntry {
        StartLocalSchemaDisciplined(info, attrs);
      }
    }
  }

  lemma StartDisciplined(info: ParseInfo, element: string, attrs: Attrs)
    requires Disciplined(info) && CanFollow(info, Start(element, attrs)) && Typed(Start(element, attrs))
    ensures var step := StartElement(info, element, attrs);
            && step != Crashed
            && (step.Going? ==> Disciplined(step.info) && |step.info.states| == |info.states| + 1)
  {
    Outside(info.states);
    match info.states[0]
    case InStart => PushGrammatical(info.states, InGconf);
    case InGconf => StartInDirDisciplined(info, element, attrs);
    case InDir => StartInDirDisciplined(info, element, attrs);
    case InLocalSchema => StartLocalSchemaChildDisciplined(info, element, attrs);
    case InStringValue =>
    case InLongDesc =>
    case _ => StartValueChildDisciplined(info, element, attrs);
  }

  // ----- ending an element -----

  /** Taking the top state off leaves a shorter path of the grammar. */
  lemma {:induction false} PopGrammatical(states: seq<State>)
    requires Grammatical(states) && |states| > 1
    ensures Grammatical(states[1..])
    ensures forall b :: Owners(states, b) == Owned(states[0], b) + Owners(states[1..], b)
    ensures OpenDirs(states[1..]) == OpenDirs(states) - if states[0] == InDir then 1 else 0
    ensures forall s :: s in states <==> s == states[0] || s in states[1..]
  {
    assert states == [states[0]] + states[1..];
  }

  lemma EndEntryDisciplined(info: ParseInfo)
    requires Disciplined(info) && info.states[0] == InEntry
    ensures var step := EndEntry(info);
            && step.Going? && Disciplined(step.info) && |step.info.states| == |info.states| - 1
  {
    Outside(info.states);
    PopGrammatical(info.states);
    EntryAlone(info.states);
    if EntryHasValue(info) {
      TopSlot(info.values);
    }
  }

  lemma {:induction false} PopDisciplined(info: ParseInfo, values: seq<Item>, localSchemas: seq<LocalSchema>)
    requires Disciplined(info) && info.states[0] in {InCar, InCdr, InLi, InDefault}
    requires Slots(values) == Slots(info.values)[1..] && |localSchemas| == |info.localSchemas|
    ensures var next := Pop(info).(values := values, localSchemas := localSchemas);
            Disciplined(next) && |next.states| == |info.states| - 1
  {
    Outside(info.states);
    PopGrammatical(info.states);
    OwnerOnTop(info);
    TopSlot(info.values);
  }

  lemma EndDefaultDisciplined(info: ParseInfo)
    requires Disciplined(info) && info.states[0] == InDefault
    ensures var step := EndDefault(info);
            && step.Going? && Disciplined(step.info) && |step.info.states| == |info.states| - 1
  {
    OwnerOnTop(info);
    TopSlot(info.values);
    Outside(info.states);
    var ls := info.localSchemas[0].(defaultValue := Some(info.values[0].value));
    PopDisciplined(info, info.values[1..], [ls] + info.localSchemas[1..]);
  }

  lemma PoppedSlots(info: ParseInfo)
    requires info.values != [] && info.values[0].slot in {CarSlot, CdrSlot, LiSlot}
    ensures PopValue(info) == info.(values := PopValue(info).values)
    ensures Slots(PopValue(info).values) == Slots(info.values)[1..]
  {
    var rest := info.values[1..];
    if rest != [] {
      SlotsOfPushed(Settle(rest[0], info.values[0]), rest[1..]);
    }
  }

  lemma EndInnerDisciplined(info: ParseInfo)
    requires Disciplined(info) && info.states[0] in {InCar, InCdr, InLi}
    ensures var next := Pop(PopValue(info)); Disciplined(next) && |next.states| == |info.states| - 1
  {
    OwnerOnTop(info);
    PoppedSlots(info);
    var values := PopValue(info).values;
    PopDisciplined(info, values, info.localSchemas);
    assert Pop(PopValue(info)) == Pop(info).(values := values, localSchemas := info.localSchemas);
  }

  /** Leaving a directory: the stacks as they are then, whatever the directories themselves hold. */
  lemma LeaveDir(info: ParseInfo, dirs: seq<DirTree>, root: Option<DirTree>)
    requires Disciplined(info) && info.states[0] in {InDir, InGconf}
    requires |dirs| == |info.dirStack| - 1 && root.Some? == (info.states[0] == InGconf)
    ensures Disciplined(Pop(info).(dirStack := dirs, root := root))
  {
    Outside(info.states);
    PopGrammatical(info.states);
    Outside(info.states[1..]);
  }

  lemma EndDirDisciplined(info: ParseInfo)
    requires Disciplined(info) && info.states[0] in {InDir, InGconf}
    ensures var step := EndDir(info);
            && step.Going? && Disciplined(step.info) && |step.info.states| == |info.states| - 1
  {
    Outside(info.states);
    var dir, rest := info.dirStack[0], info.dirStack[1..];
    var done := dir.(entries := Reverse(dir.entries), subdirs := Reverse(dir.subdirs));
    if info.states[0] == InGconf {
      LeaveDir(info, rest, Some(done));
    } else {
      assert OpenDirs(info.states) >= 1;
      LeaveDir(info, [rest[0].(subdirs := [done] + rest[0].subdirs)] + rest[1..], None);
    }
  }

  lemma EndPlainDisciplined(info: ParseInfo)
    requires Disciplined(info) && info.states[0] in {InLocalSchema, InLongDesc, InStringValue}
    ensures Disciplined(Pop(info)) && |Pop(info).states| == |info.states| - 1
  {
    Outside(info.states);
    PopGrammatical(info.states);
  }

  lemma EndDisciplined(info: ParseInfo)
    requires Disciplined(info) && info.states != [InStart]
    ensures var step := EndElement(info);
            && step.Going? && Disciplined(step.info) && |step.info.states| == |info.states| - 1
  {
    Outside(info.states);
    match info.states[0]
    case InStart =>
    case InEntry => EndEntryDisciplined(info);
    case InDefault => EndDefaultDisciplined(info);
    case InCar => EndInnerDisciplined(info);
    case InCdr => EndInnerDisciplined(info);
    case InLi => EndInnerDisciplined(info);
    case InDir => EndDirDisciplined(info);
    case InGconf => EndDirDisciplined(info);
    case _ => EndPlainDisciplined(info);
  }

  lemma TextDisciplined(info: ParseInfo, text: string)
    requires Disciplined(info) && CanFollow(info, Text(text))
    ensures var step := TextIn(info, text);
            && step != Crashed && (step.Going? ==> Disciplined(step.info) && step.info.states == info.states)
  {
    Outside(info.states);
    if info.states[0] == InStringValue {
      SlotsOfPushed(info.values[0].(value := StringValue(text)), info.values[1..]);
    }
  }

  // ----- runs -----

  /** No handler's assertion can fire, and every event that is accepted keeps the stacks in step. */
  lemma StepDisciplined(info: ParseInfo, e: Event)
    requires Disciplined(info) && CanFollow(info, e) && Typed(e)
    ensures var step := Step(info, e);
            && step != Crashed
            && (step.Going? ==> Disciplined(step.info)
                                && |step.info.states| == |info.states| + Delta(e))
  {
    match e
    case Start(element, attrs) => StartDisciplined(info, element, attrs);
    case End(_) => EndDisciplined(info);
    case Text(text) => TextDisciplined(info, text);
  }

  /** An element without a type opens a state and stacks no value for it. */
  lemma UntypedPushesNothing(info: ParseInfo, e: Event)
    requires Disciplined(info) && !Typed(e)
    ensures var step := Step(info, e);
            && step != Crashed
            && (step.Going? ==>
                  && step.info.values == info.values && step.info.currentEntry == info.currentEntry
                  && exists s :: s in {InDefault, InCar, InCdr, InLi} && step.info.states == [s] + info.states)
  {
    Outside(info.states);
    if info.states[0] == InEntry && EntryHasValue(info) {
      OwnerOnTop(info);
    }
    var step := Step(info, e);
    if step.Going? {
      assert step.info == Push(info, step.info.states[0]);
    }
  }

  /** A step keeps the stacks in step exactly when its element, if it holds a value of its own, says the type. */
  lemma StepDisciplinedExactlyWhen(info: ParseInfo, e: Event)
    requires Disciplined(info) && CanFollow(info, e)
    ensures var step := Step(info, e); step != Crashed && (step.Going? ==> (Disciplined(step.info) <==> Typed(e)))
  {
    if Typed(e) {
      StepDisciplined(info, e);
    } else {
      UntypedPushesNothing(info, e);
      var step := Step(info, e);
      if step.Going? {
        var s :| s in {InDefault, InCar, InCdr, InLi} && step.info.states == [s] + info.states;
        assert step.info.states[1..] == info.states;
        assert Owners(step.info.states, EntryHasValue(info)) == Owned(s, EntryHasValue(info)) + Slots(info.values);
      }
    }
  }

  predicate Begun(info: ParseInfo) {
    info.states != [InStart] || info.root.Some?
  }

  lemma StartAndTextKeepRoot(info: ParseInfo, e: Event)
    requires info.states != [] && !e.End? && Step(info, e).Going?
    ensures Step(info, e).info.root == info.root
  {
  }

  lemma EndPops(info: ParseInfo, e: Event)
    requires info.states != [] && info.states[0] != InStart && e.End? && Step(info, e).Going?
    ensures Step(info, e).info.states == info.states[1..]
    ensures info.states[0] == InGconf ==> Step(info, e).info.root.Some?
  {
    assert Step(info, e) == EndElement(info);
    if info.states[0] == InEntry {
      EntryEndPops(info);
    } else if info.states[0] in {InDir, InGconf} {
      DirEndPops(info);
    }
  }

  lemma EntryEndPops(info: ParseInfo)
    requires info.states != [] && EndEntry(info).Going?
    ensures EndEntry(info).info.states == info.states[1..]
  {
    assert PopValue(info).states == info.states;
  }

  lemma DirEndPops(info: ParseInfo)
    requires info.states != [] && EndDir(info).Going?
    ensures EndDir(info).info.states == info.states[1..]
    ensures info.states[0] == InGconf ==> EndDir(info).info.root.Some?
  {
  }

  /** The outermost element's end is the one that finishes the root. */
  lemma LastEndFinishesRoot(info: ParseInfo, e: Event)
    requires Disciplined(info) && e.End? && info.states != [InStart] && Step(info, e).Going?
    ensures Begun(Step(info, e).info)
  {
    Outside(info.states);
    EndPops(info, e);
    if info.states[1..] == [InStart] {
      assert Follows(info.states[0], InStart);
    }
  }

  lemma StepKeepsBegun(info: ParseInfo, e: Event)
    requires Disciplined(info) && CanFollow(info, e) && Typed(e) && Step(info, e).Going?
    ensures Begun(Step(info, e).info) == (Begun(info) || e.Start?)
  {
    Outside(info.states);
    StepDisciplined(info, e);
    if e.End? {
      LastEndFinishesRoot(info, e);
    } else {
      StartAndTextKeepRoot(info, e);
      var states := Step(info, e).info.states;
      assert e.Text? ==> states == info.states;
    }
  }

  /** One event of a run: the parser may go on, and what is left can follow. */
  lemma {:induction false} OneEvent(info: ParseInfo, events: seq<Event>)
    requires Disciplined(info) && events != [] && Delivered(events, |info.states| - 1, Begun(info)) && Typed(events[0])
    ensures var step := Step(info, events[0]);
            && step != Crashed
            && (step.Going? ==>
                  && Disciplined(step.info) && |step.info.states| == |info.states| + Delta(events[0])
                  && Begun(step.info) == (Begun(info) || events[0].Start?)
                  && Delivered(events[1..], |step.info.states| - 1, Begun(step.info)))
  {
    assert CanFollow(info, events[0]) by {
      Outside(info.states);
    }
    StepDisciplined(info, events[0]);
    var step := Step(info, events[0]);
    if step.Going? {
      StepKeepsBegun(info, events[0]);
    }
  }

  lemma {:induction false} RunDisciplined(info: ParseInfo, events: seq<Event>)
    requires Disciplined(info) && Delivered(events, |info.states| - 1, Begun(info)) && AllTyped(events)
    ensures var run := Run(info, events);
            && run != Crashed
            && (run.Going? ==> Disciplined(run.info) && |run.info.states| == |info.states| + Depth(events))
    decreases |events|
  {
    if events != [] {
      OneEvent(info, events);
      var step := Step(info, events[0]);
      if step.Going? {
        RunDisciplined(step.info, events[1..]);
      }
    }
  }

  /** Every event the parser accepts is typed. */
  predicate AcceptedTyped(info: ParseInfo, events: seq<Event>)
    decreases |events|
  {
    events == [] ||
    match Step(info, events[0])
    case Going(next) => Typed(events[0]) && AcceptedTyped(next, events[1..])
    case _ => true
  }

  /** The stacks are in step after every event the parser accepts. */
  predicate StaysDisciplined(info: ParseInfo, events: seq<Event>)
    decreases |events|
  {
    && Disciplined(info)
    && (events == [] ||
        match Step(info, events[0])
        case Going(next) => StaysDisciplined(next, events[1..])
        case _ => true)
  }

  /** The stacks stay in step over a whole run exactly when every accepted element carries its type. */
  lemma {:induction false} RunDisciplinedExactlyWhen(info: ParseInfo, events: seq<Event>)
    requires Disciplined(info) && Delivered(events, |info.states| - 1, Begun(info))
    ensures StaysDisciplined(info, events) <==> AcceptedTyped(info, events)
    ensures AcceptedTyped(info, events) ==> Run(info, events) != Crashed
    decreases |events|
  {
    if events != [] {
      assert CanFollow(info, events[0]) by {
        Outside(info.states);
      }
      StepDisciplinedExactlyWhen(info, events[0]);
      var step := Step(info, events[0]);
      if step.Going? && Typed(events[0]) {
        OneEvent(info, events);
        RunDisciplinedExactlyWhen(step.info, events[1..]);
      }
    }
  }

  /** States of elements that hold a value of their own. */
  function ValueStates(states: seq<State>): nat {
    if states == [] then 0
    else (if states[0] in {InDefault, InCar, InCdr, InLi} then 1 else 0) + ValueStates(states[1..])
  }

  lemma {:induction false} OwnersCounted(states: seq<State>)
    requires Grammatical(states)
    ensures |Owners(states, false)| == ValueStates(states)
    ensures |Owners(states, true)| == ValueStates(states) + if InEntry in states then 1 else 0
    decreases |states|
  {
    if |states| > 1 {
      OwnersCounted(states[1..]);
      PopGrammatical(states);
      if states[0] == InEntry {
        EntryAlone(states);
      }
    }
  }

  lemma {:induction false} SlotsCounted(values: seq<Item>)
    ensures |Slots(values)| == |values|
    decreases |values|
  {
    if values != [] {
      SlotsCounted(values[1..]);
    }
  }

  /**
   * Whatever a file holds, as long as its default, car, cdr and li elements carry a type, no assertion
   * in the handlers fires, and after every accepted prefix the value stack has one item for each open
   * default, car, cdr and li and one for an open entry with a value, the directory stack one for each
   * open directory and the root, and the state stack one state for each open element.
   */
  lemma {:induction false} StackDiscipline(name: string, allowSubdirs: bool, events: seq<Event>)
    requires Delivered(events, 0, false) && AllTyped(events)
    ensures var run := Run(Init(name, allowSubdirs), events);
            && run != Crashed
            && (run.Going? ==>
                  var info := run.info;
                  && |info.states| == 1 + Depth(events)
                  && |info.values| == ValueStates(info.states) + (if EntryHasValue(info) then 1 else 0)
                  && |info.dirStack| == (if info.root.Some? then 0 else OpenDirs(info.states) + 1))
  {
    RunDisciplined(Init(name, allowSubdirs), events);
    var run := Run(Init(name, allowSubdirs), events);
    if run.Going? {
      OwnersCounted(run.info.states);
      SlotsCounted(run.info.values);
    }
  }

  /** When the outermost element has ended, the file has been read in full and every stack is empty. */
  lemma {:induction false} FinishedRunsLeaveNothing(name: string, allowSubdirs: bool, events: seq<Event>)
    requires Delivered(events, 0, false) && AllTyped(events)
    requires Depth(events) == 0 && (exists e :: e in events && e.Start?)
    requires Run(Init(name, allowSubdirs), events).Going?
    ensures var info := Run(Init(name, allowSubdirs), events).info;
            && info.root.Some? && info.states == [InStart] && info.dirStack == [] && info.values == []
            && info.currentEntry == None && info.localSchemas == []
  {
    var start := Init(name, allowSubdirs);
    RunDisciplined(start, events);
    BegunForever(start, events);
    Outside(Run(start, events).info.states);
    SlotsCounted(Run(start, events).info.values);
  }

  lemma {:induction false} BegunForever(info: ParseInfo, events: seq<Event>)
    requires Disciplined(info) && Delivered(events, |info.states| - 1, Begun(info))
    requires AllTyped(events)
    requires Begun(info) || exists e :: e in events && e.Start?
    requires Run(info, events).Going?
    ensures Begun(Run(info, events).info)
    decreases |events|
  {
    if events != [] {
      OneEvent(info, events);
      var next := Step(info, events[0]).info;
      assert Begun(next) || exists e :: e in events[1..] && e.Start?;
      BegunForever(next, events[1..]);
    }
  }

  // ----- without a type -----

  /**
   * The type is needed: a default without one is accepted and then, whatever came before it, trips the
   * assertion at its end, since the value on top of the stack is still the entry's.
   */
  lemma {:induction false} UntypedDefaultCrashes(info: ParseInfo, attrs: Attrs)
    requires Disciplined(info) && info.states[0] == InLocalSchema && EntryHasValue(info)
    requires "type" !in attrs && attrs.Keys <= ValueAttrNames
    ensures Run(info, [Start("default", attrs), End("default")]) == Crashed
  {
    Outside(info.states);
    var start, end := Start("default", attrs), End("default");
    var inside := Push(info, InDefault);
    assert Step(info, start) == Going(inside);
    PopGrammatical(info.states);
    EntryAlone(info.states[1..]);
    TopSlot(info.values);
    assert Step(inside, end) == Crashed;
    assert [start, end][1..] == [end];
  }

  /** A car, cdr or li without a type takes its owner's value off the stack: the entry's next child trips. */
  lemma {:induction false} UntypedInnerLosesOwner(info: ParseInfo, element: string, attrs: Attrs, next: string,
                                                  more: Attrs)
    requires Disciplined(info) && info.states[0] == InEntry && EntryHasValue(info)
    requires element in {"car", "cdr", "li"} && "type" !in attrs && attrs.Keys <= ValueAttrNames
    ensures Run(info, [Start(element, attrs), End(element), Start(next, more)]) == Crashed
  {
    Outside(info.states);
    EntryAlone(info.states);
    TopSlot(info.values);
    SlotsCounted(info.values);
    var first, second, third := Start(element, attrs), End(element), Start(next, more);
    var inside := Push(info, if element == "li" then InLi else if element == "car" then InCar else InCdr);
    assert Step(info, first) == Going(inside);
    var after := Pop(PopValue(inside));
    assert Step(inside, second) == Going(after);
    assert after.values == [] && after.states == info.states && EntryHasValue(after);
    assert Step(after, third) == Crashed;
    assert [first, second, third][1..] == [second, third];
    assert [second, third][1..] == [third];
    assert Run(after, [third]) == Crashed;
    assert Run(inside, [second, third]) == Crashed;
  }
}
