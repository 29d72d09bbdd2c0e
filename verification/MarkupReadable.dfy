/**
 * When a file that was written can be parsed at all: exactly when every value in it is in a place the
 * file has a form for. The writer writes the others too, and the parser stops at the first of them.
 */
module MarkupReadable {
  import opened Options
  import opened Values
  import opened MarkupFiles
  import opened MarkupRoundTrip
  import opened MarkupParsed

  // ----- elements that are refused -----

  /** The same directories are open, and the same entry. */
  predicate SamePlace(info: ParseInfo, r: ParseInfo) {
    && r.dirStack == info.dirStack && r.root == info.root
    && (r.currentEntry.Some? <==> info.currentEntry.Some?)
    && (r.currentEntry.Some? ==> r.currentEntry.value.name == info.currentEntry.value.name)
  }

  /** The parser stops at one of these events, still in the same entry. */
  predicate Stops(info: ParseInfo, events: seq<Event>) {
    Run(info, events) == Failed && SamePlace(info, Reached(info, events))
  }

  lemma {:induction false} StopsAtOnce(info: ParseInfo, e: Event, rest: seq<Event>)
    requires Step(info, e) == Failed
    ensures Stops(info, [e] + rest)
  {
    assert ([e] + rest)[0] == e;
  }

  lemma {:induction false} StopsFirst(info: ParseInfo, a: seq<Event>, b: seq<Event>)
    requires Stops(info, a)
    ensures Stops(info, a + b)
  {
    RunAppend(info, a, b);
    ReachedAppend(info, a, b);
  }

  lemma {:induction false} StopsThen(info: ParseInfo, a: seq<Event>, next: ParseInfo, b: seq<Event>)
    requires Run(info, a) == Going(next) && SamePlace(info, next) && Stops(next, b)
    ensures Stops(info, a + b)
  {
    RunAppend(info, a, b);
    ReachedAppend(info, a, b);
  }

  /** An element that is refused at its start, or else further inside. */
  lemma {:induction false} ElementStops(info: ParseInfo, start: Event, inside: seq<Event>, end: Event)
    requires Step(info, start) == Failed ||
             (&& Step(info, start).Going? && SamePlace(info, Step(info, start).info)
              && Stops(Step(info, start).info, inside))
    ensures Stops(info, [start] + inside + [end])
  {
    RunOne(info, start);
    if Step(info, start) == Failed {
      StopsAtOnce(info, start, inside);
    } else {
      StopsThen(info, [start], Step(info, start).info, inside);
    }
    StopsFirst(info, [start] + inside, [end]);
  }

  // ----- values -----

  lemma LiFails(info: ParseInfo, t: ValueType, done: seq<Value>, v: Value)
    requires AtOuter(info) && info.values[0].value == ListValue(t, done) && PlainType(t)
    requires !(WritablePrimitive(v) && TypeOf(v) == t)
    ensures Step(info, Start("li", ValueAttrs(v))) == Failed
  {
    OwnAttrsParse(v);
    LiElement(info, ValueAttrs(v));
  }

  lemma {:induction false} ElemsFail(info: ParseInfo, t: ValueType, done: seq<Value>, elems: seq<Value>)
    requires AtOuter(info) && info.values[0].value == ListValue(t, done)
    requires PlainType(t) && !forall e :: e in elems ==> WritablePrimitive(e) && TypeOf(e) == t
    ensures Stops(info, WriteElems(elems))
    decreases |elems|
  {
    var v, done' := elems[0], done + [NormalPrimitive(elems[0])];
    if WritablePrimitive(v) && TypeOf(v) == t {
      ReadLi(info, t, done, v);
      ElemsFail(WithTop(info, ListValue(t, done')), t, done', elems[1..]);
      StopsThen(info, WriteValue("li", v), WithTop(info, ListValue(t, done')), WriteElems(elems[1..]));
    } else {
      LiFails(info, t, done, v);
      ElementStops(info, Start("li", ValueAttrs(v)), ValueChildren(v), End("li"));
      StopsFirst(info, WriteValue("li", v), WriteElems(elems[1..]));
    }
  }

  /** What has elements of its own starts with one that a car or cdr element has no place for. */
  lemma {:induction false} FirstChild(v: Value) returns (start: Event, rest: seq<Event>)
    requires (v.ListValue? && v.elems != []) || (v.PairValue? && (v.car.Some? || v.cdr.Some?))
    ensures start.Start? && start.element in {"li", "car", "cdr"} && ValueChildren(v) == [start] + rest
  {
    var element := if v.ListValue? then "li" else if v.car.Some? then "car" else "cdr";
    var first := if v.ListValue? then v.elems[0] else if v.car.Some? then v.car.value else v.cdr.value;
    start := Start(element, ValueAttrs(first));
    assert WriteValue(element, first)[0] == start;
    assert WriteValue(element, first) <= ValueChildren(v);
    rest := ValueChildren(v)[1..];
  }

  lemma NoPlaceInside(info: ParseInfo, child: Event)
    requires info.states != [] && info.states[0] in {InCar, InCdr}
    requires child.Start? && child.element in {"li", "car", "cdr"}
    ensures Step(info, child) == Failed
  {
  }

  lemma {:induction false} HalfFails(info: ParseInfo, isCar: bool, other: Option<Value>, v: Value)
    requires AtOuter(info) && !WritableHalf(v)
    requires info.values[0].value == if isCar then PairValue(None, other) else PairValue(other, None)
    ensures Stops(info, WriteValue(if isCar then "car" else "cdr", v))
  {
    var element := if isCar then "car" else "cdr";
    var start := Start(element, ValueAttrs(v));
    OwnAttrsParse(v);
    HalfElement(info, isCar, ValueAttrs(v));
    if Opens(v) {
      HalfStarts(info, isCar, other, v);
      var child, rest := FirstChild(v);
      var inner := Step(info, start).info;
      NoPlaceInside(inner, child);
      StopsAtOnce(inner, child, rest);
    }
    ElementStops(info, start, ValueChildren(v), End(element));
  }

  lemma {:induction false} PairFails(info: ParseInfo, car: Option<Value>, cdr: Option<Value>)
    requires AtOuter(info) && info.values[0].value == PairValue(None, None)
    requires !WritableValue(PairValue(car, cdr))
    ensures Stops(info, ValueChildren(PairValue(car, cdr)))
  {
    var first := if car.Some? then WriteValue("car", car.value) else [];
    var second := if cdr.Some? then WriteValue("cdr", cdr.value) else [];
    assert [info.values[0]] + info.values[1..] == info.values;
    if car.Some? && !WritableHalf(car.value) {
      HalfFails(info, true, None, car.value);
      StopsFirst(info, first, second);
    } else {
      if car.Some? {
        ReadCar(info, None, car.value);
      }
      var next := WithTop(info, PairValue(NormalOption(car), None));
      assert Run(info, first) == Going(next);
      HalfFails(next, false, NormalOption(car), cdr.value);
      StopsThen(info, first, next, second);
    }
  }

  lemma {:induction false} ValueFails(info: ParseInfo, v: Value)
    requires AtOuter(info) && info.values[0].value == Opened(v) && Opens(v) && !WritableValue(v)
    ensures Stops(info, ValueChildren(v))
  {
    match v
    case ListValue(t, elems) => ElemsFail(info, t, [], elems);
    case PairValue(car, cdr) => PairFails(info, car, cdr);
  }

  // ----- local schemas -----

  lemma {:induction false} DefaultFails(info: ParseInfo, v: Value)
    requires AtLocalSchema(info) && info.localSchemas[0].defaultValue == None && !WritableValue(v)
    ensures Stops(info, WriteValue("default", v))
  {
    var start := Start("default", ValueAttrs(v));
    OwnAttrsParse(v);
    assert Step(info, start) == StartLocalSchemaChild(info, "default", ValueAttrs(v));
    if Opens(v) {
      DefaultStarts(info, v);
      ValueFails(InsideDefault(info, Opened(v)), v);
    }
    ElementStops(info, start, ValueChildren(v), End("default"));
  }

  lemma {:induction false} LocalSchemaFails(info: ParseInfo, ls: LocalSchema, subtree: bool)
    requires AtSchemaEntry(info) && !WritableDefault(ls)
    ensures Stops(info, WriteLocalSchema(ls, subtree))
  {
    LocalSchemaStarts(info, ls, subtree);
    var inner := Push(info, InLocalSchema).(localSchemas := [Bare(ls, subtree)] + info.localSchemas);
    DefaultFails(inner, ls.defaultValue.value);
    StopsFirst(inner, DefaultEvents(ls), DescEvents(ls, subtree));
    ElementStops(info, Start("local_schema", LocalSchemaAttrs(ls, subtree)),
                 DefaultEvents(ls) + DescEvents(ls, subtree), End("local_schema"));
  }

  lemma {:induction false} LocalSchemasFail(info: ParseInfo, lss: seq<LocalSchema>, subtree: bool)
    requires AtSchemaEntry(info) && !AllWritable(lss)
    ensures Stops(info, WriteLocalSchemas(lss, subtree))
    decreases |lss|
  {
    var ls, rest := lss[0], WriteLocalSchemas(lss[1..], subtree);
    if !WritableDefault(ls) {
      LocalSchemaFails(info, ls, subtree);
      StopsFirst(info, WriteLocalSchema(ls, subtree), rest);
    } else if WritesDescs(ls, subtree) || ls.defaultValue.Some? {
      ReadLocalSchema(info, ls, subtree);
      var next := info.(localSchemas := [NormalLocalSchema(ls, subtree)] + info.localSchemas);
      LocalSchemasFail(next, lss[1..], subtree);
      StopsThen(info, WriteLocalSchema(ls, subtree), next, rest);
    } else {
      LocalSchemasFail(info, lss[1..], subtree);
      assert WriteLocalSchemas(lss, subtree) == [] + rest == rest;
    }
  }

  // ----- entries and directories -----

  lemma {:induction false} EntryFails(info: ParseInfo, e: FileEntry, subtree: bool)
    requires AtDir(info) && !WritableEntry(e)
    ensures Run(info, WriteEntry(e, subtree)) == Failed
    ensures var r := Reached(info, WriteEntry(e, subtree));
            r == info || (r.dirStack == info.dirStack && r.root == info.root && InEntryNamed(r, e.name))
  {
    var start, children, end := Start("entry", EntryAttrs(e)), EntryChildren(e, subtree), [End("entry")];
    assert WriteEntry(e, subtree) == [start] + (children + end);
    RunOne(info, start);
    RunAppend(info, [start], children + end);
    ReachedAppend(info, [start], children + end);
    if Opens(e.value.value) {
      EntryStarts(info, e);
      ChildrenFail(Step(info, start).info, e, subtree);
      StopsFirst(Step(info, start).info, children, end);
    } else {
      EntryElement(info, EntryAttrs(e));
      EntryAttrsRead(e);
      EntryValueParses(e);
    }
  }

  lemma {:induction false} ChildrenFail(inner: ParseInfo, e: FileEntry, subtree: bool)
    requires !WritableEntry(e) && Opens(e.value.value) && inner.states != [] && inner.states[0] == InEntry
    requires inner.currentEntry == Some(OpenedEntry(e)) && inner.values == [Item(Opened(e.value.value), EntrySlot)]
    ensures Stops(inner, EntryChildren(e, subtree))
  {
    if e.value.value.SchemaValue? {
      LocalSchemasFail(inner, e.localSchemas, subtree);
    } else {
      ValueFails(inner, e.value.value);
    }
  }

  predicate InEntryNamed(info: ParseInfo, name: string) {
    info.currentEntry.Some? && info.currentEntry.value.name == name
  }

  predicate WritableEntries(es: seq<FileEntry>) {
    forall e :: e in es ==> WritableEntry(e)
  }

  /** The entries up to the first that cannot be read are in the directory by then. */
  predicate StoppedAt(info: ParseInfo, es: seq<FileEntry>, j: nat, subtree: bool, r: ParseInfo)
    requires info.dirStack != [] && j < |es|
  {
    var d := info.dirStack[0];
    && r.dirStack == [d.(entries := Onto(d.entries, NormalEntries(es[..j], subtree)))] + info.dirStack[1..]
    && r.root == info.root && (AtDir(r) || InEntryNamed(r, es[j].name))
  }

  lemma {:induction false} EntriesFail(info: ParseInfo, es: seq<FileEntry>, subtree: bool) returns (j: nat)
    requires AtDir(info) && !WritableEntries(es)
    ensures Run(info, WriteEntries(es, subtree)) == Failed
    ensures j < |es| && WritableEntries(es[..j]) && !WritableEntry(es[j])
    ensures StoppedAt(info, es, j, subtree, Reached(info, WriteEntries(es, subtree)))
    decreases |es|
  {
    if WritableEntry(es[0]) {
      var d := info.dirStack[0];
      var next := WithDir(info, d.(entries := [NormalEntry(es[0], subtree)] + d.entries));
      var k := EntriesFail(next, es[1..], subtree);
      j := k + 1;
      StoppedFurtherOn(info, es, k, subtree, Reached(next, WriteEntries(es[1..], subtree)));
      ReadOnFrom(info, es, subtree, next);
    } else {
      StoppedAtFirst(info, es, subtree);
      j := 0;
    }
  }

  lemma {:induction false} ReadOnFrom(info: ParseInfo, es: seq<FileEntry>, subtree: bool, next: ParseInfo)
    requires AtDir(info) && es != [] && WritableEntry(es[0])
    requires var d := info.dirStack[0]; next == WithDir(info, d.(entries := [NormalEntry(es[0], subtree)] + d.entries))
    ensures Run(info, WriteEntries(es, subtree)) == Run(next, WriteEntries(es[1..], subtree))
    ensures Reached(info, WriteEntries(es, subtree)) == Reached(next, WriteEntries(es[1..], subtree))
  {
    ReadEntry(info, es[0], subtree);
    RunAppend(info, WriteEntry(es[0], subtree), WriteEntries(es[1..], subtree));
    ReachedAppend(info, WriteEntry(es[0], subtree), WriteEntries(es[1..], subtree));
  }

  lemma {:induction false} StoppedAtFirst(info: ParseInfo, es: seq<FileEntry>, subtree: bool)
    requires AtDir(info) && es != [] && !WritableEntry(es[0])
    ensures Run(info, WriteEntries(es, subtree)) == Failed && WritableEntries(es[..0])
    ensures StoppedAt(info, es, 0, subtree, Reached(info, WriteEntries(es, subtree)))
  {
    EntryFails(info, es[0], subtree);
    RunAppend(info, WriteEntry(es[0], subtree), WriteEntries(es[1..], subtree));
    ReachedAppend(info, WriteEntry(es[0], subtree), WriteEntries(es[1..], subtree));
    NothingReadYet(info, es, subtree, Reached(info, WriteEntry(es[0], subtree)));
  }

  lemma {:induction false} NothingReadYet(info: ParseInfo, es: seq<FileEntry>, subtree: bool, r: ParseInfo)
    requires AtDir(info) && es != []
    requires r == info || (r.dirStack == info.dirStack && r.root == info.root && InEntryNamed(r, es[0].name))
    ensures StoppedAt(info, es, 0, subtree, r) && WritableEntries(es[..0])
  {
    assert es[..0] == [] && [info.dirStack[0]] + info.dirStack[1..] == info.dirStack;
  }

  lemma {:induction false} StoppedFurtherOn(info: ParseInfo, es: seq<FileEntry>, k: nat, subtree: bool, r: ParseInfo)
    requires info.dirStack != [] && k + 1 < |es|
    requires var d := info.dirStack[0];
             StoppedAt(WithDir(info, d.(entries := [NormalEntry(es[0], subtree)] + d.entries)), es[1..], k, subtree, r)
    ensures StoppedAt(info, es, k + 1, subtree, r)
    ensures WritableEntries(es[..k + 1]) <==> WritableEntry(es[0]) && WritableEntries(es[1..][..k])
  {
    OneMoreRead(es, k, subtree, info.dirStack[0].entries);
  }

  lemma {:induction false} OneMoreRead(es: seq<FileEntry>, k: nat, subtree: bool, acc: seq<FileEntry>)
    requires k + 1 < |es|
    ensures WritableEntries(es[..k + 1]) <==> WritableEntry(es[0]) && WritableEntries(es[1..][..k])
    ensures Onto(acc, NormalEntries(es[..k + 1], subtree)) ==
            Onto([NormalEntry(es[0], subtree)] + acc, NormalEntries(es[1..][..k], subtree))
  {
    var front, more := es[..k + 1], es[1..][..k];
    assert front[0] == es[0] && front[1..] == more && front == [es[0]] + more;
    var rest := NormalEntries(more, subtree);
    assert ([NormalEntry(es[0], subtree)] + rest)[1..] == rest;
  }

  lemma {:induction false} BodyFails(inner: ParseInfo, d: DirTree, withSubdirs: bool, subtree: bool)
    requires AtDir(inner) && (withSubdirs ==> inner.allowSubdirs)
    requires if withSubdirs then !WritableDir(d) else !WritableEntries(d.entries)
    ensures Run(inner, WriteEntries(d.entries, subtree) + if withSubdirs then WriteDirs(d.subdirs, subtree) else [])
            == Failed
    decreases d, 1
  {
    RunAppend(inner, WriteEntries(d.entries, subtree), if withSubdirs then WriteDirs(d.subdirs, subtree) else []);
    if WritableEntries(d.entries) {
      var top := inner.dirStack[0];
      ReadEntries(inner, d.entries, subtree);
      var read := top.(entries := Onto(top.entries, NormalEntries(d.entries, subtree)));
      DirsFail(WithDir(inner, read), d.subdirs, subtree);
    } else {
      var j := EntriesFail(inner, d.entries, subtree);
    }
  }

  lemma {:induction false} FailsInside(info: ParseInfo, start: Event, inner: ParseInfo, inside: seq<Event>, end: Event)
    requires Step(info, start) == Going(inner) && Run(inner, inside) == Failed
    ensures Run(info, [start] + inside + [end]) == Failed
  {
    RunAppend(info, [start] + inside, [end]);
    RunAppend(info, [start], inside);
    RunOne(info, start);
  }

  lemma {:induction false} DirFails(info: ParseInfo, d: DirTree, subtree: bool)
    requires AtDir(info) && info.allowSubdirs && !WritableDir(d)
    ensures Run(info, WriteDir(d, subtree)) == Failed
    decreases d, 2
  {
    var start := Start("dir", map["name" := d.name]);
    var inner := Push(info, InDir).(dirStack := [DirTree(d.name, [], [])] + info.dirStack);
    assert Step(info, start) == Going(inner);
    BodyFails(inner, d, true, subtree);
    FailsInside(info, start, inner, WriteEntries(d.entries, subtree) + WriteDirs(d.subdirs, subtree), End("dir"));
  }

  lemma {:induction false} DirsFail(info: ParseInfo, ds: seq<DirTree>, subtree: bool)
    requires AtDir(info) && info.allowSubdirs && !forall d :: d in ds ==> WritableDir(d)
    ensures Run(info, WriteDirs(ds, subtree)) == Failed
    decreases ds, 0
  {
    RunAppend(info, WriteDir(ds[0], subtree), WriteDirs(ds[1..], subtree));
    if WritableDir(ds[0]) {
      var top := info.dirStack[0];
      ReadDir(info, ds[0], subtree);
      DirsFail(WithDir(info, top.(subdirs := [NormalDir(ds[0], subtree)] + top.subdirs)), ds[1..], subtree);
    } else {
      DirFails(info, ds[0], subtree);
    }
  }

  // ----- the file as a whole -----

  lemma {:induction false} FileFails(root: DirTree, subtree: bool)
    requires if subtree then !WritableDir(root) else !WritableEntries(root.entries)
    ensures Load(root.name, WriteFile(root, subtree), subtree) == None
  {
    var info, start := Init(root.name, subtree), Start("gconf", map[]);
    var inner := Push(info, InGconf);
    assert Step(info, start) == Going(inner);
    BodyFails(inner, root, subtree, subtree);
    var body := WriteEntries(root.entries, subtree) + if subtree then WriteDirs(root.subdirs, subtree) else [];
    FailsInside(info, start, inner, body, End("gconf"));
  }

  /**
   * A subtree that was written to one file can be read again exactly when every value in it can be
   * written: one that cannot costs all of the file, wherever it stands.
   */
  lemma {:induction false} SubtreeLoadsExactlyWhen(root: DirTree)
    ensures Load(root.name, WriteFile(root, true), true).Some? <==> WritableDir(root)
  {
    if WritableDir(root) {
      LoadSaved(root, true);
    } else {
      FileFails(root, true);
    }
  }

  /** The same for a directory with a file of its own, whatever its subdirectories hold. */
  lemma {:induction false} DirLoadsExactlyWhen(root: DirTree)
    ensures Load(root.name, WriteFile(root, false), false).Some? <==> forall e :: e in root.entries ==> WritableEntry(e)
  {
    if WritableEntries(root.entries) {
      var flat := root.(subdirs := []);
      assert WriteFile(root, false) == WriteFile(flat, false);
      LoadSaved(flat, false);
    } else {
      FileFails(root, false);
    }
  }

  /**
   * What is left of a directory whose file cannot be read: the entries in front of the first that cannot
   * be read, and of that one at most what was read of its value, in front of the others.
   */
  lemma {:induction false} FilledToTheFirst(es: seq<FileEntry>) returns (j: nat, last: Option<FileEntry>)
    requires !WritableEntries(es)
    ensures j < |es| && WritableEntries(es[..j]) && !WritableEntry(es[j])
    ensures Filled("", WriteFile(DirTree("", es, []), false)).entries ==
            (if last.Some? then [last.value] else []) + Onto([], NormalEntries(es[..j], false))
    ensures last.Some? ==> last.value.name == es[j].name && KeptEntry(last.value) && last.value.localSchemas == []
  {
    var inner := Push(Init("", false), InGconf);
    j := EntriesFail(inner, es, false);
    ReachedInFile(es, inner);
    InitFits("", false);
    ReachedFits(Init("", false), WriteFile(DirTree("", es, []), false));
    last := LastIsUnfinished(inner, es, j, Reached(inner, WriteEntries(es, false)));
    FilledWhereReached(WriteFile(DirTree("", es, []), false), Reached(inner, WriteEntries(es, false)));
  }

  lemma {:induction false} LastIsUnfinished(inner: ParseInfo, es: seq<FileEntry>, j: nat, r: ParseInfo)
    returns (last: Option<FileEntry>)
    requires inner == Push(Init("", false), InGconf) && j < |es| && StoppedAt(inner, es, j, false, r) && Fits(r)
    ensures r.root == None && r.dirStack == [DirTree("", Onto([], NormalEntries(es[..j], false)), [])]
    ensures last == Unfinished(r)
    ensures last.Some? ==> last.value.name == es[j].name && KeptEntry(last.value) && last.value.localSchemas == []
  {
    last := Unfinished(r);
    UnfinishedNamed(r);
    UnfinishedIsKept(r);
    assert inner.dirStack[0] == DirTree("", [], []) && inner.dirStack[1..] == [];
  }

  lemma {:induction false} FilledWhereReached(file: seq<Event>, r: ParseInfo)
    requires file != [] && r == Reached(Init("", false), file) && r.root == None && |r.dirStack| == 1
    ensures Filled("", file).entries ==
            (if Unfinished(r).Some? then [Unfinished(r).value] else []) + r.dirStack[0].entries
  {
  }

  lemma {:induction false} ReachedInFile(es: seq<FileEntry>, inner: ParseInfo)
    requires inner == Push(Init("", false), InGconf) && es != [] && Run(inner, WriteEntries(es, false)) == Failed
    ensures Reached(Init("", false), WriteFile(DirTree("", es, []), false)) == Reached(inner, WriteEntries(es, false))
  {
    var info, start, end := Init("", false), [Start("gconf", map[])], [End("gconf")];
    RunOne(info, start[0]);
    assert WriteFile(DirTree("", es, []), false) == start + (WriteEntries(es, false) + end);
    ReachedAppend(info, start, WriteEntries(es, false) + end);
    ReachedAppend(inner, WriteEntries(es, false), end);
  }

  lemma {:induction false} UnfinishedNamed(info: ParseInfo)
    ensures AtDir(info) ==> Unfinished(info) == None
    ensures Unfinished(info).Some? && info.currentEntry.Some? ==>
              Unfinished(info).value.name == info.currentEntry.value.name
    decreases |info.states|
  {
    if info.states != [] && info.states[0] !in {InStart, InGconf, InDir, InEntry} {
      UnfinishedNamed(Outward(info));
    }
  }

  /** One pair with a list for its car, and none of the file's entries can be read any more. */
  lemma {:induction false} UnwritableCostsTheFile(e: FileEntry, es: seq<FileEntry>, v: Value)
    requires e.value == Some(PairValue(Some(ListValue(IntType, [v])), None)) && e in es
    ensures Load("", WriteFile(DirTree("", es, []), false), false) == None
  {
    DirLoadsExactlyWhen(DirTree("", es, []));
    assert !WritableHalf(e.value.value.car.value);
  }
}
