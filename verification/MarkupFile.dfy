/**
 * The markup backend's data file as the events an XML reader delivers: the writer that produces them
 * and the event-driven parser with its three stacks. A value under construction is kept on the value
 * stack and put into its owner when it is popped, a directory into its parent likewise.
 */
module MarkupFiles {
  import opened Options
  import opened Values
  import opened Decimal
  import opened Words

  type Attrs = map<string, string>

  datatype Event = Start(element: string, attrs: Attrs) | Text(text: string) | End(element: string)

  datatype LocalSchema = LocalSchema(
    locale: string, shortDesc: Option<string>, longDesc: Option<string>, defaultValue: Option<Value>)

  /** A GTime. */
  type Time = t: int | IsInt32(t)

  datatype FileEntry = FileEntry(
    name: string, value: Option<Value>, localSchemas: seq<LocalSchema>,
    schemaName: Option<string>, modUser: Option<string>, modTime: Time)

  datatype DirTree = DirTree(name: string, entries: seq<FileEntry>, subdirs: seq<DirTree>)

  // ----- times and blank text -----

  /** A 32-bit time printed as an unsigned long of 64 bits. */
  function TimeText(time: Time): string {
    NatText(time % TWO_64)
  }

  /** gconf_string_to_gulong, narrowed to a 32-bit time. */
  function TimeFromString(s: string): Time {
    var n := Atoi(s);
    if LeadingDigits(AfterSign(s)) == "" || n >= TWO_64 || n <= -TWO_64 then 0 else Narrow(n)
  }

  /** What the parser takes for no text at all. */
  predicate AllWhitespace(s: string) {
    forall i :: 0 <= i < |s| ==> s[i] == ' ' || s[i] == '\t' || s[i] == '\n' || s[i] == '\r'
  }

  // ----- the writer -----

  function OptAttr(name: string, value: Option<string>): Attrs {
    match value
    case None => map[]
    case Some(v) => map[name := v]
  }

  function TypeAttr(name: string, t: ValueType): Attrs {
    if t == InvalidType then map[] else map[name := TypeName(t)]
  }

  /** The attributes write_value_element adds to the element that carries the value. */
  function ValueAttrs(v: Value): Attrs {
    map["type" := TypeName(TypeOf(v))] +
    match v
    case IntValue(i) => map["value" := IntText(i)]
    case BoolValue(b) => map["value" := BoolName(b)]
    case StringValue(_) => map[]
    case ListValue(t, _) => map["ltype" := TypeName(t)]
    case PairValue(_, _) => map[]
    case SchemaValue(sc) => map["stype" := TypeName(sc.kind)] + OptAttr("owner", sc.owner) + PartTypeAttrs(sc)
  }

  function PartTypeAttrs(sc: Schema): Attrs {
    if sc.kind == ListType then TypeAttr("list_type", sc.listType)
    else if sc.kind == PairType then TypeAttr("car_type", sc.carType) + TypeAttr("cdr_type", sc.cdrType)
    else map[]
  }

  function TextEvent(s: string): seq<Event> {
    if s == "" then [] else [Text(s)]
  }

  /** An element that carries a value and no local schemas: li, car, cdr or default. */
  function WriteValue(element: string, v: Value): seq<Event>
    decreases v, 2
  {
    [Start(element, ValueAttrs(v))] + ValueChildren(v) + [End(element)]
  }

  function ValueChildren(v: Value): seq<Event>
    decreases v, 1
  {
    match v
    case StringValue(s) => [Start("stringvalue", map[])] + TextEvent(s) + [End("stringvalue")]
    case ListValue(_, elems) => WriteElems(elems)
    case PairValue(car, cdr) =>
      (if car.Some? then WriteValue("car", car.value) else [])
      + (if cdr.Some? then WriteValue("cdr", cdr.value) else [])
    case _ => []
  }

  function WriteElems(elems: seq<Value>): seq<Event>
    decreases elems, 0
  {
    if elems == [] then [] else WriteValue("li", elems[0]) + WriteElems(elems[1..])
  }

  /** In a file for a whole subtree, descriptions for other locales than C are kept elsewhere. */
  predicate WritesDescs(ls: LocalSchema, subtree: bool) {
    !subtree || ls.locale == "C"
  }

  function WriteLocalSchema(ls: LocalSchema, subtree: bool): seq<Event> {
    if !WritesDescs(ls, subtree) && ls.defaultValue == None then []
    else
      [Start("local_schema", LocalSchemaAttrs(ls, subtree))]
      + (DefaultEvents(ls) + DescEvents(ls, subtree))
      + [End("local_schema")]
  }

  function LocalSchemaAttrs(ls: LocalSchema, subtree: bool): Attrs {
    map["locale" := ls.locale] + if WritesDescs(ls, subtree) then OptAttr("short_desc", ls.shortDesc) else map[]
  }

  function DefaultEvents(ls: LocalSchema): seq<Event> {
    if ls.defaultValue.Some? then WriteValue("default", ls.defaultValue.value) else []
  }

  function DescEvents(ls: LocalSchema, subtree: bool): seq<Event> {
    if WritesDescs(ls, subtree) && ls.longDesc.Some?
    then [Start("longdesc", map[])] + TextEvent(ls.longDesc.value) + [End("longdesc")] else []
  }

  function WriteLocalSchemas(lss: seq<LocalSchema>, subtree: bool): seq<Event> {
    if lss == [] then [] else WriteLocalSchema(lss[0], subtree) + WriteLocalSchemas(lss[1..], subtree)
  }

  function EntryHead(e: FileEntry): Attrs {
    map["name" := e.name, "mtime" := TimeText(e.modTime)]
    + OptAttr("schema", e.schemaName) + OptAttr("muser", e.modUser)
  }

  function EntryAttrs(e: FileEntry): Attrs {
    EntryHead(e) + if e.value.Some? then ValueAttrs(e.value.value) else map[]
  }

  function EntryChildren(e: FileEntry, subtree: bool): seq<Event> {
    match e.value
    case None => []
    case Some(v) => if v.SchemaValue? then WriteLocalSchemas(e.localSchemas, subtree) else ValueChildren(v)
  }

  function WriteEntry(e: FileEntry, subtree: bool): seq<Event> {
    [Start("entry", EntryAttrs(e))] + EntryChildren(e, subtree) + [End("entry")]
  }

  function WriteEntries(es: seq<FileEntry>, subtree: bool): seq<Event> {
    if es == [] then [] else WriteEntry(es[0], subtree) + WriteEntries(es[1..], subtree)
  }

  function WriteDir(d: DirTree, subtree: bool): seq<Event>
    decreases d, 1
  {
    [Start("dir", map["name" := d.name])] + (WriteEntries(d.entries, subtree) + WriteDirs(d.subdirs, subtree))
    + [End("dir")]
  }

  function WriteDirs(ds: seq<DirTree>, subtree: bool): seq<Event>
    decreases ds, 0
  {
    if ds == [] then [] else WriteDir(ds[0], subtree) + WriteDirs(ds[1..], subtree)
  }

  /** save_tree_with_locale for the main file: an empty file when there is nothing to write. */
  function WriteFile(root: DirTree, subtree: bool): seq<Event> {
    if root.entries == [] && (!subtree || root.subdirs == []) then []
    else
      [Start("gconf", map[])]
      + (WriteEntries(root.entries, subtree) + if subtree then WriteDirs(root.subdirs, subtree) else [])
      + [End("gconf")]
  }

  // ----- the parser -----

  datatype State =
    | InStart | InGconf | InDir | InEntry | InStringValue | InLongDesc
    | InLocalSchema | InDefault | InCar | InCdr | InLi

  /** Which owner holds the pointer to a value on the stack. */
  datatype Slot = EntrySlot | DefaultSlot | CarSlot | CdrSlot | LiSlot

  datatype Item = Item(value: Value, slot: Slot)

  /** The parser's state; the head of each stack comes first. root is the finished directory. */
  datatype ParseInfo = ParseInfo(
    states: seq<State>,
    dirStack: seq<DirTree>,
    currentEntry: Option<FileEntry>,
    values: seq<Item>,
    localSchemas: seq<LocalSchema>,
    allowSubdirs: bool,
    root: Option<DirTree>)

  /** Failed is a parse error; Crashed is a failed assertion or a null pointer. */
  datatype Outcome = Going(info: ParseInfo) | Failed | Crashed

  datatype ParsedValue = Parsed(value: Value) | NoType | BadValue

  function Push(info: ParseInfo, s: State): ParseInfo {
    info.(states := [s] + info.states)
  }

  function Pop(info: ParseInfo): ParseInfo {
    if info.states == [] then info else info.(states := info.states[1..])
  }

  function Attr(attrs: Attrs, name: string): Option<string> {
    if name in attrs then Some(attrs[name]) else None
  }

  function TypeOfAttr(attrs: Attrs, name: string): ValueType {
    if name in attrs then TypeFromName(attrs[name]) else InvalidType
  }

  predicate Compound(t: ValueType) {
    t == ListType || t == PairType || t == SchemaType
  }

  const ValueAttrNames: set<string> :=
    {"value", "type", "stype", "ltype", "list_type", "car_type", "cdr_type", "owner",
     "name", "muser", "mtime", "schema"}

  /** parse_value_element. */
  function ParseValue(attrs: Attrs): ParsedValue {
    if !(attrs.Keys <= ValueAttrNames) then BadValue
    else if "type" !in attrs then NoType
    else
      match TypeFromName(attrs["type"])
      case InvalidType => BadValue
      case StringType => Parsed(StringValue(""))
      case ListType =>
        if "ltype" !in attrs then BadValue
        else
          var t := TypeFromName(attrs["ltype"]);
          if t == InvalidType || Compound(t) then BadValue else Parsed(ListValue(t, []))
      case PairType => Parsed(PairValue(None, None))
      case IntType =>
        if "value" !in attrs then BadValue
        else (match IntFromString(attrs["value"])
              case None => BadValue
              case Some(i) => Parsed(IntValue(i)))
      case BoolType =>
        if "value" !in attrs || (attrs["value"] != "true" && attrs["value"] != "false") then BadValue
        else Parsed(BoolValue(attrs["value"] == "true"))
      case FloatType => BadValue
      case SchemaType => ParseSchemaAttrs(attrs)
  }

  function ParseSchemaAttrs(attrs: Attrs): ParsedValue {
    if "stype" !in attrs then BadValue
    else
      var kind := TypeFromName(attrs["stype"]);
      var carType := if kind == PairType then TypeOfAttr(attrs, "car_type") else InvalidType;
      var cdrType := if kind == PairType then TypeOfAttr(attrs, "cdr_type") else InvalidType;
      var listType := if kind == ListType then TypeOfAttr(attrs, "list_type") else InvalidType;
      if Compound(carType) || Compound(cdrType) || Compound(listType) then BadValue
      else Parsed(SchemaValue(Schema(kind, listType, carType, cdrType, Attr(attrs, "owner"), None, None, None, None)))
  }

  /** parse_entry_element. */
  function StartEntry(info: ParseInfo, attrs: Attrs): Outcome {
    if info.currentEntry.Some? || info.dirStack == [] then Crashed
    else if !(attrs.Keys <= ValueAttrNames) || "name" !in attrs then Failed
    else
      var parsed := ParseValue(attrs);
      if parsed == BadValue then Failed
      else
        var value := if parsed.Parsed? then Some(parsed.value) else None;
        var entry := FileEntry(attrs["name"], value, [], Attr(attrs, "schema"), Attr(attrs, "muser"),
                               if "mtime" in attrs then TimeFromString(attrs["mtime"]) else 0);
        Going(Push(info, InEntry).(
          currentEntry := Some(entry),
          values := (if value.Some? then [Item(value.value, EntrySlot)] else []) + info.values))
  }

  /** parse_dir_element. */
  function StartDir(info: ParseInfo, attrs: Attrs): Outcome {
    if info.dirStack == [] then Crashed
    else if !(attrs.Keys <= {"name"}) || "name" !in attrs then Failed
    else Going(Push(info, InDir).(dirStack := [DirTree(attrs["name"], [], [])] + info.dirStack))
  }

  /** parse_local_schema_element. */
  function StartLocalSchema(info: ParseInfo, attrs: Attrs): Outcome {
    if info.currentEntry == None || info.currentEntry.value.value == None
       || !info.currentEntry.value.value.value.SchemaValue? then Failed
    else if !(attrs.Keys <= {"locale", "short_desc"}) || "locale" !in attrs then Failed
    else
      Going(Push(info, InLocalSchema).(
        localSchemas := [LocalSchema(attrs["locale"], Attr(attrs, "short_desc"), None, None)] + info.localSchemas))
  }

  /** parse_local_schema_child_element. */
  function StartLocalSchemaChild(info: ParseInfo, element: string, attrs: Attrs): Outcome {
    if info.localSchemas == [] then Crashed
    else
      var ls := info.localSchemas[0];
      if element == "default" then
        match ParseValue(attrs)
        case BadValue => Failed
        case NoType => Going(Push(info, InDefault))
        case Parsed(v) =>
          if ls.defaultValue.Some? then Failed
          else Going(Push(info, InDefault).(
                 localSchemas := [ls.(defaultValue := Some(v))] + info.localSchemas[1..],
                 values := [Item(v, DefaultSlot)] + info.values))
      else if element == "longdesc" then
        if ls.longDesc.Some? then Failed else Going(Push(info, InLongDesc))
      else Failed
  }

  /** parse_car_or_cdr_element. */
  function StartCarOrCdr(info: ParseInfo, isCar: bool, attrs: Attrs): Outcome {
    var pushed := Push(info, if isCar then InCar else InCdr);
    match ParseValue(attrs)
    case BadValue => Failed
    case NoType => Going(pushed)
    case Parsed(v) =>
      if info.values == [] then Crashed
      else
        var pair := info.values[0].value;
        if !pair.PairValue? || (if isCar then pair.car else pair.cdr).Some? then Failed
        else
          var pair' := if isCar then PairValue(Some(v), pair.cdr) else PairValue(pair.car, Some(v));
          Going(pushed.(values := [Item(v, if isCar then CarSlot else CdrSlot),
                                   info.values[0].(value := pair')] + info.values[1..]))
  }

  /** parse_li_element. */
  function StartLi(info: ParseInfo, attrs: Attrs): Outcome {
    var pushed := Push(info, InLi);
    match ParseValue(attrs)
    case BadValue => Failed
    case NoType => Going(pushed)
    case Parsed(v) =>
      if info.values == [] then Crashed
      else
        var list := info.values[0].value;
        if !list.ListValue? || TypeOf(v) != list.elemType then Failed
        else Going(pushed.(values := [Item(v, LiSlot),
                                      info.values[0].(value := ListValue(list.elemType, list.elems + [v]))]
                                     + info.values[1..]))
  }

  /** parse_value_child_element. */
  function StartValueChild(info: ParseInfo, element: string, attrs: Attrs): Outcome
    requires info.states != []
  {
    var state := info.states[0];
    if state == InEntry && info.currentEntry == None then Crashed
    else if state == InEntry && info.currentEntry.value.value == None then Failed
    else if state == InEntry && !(info.values != [] && info.values[0].slot == EntrySlot) then Crashed
    else if element == "stringvalue" then
      if info.values == [] then Crashed
      else if !info.values[0].value.StringValue? then Failed
      else Going(Push(info, InStringValue).(values := [info.values[0].(value := StringValue(""))] + info.values[1..]))
    else if element == "local_schema" then
      if state == InEntry then StartLocalSchema(info, attrs) else Failed
    else if element == "car" || element == "cdr" then
      if state == InEntry || state == InDefault then StartCarOrCdr(info, element == "car", attrs) else Failed
    else if element == "li" then
      if state == InEntry || state == InDefault then StartLi(info, attrs) else Failed
    else Failed
  }

  /** start_element_handler. */
  function StartElement(info: ParseInfo, element: string, attrs: Attrs): Outcome
    requires info.states != []
  {
    match info.states[0]
    case InStart => if element == "gconf" && attrs == map[] then Going(Push(info, InGconf)) else Failed
    case InGconf => StartInDir(info, element, attrs)
    case InDir => StartInDir(info, element, attrs)
    case InEntry => StartValueChild(info, element, attrs)
    case InDefault => StartValueChild(info, element, attrs)
    case InCar => StartValueChild(info, element, attrs)
    case InCdr => StartValueChild(info, element, attrs)
    case InLi => StartValueChild(info, element, attrs)
    case InLocalSchema => StartLocalSchemaChild(info, element, attrs)
    case InStringValue => Failed
    case InLongDesc => Failed
  }

  function StartInDir(info: ParseInfo, element: string, attrs: Attrs): Outcome {
    if element == "entry" then StartEntry(info, attrs)
    else if element == "dir" && info.allowSubdirs then StartDir(info, attrs)
    else Failed
  }

  function Reverse<T>(s: seq<T>): (r: seq<T>)
    ensures |r| == |s|
  {
    if s == [] then [] else Reverse(s[1..]) + [s[0]]
  }

  /** The owner, which holds a pointer to the popped value, now sees it complete. */
  function Settle(owner: Item, popped: Item): Item {
    match popped.slot
    case CarSlot =>
      if owner.value.PairValue? then owner.(value := PairValue(Some(popped.value), owner.value.cdr)) else owner
    case CdrSlot =>
      if owner.value.PairValue? then owner.(value := PairValue(owner.value.car, Some(popped.value))) else owner
    case LiSlot =>
      if owner.value.ListValue? && owner.value.elems != [] then
        var n := |owner.value.elems| - 1;
        owner.(value := ListValue(owner.value.elemType, owner.value.elems[..n] + [popped.value]))
      else owner
    case _ => owner
  }

  function PopValue(info: ParseInfo): ParseInfo {
    if info.values == [] then info
    else
      var popped, rest := info.values[0], info.values[1..];
      match popped.slot
      case EntrySlot =>
        if info.currentEntry.Some? then
          info.(values := rest, currentEntry := Some(info.currentEntry.value.(value := Some(popped.value))))
        else info.(values := rest)
      case DefaultSlot =>
        if info.localSchemas != [] then
          info.(values := rest,
                localSchemas := [info.localSchemas[0].(defaultValue := Some(popped.value))] + info.localSchemas[1..])
        else info.(values := rest)
      case _ => if rest == [] then info.(values := []) else info.(values := [Settle(rest[0], popped)] + rest[1..])
  }

  function EndEntry(info: ParseInfo): Outcome {
    if info.currentEntry == None || info.currentEntry.value.localSchemas != [] || info.dirStack == [] then Crashed
    else
      var popped := if info.currentEntry.value.value.Some? then PopValue(info) else info;
      var entry := popped.currentEntry.value.(localSchemas := Reverse(info.localSchemas));
      var dir := info.dirStack[0];
      Going(Pop(popped).(
        localSchemas := [], currentEntry := None,
        dirStack := [dir.(entries := [entry] + dir.entries)] + info.dirStack[1..]))
  }

  function EndDefault(info: ParseInfo): Outcome {
    if info.localSchemas == [] then Crashed
    else if info.values == [] then
      if info.localSchemas[0].defaultValue == None then Going(Pop(info)) else Crashed
    else if info.values[0].slot != DefaultSlot then Crashed
    else Going(Pop(PopValue(info)))
  }

  function EndDir(info: ParseInfo): Outcome
    requires info.states != []
  {
    if info.dirStack == [] then Crashed
    else
      var dir, rest := info.dirStack[0], info.dirStack[1..];
      var done := dir.(entries := Reverse(dir.entries), subdirs := Reverse(dir.subdirs));
      if info.states[0] == InGconf || rest == [] then Going(Pop(info).(dirStack := rest, root := Some(done)))
      else Going(Pop(info).(dirStack := [rest[0].(subdirs := [done] + rest[0].subdirs)] + rest[1..]))
  }

  /** end_element_handler. */
  function EndElement(info: ParseInfo): Outcome
    requires info.states != []
  {
    match info.states[0]
    case InStart => Going(info)
    case InEntry => EndEntry(info)
    case InDefault => EndDefault(info)
    case InCar => Going(Pop(PopValue(info)))
    case InCdr => Going(Pop(PopValue(info)))
    case InLi => Going(Pop(PopValue(info)))
    case InDir => EndDir(info)
    case InGconf => EndDir(info)
    case InLocalSchema => Going(Pop(info))
    case InLongDesc => Going(Pop(info))
    case InStringValue => Going(Pop(info))
  }

  /** text_handler. */
  function TextIn(info: ParseInfo, text: string): Outcome
    requires info.states != []
  {
    if AllWhitespace(text) then Going(info)
    else
      match info.states[0]
      case InStart => Crashed
      case InStringValue =>
        if info.values == [] || !info.values[0].value.StringValue? then Crashed
        else Going(info.(values := [info.values[0].(value := StringValue(text))] + info.values[1..]))
      case InLongDesc =>
        if info.localSchemas == [] then Crashed
        else Going(info.(localSchemas := [info.localSchemas[0].(longDesc := Some(text))] + info.localSchemas[1..]))
      case _ => Failed
  }

  function Step(info: ParseInfo, e: Event): Outcome {
    if info.states == [] then Crashed
    else
      match e
      case Start(element, attrs) => StartElement(info, element, attrs)
      case End(_) => EndElement(info)
      case Text(text) => TextIn(info, text)
  }

  function Run(info: ParseInfo, events: seq<Event>): Outcome
    decreases |events|
  {
    if events == [] then Going(info)
    else
      match Step(info, events[0])
      case Going(next) => Run(next, events[1..])
      case other => other
  }

  function Init(name: string, allowSubdirs: bool): ParseInfo {
    ParseInfo([InStart], [DirTree(name, [], [])], None, [], [], allowSubdirs, None)
  }

  /** parse_tree on a directory with nothing loaded: an empty file is an error that leaves it empty. */
  function Load(name: string, events: seq<Event>, subtree: bool): Option<DirTree> {
    if events == [] then Some(DirTree(name, [], []))
    else
      match Run(Init(name, subtree), events)
      case Going(info) => info.root
      case _ => None
  }

  /** How far the parser gets: to the end, or to the first event it does not take. */
  function Reached(info: ParseInfo, events: seq<Event>): ParseInfo
    decreases |events|
  {
    if events == [] then info
    else
      match Step(info, events[0])
      case Going(next) => Reached(next, events[1..])
      case _ => info
  }

  /** One element further out, with what was read of its value handed over. */
  function Outward(info: ParseInfo): (out: ParseInfo)
    requires info.states != []
    ensures out.states == info.states[1..]
  {
    if info.states[0] in {InDefault, InCar, InCdr, InLi} then Pop(PopValue(info)) else Pop(info)
  }

  /** The entry the parser is in, with its value as far as it was read. */
  function Unfinished(info: ParseInfo): Option<FileEntry>
    decreases |info.states|
  {
    if info.states == [] || info.states[0] in {InStart, InGconf, InDir} then None
    else if info.states[0] != InEntry then Unfinished(Outward(info))
    else if info.currentEntry.Some? && info.currentEntry.value.value.Some? then PopValue(info).currentEntry
    else info.currentEntry
  }

  /**
   * What parse_tree leaves in a directory with nothing loaded, whether it fails or not: an entry is in
   * its directory from its start tag on, in front of those read before.
   */
  function Filled(name: string, events: seq<Event>): DirTree {
    if events == [] then DirTree(name, [], [])
    else
      var info := Reached(Init(name, false), events);
      if info.root.Some? then info.root.value
      else if info.dirStack == [] then DirTree(name, [], [])
      else
        var d, e := info.dirStack[|info.dirStack| - 1], Unfinished(info);
        d.(entries := (if e.Some? then [e.value] else []) + d.entries)
  }

  /** The reader hands over one event after the other until the parser gives up. */
  method ParseEvents(start: ParseInfo, events: seq<Event>) returns (outcome: Outcome)
    ensures outcome == Run(start, events)
  {
    var info := start;
    var i := 0;
    while i < |events|
      invariant 0 <= i <= |events|
      invariant Run(info, events[i..]) == Run(start, events)
    {
      assert events[i..][0] == events[i] && events[i..][1..] == events[i + 1..];
      var step := Step(info, events[i]);
      if !step.Going? {
        return step;
      }
      info := step.info;
      i := i + 1;
    }
    assert events[i..] == [];
    return Going(info);
  }
}
