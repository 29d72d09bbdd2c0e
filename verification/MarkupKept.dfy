/**
 * What comes back from a file of the markup backend, said of the values themselves: which characters make
 * a text worth keeping, and what becomes of every field of an entry.
 */
module MarkupKept {
  import opened Options
  import opened Values
  import opened Decimal
  import opened Words
  import opened MarkupFiles
  import opened MarkupRoundTrip

  /** A text with any other character than these four comes back as it is, one without as no text. */
  ghost predicate TextBack(s: string, back: string) {
    if exists i :: 0 <= i < |s| && s[i] != ' ' && s[i] != '\t' && s[i] != '\n' && s[i] != '\r' then back == s
    else back == ""
  }

  ghost predicate PrimitiveBack(v: Value, back: Value) {
    if v.StringValue? then back.StringValue? && TextBack(v.s, back.s) else back == v
  }

  /** Of a schema what its locales share, with the part types its kind has a use for. */
  ghost predicate SchemaBack(sc: Schema, back: Schema) {
    && back.kind == sc.kind && back.owner == sc.owner
    && (sc.kind == ListType ==> back.listType == sc.listType)
    && (sc.kind != ListType ==> back.listType == InvalidType)
    && (sc.kind == PairType ==> back.carType == sc.carType && back.cdrType == sc.cdrType)
    && (sc.kind != PairType ==> back.carType == InvalidType && back.cdrType == InvalidType)
    && back.locale == None && back.shortDesc == None && back.longDesc == None && back.defaultValue == None
  }

  ghost predicate PartBack(v: Value, back: Value) {
    if v.SchemaValue? then back.SchemaValue? && SchemaBack(v.schema, back.schema) else PrimitiveBack(v, back)
  }

  ghost predicate HalfBack(half: Option<Value>, back: Option<Value>) {
    (half.Some? <==> back.Some?) && (half.Some? ==> PartBack(half.value, back.value))
  }

  ghost predicate ValueBack(v: Value, back: Value) {
    match v
    case ListValue(t, elems) =>
      && back.ListValue? && back.elemType == t && |back.elems| == |elems|
      && forall i :: 0 <= i < |elems| ==> PrimitiveBack(elems[i], back.elems[i])
    case PairValue(car, cdr) => back.PairValue? && HalfBack(car, back.car) && HalfBack(cdr, back.cdr)
    case _ => PartBack(v, back)
  }

  ghost predicate DefaultBack(v: Option<Value>, back: Option<Value>) {
    (v.Some? <==> back.Some?) && (v.Some? ==> ValueBack(v.value, back.value))
  }

  /** A long description comes back as a text does, but one that is no text is gone. */
  ghost predicate LongDescBack(desc: Option<string>, back: Option<string>) {
    if desc.Some? && exists i :: 0 <= i < |desc.value| && desc.value[i] != ' ' && desc.value[i] != '\t'
                                 && desc.value[i] != '\n' && desc.value[i] != '\r'
    then back == desc else back == None
  }

  /** A file for a whole subtree holds only the defaults for locales other than C. */
  ghost predicate LocalBack(ls: LocalSchema, back: LocalSchema, subtree: bool) {
    && back.locale == ls.locale && DefaultBack(ls.defaultValue, back.defaultValue)
    && if subtree && ls.locale != "C" then back.shortDesc == None && back.longDesc == None
       else back.shortDesc == ls.shortDesc && LongDescBack(ls.longDesc, back.longDesc)
  }

  /** In order, and with those left out that such a file has nothing to say about. */
  ghost predicate LocalsBack(lss: seq<LocalSchema>, back: seq<LocalSchema>, subtree: bool) {
    if lss == [] then back == []
    else if subtree && lss[0].locale != "C" && lss[0].defaultValue == None then LocalsBack(lss[1..], back, subtree)
    else back != [] && LocalBack(lss[0], back[0], subtree) && LocalsBack(lss[1..], back[1..], subtree)
  }

  ghost predicate EntryBack(e: FileEntry, back: FileEntry, subtree: bool) {
    && back.name == e.name && back.schemaName == e.schemaName
    && back.modUser == e.modUser && back.modTime == e.modTime
    && DefaultBack(e.value, back.value)
    && if e.value.Some? && e.value.value.SchemaValue? then LocalsBack(e.localSchemas, back.localSchemas, subtree)
       else back.localSchemas == []
  }

  ghost predicate DirBack(d: DirTree, back: DirTree, subtree: bool)
    decreases d
  {
    && back.name == d.name && |back.entries| == |d.entries|
    && (forall i :: 0 <= i < |d.entries| ==> EntryBack(d.entries[i], back.entries[i], subtree))
    && if subtree then
         && |back.subdirs| == |d.subdirs|
         && forall i :: 0 <= i < |d.subdirs| ==> DirBack(d.subdirs[i], back.subdirs[i], subtree)
       else back.subdirs == []
  }

  lemma {:induction false} NormalPrimitivesAt(vs: seq<Value>)
    ensures |NormalPrimitives(vs)| == |vs|
    ensures forall i :: 0 <= i < |vs| ==> NormalPrimitives(vs)[i] == NormalPrimitive(vs[i])
    decreases |vs|
  {
    if vs != [] {
      NormalPrimitivesAt(vs[1..]);
    }
  }

  lemma NormalValueIsBack(v: Value)
    ensures ValueBack(v, NormalValue(v))
  {
    if v.ListValue? {
      NormalPrimitivesAt(v.elems);
    }
  }

  lemma {:induction false} NormalLocalsAreBack(lss: seq<LocalSchema>, subtree: bool)
    ensures LocalsBack(lss, NormalLocalSchemas(lss, subtree), subtree)
    decreases |lss|
  {
    if lss != [] {
      var rest := NormalLocalSchemas(lss[1..], subtree);
      NormalLocalsAreBack(lss[1..], subtree);
      NormalLocalIsBack(lss[0], subtree);
      assert ([NormalLocalSchema(lss[0], subtree)] + rest)[1..] == rest;
      assert [] + rest == rest;
    }
  }

  lemma NormalLocalIsBack(ls: LocalSchema, subtree: bool)
    ensures LocalBack(ls, NormalLocalSchema(ls, subtree), subtree)
  {
    if ls.defaultValue.Some? {
      NormalValueIsBack(ls.defaultValue.value);
    }
  }

  lemma NormalEntryIsBack(e: FileEntry, subtree: bool)
    ensures EntryBack(e, NormalEntry(e, subtree), subtree)
  {
    if e.value.Some? {
      NormalValueIsBack(e.value.value);
      NormalLocalsAreBack(e.localSchemas, subtree);
    }
  }

  lemma {:induction false} NormalEntriesAt(es: seq<FileEntry>, subtree: bool)
    ensures |NormalEntries(es, subtree)| == |es|
    ensures forall i :: 0 <= i < |es| ==> NormalEntries(es, subtree)[i] == NormalEntry(es[i], subtree)
    decreases |es|
  {
    if es != [] {
      NormalEntriesAt(es[1..], subtree);
    }
  }

  lemma {:induction false} NormalDirsAt(ds: seq<DirTree>, subtree: bool)
    ensures |NormalDirs(ds, subtree)| == |ds|
    ensures forall i :: 0 <= i < |ds| ==> NormalDirs(ds, subtree)[i] == NormalDir(ds[i], subtree)
    decreases |ds|
  {
    if ds != [] {
      NormalDirsAt(ds[1..], subtree);
    }
  }

  lemma {:induction false} NormalDirIsBack(d: DirTree)
    ensures DirBack(d, NormalDir(d, true), true)
    decreases d
  {
    EntriesAreBack(d, true);
    NormalDirsAt(d.subdirs, true);
    forall i | 0 <= i < |d.subdirs|
      ensures DirBack(d.subdirs[i], NormalDir(d.subdirs[i], true), true)
    {
      NormalDirIsBack(d.subdirs[i]);
    }
  }

  lemma {:induction false} EntriesAreBack(d: DirTree, subtree: bool)
    ensures var es := NormalEntries(d.entries, subtree);
            |es| == |d.entries| && forall i :: 0 <= i < |es| ==> EntryBack(d.entries[i], es[i], subtree)
  {
    NormalEntriesAt(d.entries, subtree);
    forall i | 0 <= i < |d.entries|
      ensures EntryBack(d.entries[i], NormalEntry(d.entries[i], subtree), subtree)
    {
      NormalEntryIsBack(d.entries[i], subtree);
    }
  }

  /**
   * The file written for a directory tree is parsed to a tree with the same directories and entries in
   * the same order, in which every value, every list element, every half of a pair, every default and
   * every long description is what was written, up to the texts that hold nothing but blanks.
   */
  lemma {:induction false} SavedIsBack(root: DirTree, subtree: bool)
    requires WritableDir(root)
    ensures var loaded := Load(root.name, WriteFile(root, subtree), subtree);
            loaded.Some? && DirBack(root, loaded.value, subtree)
  {
    LoadSaved(root, subtree);
    EntriesAreBack(root, subtree);
    if subtree {
      NormalDirIsBack(root);
    }
  }

  // ----- the file itself, for a few entries written out -----

  lemma {:induction false} NumbersAre()
    ensures IntText(-5) == "-5" && IntText(1) == "1" && TimeText(7) == "7" && TimeText(0) == "0"
  {
  }

  lemma {:induction false} PlainAttrsAre()
    ensures ValueAttrs(IntValue(-5)) == map["type" := "int", "value" := "-5"]
    ensures ValueAttrs(BoolValue(true)) == map["type" := "bool", "value" := "true"]
    ensures ValueAttrs(BoolValue(false)) == map["type" := "bool", "value" := "false"]
    ensures ValueAttrs(StringValue("x")) == map["type" := "string"]
  {
    NumbersAre();
    assert ValueAttrs(StringValue("x")) == map["type" := TypeName(StringType)] + map[];
  }

  lemma {:induction false} CompoundAttrsAre(elems: seq<Value>, half: Option<Value>)
    ensures ValueAttrs(ListValue(BoolType, elems)) == map["type" := "list", "ltype" := "bool"]
    ensures ValueAttrs(PairValue(half, half)) == map["type" := "pair"]
  {
    assert ValueAttrs(PairValue(half, half)) == map["type" := TypeName(PairType)] + map[];
  }

  lemma {:induction false} ListSchemaAttrsAre()
    ensures ValueAttrs(SchemaValue(Schema(ListType, StringType, IntType, IntType, Some("o"), None, None, None, None)))
            == map["type" := "schema", "stype" := "list", "list_type" := "string", "owner" := "o"]
  {
    var sc := Schema(ListType, StringType, IntType, IntType, Some("o"), None, None, None, None);
    assert PartTypeAttrs(sc) == map["list_type" := "string"] && OptAttr("owner", sc.owner) == map["owner" := "o"];
  }

  lemma {:induction false} PairSchemaAttrsAre()
    ensures ValueAttrs(SchemaValue(Schema(PairType, IntType, IntType, BoolType, None, None, None, None, None)))
            == map["type" := "schema", "stype" := "pair", "car_type" := "int", "cdr_type" := "bool"]
  {
    var sc := Schema(PairType, IntType, IntType, BoolType, None, None, None, None, None);
    assert PartTypeAttrs(sc) == map["car_type" := "int", "cdr_type" := "bool"] && OptAttr("owner", sc.owner) == map[];
  }

  lemma {:induction false} ChildrenAre()
    ensures ValueChildren(StringValue("x")) == [Start("stringvalue", map[]), Text("x"), End("stringvalue")]
    ensures ValueChildren(ListValue(IntType, [IntValue(-5)])) ==
            [Start("li", map["type" := "int", "value" := "-5"]), End("li")]
    ensures ValueChildren(PairValue(Some(IntValue(-5)), Some(BoolValue(true)))) ==
            [Start("car", map["type" := "int", "value" := "-5"]), End("car"),
             Start("cdr", map["type" := "bool", "value" := "true"]), End("cdr")]
  {
    PlainAttrsAre();
    var i, b := IntValue(-5), BoolValue(true);
    assert [i][1..] == [] && WriteElems([]) == [];
    assert WriteValue("li", i) == [Start("li", ValueAttrs(i)), End("li")];
    assert WriteElems([i]) == WriteValue("li", i);
    assert WriteValue("car", i) == [Start("car", ValueAttrs(i)), End("car")];
    assert WriteValue("cdr", b) == [Start("cdr", ValueAttrs(b)), End("cdr")];
  }

  lemma {:induction false} EntriesAre(v: Value, lss: seq<LocalSchema>)
    ensures EntryHead(FileEntry("k", Some(v), lss, Some("/s"), Some("u"), 7)) ==
            map["name" := "k", "mtime" := "7", "schema" := "/s", "muser" := "u"]
    ensures WriteEntries([FileEntry("k", None, lss, None, None, 0)], false) ==
            [Start("entry", map["name" := "k", "mtime" := "0"]), End("entry")]
  {
    NumbersAre();
    var e := FileEntry("k", None, lss, None, None, 0);
    assert [e][1..] == [] && WriteEntries([], false) == [];
    assert EntryAttrs(e) == map["name" := "k", "mtime" := "0"] && EntryChildren(e, false) == [];
  }

  lemma {:induction false} LocalSchemasAre()
    ensures WriteLocalSchema(LocalSchema("C", Some("s"), Some("l"), Some(BoolValue(true))), true) ==
            [Start("local_schema", map["locale" := "C", "short_desc" := "s"]),
             Start("default", map["type" := "bool", "value" := "true"]), End("default"),
             Start("longdesc", map[]), Text("l"), End("longdesc"), End("local_schema")]
  {
    var ls := LocalSchema("C", Some("s"), Some("l"), Some(BoolValue(true)));
    PlainAttrsAre();
    assert LocalSchemaAttrs(ls, true) == map["locale" := "C", "short_desc" := "s"];
    assert DefaultEvents(ls) ==
           [Start("default", map["type" := "bool", "value" := "true"]), End("default")];
    assert DescEvents(ls, true) == [Start("longdesc", map[]), Text("l"), End("longdesc")];
  }

  // ----- what the parser refuses -----

  /** Elements where they do not belong: the outermost is gconf, entries and directories follow, texts hold none. */
  lemma RefusedElements(info: ParseInfo, element: string, attrs: Attrs)
    requires info.states != []
    ensures info.states[0] == InStart && (element != "gconf" || attrs != map[]) ==>
              StartElement(info, element, attrs) == Failed
    ensures info.states[0] in {InGconf, InDir} && element != "entry" && (element != "dir" || !info.allowSubdirs) ==>
              StartElement(info, element, attrs) == Failed
    ensures info.states[0] in {InStringValue, InLongDesc} ==> StartElement(info, element, attrs) == Failed
    ensures info.states[0] in {InCar, InCdr, InLi} && element != "stringvalue" ==>
              StartElement(info, element, attrs) == Failed
    ensures info.states[0] == InDefault && element !in {"stringvalue", "car", "cdr", "li"} ==>
              StartElement(info, element, attrs) == Failed
  {
  }

  /** A local schema has one default and one long description, and nothing else. */
  lemma RefusedParts(info: ParseInfo, element: string, attrs: Attrs)
    requires info.states != [] && info.states[0] == InLocalSchema && info.localSchemas != []
    ensures element != "default" && element != "longdesc" ==> StartElement(info, element, attrs) == Failed
    ensures element == "longdesc" && info.localSchemas[0].longDesc.Some? ==>
              StartElement(info, element, attrs) == Failed
    ensures element == "default" && info.localSchemas[0].defaultValue.Some? && "type" in attrs ==>
              StartElement(info, element, attrs) == Failed
  {
  }

  /** A pair has one car and one cdr, a list elements of its own type, and a string value belongs in a string. */
  lemma RefusedInside(info: ParseInfo, attrs: Attrs)
    requires AtOuter(info) && "type" in attrs && ParseValue(attrs) != NoType
    ensures var v := info.values[0].value;
            && (!v.PairValue? || v.car.Some? ==> StartElement(info, "car", attrs) == Failed)
            && (!v.PairValue? || v.cdr.Some? ==> StartElement(info, "cdr", attrs) == Failed)
            && (!v.StringValue? ==> StartElement(info, "stringvalue", attrs) == Failed)
            && (!v.ListValue? || TypeFromName(attrs["type"]) != v.elemType ==>
                  StartElement(info, "li", attrs) == Failed)
  {
  }

  /** Unknown and missing attributes. */
  lemma RefusedAttributes(info: ParseInfo, attrs: Attrs)
    requires AtDir(info)
    ensures "name" !in attrs || !(attrs.Keys <= ValueAttrNames) ==> StartElement(info, "entry", attrs) == Failed
    ensures attrs.Keys != {"name"} ==> StartElement(info, "dir", attrs) == Failed
  {
  }

  /** Text stands in strings and long descriptions only; blanks are passed over everywhere. */
  lemma RefusedText(info: ParseInfo, text: string)
    requires info.states != []
    ensures (forall i :: 0 <= i < |text| ==> text[i] in " \t\n\r") ==> TextIn(info, text) == Going(info)
    ensures info.states[0] !in {InStart, InStringValue, InLongDesc} ==>
              (exists i :: 0 <= i < |text| && text[i] !in " \t\n\r") ==> TextIn(info, text) == Failed
  {
  }
}
