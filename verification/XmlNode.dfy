/**
 * The XML backend's DOM nodes: writing a value into a node, reading one out of it, and the schemas,
 * which keep their descriptions and default once per locale in child nodes of their own.
 */
module XmlNodes {
  import opened Options
  import opened Values
  import opened Decimal
  import opened Words

  /** An element; text is its text content, children the elements below it. */
  datatype Node = Node(name: string, attrs: map<string, string>, text: string, children: seq<Node>)

  function NewNode(name: string): Node {
    Node(name, map[], "", [])
  }

  /** What a property can hold: the empty string is no property. */
  function Norm(s: Option<string>): Option<string> {
    if s == Some("") then None else s
  }

  /** my_xmlSetProp. */
  function SetProp(node: Node, name: string, value: Option<string>): Node {
    node.(attrs := if Norm(value).Some? then node.attrs[name := value.value] else node.attrs - {name})
  }

  /** my_xmlGetProp. */
  function GetProp(node: Node, name: string): Option<string> {
    if name in node.attrs then Norm(Some(node.attrs[name])) else None
  }

  lemma PropComesBack(node: Node, name: string, value: Option<string>, other: string)
    ensures GetProp(SetProp(node, name, value), other) == if other == name then Norm(value) else GetProp(node, other)
  {
  }

  // ----- writing -----

  /** node_set_value; the halves of a pair that lacks one stay blank. */
  function SetValue(node: Node, v: Value): Node
    decreases v, 1
  {
    var typed := SetProp(node, "type", Some(TypeName(TypeOf(v))));
    match v
    case IntValue(i) => SetProp(typed, "value", Some(IntText(i))).(children := [])
    case BoolValue(b) => SetProp(typed, "value", Some(BoolName(b))).(children := [])
    case StringValue(s) => typed.(children := [NewNode("stringvalue").(text := s)])
    case ListValue(t, elems) => SetProp(typed, "ltype", Some(TypeName(t))).(children := ElemNodes(elems))
    case PairValue(car, cdr) =>
      typed.(children := if car.Some? && cdr.Some?
                         then [SetValue(NewNode("car"), car.value), SetValue(NewNode("cdr"), cdr.value)]
                         else [NewNode("car"), NewNode("cdr")])
    case SchemaValue(sc) => SetSchema(typed, sc)
  }

  function ElemNodes(elems: seq<Value>): seq<Node>
    decreases elems, 0
  {
    if elems == [] then [] else [SetValue(NewNode("li"), elems[0])] + ElemNodes(elems[1..])
  }

  /** node_set_schema_value: the attributes for all locales, and the child of the schema's own. */
  function SetSchema(node: Node, sc: Schema): Node
    decreases sc, 2
  {
    SharedProps(node, sc).(children := WriteLocal(node.children, sc))
  }

  function SetTypeProp(node: Node, name: string, t: ValueType): Node {
    if t == InvalidType then node else SetProp(node, name, Some(TypeName(t)))
  }

  function PartTypeProps(node: Node, sc: Schema): Node {
    var listed := SetTypeProp(node, "list_type", sc.listType);
    SetTypeProp(SetTypeProp(listed, "car_type", sc.carType), "cdr_type", sc.cdrType)
  }

  function SharedProps(node: Node, sc: Schema): Node {
    var cleared := SetProp(PartTypeProps(node, sc), "value", None);
    SetProp(SetProp(cleared, "stype", Some(TypeName(sc.kind))), "owner", sc.owner)
  }

  predicate IsLocal(node: Node, locale: Option<string>) {
    node.name == "local_schema" && GetProp(node, "locale") == locale
  }

  /** The first child for the schema's locale is filled anew, or a new child is added at the end. */
  function WriteLocal(children: seq<Node>, sc: Schema): seq<Node>
    decreases sc, 1, |children|
  {
    if children == [] then [FillLocal(NewNode("local_schema"), sc)]
    else if IsLocal(children[0], sc.locale) then [FillLocal(children[0], sc)] + children[1..]
    else [children[0]] + WriteLocal(children[1..], sc)
  }

  function FillLocal(node: Node, sc: Schema): Node
    decreases sc, 0
  {
    SetProp(SetProp(node, "locale", sc.locale), "short_desc", sc.shortDesc).(
      children := (if sc.defaultValue.Some? then [SetValue(NewNode("default"), sc.defaultValue.value)] else [])
                  + (if sc.longDesc.Some? then [NewNode("longdesc").(text := sc.longDesc.value)] else []))
  }

  /** node_unset_value. */
  function UnsetValue(node: Node): Node {
    node.(attrs := node.attrs - {"value", "type", "stype", "ltype", "owner", "list_type", "car_type", "cdr_type"},
          children := [])
  }

  // ----- reading -----

  /** gconf_value_new_from_string for integers: out of range for a long is an error, what is left is narrowed. */
  function IntFrom(s: string): Option<Value> {
    var n := Atoi(s);
    if LeadingDigits(AfterSign(s)) == "" || !(-TWO_64 / 2 <= n < TWO_64 / 2) then None else Some(IntValue(Narrow(n)))
  }

  function BoolFrom(s: string): Option<Value> {
    if s != "" && s[0] in {'t', 'T', '1', 'y', 'Y'} then Some(BoolValue(true))
    else if s != "" && s[0] in {'f', 'F', '0', 'n', 'N'} then Some(BoolValue(false))
    else None
  }

  function TypeFromProp(node: Node, name: string): ValueType {
    var word := GetProp(node, name);
    if word == None then InvalidType else TypeFromName(word.value)
  }

  lemma TypePropComesBack(node: Node, name: string, t: ValueType, other: string)
    ensures var typed := SetTypeProp(node, name, t);
            && (other != name ==> GetProp(typed, other) == GetProp(node, other))
            && (GetProp(node, name) == None ==> TypeFromProp(typed, name) == t)
            && typed.children == node.children
  {
    TypeNamesDiffer(t);
  }

  const DefaultLocales := ["C"]

  /** node_extract_value. No locales at all stands for the C locale. */
  function Extract(node: Node, locales: Option<seq<string>>): Option<Value>
    decreases node, 1
  {
    var ls := if locales.Some? then locales.value else DefaultLocales;
    match TypeFromProp(node, "type")
    case IntType => (match GetProp(node, "value") case None => None case Some(s) => IntFrom(s))
    case BoolType => (match GetProp(node, "value") case None => None case Some(s) => BoolFrom(s))
    case StringType => FirstString(node.children)
    case ListType =>
      var t := TypeFromProp(node, "ltype");
      if t == InvalidType || t == ListType || t == PairType then None
      else Some(ListValue(t, ExtractElems(node.children, t, ls)))
    case PairType =>
      var car, cdr := ExtractHalf(node.children, "car", ls), ExtractHalf(node.children, "cdr", ls);
      if car.Some? && cdr.Some? then Some(PairValue(car, cdr)) else None
    case SchemaType => Some(SchemaValue(ExtractSchema(node, ls)))
    case FloatType => None
    case InvalidType => None
  }

  function FirstString(children: seq<Node>): Option<Value> {
    if children == [] then None
    else if children[0].name == "stringvalue" then Some(StringValue(children[0].text))
    else FirstString(children[1..])
  }

  /** The list elements that can be read and have the right type. */
  function ExtractElems(children: seq<Node>, t: ValueType, locales: seq<string>): seq<Value>
    decreases children, 0
  {
    if children == [] then []
    else
      var v := if children[0].name == "li" then Extract(children[0], Some(locales)) else None;
      (if v.Some? && TypeOf(v.value) == t then [v.value] else []) + ExtractElems(children[1..], t, locales)
  }

  /** The first child of that name that holds a value a pair may hold. */
  function ExtractHalf(children: seq<Node>, name: string, locales: seq<string>): Option<Value>
    decreases children, 0
  {
    if children == [] then None
    else
      var v := if children[0].name == name then Extract(children[0], Some(locales)) else None;
      if v.Some? && !v.value.ListValue? && !v.value.PairValue? then v
      else ExtractHalf(children[1..], name, locales)
  }

  /** What a schema says for one locale. */
  datatype Info = Info(shortDesc: Option<string>, longDesc: Option<string>, defaultValue: Option<Value>)

  /** schema_subnode_extract_data. */
  function InfoIn(node: Node): Info
    decreases node, 0
  {
    Info(GetProp(node, "short_desc"), FirstLongDesc(node.children), FirstDefault(node.children))
  }

  function FirstLongDesc(children: seq<Node>): Option<string> {
    if children == [] then None
    else if children[0].name == "longdesc" then Some(children[0].text)
    else FirstLongDesc(children[1..])
  }

  function FirstDefault(children: seq<Node>): Option<Value>
    decreases children, 0
  {
    if children == [] then None
    else
      var v := if children[0].name == "default" then Extract(children[0], None) else None;
      if v.Some? then v else FirstDefault(children[1..])
  }

  /** schema_node_extract_value. */
  function ExtractSchema(node: Node, locales: seq<string>): Schema
    decreases node, 0
  {
    var best := BestNode(node.children, locales);
    var info := if best < |node.children| then InfoIn(node.children[best]) else Info(None, None, None);
    var locale := if best < |node.children| then GetProp(node.children[best], "locale") else None;
    Schema(TypeFromProp(node, "stype"), TypeFromProp(node, "list_type"), TypeFromProp(node, "car_type"),
           TypeFromProp(node, "cdr_type"), GetProp(node, "owner"), locale,
           info.shortDesc, info.longDesc, info.defaultValue)
  }

  /** find_schema_subnode_by_locale: the first child for a locale, the number of children if there is none. */
  function FirstLocal(children: seq<Node>, locale: Option<string>): (i: nat)
    ensures i <= |children|
    ensures i < |children| ==> IsLocal(children[i], locale)
    ensures forall j :: 0 <= j < i ==> !IsLocal(children[j], locale)
  {
    if children == [] || IsLocal(children[0], locale) then 0 else 1 + FirstLocal(children[1..], locale)
  }

  /** The last child for a locale. */
  function LastLocal(children: seq<Node>, locale: Option<string>): (i: nat)
    ensures i <= |children|
    ensures i < |children| ==> IsLocal(children[i], locale)
    ensures i == |children| ==> forall j :: 0 <= j < i ==> !IsLocal(children[j], locale)
    decreases |children|
  {
    if children == [] then 0
    else if IsLocal(children[|children| - 1], locale) then |children| - 1
    else
      var i := LastLocal(children[..|children| - 1], locale);
      if i == |children| - 1 then |children| else i
  }

  /** The child for the first of the wanted locales that has one. */
  function Localized(children: seq<Node>, locales: seq<string>): nat
    decreases |locales|
  {
    if locales == [] then |children|
    else if LastLocal(children, Some(locales[0])) < |children| then LastLocal(children, Some(locales[0]))
    else Localized(children, locales[1..])
  }

  /**
   * The child a schema is read from: for the best wanted locale (the first child of several for the
   * most wanted one, else the last), else for no locale, else the first.
   */
  function BestNode(children: seq<Node>, locales: seq<string>): (i: nat)
  {
    if locales != [] && FirstLocal(children, Some(locales[0])) < |children| then FirstLocal(children, Some(locales[0]))
    else if Localized(children, locales) < |children| then Localized(children, locales)
    else if FirstLocal(children, None) < |children| then FirstLocal(children, None)
    else 0
  }

  // ----- what all locales of a schema share -----

  datatype Shared = Shared(
    kind: ValueType, listType: ValueType, carType: ValueType, cdrType: ValueType, owner: Option<string>)

  function SharedOf(sc: Schema): Shared {
    Shared(sc.kind, sc.listType, sc.carType, sc.cdrType, Norm(sc.owner))
  }

  function SharedIn(node: Node): Shared {
    Shared(TypeFromProp(node, "stype"), TypeFromProp(node, "list_type"), TypeFromProp(node, "car_type"),
           TypeFromProp(node, "cdr_type"), GetProp(node, "owner"))
  }

  predicate NoSchemaProps(node: Node) {
    forall k :: k in {"stype", "list_type", "car_type", "cdr_type", "owner"} ==> GetProp(node, k) == None
  }

  lemma PartTypesComeBack(node: Node, sc: Schema)
    requires NoSchemaProps(node)
    ensures var parts := PartTypeProps(node, sc);
            && TypeFromProp(parts, "list_type") == sc.listType && TypeFromProp(parts, "car_type") == sc.carType
            && TypeFromProp(parts, "cdr_type") == sc.cdrType && GetProp(parts, "type") == GetProp(node, "type")
  {
    var listed := SetTypeProp(node, "list_type", sc.listType);
    var carred := SetTypeProp(listed, "car_type", sc.carType);
    TypePropComesBack(node, "list_type", sc.listType, "car_type");
    TypePropComesBack(node, "list_type", sc.listType, "cdr_type");
    TypePropComesBack(node, "list_type", sc.listType, "type");
    TypePropComesBack(listed, "car_type", sc.carType, "list_type");
    TypePropComesBack(listed, "car_type", sc.carType, "cdr_type");
    TypePropComesBack(listed, "car_type", sc.carType, "type");
    TypePropComesBack(carred, "cdr_type", sc.cdrType, "list_type");
    TypePropComesBack(carred, "cdr_type", sc.cdrType, "car_type");
    TypePropComesBack(carred, "cdr_type", sc.cdrType, "type");
  }

  lemma RestComesBack(parts: Node, sc: Schema)
    ensures var kinded := SetProp(SetProp(parts, "value", None), "stype", Some(TypeName(sc.kind)));
            var node := SetProp(kinded, "owner", sc.owner);
            && TypeFromProp(node, "stype") == sc.kind && GetProp(node, "owner") == Norm(sc.owner)
            && forall k :: k in {"type", "list_type", "car_type", "cdr_type"} ==> GetProp(node, k) == GetProp(parts, k)
  {
    TypeNamesDiffer(sc.kind);
    var cleared := SetProp(parts, "value", None);
    var kinded := SetProp(cleared, "stype", Some(TypeName(sc.kind)));
    PropComesBack(cleared, "stype", Some(TypeName(sc.kind)), "stype");
    PropComesBack(kinded, "owner", sc.owner, "stype");
    PropComesBack(kinded, "owner", sc.owner, "owner");
    forall k | k in {"type", "list_type", "car_type", "cdr_type"}
      ensures GetProp(SetProp(kinded, "owner", sc.owner), k) == GetProp(parts, k)
    {
      PropComesBack(parts, "value", None, k);
      PropComesBack(cleared, "stype", Some(TypeName(sc.kind)), k);
      PropComesBack(kinded, "owner", sc.owner, k);
    }
  }

  /** What all locales share is read back from a schema's node as it was written. */
  lemma {:induction false} SharedComesBack(node: Node, sc: Schema)
    requires NoSchemaProps(node)
    ensures var written := SetSchema(SetProp(node, "type", Some(TypeName(SchemaType))), sc);
            SharedIn(written) == SharedOf(sc) && TypeFromProp(written, "type") == SchemaType
  {
    var typed := SetProp(node, "type", Some(TypeName(SchemaType)));
    TypeNamesDiffer(SchemaType);
    PropComesBack(node, "type", Some(TypeName(SchemaType)), "type");
    forall k | k in {"stype", "list_type", "car_type", "cdr_type", "owner"}
      ensures GetProp(typed, k) == None
    {
      PropComesBack(node, "type", Some(TypeName(SchemaType)), k);
    }
    PartTypesComeBack(typed, sc);
    RestComesBack(PartTypeProps(typed, sc), sc);
    var written, shared := SetSchema(typed, sc), SharedProps(typed, sc);
    assert written.attrs == shared.attrs;
    assert forall k :: GetProp(written, k) == GetProp(shared, k);
  }

  lemma {:induction false} SchemaWritten(node: Node, sc: Schema)
    ensures SetValue(node, SchemaValue(sc)) == SetSchema(SetProp(node, "type", Some(TypeName(SchemaType))), sc)
    ensures SetValue(node, SchemaValue(sc)).children == WriteLocal(node.children, sc)
  {
  }

  /** Writing a value leaves alone the properties that are the entry's own, and sets no locale. */
  lemma {:induction false} OtherPropsStay(node: Node, v: Value, other: string)
    requires other in {"schema", "locale", "name", "mtime", "muser"}
    ensures GetProp(SetValue(node, v), other) == GetProp(node, other)
  {
    if v.SchemaValue? {
      SchemaWritten(node, v.schema);
      var typed := SetProp(node, "type", Some(TypeName(SchemaType)));
      PropComesBack(node, "type", Some(TypeName(SchemaType)), other);
      SharedPropsOnly(typed, v.schema, other);
    }
  }

  lemma {:induction false} SharedPropsOnly(node: Node, sc: Schema, other: string)
    requires other in {"schema", "locale", "name", "mtime", "muser"}
    ensures GetProp(SharedProps(node, sc), other) == GetProp(node, other)
  {
    var listed := SetTypeProp(node, "list_type", sc.listType);
    var carred := SetTypeProp(listed, "car_type", sc.carType);
    var parts := PartTypeProps(node, sc);
    TypePropComesBack(node, "list_type", sc.listType, other);
    TypePropComesBack(listed, "car_type", sc.carType, other);
    TypePropComesBack(carred, "cdr_type", sc.cdrType, other);
    PropComesBack(parts, "value", None, other);
    PropComesBack(SetProp(parts, "value", None), "stype", Some(TypeName(sc.kind)), other);
  }

  // ----- values come back -----

  /** The values a node gives back as they were written into it. */
  predicate ComesBack(v: Value) {
    match v
    case IntValue(i) => IsInt32(i)
    case BoolValue(_) => true
    case StringValue(_) => true
    case ListValue(t, elems) =>
      && t !in {InvalidType, ListType, PairType}
      && forall i :: 0 <= i < |elems| ==> TypeOf(elems[i]) == t && ComesBack(elems[i])
    case PairValue(car, cdr) =>
      && car.Some? && !Nests(car.value) && ComesBack(car.value)
      && cdr.Some? && !Nests(cdr.value) && ComesBack(cdr.value)
    case SchemaValue(sc) =>
      && Norm(sc.owner) == sc.owner && Norm(sc.locale) == sc.locale && Norm(sc.shortDesc) == sc.shortDesc
      && (sc.defaultValue.Some? ==> ComesBack(sc.defaultValue.value))
  }

  /** What a pair may not hold. */
  predicate Nests(v: Value) {
    v.ListValue? || v.PairValue?
  }

  lemma {:induction false} NarrowFits(n: int)
    ensures IsInt32(Narrow(n))
  {
  }

  lemma {:induction false} IntTextRead(i: int)
    ensures IntFrom(IntText(i)) == Some(IntValue(i)) <==> IsInt32(i)
    ensures IntText(i) != ""
  {
    AtoiReadsIntText(i);
    DigitsComeBack(if i < 0 then -i else i);
    NarrowFits(i);
    if IsInt32(i) {
      NarrowKeeps(i);
    }
  }

  lemma {:induction false} TypeStored(node: Node, v: Value)
    requires v.SchemaValue? ==> NoSchemaProps(node)
    ensures TypeFromProp(SetValue(node, v), "type") == TypeOf(v)
  {
    TypeNamesDiffer(TypeOf(v));
    if v.SchemaValue? {
      SharedComesBack(node, v.schema);
      SchemaWritten(node, v.schema);
    } else {
      assert GetProp(SetValue(node, v), "type") == Some(TypeName(TypeOf(v)));
    }
  }

  lemma {:induction false} StringsAreStrings(children: seq<Node>)
    ensures FirstString(children).Some? ==> FirstString(children).value.StringValue?
    decreases |children|
  {
    if children != [] && children[0].name != "stringvalue" {
      StringsAreStrings(children[1..]);
    }
  }

  /** What is read from a node has the type its attribute says. */
  lemma {:induction false} ReadHasType(node: Node, locales: Option<seq<string>>)
    ensures var v := Extract(node, locales); v.Some? ==> TypeOf(v.value) == TypeFromProp(node, "type")
  {
    StringsAreStrings(node.children);
  }

  lemma {:induction false} NameKept(node: Node, v: Value)
    ensures SetValue(node, v).name == node.name && SetValue(node, v).text == node.text
  {
  }

  /**
   * A value written into a node, a new one if it is a schema, is read again as it was exactly when a
   * node can hold it: lists of one plain or schema type, pairs with two halves that are neither lists
   * nor pairs, schemas without empty texts, and so on for what these contain.
   */
  lemma {:induction false} ComesBackExactlyWhen(node: Node, v: Value, locales: Option<seq<string>>)
    requires v.SchemaValue? ==> NoSchemaProps(node) && node.children == []
    ensures Extract(SetValue(node, v), locales) == Some(v) <==> ComesBack(v)
    decreases v, 2
  {
    match v
    case ListValue(t, elems) => ListComesBackExactlyWhen(node, t, elems, locales);
    case PairValue(car, cdr) => PairComesBackExactlyWhen(node, car, cdr, locales);
    case SchemaValue(sc) => SchemaComesBackExactlyWhen(node, sc, locales);
    case _ => SimpleComesBack(node, v, locales);
  }

  lemma {:induction false} SimpleComesBack(node: Node, v: Value, locales: Option<seq<string>>)
    requires v.IntValue? || v.BoolValue? || v.StringValue?
    ensures Extract(SetValue(node, v), locales) == Some(v) <==> ComesBack(v)
  {
    TypeStored(node, v);
    match v
    case IntValue(i) =>
      IntTextRead(i);
      assert GetProp(SetValue(node, v), "value") == Some(IntText(i));
    case BoolValue(b) =>
      assert GetProp(SetValue(node, v), "value") == Some(BoolName(b));
    case StringValue(s) =>
      assert SetValue(node, v).children[0].text == s;
  }

  lemma {:induction false} ListComesBackExactlyWhen(node: Node, t: ValueType, elems: seq<Value>,
                                                    locales: Option<seq<string>>)
    ensures Extract(SetValue(node, ListValue(t, elems)), locales) == Some(ListValue(t, elems))
            <==> ComesBack(ListValue(t, elems))
    decreases ListValue(t, elems), 1
  {
    var ls := if locales.Some? then locales.value else DefaultLocales;
    ListStored(node, t, elems);
    ListExtracts(SetValue(node, ListValue(t, elems)), t, ElemNodes(elems), locales);
    ElemsComeBackExactlyWhen(elems, t, ls);
  }

  lemma {:induction false} ListStored(node: Node, t: ValueType, elems: seq<Value>)
    ensures var stored := SetValue(node, ListValue(t, elems));
            && TypeFromProp(stored, "type") == ListType && TypeFromProp(stored, "ltype") == t
            && stored.children == ElemNodes(elems)
  {
    TypeStored(node, ListValue(t, elems));
    TypeNamesDiffer(t);
    assert GetProp(SetValue(node, ListValue(t, elems)), "ltype") == Some(TypeName(t));
  }

  lemma {:induction false} ListExtracts(stored: Node, t: ValueType, nodes: seq<Node>, locales: Option<seq<string>>)
    requires TypeFromProp(stored, "type") == ListType && TypeFromProp(stored, "ltype") == t && stored.children == nodes
    ensures Extract(stored, locales) ==
            if t == InvalidType || t == ListType || t == PairType then None
            else Some(ListValue(t, ExtractElems(nodes, t, if locales.Some? then locales.value else DefaultLocales)))
  {
  }

  lemma {:induction false} ElemsSplit(node: Node, nodes: seq<Node>, t: ValueType, locales: seq<string>,
                                      first: seq<Value>)
    requires node.name == "li"
    requires var v := Extract(node, Some(locales));
             first == if v.Some? && TypeOf(v.value) == t then [v.value] else []
    ensures ExtractElems([node] + nodes, t, locales) == first + ExtractElems(nodes, t, locales)
  {
    assert ([node] + nodes)[1..] == nodes;
  }

  lemma HeadAndTail(elems: seq<Value>, t: ValueType)
    requires elems != []
    ensures (forall i :: 0 <= i < |elems| ==> TypeOf(elems[i]) == t && ComesBack(elems[i]))
            <==> TypeOf(elems[0]) == t && ComesBack(elems[0])
                 && forall i :: 0 <= i < |elems[1..]| ==> TypeOf(elems[1..][i]) == t && ComesBack(elems[1..][i])
  {
    assert forall i :: 1 <= i < |elems| ==> elems[i] == elems[1..][i - 1];
  }

  lemma {:induction false} ElemsComeBackExactlyWhen(elems: seq<Value>, t: ValueType, locales: seq<string>)
    ensures var back := ExtractElems(ElemNodes(elems), t, locales);
            && |back| <= |elems|
            && (back == elems <==> forall i :: 0 <= i < |elems| ==> TypeOf(elems[i]) == t && ComesBack(elems[i]))
    decreases elems, 3
  {
    if elems != [] {
      var node, nodes := SetValue(NewNode("li"), elems[0]), ElemNodes(elems[1..]);
      ComesBackExactlyWhen(NewNode("li"), elems[0], Some(locales));
      ElemsComeBackExactlyWhen(elems[1..], t, locales);
      NameKept(NewNode("li"), elems[0]);
      var v := Extract(node, Some(locales));
      var first := if v.Some? && TypeOf(v.value) == t then [v.value] else [];
      ElemsSplit(node, nodes, t, locales, first);
      FirstAndRest(first, ExtractElems(nodes, t, locales), elems);
      HeadAndTail(elems, t);
    }
  }

  lemma FirstAndRest<T>(first: seq<T>, rest: seq<T>, s: seq<T>)
    requires s != [] && |first| <= 1 && |rest| < |s|
    ensures first + rest == s <==> first == [s[0]] && rest == s[1..]
  {
    assert [s[0]] + s[1..] == s;
    if first + rest == s {
      assert first[0] == s[0] && rest == (first + rest)[1..];
    }
  }

  /** What a pair's half reads as, from the two nodes of the pair. */
  function Half(node: Node, locales: seq<string>): Option<Value> {
    var v := Extract(node, Some(locales));
    if v.Some? && !Nests(v.value) then v else None
  }

  lemma {:induction false} HalvesRead(car: Node, cdr: Node, locales: seq<string>)
    requires car.name == "car" && cdr.name == "cdr"
    ensures ExtractHalf([car, cdr], "car", locales) == Half(car, locales)
    ensures ExtractHalf([car, cdr], "cdr", locales) == Half(cdr, locales)
  {
    var none: seq<Node> := [];
    assert [car, cdr][1..] == [cdr] && [cdr][1..] == none;
    assert ExtractHalf(none, "car", locales) == None && ExtractHalf(none, "cdr", locales) == None;
    assert ExtractHalf([cdr], "car", locales) == ExtractHalf(none, "car", locales);
    assert ExtractHalf([car, cdr], "cdr", locales) == ExtractHalf([cdr], "cdr", locales);
  }

  lemma {:induction false} PairComesBackExactlyWhen(node: Node, car: Option<Value>, cdr: Option<Value>,
                                                    locales: Option<seq<string>>)
    ensures Extract(SetValue(node, PairValue(car, cdr)), locales) == Some(PairValue(car, cdr))
            <==> ComesBack(PairValue(car, cdr))
    decreases PairValue(car, cdr), 1
  {
    var stored := SetValue(node, PairValue(car, cdr));
    var ls := if locales.Some? then locales.value else DefaultLocales;
    TypeStored(node, PairValue(car, cdr));
    if car.Some? && cdr.Some? {
      var carNode, cdrNode := SetValue(NewNode("car"), car.value), SetValue(NewNode("cdr"), cdr.value);
      NameKept(NewNode("car"), car.value);
      NameKept(NewNode("cdr"), cdr.value);
      HalvesRead(carNode, cdrNode, ls);
      HalfComesBackExactlyWhen("car", car.value, ls);
      HalfComesBackExactlyWhen("cdr", cdr.value, ls);
      assert stored.children == [carNode, cdrNode];
      PairExtracts(stored, locales);
    } else {
      HalvesRead(NewNode("car"), NewNode("cdr"), ls);
      assert stored.children == [NewNode("car"), NewNode("cdr")];
      assert Half(NewNode("car"), ls) == None;
      PairExtracts(stored, locales);
    }
  }

  lemma {:induction false} PairExtracts(stored: Node, locales: Option<seq<string>>)
    requires TypeFromProp(stored, "type") == PairType
    ensures var ls := if locales.Some? then locales.value else DefaultLocales;
            var car, cdr := ExtractHalf(stored.children, "car", ls), ExtractHalf(stored.children, "cdr", ls);
            Extract(stored, locales) == if car.Some? && cdr.Some? then Some(PairValue(car, cdr)) else None
  {
  }

  lemma {:induction false} HalfComesBackExactlyWhen(name: string, v: Value, locales: seq<string>)
    ensures Half(SetValue(NewNode(name), v), locales) == Some(v) <==> !Nests(v) && ComesBack(v)
    decreases v, 3
  {
    ComesBackExactlyWhen(NewNode(name), v, Some(locales));
    TypeStored(NewNode(name), v);
    ReadHasType(SetValue(NewNode(name), v), Some(locales));
  }

  /** A node with one child: whatever the wanted locales are, that is the child that is read. */
  lemma {:induction false} OnlyChildIsBest(child: Node, locales: seq<string>)
    ensures BestNode([child], locales) == 0
    decreases |locales|
  {
    OnlyChildLocalized(child, locales);
  }

  lemma {:induction false} OnlyChildLocalized(child: Node, locales: seq<string>)
    ensures Localized([child], locales) <= 1
    decreases |locales|
  {
    if locales != [] {
      OnlyChildLocalized(child, locales[1..]);
    }
  }

  lemma {:induction false} SchemaComesBackExactlyWhen(node: Node, sc: Schema, locales: Option<seq<string>>)
    requires NoSchemaProps(node) && node.children == []
    ensures Extract(SetValue(node, SchemaValue(sc)), locales) == Some(SchemaValue(sc)) <==> ComesBack(SchemaValue(sc))
    decreases SchemaValue(sc), 1
  {
    var stored := SetValue(node, SchemaValue(sc));
    var child := FillLocal(NewNode("local_schema"), sc);
    var ls := if locales.Some? then locales.value else DefaultLocales;
    TypeStored(node, SchemaValue(sc));
    SharedComesBack(node, sc);
    SchemaWritten(node, sc);
    assert stored.children == [child];
    OnlyChildIsBest(child, ls);
    PartsFilled(NewNode("local_schema"), sc);
    DefaultComesBackExactlyWhen(sc);
    assert SharedIn(stored) == SharedOf(sc) && BestNode(stored.children, ls) == 0;
    assert InfoIn(child) == Info(Norm(sc.shortDesc), sc.longDesc, FirstDefault(child.children));
    var back := Schema(sc.kind, sc.listType, sc.carType, sc.cdrType, Norm(sc.owner), Norm(sc.locale),
                       Norm(sc.shortDesc), sc.longDesc, FirstDefault(child.children));
    OneChildExtracts(stored, locales, child, back);
  }

  lemma {:induction false} OneChildExtracts(stored: Node, locales: Option<seq<string>>, child: Node, back: Schema)
    requires TypeFromProp(stored, "type") == SchemaType && stored.children == [child]
    requires SharedIn(stored) == Shared(back.kind, back.listType, back.carType, back.cdrType, back.owner)
    requires BestNode(stored.children, if locales.Some? then locales.value else DefaultLocales) == 0
    requires InfoIn(child) == Info(back.shortDesc, back.longDesc, back.defaultValue)
    requires GetProp(child, "locale") == back.locale
    ensures Extract(stored, locales) == Some(SchemaValue(back))
  {
  }

  function LongDescNodes(sc: Schema): seq<Node> {
    if sc.longDesc.Some? then [NewNode("longdesc").(text := sc.longDesc.value)] else []
  }

  lemma {:induction false} LongDescComesBack(sc: Schema)
    ensures FirstLongDesc(LongDescNodes(sc)) == sc.longDesc && FirstDefault(LongDescNodes(sc)) == None
  {
    if sc.longDesc.Some? {
      assert LongDescNodes(sc)[1..] == [];
    }
  }

  /** Of a schema's part everything but the default is certain to come back. */
  lemma {:induction false} PartsFilled(node: Node, sc: Schema)
    ensures var filled := FillLocal(node, sc);
            && filled.name == node.name && GetProp(filled, "locale") == Norm(sc.locale)
            && GetProp(filled, "short_desc") == Norm(sc.shortDesc) && FirstLongDesc(filled.children) == sc.longDesc
            && FirstDefault(filled.children) ==
               if sc.defaultValue.Some? then Extract(SetValue(NewNode("default"), sc.defaultValue.value), None)
               else None
  {
    var filled, long := FillLocal(node, sc), LongDescNodes(sc);
    LongDescComesBack(sc);
    if sc.defaultValue.Some? {
      var first := SetValue(NewNode("default"), sc.defaultValue.value);
      NameKept(NewNode("default"), sc.defaultValue.value);
      assert filled.children == [first] + long && ([first] + long)[1..] == long;
    } else {
      assert filled.children == [] + long && [] + long == long;
    }
  }

  lemma {:induction false} DefaultComesBackExactlyWhen(sc: Schema)
    ensures FirstDefault(FillLocal(NewNode("local_schema"), sc).children) == sc.defaultValue
            <==> (sc.defaultValue.Some? ==> ComesBack(sc.defaultValue.value))
    decreases sc
  {
    PartsFilled(NewNode("local_schema"), sc);
    if sc.defaultValue.Some? {
      ComesBackExactlyWhen(NewNode("default"), sc.defaultValue.value, None);
    }
  }

  /** Whatever is read from a node, however it came to be, would come back. */
  lemma {:induction false} ReadComesBack(node: Node, locales: Option<seq<string>>)
    ensures Extract(node, locales).Some? ==> ComesBack(Extract(node, locales).value)
    decreases node, 2
  {
    var ls := if locales.Some? then locales.value else DefaultLocales;
    match TypeFromProp(node, "type")
    case IntType =>
      var text := GetProp(node, "value");
      if text.Some? {
        NarrowFits(Atoi(text.value));
      }
    case StringType => StringsAreStrings(node.children);
    case ListType => ElemsReadComeBack(node.children, TypeFromProp(node, "ltype"), ls);
    case PairType =>
      HalfReadComesBack(node.children, "car", ls);
      HalfReadComesBack(node.children, "cdr", ls);
    case SchemaType =>
      var best := BestNode(node.children, ls);
      if best < |node.children| {
        InfoReadComesBack(node.children[best]);
      }
    case _ =>
  }

  lemma {:induction false} ElemsReadComeBack(children: seq<Node>, t: ValueType, locales: seq<string>)
    ensures forall v :: v in ExtractElems(children, t, locales) ==> TypeOf(v) == t && ComesBack(v)
    decreases children, 0
  {
    if children != [] {
      ReadComesBack(children[0], Some(locales));
      ElemsReadComeBack(children[1..], t, locales);
    }
  }

  lemma {:induction false} HalfReadComesBack(children: seq<Node>, name: string, locales: seq<string>)
    ensures var v := ExtractHalf(children, name, locales); v.Some? ==> !Nests(v.value) && ComesBack(v.value)
    decreases children, 0
  {
    if children != [] {
      ReadComesBack(children[0], Some(locales));
      HalfReadComesBack(children[1..], name, locales);
    }
  }

  lemma {:induction false} InfoReadComesBack(node: Node)
    ensures StorableInfo(InfoIn(node)) && Norm(InfoIn(node).shortDesc) == InfoIn(node).shortDesc
    decreases node, 1
  {
    DefaultReadComesBack(node.children);
  }

  lemma {:induction false} DefaultReadComesBack(children: seq<Node>)
    ensures FirstDefault(children).Some? ==> ComesBack(FirstDefault(children).value)
    decreases children, 0
  {
    if children != [] {
      ReadComesBack(children[0], None);
      DefaultReadComesBack(children[1..]);
    }
  }

  // ----- what a schema's node says for each locale -----

  /** What a node says for a locale, if it has a child for it. */
  function InfoAt(children: seq<Node>, locale: Option<string>): Option<Info> {
    var i := FirstLocal(children, locale);
    if i < |children| then Some(InfoIn(children[i])) else None
  }

  predicate StorableInfo(info: Info) {
    info.defaultValue.Some? ==> ComesBack(info.defaultValue.value)
  }

  predicate IsPart(child: Node) {
    child.name == "local_schema"
  }

  /** Children of which no two are parts for the same locale; what is no part is for no locale. */
  predicate WellFormed(children: seq<Node>) {
    && (forall i :: 0 <= i < |children| && !IsPart(children[i]) ==> GetProp(children[i], "locale") == None)
    && (forall i, j :: 0 <= i < j < |children| && IsPart(children[i]) && IsPart(children[j]) ==>
          GetProp(children[i], "locale") != GetProp(children[j], "locale"))
  }

  function InfoOf(sc: Schema): Info {
    Info(Norm(sc.shortDesc), sc.longDesc, sc.defaultValue)
  }

  lemma {:induction false} FilledLocal(node: Node, sc: Schema)
    requires sc.defaultValue.Some? ==> ComesBack(sc.defaultValue.value)
    ensures var filled := FillLocal(node, sc);
            filled.name == node.name && GetProp(filled, "locale") == Norm(sc.locale) && InfoIn(filled) == InfoOf(sc)
  {
    PartsFilled(node, sc);
    if sc.defaultValue.Some? {
      ComesBackExactlyWhen(NewNode("default"), sc.defaultValue.value, None);
    }
  }

  lemma {:induction false} InfoAtFirst(child: Node, rest: seq<Node>, locale: Option<string>)
    ensures InfoAt([child] + rest, locale) ==
            if IsLocal(child, locale) then Some(InfoIn(child)) else InfoAt(rest, locale)
  {
    assert ([child] + rest)[1..] == rest;
  }

  /** Writing one locale's part changes what the node says for that locale, and for no other. */
  lemma {:induction false} WriteLocalSays(children: seq<Node>, sc: Schema, locale: Option<string>)
    requires WellFormed(children) && sc.locale != Some("")
    requires sc.defaultValue.Some? ==> ComesBack(sc.defaultValue.value)
    ensures InfoAt(WriteLocal(children, sc), locale) ==
            if locale == sc.locale then Some(InfoOf(sc)) else InfoAt(children, locale)
    decreases |children|
  {
    if children == [] {
      FilledLocal(NewNode("local_schema"), sc);
      InfoAtFirst(FillLocal(NewNode("local_schema"), sc), [], locale);
    } else {
      var child, rest := children[0], children[1..];
      assert children == [child] + rest;
      InfoAtFirst(child, rest, locale);
      if IsLocal(child, sc.locale) {
        FilledLocal(child, sc);
        InfoAtFirst(FillLocal(child, sc), rest, locale);
      } else {
        WriteLocalSays(rest, sc, locale);
        InfoAtFirst(child, WriteLocal(rest, sc), locale);
      }
    }
  }

  predicate LocaleIn(nodes: seq<Node>, locale: Option<string>) {
    exists i :: 0 <= i < |nodes| && IsLocal(nodes[i], locale)
  }

  lemma {:induction false} WellFormedCons(child: Node, rest: seq<Node>)
    requires WellFormed(rest)
    requires if IsPart(child) then !LocaleIn(rest, GetProp(child, "locale")) else GetProp(child, "locale") == None
    ensures WellFormed([child] + rest)
  {
    var all := [child] + rest;
    forall j | 0 < j < |all|
      ensures all[j] == rest[j - 1]
      ensures IsPart(child) && IsPart(all[j]) ==> GetProp(child, "locale") != GetProp(all[j], "locale")
    {
      if IsPart(child) && IsPart(all[j]) {
        assert !IsLocal(rest[j - 1], GetProp(child, "locale"));
      }
    }
  }

  lemma WellFormedTail(children: seq<Node>)
    requires WellFormed(children) && children != []
    ensures WellFormed(children[1..])
    ensures if IsPart(children[0]) then !LocaleIn(children[1..], GetProp(children[0], "locale"))
            else GetProp(children[0], "locale") == None
  {
  }

  lemma {:induction false} WriteLocalLocales(children: seq<Node>, sc: Schema, locale: Option<string>)
    requires sc.locale != Some("")
    requires locale != sc.locale && !LocaleIn(children, locale)
    ensures !LocaleIn(WriteLocal(children, sc), locale)
    decreases |children|
  {
    if children == [] {
      PartsFilled(NewNode("local_schema"), sc);
    } else {
      PartsFilled(children[0], sc);
      if !IsLocal(children[0], sc.locale) {
        WriteLocalLocales(children[1..], sc, locale);
      }
    }
  }

  lemma {:induction false} WriteLocalStaysWellFormed(children: seq<Node>, sc: Schema)
    requires WellFormed(children) && sc.locale != Some("")
    ensures WellFormed(WriteLocal(children, sc))
    ensures children != [] ==> WriteLocal(children, sc)[0].name == children[0].name
    ensures WriteLocal(children, sc) != [] && (children == [] ==> IsPart(WriteLocal(children, sc)[0]))
    decreases |children|
  {
    if children == [] {
      PartsFilled(NewNode("local_schema"), sc);
    } else {
      var child, rest := children[0], children[1..];
      WellFormedTail(children);
      if IsLocal(child, sc.locale) {
        PartsFilled(child, sc);
        WellFormedCons(FillLocal(child, sc), rest);
      } else {
        WriteLocalStaysWellFormed(rest, sc);
        if IsPart(child) {
          WriteLocalLocales(rest, sc, GetProp(child, "locale"));
        }
        WellFormedCons(child, WriteLocal(rest, sc));
      }
    }
  }

  // ----- which child is read -----

  /** The first of the wanted locales a node says something for. */
  function FirstAvailable(children: seq<Node>, locales: seq<string>): Option<string>
    decreases |locales|
  {
    if locales == [] then None
    else if InfoAt(children, Some(locales[0])).Some? then Some(locales[0])
    else FirstAvailable(children, locales[1..])
  }

  lemma SameLocaleSameChild(children: seq<Node>, i: nat, j: nat)
    requires WellFormed(children) && i < |children| && j < |children| && IsPart(children[i]) && IsPart(children[j])
    requires GetProp(children[i], "locale") == GetProp(children[j], "locale")
    ensures i == j
  {
  }

  lemma {:induction false} OneForEachLocale(children: seq<Node>, i: nat)
    requires WellFormed(children) && i < |children| && IsPart(children[i])
    ensures var locale := GetProp(children[i], "locale");
            && FirstLocal(children, locale) == i == LastLocal(children, locale)
            && InfoAt(children, locale) == Some(InfoIn(children[i]))
  {
    var locale := GetProp(children[i], "locale");
    assert IsLocal(children[i], locale);
    SameLocaleSameChild(children, FirstLocal(children, locale), i);
    SameLocaleSameChild(children, LastLocal(children, locale), i);
  }

  lemma {:induction false} LocalizedIsAvailable(children: seq<Node>, locales: seq<string>)
    requires WellFormed(children)
    ensures var i, l := Localized(children, locales), FirstAvailable(children, locales);
            && i <= |children| && (i < |children| <==> l.Some?)
            && (i < |children| ==> IsLocal(children[i], l))
    decreases |locales|
  {
    if locales != [] {
      var l := Some(locales[0]);
      var first, last := FirstLocal(children, l), LastLocal(children, l);
      if last < |children| {
        OneForEachLocale(children, last);
      }
      assert first < |children| <==> last < |children|;
      LocalizedIsAvailable(children, locales[1..]);
    }
  }

  /**
   * With several wanted locales, the schema is read from the child for the first that is available; if
   * none is, from the part for no locale, and if there is no such part, from whatever comes first.
   */
  lemma {:induction false} BestIsFirstAvailable(children: seq<Node>, locales: seq<string>)
    requires WellFormed(children)
    ensures var i, l := BestNode(children, locales), FirstAvailable(children, locales);
            && (i < |children| || children == [])
            && (l.Some? ==> i < |children| && IsLocal(children[i], l))
            && (l == None && InfoAt(children, None).Some? ==> i < |children| && IsLocal(children[i], None))
            && (l == None && InfoAt(children, None) == None ==> i == 0)
  {
    LocalizedIsAvailable(children, locales);
  }

  /** find_schema_subnode_by_locale, walking the children. */
  method FindLocal(children: seq<Node>, locale: Option<string>) returns (found: nat)
    ensures found == FirstLocal(children, locale)
  {
    found := 0;
    while found < |children| && !IsLocal(children[found], locale)
      invariant found <= |children| && forall j :: 0 <= j < found ==> !IsLocal(children[j], locale)
    {
      found := found + 1;
    }
  }

  /** The slot of the k-th wanted locale after the first i children: repeated locales are never filled. */
  function Slot(children: seq<Node>, i: nat, locales: seq<string>, k: nat): nat
    requires i <= |children| && k < |locales|
  {
    var last := LastLocal(children[..i], Some(locales[k]));
    if locales[k] in locales[..k] || last == i then |children| else last
  }

  ghost predicate SlotsAre(slots: seq<nat>, children: seq<Node>, i: nat, locales: seq<string>)
    requires i <= |children|
  {
    |slots| == |locales| && forall k :: 0 <= k < |locales| ==> slots[k] == Slot(children, i, locales, k)
  }

  /** k is the slot the child belongs in, the number of wanted locales if it belongs in none. */
  predicate BelongsIn(child: Node, locales: seq<string>, k: nat) {
    && k <= |locales|
    && (k < |locales| ==> IsLocal(child, Some(locales[k])))
    && forall j :: 0 <= j < k ==> !IsLocal(child, Some(locales[j]))
  }

  method FindWanted(child: Node, locales: seq<string>) returns (k: nat)
    ensures BelongsIn(child, locales, k)
  {
    var locale := GetProp(child, "locale");
    if child.name != "local_schema" || locale == None {
      return |locales|;
    }
    k := 0;
    while k < |locales| && locales[k] != locale.value
      invariant k <= |locales| && forall j :: 0 <= j < k ==> locales[j] != locale.value
    {
      k := k + 1;
    }
  }

  lemma FilledOneMore(slots: seq<nat>, children: seq<Node>, i: nat, locales: seq<string>, k: nat)
    requires i < |children| && SlotsAre(slots, children, i, locales) && BelongsIn(children[i], locales, k)
    ensures SlotsAre(if k < |locales| then slots[k := i] else slots, children, i + 1, locales)
  {
    assert children[..i + 1][..i] == children[..i];
    forall j | 0 <= j < |locales|
      ensures Slot(children, i + 1, locales, j) == if j == k then i else Slot(children, i, locales, j)
    {
      if j > k && k < |locales| {
        assert locales[k] in locales[..j];
      }
    }
  }

  /** Looks through all children for all wanted locales, and stops at one for the most wanted. */
  method FillSlots(children: seq<Node>, locales: seq<string>) returns (slots: array<nat>)
    requires locales != []
    ensures fresh(slots) && slots.Length == |locales|
    ensures slots[0] == FirstLocal(children, Some(locales[0]))
    ensures slots[0] == |children| ==> SlotsAre(slots[..], children, |children|, locales)
  {
    slots := new nat[|locales|](_ => |children|);
    var i: nat := 0;
    while i < |children| && slots[0] == |children|
      invariant i <= |children| && Filling(slots[..], children, i, locales)
    {
      var k := FindWanted(children[i], locales);
      ghost var before := slots[..];
      FillingStep(before, children, i, locales, k);
      if k < |locales| {
        slots[k] := i;
      }
      assert slots[..] == if k < |locales| then before[k := i] else before;
      i := i + 1;
    }
    if slots[0] == |children| {
      NoLocal(children, Some(locales[0]));
    }
  }

  /** In the middle of that pass: the first slot is filled only by the first child for the most wanted locale. */
  ghost predicate Filling(slots: seq<nat>, children: seq<Node>, i: nat, locales: seq<string>)
    requires i <= |children| && locales != []
  {
    && SlotsAre(slots, children, i, locales)
    && (slots[0] == |children| ==> forall j :: 0 <= j < i ==> !IsLocal(children[j], Some(locales[0])))
    && (slots[0] < |children| ==> slots[0] == FirstLocal(children, Some(locales[0])))
    && slots[0] <= |children|
  }

  lemma FillingStep(slots: seq<nat>, children: seq<Node>, i: nat, locales: seq<string>, k: nat)
    requires i < |children| && locales != [] && Filling(slots, children, i, locales) && slots[0] == |children|
    requires BelongsIn(children[i], locales, k)
    ensures Filling(if k < |locales| then slots[k := i] else slots, children, i + 1, locales)
  {
    FilledOneMore(slots, children, i, locales, k);
    if k == 0 {
      FirstLocalIs(children, i, Some(locales[0]));
    }
  }

  lemma {:induction false} FirstLocalIs(children: seq<Node>, i: nat, locale: Option<string>)
    requires i < |children| && IsLocal(children[i], locale) && forall j :: 0 <= j < i ==> !IsLocal(children[j], locale)
    ensures FirstLocal(children, locale) == i
  {
  }

  lemma {:induction false} NoLocal(children: seq<Node>, locale: Option<string>)
    requires forall j :: 0 <= j < |children| ==> !IsLocal(children[j], locale)
    ensures FirstLocal(children, locale) == |children|
  {
  }

  /** The choice of the child to read, as schema_node_extract_value makes it. */
  method FindBest(children: seq<Node>, locales: seq<string>) returns (best: nat)
    ensures best == BestNode(children, locales)
  {
    if locales != [] {
      var slots := FillSlots(children, locales);
      if slots[0] < |children| {
        return slots[0];
      }
      assert children[..|children|] == children;
      var k := 0;
      while k < |locales| && slots[k] == |children|
        invariant k <= |locales|
        invariant forall j :: 0 <= j < k ==> LastLocal(children, Some(locales[j])) == |children|
        invariant Localized(children, locales[k..]) == Localized(children, locales)
      {
        assert locales[k..][1..] == locales[k + 1..];
        k := k + 1;
      }
      if k < |locales| {
        return slots[k];
      }
      assert locales[k..] == [];
    }
    best := FindLocal(children, None);
    if best == |children| {
      best := 0;
    }
  }

  // ----- the nodes themselves, for a few values written out -----

  lemma {:induction false} PlainNodesAre()
    ensures SetValue(NewNode("entry"), IntValue(-5)) == Node("entry", map["type" := "int", "value" := "-5"], "", [])
    ensures SetValue(NewNode("li"), BoolValue(true)) == Node("li", map["type" := "bool", "value" := "true"], "", [])
    ensures SetValue(NewNode("car"), StringValue("x")) ==
            Node("car", map["type" := "string"], "", [Node("stringvalue", map[], "x", [])])
  {
    assert IntText(-5) == "-5";
    assert Norm(Some("-5")) == Some("-5");
  }

  lemma {:induction false} ListNodesAre()
    ensures SetValue(NewNode("entry"), ListValue(IntType, [])) ==
            Node("entry", map["type" := "list", "ltype" := "int"], "", [])
    ensures ElemNodes([BoolValue(true)]) == [Node("li", map["type" := "bool", "value" := "true"], "", [])]
  {
    PlainNodesAre();
    assert [BoolValue(true)][1..] == [] && ElemNodes([]) == [];
  }

  lemma {:induction false} PairNodesAre(car: Value, cdr: Value)
    ensures var node := SetValue(NewNode("entry"), PairValue(Some(car), Some(cdr)));
            && node.name == "entry" && node.attrs == map["type" := "pair"] && node.text == ""
            && node.children == [SetValue(NewNode("car"), car), SetValue(NewNode("cdr"), cdr)]
  {
  }

  lemma {:induction false} SchemaPropsAre()
    ensures var sc := Schema(PairType, ListType, IntType, BoolType, Some("o"), None, None, None, None);
            SharedProps(NewNode("entry"), sc).attrs ==
            map["stype" := "pair", "list_type" := "list", "car_type" := "int", "cdr_type" := "bool", "owner" := "o"]
  {
    var sc := Schema(PairType, ListType, IntType, BoolType, Some("o"), None, None, None, None);
    assert PartTypeProps(NewNode("entry"), sc).attrs ==
           map["list_type" := "list", "car_type" := "int", "cdr_type" := "bool"];
  }

  lemma {:induction false} LocalNodesAre()
    ensures var sc := Schema(IntType, IntType, IntType, IntType, None, Some("de"), Some("s"), Some("l"), None);
            FillLocal(NewNode("local_schema"), sc) ==
            Node("local_schema", map["locale" := "de", "short_desc" := "s"], "", [Node("longdesc", map[], "l", [])])
    ensures var sc := Schema(BoolType, IntType, IntType, IntType, None, None, None, None, Some(BoolValue(true)));
            FillLocal(NewNode("local_schema"), sc) ==
            Node("local_schema", map[], "", [Node("default", map["type" := "bool", "value" := "true"], "", [])])
  {
    assert SetValue(NewNode("default"), BoolValue(true)).attrs == map["type" := "bool", "value" := "true"];
  }

  /** Which words are read as a truth value: their first character decides. */
  lemma {:induction false} BoolWords(c: char, rest: string)
    ensures c in "tT1yY" ==> BoolFrom([c] + rest) == Some(BoolValue(true))
    ensures c in "fF0nN" ==> BoolFrom([c] + rest) == Some(BoolValue(false))
    ensures c !in "tT1yYfF0nN" ==> BoolFrom([c] + rest) == None
  {
  }
}
