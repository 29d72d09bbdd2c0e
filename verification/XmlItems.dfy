/**
 * What an entry of the XML backend is meant to hold: a value, or what was written of a schema for each
 * locale, and the name of its schema. Which changes an entry follows, what it answers, and what is lost
 * when it is written into its node and loaded again.
 */
module XmlItems {
  import opened Options
  import opened Paths
  import opened Values
  import opened XmlNodes
  import opened XmlEntries

  datatype Content =
    | Nothing
    | Simple(value: Value)
    | Localized(shared: Shared, written: Written)

  datatype Item = Item(content: Content, schemaName: Option<string>)

  const NoItem := Item(Nothing, None)

  // ----- what the operations are meant to do -----

  function PartsOf(content: Content): Written {
    if content.Localized? then content.written else map[]
  }

  /** A schema replaces the part for its locale of the schema that was there; anything else replaces all. */
  function ItemSet(item: Item, v: Value): Item {
    item.(content := if v.SchemaValue?
                     then Localized(SharedOf(v.schema), PartsOf(item.content)[v.schema.locale := InfoOf(v.schema)])
                     else Simple(v))
  }

  /** Without the part for one locale, or without any value when that was the only one. */
  function ItemUnset(item: Item, locale: Option<string>): Item {
    var left := if locale.Some? then PartsOf(item.content) - {locale} else map[];
    item.(content := if item.content.Localized? && left != map[] then item.content.(written := left) else Nothing)
  }

  /** The first of the wanted locales that was written. */
  function FirstWritten(written: Written, locales: seq<string>): Option<string>
    decreases |locales|
  {
    if locales == [] then None
    else if Some(locales[0]) in written then Some(locales[0])
    else FirstWritten(written, locales[1..])
  }

  /**
   * The part of a schema a query may answer: for the first wanted locale that was written, else for no
   * locale, else for any. A query that names no locales is answered for C or for no locale if it can be.
   */
  predicate PartAnswers(shared: Shared, written: Written, locales: Option<seq<string>>, sc: Schema) {
    && SharedOf(sc) == shared && sc.locale in written && written[sc.locale] == InfoOf(sc)
    && match locales
       case Some(ls) => FirstWritten(written, ls).Some? || None in written ==> sc.locale == FirstWritten(written, ls)
       case None => None in written || Some("C") in written ==> sc.locale in {None, Some("C")}
  }

  predicate Matches(item: Item, locales: Option<seq<string>>, value: Option<Value>, schemaName: Option<string>) {
    && schemaName == item.schemaName
    && match item.content
       case Nothing => value == None
       case Simple(v) => value == Some(v)
       case Localized(shared, written) =>
         value.Some? && value.value.SchemaValue? && PartAnswers(shared, written, locales, value.value.schema)
  }

  // ----- the entries that hold an item -----

  ghost predicate Holds(e: EntryState, content: Content) {
    match content
    case Nothing => e.cached == None && (!e.dirty ==> Extract(e.node, None) == None)
    case Simple(v) =>
      && !v.SchemaValue? && ComesBack(v) && e.cached == Some(v)
      && (!e.dirty ==> Extract(e.node, None) == Some(v))
    case Localized(shared, written) =>
      Sound(e) && CachesSchema(e) && SharedOf(e.cached.value.schema) == shared && StandsFor(e, written)
  }

  /** The entry holds the item, and will when it has been written and loaded again. */
  ghost predicate Means(e: EntryState, item: Item) {
    && e.schemaName == item.schemaName && (item.schemaName.Some? ==> ValidKey(item.schemaName.value))
    && (!e.dirty ==> SchemaNameIn(e.node) == e.schemaName)
    && WellFormed(e.node.children) && Holds(e, item.content)
  }

  /** No entry at all holds nothing. */
  ghost predicate MeansIf(e: Option<EntryState>, item: Item) {
    if e.Some? then Means(e.value, item) else item == NoItem
  }

  lemma {:induction false} NewMeans(name: string)
    ensures Means(NewEntry(name), NoItem)
  {
  }

  lemma TouchedMeans(e: EntryState, item: Item, user: string, time: nat)
    requires Means(e, item)
    ensures Means(Touched(e, user, time), item) && Means(Dated(e, time), item)
  {
    if item.content.Localized? {
      TouchStandsFor(e, item.content.written, user, time);
    }
  }

  lemma NamedMeans(e: EntryState, item: Item, schemaName: Option<string>)
    requires Means(e, item) && (schemaName.Some? ==> ValidKey(schemaName.value))
    ensures Means(Named(e, schemaName), item.(schemaName := schemaName))
  {
    assert forall locale :: Says(Named(e, schemaName), locale) == Says(e, locale);
  }

  // ----- writing and loading -----

  lemma {:induction false} NameWritten(e: EntryState)
    ensures GetProp(WithProps(e), "schema") == Norm(e.schemaName)
    ensures GetProp(Synced(e.(dirty := true)).node, "schema") == Norm(e.schemaName)
  {
    if e.cached.Some? {
      OtherPropsStay(WithProps(e), e.cached.value, "schema");
    }
  }

  /** A child that is no part of a schema. */
  predicate NoPart(child: Node) {
    !IsPart(child) && GetProp(child, "locale") == None
  }

  lemma {:induction false} ValueIsNoPart(name: string, v: Value)
    requires name in {"li", "car", "cdr"}
    ensures NoPart(SetValue(NewNode(name), v))
  {
    assert |name| < |"local_schema"|;
    NameKept(NewNode(name), v);
    OtherPropsStay(NewNode(name), v, "locale");
  }

  /** What is written of a value that is no schema is no part of one. */
  lemma {:induction false} OthersAreNoParts(node: Node, v: Value)
    requires !v.SchemaValue?
    ensures forall c :: c in SetValue(node, v).children ==> NoPart(c)
  {
    assert |"car"| == |"cdr"| < |"stringvalue"| < |"local_schema"|;
    match v
    case ListValue(t, elems) =>
      ElemsAreNoParts(elems);
      assert SetValue(node, v).children == ElemNodes(elems);
    case PairValue(car, cdr) =>
      if car.Some? && cdr.Some? {
        ValueIsNoPart("car", car.value);
        ValueIsNoPart("cdr", cdr.value);
      }
    case _ =>
  }

  lemma {:induction false} ElemsAreNoParts(elems: seq<Value>)
    ensures forall c :: c in ElemNodes(elems) ==> NoPart(c)
    decreases |elems|
  {
    if elems != [] {
      ElemsAreNoParts(elems[1..]);
      ValueIsNoPart("li", elems[0]);
    }
  }

  lemma NoPartsAreWellFormed(children: seq<Node>)
    requires forall c :: c in children ==> NoPart(c)
    ensures WellFormed(children)
  {
    assert forall i :: 0 <= i < |children| ==> NoPart(children[i]);
  }

  lemma {:induction false} SyncedMeans(e: EntryState, item: Item)
    requires Means(e, item)
    ensures Means(Synced(e), item) && !Synced(e).dirty
  {
    if e.dirty {
      NameWritten(e);
      match item.content {
        case Nothing =>
        case Simple(v) =>
          ComesBackExactlyWhen(WithProps(e), v, None);
          OthersAreNoParts(WithProps(e), v);
          NoPartsAreWellFormed(Synced(e).node.children);
        case Localized(_, written) =>
          SyncSays(e, None);
          SaveStandsFor(e, written);
      }
    }
  }

  lemma {:induction false} LoadedMeans(name: string, e: EntryState, item: Item)
    requires Means(e, item) && !e.dirty
    ensures Means(Loaded(name, e.node), item)
  {
    if item.content.Localized? {
      var e', sc := Loaded(name, e.node), ExtractSchema(e.node, DefaultLocales);
      assert e'.cached == Some(SchemaValue(sc));
      forall locale
        ensures Sound(e') && SameSayings(e, e', locale)
      {
        ExtractedIsSound(e, DefaultLocales, locale);
      }
      ExtractedIsSound(e, DefaultLocales, None);
      UnseenStandsFor(e, e', item.content.written);
    }
  }

  // ----- reading -----

  lemma {:induction false} FirstIsPreferred(e: EntryState, written: Written, locales: seq<string>)
    requires StandsFor(e, written)
    ensures Preferred(e, locales) == FirstWritten(written, locales)
    decreases |locales|
  {
    if locales != [] {
      FirstIsPreferred(e, written, locales[1..]);
    }
  }

  /** What is read is a part the entry says, for the locale a query is answered for. */
  lemma {:induction false} PartIsRead(e: EntryState, shared: Shared, written: Written, locales: Option<seq<string>>)
    requires Holds(e, Localized(shared, written))
    ensures Holds(Got(e, locales), Localized(shared, written))
    ensures PartAnswers(shared, written, locales, Got(e, locales).cached.value.schema)
  {
    var e' := Got(e, locales);
    match locales
    case Some(ls) =>
      GotSays(e, ls, None);
      FirstIsPreferred(e, written, ls);
      ReadStandsFor(e, written, ls);
    case None => PlainPartIsRead(e, shared, written);
  }

  lemma {:induction false} PlainPartIsRead(e: EntryState, shared: Shared, written: Written)
    requires Holds(e, Localized(shared, written))
    ensures Holds(Got(e, None), Localized(shared, written))
    ensures PartAnswers(shared, written, None, Got(e, None).cached.value.schema)
  {
    PlainReadSays(e);
    if e.cached.value.schema.locale != None {
      GotExtracts(e, None);
      forall locale
        ensures SameSayings(e, Got(e, None), locale)
      {
        ExtractedSays(e, DefaultLocales, locale);
      }
      ExtractedSays(e, DefaultLocales, None);
      UnseenStandsFor(e, Got(e, None), written);
    }
  }

  /** A query leaves the entry holding what it held, and answers as it should. */
  lemma {:induction false} ReadMeans(e: EntryState, item: Item, locales: Option<seq<string>>)
    requires Means(e, item)
    ensures Means(Got(e, locales), item) && Matches(item, locales, Got(e, locales).cached, e.schemaName)
  {
    if item.content.Localized? {
      PartIsRead(e, item.content.shared, item.content.written, locales);
      SyncedMeans(e, item);
      assert Got(e, locales).node == Synced(e).node || Got(e, locales) == e;
    }
  }

  lemma KeptMeans(e: EntryState, item: Item)
    requires Means(e, item)
    ensures MeansIf(Kept(e), item)
  {
    ReadMeans(e, item, None);
  }

  // ----- setting -----

  /** Parts of an earlier schema in the node, or what was never a part where a read would look for one. */
  predicate Leftover(children: seq<Node>, locale: Option<string>) {
    || (exists i :: 0 <= i < |children| && IsPart(children[i]) && GetProp(children[i], "locale") != locale)
    || (locale.Some? && children != [] && !IsPart(children[0]))
  }

  /** The value can be written and read again, and a schema is not mixed with what it does not replace. */
  predicate SetFits(e: EntryState, v: Value) {
    if v.SchemaValue? then Storable(v.schema) && (CachesSchema(e) || !Leftover(e.node.children, v.schema.locale))
    else ComesBack(v)
  }

  lemma {:induction false} SetMeans(e: EntryState, item: Item, v: Value)
    requires Means(e, item) && SetFits(e, v)
    ensures Means(Set(e, v), ItemSet(item, v))
  {
    if item.content.Localized? {
      SyncedMeans(e, item);
    }
    if v.SchemaValue? {
      if CachesSchema(e) {
        WriteIsRemembered(e, item.content.written, v.schema);
      } else {
        FirstSchemaSays(e, v.schema);
      }
    }
  }

  lemma {:induction false} FirstSchemaSays(e: EntryState, sc: Schema)
    requires WellFormed(e.node.children) && !CachesSchema(e)
    requires Storable(sc) && !Leftover(e.node.children, sc.locale)
    ensures Sound(Set(e, SchemaValue(sc))) && StandsFor(Set(e, SchemaValue(sc)), map[sc.locale := InfoOf(sc)])
  {
    forall k | k != sc.locale
      ensures InfoAt(e.node.children, k) == None
    {
      NoLocal(e.node.children, k);
    }
  }

  // ----- unsetting -----

  /** The part for that locale is the only one. */
  ghost predicate OnlyPart(e: EntryState, locale: string) {
    forall k :: Says(e, k).Some? ==> k == Some(locale)
  }

  /** What a read falls back to among these is a part. */
  predicate StartsWithPart(children: seq<Node>) {
    children != [] && (IsPart(children[0]) || InfoAt(children, None).Some?)
  }

  /**
   * Unsetting a schema for one locale reads what is left back from a node the schema was perhaps not
   * written into: what was cached has to be there, or if the last part goes nothing at all.
   */
  ghost predicate UnsetFits(e: EntryState, locale: Option<string>) {
    locale.Some? && CachesSchema(e) ==>
      if OnlyPart(e, locale.value) then Extract(Unset(e, locale).node, None) == None
      else
        && TypeFromProp(e.node, "type") == SchemaType && SharedIn(e.node) == SharedOf(e.cached.value.schema)
        && PartStays(e, locale.value) && StartsWithPart(WithoutLocal(e.node.children, locale.value))
  }

  lemma {:induction false} UnsetMeans(e: EntryState, item: Item, locale: Option<string>)
    requires Means(e, item) && UnsetFits(e, locale)
    ensures Means(Unset(e, locale), ItemUnset(item, locale))
  {
    if locale.Some? && item.content.Localized? {
      WithoutLocalIsWellFormed(e.node.children, locale.value);
      var left := item.content.written - {locale};
      if OnlyPart(e, locale.value) {
        assert forall k :: k in item.content.written ==> Says(e, k).Some?;
        assert left == map[];
      } else {
        var k :| Says(e, k).Some? && k != locale;
        assert k in left;
        PartUnset(e, item.content.written, locale.value, k);
      }
    }
  }

  lemma {:induction false} PartUnset(e: EntryState, written: Written, locale: string, other: Option<string>)
    requires Sound(e) && CachesSchema(e) && StandsFor(e, written)
    requires TypeFromProp(e.node, "type") == SchemaType && PartStays(e, locale)
    requires other in written && other != Some(locale) && StartsWithPart(WithoutLocal(e.node.children, locale))
    ensures var e' := Unset(e, Some(locale));
            && Sound(e') && CachesSchema(e') && StandsFor(e', written - {Some(locale)})
            && SharedOf(e'.cached.value.schema) == SharedIn(e.node)
  {
    var left := e.node.(children := WithoutLocal(e.node.children, locale));
    var e' := Unset(e, Some(locale));
    WithoutLocalIsWellFormed(e.node.children, locale);
    SchemaExtracts(left, DefaultLocales);
    ReadBackIsSound(e', left);
    forall k
      ensures Says(e', k) == if k == Some(locale) then None else Says(e, k)
    {
      LeftSays(e, locale, k);
    }
  }

  lemma {:induction false} ReadBackIsSound(e: EntryState, node: Node)
    requires WellFormed(node.children) && StartsWithPart(node.children)
    requires e.node == node && e.dirty && e.cached == Some(SchemaValue(ExtractSchema(node, DefaultLocales)))
    ensures Sound(e) && SharedOf(e.cached.value.schema) == SharedIn(node)
    ensures forall k :: Says(e, k) == InfoAt(node.children, k)
  {
    ExtractedPart(node, DefaultLocales);
  }

  lemma {:induction false} LeftSays(e: EntryState, locale: string, k: Option<string>)
    requires Sound(e) && CachesSchema(e) && PartStays(e, locale)
    ensures InfoAt(WithoutLocal(e.node.children, locale), k) == if k == Some(locale) then None else Says(e, k)
  {
    WithoutLocalSays(e.node.children, locale, k);
  }

  // ----- what a node holds when it is first read -----

  function LocalesOf(children: seq<Node>): set<Option<string>> {
    set c | c in children :: GetProp(c, "locale")
  }

  /** All that a loaded entry says. */
  function SaidBy(e: EntryState): Written {
    map l | l in LocalesOf(e.node.children) + {None} && Says(e, l).Some? :: Says(e, l).value
  }

  function ItemOf(e: EntryState): Item {
    Item(if e.cached == None then Nothing
         else if CachesSchema(e) then Localized(SharedOf(e.cached.value.schema), SaidBy(e))
         else Simple(e.cached.value),
         e.schemaName)
  }

  /** A node the backend could have written: parts for different locales, of which a read finds one. */
  predicate Understood(name: string, node: Node) {
    && WellFormed(node.children)
    && (CachesSchema(Loaded(name, node)) ==> ReadsAPart(Loaded(name, node)))
  }

  lemma {:induction false} SaidIsAll(e: EntryState)
    requires CachesSchema(e) && e.cached.value.schema.locale in LocalesOf(e.node.children) + {None}
    ensures StandsFor(e, SaidBy(e))
  {
    forall l | l !in LocalesOf(e.node.children)
      ensures InfoAt(e.node.children, l) == None
    {
      NoLocal(e.node.children, l);
    }
  }

  /** A node's entry holds something, and then what it says, exactly when the backend could have written it. */
  lemma {:induction false} LoadedMeansExactlyWhen(name: string, node: Node)
    ensures var e := Loaded(name, node);
            && (Understood(name, node) <==> Means(e, ItemOf(e)))
            && (Understood(name, node) <==> exists item :: Means(e, item))
  {
    var e := Loaded(name, node);
    if Understood(name, node) {
      ReadComesBack(node, None);
      ReadHasType(node, None);
      if CachesSchema(e) {
        assert e.cached == Some(SchemaValue(ExtractSchema(node, DefaultLocales)));
        SaidIsAll(e);
      }
    } else if item :| Means(e, item) {
      assert false;
    }
  }

  // ----- what is lost -----

  /** What survives being written and loaded again. */
  predicate Lasts(item: Item) {
    && (item.schemaName.Some? ==> ValidKey(item.schemaName.value))
    && match item.content
       case Nothing => true
       case Simple(v) => ComesBack(v)
       case Localized(_, written) => forall l :: l in written ==> l != Some("") && StorableInfo(written[l])
  }

  lemma {:induction false} MeansLasts(e: EntryState, item: Item)
    requires Means(e, item)
    ensures Lasts(item)
  {
    if item.content.Localized? {
      forall l | l in item.content.written
        ensures l != Some("") && StorableInfo(item.content.written[l])
      {
        assert Says(e, l) == Some(item.content.written[l]);
        var i := FirstLocal(e.node.children, l);
        if i < |e.node.children| {
          InfoReadComesBack(e.node.children[i]);
        }
      }
    }
  }

  lemma {:induction false} SetLastsExactlyWhen(item: Item, v: Value)
    requires Lasts(item)
    ensures Lasts(ItemSet(item, v)) <==> if v.SchemaValue? then Storable(v.schema) else ComesBack(v)
  {
    if v.SchemaValue? {
      var written := ItemSet(item, v).content.written;
      assert v.schema.locale in written && written[v.schema.locale] == InfoOf(v.schema);
    }
  }

  /** What can be read from a node. */
  predicate Readable(value: Option<Value>, schemaName: Option<string>) {
    (value.Some? ==> ComesBack(value.value)) && (schemaName.Some? ==> ValidKey(schemaName.value))
  }

  /** Whatever a loaded entry answers was read from its node. */
  lemma {:induction false} LoadedAnswers(name: string, node: Node, locales: Option<seq<string>>)
    ensures var e := Loaded(name, node); Readable(Got(e, locales).cached, e.schemaName)
  {
    var e := Loaded(name, node);
    ReadComesBack(node, None);
    ReadComesBack(SyncedIfNeeded(e).node, locales);
  }

  /** The locales that ask for just this part. */
  function Asking(locale: Option<string>): seq<string> {
    if locale.Some? then [locale.value] else []
  }

  lemma {:induction false} AskedFor(written: Written, locale: Option<string>)
    requires locale in written
    ensures FirstWritten(written, Asking(locale)) == locale
  {
    if locale.Some? {
      assert Asking(locale)[1..] == [];
    }
  }

  /** What does not last shows in the answer to one query, whatever is answered from a file. */
  lemma {:induction false} LossShows(item: Item) returns (locales: seq<string>)
    requires !Lasts(item)
    ensures forall value, schemaName :: Readable(value, schemaName) ==>
              !Matches(item, Some(locales), value, schemaName)
  {
    locales := [];
    if item.content.Localized? && (item.schemaName.Some? ==> ValidKey(item.schemaName.value)) {
      var written := item.content.written;
      var l :| l in written && !(l != Some("") && StorableInfo(written[l]));
      locales := Asking(l);
      AskedFor(written, l);
    }
  }

  lemma {:induction false} WrittenPartsStay(children: seq<Node>, sc: Schema, i: nat)
    requires i < |children| && !IsLocal(children[i], sc.locale)
    ensures |WriteLocal(children, sc)| >= |children| && WriteLocal(children, sc)[i] == children[i]
    decreases |children|
  {
    if IsLocal(children[0], sc.locale) {
      assert children[1..][i - 1] == children[i];
    } else if i > 0 {
      WrittenPartsStay(children[1..], sc, i - 1);
    } else {
      WrittenLength(children, sc);
    }
  }

  lemma {:induction false} WrittenLength(children: seq<Node>, sc: Schema)
    ensures |WriteLocal(children, sc)| >= |children|
    decreases |children|
  {
    if children != [] {
      WrittenLength(children[1..], sc);
    }
  }

  /** The child a read for these locales takes is for another locale. */
  ghost predicate ReadsOther(children: seq<Node>, locales: seq<string>, locale: Option<string>) {
    var best := BestNode(children, locales);
    && best < |children| && GetProp(children[best], "locale") != locale
    && !RightLocale(locale, locales)
  }

  lemma {:induction false} OtherPartIsRead(children: seq<Node>, sc: Schema, i: nat)
    requires WellFormed(children) && Storable(sc)
    requires i < |children| && IsPart(children[i]) && GetProp(children[i], "locale") != sc.locale
    ensures ReadsOther(WriteLocal(children, sc), Asking(GetProp(children[i], "locale")), sc.locale)
  {
    var after, k := WriteLocal(children, sc), GetProp(children[i], "locale");
    WriteLocalStaysWellFormed(children, sc);
    WrittenPartsStay(children, sc, i);
    OneForEachLocale(after, i);
    OnlyAsked(after, k);
    BestIsFirstAvailable(after, Asking(k));
  }

  lemma {:induction false} ForeignChildIsRead(children: seq<Node>, sc: Schema)
    requires WellFormed(children) && Storable(sc) && sc.locale.Some? && children != [] && !IsPart(children[0])
    requires forall i :: 0 <= i < |children| && IsPart(children[i]) ==> GetProp(children[i], "locale") == sc.locale
    ensures ReadsOther(WriteLocal(children, sc), [], sc.locale)
  {
    var after := WriteLocal(children, sc);
    WriteLocalStaysWellFormed(children, sc);
    WrittenPartsStay(children, sc, 0);
    WriteLocalSays(children, sc, None);
    NoLocal(children, None);
    BestIsFirstAvailable(after, []);
  }

  /** The part the node answers with when asked for another locale than the one just set. */
  lemma {:induction false} LeftoverShows(e: EntryState, sc: Schema) returns (locales: seq<string>)
    requires WellFormed(e.node.children) && e.dirty && e.cached == Some(SchemaValue(sc))
    requires Storable(sc) && Leftover(e.node.children, sc.locale)
    ensures var got := Got(e, Some(locales)).cached;
            got.Some? && got.value.SchemaValue? && got.value.schema.locale != sc.locale
  {
    var children, node := e.node.children, Synced(e).node;
    PropsAreOther(e);
    SharedComesBack(WithProps(e), sc);
    SchemaWritten(WithProps(e), sc);
    if i :| 0 <= i < |children| && IsPart(children[i]) && GetProp(children[i], "locale") != sc.locale {
      locales := Asking(GetProp(children[i], "locale"));
      OtherPartIsRead(children, sc, i);
    } else {
      locales := [];
      ForeignChildIsRead(children, sc);
    }
    SchemaExtracts(node, locales);
  }

  lemma {:induction false} OnlyAsked(children: seq<Node>, locale: Option<string>)
    requires InfoAt(children, locale).Some?
    ensures FirstAvailable(children, Asking(locale)) == locale
  {
    if locale.Some? {
      assert Asking(locale)[1..] == [];
    }
  }
}
