/**
 * An entry of the XML backend: it caches its value, and of a schema the part for one locale only. The
 * rest stays in the entry's DOM node, into which the cached part is written before it is replaced.
 */
module XmlEntries {
  import opened Options
  import opened Paths
  import opened Values
  import opened Decimal
  import opened Words
  import opened XmlNodes

  /** The fields of an entry. */
  datatype EntryState = EntryState(
    name: string, schemaName: Option<string>, modUser: Option<string>, modTime: nat,
    cached: Option<Value>, dirty: bool, node: Node)

  /** entry_sync_to_node. */
  function Synced(e: EntryState): EntryState {
    if !e.dirty then e
    else
      var node := if e.cached.Some? then SetValue(WithProps(e), e.cached.value) else UnsetValue(WithProps(e));
      e.(node := node, dirty := false)
  }

  /** The node with its properties cleared and those of the entry itself set. */
  function WithProps(e: EntryState): Node {
    var named := SetProp(e.node.(attrs := map[]), "name", Some(e.name));
    var timed := SetProp(named, "mtime", if e.modTime != 0 then Some(NatText(e.modTime)) else None);
    SetProp(SetProp(timed, "schema", e.schemaName), "muser", e.modUser)
  }

  predicate CachesSchema(e: EntryState) {
    e.cached.Some? && e.cached.value.SchemaValue?
  }

  /** entry_sync_if_needed. */
  function SyncedIfNeeded(e: EntryState): EntryState {
    if e.dirty && CachesSchema(e) then Synced(e) else e
  }

  /** entry_set_value. */
  function Set(e: EntryState, v: Value): EntryState {
    SyncedIfNeeded(e).(cached := Some(v), dirty := true)
  }

  /** The cached schema is for the wanted locale, or neither has any. */
  predicate RightLocale(cached: Option<string>, wanted: seq<string>) {
    if wanted == [] then cached == None else cached == Some(wanted[0])
  }

  /** entry_get_value: what it leaves behind and, in cached, what it returns. */
  function Got(e: EntryState, locales: Option<seq<string>>): EntryState {
    if !CachesSchema(e) then e
    else if RightLocale(e.cached.value.schema.locale, if locales.Some? then locales.value else []) then e
    else
      var synced := SyncedIfNeeded(e);
      var value := Extract(synced.node, locales);
      if value.Some? then synced.(cached := value) else synced
  }

  // ----- what an entry says for each locale -----

  /** What the entry says for a locale: the cached part, and for the others what the node holds. */
  function Says(e: EntryState, locale: Option<string>): Option<Info> {
    if CachesSchema(e) && e.cached.value.schema.locale == locale then Some(InfoOf(e.cached.value.schema))
    else InfoAt(e.node.children, locale)
  }

  predicate SameSayings(e: EntryState, e': EntryState, locale: Option<string>) {
    Says(e', locale) == Says(e, locale)
  }

  predicate Storable(sc: Schema) {
    sc.locale != Some("") && (sc.defaultValue.Some? ==> ComesBack(sc.defaultValue.value))
  }

  /** What a read falls back to is a part: the one for no locale is there when what comes first is none. */
  predicate ReadsAPart(e: EntryState) {
    e.node.children != [] && !IsPart(e.node.children[0]) ==> Says(e, None).Some?
  }

  /** An entry that holds a schema, whose parts were written one locale at a time, or is new. */
  predicate Sound(e: EntryState) {
    && WellFormed(e.node.children) && ReadsAPart(e)
    && (e.cached.Some? ==> e.cached.value.SchemaValue? && Storable(e.cached.value.schema))
    && (e.cached == None ==> e.node.children == [])
    && (e.cached.Some? && !e.dirty ==>
          && TypeFromProp(e.node, "type") == SchemaType
          && InfoAt(e.node.children, e.cached.value.schema.locale) == Some(InfoOf(e.cached.value.schema))
          && SharedIn(e.node) == SharedOf(e.cached.value.schema))
  }

  // ----- writing the cached part into the node -----

  lemma PropsAreOther(e: EntryState)
    ensures NoSchemaProps(WithProps(e)) && WithProps(e).children == e.node.children
  {
  }

  /** Syncing changes nothing an entry says; what it says about the cached locale is then in the node. */
  lemma SyncSays(e: EntryState, locale: Option<string>)
    requires Sound(e) && CachesSchema(e)
    ensures Sound(Synced(e)) && SameSayings(e, Synced(e), locale) && !Synced(e).dirty
    ensures InfoAt(Synced(e).node.children, locale) == Says(e, locale)
  {
    if e.dirty {
      var sc := e.cached.value.schema;
      PropsAreOther(e);
      SharedComesBack(WithProps(e), sc);
      SchemaWritten(WithProps(e), sc);
      WriteLocalSays(e.node.children, sc, locale);
      WriteLocalSays(e.node.children, sc, sc.locale);
      WriteLocalSays(e.node.children, sc, None);
      WriteLocalStaysWellFormed(e.node.children, sc);
    }
  }

  lemma SaveSays(e: EntryState)
    requires Sound(e)
    ensures Sound(Synced(e)) && forall locale :: SameSayings(e, Synced(e), locale)
  {
    if CachesSchema(e) {
      forall locale
        ensures SameSayings(e, Synced(e), locale)
      {
        SyncSays(e, locale);
      }
      SyncSays(e, None);
    } else {
      assert e.dirty ==> Synced(e).node.children == [];
    }
  }

  /** A write is remembered for its locale, and what was written for every other locale stays. */
  lemma SetSays(e: EntryState, sc: Schema, locale: Option<string>)
    requires Sound(e) && Storable(sc)
    ensures Sound(Set(e, SchemaValue(sc)))
    ensures Says(Set(e, SchemaValue(sc)), locale) == if locale == sc.locale then Some(InfoOf(sc)) else Says(e, locale)
  {
    if e.cached.Some? {
      SyncSays(e, locale);
    }
  }

  // ----- reading -----

  /** The first of the wanted locales the entry says something for, cached or not. */
  function Preferred(e: EntryState, locales: seq<string>): Option<string>
    decreases |locales|
  {
    if locales == [] then None
    else if Says(e, Some(locales[0])).Some? then Some(locales[0])
    else Preferred(e, locales[1..])
  }

  lemma {:induction false} PreferredIsAvailable(e: EntryState, locales: seq<string>)
    requires Sound(e) && CachesSchema(e)
    ensures FirstAvailable(Synced(e).node.children, locales) == Preferred(e, locales)
    decreases |locales|
  {
    if locales != [] {
      SyncSays(e, Some(locales[0]));
      PreferredIsAvailable(e, locales[1..]);
    }
  }

  /** What was extracted from a synced node is a sound thing to cache, and says nothing new. */
  lemma {:induction false} ExtractedIsSound(e: EntryState, locales: seq<string>, locale: Option<string>)
    requires Sound(e) && CachesSchema(e) && !e.dirty
    ensures var sc := ExtractSchema(e.node, locales);
            var e' := e.(cached := Some(SchemaValue(sc)));
            && Sound(e') && SameSayings(e, e', locale)
            && Says(e, sc.locale) == Some(InfoOf(sc)) && SharedOf(sc) == SharedIn(e.node)
  {
    ExtractedPart(e.node, locales);
  }

  lemma {:induction false} ExtractedPart(node: Node, locales: seq<string>)
    requires WellFormed(node.children) && node.children != []
    requires IsPart(node.children[0]) || InfoAt(node.children, None).Some?
    ensures var sc := ExtractSchema(node, locales);
            InfoAt(node.children, sc.locale) == Some(InfoOf(sc)) && Storable(sc) && SharedOf(sc) == SharedIn(node)
  {
    var best := BestNode(node.children, locales);
    BestIsFirstAvailable(node.children, locales);
    OneForEachLocale(node.children, best);
    InfoReadComesBack(node.children[best]);
  }

  /** A read for other locales than the cached one extracts the schema from the synced node. */
  lemma GotExtracts(e: EntryState, locales: Option<seq<string>>)
    requires Sound(e) && CachesSchema(e)
    requires !RightLocale(e.cached.value.schema.locale, if locales.Some? then locales.value else [])
    ensures Got(e, locales) == Extracted(e, if locales.Some? then locales.value else DefaultLocales)
  {
    SyncSays(e, None);
    SchemaExtracts(Synced(e).node, if locales.Some? then locales.value else DefaultLocales);
  }

  lemma {:induction false} SchemaExtracts(node: Node, locales: seq<string>)
    requires TypeFromProp(node, "type") == SchemaType
    ensures Extract(node, Some(locales)) == Some(SchemaValue(ExtractSchema(node, locales)))
  {
  }

  function Extracted(e: EntryState, locales: seq<string>): EntryState {
    Synced(e).(cached := Some(SchemaValue(ExtractSchema(Synced(e).node, locales))))
  }

  lemma {:induction false} ExtractedSays(e: EntryState, locales: seq<string>, locale: Option<string>)
    requires Sound(e) && CachesSchema(e)
    ensures var e' := Extracted(e, locales);
            && Sound(e') && CachesSchema(e') && SameSayings(e, e', locale)
            && var sc := e'.cached.value.schema;
               && SharedOf(sc) == SharedOf(e.cached.value.schema)
               && Says(e, sc.locale) == Some(InfoOf(sc))
               && sc.locale == ExtractSchema(Synced(e).node, locales).locale
  {
    SyncSays(e, locale);
    ExtractedIsSound(Synced(e), locales, locale);
    SyncSays(e, ExtractSchema(Synced(e).node, locales).locale);
  }

  /**
   * Reading the value changes nothing the entry says for any locale. What it returns is for the first
   * wanted locale that has anything, if none has for no locale, or else for any; and says what the
   * entry says for it.
   */
  lemma {:induction false} GotSays(e: EntryState, locales: seq<string>, locale: Option<string>)
    requires Sound(e) && CachesSchema(e)
    ensures var e' := Got(e, Some(locales));
            && Sound(e') && CachesSchema(e') && SameSayings(e, e', locale)
            && var sc := e'.cached.value.schema;
               && SharedOf(sc) == SharedOf(e.cached.value.schema)
               && Says(e, sc.locale) == Some(InfoOf(sc))
               && (Preferred(e, locales).Some? || Says(e, None).Some? ==> sc.locale == Preferred(e, locales))
  {
    if !RightLocale(e.cached.value.schema.locale, locales) {
      GotExtracts(e, Some(locales));
      ExtractedSays(e, locales, locale);
      PreferredIsAvailable(e, locales);
      BestIsFirstAvailable(Synced(e).node.children, locales);
      SyncSays(e, None);
    }
  }

  /** What a read that names no locale answers: for which locale, and what it says. */
  function PlainPart(e: EntryState): Option<(Option<string>, Info)> {
    var got := Got(e, None);
    if CachesSchema(got) then Some((got.cached.value.schema.locale, InfoOf(got.cached.value.schema))) else None
  }

  lemma {:induction false} DefaultIsBest(e: EntryState)
    requires Sound(e) && CachesSchema(e)
    ensures var children := Synced(e).node.children;
            ExtractSchema(Synced(e).node, ["C"]).locale ==
            if Says(e, Some("C")).Some? then Some("C")
            else if Says(e, None).Some? || children == [] then None
            else GetProp(children[0], "locale")
  {
    var children := Synced(e).node.children;
    SyncSays(e, None);
    SyncSays(e, Some("C"));
    LocalizedIsAvailable(children, ["C"]);
    assert ["C"][1..] == [] && FirstAvailable(children, []) == None;
    ExtractedIsSound(Synced(e), ["C"], None);
  }

  /** It prefers C to no locale, unless the part for no locale happens to be cached. */
  lemma {:induction false} PlainReadSays(e: EntryState)
    requires Sound(e) && CachesSchema(e)
    ensures var children := Synced(e).node.children;
            var l := if e.cached.value.schema.locale == None then None
                     else if Says(e, Some("C")).Some? then Some("C")
                     else if Says(e, None).Some? || children == [] then None
                     else GetProp(children[0], "locale");
            Says(e, l).Some? && PlainPart(e) == Some((l, Says(e, l).value))
  {
    if e.cached.value.schema.locale != None {
      GotExtracts(e, None);
      ExtractedSays(e, ["C"], None);
      DefaultIsBest(e);
    }
  }

  lemma {:induction false} PlainReadAfter(e: EntryState, locales: seq<string>)
    requires Sound(e) && CachesSchema(e) && (Says(e, None) == None || Says(e, Some("C")) == None)
    ensures PlainPart(Got(e, Some(locales))) == PlainPart(e)
  {
    var e' := Got(e, Some(locales));
    GotSays(e, locales, None);
    GotSays(e, locales, Some("C"));
    PlainReadSays(e);
    PlainReadSays(e');
    GotSays(e, locales, PlainPart(e).value.0);
    assert Synced(e').node == Synced(e).node || e' == e;
  }

  /** A read for C and a read for no locale leave different parts to a read that names no locale. */
  lemma {:induction false} BothPartsAreRead(e: EntryState)
    requires Sound(e) && CachesSchema(e) && Says(e, None).Some? && Says(e, Some("C")).Some?
    ensures exists locales :: PlainPart(Got(e, Some(locales))) != PlainPart(e)
  {
    PlainReadSays(e);
    if e.cached.value.schema.locale == None {
      GotSays(e, ["C"], None);
      GotSays(e, ["C"], Some("C"));
      assert Preferred(e, ["C"]) == Some("C");
      PlainReadSays(Got(e, Some(["C"])));
      assert PlainPart(Got(e, Some(["C"]))) != PlainPart(e);
    } else {
      var none := [];
      GotSays(e, none, None);
      NoLocaleIsRead(e, none);
      PlainReadSays(Got(e, Some(none)));
      assert PlainPart(Got(e, Some(none))) != PlainPart(e);
    }
  }

  lemma {:induction false} NoLocaleIsRead(e: EntryState, none: seq<string>)
    requires Sound(e) && CachesSchema(e) && Says(e, None).Some? && e.cached.value.schema.locale != None && none == []
    ensures CachesSchema(Got(e, Some(none))) && Got(e, Some(none)).cached.value.schema.locale == None
  {
    GotExtracts(e, Some(none));
    SyncSays(e, None);
    assert BestNode(Synced(e).node.children, none) == FirstLocal(Synced(e).node.children, None);
  }

  /**
   * What a read that names no locale answers depends on what was read before, and so is cached,
   * exactly when the entry has parts both for no locale and for C.
   */
  lemma {:induction false} PlainReadIsSettledExactlyWhen(e: EntryState)
    requires Sound(e) && CachesSchema(e)
    ensures (forall locales :: PlainPart(Got(e, Some(locales))) == PlainPart(e))
            <==> Says(e, None) == None || Says(e, Some("C")) == None
  {
    if Says(e, None).Some? && Says(e, Some("C")).Some? {
      BothPartsAreRead(e);
    } else {
      forall locales
        ensures PlainPart(Got(e, Some(locales))) == PlainPart(e)
      {
        PlainReadAfter(e, locales);
      }
    }
  }

  // ----- unsetting -----

  function WithoutLocal(children: seq<Node>, locale: string): seq<Node> {
    var i := FirstLocal(children, Some(locale));
    if i < |children| then children[..i] + children[i + 1..] else children
  }

  /** entry_unset_value. */
  function Unset(e: EntryState, locale: Option<string>): EntryState {
    if e.cached == None then e
    else if locale.Some? && CachesSchema(e) then
      var node := e.node.(children := WithoutLocal(e.node.children, locale.value));
      e.(node := node, cached := Extract(node, None), dirty := true)
    else e.(cached := None, dirty := true)
  }

  lemma {:induction false} WithoutFirstLocal(child: Node, rest: seq<Node>, locale: string)
    ensures WithoutLocal([child] + rest, locale) ==
            if IsLocal(child, Some(locale)) then rest else [child] + WithoutLocal(rest, locale)
  {
    var all, i := [child] + rest, FirstLocal(rest, Some(locale));
    assert all[1..] == rest;
    if !IsLocal(child, Some(locale)) {
      assert FirstLocal(all, Some(locale)) == i + 1;
      if i < |rest| {
        RemovedBehind(child, rest, i);
      }
    }
  }

  lemma RemovedBehind(child: Node, rest: seq<Node>, i: nat)
    requires i < |rest|
    ensures ([child] + rest)[..i + 1] + ([child] + rest)[i + 2..] == [child] + (rest[..i] + rest[i + 1..])
  {
    assert ([child] + rest)[..i + 1] == [child] + rest[..i];
    assert ([child] + rest)[i + 2..] == rest[i + 1..];
  }

  lemma {:induction false} WithoutLocalSays(children: seq<Node>, locale: string, k: Option<string>)
    requires WellFormed(children)
    ensures InfoAt(WithoutLocal(children, locale), k) == if k == Some(locale) then None else InfoAt(children, k)
    decreases |children|
  {
    if children != [] {
      var child, rest := children[0], children[1..];
      assert children == [child] + rest;
      WellFormedTail(children);
      InfoAtFirst(child, rest, k);
      WithoutFirstLocal(child, rest, locale);
      if IsLocal(child, Some(locale)) {
        NoPartLeft(rest, Some(locale));
      } else {
        WithoutLocalSays(rest, locale, k);
        InfoAtFirst(child, WithoutLocal(rest, locale), k);
      }
    }
  }

  lemma {:induction false} WithoutLocalIsWellFormed(children: seq<Node>, locale: string)
    requires WellFormed(children)
    ensures WellFormed(WithoutLocal(children, locale))
    ensures forall c :: c in WithoutLocal(children, locale) ==> c in children
  {
    var i := FirstLocal(children, Some(locale));
    if i < |children| {
      var left := children[..i] + children[i + 1..];
      assert forall j :: 0 <= j < |left| ==> left[j] == children[if j < i then j else j + 1];
    }
  }

  lemma {:induction false} NoPartLeft(children: seq<Node>, locale: Option<string>)
    requires !LocaleIn(children, locale)
    ensures InfoAt(children, locale) == None
  {
  }

  const NoInfo := Info(None, None, None)

  /** Nothing is left for any locale, but the node still says it is a schema. */
  predicate LeavesShell(e: EntryState, locale: string) {
    TypeFromProp(e.node, "type") == SchemaType && WithoutLocal(e.node.children, locale) == []
  }

  /** The cached part is the one to go, or it is already in the node. */
  predicate PartStays(e: EntryState, locale: string)
    requires CachesSchema(e)
  {
    var sc := e.cached.value.schema;
    sc.locale == Some(locale) || InfoAt(e.node.children, sc.locale) == Some(InfoOf(sc))
  }

  ghost predicate RemovesOnly(e: EntryState, locale: string) {
    forall k :: Says(Unset(e, Some(locale)), k) == if k == Some(locale) then None else Says(e, k)
  }

  /** The node has only ever held schemas. */
  predicate OnlyParts(node: Node) {
    && (forall i :: 0 <= i < |node.children| ==> IsPart(node.children[i]))
    && TypeFromProp(node, "type") in {InvalidType, SchemaType}
  }

  /** What an entry says once its cached part was read from its own node. */
  lemma {:induction false} ReadBackSays(e: EntryState, k: Option<string>)
    requires WellFormed(e.node.children) && e.cached == Extract(e.node, None)
    requires OnlyParts(e.node)
    ensures Says(e, k) == if TypeFromProp(e.node, "type") == SchemaType && e.node.children == [] && k == None
                          then Some(NoInfo) else InfoAt(e.node.children, k)
  {
    var children := e.node.children;
    if TypeFromProp(e.node, "type") == SchemaType {
      BestIsFirstAvailable(children, DefaultLocales);
      if children != [] {
        var best := BestNode(children, DefaultLocales);
        OneForEachLocale(children, best);
        InfoReadComesBack(children[best]);
      }
    }
  }

  lemma {:induction false} UnsetSays(e: EntryState, locale: string, k: Option<string>)
    requires Sound(e) && CachesSchema(e) && OnlyParts(e.node)
    ensures Says(Unset(e, Some(locale)), k) ==
            if LeavesShell(e, locale) && k == None then Some(NoInfo)
            else if k == Some(locale) then None
            else InfoAt(e.node.children, k)
    ensures LeavesShell(e, locale) && k != Some(locale) ==> InfoAt(e.node.children, k) == None
  {
    WithoutLocalIsWellFormed(e.node.children, locale);
    WithoutLocalSays(e.node.children, locale, k);
    ReadBackSays(Unset(e, Some(locale)), k);
  }

  /**
   * Unsetting a schema for one locale does not sync first. It removes just the part for that locale
   * exactly when the cached part is that one or already in the node; and when the node has nothing for
   * any other locale, what is left is an empty schema for no locale.
   */
  lemma {:induction false} UnsetRemovesOnlyExactlyWhen(e: EntryState, locale: string)
    requires Sound(e) && CachesSchema(e) && OnlyParts(e.node)
    ensures RemovesOnly(e, locale) <==>
            if LeavesShell(e, locale) then Says(e, None) == Some(NoInfo) else PartStays(e, locale)
  {
    var sc := e.cached.value.schema;
    forall k
      ensures Says(Unset(e, Some(locale)), k) ==
              if LeavesShell(e, locale) && k == None then Some(NoInfo)
              else if k == Some(locale) then None
              else InfoAt(e.node.children, k)
      ensures LeavesShell(e, locale) && k != Some(locale) ==> InfoAt(e.node.children, k) == None
    {
      UnsetSays(e, locale, k);
    }
    assert Says(e, sc.locale) == Some(InfoOf(sc));
    assert forall k :: k != sc.locale ==> Says(e, k) == InfoAt(e.node.children, k);
  }

  /** A new entry, not yet in its directory's document. */
  function NewEntry(name: string): EntryState {
    EntryState(name, None, None, 0, None, true, NewNode("entry"))
  }

  /** A schema written to a new entry and not saved is lost by unsetting it for any other locale. */
  lemma {:induction false} UnsetLosesUnsyncedWrite(name: string, sc: Schema, locale: string)
    requires Storable(sc) && sc.locale != Some(locale)
    ensures Says(Set(NewEntry(name), SchemaValue(sc)), sc.locale) == Some(InfoOf(sc))
    ensures Says(Unset(Set(NewEntry(name), SchemaValue(sc)), Some(locale)), sc.locale) == None
    ensures !RemovesOnly(Set(NewEntry(name), SchemaValue(sc)), locale)
  {
    var e := Set(NewEntry(name), SchemaValue(sc));
    assert GetProp(NewNode("entry"), "type") == None;
    assert InfoAt([], sc.locale) == None;
    assert Says(Unset(e, Some(locale)), sc.locale) == None;
  }

  // ----- where the rule of the last write ends -----

  /**
   * A schema for the empty locale is written as one for no locale, but in a child of its own: once saved
   * it is what the node says for no locale exactly when the node said nothing else for it before. Under
   * its own name it is never found.
   */
  lemma {:induction false} WriteIsFoundExactlyWhen(e: EntryState, sc: Schema)
    requires Sound(e) && (sc.defaultValue.Some? ==> ComesBack(sc.defaultValue.value))
    ensures var before, after := SyncedIfNeeded(e).node.children, Synced(Set(e, SchemaValue(sc))).node.children;
            && (InfoAt(after, sc.locale) == Some(InfoOf(sc)) <==> sc.locale != Some(""))
            && (InfoAt(after, Norm(sc.locale)) == Some(InfoOf(sc)) <==>
                  sc.locale != Some("") || InfoAt(before, None) == None || InfoAt(before, None) == Some(InfoOf(sc)))
  {
    if e.cached.Some? {
      SyncSays(e, None);
    }
    var base := SyncedIfNeeded(e);
    PropsAreOther(base.(cached := Some(SchemaValue(sc)), dirty := true));
    SchemaWritten(WithProps(base), sc);
    if sc.locale == Some("") {
      AddedAtTheEnd(base.node.children, sc);
      NeverEmptyLocale(Synced(Set(e, SchemaValue(sc))).node.children);
    } else {
      WriteLocalSays(base.node.children, sc, sc.locale);
    }
  }

  lemma {:induction false} NeverEmptyLocale(children: seq<Node>)
    ensures InfoAt(children, Some("")) == None
  {
  }

  lemma {:induction false} AddedAtTheEnd(children: seq<Node>, sc: Schema)
    requires sc.locale == Some("") && (sc.defaultValue.Some? ==> ComesBack(sc.defaultValue.value))
    ensures InfoAt(WriteLocal(children, sc), None) ==
            if InfoAt(children, None).Some? then InfoAt(children, None) else Some(InfoOf(sc))
    decreases |children|
  {
    var none: seq<Node> := [];
    if children == [] {
      FilledLocal(NewNode("local_schema"), sc);
      InfoAtFirst(FillLocal(NewNode("local_schema"), sc), none, None);
      assert [FillLocal(NewNode("local_schema"), sc)] + none == [FillLocal(NewNode("local_schema"), sc)];
    } else {
      AddedAtTheEnd(children[1..], sc);
      assert children == [children[0]] + children[1..];
      InfoAtFirst(children[0], children[1..], None);
      InfoAtFirst(children[0], WriteLocal(children[1..], sc), None);
    }
  }

  lemma {:induction false} ElemsAreNamed(elems: seq<Value>)
    ensures forall i :: 0 <= i < |ElemNodes(elems)| ==> ElemNodes(elems)[i].name == "li"
    decreases |elems|
  {
    if elems != [] {
      ElemsAreNamed(elems[1..]);
      NameKept(NewNode("li"), elems[0]);
    }
  }

  lemma {:induction false} NoLocalInOthers(node: Node, v: Value, locale: Option<string>)
    requires !v.SchemaValue?
    ensures InfoAt(SetValue(node, v).children, locale) == None
  {
    if v.ListValue? {
      ElemsAreNamed(v.elems);
    } else if v.PairValue? && v.car.Some? && v.cdr.Some? {
      NameKept(NewNode("car"), v.car.value);
      NameKept(NewNode("cdr"), v.cdr.value);
    }
    NoLocal(SetValue(node, v).children, locale);
  }

  /**
   * A value of another type between two schemas leaves the parts of the first for other locales in the
   * node until it is saved: without a save in between they are back with the second schema.
   */
  lemma {:induction false} ReplacedSchemaResurfaces(e: EntryState, v: Value, sc: Schema, locale: Option<string>)
    requires Sound(e) && CachesSchema(e) && !v.SchemaValue? && Storable(sc) && locale != sc.locale
    ensures Says(Set(Set(e, v), SchemaValue(sc)), locale) == Says(e, locale)
    ensures Says(Set(Synced(Set(e, v)), SchemaValue(sc)), locale) == None
  {
    SyncSays(e, locale);
    assert Set(Set(e, v), SchemaValue(sc)).node == Synced(e).node;
    NoLocalInOthers(WithProps(Set(e, v)), v, locale);
  }

  /** What was unset for all locales and saved leaves nothing in the node that a later schema could find. */
  lemma {:induction false} UnsetLeavesNothing(e: EntryState, sc: Schema, locale: Option<string>)
    requires e.cached.Some? && locale != sc.locale
    ensures var saved := Synced(Unset(e, None));
            && saved.node.children == [] && Extract(saved.node, None) == None
            && Says(Set(saved, SchemaValue(sc)), locale) == None
  {
  }

  // ----- saving and loading again -----

  function ModTimeIn(node: Node): nat {
    match GetProp(node, "mtime")
    case None => 0
    case Some(s) => if Atoi(s) < 0 then 0 else Atoi(s)
  }

  /** The name of a schema in a node; one that is no valid key is ignored. */
  function SchemaNameIn(node: Node): Option<string> {
    var schema := GetProp(node, "schema");
    if schema.Some? && ValidKey(schema.value) then schema else None
  }

  /** entry_fill_from_node, on a new entry. */
  function Loaded(name: string, node: Node): EntryState {
    EntryState(name, SchemaNameIn(node), GetProp(node, "muser"), ModTimeIn(node), Extract(node, None), true, node)
  }

  /** entry_set_schema_name. */
  function Named(e: EntryState, schemaName: Option<string>): EntryState {
    e.(schemaName := schemaName, dirty := true)
  }

  /** entry_set_mod_time. */
  function Dated(e: EntryState, time: nat): EntryState {
    e.(modTime := time, dirty := true)
  }

  /** entry_set_mod_time and entry_set_mod_user, which follow a change of the value. */
  function Touched(e: EntryState, user: string, time: nat): EntryState {
    e.(modUser := Some(user), modTime := time, dirty := true)
  }

  /** dir_forget_entry_if_useless: what is left of the entry, which is read to find out. */
  function Kept(e: EntryState): Option<EntryState> {
    if e.schemaName.Some? then Some(e)
    else
      var got := Got(e, None);
      if got.cached.Some? then Some(got) else None
  }

  lemma {:induction false} OwnPropsAre(e: EntryState)
    ensures var node := WithProps(e);
            && GetProp(node, "name") == Norm(Some(e.name)) && GetProp(node, "muser") == Norm(e.modUser)
            && GetProp(node, "schema") == Norm(e.schemaName)
            && GetProp(node, "mtime") == if e.modTime != 0 then Some(NatText(e.modTime)) else None
  {
    NatTextValue(e.modTime);
  }

  lemma {:induction false} OwnPropsAreWritten(e: EntryState, other: string)
    requires e.dirty && other in {"name", "mtime", "muser"}
    ensures GetProp(Synced(e).node, other) == GetProp(WithProps(e), other)
  {
    if e.cached.Some? {
      OtherPropsStay(WithProps(e), e.cached.value, other);
    }
  }

  lemma {:induction false} ModTimeComesBack(node: Node, time: nat)
    requires GetProp(node, "mtime") == if time != 0 then Some(NatText(time)) else None
    ensures ModTimeIn(node) == time
  {
    DigitsComeBack(time);
  }

  /** Who changed an entry last and when is written with it, and read again. */
  lemma {:induction false} ModificationComesBack(e: EntryState)
    requires e.dirty
    ensures GetProp(Synced(e).node, "name") == Norm(Some(e.name))
    ensures var e' := Loaded(e.name, Synced(e).node);
            e'.name == e.name && e'.modUser == Norm(e.modUser) && e'.modTime == e.modTime
  {
    OwnPropsAre(e);
    OwnPropsAreWritten(e, "name");
    OwnPropsAreWritten(e, "mtime");
    OwnPropsAreWritten(e, "muser");
    ModTimeComesBack(Synced(e).node, e.modTime);
  }

  /** What has neither a schema name nor a value to be read is forgotten, and nothing else is. */
  lemma {:induction false} KeptExactlyWhen(e: EntryState)
    ensures Kept(e).Some? <==> e.schemaName.Some? || Got(e, None).cached.Some?
    ensures Kept(e).Some? ==>
              Kept(e).value.schemaName == e.schemaName && (Kept(e).value == e || Kept(e).value == Got(e, None))
    ensures Kept(e).Some? && e.schemaName == None ==> Got(Kept(e).value, None).cached.Some?
  {
  }

  lemma {:induction false} NewEntryIsSound(name: string)
    ensures Sound(NewEntry(name)) && StandsFor(NewEntry(name), map[])
  {
  }

  // ----- whole runs -----

  datatype Op =
    | Write(schema: Schema)
    | Read(locales: seq<string>)
    | Touch(user: string, time: nat)
    | Save

  datatype Answer = Found(locale: string, info: Info) | Other

  type Written = map<Option<string>, Info>

  predicate ValidOp(op: Op) {
    match op
    case Write(sc) => Storable(sc)
    case Read(locales) => "" !in locales
    case _ => true
  }

  /** The last write for the first wanted locale that has one. */
  function Wanted(written: Written, locales: seq<string>): Answer
    decreases |locales|
  {
    if locales == [] then Other
    else if Some(locales[0]) in written then Found(locales[0], written[Some(locales[0])])
    else Wanted(written, locales[1..])
  }

  function PlainApply(written: Written, op: Op): Written {
    if op.Write? then written[op.schema.locale := InfoOf(op.schema)] else written
  }

  function PlainRun(written: Written, ops: seq<Op>): seq<Answer>
    decreases |ops|
  {
    if ops == [] then []
    else
      (if ops[0].Read? then [Wanted(written, ops[0].locales)] else [])
      + PlainRun(PlainApply(written, ops[0]), ops[1..])
  }

  ghost predicate StandsFor(e: EntryState, written: Written) {
    && (forall locale :: Says(e, locale) == if locale in written then Some(written[locale]) else None)
    && (e.cached == None ==> written == map[])
  }

  lemma {:induction false} WantedIsPreferred(e: EntryState, written: Written, locales: seq<string>)
    requires StandsFor(e, written)
    ensures var l := Preferred(e, locales);
            if l == None then Wanted(written, locales) == Other && forall k :: k in locales ==> Says(e, Some(k)) == None
            else l in written && l.value in locales && Wanted(written, locales) == Found(l.value, written[l])
    decreases |locales|
  {
    if locales != [] {
      WantedIsPreferred(e, written, locales[1..]);
      assert locales == [locales[0]] + locales[1..];
    }
  }

  lemma WriteIsRemembered(e: EntryState, written: Written, sc: Schema)
    requires Sound(e) && StandsFor(e, written) && Storable(sc)
    ensures Sound(Set(e, SchemaValue(sc))) && StandsFor(Set(e, SchemaValue(sc)), written[sc.locale := InfoOf(sc)])
  {
    forall locale
      ensures Says(Set(e, SchemaValue(sc)), locale) == if locale == sc.locale then Some(InfoOf(sc)) else Says(e, locale)
    {
      SetSays(e, sc, locale);
    }
    SetSays(e, sc, None);
  }

  lemma SaveStandsFor(e: EntryState, written: Written)
    requires Sound(e) && StandsFor(e, written)
    ensures Sound(Synced(e)) && StandsFor(Synced(e), written)
  {
    SaveSays(e);
    UnseenStandsFor(e, Synced(e), written);
  }

  lemma TouchStandsFor(e: EntryState, written: Written, user: string, time: nat)
    requires Sound(e) && StandsFor(e, written)
    ensures var e' := e.(modUser := Some(user), modTime := time, dirty := true); Sound(e') && StandsFor(e', written)
  {
  }

  lemma UnseenStandsFor(e: EntryState, e': EntryState, written: Written)
    requires StandsFor(e, written) && (e'.cached.Some? || e.cached == None)
    requires forall locale :: SameSayings(e, e', locale)
    ensures StandsFor(e', written)
  {
    forall locale
      ensures Says(e', locale) == if locale in written then Some(written[locale]) else None
    {
      assert SameSayings(e, e', locale);
    }
  }

  lemma ReadStandsFor(e: EntryState, written: Written, locales: seq<string>)
    requires Sound(e) && CachesSchema(e) && StandsFor(e, written)
    ensures StandsFor(Got(e, Some(locales)), written)
  {
    var e' := Got(e, Some(locales));
    forall locale
      ensures SameSayings(e, e', locale)
    {
      GotSays(e, locales, locale);
    }
    GotSays(e, locales, None);
    UnseenStandsFor(e, e', written);
  }

  /** An entry as the object it is. */
  class Entry {
    const name: string
    var schemaName: Option<string>
    var modUser: Option<string>
    var modTime: nat
    var cachedValue: Option<Value>
    var dirty: bool
    var node: Node

    ghost function Now(): EntryState
      reads this
    {
      EntryState(name, schemaName, modUser, modTime, cachedValue, dirty, node)
    }

    /** entry_new and entry_set_node. */
    constructor (name: string)
      ensures Now() == NewEntry(name) && Sound(Now()) && StandsFor(Now(), map[])
    {
      NewEntryIsSound(name);
      this.name := name;
      schemaName, modUser, modTime := None, None, 0;
      cachedValue, dirty, node := None, true, NewNode("entry");
    }

    /** entry_sync_to_node. */
    method SyncToNode()
      modifies this`node, this`dirty
      ensures Now() == Synced(old(Now()))
    {
      if !dirty {
        return;
      }
      node := node.(attrs := map[]);
      node := SetProp(node, "name", Some(name));
      node := SetProp(node, "mtime", if modTime != 0 then Some(NatText(modTime)) else None);
      node := SetProp(node, "schema", schemaName);
      node := SetProp(node, "muser", modUser);
      node := if cachedValue.Some? then SetValue(node, cachedValue.value) else UnsetValue(node);
      dirty := false;
    }

    /** entry_sync_if_needed. */
    method SyncIfNeeded()
      modifies this`node, this`dirty
      ensures Now() == SyncedIfNeeded(old(Now()))
    {
      if !dirty {
        return;
      }
      if cachedValue.Some? && cachedValue.value.SchemaValue? {
        SyncToNode();
      }
    }

    /** entry_set_value. */
    method SetTo(value: Value)
      modifies this
      ensures Now() == Set(old(Now()), value)
    {
      SyncIfNeeded();
      cachedValue := Some(value);
      dirty := true;
    }

    /** entry_get_value. */
    method GetValue(locales: Option<seq<string>>) returns (value: Option<Value>)
      modifies this
      ensures Now() == Got(old(Now()), locales) && value == cachedValue
    {
      if cachedValue == None || !cachedValue.value.SchemaValue? {
        return cachedValue;
      }
      if RightLocale(cachedValue.value.schema.locale, if locales.Some? then locales.value else []) {
        return cachedValue;
      }
      SyncIfNeeded();
      var newValue := Extract(node, locales);
      if newValue.Some? {
        cachedValue := newValue;
      }
      value := cachedValue;
    }

    /** entry_unset_value, and with a locale node_unset_by_locale. */
    method UnsetTo(locale: Option<string>) returns (changed: bool)
      modifies this
      ensures Now() == Unset(old(Now()), locale) && (changed <==> old(cachedValue).Some?)
    {
      if cachedValue == None {
        return false;
      }
      if locale.Some? && cachedValue.value.SchemaValue? {
        var found := FindLocal(node.children, locale);
        if found < |node.children| {
          node := node.(children := node.children[..found] + node.children[found + 1..]);
        }
        cachedValue := Extract(node, None);
      } else {
        cachedValue := None;
      }
      dirty := true;
      changed := true;
    }

    /** entry_set_mod_time and entry_set_mod_user, which follow every change. */
    method SetModified(user: string, time: nat)
      modifies this
      ensures Now() == old(Now()).(modUser := Some(user), modTime := time, dirty := true)
    {
      modUser := Some(user);
      modTime := time;
      dirty := true;
    }

    method Perform(op: Op, ghost written: Written) returns (answer: seq<Answer>)
      requires Sound(Now()) && StandsFor(Now(), written) && ValidOp(op)
      modifies this
      ensures Sound(Now()) && StandsFor(Now(), PlainApply(written, op))
      ensures answer == if op.Read? then [Wanted(written, op.locales)] else []
    {
      answer := [];
      ghost var before := Now();
      match op
      case Write(sc) =>
        WriteIsRemembered(before, written, sc);
        SetTo(SchemaValue(sc));
      case Read(locales) => answer := ReadFor(locales, written);
      case Touch(user, time) =>
        TouchStandsFor(before, written, user, time);
        SetModified(user, time);
      case Save =>
        SaveStandsFor(before, written);
        SyncToNode();
    }

    /** A read, with its answer classified as one for a wanted locale or for another. */
    method ReadFor(locales: seq<string>, ghost written: Written) returns (answer: seq<Answer>)
      requires Sound(Now()) && StandsFor(Now(), written) && "" !in locales
      modifies this
      ensures Sound(Now()) && StandsFor(Now(), written)
      ensures answer == [Wanted(written, locales)]
    {
      ghost var before := Now();
      WantedIsPreferred(before, written, locales);
      var value := GetValue(Some(locales));
      if value == None {
        return [Other];
      }
      ReadStandsFor(before, written, locales);
      GotSays(before, locales, None);
      var sc := value.value.schema;
      answer := if sc.locale.Some? && sc.locale.value in locales then [Found(sc.locale.value, InfoOf(sc))] else [Other];
    }

    /**
     * The last write for each locale wins: over any sequence of writes for any locales, reads, changes
     * of the modification data and saves, reading for some locales finds what was last written for the
     * first of them that was written at all, although only one locale is cached at a time.
     */
    method Run(ops: seq<Op>, ghost written: Written) returns (answers: seq<Answer>)
      requires Sound(Now()) && StandsFor(Now(), written) && forall i :: 0 <= i < |ops| ==> ValidOp(ops[i])
      modifies this
      ensures Sound(Now()) && answers == PlainRun(written, ops)
    {
      answers := [];
      ghost var current := written;
      var i := 0;
      while i < |ops|
        invariant 0 <= i <= |ops| && Sound(Now()) && StandsFor(Now(), current)
        invariant PlainRun(written, ops) == answers + PlainRun(current, ops[i..])
      {
        var answer := Perform(ops[i], current);
        assert ops[i..][0] == ops[i] && ops[i..][1..] == ops[i + 1..];
        ghost var rest := PlainRun(PlainApply(current, ops[i]), ops[i + 1..]);
        assert answers + (answer + rest) == (answers + answer) + rest;
        answers := answers + answer;
        current := PlainApply(current, ops[i]);
        i := i + 1;
      }
      assert ops[i..] == [];
    }
  }
}
