/**
 * What an entry of the markup backend is meant to hold: a value, or of a schema what all locales share and
 * a part for each locale, and the name of its schema. What each operation does to it, what a query
 * answers, and what a file keeps, all said without the list the entry keeps its parts in.
 */
module MarkupItems {
  import opened Options
  import opened Values
  import opened MarkupFiles
  import opened MarkupRoundTrip
  import opened MarkupEntries
  import opened MarkupKept

  datatype Shared = Shared(
    kind: ValueType, listType: ValueType, carType: ValueType, cdrType: ValueType, owner: Option<string>)

  /** What a schema says for one locale. */
  datatype Part = Part(shortDesc: Option<string>, longDesc: Option<string>, defaultValue: Option<Value>)

  datatype Content =
    | Nothing
    | Simple(value: Value)
    | Localized(shared: Shared, parts: map<string, Part>)

  datatype Item = Item(content: Content, schemaName: Option<string>)

  const NoItem := Item.Item(Nothing, None)

  const NoPart := Part(None, None, None)

  // ----- what the operations do -----

  function PartsOf(content: Content): map<string, Part> {
    if content.Localized? then content.parts else map[]
  }

  /** A schema that names no locale is for C. */
  function LocaleOf(sc: Schema): string {
    if sc.locale.Some? then sc.locale.value else "C"
  }

  /** A schema replaces what its locales share and the part for its own; anything else replaces all. */
  function ItemSet(item: Item, v: Value): Item {
    match v
    case SchemaValue(sc) =>
      var part := Part(sc.shortDesc, sc.longDesc, sc.defaultValue);
      item.(content := Localized(Shared(sc.kind, sc.listType, sc.carType, sc.cdrType, sc.owner),
                                 PartsOf(item.content)[LocaleOf(sc) := part]))
    case _ => item.(content := Simple(v))
  }

  /** The part of a schema for one locale goes; for all locales, or if it is no schema, everything. */
  function ItemUnset(item: Item, locale: Option<string>): Item {
    if item.content.Localized? && locale.Some?
    then item.(content := item.content.(parts := item.content.parts - {locale.value}))
    else item.(content := Nothing)
  }

  /** Parts with a default that is not of the schema's type go when the backend syncs. */
  function ItemCleaned(item: Item): Item {
    match item.content
    case Localized(shared, parts) =>
      item.(content := Localized(shared, map l | l in parts && Applies(parts[l], shared.kind) :: parts[l]))
    case _ => item
  }

  predicate Applies(part: Part, kind: ValueType) {
    part.defaultValue.Some? ==> TypeOf(part.defaultValue.value) == kind
  }

  // ----- what is answered -----

  /** The first of the wanted locales that the schema has a part for, C if there is none. */
  function Chosen(parts: map<string, Part>, locales: seq<string>): string
    decreases |locales|
  {
    if locales == [] then "C"
    else if locales[0] in parts then locales[0]
    else Chosen(parts, locales[1..])
  }

  function PartFor(parts: map<string, Part>, locale: string): Part {
    if locale in parts then parts[locale] else NoPart
  }

  /** What the chosen part says, else what the one for C says. */
  predicate Says<T(==)>(answer: Option<T>, chosen: Option<T>, fallback: Option<T>) {
    if chosen.Some? then answer == chosen else answer == fallback
  }

  predicate PartAnswers(shared: Shared, parts: map<string, Part>, locales: seq<string>, sc: Schema) {
    var l := Chosen(parts, locales);
    var chosen, c := PartFor(parts, l), PartFor(parts, "C");
    && sc.kind == shared.kind && sc.listType == shared.listType && sc.carType == shared.carType
    && sc.cdrType == shared.cdrType && sc.owner == shared.owner && sc.locale == Some(l)
    && Says(sc.shortDesc, chosen.shortDesc, c.shortDesc)
    && Says(sc.longDesc, chosen.longDesc, c.longDesc)
    && Says(sc.defaultValue, chosen.defaultValue, c.defaultValue)
  }

  predicate Answers(item: Item, locales: seq<string>, value: Option<Value>) {
    match item.content
    case Nothing => value == None
    case Simple(v) => value == Some(v)
    case Localized(shared, parts) =>
      value.Some? && value.value.SchemaValue? && PartAnswers(shared, parts, locales, value.value.schema)
  }

  lemma OneAnswer(item: Item, locales: seq<string>, value: Option<Value>, value': Option<Value>)
    requires Answers(item, locales, value) && Answers(item, locales, value')
    ensures value == value'
  {
  }

  // ----- the entries that hold an item -----

  predicate SharedIs(sc: Schema, shared: Shared) {
    && sc.kind == shared.kind && sc.listType == shared.listType && sc.carType == shared.carType
    && sc.cdrType == shared.cdrType && sc.owner == shared.owner
    && sc.locale == None && sc.shortDesc == None && sc.longDesc == None && sc.defaultValue == None
  }

  /** One local schema for each part, and for nothing else. */
  ghost predicate Lists(lss: seq<LocalSchema>, parts: map<string, Part>) {
    && (forall i, j :: 0 <= i < j < |lss| ==> lss[i].locale != lss[j].locale)
    && (forall ls :: ls in lss ==>
          ls.locale in parts && parts[ls.locale] == Part(ls.shortDesc, ls.longDesc, ls.defaultValue))
    && forall l :: l in parts ==> exists ls :: ls in lss && ls.locale == l
  }

  ghost predicate Means(e: MarkupEntry, item: Item) {
    && e.schemaName == item.schemaName
    && match item.content
       case Nothing => e.value == None && e.localSchemas == []
       case Simple(v) => e.value == Some(v) && !v.SchemaValue? && e.localSchemas == []
       case Localized(shared, parts) =>
         && e.value.Some? && e.value.value.SchemaValue? && SharedIs(e.value.value.schema, shared)
         && Lists(e.localSchemas, parts)
  }

  lemma OneMeaning(e: MarkupEntry, item: Item, item': Item)
    requires Means(e, item) && Means(e, item')
    ensures item == item'
  {
    if item.content.Localized? {
      var parts, parts' := item.content.parts, item'.content.parts;
      assert forall l :: l in parts <==> l in parts';
      assert forall l :: l in parts ==> parts[l] == parts'[l];
    }
  }

  function LocalesIn(lss: seq<LocalSchema>): set<string> {
    set ls | ls in lss :: ls.locale
  }

  function PartIn(lss: seq<LocalSchema>, locale: string): Part {
    match LocalFor(lss, locale)
    case None => NoPart
    case Some(ls) => Part(ls.shortDesc, ls.longDesc, ls.defaultValue)
  }

  /** What an entry in memory holds. */
  function ItemOf(e: MarkupEntry): Item {
    Item.Item(
      if e.value == None then Nothing
      else if !e.value.value.SchemaValue? then Simple(e.value.value)
      else
        var sc := e.value.value.schema;
        Localized(Shared(sc.kind, sc.listType, sc.carType, sc.cdrType, sc.owner),
                  map l | l in LocalesIn(e.localSchemas) :: PartIn(e.localSchemas, l)),
      e.schemaName)
  }

  lemma {:induction false} PartIs(lss: seq<LocalSchema>, ls: LocalSchema)
    requires DistinctLocales(lss) && ls in lss
    ensures LocalFor(lss, ls.locale) == Some(ls)
  {
    var i :| 0 <= i < |lss| && lss[i] == ls;
    FirstIs(lss, i);
  }

  lemma PartIsMissing(lss: seq<LocalSchema>, locale: string)
    requires forall ls :: ls in lss ==> ls.locale != locale
    ensures LocalFor(lss, locale) == None
  {
    NoFirst(lss, locale);
  }

  /** Every entry the backend may have in memory holds one item. */
  lemma {:induction false} ShapedExactlyWhen(e: MarkupEntry)
    ensures Shaped(e) <==> Means(e, ItemOf(e))
    ensures Shaped(e) <==> exists item :: Means(e, item)
  {
    if Shaped(e) && IsSchema(e) {
      forall ls | ls in e.localSchemas
        ensures LocalFor(e.localSchemas, ls.locale) == Some(ls)
      {
        PartIs(e.localSchemas, ls);
      }
    }
  }

  // ----- the operations on entries do what they should -----

  lemma {:induction false} WithLocalAre(lss: seq<LocalSchema>, ls: LocalSchema)
    requires DistinctLocales(lss)
    ensures DistinctLocales(WithLocal(lss, ls))
    ensures forall k :: k in WithLocal(lss, ls) <==> k == ls || (k in lss && k.locale != ls.locale)
  {
    var i, after := FirstFor(lss, ls.locale), WithLocal(lss, ls);
    if i == |lss| {
      assert after == [ls] + lss;
    } else {
      assert forall j :: 0 <= j < |lss| && j != i ==> lss[j].locale != ls.locale;
      forall k | k in lss && k.locale != ls.locale
        ensures k in after
      {
        var j :| 0 <= j < |lss| && lss[j] == k;
        assert after[j] == k;
      }
      assert after[i] == ls;
    }
  }

  lemma {:induction false} WithLocalLists(lss: seq<LocalSchema>, parts: map<string, Part>, ls: LocalSchema)
    requires Lists(lss, parts)
    ensures Lists(WithLocal(lss, ls), parts[ls.locale := Part(ls.shortDesc, ls.longDesc, ls.defaultValue)])
  {
    var after := WithLocal(lss, ls);
    WithLocalAre(lss, ls);
    assert ls in after;
    forall l | l in parts && l != ls.locale
      ensures exists k :: k in after && k.locale == l
    {
      var k :| k in lss && k.locale == l;
      assert k in after;
    }
  }

  lemma {:induction false} SetMeans(e: MarkupEntry, item: Item, v: Value)
    requires Means(e, item)
    ensures Means(Set(e, v), ItemSet(item, v))
  {
    if v.SchemaValue? {
      WithLocalLists(e.localSchemas, PartsOf(item.content), LocalPart(v.schema));
    }
  }

  lemma {:induction false} WithoutLocalAre(lss: seq<LocalSchema>, locale: string)
    requires DistinctLocales(lss)
    ensures DistinctLocales(WithoutLocal(lss, locale))
    ensures forall ls :: ls in WithoutLocal(lss, locale) <==> ls in lss && ls.locale != locale
  {
    var i, after := FirstFor(lss, locale), WithoutLocal(lss, locale);
    if i < |lss| {
      assert forall j :: 0 <= j < |after| ==> after[j] == lss[if j < i then j else j + 1];
      forall ls | ls in lss && ls.locale != locale
        ensures ls in after
      {
        var j :| 0 <= j < |lss| && lss[j] == ls;
        assert after[if j < i then j else j - 1] == ls;
      }
    }
  }

  lemma {:induction false} WithoutLocalLists(lss: seq<LocalSchema>, parts: map<string, Part>, locale: string)
    requires Lists(lss, parts)
    ensures Lists(WithoutLocal(lss, locale), parts - {locale})
  {
    WithoutLocalAre(lss, locale);
    forall l | l in parts && l != locale
      ensures exists ls :: ls in WithoutLocal(lss, locale) && ls.locale == l
    {
      var ls :| ls in lss && ls.locale == l;
      assert ls in WithoutLocal(lss, locale);
    }
  }

  lemma {:induction false} UnsetMeans(e: MarkupEntry, item: Item, locale: Option<string>)
    requires Means(e, item)
    ensures Means(Unset(e, locale), ItemUnset(item, locale))
  {
    if item.content.Localized? && locale.Some? {
      WithoutLocalLists(e.localSchemas, item.content.parts, locale.value);
    }
  }

  lemma {:induction false} CleanedMeans(e: MarkupEntry, item: Item)
    requires Means(e, item)
    ensures Means(Cleaned(e), ItemCleaned(item))
  {
    LivingAre(e.value, e.localSchemas);
    if item.content.Localized? {
      LivingDistinct(e.value, e.localSchemas);
    }
  }

  lemma {:induction false} ChosenIsBest(lss: seq<LocalSchema>, parts: map<string, Part>, locales: seq<string>)
    requires Lists(lss, parts)
    ensures match Best(lss, locales)
            case None => Chosen(parts, locales) == "C"
            case Some(ls) => ls in lss && ls.locale == Chosen(parts, locales)
    ensures Best(lss, locales) == None ==> forall l :: l in locales ==> l !in parts
    decreases |locales|
  {
    if locales != [] {
      ChosenIsBest(lss, parts, locales[1..]);
      assert locales == [locales[0]] + locales[1..];
      FoundIsPart(lss, parts, locales[0]);
    }
  }

  lemma FoundIsPart(lss: seq<LocalSchema>, parts: map<string, Part>, locale: string)
    requires Lists(lss, parts)
    ensures match LocalFor(lss, locale)
            case None => locale !in parts
            case Some(ls) => ls in lss && ls.locale == locale && locale in parts
                             && parts[locale] == Part(ls.shortDesc, ls.longDesc, ls.defaultValue)
  {
    if ls :| ls in lss && ls.locale == locale {
      PartIs(lss, ls);
    } else {
      PartIsMissing(lss, locale);
    }
  }

  /** A query is answered as the item says, for any wanted locales; none stand for C. */
  lemma {:induction false} AnswerMeans(e: MarkupEntry, item: Item, locales: seq<string>)
    requires Means(e, item)
    ensures Answers(item, locales, Answer(e, locales))
  {
    if item.content.Localized? {
      var lss, parts := e.localSchemas, item.content.parts;
      FoundIsPart(lss, parts, "C");
      if locales == [] {
        ChosenIsBest(lss, parts, ["C"]);
        assert ["C"][1..] == [];
      } else {
        ChosenIsBest(lss, parts, locales);
      }
    }
  }

  // ----- what a set is answered, and what a file keeps -----

  /** For every entry: what was set is what is answered, and the parts for other locales stay. */
  lemma {:induction false} SetIsAnswered(e: MarkupEntry, v: Value, locales: seq<string>)
    ensures Set(e, v).schemaName == e.schemaName
    ensures !v.SchemaValue? ==> Answer(Set(e, v), locales) == Some(v)
    ensures v.SchemaValue? ==>
              forall l :: l != LocaleOf(v.schema) ==> LocalFor(Set(e, v).localSchemas, l) == LocalFor(e.localSchemas, l)
  {
    if v.SchemaValue? {
      forall l | l != LocaleOf(v.schema)
        ensures LocalFor(Set(e, v).localSchemas, l) == LocalFor(e.localSchemas, l)
      {
        OtherLocalStays(e.localSchemas, LocalPart(v.schema), l);
      }
    }
  }

  lemma {:induction false} OtherLocalStays(lss: seq<LocalSchema>, ls: LocalSchema, l: string)
    requires l != ls.locale
    ensures LocalFor(WithLocal(lss, ls), l) == LocalFor(lss, l)
    ensures LocalFor(WithLocal(lss, ls), ls.locale) == Some(ls)
  {
    var after, i := WithLocal(lss, ls), FirstFor(lss, ls.locale);
    var j, j' := FirstFor(lss, l), FirstFor(after, l);
    if i == |lss| {
      assert forall k :: 0 <= k < |lss| ==> after[k + 1] == lss[k];
      assert j' == j + 1;
      assert FirstFor(after, ls.locale) == 0;
    } else {
      assert forall k :: 0 <= k < |lss| && k != i ==> after[k] == lss[k];
      assert j' == j;
      assert forall k :: 0 <= k < i ==> after[k].locale != ls.locale;
      assert after[i].locale == ls.locale;
      assert FirstFor(after, ls.locale) == i;
    }
  }

  /** A schema that was set is answered for its locale with all that it says, and else with what C says. */
  lemma {:induction false} SchemaIsAnswered(e: MarkupEntry, sc: Schema)
    ensures var l, a := LocaleOf(sc), Answer(Set(e, SchemaValue(sc)), [LocaleOf(sc)]);
            && a.Some? && a.value.SchemaValue?
            && var b := a.value.schema;
               && b.kind == sc.kind && b.listType == sc.listType && b.carType == sc.carType && b.cdrType == sc.cdrType
               && b.owner == sc.owner && b.locale == Some(l)
               && var c := if l == "C" then None else LocalFor(e.localSchemas, "C");
                  && b.shortDesc == (if sc.shortDesc.Some? || c == None then sc.shortDesc else c.value.shortDesc)
                  && b.longDesc == (if sc.longDesc.Some? || c == None then sc.longDesc else c.value.longDesc)
                  && b.defaultValue ==
                     if sc.defaultValue.Some? || c == None then sc.defaultValue else c.value.defaultValue
  {
    var other := if LocaleOf(sc) == "C" then "D" else "C";
    OtherLocalStays(e.localSchemas, LocalPart(sc), other);
    assert [LocaleOf(sc)][1..] == [];
  }

  /** A part as a file keeps it. */
  ghost predicate KeptPart(part: Part, back: Part) {
    && back.shortDesc == part.shortDesc && LongDescBack(part.longDesc, back.longDesc)
    && DefaultBack(part.defaultValue, back.defaultValue)
  }

  /** What a file keeps of an item it has a form for: everything but texts of blanks and useless part types. */
  ghost predicate KeptItem(item: Item, back: Item) {
    && back.schemaName == item.schemaName
    && match item.content
       case Nothing => back.content == Nothing
       case Simple(v) => back.content.Simple? && ValueBack(v, back.content.value)
       case Localized(shared, parts) =>
         && back.content.Localized?
         && var shared', parts' := back.content.shared, back.content.parts;
            && shared'.kind == shared.kind && shared'.owner == shared.owner
            && shared'.listType == (if shared.kind == ListType then shared.listType else InvalidType)
            && shared'.carType == (if shared.kind == PairType then shared.carType else InvalidType)
            && shared'.cdrType == (if shared.kind == PairType then shared.cdrType else InvalidType)
            && parts'.Keys == parts.Keys && forall l :: l in parts ==> KeptPart(parts[l], parts'[l])
  }

  lemma {:induction false} LocalsBackAt(lss: seq<LocalSchema>, back: seq<LocalSchema>)
    requires LocalsBack(lss, back, false)
    ensures |back| == |lss| && forall i :: 0 <= i < |lss| ==> LocalBack(lss[i], back[i], false)
    decreases |lss|
  {
    if lss != [] {
      LocalsBackAt(lss[1..], back[1..]);
      assert forall i :: 1 <= i < |lss| ==> lss[i] == lss[1..][i - 1];
      assert forall i :: 1 <= i < |back| ==> back[i] == back[1..][i - 1];
    }
  }

  lemma {:induction false} LocalsKept(lss: seq<LocalSchema>, back: seq<LocalSchema>, parts: map<string, Part>)
    requires Lists(lss, parts) && LocalsBack(lss, back, false)
    ensures DistinctLocales(back) && LocalesIn(back) == parts.Keys
    ensures forall l :: l in parts ==> KeptPart(parts[l], PartIn(back, l))
  {
    LocalsBackAt(lss, back);
    forall l | l in parts
      ensures l in LocalesIn(back) && KeptPart(parts[l], PartIn(back, l))
    {
      var ls :| ls in lss && ls.locale == l;
      var i :| 0 <= i < |lss| && lss[i] == ls;
      assert back[i] in back;
      FirstIs(back, i);
    }
    forall b | b in back
      ensures b.locale in parts
    {
      var i :| 0 <= i < |back| && back[i] == b;
      assert lss[i] in lss;
    }
  }

  lemma {:induction false} FileFormMeans(e: MarkupEntry, item: Item)
    requires Means(e, item)
    ensures Means(FileForm(e), ItemOf(FileForm(e))) && KeptItem(item, ItemOf(FileForm(e)))
  {
    var f := FileForm(e);
    NormalEntryIsBack(ToFile("", e), false);
    if item.content.Localized? {
      LocalsKept(e.localSchemas, f.localSchemas, item.content.parts);
    }
    ShapedExactlyWhen(f);
  }

  /** A file has a place for all of the item. */
  predicate Fits(item: Item) {
    match item.content
    case Nothing => true
    case Simple(v) => WritableValue(v)
    case Localized(shared, parts) =>
      && (shared.kind == ListType ==> !Compound(shared.listType))
      && (shared.kind == PairType ==> !Compound(shared.carType) && !Compound(shared.cdrType))
      && forall l :: l in parts && parts[l].defaultValue.Some? ==> WritableValue(parts[l].defaultValue.value)
  }

  lemma {:induction false} FitsIsHasForm(e: MarkupEntry, item: Item)
    requires Means(e, item)
    ensures HasForm(e) <==> Fits(item)
  {
    if item.content.Localized? {
      var parts := item.content.parts;
      if Fits(item) {
        forall ls | ls in e.localSchemas
          ensures WritableDefault(ls)
        {
          assert parts[ls.locale].defaultValue == ls.defaultValue;
        }
      }
      if HasForm(e) {
        forall l | l in parts && parts[l].defaultValue.Some?
          ensures WritableValue(parts[l].defaultValue.value)
        {
          var ls :| ls in e.localSchemas && ls.locale == l;
          assert WritableDefault(ls);
        }
      }
    }
  }
}
