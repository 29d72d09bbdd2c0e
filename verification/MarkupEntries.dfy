/**
 * An entry of the markup backend. A schema is kept in two parts: what all locales share is the entry's
 * value, and the descriptions and the default for each locale are in a list beside it.
 */
module MarkupEntries {
  import opened Options
  import opened Values
  import opened MarkupFiles
  import opened MarkupRoundTrip
  import opened MarkupParsed
  import opened MarkupReadable

  datatype MarkupEntry = MarkupEntry(value: Option<Value>, localSchemas: seq<LocalSchema>, schemaName: Option<string>)

  const NoEntry := MarkupEntry(None, [], None)

  predicate IsSchema(e: MarkupEntry) {
    e.value.Some? && e.value.value.SchemaValue?
  }

  // ----- the local schemas -----

  /** The first local schema for a locale; the number of them all if there is none. */
  function FirstFor(lss: seq<LocalSchema>, locale: string): (i: nat)
    ensures i <= |lss| && (i < |lss| ==> lss[i].locale == locale)
    ensures forall j :: 0 <= j < i ==> lss[j].locale != locale
  {
    if lss == [] || lss[0].locale == locale then 0 else 1 + FirstFor(lss[1..], locale)
  }

  function LocalFor(lss: seq<LocalSchema>, locale: string): Option<LocalSchema> {
    var i := FirstFor(lss, locale);
    if i < |lss| then Some(lss[i]) else None
  }

  /** One local schema filled anew, or put at the front. */
  function WithLocal(lss: seq<LocalSchema>, ls: LocalSchema): seq<LocalSchema> {
    var i := FirstFor(lss, ls.locale);
    if i < |lss| then lss[i := ls] else [ls] + lss
  }

  function WithoutLocal(lss: seq<LocalSchema>, locale: string): seq<LocalSchema> {
    var i := FirstFor(lss, locale);
    if i < |lss| then lss[..i] + lss[i + 1..] else lss
  }

  predicate DistinctLocales(lss: seq<LocalSchema>) {
    forall i, j :: 0 <= i < j < |lss| ==> lss[i].locale != lss[j].locale
  }

  lemma {:induction false} FirstIs(lss: seq<LocalSchema>, i: nat)
    requires DistinctLocales(lss) && i < |lss|
    ensures FirstFor(lss, lss[i].locale) == i
  {
    assert FirstFor(lss, lss[i].locale) <= i;
  }

  lemma {:induction false} NoFirst(lss: seq<LocalSchema>, locale: string)
    requires forall ls :: ls in lss ==> ls.locale != locale
    ensures FirstFor(lss, locale) == |lss|
  {
    assert forall j :: 0 <= j < |lss| ==> lss[j] in lss;
  }

  // ----- setting and unsetting -----

  /** What the locales of a schema share. */
  function Base(sc: Schema): Schema {
    Schema(sc.kind, sc.listType, sc.carType, sc.cdrType, sc.owner, None, None, None, None)
  }

  /** The part of a schema for its own locale, which is C when it names none. */
  function LocalPart(sc: Schema): LocalSchema {
    LocalSchema(if sc.locale.Some? then sc.locale.value else "C", sc.shortDesc, sc.longDesc, sc.defaultValue)
  }

  /** markup_entry_set_value. */
  function Set(e: MarkupEntry, v: Value): MarkupEntry {
    match v
    case SchemaValue(sc) =>
      e.(value := Some(SchemaValue(Base(sc))), localSchemas := WithLocal(e.localSchemas, LocalPart(sc)))
    case _ => e.(value := Some(v), localSchemas := [])
  }

  /** markup_entry_unset_value. */
  function Unset(e: MarkupEntry, locale: Option<string>): MarkupEntry {
    if e.value == None then e
    else if !IsSchema(e) then e.(value := None)
    else if locale == None then e.(value := None, localSchemas := [])
    else e.(localSchemas := WithoutLocal(e.localSchemas, locale.value))
  }

  // ----- reading -----

  function OrElse<T>(a: Option<T>, b: Option<T>): Option<T> {
    if a.Some? then a else b
  }

  /** The first local schema for the first of the wanted locales that has one. */
  function Best(lss: seq<LocalSchema>, locales: seq<string>): Option<LocalSchema>
    decreases |locales|
  {
    if locales == [] then None
    else if LocalFor(lss, locales[0]).Some? then LocalFor(lss, locales[0])
    else Best(lss, locales[1..])
  }

  /** A schema with what the best local schema says, and where that says nothing, the one for C. */
  function Localized(sc: Schema, best: Option<LocalSchema>, c: Option<LocalSchema>): Schema {
    var b := if best.Some? then best.value else LocalSchema("C", None, None, None);
    var d := if c.Some? then c.value else LocalSchema("C", None, None, None);
    sc.(locale := Some(b.locale),
        defaultValue := OrElse(OrElse(b.defaultValue, d.defaultValue), sc.defaultValue),
        shortDesc := OrElse(OrElse(b.shortDesc, d.shortDesc), sc.shortDesc),
        longDesc := OrElse(OrElse(b.longDesc, d.longDesc), sc.longDesc))
  }

  /** markup_entry_get_value. No locales stand for C. */
  function Answer(e: MarkupEntry, locales: seq<string>): Option<Value> {
    if !IsSchema(e) then e.value
    else
      var wanted := if locales == [] then ["C"] else locales;
      Some(SchemaValue(Localized(e.value.value.schema, Best(e.localSchemas, wanted), LocalFor(e.localSchemas, "C"))))
  }

  /**
   * One walk over the local schemas, for one of the wanted locales: finds the first for that locale and
   * the first for C unless they were found before, and stops when it has both.
   */
  method WalkLocals(lss: seq<LocalSchema>, locale: string, best0: Option<LocalSchema>, c0: Option<LocalSchema>)
      returns (best: Option<LocalSchema>, c: Option<LocalSchema>)
    requires c0 == None || c0 == LocalFor(lss, "C")
    ensures best == OrElse(best0, LocalFor(lss, locale)) && c == LocalFor(lss, "C")
  {
    best, c := best0, c0;
    var i := 0;
    while i < |lss| && !(best.Some? && c.Some?)
      invariant 0 <= i <= |lss|
      invariant best.Some? ==> best == OrElse(best0, LocalFor(lss, locale))
      invariant c.Some? ==> c == LocalFor(lss, "C")
      invariant best == None ==> best0 == None && forall j :: 0 <= j < i ==> lss[j].locale != locale
      invariant c == None ==> forall j :: 0 <= j < i ==> lss[j].locale != "C"
    {
      if c == None && lss[i].locale == "C" {
        FoundFirst(lss, "C", i);
        c := Some(lss[i]);
      }
      if best == None && lss[i].locale == locale {
        FoundFirst(lss, locale, i);
        best := Some(lss[i]);
      }
      i := i + 1;
    }
  }

  lemma {:induction false} FoundFirst(lss: seq<LocalSchema>, locale: string, i: nat)
    requires i < |lss| && lss[i].locale == locale && forall j :: 0 <= j < i ==> lss[j].locale != locale
    ensures LocalFor(lss, locale) == Some(lss[i])
  {
  }

  /** The search for the local schemas to read, as markup_entry_get_value makes it. */
  method FindLocals(lss: seq<LocalSchema>, locales: seq<string>)
      returns (best: Option<LocalSchema>, c: Option<LocalSchema>)
    requires locales != []
    ensures best == Best(lss, locales) && c == LocalFor(lss, "C")
  {
    best, c := None, None;
    var i := 0;
    while i < |locales| && !(best.Some? && c.Some?)
      invariant 0 <= i <= |locales|
      invariant if i == 0 then c == None && best == None else c == LocalFor(lss, "C")
      invariant best.Some? ==> best == Best(lss, locales)
      invariant best == None ==> Best(lss, locales[i..]) == Best(lss, locales)
    {
      assert locales[i..][0] == locales[i] && locales[i..][1..] == locales[i + 1..];
      best, c := WalkLocals(lss, locales[i], best, c);
      i := i + 1;
    }
    assert locales[|locales|..] == [];
  }

  /** markup_entry_get_value. */
  method GetValue(e: MarkupEntry, locales: seq<string>) returns (value: Option<Value>)
    ensures value == Answer(e, locales)
  {
    if !IsSchema(e) {
      return e.value;
    }
    var best, c := FindLocals(e.localSchemas, if locales == [] then ["C"] else locales);
    value := Some(SchemaValue(Localized(e.value.value.schema, best, c)));
  }

  // ----- what a sync drops -----

  /** A local schema that no longer applies: its default is not of the schema's type. */
  predicate Dead(v: Option<Value>, ls: LocalSchema) {
    v.Some? &&
    (!v.value.SchemaValue? || (ls.defaultValue.Some? && TypeOf(ls.defaultValue.value) != v.value.schema.kind))
  }

  function Living(v: Option<Value>, lss: seq<LocalSchema>): seq<LocalSchema> {
    if lss == [] then []
    else (if Dead(v, lss[0]) then [] else [lss[0]]) + Living(v, lss[1..])
  }

  /** clean_old_local_schemas. */
  function Cleaned(e: MarkupEntry): MarkupEntry {
    e.(localSchemas := Living(e.value, e.localSchemas))
  }

  predicate NoneDead(v: Option<Value>, lss: seq<LocalSchema>) {
    forall ls :: ls in lss ==> !Dead(v, ls)
  }

  lemma {:induction false} LivingAre(v: Option<Value>, lss: seq<LocalSchema>)
    ensures forall ls :: ls in Living(v, lss) <==> ls in lss && !Dead(v, ls)
    ensures Living(v, lss) == lss <==> NoneDead(v, lss)
    ensures |Living(v, lss)| <= |lss|
    decreases |lss|
  {
    if lss != [] {
      LivingAre(v, lss[1..]);
      assert lss == [lss[0]] + lss[1..];
      AtMostOneFirst(if Dead(v, lss[0]) then [] else [lss[0]], Living(v, lss[1..]), lss);
    }
  }

  lemma OneMoreDistinct(ls: LocalSchema, lss: seq<LocalSchema>)
    requires DistinctLocales(lss) && forall other :: other in lss ==> other.locale != ls.locale
    ensures DistinctLocales([ls] + lss)
  {
  }

  lemma {:induction false} LivingDistinct(v: Option<Value>, lss: seq<LocalSchema>)
    requires DistinctLocales(lss)
    ensures DistinctLocales(Living(v, lss))
    decreases |lss|
  {
    if lss != [] {
      LivingDistinct(v, lss[1..]);
      LivingAre(v, lss[1..]);
      OneMoreDistinct(lss[0], Living(v, lss[1..]));
    }
  }

  // ----- what a file keeps -----

  /** The entry as it is written; who changed it and when is not modelled. */
  function ToFile(name: string, e: MarkupEntry): FileEntry {
    FileEntry(name, e.value, e.localSchemas, e.schemaName, None, 0)
  }

  function FromFile(f: FileEntry): MarkupEntry {
    MarkupEntry(f.value, f.localSchemas, f.schemaName)
  }

  /** What reading gives of an entry that was written. */
  function FileForm(e: MarkupEntry): MarkupEntry {
    FromFile(NormalEntry(ToFile("", e), false))
  }

  /** There is a place in the file for a value that is set. */
  predicate Settable(v: Value) {
    if v.SchemaValue? then
      WritableSchema(v.schema) && (v.schema.defaultValue.Some? ==> WritableValue(v.schema.defaultValue.value))
    else WritableValue(v)
  }

  /** What every entry in memory satisfies. */
  predicate Shaped(e: MarkupEntry) {
    if IsSchema(e) then e.value.value.schema == Base(e.value.value.schema) && DistinctLocales(e.localSchemas)
    else e.localSchemas == []
  }

  /** The file has a form for everything in the entry. */
  predicate HasForm(e: MarkupEntry) {
    WritableEntry(ToFile("", e))
  }

  predicate Proper(e: MarkupEntry) {
    Shaped(e) && HasForm(e)
  }

  /** What every entry in a file satisfies: saving and reading change nothing about it. */
  predicate Lasting(e: MarkupEntry) {
    Proper(e) && Cleaned(e) == e && FileForm(e) == e
  }

  lemma NoEntryLasts()
    ensures Lasting(NoEntry)
  {
  }

  lemma {:induction false} SetIsShaped(e: MarkupEntry, v: Value)
    requires Shaped(e)
    ensures Shaped(Set(e, v))
  {
    if v.SchemaValue? {
      var ls := LocalPart(v.schema);
      var i := FirstFor(e.localSchemas, ls.locale);
      assert forall l :: l in WithLocal(e.localSchemas, ls) ==> l == ls || l in e.localSchemas;
    }
  }

  /** The file has a form for what a set leaves exactly when it has a place for the value. */
  lemma {:induction false} SetHasFormExactlyWhen(e: MarkupEntry, v: Value)
    requires Proper(e)
    ensures HasForm(Set(e, v)) <==> Settable(v)
  {
    if v.SchemaValue? {
      var ls, lss := LocalPart(v.schema), WithLocal(e.localSchemas, LocalPart(v.schema));
      var i := FirstFor(e.localSchemas, ls.locale);
      assert ls == lss[if i < |e.localSchemas| then i else 0] && ls in lss;
      assert forall l :: l in lss ==> l == ls || l in e.localSchemas;
    }
  }

  lemma {:induction false} UnsetIsShaped(e: MarkupEntry, locale: Option<string>)
    requires Shaped(e)
    ensures Shaped(Unset(e, locale)) && (HasForm(e) ==> HasForm(Unset(e, locale)))
  {
    if IsSchema(e) && locale.Some? {
      assert forall l :: l in WithoutLocal(e.localSchemas, locale.value) ==> l in e.localSchemas;
    }
  }

  lemma {:induction false} CleanedIsShaped(e: MarkupEntry)
    requires Shaped(e)
    ensures Shaped(Cleaned(e)) && Cleaned(Cleaned(e)) == Cleaned(e) && (HasForm(e) ==> HasForm(Cleaned(e)))
    ensures Cleaned(e) == NoEntry <==> e == NoEntry
  {
    LivingAre(e.value, e.localSchemas);
    LivingAre(e.value, Living(e.value, e.localSchemas));
    if IsSchema(e) {
      LivingDistinct(e.value, e.localSchemas);
    }
  }

  lemma {:induction false} NormalLocalsAre(lss: seq<LocalSchema>)
    ensures |NormalLocalSchemas(lss, false)| == |lss|
    ensures forall i :: 0 <= i < |lss| ==> NormalLocalSchemas(lss, false)[i] == NormalLocalSchema(lss[i], false)
    decreases |lss|
  {
    if lss != [] {
      NormalLocalsAre(lss[1..]);
    }
  }

  /** What is read is written and read again as it is. */
  lemma {:induction false} FileFormLasts(e: MarkupEntry)
    requires Proper(e) && Cleaned(e) == e
    ensures Lasting(FileForm(e)) && (FileForm(e) == NoEntry <==> e == NoEntry)
  {
    var f := NormalEntry(ToFile("", e), false);
    NormalIsKept(ToFile("", e));
    EntryUnchanged(f, false);
    NormalLocalsAre(e.localSchemas);
    LivingAre(e.value, e.localSchemas);
    LivingAre(f.value, f.localSchemas);
    if IsSchema(e) {
      forall i | 0 <= i < |f.localSchemas|
        ensures !Dead(f.value, f.localSchemas[i])
      {
        assert e.localSchemas[i] in e.localSchemas;
        NormalHasType(e.localSchemas[i]);
      }
    }
    assert ToFile("", FileForm(e)) == f;
  }

  lemma {:induction false} NormalHasType(ls: LocalSchema)
    ensures var ls' := NormalLocalSchema(ls, false);
            && ls'.locale == ls.locale && (ls'.defaultValue.Some? <==> ls.defaultValue.Some?)
            && (ls.defaultValue.Some? ==> TypeOf(ls'.defaultValue.value) == TypeOf(ls.defaultValue.value))
  {
  }

  /** What was written and read is canonical, since everything that is read is. */
  lemma {:induction false} NormalIsKept(f: FileEntry)
    requires WritableEntry(f)
    ensures KeptEntry(NormalEntry(f, false))
  {
    var root := DirTree("", [f], []);
    LoadSaved(root, false);
    ParsedIsCanonical("", WriteFile(root, false), false);
    assert [f][1..] == [] && NormalEntries([f], false) == [NormalEntry(f, false)];
    var kept := Kept(root, false);
    assert KeptDir(kept) && kept.entries[0] == NormalEntry(f, false) && kept.entries[0] in kept.entries;
  }

  // ----- when an entry survives -----

  /** An entry once it was saved and read again. */
  function Reread(e: MarkupEntry): MarkupEntry {
    FileForm(Cleaned(e))
  }

  /** What a sync leaves of the entry has a form in the file. */
  predicate Keepable(e: MarkupEntry) {
    Shaped(e) && HasForm(Cleaned(e))
  }

  lemma {:induction false} RereadLasts(e: MarkupEntry)
    requires Keepable(e)
    ensures Lasting(Reread(e)) && (Reread(e) == e <==> Lasting(e))
  {
    CleanedIsShaped(e);
    FileFormLasts(Cleaned(e));
  }

  lemma {:induction false} DeadLocalIsSeen(e: MarkupEntry, i: nat)
    requires Keepable(e) && IsSchema(e) && i < |e.localSchemas| && Dead(e.value, e.localSchemas[i])
    ensures Answer(Reread(e), [e.localSchemas[i].locale]) != Answer(e, [e.localSchemas[i].locale])
  {
    var ls, kept := e.localSchemas[i], Reread(e).localSchemas;
    DeadIsGone(e, i);
    BestIsOne(kept, "C");
    DeadIsSeen(e, ls, LocalFor(e.localSchemas, "C"), LocalFor(kept, "C"));
  }

  lemma {:induction false} DeadIsGone(e: MarkupEntry, i: nat)
    requires Keepable(e) && i < |e.localSchemas| && Dead(e.value, e.localSchemas[i])
    ensures var ls, kept := e.localSchemas[i], Reread(e).localSchemas;
            && Best(e.localSchemas, [ls.locale]) == Some(ls) && Best(kept, [ls.locale]) == None
            && forall l :: l in kept ==> l.locale != ls.locale
  {
    var ls := e.localSchemas[i];
    var living, kept := Living(e.value, e.localSchemas), Reread(e).localSchemas;
    FirstIs(e.localSchemas, i);
    LivingAre(e.value, e.localSchemas);
    NormalLocalsAre(living);
    LocaleGone(e.localSchemas, living, ls);
    NoFirst(kept, ls.locale);
    BestIsOne(kept, ls.locale);
    BestIsOne(e.localSchemas, ls.locale);
  }

  lemma {:induction false} ChangedLocalIsSeen(e: MarkupEntry, i: nat)
    requires Keepable(e) && IsSchema(e) && i < |e.localSchemas| && !Dead(e.value, e.localSchemas[i])
    requires NormalLocalSchema(e.localSchemas[i], false) != e.localSchemas[i]
    ensures Answer(Reread(e), [e.localSchemas[i].locale]) != Answer(e, [e.localSchemas[i].locale])
  {
    var ls := e.localSchemas[i];
    var living, kept := Living(e.value, e.localSchemas), Reread(e).localSchemas;
    FirstIs(e.localSchemas, i);
    LivingAre(e.value, e.localSchemas);
    LivingDistinct(e.value, e.localSchemas);
    NormalLocalsAre(living);
    BestIsOne(e.localSchemas, ls.locale);
    ChangedIsRead(living, kept, ls);
    ChangedIsSeen(e, ls, LocalFor(living, "C"), LocalFor(kept, "C"));
  }

  lemma {:induction false} ChangedIsRead(living: seq<LocalSchema>, kept: seq<LocalSchema>, ls: LocalSchema)
    requires DistinctLocales(living) && ls in living && |kept| == |living|
    requires forall i :: 0 <= i < |living| ==> kept[i] == NormalLocalSchema(living[i], false)
    ensures Best(kept, [ls.locale]) == Some(NormalLocalSchema(ls, false))
    ensures LocalFor(kept, "C") ==
            match LocalFor(living, "C") case None => None case Some(l) => Some(NormalLocalSchema(l, false))
  {
    var j :| 0 <= j < |living| && living[j] == ls;
    FirstIs(living, j);
    FirstIsNormal(living, kept, ls.locale);
    FirstIsNormal(living, kept, "C");
    BestIsOne(kept, ls.locale);
  }

  lemma {:induction false} LocaleGone(lss: seq<LocalSchema>, living: seq<LocalSchema>, dead: LocalSchema)
    requires DistinctLocales(lss) && dead in lss && dead !in living && forall ls :: ls in living ==> ls in lss
    ensures forall ls :: ls in living ==> ls.locale != dead.locale
  {
  }

  lemma {:induction false} FirstIsNormal(lss: seq<LocalSchema>, kept: seq<LocalSchema>, locale: string)
    requires |kept| == |lss| && forall i :: 0 <= i < |lss| ==> kept[i] == NormalLocalSchema(lss[i], false)
    ensures FirstFor(kept, locale) == FirstFor(lss, locale)
    ensures LocalFor(kept, locale) ==
            match LocalFor(lss, locale)
            case None => None
            case Some(ls) => Some(NormalLocalSchema(ls, false))
  {
    var i, j := FirstFor(kept, locale), FirstFor(lss, locale);
    assert i < |kept| ==> kept[i].locale == lss[i].locale;
    assert j < |lss| ==> kept[j].locale == lss[j].locale;
  }

  lemma {:induction false} DeadIsSeen(e: MarkupEntry, ls: LocalSchema, c: Option<LocalSchema>, c': Option<LocalSchema>)
    requires Keepable(e) && IsSchema(e) && Dead(e.value, ls)
    requires c'.Some? ==> c'.value.locale == "C" && ls.locale != "C"
    ensures Localized(Reread(e).value.value.schema, None, c') != Localized(e.value.value.schema, Some(ls), c)
  {
  }

  lemma {:induction false} ChangedIsSeen(e: MarkupEntry, ls: LocalSchema, c: Option<LocalSchema>,
                                         c': Option<LocalSchema>)
    requires Keepable(e) && IsSchema(e) && NormalLocalSchema(ls, false) != ls
    requires c' == match c case None => None case Some(l) => Some(NormalLocalSchema(l, false))
    ensures forall c0 :: Localized(Reread(e).value.value.schema, Some(NormalLocalSchema(ls, false)), c') !=
                         Localized(e.value.value.schema, Some(ls), c0)
  {
  }

  lemma {:induction false} BestIsOne(lss: seq<LocalSchema>, locale: string)
    ensures Best(lss, [locale]) == LocalFor(lss, locale)
    ensures LocalFor(lss, locale).Some? ==> LocalFor(lss, locale).value in lss
  {
    assert [locale][1..] == [] && Best(lss, []) == None;
  }

  /** An entry the file has no form for answers for some locale as none does that was read from a file. */
  lemma {:induction false} NoFormIsSeen(e: MarkupEntry) returns (locales: seq<string>)
    requires Shaped(e) && !HasForm(Cleaned(e))
    ensures forall f :: Proper(f) ==> Answer(f, locales) != Answer(e, locales)
  {
    locales := [];
    if IsSchema(e) && WritableSchema(e.value.value.schema) {
      LivingAre(e.value, e.localSchemas);
      var ls :| ls in Living(e.value, e.localSchemas) && !WritableDefault(ls);
      var i :| 0 <= i < |e.localSchemas| && e.localSchemas[i] == ls;
      locales := [ls.locale];
      FirstIs(e.localSchemas, i);
      BestIsOne(e.localSchemas, ls.locale);
      forall f | Proper(f)
        ensures Answer(f, locales) != Answer(e, locales)
      {
        BestIsOne(f.localSchemas, ls.locale);
        BestIsOne(f.localSchemas, "C");
        assert IsSchema(f) ==> WritableOption(Answer(f, locales).value.schema.defaultValue);
      }
    }
  }

  predicate WritableOption(v: Option<Value>) {
    v.Some? ==> WritableValue(v.value)
  }

  /**
   * Saving and reading an entry again changes no answer about it exactly when its value, and of a schema
   * every local part, is canonical, and no local part has a default of the wrong type.
   */
  lemma {:induction false} AnswersLastExactlyWhen(e: MarkupEntry)
    requires Keepable(e)
    ensures (forall locales :: Answer(Reread(e), locales) == Answer(e, locales)) <==> Lasting(e)
  {
    RereadLasts(e);
    if !Lasting(e) {
      if IsSchema(e) {
        var sc := e.value.value.schema;
        if NormalSchema(sc) != sc {
          assert Answer(Reread(e), []) != Answer(e, []);
        } else {
          var i := SomeLocalIsLost(e);
          if Dead(e.value, e.localSchemas[i]) {
            DeadLocalIsSeen(e, i);
          } else {
            ChangedLocalIsSeen(e, i);
          }
        }
      } else {
        assert Answer(Reread(e), []) != Answer(e, []);
      }
    }
  }

  lemma {:induction false} SomeLocalIsLost(e: MarkupEntry) returns (i: nat)
    requires Keepable(e) && IsSchema(e) && !Lasting(e) && NormalSchema(e.value.value.schema) == e.value.value.schema
    ensures i < |e.localSchemas|
    ensures Dead(e.value, e.localSchemas[i]) || NormalLocalSchema(e.localSchemas[i], false) != e.localSchemas[i]
  {
    LivingAre(e.value, e.localSchemas);
    if Cleaned(e) != e {
      var ls :| ls in e.localSchemas && Dead(e.value, ls);
      i :| 0 <= i < |e.localSchemas| && e.localSchemas[i] == ls;
    } else {
      NormalLocalsAre(e.localSchemas);
      i :| 0 <= i < |e.localSchemas| && NormalLocalSchema(e.localSchemas[i], false) != e.localSchemas[i];
    }
  }

  /**
   * A value that lasts in this entry: one the file has a place for, canonical, and a schema of a type
   * that no default there contradicts.
   */
  predicate CanonicalIn(e: MarkupEntry, v: Value) {
    Settable(v) &&
    match v
    case SchemaValue(sc) =>
      && CanonicalSchema(Base(sc)) && CanonicalLocalSchema(LocalPart(sc), false)
      && NoneDead(Some(SchemaValue(Base(sc))), WithLocal(e.localSchemas, LocalPart(sc)))
    case _ => CanonicalValue(v)
  }

  /** Being canonical is what it takes to last. */
  lemma {:induction false} LastsExactlyWhen(e: MarkupEntry)
    requires Proper(e)
    ensures Lasting(e) <==> CanonicalEntry(ToFile("", e), false) && NoneDead(e.value, e.localSchemas)
  {
    EntryUnchanged(ToFile("", e), false);
    LivingAre(e.value, e.localSchemas);
  }

  lemma {:induction false} SetLastsExactlyWhen(e: MarkupEntry, v: Value)
    requires Lasting(e)
    ensures Lasting(Set(e, v)) <==> CanonicalIn(e, v)
  {
    SetIsShaped(e, v);
    SetHasFormExactlyWhen(e, v);
    LastsExactlyWhen(e);
    if Settable(v) {
      LastsExactlyWhen(Set(e, v));
      SetIsCanonicalExactlyWhen(e, v);
    }
  }

  lemma {:induction false} SetIsCanonicalExactlyWhen(e: MarkupEntry, v: Value)
    requires Lasting(e) && CanonicalEntry(ToFile("", e), false) && Settable(v)
    ensures var e' := Set(e, v);
            CanonicalEntry(ToFile("", e'), false) && NoneDead(e'.value, e'.localSchemas) <==> CanonicalIn(e, v)
  {
    if v.SchemaValue? {
      var ls, lss := LocalPart(v.schema), WithLocal(e.localSchemas, LocalPart(v.schema));
      var i := FirstFor(e.localSchemas, ls.locale);
      assert ls == lss[if i < |e.localSchemas| then i else 0];
      if IsSchema(e) {
        forall j | 0 <= j < |lss|
          ensures lss[j] == ls || CanonicalLocalSchema(lss[j], false)
        {
          assert lss[j] == ls || lss[j] == e.localSchemas[if i < |e.localSchemas| then j else j - 1];
        }
      }
    }
  }

  lemma {:induction false} UnsetLasts(e: MarkupEntry, locale: Option<string>)
    requires Lasting(e)
    ensures Lasting(Unset(e, locale))
  {
    UnsetIsShaped(e, locale);
    LastsExactlyWhen(e);
    LastsExactlyWhen(Unset(e, locale));
    if IsSchema(e) && locale.Some? {
      var i, lss := FirstFor(e.localSchemas, locale.value), WithoutLocal(e.localSchemas, locale.value);
      forall j | 0 <= j < |lss|
        ensures CanonicalLocalSchema(lss[j], false) && !Dead(e.value, lss[j])
      {
        var k := if i < |e.localSchemas| && j >= i then j + 1 else j;
        assert lss[j] == e.localSchemas[k] && e.localSchemas[k] in e.localSchemas;
      }
    }
  }

  lemma {:induction false} NamingLasts(e: MarkupEntry, schemaName: Option<string>)
    requires Lasting(e)
    ensures Lasting(e.(schemaName := schemaName))
  {
    LastsExactlyWhen(e);
    LastsExactlyWhen(e.(schemaName := schemaName));
  }

  /** A blank string is read back as the empty one. */
  lemma BlankIsLost(s: string)
    requires s != "" && AllWhitespace(s)
    ensures Settable(StringValue(s)) && Answer(Set(NoEntry, StringValue(s)), []) == Some(StringValue(s))
    ensures Answer(Reread(Set(NoEntry, StringValue(s))), []) == Some(StringValue(""))
  {
  }

  // ----- the entries of a directory -----

  type Entries = map<string, MarkupEntry>

  /** The first entry of a name is the one that is found. */
  function EntriesOf(fs: seq<FileEntry>): Entries {
    if fs == [] then map[] else EntriesOf(fs[1..])[fs[0].name := FromFile(fs[0])]
  }

  /** load_entries, from a file that may or may not be parsed to the end. */
  function Decoded(file: seq<Event>): Entries {
    EntriesOf(Filled("", file).entries)
  }

  /** An entry without value and schema name says no more than no entry. */
  function EntryIn(entries: Entries, name: string): MarkupEntry {
    if name in entries then entries[name] else NoEntry
  }

  /** The names of all there is to write, each once, in the order it is written. */
  ghost predicate Orders(entries: string -> MarkupEntry, order: seq<string>) {
    && (forall n :: entries(n) != NoEntry ==> n in order)
    && forall i, j :: 0 <= i < j < |order| ==> order[i] != order[j]
  }

  /** The file form of all in front of stop, of the entry at stop what was read until the parser stopped, no more. */
  ghost predicate GivesUpTo(entries: string -> MarkupEntry, found: string -> MarkupEntry, order: seq<string>,
                            stop: nat) {
    && stop <= |order|
    && (forall i :: 0 <= i < stop ==> HasForm(entries(order[i])) && found(order[i]) == FileForm(entries(order[i])))
    && (stop < |order| ==> !HasForm(entries(order[stop])) && Read(found(order[stop])))
    && (forall i :: stop < i < |order| ==> found(order[i]) == NoEntry)
    && (forall n :: n !in order ==> found(n) == NoEntry)
  }

  /** What can have been read from a file. */
  predicate Read(found: MarkupEntry) {
    found == NoEntry || Lasting(found)
  }

  /**
   * What a file gives for each name that was written from these entries: the file form of each in the
   * order of writing up to the first that the file has no form for, and that one as far as it was read.
   */
  ghost predicate Gives(entries: string -> MarkupEntry, found: string -> MarkupEntry) {
    exists order, stop :: Orders(entries, order) && GivesUpTo(entries, found, order, stop)
  }

  /** If the file has a form for all of them, that is what it gives; and never a form that there is not. */
  lemma GivesForms(entries: string -> MarkupEntry, found: string -> MarkupEntry)
    requires Gives(entries, found)
    ensures (forall n :: HasForm(entries(n))) ==> forall n :: found(n) == FileForm(entries(n))
    ensures forall n :: if HasForm(entries(n)) then found(n) in {NoEntry, FileForm(entries(n))} else Read(found(n))
    ensures forall n :: entries(n) == NoEntry ==> found(n) == NoEntry
  {
    NoEntryLasts();
    var order, stop :| Orders(entries, order) && GivesUpTo(entries, found, order, stop);
    forall n
      ensures (forall m :: HasForm(entries(m))) ==> found(n) == FileForm(entries(n))
      ensures if HasForm(entries(n)) then found(n) in {NoEntry, FileForm(entries(n))} else Read(found(n))
      ensures entries(n) == NoEntry ==> found(n) == NoEntry
    {
      if n in order {
        var i :| 0 <= i < |order| && order[i] == n;
        assert i < stop || i == stop || i > stop;
      }
    }
  }

  lemma FormsAreGiven(entries: string -> MarkupEntry, found: string -> MarkupEntry, order: seq<string>)
    requires Orders(entries, order) && forall n :: HasForm(entries(n)) && found(n) == FileForm(entries(n))
    ensures Gives(entries, found)
  {
    NoEntryLasts();
    assert GivesUpTo(entries, found, order, |order|);
  }

  ghost predicate IsOrderOf(order: seq<string>, names: set<string>) {
    (forall n :: n in order <==> n in names) && forall i, j :: 0 <= i < j < |order| ==> order[i] != order[j]
  }

  /** Any names can be put in an order. */
  lemma {:induction false} SomeOrder(names: set<string>) returns (order: seq<string>)
    ensures IsOrderOf(order, names)
    decreases names
  {
    order := [];
    if n :| n in names {
      order := SomeOrder(names - {n});
      order := [n] + order;
    }
  }

  function In(entries: Entries): string -> MarkupEntry {
    n => EntryIn(entries, n)
  }

  /** And nothing else. */
  ghost predicate Keeps(entries: Entries, found: Entries) {
    Gives(In(entries), In(found)) && found.Keys <= entries.Keys
  }

  predicate Names(fs: seq<FileEntry>, entries: Entries) {
    && (forall i :: 0 <= i < |fs| ==> fs[i].name in entries && fs[i] == ToFile(fs[i].name, entries[fs[i].name]))
    && (forall i, j :: 0 <= i < j < |fs| ==> fs[i].name != fs[j].name)
  }

  predicate NamesAll(fs: seq<FileEntry>, entries: Entries) {
    forall n :: n in entries ==> exists i :: 0 <= i < |fs| && fs[i].name == n
  }

  lemma {:induction false} FirstEntryGives(fs: seq<FileEntry>, entries: Entries)
    requires fs != [] && Names(fs, entries)
    ensures EntriesOf(NormalEntries(fs, false)) ==
            EntriesOf(NormalEntries(fs[1..], false))[fs[0].name := FileForm(entries[fs[0].name])]
  {
    var first, rest := NormalEntry(fs[0], false), NormalEntries(fs[1..], false);
    assert NormalEntries(fs, false) == [first] + rest && ([first] + rest)[1..] == rest;
    assert first.name == fs[0].name && FromFile(first) == FileForm(entries[fs[0].name]);
  }

  lemma NamesOneMore(fs: seq<FileEntry>, n: string)
    requires fs != []
    ensures (exists i :: 0 <= i < |fs| && fs[i].name == n) <==>
            n == fs[0].name || exists i :: 0 <= i < |fs[1..]| && fs[1..][i].name == n
  {
    assert forall i :: 1 <= i < |fs| ==> fs[i] == fs[1..][i - 1];
  }

  lemma {:induction false} NormalEntriesGive(fs: seq<FileEntry>, entries: Entries)
    requires Names(fs, entries)
    ensures var found := EntriesOf(NormalEntries(fs, false));
            && (forall n :: n in found <==> exists i :: 0 <= i < |fs| && fs[i].name == n)
            && (forall n :: n in found ==> n in entries && found[n] == FileForm(entries[n]))
    decreases |fs|
  {
    if fs != [] {
      NormalEntriesGive(fs[1..], entries);
      FirstEntryGives(fs, entries);
      forall n
        ensures n in EntriesOf(NormalEntries(fs, false)) <==> exists i :: 0 <= i < |fs| && fs[i].name == n
      {
        NamesOneMore(fs, n);
      }
    }
  }

  lemma {:induction false} OntoMembers<T>(acc: seq<T>, xs: seq<T>)
    ensures forall x :: x in Onto(acc, xs) <==> x in acc || x in xs
    decreases |xs|
  {
    if xs != [] {
      OntoMembers([xs[0]] + acc, xs[1..]);
      assert xs == [xs[0]] + xs[1..];
    }
  }

  lemma {:induction false} NormalEntriesAre(es: seq<FileEntry>)
    ensures forall f :: f in NormalEntries(es, false) ==> exists e :: e in es && f == NormalEntry(e, false)
    decreases |es|
  {
    if es != [] {
      NormalEntriesAre(es[1..]);
      assert es == [es[0]] + es[1..];
    }
  }

  function NamesOf(fs: seq<FileEntry>): (names: seq<string>)
    ensures |names| == |fs|
  {
    seq(|fs|, i requires 0 <= i < |fs| => fs[i].name)
  }

  lemma NamesAreOrder(fs: seq<FileEntry>, entries: Entries)
    requires Names(fs, entries) && NamesAll(fs, entries)
    ensures Orders(In(entries), NamesOf(fs)) && forall n :: n in NamesOf(fs) <==> n in entries
  {
    var order := NamesOf(fs);
    assert forall i :: 0 <= i < |fs| ==> order[i] == fs[i].name;
    forall n
      ensures n in order <==> n in entries
    {
      if n in entries {
        var i :| 0 <= i < |fs| && fs[i].name == n;
        assert order[i] == n;
      }
    }
  }

  /** A file that cannot be parsed to the end gives the entries up to the first the file has no form for. */
  lemma {:induction false} BrokenKeeps(fs: seq<FileEntry>, entries: Entries)
    requires Names(fs, entries) && NamesAll(fs, entries) && !WritableEntries(fs)
    ensures Keeps(entries, Decoded(WriteFile(DirTree("", fs, []), false)))
  {
    var j, last := FilledToTheFirst(fs);
    var filled := Filled("", WriteFile(DirTree("", fs, []), false)).entries;
    NamesAreOrder(fs, entries);
    BrokenGives(fs, entries, j, last, filled);
    forall n | n in EntriesOf(filled)
      ensures n in entries
    {
      FoundInBroken(fs, entries, j, last, filled, n);
    }
  }

  lemma {:induction false} BrokenGives(fs: seq<FileEntry>, entries: Entries, j: nat, last: Option<FileEntry>,
                                       filled: seq<FileEntry>)
    requires Names(fs, entries) && j < |fs| && WritableEntries(fs[..j]) && !WritableEntry(fs[j])
    requires filled == (if last.Some? then [last.value] else []) + Onto([], NormalEntries(fs[..j], false))
    requires last.Some? ==> last.value.name == fs[j].name && KeptEntry(last.value) && last.value.localSchemas == []
    ensures GivesUpTo(In(entries), In(EntriesOf(filled)), NamesOf(fs), j)
  {
    var found, order := EntriesOf(filled), NamesOf(fs);
    assert forall i :: 0 <= i < |fs| ==> order[i] == fs[i].name;
    assert fs[j] == ToFile(fs[j].name, entries[fs[j].name]);
    forall i | 0 <= i < j
      ensures HasForm(In(entries)(order[i])) && In(found)(order[i]) == FileForm(In(entries)(order[i]))
    {
      FormIsFound(fs, entries, j, last, filled, i);
    }
    forall n | n in found
      ensures exists i :: 0 <= i <= j && order[i] == n
      ensures n == order[j] ==> Lasting(found[n])
    {
      FoundInBroken(fs, entries, j, last, filled, n);
    }
  }

  /** Only what was written up to the unreadable entry is found. */
  lemma {:induction false} FoundInBroken(fs: seq<FileEntry>, entries: Entries, j: nat, last: Option<FileEntry>,
                                         filled: seq<FileEntry>, n: string)
    requires Names(fs, entries) && j < |fs| && WritableEntries(fs[..j]) && n in EntriesOf(filled)
    requires filled == (if last.Some? then [last.value] else []) + Onto([], NormalEntries(fs[..j], false))
    requires last.Some? ==> last.value.name == fs[j].name && KeptEntry(last.value) && last.value.localSchemas == []
    ensures n in entries && exists i :: 0 <= i <= j && fs[i].name == n
    ensures n == fs[j].name ==> Lasting(EntriesOf(filled)[n])
    ensures forall i :: 0 <= i < j && fs[i].name == n ==> EntriesOf(filled)[n] == FileForm(entries[n])
  {
    EntriesOfAre(filled);
    var f :| f in filled && f.name == n && EntriesOf(filled)[n] == FromFile(f);
    if last.Some? && f == last.value {
      ReadEntryLasts(f);
    } else {
      OntoMembers([], NormalEntries(fs[..j], false));
      ReadInFront(fs, entries, j, f);
    }
  }

  lemma {:induction false} ReadInFront(fs: seq<FileEntry>, entries: Entries, j: nat, f: FileEntry)
    requires Names(fs, entries) && j < |fs| && WritableEntries(fs[..j]) && f in NormalEntries(fs[..j], false)
    ensures f.name in entries && FromFile(f) == FileForm(entries[f.name])
    ensures exists i :: 0 <= i < j && fs[i].name == f.name
  {
    NormalEntriesAre(fs[..j]);
    var e :| e in fs[..j] && f == NormalEntry(e, false);
    var i :| 0 <= i < j && fs[i] == e;
    assert fs[i].name == f.name;
  }

  /** Each entry in front of the unreadable one is found. */
  lemma {:induction false} FormIsFound(fs: seq<FileEntry>, entries: Entries, j: nat, last: Option<FileEntry>,
                                       filled: seq<FileEntry>, i: nat)
    requires Names(fs, entries) && i < j < |fs| && WritableEntries(fs[..j])
    requires filled == (if last.Some? then [last.value] else []) + Onto([], NormalEntries(fs[..j], false))
    requires last.Some? ==> last.value.name == fs[j].name && KeptEntry(last.value) && last.value.localSchemas == []
    ensures var n := fs[i].name; n in EntriesOf(filled) && EntriesOf(filled)[n] == FileForm(entries[n])
    ensures HasForm(entries[fs[i].name])
  {
    assert fs[..j][i] == fs[i] == ToFile(fs[i].name, entries[fs[i].name]) && WritableEntry(fs[..j][i]);
    NormalEntryAt(fs[..j], i);
    OntoMembers([], NormalEntries(fs[..j], false));
    AllAreFound(filled, NormalEntry(fs[i], false));
    FoundInBroken(fs, entries, j, last, filled, fs[i].name);
  }

  lemma {:induction false} NormalEntryAt(es: seq<FileEntry>, i: nat)
    requires i < |es|
    ensures NormalEntry(es[i], false) in NormalEntries(es, false)
    decreases |es|
  {
    if i > 0 {
      NormalEntryAt(es[1..], i - 1);
    }
  }

  lemma {:induction false} AllAreFound(fs: seq<FileEntry>, f: FileEntry)
    requires f in fs
    ensures f.name in EntriesOf(fs)
    decreases |fs|
  {
    if f != fs[0] {
      AllAreFound(fs[1..], f);
    }
  }

  lemma {:induction false} FormsAreKept(fs: seq<FileEntry>, entries: Entries)
    requires Names(fs, entries) && NamesAll(fs, entries) && forall f :: f in fs ==> HasForm(entries[f.name])
    ensures Keeps(entries, EntriesOf(NormalEntries(fs, false)))
  {
    var found := EntriesOf(NormalEntries(fs, false));
    NormalEntriesGive(fs, entries);
    NamesAreOrder(fs, entries);
    forall n
      ensures n in found <==> n in entries
      ensures n in entries ==> HasForm(entries[n]) && found[n] == FileForm(entries[n])
    {
      if n in entries {
        var i :| 0 <= i < |fs| && fs[i].name == n;
        assert fs[i] in fs;
      }
    }
    AllKept(entries, found, NamesOf(fs));
  }

  lemma AllKept(entries: Entries, found: Entries, order: seq<string>)
    requires found.Keys == entries.Keys && Orders(In(entries), order)
    requires forall n :: n in entries ==> HasForm(entries[n]) && found[n] == FileForm(entries[n])
    ensures Keeps(entries, found)
  {
    NoEntryLasts();
    FormsAreGiven(In(entries), In(found), order);
  }

  /** Writing the entries in any order gives a file that keeps them. */
  lemma {:induction false} WrittenHolds(fs: seq<FileEntry>, entries: Entries)
    requires Names(fs, entries) && NamesAll(fs, entries)
    ensures Keeps(entries, Decoded(WriteFile(DirTree("", fs, []), false)))
  {
    forall f | f in fs
      ensures WritableEntry(f) <==> HasForm(entries[f.name])
    {
      assert f == ToFile(f.name, entries[f.name]);
    }
    if WritableEntries(fs) {
      LoadSaved(DirTree("", fs, []), false);
      FilledIsCanonical("", WriteFile(DirTree("", fs, []), false));
      FormsAreKept(fs, entries);
    } else {
      BrokenKeeps(fs, entries);
    }
  }

  /** A file as the backend leaves it: as far as it can be parsed nothing is said twice or no longer applies. */
  predicate Sane(file: seq<Event>) {
    var es := Filled("", file).entries;
    && Run(Init("", false), file) != Crashed
    && (forall i, j :: 0 <= i < j < |es| ==> es[i].name != es[j].name)
    && forall f :: f in es ==> DistinctLocales(f.localSchemas) && NoneDead(f.value, f.localSchemas)
  }

  lemma {:induction false} EntriesOfAre(fs: seq<FileEntry>)
    ensures forall n :: n in EntriesOf(fs) ==> exists f :: f in fs && f.name == n && EntriesOf(fs)[n] == FromFile(f)
    decreases |fs|
  {
    if fs != [] {
      EntriesOfAre(fs[1..]);
      assert forall f :: f in fs[1..] ==> f in fs;
      assert fs[0] in fs;
    }
  }

  /** Everything in such a file is canonical, since it was parsed, and so it lasts. */
  lemma {:induction false} SaneLasts(file: seq<Event>)
    requires Sane(file)
    ensures forall n :: n in Decoded(file) ==> Lasting(Decoded(file)[n])
  {
    var d := Filled("", file);
    FilledIsCanonical("", file);
    EntriesOfAre(d.entries);
    forall n | n in Decoded(file)
      ensures Lasting(Decoded(file)[n])
    {
      var f :| f in d.entries && Decoded(file)[n] == FromFile(f);
      var i :| 0 <= i < |d.entries| && d.entries[i] == f;
      assert CanonicalEntry(d.entries[i], false) && WritableEntry(f);
      ReadEntryLasts(f);
    }
  }

  lemma {:induction false} ReadEntryLasts(f: FileEntry)
    requires KeptEntry(f) && DistinctLocales(f.localSchemas) && NoneDead(f.value, f.localSchemas)
    ensures Lasting(FromFile(f))
  {
    var e := FromFile(f);
    LivingAre(e.value, e.localSchemas);
    EntryUnchanged(ToFile("", e), false);
  }

  /** save_tree for one directory's own file: the entries in whatever order they are listed. */
  method Encode(entries: Entries) returns (file: seq<Event>)
    ensures Keeps(entries, Decoded(file))
  {
    var fs := [];
    var todo := entries.Keys;
    while todo != {}
      invariant todo <= entries.Keys && Names(fs, entries)
      invariant forall n :: n in entries ==> (n in todo <==> !exists i :: 0 <= i < |fs| && fs[i].name == n)
      decreases todo
    {
      var n :| n in todo;
      todo := todo - {n};
      ghost var before := fs;
      fs := fs + [ToFile(n, entries[n])];
      assert fs[|fs| - 1].name == n;
      assert forall i :: 0 <= i < |before| ==> fs[i] == before[i];
    }
    WrittenHolds(fs, entries);
    file := WriteFile(DirTree("", fs, []), false);
  }
}
