/**
 * When the XML backend is as good as a plain map from keys to what was set for them: exactly when every
 * change of a run is one that the entry it changes can follow and its node can hold.
 */
module XmlRuns {
  import opened Options
  import opened Paths
  import opened Values
  import XmlNodes
  import XmlEntries
  import opened XmlItems
  import opened XmlCacheStates
  import opened XmlCaches

  // ----- a map that loses nothing -----

  type Ideal = map<Path, Item>

  function ItemAt(ideal: Ideal, key: Path): Item {
    if key in ideal then ideal[key] else NoItem
  }

  function ItemAfter(item: Item, op: Op): Item {
    match op
    case Set(_, value, _) => ItemSet(item, value)
    case Unset(_, locale, _) => ItemUnset(item, locale)
    case SetSchemaName(_, schemaName, _) => item.(schemaName := schemaName)
    case _ => item
  }

  function IdealApply(ideal: Ideal, op: Op): Ideal {
    if op.IsOnKey() && !op.Query? then ideal[op.key := ItemAfter(ItemAt(ideal, op.key), op)] else ideal
  }

  /** The answers such a map may give; of a sync it says nothing but that it is answered. */
  predicate IdealRun(ideal: Ideal, ops: seq<Op>, answers: seq<Answer>)
    decreases |ops|
  {
    if ops == [] then answers == []
    else
      match ops[0]
      case Query(key, locales) =>
        && answers != [] && answers[0].Found?
        && Matches(ItemAt(ideal, key), locales, answers[0].value, answers[0].schemaName)
        && IdealRun(ideal, ops[1..], answers[1..])
      case SyncAll => answers != [] && answers[0].Done? && IdealRun(ideal, ops[1..], answers[1..])
      case _ => IdealRun(IdealApply(ideal, ops[0]), ops[1..], answers)
  }

  // ----- stores that hold it -----

  /** What a directory holds of one name is the item, and so is what its file says unless it is dirty. */
  ghost predicate Fits(h: Held, name: string, item: Item) {
    && MeansIf(EntryIn(h.entries, name), item)
    && (!h.changed ==> MeansIf(EntryIn(LoadedAll(h.saved), name), item))
  }

  ghost predicate StoreFits(store: Store, ideal: Ideal) {
    forall p, n :: Fits(HeldIn(store, p), n, ItemAt(ideal, p + [n]))
  }

  /** What has just been loaded from files the backend could have written. */
  predicate FreshlyLoaded(store: Store) {
    forall p :: p in store ==>
      && !store[p].changed && store[p].entries == LoadedAll(store[p].saved)
      && forall n :: n in store[p].saved ==> Understood(n, store[p].saved[n])
  }

  function KeysOf(store: Store): set<Path> {
    set p, n | p in store && n in store[p].entries :: p + [n]
  }

  /** The map a store stands for. */
  function IdealOf(store: Store): Ideal {
    map k | k in KeysOf(store) && k != [] && Parent(k) in store && Last(k) in store[Parent(k)].entries ::
      ItemOf(store[Parent(k)].entries[Last(k)])
  }

  lemma {:induction false} FreshlyLoadedFits(store: Store)
    requires FreshlyLoaded(store)
    ensures StoreFits(store, IdealOf(store))
  {
    forall p, n
      ensures Fits(HeldIn(store, p), n, ItemAt(IdealOf(store), p + [n]))
    {
      assert Parent(p + [n]) == p && Last(p + [n]) == n;
      if p in store && n in store[p].entries {
        LoadedMeansExactlyWhen(n, store[p].saved[n]);
      }
    }
  }

  /** With nothing cached, files the backend could have written hold the map of what they say. */
  lemma {:induction false} StartFits(s: State)
    requires s.cache == map[]
    requires forall p, n :: p in s.files && n in s.files[p] ==> Understood(n, s.files[p][n])
    ensures StoreFits(StoreOf(s), IdealOf(StoreOf(s)))
  {
    FreshlyLoadedFits(StoreOf(s));
  }

  lemma LoadedFits(entries: Entries, name: string, item: Item)
    requires MeansIf(EntryIn(entries, name), item)
    ensures MeansIf(EntryIn(SyncedAll(entries), name), item)
    ensures MeansIf(EntryIn(LoadedAll(NodesOf(SyncedAll(entries))), name), item)
  {
    if name in entries {
      SyncedMeans(entries[name], item);
      LoadedMeans(name, XmlEntries.Synced(entries[name]), item);
    }
  }

  lemma StoredFits(h: Held, h': Held, name: string, item: Item)
    requires Fits(h, name, item) && Stored(h, h')
    ensures Fits(h', name, item)
  {
    LoadedFits(h.entries, name, item);
  }

  lemma ForgottenFits(h: Held, h': Held, name: string, item: Item)
    requires Fits(h, name, item) && ForgottenFrom(h, h')
    ensures Fits(h', name, item)
  {
  }

  // ----- the changes an entry follows -----

  /** What the entry can follow: a value it can hold, a schema name that is a key, a part it can give up. */
  ghost predicate OpFits(store: Store, op: Op)
    requires ValidOp(op)
  {
    match op
    case Set(key, value, _) => SetFits(EntryOrNew(HeldIn(store, Parent(key)).entries, Last(key)), value)
    case Unset(key, locale, _) =>
      var e := EntryIn(HeldIn(store, Parent(key)).entries, Last(key)); e.Some? ==> UnsetFits(e.value, locale)
    case SetSchemaName(_, schemaName, _) => schemaName.Some? ==> ValidKey(schemaName.value)
    case _ => true
  }

  lemma EntryOrNewMeans(entries: Entries, name: string, item: Item)
    requires MeansIf(EntryIn(entries, name), item)
    ensures Means(EntryOrNew(entries, name), item)
  {
    NewMeans(name);
  }

  lemma {:induction false} SetKeeps(entries: Entries, item: Item, op: Op)
    requires op.Set? && op.key != [] && MeansIf(EntryIn(entries, Last(op.key)), item)
    requires SetFits(EntryOrNew(entries, Last(op.key)), op.value)
    ensures MeansIf(EntryIn(EntriesAfter(entries, op), Last(op.key)), ItemAfter(item, op))
  {
    var e := EntryOrNew(entries, Last(op.key));
    EntryOrNewMeans(entries, Last(op.key), item);
    SetMeans(e, item, op.value);
    TouchedMeans(XmlEntries.Set(e, op.value), ItemSet(item, op.value), op.stamp.user, op.stamp.time);
  }

  lemma {:induction false} UnsetKeeps(entries: Entries, item: Item, op: Op)
    requires op.Unset? && op.key != [] && MeansIf(EntryIn(entries, Last(op.key)), item)
    requires Last(op.key) in entries ==> UnsetFits(entries[Last(op.key)], op.locale)
    ensures MeansIf(EntryIn(EntriesAfter(entries, op), Last(op.key)), ItemAfter(item, op))
    ensures !Changes(entries, op) ==> ItemAfter(item, op) == item
  {
    if Last(op.key) in entries {
      var e, item' := entries[Last(op.key)], ItemUnset(item, op.locale);
      var unset := XmlEntries.Unset(e, op.locale);
      UnsetMeans(e, item, op.locale);
      KeptMeans(unset, item');
      var kept := XmlEntries.Kept(unset);
      if kept.Some? {
        TouchedMeans(kept.value, item', op.stamp.user, op.stamp.time);
      }
    }
  }

  lemma {:induction false} NamingKeeps(entries: Entries, item: Item, op: Op)
    requires op.SetSchemaName? && op.key != [] && MeansIf(EntryIn(entries, Last(op.key)), item)
    requires op.schemaName.Some? ==> ValidKey(op.schemaName.value)
    ensures MeansIf(EntryIn(EntriesAfter(entries, op), Last(op.key)), ItemAfter(item, op))
  {
    var e := EntryOrNew(entries, Last(op.key));
    EntryOrNewMeans(entries, Last(op.key), item);
    TouchedMeans(e, item, "", op.stamp.time);
    NamedMeans(XmlEntries.Dated(e, op.stamp.time), item, op.schemaName);
    KeptMeans(XmlEntries.Named(XmlEntries.Dated(e, op.stamp.time), op.schemaName), ItemAfter(item, op));
  }

  /** An operation on a key leaves the directory holding what it is meant to, of every name. */
  lemma {:induction false} HeldFollows(h: Held, op: Op, name: string, item: Item)
    requires op.IsOnKey() && op.key != [] && Fits(h, name, item)
    requires OpFits(map[Parent(op.key) := h], op)
    ensures Fits(HeldAfter(h, op), name, if name == Last(op.key) then ItemAfter(item, op) else item)
  {
    if name == Last(op.key) {
      match op
      case Query(_, locales) =>
        if name in h.entries {
          ReadMeans(h.entries[name], item, locales);
        }
      case Set(_, _, _) => SetKeeps(h.entries, item, op);
      case Unset(_, _, _) => UnsetKeeps(h.entries, item, op);
      case SetSchemaName(_, _, _) => NamingKeeps(h.entries, item, op);
    } else {
      assert EntryIn(EntriesAfter(h.entries, op), name) == EntryIn(h.entries, name);
    }
  }

  /** Whatever the backend makes of an operation its entries can follow holds what the ideal map says. */
  lemma {:induction false} FollowsFits(store: Store, ideal: Ideal, op: Op, store': Store, answer: seq<Answer>)
    requires StoreFits(store, ideal) && ValidOp(op) && OpFits(store, op) && Follows(store, op, store', answer)
    ensures StoreFits(store', IdealApply(ideal, op))
  {
    forall p, n
      ensures Fits(HeldIn(store', p), n, ItemAt(IdealApply(ideal, op), p + [n]))
    {
      var h, h', item := HeldIn(store, p), HeldIn(store', p), ItemAt(ideal, p + [n]);
      assert Fits(h, n, item);
      match op
      case SyncAll => StoredFits(h, h', n, item);
      case CleanCache(_) => ForgottenFits(h, h', n, item);
      case _ =>
        KeysDiffer(p, n, op.key);
        if p == Parent(op.key) {
          HeldFollows(h, op, n, item);
        }
    }
  }

  // ----- what is read -----

  /** Queries, syncs and the cleaning of the cache. */
  predicate Reads(ops: seq<Op>) {
    forall i :: 0 <= i < |ops| ==> ValidOp(ops[i]) && (ops[i].Query? || ops[i].SyncAll? || ops[i].CleanCache?)
  }

  /** Whatever is only read from here on, the backend can answer only as the ideal map may. */
  ghost predicate ReadTheSame(store: Store, ideal: Ideal) {
    forall ops, answers :: Reads(ops) && PlainRun(store, ops, answers) ==> IdealRun(ideal, ops, answers)
  }

  lemma {:induction false} ReplyMatches(h: Held, name: string, item: Item, locales: Option<seq<string>>)
    requires Fits(h, name, item)
    ensures var reply := Reply(h.entries, name, locales); Matches(item, locales, reply.value, reply.schemaName)
  {
    if name in h.entries {
      ReadMeans(h.entries[name], item, locales);
    }
  }

  /** Reading, whatever was synced and forgotten in between, is answered from the ideal map. */
  lemma {:induction false} FittingReadsTheSame(store: Store, ideal: Ideal, ops: seq<Op>, answers: seq<Answer>)
    requires StoreFits(store, ideal) && Reads(ops) && PlainRun(store, ops, answers)
    ensures IdealRun(ideal, ops, answers)
    decreases |ops|
  {
    if ops != [] {
      var op := ops[0];
      var store', n: nat :| n <= |answers| && Follows(store, op, store', answers[..n])
                            && PlainRun(store', ops[1..], answers[n..]);
      FollowsFits(store, ideal, op, store', answers[..n]);
      if op.Query? {
        var p, name := Parent(op.key), Last(op.key);
        assert p + [name] == op.key;
        ReplyMatches(HeldIn(store, p), name, ItemAt(ideal, op.key), op.locales);
        assert answers[..n][0] == answers[0];
      }
      FittingReadsTheSame(store', IdealApply(ideal, op), ops[1..], answers[n..]);
    }
  }

  // ----- what is lost -----

  function AllSaved(store: Store): Store {
    map p | p in store :: Held(SyncedAll(store[p].entries), NodesOf(SyncedAll(store[p].entries)), false)
  }

  function AllForgotten(store: Store): Store {
    map p | p in store :: store[p].(entries := LoadedAll(store[p].saved))
  }

  function QueryFor(key: Path, locales: seq<string>): Op {
    Query(key, Some(locales))
  }

  lemma SavedFollows(store: Store)
    ensures Follows(store, SyncAll, AllSaved(store), [Done(true)])
  {
  }

  lemma ForgottenFollows(store: Store)
    requires forall p :: p in store ==> !store[p].changed
    ensures Follows(store, CleanCache({}), AllForgotten(store), [])
  {
  }

  lemma {:induction false} StartsWith(store: Store, op: Op, store': Store, answer: seq<Answer>, ops: seq<Op>,
                                      answers: seq<Answer>)
    requires Follows(store, op, store', answer) && PlainRun(store', ops, answers)
    ensures PlainRun(store, [op] + ops, answer + answers)
  {
    var all, given := [op] + ops, answer + answers;
    assert all[1..] == ops && given[..|answer|] == answer && given[|answer|..] == answers;
  }

  /** An answer that a query may give at once. */
  lemma {:induction false} Queried(store: Store, key: Path, locales: seq<string>) returns (answer: Answer)
    requires key != []
    ensures answer == Reply(HeldIn(store, Parent(key)).entries, Last(key), Some(locales))
    ensures PlainRun(store, [QueryFor(key, locales)], [answer])
  {
    var op := QueryFor(key, locales);
    answer := Reply(HeldIn(store, Parent(key)).entries, Last(key), Some(locales));
    var store' := store[Parent(key) := HeldAfter(HeldIn(store, Parent(key)), op)];
    StartsWith(store, op, store', [answer], [], []);
    assert [op] + [] == [op] && [answer] + [] == [answer];
  }

  /** One that it may give when everything has been saved and forgotten. */
  lemma {:induction false} SavedAndQueried(store: Store, key: Path, locales: seq<string>) returns (answer: Answer)
    requires key != []
    ensures answer.Found? && Readable(answer.value, answer.schemaName)
    ensures PlainRun(store, [SyncAll, CleanCache({}), QueryFor(key, locales)], [Done(true), answer])
  {
    var saved, forgotten := AllSaved(store), AllForgotten(AllSaved(store));
    var query, clean := [QueryFor(key, locales)], [CleanCache({}), QueryFor(key, locales)];
    answer := Queried(forgotten, key, locales);
    if Last(key) in HeldIn(forgotten, Parent(key)).entries {
      LoadedAnswers(Last(key), HeldIn(saved, Parent(key)).saved[Last(key)], Some(locales));
    }
    ForgottenFollows(saved);
    StartsWith(saved, CleanCache({}), forgotten, [], query, [answer]);
    assert [CleanCache({})] + query == clean && [] + [answer] == [answer];
    SavedFollows(store);
    StartsWith(store, SyncAll, saved, [Done(true)], clean, [answer]);
    assert [SyncAll] + clean == [SyncAll, CleanCache({}), QueryFor(key, locales)];
    assert [Done(true)] + [answer] == [Done(true), answer];
  }

  /** What the ideal map holds and no file can is missed when the key is read again. */
  lemma {:induction false} LossIsRead(store: Store, ideal: Ideal, key: Path)
    requires key != [] && !Lasts(ItemAt(ideal, key))
    ensures !ReadTheSame(store, ideal)
  {
    var locales := LossShows(ItemAt(ideal, key));
    var answer := SavedAndQueried(store, key, locales);
    var ops, query := [SyncAll, CleanCache({}), QueryFor(key, locales)], [QueryFor(key, locales)];
    assert ops[1..] == [CleanCache({}), QueryFor(key, locales)] && ops[1..][1..] == query;
    assert [Done(true), answer][1..] == [answer];
    assert !IdealRun(ideal, query, [answer]);
    assert Reads(ops) && !IdealRun(ideal, ops, [Done(true), answer]);
  }

  /** What the ideal map does not hold and the entry still says is read at once. */
  lemma {:induction false} LeftoverIsRead(store: Store, ideal: Ideal, key: Path, item: Item, sc: Schema)
    requires key != [] && ItemAt(ideal, key) == ItemSet(item, SchemaValue(sc)) && !item.content.Localized?
    requires Last(key) in HeldIn(store, Parent(key)).entries
    requires var e := HeldIn(store, Parent(key)).entries[Last(key)];
             && XmlNodes.WellFormed(e.node.children) && e.dirty && e.cached == Some(SchemaValue(sc))
             && XmlEntries.Storable(sc) && Leftover(e.node.children, sc.locale)
    ensures !ReadTheSame(store, ideal)
  {
    var locales := LeftoverShows(HeldIn(store, Parent(key)).entries[Last(key)], sc);
    var answer := Queried(store, key, locales);
    var query := [QueryFor(key, locales)];
    assert Reads(query) && !IdealRun(ideal, query, [answer]);
  }

  /** Everything but the unsetting of one locale. */
  predicate Whole(op: Op) {
    op.Unset? ==> op.locale == None
  }

  lemma {:induction false} UnfitIsSeen(store: Store, ideal: Ideal, op: Op)
    returns (store': Store, answer: seq<Answer>)
    requires StoreFits(store, ideal) && ValidOp(op) && Whole(op) && !OpFits(store, op)
    ensures Follows(store, op, store', answer) && !ReadTheSame(store', IdealApply(ideal, op))
  {
    var p, name := Parent(op.key), Last(op.key);
    var h, item := HeldIn(store, p), ItemAt(ideal, op.key);
    store', answer := store[p := HeldAfter(h, op)], [];
    assert p + [name] == op.key && Fits(h, name, item);
    if op.Set? {
      var e := EntryOrNew(h.entries, name);
      EntryOrNewMeans(h.entries, name, item);
      MeansLasts(e, item);
      SetLastsExactlyWhen(item, op.value);
      if Lasts(ItemSet(item, op.value)) {
        LeftoverIsRead(store', IdealApply(ideal, op), op.key, item, op.value.schema);
      } else {
        LossIsRead(store', IdealApply(ideal, op), op.key);
      }
    } else {
      LossIsRead(store', IdealApply(ideal, op), op.key);
    }
  }

  // ----- whole runs -----

  /** Every operation of a run, however it goes, is one that the entry it finds can follow. */
  ghost predicate OpsFit(store: Store, ops: seq<Op>)
    requires forall i :: 0 <= i < |ops| ==> ValidOp(ops[i])
    decreases |ops|
  {
    ops == [] ||
    (&& OpFits(store, ops[0])
     && forall store', answer :: Follows(store, ops[0], store', answer) ==> OpsFit(store', ops[1..]))
  }

  /** At every point of a run, however it goes, what is only read from there on is answered as by the ideal map. */
  ghost predicate RunTheSame(store: Store, ideal: Ideal, ops: seq<Op>)
    decreases |ops|
  {
    && ReadTheSame(store, ideal)
    && (ops == [] ||
        forall store', answer :: Follows(store, ops[0], store', answer) ==>
          RunTheSame(store', IdealApply(ideal, ops[0]), ops[1..]))
  }

  /** A run of changes the entries can follow, some for one locale only, is answered as by the ideal map. */
  lemma {:induction false} FittingRunsTheSame(store: Store, ideal: Ideal, ops: seq<Op>)
    requires StoreFits(store, ideal) && (forall i :: 0 <= i < |ops| ==> ValidOp(ops[i])) && OpsFit(store, ops)
    ensures RunTheSame(store, ideal, ops)
    ensures forall answers :: PlainRun(store, ops, answers) ==> IdealRun(ideal, ops, answers)
    decreases |ops|
  {
    forall later, answers | Reads(later) && PlainRun(store, later, answers)
      ensures IdealRun(ideal, later, answers)
    {
      FittingReadsTheSame(store, ideal, later, answers);
    }
    if ops != [] {
      forall store', answer | Follows(store, ops[0], store', answer)
        ensures StoreFits(store', IdealApply(ideal, ops[0]))
        ensures RunTheSame(store', IdealApply(ideal, ops[0]), ops[1..])
        ensures forall answers :: PlainRun(store', ops[1..], answers) ==>
                                  IdealRun(IdealApply(ideal, ops[0]), ops[1..], answers)
      {
        FollowsFits(store, ideal, ops[0], store', answer);
        FittingRunsTheSame(store', IdealApply(ideal, ops[0]), ops[1..]);
      }
      forall answers | PlainRun(store, ops, answers)
        ensures IdealRun(ideal, ops, answers)
      {
        FirstIsAnswered(store, ideal, ops, answers);
      }
    }
  }

  lemma {:induction false} FirstIsAnswered(store: Store, ideal: Ideal, ops: seq<Op>, answers: seq<Answer>)
    requires StoreFits(store, ideal) && ops != [] && ValidOp(ops[0]) && PlainRun(store, ops, answers)
    requires forall store', answer :: Follows(store, ops[0], store', answer) ==>
               forall rest :: PlainRun(store', ops[1..], rest) ==> IdealRun(IdealApply(ideal, ops[0]), ops[1..], rest)
    ensures IdealRun(ideal, ops, answers)
  {
    var op := ops[0];
    var store', n: nat :| n <= |answers| && Follows(store, op, store', answers[..n])
                          && PlainRun(store', ops[1..], answers[n..]);
    if op.Query? {
      var p, name := Parent(op.key), Last(op.key);
      assert p + [name] == op.key;
      ReplyMatches(HeldIn(store, p), name, ItemAt(ideal, op.key), op.locales);
      assert answers[..n][0] == answers[0];
    }
  }

  /**
   * The backend can only answer as a map that loses nothing, now and however it is read on, at every
   * point of a run exactly when each of the run's changes is one its entry can follow: a value set comes
   * back from a node, a schema is for no empty locale and has a default that comes back, a schema set
   * where there was none finds no parts of an earlier one, and a schema name is a valid key.
   */
  lemma {:induction false} RunsTheSameExactlyWhen(store: Store, ideal: Ideal, ops: seq<Op>)
    requires StoreFits(store, ideal) && forall i :: 0 <= i < |ops| ==> ValidOp(ops[i]) && Whole(ops[i])
    ensures RunTheSame(store, ideal, ops) <==> OpsFit(store, ops)
    decreases |ops|
  {
    if OpsFit(store, ops) {
      FittingRunsTheSame(store, ideal, ops);
    } else if !OpFits(store, ops[0]) {
      var store', answer := UnfitIsSeen(store, ideal, ops[0]);
      assert !RunTheSame(store', IdealApply(ideal, ops[0]), ops[1..]);
    } else {
      var store', answer :| Follows(store, ops[0], store', answer) && !OpsFit(store', ops[1..]);
      FollowsFits(store, ideal, ops[0], store', answer);
      RunsTheSameExactlyWhen(store', IdealApply(ideal, ops[0]), ops[1..]);
    }
  }

  /** What is written for the first time, saved and forgotten is found again exactly when a node can hold it. */
  lemma {:induction false} ValueLastsExactlyWhen(s: State, p: Path, name: string, value: Value, stamp: Stamp)
    requires p in s.cache && name in EntriesOf(s, p)
    requires EntriesOf(s, p)[name] == EntryWith(XmlEntries.NewEntry(name), value, stamp)
    ensures var saved := SavedDir(s, p);
            var entries := EntriesOf(saved.(cache := saved.cache - {p}), p);
            name in entries && (entries[name].cached == Some(value) <==> XmlNodes.ComesBack(value))
  {
    var e := EntryWith(XmlEntries.NewEntry(name), value, stamp);
    XmlEntries.PropsAreOther(e);
    XmlNodes.ComesBackExactlyWhen(XmlEntries.WithProps(e), value, None);
  }
}
