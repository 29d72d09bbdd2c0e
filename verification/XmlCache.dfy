/**
 * The XML backend's directory cache as the object it is: lookups that load or create directories and
 * tell their parents, the sync that restarts as long as it deletes, the cleaning of the cache, and the
 * operations on entries of any kind.
 */
module XmlCaches {
  import opened Options
  import opened Paths
  import opened Values
  import XmlEntries
  import XmlNodes
  import opened XmlCacheStates

  /** Who changes a value, and when. */
  datatype Stamp = Stamp(user: string, time: nat)

  // ----- the operations on the entries of a directory -----

  function EntryIn(entries: Entries, name: string): Option<DirEntry> {
    if name in entries then Some(entries[name]) else None
  }

  function EntryOrNew(entries: Entries, name: string): DirEntry {
    if name in entries then entries[name] else XmlEntries.NewEntry(name)
  }

  function WithEntry(entries: Entries, name: string, e: Option<DirEntry>): Entries {
    if e.Some? then entries[name := e.value] else entries - {name}
  }

  /** dir_get_value. */
  function ValueRead(entries: Entries, name: string, locales: Option<seq<string>>): Entries {
    if name in entries then entries[name := XmlEntries.Got(entries[name], locales)] else entries
  }

  /** The entry dir_set_value leaves. */
  function EntryWith(e: DirEntry, value: Value, stamp: Stamp): DirEntry {
    XmlEntries.Touched(XmlEntries.Set(e, value), stamp.user, stamp.time)
  }

  /** dir_set_value. */
  function ValueSet(entries: Entries, name: string, value: Value, stamp: Stamp): Entries {
    entries[name := EntryWith(EntryOrNew(entries, name), value, stamp)]
  }

  /** What dir_unset_value leaves of an entry; only one that had a value is marked as modified. */
  function EntryUnset(e: DirEntry, locale: Option<string>, stamp: Stamp): Option<DirEntry> {
    var kept := XmlEntries.Kept(XmlEntries.Unset(e, locale));
    if kept.Some? && e.cached.Some? then Some(XmlEntries.Touched(kept.value, stamp.user, stamp.time)) else kept
  }

  /** dir_unset_value. */
  function ValueUnset(entries: Entries, name: string, locale: Option<string>, stamp: Stamp): Entries {
    if name in entries then WithEntry(entries, name, EntryUnset(entries[name], locale, stamp)) else entries
  }

  /** The entry dir_set_schema leaves, if any. */
  function EntryNamed(e: DirEntry, schemaName: Option<string>, stamp: Stamp): Option<DirEntry> {
    XmlEntries.Kept(XmlEntries.Named(XmlEntries.Dated(e, stamp.time), schemaName))
  }

  /** dir_set_schema. */
  function SchemaSet(entries: Entries, name: string, schemaName: Option<string>, stamp: Stamp): Entries {
    WithEntry(entries, name, EntryNamed(EntryOrNew(entries, name), schemaName, stamp))
  }

  /** An entry that is still there has a schema name, or a read without locales answers a value. */
  predicate KeptForAReason(entries: Entries, name: string) {
    name in entries ==> entries[name].schemaName.Some? || XmlEntries.Got(entries[name], None).cached.Some?
  }

  // ----- the operations of the backend -----

  datatype Op =
    | Query(key: Path, locales: Option<seq<string>>)
    | Set(key: Path, value: Value, stamp: Stamp)
    | Unset(key: Path, locale: Option<string>, stamp: Stamp)
    | SetSchemaName(key: Path, schemaName: Option<string>, stamp: Stamp)
    | SyncAll
    | CleanCache(idle: set<Path>)
  {
    predicate IsOnKey() {
      Query? || Set? || Unset? || SetSchemaName?
    }

    predicate Creates() {
      Set? || SetSchemaName?
    }
  }

  predicate ValidOp(op: Op) {
    op.IsOnKey() ==> op.key != []
  }

  function EntriesAfter(entries: Entries, op: Op): Entries
    requires op.IsOnKey() && op.key != []
  {
    match op
    case Query(key, locales) => ValueRead(entries, Last(key), locales)
    case Set(key, value, stamp) => ValueSet(entries, Last(key), value, stamp)
    case Unset(key, locale, stamp) => ValueUnset(entries, Last(key), locale, stamp)
    case SetSchemaName(key, schemaName, stamp) => SchemaSet(entries, Last(key), schemaName, stamp)
  }

  /** Whether the operation makes its directory dirty: an entry without a value is forgotten quietly. */
  predicate Changes(entries: Entries, op: Op)
    requires op.IsOnKey() && op.key != []
  {
    op.Creates() || (op.Unset? && Last(op.key) in entries && entries[Last(op.key)].cached.Some?)
  }

  /** One of these operations on the whole state. */
  function Applied(s: State, op: Op): State
    requires op.IsOnKey() && op.key != []
  {
    var entries := EntriesOf(s, Parent(op.key));
    Changed(s, Parent(op.key), op.Creates(), EntriesAfter(entries, op), Changes(entries, op))
  }

  /** What is answered: to a query the value and the name of its schema, to a sync whether it succeeded. */
  datatype Answer =
    | Found(value: Option<Value>, schemaName: Option<string>)
    | Done(ok: bool)

  function Reply(entries: Entries, name: string, locales: Option<seq<string>>): Answer {
    if name in entries then Found(XmlEntries.Got(entries[name], locales).cached, entries[name].schemaName)
    else Found(None, None)
  }

  /** A write carries the value and who made it when, and keeps the name of the schema. */
  lemma SetIsStamped(entries: Entries, op: Op)
    requires op.Set? && op.key != []
    ensures var name, entries' := Last(op.key), EntriesAfter(entries, op);
            && entries'.Keys == entries.Keys + {name}
            && (forall n :: n in entries && n != name ==> entries'[n] == entries[n])
            && var e := entries'[name];
               && e.cached == Some(op.value) && e.dirty
               && e.modUser == Some(op.stamp.user) && e.modTime == op.stamp.time
               && e.schemaName == if name in entries then entries[name].schemaName else None
  {
  }

  /** Naming a schema carries the time alone; unsetting a value carries both, if there was one. */
  lemma OthersAreStamped(entries: Entries, op: Op)
    requires op.IsOnKey() && !op.Set? && op.key != [] && Last(op.key) in EntriesAfter(entries, op)
    ensures var name, e' := Last(op.key), EntriesAfter(entries, op)[Last(op.key)];
            && (op.SetSchemaName? ==> e'.modTime == op.stamp.time && e'.schemaName == op.schemaName)
            && (op.SetSchemaName? && name in entries ==> e'.modUser == entries[name].modUser)
            && (!op.SetSchemaName? ==> name in entries && e'.schemaName == entries[name].schemaName)
            && (op.Unset? && entries[name].cached.Some? ==>
                  e'.modUser == Some(op.stamp.user) && e'.modTime == op.stamp.time)
            && (op.Query? || (op.Unset? && entries[name].cached == None) ==>
                  e'.modUser == entries[name].modUser && e'.modTime == entries[name].modTime)
  {
  }

  /** Reading, and unsetting what has no value, make no directory dirty; every other change does. */
  lemma DirtyExactlyWhen(h: Held, op: Op)
    requires op.IsOnKey() && op.key != []
    ensures HeldAfter(h, op).changed <==>
            || h.changed || op.Set? || op.SetSchemaName?
            || (op.Unset? && Last(op.key) in h.entries && h.entries[Last(op.key)].cached.Some?)
  {
  }

  // ----- the plain store the backend stands for -----

  /** What each directory holds; one that is not listed holds nothing. */
  type Store = map<Path, Held>

  function HeldIn(store: Store, p: Path): Held {
    if p in store then store[p] else NothingHeld
  }

  ghost function StoreOf(s: State): Store {
    map p | p in s.cache.Keys + s.files.Keys :: HeldAt(s, p)
  }

  ghost predicate StandsFor(s: State, store: Store) {
    forall p :: HeldAt(s, p) == HeldIn(store, p)
  }

  lemma StoreStandsFor(s: State)
    ensures StandsFor(s, StoreOf(s))
  {
  }

  function HeldAfter(h: Held, op: Op): Held
    requires op.IsOnKey() && op.key != []
  {
    Held(EntriesAfter(h.entries, op), h.saved, h.changed || Changes(h.entries, op))
  }

  /**
   * A sync stores what a directory holds; what was dirty is in its nodes at least, and in its file if all
   * went well.
   */
  ghost predicate SyncedFrom(h: Held, h': Held, ok: bool) {
    && Stored(h, h') && (h.changed ==> h'.entries == SyncedAll(h.entries)) && (ok ==> !h'.changed)
  }

  /** A directory that is not dirty may be forgotten, and is read from its file the next time. */
  ghost predicate ForgottenFrom(h: Held, h': Held) {
    h' == h || (!h.changed && h' == h.(entries := LoadedAll(h.saved)))
  }

  /** What an operation may make of the store, and answer. */
  ghost predicate Follows(store: Store, op: Op, store': Store, answer: seq<Answer>) {
    match op
    case SyncAll =>
      |answer| == 1 && answer[0].Done? && forall p :: SyncedFrom(HeldIn(store, p), HeldIn(store', p), answer[0].ok)
    case CleanCache(_) => answer == [] && forall p :: ForgottenFrom(HeldIn(store, p), HeldIn(store', p))
    case _ =>
      && op.key != []
      && (forall p :: HeldIn(store', p) ==
                      if p == Parent(op.key) then HeldAfter(HeldIn(store, p), op) else HeldIn(store, p))
      && answer == if op.Query? then [Reply(HeldIn(store, Parent(op.key)).entries, Last(op.key), op.locales)] else []
  }

  /** The answers a run over the plain store may give. */
  ghost predicate PlainRun(store: Store, ops: seq<Op>, answers: seq<Answer>)
    decreases |ops|
  {
    if ops == [] then answers == []
    else
      exists store', n: nat :: n <= |answers| && Follows(store, ops[0], store', answers[..n])
                               && PlainRun(store', ops[1..], answers[n..])
  }

  lemma KeysDiffer(p: Path, n: string, key: Path)
    requires key != []
    ensures p + [n] == key <==> p == Parent(key) && n == Last(key)
  {
    assert Parent(key) + [Last(key)] == key;
    assert Parent(p + [n]) == p && Last(p + [n]) == n;
  }

  /** One of the operations changes what one directory holds, as the plain store says. */
  lemma AppliedSays(s: State, op: Op)
    requires Sound(s, {}) && op.IsOnKey() && op.key != []
    ensures var s' := Applied(s, op);
            && Sound(s', {})
            && (forall p :: HeldAt(s', p) ==
                            if p == Parent(op.key) then HeldAfter(HeldAt(s, p), op) else HeldAt(s, p))
            && StepAgrees(s, op, s')
  {
    var entries := EntriesOf(s, Parent(op.key));
    ChangeSays(s, Parent(op.key), op.Creates(), EntriesAfter(entries, op), Changes(entries, op));
  }

  lemma {:induction false} LeftForAReason(entries: Entries, op: Op)
    requires (op.Unset? || op.SetSchemaName?) && op.key != []
    ensures KeptForAReason(EntriesAfter(entries, op), Last(op.key))
  {
  }

  lemma AppliedForAReason(s: State, op: Op)
    requires Sound(s, {}) && (op.Unset? || op.SetSchemaName?) && op.key != []
    ensures KeptForAReason(EntriesOf(Applied(s, op), Parent(op.key)), Last(op.key))
  {
    AppliedSays(s, op);
    LeftForAReason(EntriesOf(s, Parent(op.key)), op);
    assert HeldAt(Applied(s, op), Parent(op.key)) == HeldAfter(HeldAt(s, Parent(op.key)), op);
  }

  /** The operation creates its directory and, doing so, forgets a listing. */
  ghost predicate OpForgets(s: State, op: Op) {
    op.IsOnKey() && op.Creates() && op.key != [] && Parent(op.key) !in s.files && Forgets(s, Parent(op.key))
  }

  ghost predicate StepAgrees(s: State, op: Op, s': State) {
    Agrees(s) ==> (Agrees(s') <==> !OpForgets(s, op))
  }

  lemma {:induction false} AgreesThroughout(trace: seq<State>, ops: seq<Op>)
    requires |trace| == |ops| + 1
    requires forall j :: 0 <= j < |ops| ==> StepAgrees(trace[j], ops[j], trace[j + 1])
    ensures Agrees(trace[0]) ==>
              ((forall i :: 0 <= i <= |ops| ==> Agrees(trace[i])) <==>
               (forall i :: 0 <= i < |ops| ==> !OpForgets(trace[i], ops[i])))
  {
    if Agrees(trace[0]) && forall i :: 0 <= i < |ops| ==> !OpForgets(trace[i], ops[i]) {
      var i := 0;
      while i < |ops|
        invariant 0 <= i <= |ops| && forall j :: 0 <= j <= i ==> Agrees(trace[j])
      {
        assert StepAgrees(trace[i], ops[i], trace[i + 1]) && !OpForgets(trace[i], ops[i]);
        i := i + 1;
      }
    }
    if forall i :: 0 <= i <= |ops| ==> Agrees(trace[i]) {
      forall i | 0 <= i < |ops|
        ensures !OpForgets(trace[i], ops[i])
      {
        assert StepAgrees(trace[i], ops[i], trace[i + 1]) && Agrees(trace[i]);
      }
    }
  }

  // ----- why the sync ends -----

  function Pow2(n: nat): nat {
    if n == 0 then 1 else 2 * Pow2(n - 1)
  }

  /** A cached directory weighs more than all the directories above it together. */
  ghost function Weight(paths: set<Path>): nat {
    if paths == {} then 0
    else
      var p :| p in paths;
      Pow2(|p|) + Weight(paths - {p})
  }

  lemma {:induction false} WeightWithout(paths: set<Path>, p: Path)
    requires p in paths
    ensures Weight(paths) == Pow2(|p|) + Weight(paths - {p})
    decreases |paths|
  {
    var q :| q in paths && Weight(paths) == Pow2(|q|) + Weight(paths - {q});
    if q != p {
      WeightWithout(paths - {q}, p);
      WeightWithout(paths - {p}, q);
      assert paths - {q} - {p} == paths - {p} - {q};
    }
  }

  lemma {:induction false} AncestorsWeighLess(above: set<Path>, p: Path)
    requires forall q :: q in above ==> q <= p && q != p
    ensures Weight(above) < Pow2(|p|)
    decreases |p|
  {
    if p == [] {
      if q :| q in above {
        assert false;
      }
    } else {
      forall q | q in above
        ensures q <= Parent(p)
      {
        PrefixOfParent(q, p);
      }
      AncestorsWeighLess(above - {Parent(p)}, Parent(p));
      if Parent(p) in above {
        WeightWithout(above, Parent(p));
      } else {
        assert above - {Parent(p)} == above;
      }
    }
  }

  lemma {:induction false} WeightOfUnion(a: set<Path>, b: set<Path>)
    ensures Weight(a + b) <= Weight(a) + Weight(b)
    decreases |b|
  {
    if b == {} {
      assert a + b == a;
    } else {
      var p :| p in b;
      WeightOfUnion(a, b - {p});
      WeightWithout(b, p);
      if p in a {
        assert a + (b - {p}) == a + b;
      } else {
        WeightWithout(a + b, p);
        assert (a + b) - {p} == a + (b - {p});
      }
    }
  }

  lemma {:induction false} WeightGrows(a: set<Path>, b: set<Path>)
    requires a <= b
    ensures Weight(a) <= Weight(b)
    decreases |a|
  {
    if a != {} {
      var p :| p in a;
      WeightWithout(a, p);
      WeightWithout(b, p);
      WeightGrows(a - {p}, b - {p});
    }
  }

  /** However many ancestors a deletion loads into the cache, the cache gets lighter. */
  lemma {:induction false} DeletionLightens(before: set<Path>, after: set<Path>, p: Path)
    requires p in before && p !in after
    requires forall q :: q in after ==> q in before || (q <= p && q != p)
    ensures Weight(after) < Weight(before)
  {
    var kept, loaded := after * before, after - before;
    assert after == kept + loaded;
    WeightOfUnion(kept, loaded);
    AncestorsWeighLess(loaded, p);
    WeightGrows(kept, before - {p});
    WeightWithout(before, p);
  }

  lemma NoNewHuskTwice(s0: State, s1: State, s2: State)
    ensures NoNewHusk(s0, s1) && NoNewHusk(s1, s2) ==> NoNewHusk(s0, s2)
  {
  }

  // ----- a sync of the whole cache -----

  ghost predicate NoneDirty(s: State, except: set<Path>) {
    forall p :: p in s.cache && p !in except ==> !s.cache[p].dirty
  }

  /** What was dirty is in its nodes, or still dirty where todo is still before the sync. */
  ghost predicate StoredBut(s: State, s': State, todo: set<Path>) {
    && AllStored(s, s')
    && forall q :: Dirty(s, q) ==> if q in todo then Dirty(s', q) else EntriesOf(s', q) == SyncedAll(EntriesOf(s, q))
  }

  /** What cache_sync_foreach did to p: refused says that the disk said no to what had to be done. */
  ghost predicate OneSynced(s: State, s': State, p: Path, failed: bool, deleted: bool, refused: bool) {
    && !(failed && deleted)
    && (deleted ==>
          p !in s'.cache && s.cache.Keys - {p} <= s'.cache.Keys && Weight(s'.cache.Keys) < Weight(s.cache.Keys))
    && (!deleted ==> s'.cache.Keys == s.cache.Keys)
    && (!failed && !deleted ==>
          && p in s'.cache && !s'.cache[p].dirty
          && forall q :: q in s'.cache && q != p ==> q in s.cache && s'.cache[q] == s.cache[q])
    && (Sound(s, {}) ==> Sound(s', {}) && StoredBut(s, s', s.cache.Keys - {p}))
    && (Agrees(s) ==> Agrees(s') && (failed <==> refused) && NoNewHusk(s, s') && s'.files.Keys <= s.files.Keys)
  }

  lemma SyncedOnce(s: State, p: Path, accepted: bool)
    requires p in s.cache
    ensures var result := DirSynced(s, p, accepted).1;
            OneSynced(s, Synced(s, p, accepted), p, result == Refused, result == Deleted, s.cache[p].dirty && !accepted)
  {
    var s' := Synced(s, p, accepted);
    if DirSynced(s, p, accepted).1 == Deleted {
      DeletionGrowsUpwards(s, p);
      DeletionLightens(s.cache.Keys, s'.cache.Keys, p);
      if Sound(s, {}) {
        DeletionIsSound(s, p);
        DeletionStores(s, s', p);
        DeletedStaysDirty(s, s', p);
      }
      if Agrees(s) {
        DeletionAgrees(s, p);
        DeletionAddsNoFiles(s, p);
        DeletionLeavesNoHusk(s, p);
      }
    } else {
      NotDeletedCleans(s, p, accepted);
      if Sound(s, {}) {
        NotDeletedIsSound(s, p, accepted);
        OneIsStored(s, s', p);
      }
      if Agrees(s) {
        NotDeletedAgrees(s, p, accepted);
        NotDeletedLeavesNoHusk(s, p, accepted);
      }
    }
  }

  lemma DeletedStaysDirty(s: State, s': State, p: Path)
    requires DeletedAt(s, s', p)
    ensures forall q :: q != p && Dirty(s, q) ==> Dirty(s', q)
  {
    forall q | q != p && Dirty(s, q)
      ensures Dirty(s', q)
    {
      assert HeldAt(s, q).changed && HeldAt(s', q).changed;
    }
  }

  lemma HeldIsStored(h: Held)
    ensures Stored(h, h)
  {
  }

  lemma OneIsStored(s: State, s': State, p: Path)
    requires StoredAt(s, s', p)
    ensures AllStored(s, s') && forall q :: q != p && Dirty(s, q) ==> Dirty(s', q)
  {
    forall q
      ensures Stored(HeldAt(s, q), HeldAt(s', q))
      ensures q != p && Dirty(s, q) ==> Dirty(s', q)
    {
      if q != p {
        assert HeldAt(s', q) == HeldAt(s, q);
        HeldIsStored(HeldAt(s, q));
      }
    }
  }

  /** A pass over the cached directories, from s to s', that has todo still before it. */
  ghost predicate Passed(s: State, s': State, todo: set<Path>, failed: bool, deletedSome: bool, refused: bool) {
    && todo <= s'.cache.Keys
    && Weight(s'.cache.Keys) <= Weight(s.cache.Keys) && (deletedSome ==> Weight(s'.cache.Keys) < Weight(s.cache.Keys))
    && (!failed && !deletedSome ==> NoneDirty(s', todo))
    && (Sound(s, {}) ==> Sound(s', {}) && StoredBut(s, s', todo))
    && (Agrees(s) ==> Agrees(s') && (failed <==> refused) && NoNewHusk(s, s') && s'.files.Keys <= s.files.Keys)
  }

  lemma PassBegins(s: State)
    ensures Passed(s, s, s.cache.Keys, false, false, false)
  {
    forall p
      ensures Stored(HeldAt(s, p), HeldAt(s, p))
    {
      HeldIsStored(HeldAt(s, p));
    }
  }

  lemma StoredFurther(s: State, s1: State, s2: State, p: Path, todo: set<Path>)
    requires StoredBut(s, s1, todo) && StoredBut(s1, s2, s1.cache.Keys - {p}) && p in todo
    ensures StoredBut(s, s2, todo - {p})
  {
    AllStoredTwice(s, s1, s2);
    forall q | Dirty(s, q)
      ensures if q in todo - {p} then Dirty(s2, q) else EntriesOf(s2, q) == SyncedAll(EntriesOf(s, q))
    {
      SyncedTwice(EntriesOf(s, q));
      assert Stored(HeldAt(s, q), HeldAt(s1, q)) && Stored(HeldAt(s1, q), HeldAt(s2, q));
    }
  }

  lemma PassGoesOn(s: State, s1: State, s2: State, p: Path, todo: set<Path>, failed: bool, deletedSome: bool,
                   refused: bool, failedOne: bool, deletedOne: bool, refusedOne: bool)
    requires Passed(s, s1, todo, failed, deletedSome, refused) && p in todo
    requires OneSynced(s1, s2, p, failedOne, deletedOne, refusedOne)
    ensures Passed(s, s2, todo - {p}, failed || failedOne, deletedSome || deletedOne, refused || refusedOne)
  {
    if Sound(s, {}) {
      StoredFurther(s, s1, s2, p, todo);
    }
    NoNewHuskTwice(s, s1, s2);
  }

  lemma StoredAgain(s: State, s1: State, s2: State)
    requires StoredBut(s, s1, {}) && StoredBut(s1, s2, {})
    ensures StoredBut(s, s2, {})
  {
    AllStoredTwice(s, s1, s2);
    forall q | Dirty(s, q)
      ensures EntriesOf(s2, q) == SyncedAll(EntriesOf(s, q))
    {
      StoredTwice(HeldAt(s, q), HeldAt(s1, q), HeldAt(s2, q));
    }
  }

  lemma NextPass(s: State, s1: State, s2: State, failed: bool, deletedSome: bool, refused: bool,
                 failed2: bool, deletedSome2: bool, refused2: bool)
    requires Passed(s, s1, {}, failed, deletedSome, refused) && !failed
    requires Passed(s1, s2, {}, failed2, deletedSome2, refused2)
    ensures Passed(s, s2, {}, failed2, deletedSome || deletedSome2, refused2)
    ensures !failed2 && !deletedSome2 ==> NoneDirty(s2, {})
  {
    if Sound(s, {}) {
      StoredAgain(s, s1, s2);
    }
    NoNewHuskTwice(s, s1, s2);
  }

  /** What was empty and dirty before is not on disk any more. */
  lemma EmptiedIsGone(s: State, s': State)
    requires Agrees(s) && StoredBut(s, s', {}) && s'.files.Keys <= s.files.Keys
    requires forall p :: Husk(s', p) ==> Husk(s, p) && !Dirty(s, p)
    ensures forall p :: Husk(s, p) && Dirty(s, p) ==> p !in s'.files
  {
    forall p | Husk(s, p) && Dirty(s, p)
      ensures p !in s'.files
    {
      assert EntriesOf(s', p) == SyncedAll(map[]);
      assert p in s'.files ==> Husk(s', p);
    }
  }

  /**
   * The last value in a directory without subdirectories, which names no schema, is unset: the directory
   * is empty and dirty, so that the next successful sync takes it off the disk.
   */
  lemma LastUnsetEmptiesItsDir(s: State, key: Path, stamp: Stamp)
    requires Agrees(s) && key != [] && EntriesOf(s, Parent(key)).Keys == {Last(key)}
    requires EntriesOf(s, Parent(key))[Last(key)].schemaName == None
    requires EntriesOf(s, Parent(key))[Last(key)].cached.Some?
    requires Parent(key) in s.files && forall n :: Parent(key) + [n] !in s.files
    ensures var s' := Applied(s, Unset(key, None, stamp));
            Agrees(s') && Husk(s', Parent(key)) && Dirty(s', Parent(key))
  {
    var op, p := Unset(key, None, stamp), Parent(key);
    AgreesIsSound(s);
    AppliedSays(s, op);
    LookedGrew(s, p);
    assert HeldAt(Applied(s, op), p) == HeldAfter(HeldAt(s, p), op);
    assert EntriesAfter(EntriesOf(s, p), op) == map[];
  }

  lemma UnseenIsStored(s: State, s1: State, s2: State)
    requires StoredBut(s, s1, {}) && SameHeld(s1, s2)
    ensures StoredBut(s, s2, {})
  {
    forall q
      ensures Stored(HeldAt(s, q), HeldAt(s2, q))
      ensures Dirty(s, q) ==> EntriesOf(s2, q) == SyncedAll(EntriesOf(s, q))
    {
      assert HeldAt(s2, q) == HeldAt(s1, q);
    }
  }

  lemma SyncIsDone(s: State, s': State, ok: bool)
    requires StoredBut(s, s', {}) && (ok ==> NoneDirty(s', {}))
    ensures forall p :: SyncedFrom(HeldAt(s, p), HeldAt(s', p), ok)
  {
    forall p
      ensures SyncedFrom(HeldAt(s, p), HeldAt(s', p), ok)
    {
      assert Dirty(s, p) <==> HeldAt(s, p).changed;
    }
  }

  /** What is said of the states is said of the stores they stand for. */
  lemma StepFollows(s: State, store: Store, op: Op, s': State, store': Store, answer: seq<Answer>)
    requires StandsFor(s, store) && StandsFor(s', store') && ValidOp(op)
    requires op.IsOnKey() ==>
               && (forall p :: HeldAt(s', p) ==
                               if p == Parent(op.key) then HeldAfter(HeldAt(s, p), op) else HeldAt(s, p))
               && answer == if op.Query? then [Reply(EntriesOf(s, Parent(op.key)), Last(op.key), op.locales)] else []
    requires op.SyncAll? ==>
               |answer| == 1 && answer[0].Done? && forall p :: SyncedFrom(HeldAt(s, p), HeldAt(s', p), answer[0].ok)
    requires op.CleanCache? ==> answer == [] && forall p :: ForgottenFrom(HeldAt(s, p), HeldAt(s', p))
    ensures Follows(store, op, store', answer)
  {
    forall p
      ensures HeldIn(store, p) == HeldAt(s, p) && HeldIn(store', p) == HeldAt(s', p)
    {
    }
  }

  lemma {:induction false} RunGoesOn(store: Store, ops: seq<Op>, answers: seq<Answer>, current: Store, i: nat,
                                     answer: seq<Answer>, next: Store)
    requires i < |ops| && Follows(current, ops[i], next, answer)
    requires forall more :: PlainRun(current, ops[i..], more) ==> PlainRun(store, ops, answers + more)
    ensures forall more :: PlainRun(next, ops[i + 1..], more) ==> PlainRun(store, ops, answers + answer + more)
  {
    assert ops[i..][0] == ops[i] && ops[i..][1..] == ops[i + 1..];
    forall more | PlainRun(next, ops[i + 1..], more)
      ensures PlainRun(store, ops, answers + answer + more)
    {
      var n := |answer|;
      assert (answer + more)[..n] == answer && (answer + more)[n..] == more;
      assert answers + (answer + more) == answers + answer + more;
      assert PlainRun(current, ops[i..], answer + more);
    }
  }

  class XmlCache {
    var cache: map<Path, Dir>
    var nonexistent: set<Path>
    // the disk
    var files: map<Path, Doc>
    var fsDirs: set<Path>

    ghost function Now(): State
      reads this
    {
      State(cache, nonexistent, files, fsDirs)
    }

    /** The caches fit the directories on disk; the entries may be any. */
    ghost predicate Valid()
      reads this
    {
      Sound(Now(), {})
    }

    /** cache_get: an empty cache over the disk, in agreement with it if every directory has a data file. */
    constructor (files: map<Path, Doc>, fsDirs: set<Path>)
      requires DirsClosed(fsDirs) && forall p :: p in files ==> p in fsDirs
      ensures Valid() && Now() == State(map[], {}, files, fsDirs)
      ensures DiskTidy(Now()) ==> Agrees(Now())
    {
      cache, nonexistent := map[], {};
      this.files, this.fsDirs := files, fsDirs;
    }

    // ----- lookup -----

    /** cache_lookup. */
    method Lookup(key: Path, create: bool) returns (found: bool)
      modifies this
      ensures Now() == LookedUp(old(Now()), key, create)
      ensures found <==> key in cache
      decreases |key|, if key in cache then 0 else 2
    {
      if key in cache {
        return true;
      }
      if key in nonexistent {
        if !create {
          return false;
        }
      } else if key in files {
        cache := cache[key := Blank];
        ghost var loaded := Now();
        AddToParent(key);
        AddedGrew(loaded, key);
        return true;
      } else if !create {
        nonexistent := nonexistent + {key};
        return false;
      }
      ghost var before := Now();
      CreateFsDir(key);
      cache := cache[key := Blank];
      ghost var cached := Now();
      AddToParent(key);
      FsCreatedHasFile(before, key);
      AddedGrew(cached, key);
      UnsetNonexistent(key);
      return true;
    }

    /** cache_add_to_parent; the root is its own parent. */
    method AddToParent(key: Path)
      requires key in cache
      modifies this
      ensures Now() == AddedToParent(old(Now()), key)
      decreases |key|, 1
    {
      var parent := Parent(key);
      var found := Lookup(parent, false);
      if found && parent != key {
        cache := cache[parent := Told(cache[parent], Last(key))];
      }
    }

    /** create_fs_dir. */
    method CreateFsDir(key: Path)
      modifies this`files, this`fsDirs
      ensures Now() == FsCreated(old(Now()), key)
      decreases |key|
    {
      if key in files {
        return;
      }
      if key != [] {
        CreateFsDir(Parent(key));
      }
      files, fsDirs := files[key := map[]], fsDirs + {key};
    }

    /** cache_unset_nonexistent. */
    method UnsetNonexistent(key: Path)
      modifies this`nonexistent
      ensures nonexistent == WithoutAbove(old(nonexistent), key)
      decreases |key|
    {
      nonexistent := nonexistent - {key};
      if key != [] {
        UnsetNonexistent(Parent(key));
      }
    }

    // ----- sync -----

    /** dir_load_doc, if the document is not loaded yet. */
    method LoadDoc(p: Path)
      requires p in cache
      modifies this`cache
      ensures cache == old(cache)[p := old(cache[p]).(entries := Some(EntriesOf(old(Now()), p)))]
    {
      if cache[p].entries == None {
        cache := cache[p := cache[p].(entries := Some(EntriesIn(files, p)))];
      }
    }

    /** dir_rescan_subdirs, if the listing is not valid. */
    method RescanSubdirs(p: Path)
      requires p in cache
      modifies this`cache
      ensures cache == old(cache)[p := Examined(old(Now()), p)]
    {
      LoadDoc(p);
      if cache[p].needRescan {
        cache := cache[p := cache[p].(needRescan := false, subdirNames := Scan(files, p))];
      }
    }

    /** entry_sync_foreach for all entries. */
    method SyncEntries(p: Path)
      requires p in cache && cache[p].entries.Some?
      modifies this`cache
      ensures cache == old(cache)[p := old(cache[p]).(entries := Some(SyncedAll(old(cache[p]).entries.value)))]
    {
      cache := cache[p := cache[p].(entries := Some(SyncedAll(cache[p].entries.value)))];
    }

    /** The rest of dir_sync: the nodes are written to the file. */
    method WriteDoc(p: Path)
      requires p in cache && cache[p].entries.Some?
      modifies this`cache, this`files
      ensures cache == old(cache)[p := old(cache[p]).(dirty := false)]
      ensures files == old(files)[p := NodesOf(old(cache[p]).entries.value)]
    {
      files := files[p := NodesOf(cache[p].entries.value)];
      cache := cache[p := cache[p].(dirty := false)];
    }

    /** dir_sync; accepted is the disk's verdict on what is asked of it. */
    method SyncDir(p: Path) returns (result: SyncResult, ghost accepted: bool)
      requires p in cache
      modifies this`cache, this`files, this`fsDirs
      ensures (Now(), result) == DirSynced(old(Now()), p, accepted)
    {
      var done: bool := *;
      accepted := done;
      if !cache[p].dirty {
        return NothingToDo, accepted;
      }
      RescanSubdirs(p);
      assert cache[p] == Examined(old(Now()), p);
      if Useless(cache[p]) {
        if !done || p !in files {
          return Refused, accepted;
        }
        files := files - {p};
        if p != [] {
          if HasSubdirectory(fsDirs, p) {
            return Refused, accepted;
          }
          fsDirs := fsDirs - {p};
        }
        cache := cache[p := cache[p].(dirty := false)];
        assert cache == old(cache)[p := Examined(old(Now()), p).(dirty := false)];
        return Deleted, accepted;
      }
      SyncEntries(p);
      assert cache == old(cache)[p := Prepared(old(Now()), p)];
      if !done {
        return Refused, accepted;
      }
      WriteDoc(p);
      assert cache == SavedDir(old(Now()), p).cache;
      result := Saved;
    }

    /** cache_remove_from_parent. */
    method RemoveFromParent(key: Path)
      modifies this
      ensures Now() == RemovedFromParent(old(Now()), key)
    {
      var parent := Parent(key);
      var found := Lookup(parent, true);
      if found && parent != key {
        cache := cache[parent := Untold(cache[parent], Last(key))];
      }
    }

    /** cache_sync_foreach. */
    method SyncOne(p: Path) returns (failed: bool, deleted: bool, ghost refused: bool)
      requires p in cache
      modifies this
      ensures OneSynced(old(Now()), Now(), p, failed, deleted, refused)
    {
      ghost var before := Now();
      var result;
      ghost var accepted;
      result, accepted := SyncDir(p);
      refused := before.cache[p].dirty && !accepted;
      SyncedOnce(before, p, accepted);
      failed, deleted := result == Refused, result == Deleted;
      if deleted {
        RemoveFromParent(p);
        cache := cache - {p};
        nonexistent := nonexistent + {p};
      }
      assert Now() == Synced(before, p, accepted);
    }

    /** One pass over the directories cached at its start, in whatever order their list comes. */
    method SyncEach() returns (failed: bool, deletedSome: bool, ghost refused: bool)
      modifies this
      ensures Passed(old(Now()), Now(), {}, failed, deletedSome, refused)
    {
      failed, deletedSome, refused := false, false, false;
      PassBegins(Now());
      var todo := cache.Keys;
      while todo != {}
        invariant Passed(old(Now()), Now(), todo, failed, deletedSome, refused)
        decreases todo
      {
        var p :| p in todo;
        var failedOne, deletedOne;
        ghost var refusedOne;
        ghost var before := Now();
        failedOne, deletedOne, refusedOne := SyncOne(p);
        PassGoesOn(old(Now()), before, Now(), p, todo, failed, deletedSome, refused, failedOne, deletedOne, refusedOne);
        todo := todo - {p};
        failed, deletedSome, refused := failed || failedOne, deletedSome || deletedOne, refused || refusedOne;
      }
    }

    /**
     * cache_sync. In every state it ends, although each deletion may load more directories into the
     * cache, and when it reports success nothing cached is dirty. In a valid one what every directory
     * holds is stored. In agreement with the disk only the disk can make it report failure, and after a
     * success the only empty directories are those that were empty before and had not been changed: one
     * that was emptied is gone from the disk.
     */
    method SyncCache() returns (ok: bool, ghost refused: bool)
      modifies this
      ensures ok ==> NoneDirty(Now(), {})
      ensures old(Valid()) ==> Valid() && StoredBut(old(Now()), Now(), {})
      ensures old(Agrees(Now())) ==> Agrees(Now()) && (ok <==> !refused)
      ensures old(Agrees(Now())) && ok ==>
                forall p :: Husk(Now(), p) ==> Husk(old(Now()), p) && !Dirty(old(Now()), p)
      ensures old(Agrees(Now())) && ok ==> forall p :: old(Husk(Now(), p) && Dirty(Now(), p)) ==> p !in files
    {
      var failed, deletedSome;
      failed, deletedSome, refused := SyncEach();
      ghost var deletedEver := deletedSome;
      while !failed && deletedSome
        invariant Passed(old(Now()), Now(), {}, failed, deletedEver, refused)
        invariant !failed && !deletedSome ==> NoneDirty(Now(), {})
        decreases Weight(cache.Keys), deletedSome
      {
        ghost var before := Now();
        var failedNow, deletedNow;
        ghost var refusedNow;
        failedNow, deletedNow, refusedNow := SyncEach();
        NextPass(old(Now()), before, Now(), failed, deletedEver, refused, failedNow, deletedNow, refusedNow);
        failed, deletedSome, refused := failedNow, deletedNow, refusedNow;
        deletedEver := deletedEver || deletedNow;
      }
      ok := !failed;
      if old(Agrees(Now())) && ok {
        EmptiedIsGone(old(Now()), Now());
      }
    }

    /** cache_clean: directories not used for a while are forgotten, unless they are dirty. */
    method Clean(idle: set<Path>)
      modifies this`cache
      ensures forall p :: p in old(cache) ==>
                (p in cache <==> p !in idle || old(cache[p].dirty)) && (p in cache ==> cache[p] == old(cache[p]))
      ensures cache.Keys <= old(cache.Keys)
      ensures old(Valid()) ==> Valid() && forall p :: ForgottenFrom(HeldAt(old(Now()), p), HeldAt(Now(), p))
      ensures old(Agrees(Now())) ==> Agrees(Now())
    {
      cache := map p | p in cache && (p !in idle || cache[p].dirty) :: cache[p];
    }

    // ----- the backend's operations -----

    /** A lookup for one of the operations, and the directory's document. */
    method OpenDir(dir: Path, create: bool) returns (found: bool)
      modifies this
      ensures found <==> dir in LookedUp(old(Now()), dir, create).cache
      ensures found ==> Now() == WithDoc(LookedUp(old(Now()), dir, create), dir)
      ensures !found ==> Now() == LookedUp(old(Now()), dir, create)
    {
      found := Lookup(dir, create);
      if found {
        LoadDoc(dir);
      }
    }

    /** The directory's entries, which have just been loaded, replaced. */
    method ReplaceEntries(dir: Path, entries: Entries, changed: bool, ghost looked: State)
      requires dir in looked.cache && Now() == WithDoc(looked, dir)
      modifies this`cache
      ensures Now() == WithEntries(looked, dir, entries, changed)
    {
      LoadedFirst(looked, dir, entries, changed);
      cache := cache[dir := cache[dir].(entries := Some(entries), dirty := cache[dir].dirty || changed)];
    }

    /** query_value: reading a schema may change which part of it is cached, and nothing else. */
    method QueryValue(key: Path, locales: Option<seq<string>>) returns (answer: Answer)
      requires Valid() && key != []
      modifies this
      ensures Now() == Applied(old(Now()), Query(key, locales))
      ensures answer == Reply(EntriesOf(old(Now()), Parent(key)), Last(key), locales)
    {
      var parent, name := Parent(key), Last(key);
      ghost var before, looked := Now(), LookedUp(Now(), parent, false);
      LookupHolds(before, parent, false, looked);
      assert HeldAt(looked, parent).entries == HeldAt(before, parent).entries;
      var found := OpenDir(parent, false);
      if !found {
        return Found(None, None);
      }
      var entries := cache[parent].entries.value;
      answer := Found(None, None);
      if name in entries {
        var e := entries[name];
        entries := entries[name := XmlEntries.Got(e, locales)];
        answer := Found(entries[name].cached, e.schemaName);
      }
      ReplaceEntries(parent, entries, false, looked);
    }

    /** set_value. */
    method SetValue(key: Path, value: Value, stamp: Stamp)
      requires Valid() && key != []
      modifies this
      ensures Now() == Applied(old(Now()), Set(key, value, stamp))
    {
      var parent, name := Parent(key), Last(key);
      ghost var before, looked := Now(), LookedUp(Now(), parent, true);
      LookupHolds(before, parent, true, looked);
      assert HeldAt(looked, parent).entries == HeldAt(before, parent).entries;
      var found := OpenDir(parent, true);
      var entries := cache[parent].entries.value;
      var e := if name in entries then entries[name] else XmlEntries.NewEntry(name);
      e := XmlEntries.Set(e, value);
      e := XmlEntries.Touched(e, stamp.user, stamp.time);
      ReplaceEntries(parent, entries[name := e], true, looked);
    }

    /** unset_value, for all locales or for one. An entry that is useless then is forgotten. */
    method UnsetValue(key: Path, locale: Option<string>, stamp: Stamp)
      requires Valid() && key != []
      modifies this
      ensures Now() == Applied(old(Now()), Unset(key, locale, stamp))
      ensures KeptForAReason(EntriesOf(Now(), Parent(key)), Last(key))
    {
      var parent, name := Parent(key), Last(key);
      ghost var before, looked := Now(), LookedUp(Now(), parent, false);
      AppliedForAReason(before, Unset(key, locale, stamp));
      LookupHolds(before, parent, false, looked);
      assert HeldAt(looked, parent).entries == HeldAt(before, parent).entries;
      var found := OpenDir(parent, false);
      if !found {
        return;
      }
      var entries := cache[parent].entries.value;
      if name !in entries {
        LoadedFirst(looked, parent, entries, false);
        return;
      }
      var changed := entries[name].cached.Some?;
      var kept := XmlEntries.Kept(XmlEntries.Unset(entries[name], locale));
      if kept == None {
        entries := entries - {name};
      } else if changed {
        entries := entries[name := XmlEntries.Touched(kept.value, stamp.user, stamp.time)];
      } else {
        entries := entries[name := kept.value];
      }
      ReplaceEntries(parent, entries, changed, looked);
    }

    /** set_schema. */
    method SetSchema(key: Path, schemaName: Option<string>, stamp: Stamp)
      requires Valid() && key != []
      modifies this
      ensures Now() == Applied(old(Now()), SetSchemaName(key, schemaName, stamp))
      ensures KeptForAReason(EntriesOf(Now(), Parent(key)), Last(key))
    {
      var parent, name := Parent(key), Last(key);
      ghost var before, looked := Now(), LookedUp(Now(), parent, true);
      AppliedForAReason(before, SetSchemaName(key, schemaName, stamp));
      LookupHolds(before, parent, true, looked);
      assert HeldAt(looked, parent).entries == HeldAt(before, parent).entries;
      var found := OpenDir(parent, true);
      var entries := cache[parent].entries.value;
      var e := if name in entries then entries[name] else XmlEntries.NewEntry(name);
      e := XmlEntries.Dated(e, stamp.time);
      e := XmlEntries.Named(e, schemaName);
      var kept := if schemaName == None then XmlEntries.Kept(e) else Some(e);
      entries := WithEntry(entries, name, kept);
      ReplaceEntries(parent, entries, true, looked);
    }

    /** all_subdirs: in agreement with the disk, exactly the subdirectories there after a sync. */
    method AllSubdirs(dir: Path) returns (found: bool, names: set<string>)
      modifies this
      ensures old(Valid()) ==> Valid() && StoredBut(old(Now()), Now(), {})
      ensures old(Agrees(Now())) ==>
                && Agrees(Now()) && (found <==> dir in files)
                && (found ==> Lists(files, dir, names))
    {
      ghost var refused;
      var ok;
      ok, refused := SyncCache();
      ghost var synced := Now();
      found := Lookup(dir, false);
      ghost var looked := Now();
      names := {};
      if found {
        RescanSubdirs(dir);
        names := cache[dir].subdirNames;
      }
      if old(Valid()) {
        LookupHolds(synced, dir, false, looked);
        if found {
          ExaminedIsUnseen(looked, dir);
        }
        UnseenIsStored(old(Now()), synced, Now());
      }
      if old(Agrees(Now())) {
        AgreesIsSound(old(Now()));
        if found {
          ExaminedListings(looked, dir);
        }
      }
    }

    // ----- whole runs -----

    method Perform(op: Op, ghost store: Store) returns (answer: seq<Answer>, ghost store': Store)
      requires Valid() && ValidOp(op) && StandsFor(Now(), store)
      modifies this
      ensures Valid() && StandsFor(Now(), store') && Follows(store, op, store', answer)
      ensures StepAgrees(old(Now()), op, Now())
    {
      answer := [];
      ghost var before := Now();
      if op.IsOnKey() {
        AppliedSays(before, op);
      }
      match op {
      case Query(key, locales) =>
        var found := QueryValue(key, locales);
        answer := [found];
      case Set(key, value, stamp) => SetValue(key, value, stamp);
      case Unset(key, locale, stamp) => UnsetValue(key, locale, stamp);
      case SetSchemaName(key, schemaName, stamp) => SetSchema(key, schemaName, stamp);
      case SyncAll =>
        var ok;
        ghost var refused;
        ok, refused := SyncCache();
        answer := [Done(ok)];
        SyncIsDone(before, Now(), ok);
      case CleanCache(idle) => Clean(idle);
      }
      store' := StoreOf(Now());
      StoreStandsFor(Now());
      StepFollows(before, store, op, Now(), store', answer);
    }

    /**
     * The caches are unobservable: over any sequence of operations on any entries and documents, with
     * the disk refusing whatever it likes, the answers are those of a plain store of what each directory
     * holds. From agreement with the disk the cache agrees with it after each of the operations exactly
     * when none of them forgets a listing.
     */
    method Run(ops: seq<Op>) returns (answers: seq<Answer>, ghost trace: seq<State>)
      requires Valid() && forall i :: 0 <= i < |ops| ==> ValidOp(ops[i])
      modifies this
      ensures Valid() && PlainRun(StoreOf(old(Now())), ops, answers)
      ensures |trace| == |ops| + 1 && trace[0] == old(Now()) && trace[|ops|] == Now()
      ensures Agrees(trace[0]) ==>
                ((forall i :: 0 <= i <= |ops| ==> Agrees(trace[i])) <==>
                 (forall i :: 0 <= i < |ops| ==> !OpForgets(trace[i], ops[i])))
    {
      answers := [];
      trace := [Now()];
      ghost var first := StoreOf(Now());
      StoreStandsFor(Now());
      ghost var current := first;
      var i := 0;
      assert ops[i..] == ops && forall more: seq<Answer> :: answers + more == more;
      while i < |ops|
        invariant 0 <= i <= |ops| && Valid() && StandsFor(Now(), current)
        invariant forall more :: PlainRun(current, ops[i..], more) ==> PlainRun(first, ops, answers + more)
        invariant |trace| == i + 1 && trace[0] == old(Now()) && trace[i] == Now()
        invariant forall j :: 0 <= j < i ==> StepAgrees(trace[j], ops[j], trace[j + 1])
      {
        var answer, next := Perform(ops[i], current);
        trace := trace + [Now()];
        RunGoesOn(first, ops, answers, current, i, answer, next);
        answers := answers + answer;
        current := next;
        i := i + 1;
      }
      assert ops[i..] == [] && answers + [] == answers && PlainRun(current, ops[i..], []);
      AgreesThroughout(trace, ops);
    }
  }
}
