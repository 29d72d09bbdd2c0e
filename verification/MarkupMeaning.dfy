/**
 * Runs of the markup backend said of what its keys are meant to hold: the plain store of entries that the
 * tree stands for is a map of items, whose every change and answer is defined without entries.
 */
module MarkupMeanings {
  import opened Paths
  import opened MarkupEntries
  import opened MarkupItems
  import opened MarkupTrees

  // ----- a map of what was set -----

  type Ideal = map<Path, Item>

  function ItemAt(ideal: Ideal, key: Path): Item {
    if key in ideal then ideal[key] else NoItem
  }

  function ItemAfter(item: Item, op: Op): Item {
    match op
    case Set(_, value) => ItemSet(item, value)
    case Unset(_, locale) => ItemUnset(item, locale)
    case SetSchemaName(_, schemaName) => item.(schemaName := schemaName)
    case _ => item
  }

  predicate Writes(op: Op) {
    op.Set? || op.Unset? || op.SetSchemaName?
  }

  /** A map that loses nothing to a sync or to dropping the cache. */
  function IdealApply(ideal: Ideal, op: Op): Ideal {
    if Writes(op) then ideal[op.key := ItemAfter(ItemAt(ideal, op.key), op)] else ideal
  }

  predicate Replies(item: Item, locales: seq<string>, reply: Reply) {
    Answers(item, locales, reply.value) && reply.schemaName == item.schemaName
  }

  /** The answers such a map gives. */
  predicate IdealRun(ideal: Ideal, ops: seq<Op>, answers: seq<Reply>)
    decreases |ops|
  {
    if ops == [] then answers == []
    else if ops[0].Query? then
      && answers != [] && Replies(ItemAt(ideal, ops[0].key), ops[0].locales, answers[0])
      && IdealRun(ideal, ops[1..], answers[1..])
    else IdealRun(IdealApply(ideal, ops[0]), ops[1..], answers)
  }

  /** The entries of the store hold the items of the map. */
  ghost predicate StoreMeans(store: Store, ideal: Ideal) {
    [] !in store && forall k :: Means(Stored(store, k), ItemAt(ideal, k))
  }

  lemma {:induction false} WrittenMeans(e: MarkupEntry, item: Item, op: Op)
    requires Means(e, item)
    ensures Means(Written(e, op), ItemAfter(item, op))
  {
    match op
    case Set(_, value) => SetMeans(e, item, value);
    case Unset(_, locale) => UnsetMeans(e, item, locale);
    case _ =>
  }

  // ----- what the backend makes of it -----

  /** What a file written in this order leaves of a directory: all in front of the first it has no place for. */
  ghost predicate DirKept(ideal: Ideal, ideal': Ideal, p: Path, order: seq<string>, stop: nat) {
    && (forall n :: ItemAt(ideal, p + [n]) != NoItem ==> n in order)
    && (forall i, j :: 0 <= i < j < |order| ==> order[i] != order[j])
    && stop <= |order|
    && (forall i :: 0 <= i < stop ==> FilesItem(ideal, ideal', p + [order[i]]))
    && (stop < |order| ==> !Fits(ItemCleaned(ItemAt(ideal, p + [order[stop]]))))
    && (forall i :: stop < i < |order| ==> ItemAt(ideal', p + [order[i]]) == NoItem)
    && forall n :: n !in order ==> ItemAt(ideal', p + [n]) == NoItem
  }

  ghost predicate DirIsKept(ideal: Ideal, ideal': Ideal, p: Path) {
    exists order, stop :: DirKept(ideal, ideal', p, order, stop)
  }

  ghost predicate FilesItem(ideal: Ideal, ideal': Ideal, key: Path) {
    var cleaned := ItemCleaned(ItemAt(ideal, key)); Fits(cleaned) && KeptItem(cleaned, ItemAt(ideal', key))
  }

  /** A write changes one item, a sync cleans all, and dropping the cache leaves what the files keep. */
  ghost predicate ItemsFollow(ideal: Ideal, op: Op, ideal': Ideal) {
    match op
    case Query(_, _) => ideal' == ideal
    case Sync => forall k :: ItemAt(ideal', k) == ItemCleaned(ItemAt(ideal, k))
    case DropCache => forall p :: DirIsKept(ideal, ideal', p)
    case _ => ideal' == IdealApply(ideal, op)
  }

  /** The answers of a run, said of the items alone. */
  ghost predicate ItemRun(ideal: Ideal, ops: seq<Op>, answers: seq<Reply>)
    decreases |ops|
  {
    if ops == [] then answers == []
    else if ops[0].Query? then
      && answers != [] && Replies(ItemAt(ideal, ops[0].key), ops[0].locales, answers[0])
      && ItemRun(ideal, ops[1..], answers[1..])
    else exists ideal' :: ItemsFollow(ideal, ops[0], ideal') && ItemRun(ideal', ops[1..], answers)
  }

  function IdealOf(store: Store): Ideal {
    map k | k in store :: ItemOf(store[k])
  }

  /** Any entries the backend may have in memory hold the items of one map. */
  lemma {:induction false} StoreMeansExactlyWhen(store: Store)
    requires [] !in store
    ensures StoreMeans(store, IdealOf(store)) <==> forall k :: k in store ==> Shaped(store[k])
  {
    forall k | k in store
      ensures Means(Stored(store, k), ItemAt(IdealOf(store), k)) <==> Shaped(store[k])
    {
      ShapedExactlyWhen(store[k]);
    }
    if StoreMeans(store, IdealOf(store)) {
      forall k | k in store
        ensures Shaped(store[k])
      {
        assert Means(Stored(store, k), ItemAt(IdealOf(store), k));
      }
    }
  }

  lemma {:induction false} FoundMeans(store: Store, ideal: Ideal, store': Store, k: Path)
    requires StoreMeans(store, ideal) && Dropped(store, store') && k != []
    ensures Means(Stored(store', k), ItemOf(Stored(store', k)))
  {
    var p, n := Parent(k), Last(k);
    KeySplits(k);
    var e := Stored(store, k);
    CleanedMeans(e, ItemAt(ideal, k));
    FileFormMeans(Cleaned(e), ItemCleaned(ItemAt(ideal, k)));
    GivesForms(CleanedIn(store, p), StoredIn(store', p));
    assert CleanedIn(store, p)(n) == Cleaned(e) && StoredIn(store', p)(n) == Stored(store', k);
    ShapedExactlyWhen(Stored(store', k));
  }

  lemma {:induction false} FoundIsKept(store: Store, ideal: Ideal, store': Store, k: Path)
    requires StoreMeans(store, ideal) && Stored(store', k) == FileForm(Cleaned(Stored(store, k)))
    requires HasForm(Cleaned(Stored(store, k)))
    ensures FilesItem(ideal, IdealOf(store'), k)
  {
    var e, item := Stored(store, k), ItemAt(ideal, k);
    assert ItemAt(IdealOf(store'), k) == ItemOf(Stored(store', k));
    CleanedMeans(e, item);
    FitsIsHasForm(Cleaned(e), ItemCleaned(item));
    FileFormMeans(Cleaned(e), ItemCleaned(item));
  }

  lemma {:induction false} FrontIsKept(store: Store, ideal: Ideal, store': Store, p: Path, n: string)
    requires StoreMeans(store, ideal) && HasForm(CleanedIn(store, p)(n))
    requires StoredIn(store', p)(n) == FileForm(CleanedIn(store, p)(n))
    ensures FilesItem(ideal, IdealOf(store'), p + [n])
  {
    FoundIsKept(store, ideal, store', p + [n]);
  }

  lemma {:induction false} RestIsGone(store': Store, p: Path, n: string)
    requires StoredIn(store', p)(n) == NoEntry
    ensures ItemAt(IdealOf(store'), p + [n]) == NoItem
  {
  }

  lemma {:induction false} OrderMeans(store: Store, ideal: Ideal, store': Store, p: Path, order: seq<string>, stop: nat)
    requires StoreMeans(store, ideal) && Orders(CleanedIn(store, p), order)
    requires GivesUpTo(CleanedIn(store, p), StoredIn(store', p), order, stop)
    ensures forall n :: ItemAt(ideal, p + [n]) != NoItem ==> n in order
    ensures forall n :: n !in order ==> ItemAt(IdealOf(store'), p + [n]) == NoItem
    ensures forall i :: stop < i < |order| ==> ItemAt(IdealOf(store'), p + [order[i]]) == NoItem
  {
    forall n
      ensures ItemAt(ideal, p + [n]) != NoItem ==> n in order
      ensures n !in order ==> ItemAt(IdealOf(store'), p + [n]) == NoItem
    {
      NamedIsOrdered(store, ideal, p, n);
      if n !in order {
        RestIsGone(store', p, n);
      }
    }
    forall i | stop < i < |order|
      ensures ItemAt(IdealOf(store'), p + [order[i]]) == NoItem
    {
      RestIsGone(store', p, order[i]);
    }
  }

  lemma {:induction false} FrontMeans(store: Store, ideal: Ideal, store': Store, p: Path, order: seq<string>, stop: nat)
    requires StoreMeans(store, ideal) && GivesUpTo(CleanedIn(store, p), StoredIn(store', p), order, stop)
    ensures forall i :: 0 <= i < stop ==> FilesItem(ideal, IdealOf(store'), p + [order[i]])
    ensures stop < |order| ==> !Fits(ItemCleaned(ItemAt(ideal, p + [order[stop]])))
  {
    forall i | 0 <= i < stop
      ensures FilesItem(ideal, IdealOf(store'), p + [order[i]])
    {
      FrontIsKept(store, ideal, store', p, order[i]);
    }
    if stop < |order| {
      StopDoesNotFit(store, ideal, p + [order[stop]]);
    }
  }

  lemma {:induction false} DirMeans(store: Store, ideal: Ideal, store': Store, p: Path)
    requires StoreMeans(store, ideal) && Gives(CleanedIn(store, p), StoredIn(store', p))
    ensures DirIsKept(ideal, IdealOf(store'), p)
  {
    var order, stop :| Orders(CleanedIn(store, p), order)
                       && GivesUpTo(CleanedIn(store, p), StoredIn(store', p), order, stop);
    OrderMeans(store, ideal, store', p, order, stop);
    FrontMeans(store, ideal, store', p, order, stop);
    assert DirKept(ideal, IdealOf(store'), p, order, stop);
  }

  lemma StopDoesNotFit(store: Store, ideal: Ideal, k: Path)
    requires StoreMeans(store, ideal)
    ensures HasForm(Cleaned(Stored(store, k))) <==> Fits(ItemCleaned(ItemAt(ideal, k)))
  {
    CleanedMeans(Stored(store, k), ItemAt(ideal, k));
    FitsIsHasForm(Cleaned(Stored(store, k)), ItemCleaned(ItemAt(ideal, k)));
  }

  lemma NamedIsOrdered(store: Store, ideal: Ideal, p: Path, n: string)
    requires StoreMeans(store, ideal)
    ensures ItemAt(ideal, p + [n]) != NoItem ==> CleanedIn(store, p)(n) != NoEntry
  {
    var e := Stored(store, p + [n]);
    assert Means(e, ItemAt(ideal, p + [n]));
    CleanedMeans(e, ItemAt(ideal, p + [n]));
  }

  lemma {:induction false} DroppedMeans(store: Store, ideal: Ideal, store': Store)
    requires StoreMeans(store, ideal) && Dropped(store, store')
    ensures StoreMeans(store', IdealOf(store')) && ItemsFollow(ideal, DropCache, IdealOf(store'))
  {
    forall k
      ensures Means(Stored(store', k), ItemAt(IdealOf(store'), k))
    {
      if k in store' {
        FoundMeans(store, ideal, store', k);
      }
    }
    forall p
      ensures DirIsKept(ideal, IdealOf(store'), p)
    {
      assert Gives(CleanedIn(store, p), StoredIn(store', p));
      DirMeans(store, ideal, store', p);
    }
  }

  lemma {:induction false} SyncMeans(store: Store, ideal: Ideal) returns (ideal': Ideal)
    requires StoreMeans(store, ideal)
    ensures StoreMeans(PlainApply(store, Sync), ideal') && ItemsFollow(ideal, Sync, ideal')
  {
    ideal' := map k | k in ideal :: ItemCleaned(ideal[k]);
    forall k
      ensures Means(Stored(PlainApply(store, Sync), k), ItemAt(ideal', k))
    {
      assert Means(Stored(store, k), ItemAt(ideal, k));
      CleanedMeans(Stored(store, k), ItemAt(ideal, k));
    }
  }

  lemma {:induction false} FollowsMeans(store: Store, ideal: Ideal, op: Op, store': Store) returns (ideal': Ideal)
    requires StoreMeans(store, ideal) && ValidOp(op) && Follows(store, op, store')
    ensures StoreMeans(store', ideal') && ItemsFollow(ideal, op, ideal')
  {
    match op
    case Query(_, _) => ideal' := ideal;
    case Sync => ideal' := SyncMeans(store, ideal);
    case DropCache =>
      ideal' := IdealOf(store');
      DroppedMeans(store, ideal, store');
    case _ =>
      ideal' := IdealApply(ideal, op);
      WrittenMeans(Stored(store, op.key), ItemAt(ideal, op.key), op);
      forall k
        ensures Means(Stored(store', k), ItemAt(ideal', k))
      {
        assert Means(Stored(store, k), ItemAt(ideal, k));
      }
  }

  /**
   * Every answer a run over the plain store may give is what the items say: a set value is answered as it
   * was set, a schema part by part, an unset one is gone, a sync drops the parts with a default of another
   * type than the schema's, and dropping the cache leaves what the files keep.
   */
  lemma {:induction false} PlainRunMeans(store: Store, ideal: Ideal, ops: seq<Op>, answers: seq<Reply>)
    requires StoreMeans(store, ideal) && (forall i :: 0 <= i < |ops| ==> ValidOp(ops[i]))
    requires PlainRun(store, ops, answers)
    ensures ItemRun(ideal, ops, answers)
    decreases |ops|
  {
    if ops != [] {
      if ops[0].Query? {
        AnswerMeans(Stored(store, ops[0].key), ItemAt(ideal, ops[0].key), ops[0].locales);
        PlainRunMeans(store, ideal, ops[1..], answers[1..]);
      } else {
        var store' :| Follows(store, ops[0], store') && PlainRun(store', ops[1..], answers);
        var ideal' := FollowsMeans(store, ideal, ops[0], store');
        PlainRunMeans(store', ideal', ops[1..], answers);
      }
    }
  }
}
