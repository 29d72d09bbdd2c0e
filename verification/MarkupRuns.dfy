/**
 * When the markup backend is as good as a plain map that keeps every entry as it was set: exactly when
 * every value set is one that its entry's file can keep.
 */
module MarkupRuns {
  import opened Paths
  import opened MarkupEntries
  import opened MarkupItems
  import opened MarkupTrees
  import opened MarkupMeanings

  /** The plain store if nothing were lost to a sync or to dropping the cache. */
  function LosslessApply(store: Store, op: Op): Store {
    if op.Sync? || op.DropCache? then store else PlainApply(store, op)
  }

  function LosslessRun(store: Store, ops: seq<Op>): seq<Reply>
    decreases |ops|
  {
    if ops == [] then []
    else
      (if ops[0].Query? then [ReplyFor(Stored(store, ops[0].key), ops[0].locales)] else [])
      + LosslessRun(LosslessApply(store, ops[0]), ops[1..])
  }

  /** It holds what the ideal map holds, and so it goes on to. */
  lemma {:induction false} LosslessMeans(store: Store, ideal: Ideal, op: Op)
    requires StoreMeans(store, ideal) && ValidOp(op)
    ensures StoreMeans(LosslessApply(store, op), IdealApply(ideal, op))
  {
    if Writes(op) {
      WrittenMeans(Stored(store, op.key), ItemAt(ideal, op.key), op);
      forall k
        ensures Means(Stored(LosslessApply(store, op), k), ItemAt(IdealApply(ideal, op), k))
      {
        assert Means(Stored(store, k), ItemAt(ideal, k));
      }
    }
  }

  lemma {:induction false} IdealIsLossless(store: Store, ideal: Ideal, ops: seq<Op>, answers: seq<Reply>)
    requires StoreMeans(store, ideal) && forall i :: 0 <= i < |ops| ==> ValidOp(ops[i])
    ensures IdealRun(ideal, ops, answers) <==> answers == LosslessRun(store, ops)
    decreases |ops|
  {
    if ops != [] {
      var op := ops[0];
      LosslessMeans(store, ideal, op);
      if op.Query? {
        var e, item := Stored(store, op.key), ItemAt(ideal, op.key);
        AnswerMeans(e, item, op.locales);
        if answers != [] {
          IdealIsLossless(store, ideal, ops[1..], answers[1..]);
          if Answers(item, op.locales, answers[0].value) {
            OneAnswer(item, op.locales, answers[0].value, Answer(e, op.locales));
          }
          assert answers == [answers[0]] + answers[1..];
        }
      } else {
        IdealIsLossless(LosslessApply(store, op), IdealApply(ideal, op), ops[1..], answers);
      }
    }
  }

  ghost predicate StoreLasts(store: Store) {
    forall k :: k in store ==> Lasting(store[k])
  }

  ghost predicate StoreShaped(store: Store) {
    forall k :: k in store ==> Shaped(store[k]) && k != []
  }

  /** Queries, syncs and dropping the cache. */
  predicate Reads(ops: seq<Op>) {
    forall i :: 0 <= i < |ops| ==> ValidOp(ops[i]) && (ops[i].Query? || ops[i].Sync? || ops[i].DropCache?)
  }

  /** Whatever is only read from here on, the backend can answer only as the ideal map does. */
  ghost predicate ReadTheSame(store: Store, ideal: Ideal) {
    forall ops, answers :: Reads(ops) && PlainRun(store, ops, answers) ==> IdealRun(ideal, ops, answers)
  }

  lemma MeantIsShaped(store: Store, ideal: Ideal)
    requires StoreMeans(store, ideal)
    ensures StoreShaped(store)
  {
    forall k | k in store
      ensures Shaped(store[k])
    {
      assert Means(Stored(store, k), ItemAt(ideal, k));
      ShapedExactlyWhen(store[k]);
    }
  }

  // ----- stores that last -----

  lemma LastingGives(store: Store, p: Path)
    requires StoreLasts(store)
    ensures forall n :: Cleaned(Stored(store, p + [n])) == Stored(store, p + [n]) == FileForm(Stored(store, p + [n]))
    ensures forall n :: HasForm(CleanedIn(store, p)(n))
  {
    NoEntryLasts();
  }

  /** The names a store has anything for in a directory. */
  function NameSet(store: Store, p: Path): set<string> {
    set k | k in store && k != [] && Parent(k) == p :: Last(k)
  }

  lemma NamesOrdered(store: Store, p: Path, order: seq<string>)
    requires IsOrderOf(order, NameSet(store, p))
    ensures Orders(CleanedIn(store, p), order)
  {
    NoEntryLasts();
    forall n | CleanedIn(store, p)(n) != NoEntry
      ensures n in order
    {
      assert Parent(p + [n]) == p && Last(p + [n]) == n && p + [n] in store;
    }
  }

  lemma NamesIn(store: Store, p: Path) returns (order: seq<string>)
    ensures Orders(CleanedIn(store, p), order)
  {
    order := SomeOrder(NameSet(store, p));
    NamesOrdered(store, p, order);
  }

  /** A store that lasts is all that can come of it. */
  lemma {:induction false} LastingStays(store: Store, op: Op)
    requires StoreLasts(store) && StoreShaped(store)
    ensures forall store' :: Follows(store, op, store') <==> store' == LosslessApply(store, op)
  {
    if op.DropCache? {
      forall p
        ensures Gives(CleanedIn(store, p), StoredIn(store, p))
      {
        LastingGives(store, p);
        var order := NamesIn(store, p);
        FormsAreGiven(CleanedIn(store, p), StoredIn(store, p), order);
      }
      forall store' | Dropped(store, store')
        ensures store' == store
      {
        OnlyTheSame(store, store');
      }
    } else if op.Sync? {
      assert PlainApply(store, op) == store;
    }
  }

  lemma {:induction false} OnlyTheSame(store: Store, store': Store)
    requires StoreLasts(store) && StoreShaped(store) && Dropped(store, store')
    ensures store' == store
  {
    forall k | k in store
      ensures store'[k] == store[k]
    {
      var p, n := Parent(k), Last(k);
      KeySplits(k);
      LastingGives(store, p);
      GivesForms(CleanedIn(store, p), StoredIn(store', p));
      assert StoredIn(store', p)(n) == FileForm(CleanedIn(store, p)(n));
    }
  }

  lemma {:induction false} LastingReadsTheSame(store: Store, ops: seq<Op>, answers: seq<Reply>)
    requires StoreLasts(store) && StoreShaped(store) && Reads(ops) && PlainRun(store, ops, answers)
    ensures answers == LosslessRun(store, ops)
    decreases |ops|
  {
    if ops != [] {
      LastingStays(store, ops[0]);
      if ops[0].Query? {
        LastingReadsTheSame(store, ops[1..], answers[1..]);
      } else {
        LastingReadsTheSame(store, ops[1..], answers);
      }
    }
  }

  // ----- stores that do not -----

  /** When there is no form for one of the entries, it may be the first that is written. */
  lemma {:induction false} NothingIsGiven(store: Store, p: Path, found: string -> MarkupEntry)
    requires !DirHasForm(store, p) && forall n :: found(n) == NoEntry
    ensures Gives(CleanedIn(store, p), found)
  {
    NoEntryLasts();
    var bad :| !HasForm(CleanedIn(store, p)(bad));
    var order := SomeOrder(NameSet(store, p) - {bad});
    order := [bad] + order;
    assert Parent(p + [bad]) == p && Last(p + [bad]) == bad;
    NamesOrdered(store, p, order);
    assert GivesUpTo(CleanedIn(store, p), found, order, 0);
  }

  /** There is always something that dropping the cache may leave. */
  lemma {:induction false} SomethingIsLeft(store: Store) returns (store': Store)
    requires StoreShaped(store)
    ensures Dropped(store, store')
  {
    NoEntryLasts();
    store' := map k | k in store ::
      if k != [] && DirHasForm(store, Parent(k)) then Reread(store[k]) else NoEntry;
    forall p
      ensures Gives(CleanedIn(store, p), StoredIn(store', p))
    {
      forall n
        ensures StoredIn(store', p)(n) == if DirHasForm(store, p) then FileForm(CleanedIn(store, p)(n)) else NoEntry
      {
        assert Parent(p + [n]) == p;
      }
      if DirHasForm(store, p) {
        var order := NamesIn(store, p);
        FormsAreGiven(CleanedIn(store, p), StoredIn(store', p), order);
      } else {
        NothingIsGiven(store, p, StoredIn(store', p));
      }
    }
  }

  /** A sync would leave nothing in this directory that its file has no form for. */
  ghost predicate DirHasForm(store: Store, p: Path) {
    forall n :: HasForm(CleanedIn(store, p)(n))
  }

  /** Dropping the cache and asking for one key: what can be answered. */
  lemma {:induction false} DroppedAndQueried(store: Store, key: Path, locales: seq<string>)
    ensures forall answers :: PlainRun(store, [DropCache, Query(key, locales)], answers) <==>
              exists store' :: Dropped(store, store') && answers == [ReplyFor(Stored(store', key), locales)]
    ensures LosslessRun(store, [DropCache, Query(key, locales)]) == [ReplyFor(Stored(store, key), locales)]
  {
    var ops, query := [DropCache, Query(key, locales)], [Query(key, locales)];
    assert ops[1..] == query && query[1..] == [];
    forall s: Store, answers
      ensures PlainRun(s, query, answers) <==> answers == [ReplyFor(Stored(s, key), locales)]
    {
      if PlainRun(s, query, answers) {
        assert answers == [answers[0]] + answers[1..];
      }
      assert [ReplyFor(Stored(s, key), locales)][1..] == [];
    }
    assert forall s, s' :: Follows(s, DropCache, s') <==> Dropped(s, s');
    assert LosslessRun(store, []) == [] && LosslessRun(store, query) == [ReplyFor(Stored(store, key), locales)];
  }

  /** The key and the locales that show a loss: a lost entry itself, or what kept its file from being read. */
  lemma {:induction false} LossIsAt(store: Store, lost: Path) returns (key: Path, locales: seq<string>)
    requires StoreShaped(store) && lost in store && !Lasting(store[lost])
    ensures key in store
    ensures forall store' :: Dropped(store, store') ==>
              Answer(Stored(store', key), locales) != Answer(store[key], locales)
  {
    var p := Parent(lost);
    KeySplits(lost);
    if DirHasForm(store, p) {
      assert HasForm(CleanedIn(store, p)(Last(lost)));
      AnswersLastExactlyWhen(store[lost]);
      key := lost;
      locales :| Answer(Reread(store[lost]), locales) != Answer(store[lost], locales);
      forall store' | Dropped(store, store')
        ensures Stored(store', key) == Reread(store[key])
      {
        GivesForms(CleanedIn(store, p), StoredIn(store', p));
        assert StoredIn(store', p)(Last(lost)) == FileForm(CleanedIn(store, p)(Last(lost)));
      }
    } else {
      NoEntryLasts();
      var n :| !HasForm(CleanedIn(store, p)(n));
      key := p + [n];
      locales := NoFormIsSeen(store[key]);
      forall store' | Dropped(store, store')
        ensures Proper(Stored(store', key))
      {
        GivesForms(CleanedIn(store, p), StoredIn(store', p));
        assert !HasForm(CleanedIn(store, p)(n)) && StoredIn(store', p)(n) == Stored(store', key);
      }
    }
  }

  /** A loss shows when the cache is dropped and one key read, in whatever order the file was written. */
  lemma {:induction false} LossIsRead(store: Store, ideal: Ideal, lost: Path) returns (ops: seq<Op>)
    requires StoreMeans(store, ideal) && lost in store && !Lasting(store[lost])
    ensures Reads(ops) && (exists answers :: PlainRun(store, ops, answers))
    ensures forall answers :: PlainRun(store, ops, answers) ==> !IdealRun(ideal, ops, answers)
  {
    MeantIsShaped(store, ideal);
    var key, locales := LossIsAt(store, lost);
    ops := [DropCache, Query(key, locales)];
    assert Reads(ops);
    LossIsAnswered(store, key, locales);
    forall answers | PlainRun(store, ops, answers)
      ensures !IdealRun(ideal, ops, answers)
    {
      IdealIsLossless(store, ideal, ops, answers);
    }
  }

  lemma {:induction false} LossIsAnswered(store: Store, key: Path, locales: seq<string>)
    requires StoreShaped(store) && key in store
    requires forall store' :: Dropped(store, store') ==>
               Answer(Stored(store', key), locales) != Answer(store[key], locales)
    ensures var ops := [DropCache, Query(key, locales)];
            && (exists answers :: PlainRun(store, ops, answers))
            && forall answers :: PlainRun(store, ops, answers) ==> answers != LosslessRun(store, ops)
  {
    var ops := [DropCache, Query(key, locales)];
    DroppedAndQueried(store, key, locales);
    var left := SomethingIsLeft(store);
    assert PlainRun(store, ops, [ReplyFor(Stored(left, key), locales)]);
    forall store' | Dropped(store, store')
      ensures [ReplyFor(Stored(store', key), locales)] != LosslessRun(store, ops)
    {
      assert [ReplyFor(Stored(store', key), locales)][0] != LosslessRun(store, ops)[0];
    }
  }

  /** Nothing read from here on can tell the files' losses exactly when there are none. */
  lemma {:induction false} ReadsTheSameExactlyWhen(store: Store, ideal: Ideal)
    requires StoreMeans(store, ideal)
    ensures ReadTheSame(store, ideal) <==> StoreLasts(store)
  {
    MeantIsShaped(store, ideal);
    if StoreLasts(store) {
      forall ops, answers | Reads(ops) && PlainRun(store, ops, answers)
        ensures IdealRun(ideal, ops, answers)
      {
        LastingReadsTheSame(store, ops, answers);
        IdealIsLossless(store, ideal, ops, answers);
      }
    } else {
      var lost :| lost in store && !Lasting(store[lost]);
      var ops := LossIsRead(store, ideal, lost);
    }
  }

  // ----- whole runs -----

  /** At every point of a run, whatever is only read from there on is answered as by the ideal map. */
  ghost predicate RunTheSame(store: Store, ideal: Ideal, ops: seq<Op>)
    decreases |ops|
  {
    && ReadTheSame(store, ideal)
    && (ops == [] ||
        forall store' :: Follows(store, ops[0], store') ==> RunTheSame(store', IdealApply(ideal, ops[0]), ops[1..]))
  }

  /** Every value set lasts in the entry it is set in. */
  predicate SetsCanonical(store: Store, ops: seq<Op>)
    decreases |ops|
  {
    ops == [] ||
    (&& (ops[0].Set? ==> CanonicalIn(Stored(store, ops[0].key), ops[0].value))
     && SetsCanonical(LosslessApply(store, ops[0]), ops[1..]))
  }

  lemma {:induction false} StoreAfter(store: Store, op: Op)
    requires StoreShaped(store) && StoreLasts(store) && ValidOp(op)
    ensures StoreShaped(LosslessApply(store, op))
    ensures StoreLasts(LosslessApply(store, op)) <==> (op.Set? ==> CanonicalIn(Stored(store, op.key), op.value))
  {
    NoEntryLasts();
    match op
    case Set(key, value) =>
      SetIsShaped(Stored(store, key), value);
      SetLastsExactlyWhen(Stored(store, key), value);
      assert LosslessApply(store, op)[key] == MarkupEntries.Set(Stored(store, key), value);
    case Unset(key, locale) => UnsetLasts(Stored(store, key), locale);
    case SetSchemaName(key, schemaName) => NamingLasts(Stored(store, key), schemaName);
    case _ =>
  }

  /**
   * The backend can only answer as a map that loses nothing, now and however it is read on, at every
   * point of a run exactly when every value the run sets is canonical for its entry: the file has a place
   * for it, and it has no blank strings or descriptions, no part types its schema has no use for, no
   * default of another type than the schema.
   */
  lemma {:induction false} RunsTheSameExactlyWhen(store: Store, ideal: Ideal, ops: seq<Op>)
    requires StoreMeans(store, ideal) && StoreLasts(store) && forall i :: 0 <= i < |ops| ==> ValidOp(ops[i])
    ensures RunTheSame(store, ideal, ops) <==> SetsCanonical(store, ops)
    decreases |ops|
  {
    ReadsTheSameExactlyWhen(store, ideal);
    if ops != [] {
      var next, ideal' := LosslessApply(store, ops[0]), IdealApply(ideal, ops[0]);
      MeantIsShaped(store, ideal);
      LastingStays(store, ops[0]);
      StoreAfter(store, ops[0]);
      LosslessMeans(store, ideal, ops[0]);
      assert RunTheSame(store, ideal, ops) <==> RunTheSame(next, ideal', ops[1..]);
      if StoreLasts(next) {
        RunsTheSameExactlyWhen(next, ideal', ops[1..]);
      } else {
        ReadsTheSameExactlyWhen(next, ideal');
      }
    }
  }
}
