/**
 * Change sets: collected changes that are committed to an engine one by one in the order of a hash
 * table, possibly only in part, and the reverse set that takes a commit back.
 */
module ChangeSets {
  import opened Options
  import opened Values

  type Store = map<string, Value>

  datatype Change = Set(value: Value) | Unset

  type Changes = map<string, Change>

  /** The store after all of the changes, in whatever order. */
  function Applied(store: Store, changes: Changes): Store {
    map k | k in store.Keys + changes.Keys && (k in changes ==> changes[k].Set?) ::
      if k in changes then changes[k].value else store[k]
  }

  function Restricted(changes: Changes, keys: set<string>): Changes {
    map k | k in changes && k in keys :: changes[k]
  }

  /** gconf_engine_reverse_change_set, when the values of the unreadable keys could not be read. */
  function Reversal(store: Store, changes: Changes, unreadable: set<string>): Changes {
    map k | k in changes && ((k in store && k !in unreadable) || changes[k].Set?) ::
      if k in store && k !in unreadable then Set(store[k]) else Unset
  }

  /** The store can be read off key by key. */
  lemma AppliedAt(store: Store, changes: Changes, k: string)
    ensures k in Applied(store, changes) <==> if k in changes then changes[k].Set? else k in store
    ensures k in Applied(store, changes) ==>
              Applied(store, changes)[k] == if k in changes then changes[k].value else store[k]
  {
  }

  /** One more change applied. */
  lemma AppliedOneMore(store: Store, changes: Changes, done: set<string>, k: string)
    requires k in changes && k !in done
    ensures Applied(store, Restricted(changes, done + {k})) ==
            var before := Applied(store, Restricted(changes, done));
            if changes[k].Set? then before[k := changes[k].value] else before - {k}
  {
  }

  /** What a partial commit did and what is left to do together come to the whole, wherever it stopped. */
  lemma RestReachesTheSame(store: Store, changes: Changes, done: set<string>)
    ensures var partial := Applied(store, Restricted(changes, done));
            && Applied(partial, changes - done) == Applied(store, changes)
            && Applied(partial, changes) == Applied(store, changes)
  {
  }

  /** The reverse set, computed beforehand, restores the store after a commit in full or in part. */
  lemma RevertRestores(store: Store, changes: Changes, done: set<string>)
    ensures Applied(Applied(store, Restricted(changes, done)), Reversal(store, changes, {})) == store
  {
  }

  /**
   * A key whose value cannot be read is taken to have none: the reverse set restores what a commit left,
   * wherever it stopped, exactly when every such key of the change set really had none, or was to be
   * unset and was not.
   */
  lemma RestoresExactlyWhen(store: Store, changes: Changes, done: set<string>, unreadable: set<string>)
    ensures Applied(Applied(store, Restricted(changes, done)), Reversal(store, changes, unreadable)) == store
            <==> forall k :: k in changes && k in unreadable && k in store ==> changes[k].Unset? && k !in done
  {
    var partial := Applied(store, Restricted(changes, done));
    var reverted := Applied(partial, Reversal(store, changes, unreadable));
    forall k | k in changes && k in unreadable && k in store
      ensures (k in reverted && reverted[k] == store[k]) <==> (changes[k].Unset? && k !in done)
    {
      AppliedAt(store, Restricted(changes, done), k);
      AppliedAt(partial, Reversal(store, changes, unreadable), k);
    }
  }

  /** One more key looked at for the reverse set. */
  lemma ReversalOneMore(store: Store, changes: Changes, unreadable: set<string>, seen: set<string>, k: string,
                          read: bool)
    requires k in changes && k !in seen && unreadable <= seen
    ensures var unreadable' := if read then unreadable else unreadable + {k};
            var before, after := Restricted(Reversal(store, changes, unreadable), seen),
                                 Restricted(Reversal(store, changes, unreadable'), seen + {k});
            after == if read && k in store then before[k := Set(store[k])]
                     else if changes[k].Set? then before[k := Unset] else before
  {
  }

  /** What the change sets are committed to: every access may fail, and then has no effect. */
  class Engine {
    var store: Store

    constructor (store: Store)
      ensures this.store == store
    {
      this.store := store;
    }

    /** gconf_engine_set and gconf_engine_unset. */
    method Apply(key: string, change: Change) returns (ok: bool)
      modifies this
      ensures store == if !ok then old(store)
                       else if change.Set? then old(store)[key := change.value]
                       else old(store) - {key}
    {
      var accepted: bool := *;
      if accepted {
        store := if change.Set? then store[key := change.value] else store - {key};
      }
      ok := accepted;
    }

    /** gconf_engine_get_without_default. */
    method Get(key: string) returns (ok: bool, value: Option<Value>)
      ensures value == if ok && key in store then Some(store[key]) else None
    {
      ok := *;
      value := if ok && key in store then Some(store[key]) else None;
    }
  }

  class ChangeSet {
    var changes: Changes
    var inForeach: nat

    constructor ()
      ensures changes == map[] && inForeach == 0
    {
      changes, inForeach := map[], 0;
    }

    /** gconf_change_set_set: overrides whatever the set held for the key. */
    method SetValue(key: string, value: Value)
      modifies this`changes
      ensures changes == old(changes)[key := Set(value)]
    {
      changes := changes[key := Set(value)];
    }

    /** gconf_change_set_unset. */
    method UnsetValue(key: string)
      modifies this`changes
      ensures changes == old(changes)[key := Unset]
    {
      changes := changes[key := Unset];
    }

    /** gconf_change_set_remove, which refuses while the set is being walked. */
    method Remove(key: string)
      modifies this`changes
      ensures changes == if inForeach == 0 then old(changes) - {key} else old(changes)
    {
      if inForeach != 0 {
        return;
      }
      changes := changes - {key};
    }

    /**
     * gconf_engine_commit_change_set. Whatever goes wrong, done are the changes that reached the engine,
     * the set keeps exactly the others if asked to remove the committed ones, and committing what it
     * holds then would come to the same store as one commit without failures.
     */
    method Commit(engine: Engine, removeCommitted: bool) returns (ok: bool, ghost done: set<string>)
      requires inForeach == 0
      modifies this, engine
      ensures inForeach == 0 && done <= old(changes).Keys && (ok <==> done == old(changes).Keys)
      ensures engine.store == Applied(old(engine.store), Restricted(old(changes), done))
      ensures changes == if removeCommitted then old(changes) - done else old(changes)
      ensures Applied(engine.store, changes) == Applied(old(engine.store), old(changes))
    {
      var removeList: seq<string>;
      ok, removeList, done := SendChanges(engine, removeCommitted);
      var i := 0;
      while i < |removeList|
        invariant i <= |removeList| && inForeach == 0
        invariant engine.store == Applied(old(engine.store), Restricted(old(changes), done))
        invariant changes == old(changes) - set k | k in removeList[..i]
      {
        Remove(removeList[i]);
        assert removeList[..i + 1] == removeList[..i] + [removeList[i]];
        i := i + 1;
      }
      assert removeList[..i] == removeList;
      assert removeCommitted ==> done == set k | k in removeList;
      RestReachesTheSame(old(engine.store), old(changes), done);
    }

    /** The walk over the changes, which after the first error goes on without doing anything. */
    method SendChanges(engine: Engine, removeCommitted: bool)
      returns (ok: bool, removeList: seq<string>, ghost done: set<string>)
      requires inForeach == 0
      modifies this`inForeach, engine
      ensures inForeach == 0 && done <= changes.Keys && (ok <==> done == changes.Keys)
      ensures engine.store == Applied(old(engine.store), Restricted(changes, done))
      ensures if removeCommitted then forall k :: k in removeList <==> k in done else removeList == []
    {
      inForeach := inForeach + 1;
      ok, removeList, done := true, [], {};
      var todo := changes.Keys;
      assert Applied(engine.store, Restricted(changes, {})) == engine.store;
      while todo != {}
        invariant inForeach == 1 && todo <= changes.Keys && done <= changes.Keys - todo
        invariant ok ==> done == changes.Keys - todo
        invariant !ok ==> done < changes.Keys - todo
        invariant engine.store == Applied(old(engine.store), Restricted(changes, done))
        invariant if removeCommitted then forall k :: k in removeList <==> k in done else removeList == []
        decreases todo
      {
        var key :| key in todo;
        todo := todo - {key};
        if ok {
          AppliedOneMore(old(engine.store), changes, done, key);
          ok := engine.Apply(key, changes[key]);
          if ok {
            done := done + {key};
            if removeCommitted {
              removeList := [key] + removeList;
            }
          }
        }
      }
      inForeach := inForeach - 1;
    }

    /** gconf_engine_reverse_change_set; unreadable are the keys whose values could not be had. */
    method Reverse(engine: Engine) returns (revert: ChangeSet, ghost unreadable: set<string>)
      ensures fresh(revert) && revert.inForeach == 0
      ensures revert.changes == Reversal(engine.store, changes, unreadable)
    {
      revert := new ChangeSet();
      unreadable := {};
      var todo := changes.Keys;
      while todo != {}
        invariant fresh(revert) && revert.inForeach == 0 && todo <= changes.Keys && unreadable <= changes.Keys - todo
        invariant revert.changes == Restricted(Reversal(engine.store, changes, unreadable), changes.Keys - todo)
        decreases todo
      {
        var key :| key in todo;
        todo := todo - {key};
        var ok, oldValue := engine.Get(key);
        ReversalOneMore(engine.store, changes, unreadable, changes.Keys - todo - {key}, key, ok);
        assert changes.Keys - todo - {key} + {key} == changes.Keys - todo;
        if !ok {
          unreadable := unreadable + {key};
        }
        if oldValue.Some? {
          revert.SetValue(key, oldValue.value);
        } else if changes[key].Set? {
          revert.UnsetValue(key);
        }
      }
    }

    /** Committing again and again what is left: as soon as one commit succeeds, the store is the one wanted. */
    method CommitWithRetries(engine: Engine, attempts: nat) returns (ok: bool)
      requires inForeach == 0
      modifies this, engine
      ensures Applied(engine.store, changes) == Applied(old(engine.store), old(changes))
      ensures ok ==> changes == map[] && engine.store == Applied(old(engine.store), old(changes))
    {
      ok := false;
      var left := attempts;
      while left > 0 && !ok
        invariant inForeach == 0 && Applied(engine.store, changes) == Applied(old(engine.store), old(changes))
        invariant ok ==> changes == map[]
      {
        ghost var done;
        ok, done := Commit(engine, true);
        left := left - 1;
      }
      assert Applied(engine.store, map[]) == engine.store;
    }
  }

  /**
   * Reverse, commit as far as it goes, commit the reverse set: if that succeeds, the store is as before
   * exactly when no key that could not be read had a value, other than keys that were to be unset and
   * were not.
   */
  method CommitAndTakeBack(engine: Engine, cs: ChangeSet)
    returns (reverted: bool, ghost done: set<string>, ghost unreadable: set<string>)
    requires cs.inForeach == 0
    modifies engine, cs
    ensures done <= old(cs.changes).Keys
    ensures reverted ==>
              (engine.store == old(engine.store) <==>
               forall k :: k in old(cs.changes) && k in unreadable && k in old(engine.store) ==>
                 old(cs.changes)[k].Unset? && k !in done)
  {
    var revert: ChangeSet;
    ghost var undone;
    revert, unreadable := cs.Reverse(engine);
    ghost var reversal := revert.changes;
    var committed;
    committed, done := cs.Commit(engine, false);
    reverted, undone := revert.Commit(engine, false);
    if reverted {
      assert Restricted(reversal, undone) == reversal;
      RestoresExactlyWhen(old(engine.store), old(cs.changes), done, unreadable);
    }
  }
}
