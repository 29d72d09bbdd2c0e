/**
 * The bookkeeping of GConfClient: reference-counted watched directories, the registrations the
 * client holds with the daemon, and the key cache. A hash table is a map visited in any order;
 * a call to the daemon may fail, and which calls fail is left open.
 */
module GConfClients {
  import opened Options
  import opened Paths
  import opened Values
  import opened Watching
  import opened ClientCaches
  import opened Connections

  /** A watched directory: its registration (0 for none) and how often it was added. */
  datatype Dir = Dir(notifyId: nat, addCount: nat)

  ghost function RegisteredIn(dirs: map<Path, Dir>): set<Path> {
    set d | d in dirs && dirs[d].notifyId != 0
  }

  /** The client's registrations and the engine's connection table name each other. */
  ghost predicate IdsAgree(dirs: map<Path, Dir>, cnxns: map<nat, Path>, nextId: nat) {
    && nextId > 0
    && (forall d :: d in dirs && dirs[d].notifyId != 0 ==>
          dirs[d].notifyId in cnxns && cnxns[dirs[d].notifyId] == d)
    && (forall id :: id in cnxns ==>
          0 < id < nextId && cnxns[id] in dirs && dirs[cnxns[id]].notifyId == id)
  }

  ghost predicate SameCounts(dirs: map<Path, Dir>, dirs': map<Path, Dir>) {
    dirs.Keys == dirs'.Keys && forall d :: d in dirs ==> dirs[d].addCount == dirs'[d].addCount
  }

  /** What setup_overlaps has done once every directory outside todo was visited. */
  ghost predicate OverlapsDone(dirs0: map<Path, Dir>, cnxns0: map<nat, Path>,
                               dirs: map<Path, Dir>, cnxns: map<nat, Path>,
                               dirname: Path, todo: set<Path>, lower: Option<Path>)
  {
    && todo <= dirs.Keys
    && SameCounts(dirs0, dirs)
    && (dirs == dirs0 ==> cnxns == cnxns0)
    && (forall r :: r in dirs ==>
          dirs[r].notifyId == if r !in todo && IsBelow(dirname, r) then 0 else dirs0[r].notifyId)
    && (lower.Some? ==> lower.value in RegisteredIn(dirs0) && IsBelow(lower.value, dirname))
    && (forall r :: r in RegisteredIn(dirs0) && r !in todo && IsBelow(r, dirname) ==> lower.Some?)
  }

  lemma FoundAbove(dirs0: map<Path, Dir>, cnxns0: map<nat, Path>, dirs: map<Path, Dir>, cnxns: map<nat, Path>,
                   dirname: Path, todo: set<Path>, d: Path)
    requires Antichain(RegisteredIn(dirs0)) && dirname !in RegisteredIn(dirs0)
    requires d in dirs && d !in todo && dirs[d].notifyId != 0 && IsBelow(d, dirname)
    requires OverlapsDone(dirs0, cnxns0, dirs, cnxns, dirname, todo + {d}, None)
    ensures OverlapsDone(dirs0, cnxns0, dirs, cnxns, dirname, todo, Some(d))
  {
    PrefixIsAntisymmetric(d, dirname);
  }

  lemma FoundAboveMeansUnchanged(dirs0: map<Path, Dir>, cnxns0: map<nat, Path>,
                                 dirs: map<Path, Dir>, cnxns: map<nat, Path>,
                                 dirname: Path, todo: set<Path>, lower: Path)
    requires Antichain(RegisteredIn(dirs0)) && dirname !in RegisteredIn(dirs0)
    requires OverlapsDone(dirs0, cnxns0, dirs, cnxns, dirname, todo, Some(lower))
    ensures dirs == dirs0 && cnxns == cnxns0
  {
    forall r | r in dirs
      ensures dirs[r] == dirs0[r]
    {
      if r in RegisteredIn(dirs0) && IsBelow(dirname, r) {
        PrefixIsTransitive(lower, dirname, r);
        PrefixIsAntisymmetric(lower, dirname);
      }
    }
  }

  lemma FoundNeither(dirs0: map<Path, Dir>, cnxns0: map<nat, Path>, dirs: map<Path, Dir>, cnxns: map<nat, Path>,
                     dirname: Path, todo: set<Path>, lower: Option<Path>, d: Path)
    requires Antichain(RegisteredIn(dirs0)) && dirname !in RegisteredIn(dirs0)
    requires d in dirs && d !in todo && OverlapsDone(dirs0, cnxns0, dirs, cnxns, dirname, todo + {d}, lower)
    requires dirs[d].notifyId == 0 || (!IsBelow(dirname, d) && (lower.Some? || !IsBelow(d, dirname)))
    ensures OverlapsDone(dirs0, cnxns0, dirs, cnxns, dirname, todo, lower)
  {
  }

  /** Every directory visited: what was below dirname is no longer registered, unless something above was. */
  lemma OverlapsFinished(dirs0: map<Path, Dir>, cnxns0: map<nat, Path>, dirs: map<Path, Dir>, cnxns: map<nat, Path>,
                         dirname: Path, lower: Option<Path>)
    requires Antichain(RegisteredIn(dirs0)) && dirname !in RegisteredIn(dirs0)
    requires OverlapsDone(dirs0, cnxns0, dirs, cnxns, dirname, {}, lower)
    ensures lower.Some? <==> Covered(RegisteredIn(dirs0), dirname)
    ensures RegisteredIn(dirs) == WithoutBelow(RegisteredIn(dirs0), dirname)
    ensures lower.Some? ==> dirs == dirs0 && cnxns == cnxns0
  {
    if lower.Some? {
      FoundAboveMeansUnchanged(dirs0, cnxns0, dirs, cnxns, dirname, {}, lower.value);
    }
  }

  lemma FoundBelow(dirs0: map<Path, Dir>, cnxns0: map<nat, Path>, dirs: map<Path, Dir>, cnxns: map<nat, Path>,
                   nextId: nat, dirname: Path, todo: set<Path>, lower: Option<Path>, d: Path)
    requires Antichain(RegisteredIn(dirs0)) && dirname !in RegisteredIn(dirs0)
    requires d in dirs && d !in todo && dirs[d].notifyId != 0 && IsBelow(dirname, d)
    requires OverlapsDone(dirs0, cnxns0, dirs, cnxns, dirname, todo + {d}, lower)
    requires IdsAgree(dirs, cnxns, nextId)
    ensures var dirs' := dirs[d := dirs[d].(notifyId := 0)];
            var cnxns' := cnxns - {dirs[d].notifyId};
            OverlapsDone(dirs0, cnxns0, dirs', cnxns', dirname, todo, lower) && IdsAgree(dirs', cnxns', nextId)
  {
    var dirs' := dirs[d := dirs[d].(notifyId := 0)];
    var cnxns' := cnxns - {dirs[d].notifyId};
    assert dirs'[d] != dirs0[d];
    forall id | id in cnxns'
      ensures cnxns'[id] in dirs' && dirs'[cnxns'[id]].notifyId == id
    {
      assert id in cnxns;
    }
    PrefixIsAntisymmetric(dirname, d);
  }

  /** A new registration: section was not registered before, and id is fresh or 0 for a refusal. */
  lemma Registering(dirs: map<Path, Dir>, cnxns: map<nat, Path>, nextId: nat, section: Path, id: nat, count: nat)
    requires IdsAgree(dirs, cnxns, nextId) && section !in RegisteredIn(dirs)
    requires id == 0 || id == nextId
    ensures var dirs' := dirs[section := Dir(id, count)];
            && IdsAgree(dirs', if id == 0 then cnxns else cnxns[id := section], nextId + 1)
            && IdsAgree(dirs', if id == 0 then cnxns else cnxns[id := section], nextId + if id == 0 then 0 else 1)
            && RegisteredIn(dirs') == RegisteredIn(dirs) + if id == 0 then {} else {section}
  {
    var dirs' := dirs[section := Dir(id, count)];
    forall d | d in dirs'
      ensures d in RegisteredIn(dirs') <==> d in RegisteredIn(dirs) || (id != 0 && d == section)
    {
    }
  }

  lemma Recounting(dirs: map<Path, Dir>, cnxns: map<nat, Path>, nextId: nat, d: Path, count: nat)
    requires IdsAgree(dirs, cnxns, nextId) && d in dirs
    ensures var dirs' := dirs[d := dirs[d].(addCount := count)];
            IdsAgree(dirs', cnxns, nextId) && RegisteredIn(dirs') == RegisteredIn(dirs)
  {
    var dirs' := dirs[d := dirs[d].(addCount := count)];
    assert forall e :: e in dirs ==> dirs'[e].notifyId == dirs[e].notifyId;
  }

  lemma RegisteredIsCalled(dirs: map<Path, Dir>, cnxns: map<nat, Path>, nextId: nat, section: Path, called: seq<nat>)
    requires IdsAgree(dirs, cnxns, nextId) && forall id :: id in called <==> id in cnxns && cnxns[id] == section
    ensures section in RegisteredIn(dirs) <==> called != []
  {
    if called != [] {
      assert called[0] in called;
    }
  }

  lemma Unregistering(dirs: map<Path, Dir>, cnxns: map<nat, Path>, nextId: nat, d: Path)
    requires IdsAgree(dirs, cnxns, nextId) && d in dirs
    ensures IdsAgree(dirs - {d}, cnxns - {dirs[d].notifyId}, nextId)
    ensures dirs[d].notifyId == 0 ==> IdsAgree(dirs - {d}, cnxns, nextId)
    ensures RegisteredIn(dirs - {d}) == RegisteredIn(dirs) - {d}
    ensures Antichain(RegisteredIn(dirs)) ==> Antichain(RegisteredIn(dirs - {d}))
  {
  }

  class GConfClient {
    const engine: GConfEngine
    var dirHash: map<Path, Dir>
    var nextId: nat
    var cacheHash: map<Path, Entry>
    var cacheDirs: set<Path>

    ghost function Watched(): set<Path>
      reads this
    {
      dirHash.Keys
    }

    ghost function Registered(): set<Path>
      reads this
    {
      RegisteredIn(dirHash)
    }

    /** The watched directories and the engine's connections name each other. */
    ghost predicate Linked()
      reads this, engine
    {
      engine.Valid() && IdsAgree(dirHash, engine.notifyIds, nextId)
    }

    /** Holds after every successful call. */
    ghost predicate Valid()
      reads this, engine
    {
      && Linked()
      && (forall d :: d in dirHash ==> dirHash[d].addCount > 0)
      && Registered() == Topmost(Watched())
    }

    constructor ()
      ensures Valid() && fresh(engine) && dirHash == map[] && cacheHash == map[] && cacheDirs == {}
    {
      engine := new GConfEngine();
      dirHash, nextId := map[], 1;
      cacheHash, cacheDirs := map[], {};
    }

    /** gconf_engine_notify_add: a fresh identifier, or 0 when the daemon cannot be reached. */
    method EngineNotifyAdd(section: Path) returns (id: nat)
      requires engine.Valid() && nextId > 0 && nextId !in engine.notifyIds
      modifies this`nextId, engine
      ensures engine.Valid() && nextId > old(nextId)
      ensures id == 0 ==> engine.notifyIds == old(engine.notifyIds)
      ensures id != 0 ==> id == old(nextId) && engine.notifyIds == old(engine.notifyIds)[id := section]
    {
      id := nextId;
      nextId := nextId + 1;
      var accepted: bool := *;
      if accepted {
        engine.CnxnInsert(section, id);
      } else {
        id := 0;
      }
    }

    /** gconf_engine_notify_remove. */
    method EngineNotifyRemove(id: nat)
      requires engine.Valid() && id in engine.notifyIds
      modifies engine
      ensures engine.Valid() && engine.notifyIds == old(engine.notifyIds) - {id}
    {
      engine.CnxnRemove(id);
    }

    /** The directory d gives up its registration. */
    method DropRegistration(d: Path)
      requires Linked() && d in dirHash && dirHash[d].notifyId != 0
      modifies this`dirHash, engine
      ensures engine.Valid() && engine.notifyIds == old(engine.notifyIds) - {old(dirHash)[d].notifyId}
      ensures dirHash == old(dirHash)[d := old(dirHash)[d].(notifyId := 0)]
    {
      EngineNotifyRemove(dirHash[d].notifyId);
      dirHash := dirHash[d := dirHash[d].(notifyId := 0)];
    }

    /**
     * Finds a registered directory that includes dirname, and drops the registrations of the
     * directories dirname includes.
     */
    method SetupOverlaps(dirname: Path) returns (lower: Option<Path>)
      requires Linked() && Antichain(Registered())
      requires dirname !in Registered()
      modifies this`dirHash, engine
      ensures Linked()
      ensures SameCounts(old(dirHash), dirHash)
      ensures lower.Some? <==> Covered(old(Registered()), dirname)
      ensures Registered() == WithoutBelow(old(Registered()), dirname)
      ensures lower.Some? ==> dirHash == old(dirHash) && engine.notifyIds == old(engine.notifyIds)
    {
      lower := None;
      var todo := dirHash.Keys;
      ghost var dirs0, ids0 := dirHash, engine.notifyIds;
      while todo != {}
        invariant OverlapsDone(dirs0, ids0, dirHash, engine.notifyIds, dirname, todo, lower)
        invariant Linked()
        decreases todo
      {
        var d :| d in todo;
        ghost var before := todo;
        todo := todo - {d};
        assert todo + {d} == before;
        lower := VisitOverlap(d, dirname, lower, dirs0, ids0, todo);
      }
      OverlapsFinished(dirs0, ids0, dirHash, engine.notifyIds, dirname, lower);
    }

    /** One callback of setup_overlaps. */
    method VisitOverlap(d: Path, dirname: Path, lower: Option<Path>,
                        ghost dirs0: map<Path, Dir>, ghost ids0: map<nat, Path>, ghost todo: set<Path>)
        returns (found: Option<Path>)
      requires Antichain(RegisteredIn(dirs0)) && dirname !in RegisteredIn(dirs0) && d !in todo && d in dirHash
      requires Linked() && OverlapsDone(dirs0, ids0, dirHash, engine.notifyIds, dirname, todo + {d}, lower)
      modifies this`dirHash, engine
      ensures Linked() && OverlapsDone(dirs0, ids0, dirHash, engine.notifyIds, dirname, todo, found)
    {
      found := lower;
      var dir := dirHash[d];
      if lower == None && dir.notifyId != 0 && IsBelow(d, dirname) {
        FoundAbove(dirs0, ids0, dirHash, engine.notifyIds, dirname, todo, d);
        found := Some(d);
      } else if dir.notifyId != 0 && IsBelow(dirname, d) {
        FoundBelow(dirs0, ids0, dirHash, engine.notifyIds, nextId, dirname, todo, lower, d);
        DropRegistration(d);
      } else {
        FoundNeither(dirs0, ids0, dirHash, engine.notifyIds, dirname, todo, lower, d);
      }
    }

    /** The new directory gets a registration of its own unless lower includes it. */
    method InsertDir(dirname: Path, lower: Option<Path>) returns (ok: bool)
      requires Linked() && dirname !in dirHash
      modifies this`dirHash, this`nextId, engine
      ensures !ok ==> dirHash == old(dirHash) && Linked()
      ensures ok ==> dirHash.Keys == old(dirHash).Keys + {dirname} && dirHash[dirname].addCount == 0
      ensures ok ==> forall d :: d in old(dirHash) ==> dirHash[d] == old(dirHash)[d]
      ensures ok ==> Linked()
      ensures ok ==> Registered() == old(Registered()) + if lower == None then {dirname} else {}
    {
      var id := 0;
      Registering(dirHash, engine.notifyIds, nextId, dirname, 0, 0);
      Registering(dirHash, engine.notifyIds, nextId, dirname, nextId, 0);
      if lower == None {
        id := EngineNotifyAdd(dirname);
        if id == 0 {
          return false;
        }
      }
      dirHash := dirHash[dirname := Dir(id, 0)];
      ok := true;
    }

    /** The part of gconf_client_add_dir for a directory not watched yet. */
    method WatchNewDir(dirname: Path) returns (ok: bool)
      requires Linked() && Registered() == Topmost(Watched()) && dirname !in dirHash
      modifies this`dirHash, this`nextId, engine
      ensures Linked()
      ensures !ok ==> SameCounts(old(dirHash), dirHash)
      ensures !ok ==> Registered() == WithoutBelow(old(Registered()), dirname)
      ensures ok ==> Registered() == Topmost(Watched())
      ensures ok ==> dirHash.Keys == old(dirHash).Keys + {dirname} && dirHash[dirname].addCount == 0
      ensures ok ==> forall d :: d in old(dirHash) ==> dirHash[d].addCount == old(dirHash)[d].addCount
    {
      AddingToTopmost(Watched(), dirname);
      var lower := SetupOverlaps(dirname);
      ok := InsertDir(dirname, lower);
    }

    /**
     * Watches dirname, or counts one more use of it. A refused registration leaves dirname
     * unwatched, but by then the registrations below it are already gone.
     */
    method AddDir(dirname: Path) returns (ok: bool)
      requires Valid()
      modifies this`dirHash, this`nextId, engine
      ensures ok ==> Valid() && Watched() == old(Watched()) + {dirname}
      ensures ok ==> forall d :: d in dirHash ==>
                dirHash[d].addCount == (if d in old(dirHash) then old(dirHash)[d].addCount else 0)
                                       + (if d == dirname then 1 else 0)
      ensures !ok ==> dirname !in dirHash && SameCounts(old(dirHash), dirHash)
      ensures !ok ==> Registered() == WithoutBelow(old(Registered()), dirname)
      ensures !ok ==> (Registered() == Topmost(Watched())
                       <==> forall r :: r in old(Registered()) ==> !IsBelow(dirname, r))
    {
      if dirname !in dirHash {
        RefusedAddIsHarmless(Registered(), Watched(), dirname);
        ok := WatchNewDir(dirname);
        if !ok {
          return;
        }
      }
      ok := true;
      var d := dirHash[dirname];
      Recounting(dirHash, engine.notifyIds, nextId, dirname, d.addCount + 1);
      dirHash := dirHash[dirname := d.(addCount := d.addCount + 1)];
    }

    /** One step of foreach_add_notifies, for a directory without a registration. */
    method AddNotifyUnlessCovered(d: Path) returns (ok: bool)
      requires Linked() && Antichain(Registered())
      requires d in dirHash && dirHash[d].notifyId == 0
      modifies this`dirHash, this`nextId, engine
      ensures Linked() && SameCounts(old(dirHash), dirHash)
      ensures ok ==> Registered() == AfterAdding(old(Registered()), d)
      ensures !ok ==> Registered() == WithoutBelow(old(Registered()), d) && !Covered(Registered(), d)
    {
      ok := true;
      var lower := SetupOverlaps(d);
      if lower == None {
        Registering(dirHash, engine.notifyIds, nextId, d, 0, dirHash[d].addCount);
        Registering(dirHash, engine.notifyIds, nextId, d, nextId, dirHash[d].addCount);
        var id := EngineNotifyAdd(d);
        dirHash := dirHash[d := dirHash[d].(notifyId := id)];
        ok := id != 0;
      }
    }

    /** Registers what lost its cover, each directory in turn, until the daemon refuses one. */
    method ForeachAddNotifies() returns (ok: bool)
      requires Linked() && Antichain(Registered())
      modifies this`dirHash, this`nextId, engine
      ensures Linked() && SameCounts(old(dirHash), dirHash)
      ensures Antichain(Registered())
      ensures ok <==> Registered() == Topmost(Watched())
    {
      ok := true;
      ghost var refused: Path := [];
      var todo := dirHash.Keys;
      while todo != {}
        invariant Linked() && SameCounts(old(dirHash), dirHash)
        invariant todo <= dirHash.Keys && Antichain(Registered())
        invariant ok ==> Covers(Registered(), old(Watched()) - todo)
        invariant !ok ==> refused in dirHash && !Covered(Registered(), refused)
        decreases todo
      {
        var d :| d in todo;
        ghost var done := old(Watched()) - todo;
        todo := todo - {d};
        assert old(Watched()) - todo == done + {d};
        if ok && dirHash[d].notifyId == 0 {
          AddingKeepsCover(Registered(), done, d);
          ok := AddNotifyUnlessCovered(d);
          refused := d;
        } else if ok {
          assert d in Registered() && IsBelow(d, d);
        }
      }
      if ok {
        assert old(Watched()) - todo == Watched();
        CoveringAntichainIsTopmost(Registered(), Watched());
      } else {
        TopmostIsCoveringAntichain(Watched());
      }
    }

    /** gconf_client_real_remove_dir: stops watching dirname and forgets what was cached below it. */
    method RealRemoveDir(dirname: Path) returns (ok: bool)
      requires Linked() && Registered() == Topmost(Watched()) && dirname in dirHash
      modifies this, engine
      ensures Linked()
      ensures ok <==> Registered() == Topmost(Watched())
      ensures SameCounts(old(dirHash) - {dirname}, dirHash)
      ensures cacheHash == ForgetBelow(old(cacheHash), dirname)
      ensures cacheDirs == ForgetDirsBelow(old(cacheDirs), dirname)
    {
      assert Antichain(Registered()) by {
        TopmostIsCoveringAntichain(Watched());
      }
      Unregistering(dirHash, engine.notifyIds, nextId, dirname);
      var d := dirHash[dirname];
      dirHash := dirHash - {dirname};
      if d.notifyId != 0 {
        EngineNotifyRemove(d.notifyId);
      }
      cacheHash := ForgetBelow(cacheHash, dirname);
      cacheDirs := ForgetDirsBelow(cacheDirs, dirname);
      ok := ForeachAddNotifies();
    }

    /** Gives up one use of dirname; the last one also drops what was cached below it. */
    method RemoveDir(dirname: Path) returns (ok: bool)
      requires Valid()
      modifies this, engine
      ensures ok <==> Valid()
      ensures ok || (dirname in old(dirHash) && old(dirHash)[dirname].addCount == 1)
      ensures dirname in old(dirHash) && old(dirHash)[dirname].addCount == 1 ==>
                && Watched() == old(Watched()) - {dirname}
                && (forall d :: d in dirHash ==> dirHash[d].addCount == old(dirHash)[d].addCount)
                && cacheHash == ForgetBelow(old(cacheHash), dirname)
                && cacheDirs == ForgetDirsBelow(old(cacheDirs), dirname)
      ensures dirname in old(dirHash) && old(dirHash)[dirname].addCount > 1 ==>
                var d := old(dirHash)[dirname];
                dirHash == old(dirHash)[dirname := Dir(d.notifyId, d.addCount - 1)]
      ensures !(dirname in old(dirHash) && old(dirHash)[dirname].addCount == 1) ==>
                cacheHash == old(cacheHash) && cacheDirs == old(cacheDirs)
      ensures dirname !in old(dirHash) ==> dirHash == old(dirHash)
    {
      if dirname !in dirHash {
        return true;
      }
      var d := dirHash[dirname];
      Recounting(dirHash, engine.notifyIds, nextId, dirname, d.addCount - 1);
      dirHash := dirHash[dirname := d.(addCount := d.addCount - 1)];
      if d.addCount == 1 {
        ok := RealRemoveDir(dirname);
      } else {
        ok := true;
      }
    }

    /** key_being_monitored: chops the key at its last slash until a watched directory turns up. */
    method KeyBeingMonitored(key: Path) returns (r: bool)
      ensures r <==> Covered(Watched(), key)
    {
      var parent := key;
      while true
        invariant parent <= key
        invariant forall d :: d in Watched() && IsBelow(d, key) ==> IsBelow(d, parent)
        decreases |parent|
      {
        if parent in dirHash {
          return true;
        }
        if parent == [] {
          return false;
        }
        forall d | d in Watched() && IsBelow(d, key)
          ensures IsBelow(d, Parent(parent))
        {
          PrefixOfParent(d, parent);
        }
        PrefixIsTransitive(Parent(parent), parent, key);
        parent := Parent(parent);
      }
    }

    /** gconf_client_cache. */
    method Cache(key: Path, entry: Entry, preserveSchemaName: bool) returns (changed: bool)
      modifies this`cacheHash
      ensures cacheHash == CachePut(old(cacheHash), key, entry, preserveSchemaName)
      ensures cacheHash == old(cacheHash)[key := cacheHash[key]]
      ensures cacheHash[key] == if preserveSchemaName && key in old(cacheHash)
                                then entry.(schemaName := old(cacheHash)[key].schemaName) else entry
      ensures changed <==> !(key in old(cacheHash) && old(cacheHash)[key] == entry)
    {
      if key in cacheHash {
        var old_ := cacheHash[key];
        changed := old_ != entry;
        if changed {
          var e := entry;
          if preserveSchemaName {
            e := e.(schemaName := old_.schemaName);
          }
          cacheHash := cacheHash[key := e];
        }
      } else {
        cacheHash := cacheHash[key := entry];
        changed := true;
      }
    }

    /**
     * A notification for section arrives: the engine calls back once for each of its connections for
     * that section, and each call caches the entry. A client that is not registered there ignores it.
     */
    method HandleNotify(section: Path, key: Path, value: Option<Value>)
      requires Linked()
      modifies this`cacheHash
      ensures cacheHash == if section in Registered() then CachePut(old(cacheHash), key, NewEntry(value), true)
                           else old(cacheHash)
    {
      var called, handled := engine.HandleNotify(section);
      RegisteredIsCalled(dirHash, engine.notifyIds, nextId, section, called);
      var i := 0;
      while i < |called|
        invariant i <= |called|
        invariant cacheHash == if i == 0 then old(cacheHash) else CachePut(old(cacheHash), key, NewEntry(value), true)
      {
        var changed := Cache(key, NewEntry(value), true);
        CachedTwice(old(cacheHash), key, NewEntry(value));
        i := i + 1;
      }
    }

    /** gconf_client_lookup. */
    method Lookup(key: Path) returns (r: LookupResult)
      ensures r == LookupIn(cacheHash, cacheDirs, key)
      ensures key in cacheHash ==> r == Hit(cacheHash[key])
      ensures key !in cacheHash ==> r == if |key| >= 2 && Parent(key) in cacheDirs then KnownAbsent else Miss
    {
      if key in cacheHash {
        return Hit(cacheHash[key]);
      }
      if |key| >= 2 && Parent(key) in cacheDirs {
        return KnownAbsent;
      }
      return Miss;
    }

    /** Forgets one key and that its directory was fully cached. */
    method RemoveKeyFromCache(key: Path)
      modifies this`cacheHash, this`cacheDirs
      ensures cacheHash == old(cacheHash) - {key}
      ensures cacheDirs == ForgetDirOf(old(cacheDirs), key)
      ensures LookupIn(cacheHash, cacheDirs, key) == Miss
      ensures cacheDirs == old(cacheDirs) - if |key| >= 2 then {Parent(key)} else {}
    {
      cacheHash := cacheHash - {key};
      if |key| >= 2 {
        cacheDirs := cacheDirs - {Parent(key)};
      }
    }

    /** cache_entry_list_destructively, and the mark that the directory is fully cached. */
    method CacheListing(dir: Path, entries: map<Path, Entry>)
      modifies this`cacheHash, this`cacheDirs
      ensures cacheHash == CacheAll(old(cacheHash), entries) && cacheDirs == old(cacheDirs) + {dir}
    {
      var todo := entries.Keys;
      NoneCached(cacheHash);
      assert (map k | k in entries && k !in todo :: entries[k]) == map[];
      while todo != {}
        invariant todo <= entries.Keys && cacheDirs == old(cacheDirs)
        invariant cacheHash == CacheAll(old(cacheHash), map k | k in entries && k !in todo :: entries[k])
        decreases todo
      {
        var k :| k in todo;
        OneMoreCached(old(cacheHash), entries, todo, k);
        todo := todo - {k};
        var changed := Cache(k, entries[k], false);
      }
      assert (map k | k in entries && k !in todo :: entries[k]) == entries;
      cacheDirs := cacheDirs + {dir};
    }

    /** gconf_client_clear_cache. */
    method ClearCache()
      modifies this`cacheHash, this`cacheDirs
      ensures cacheHash == map[] && cacheDirs == {}
    {
      cacheHash, cacheDirs := map[], {};
    }

    /** The listing of a fully cached directory. */
    method AllEntriesCached(dir: Path) returns (entries: map<Path, Entry>)
      ensures entries == CachedListing(cacheHash, dir)
    {
      entries := map[];
      var todo := cacheHash.Keys;
      while todo != {}
        invariant todo <= cacheHash.Keys
        invariant forall k :: k in entries <==> k in cacheHash && k !in todo && IsListed(dir, k)
        invariant forall k :: k in entries ==> entries[k] == cacheHash[k]
        decreases todo
      {
        var k :| k in todo;
        todo := todo - {k};
        if IsListed(dir, k) {
          entries := entries[k := cacheHash[k]];
        }
      }
    }
  }
}
