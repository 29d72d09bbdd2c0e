/**
 * The XML backend's directory cache, its negative cache and the disk below them, as values: what each
 * step of the cache changes, what every reachable state satisfies, and when the cached listings of
 * subdirectories go stale.
 */
module XmlCacheStates {
  import opened Options
  import opened Paths
  import XmlEntries
  import XmlNodes

  type DirEntry = XmlEntries.EntryState

  type Entries = map<string, DirEntry>

  /** A document: the node of each entry, by the entry's name. */
  type Doc = map<string, XmlNodes.Node>

  /** A cached directory: its entries once the document was loaded, and its subdirectories once scanned. */
  datatype Dir = Dir(entries: Option<Entries>, dirty: bool, needRescan: bool, subdirNames: set<string>)

  /** files says which directories have a data file and what it holds, fsDirs which directories exist. */
  datatype State = State(cache: map<Path, Dir>, nonexistent: set<Path>, files: map<Path, Doc>, fsDirs: set<Path>)

  /** dir_blank. */
  const Blank := Dir(None, false, true, {})

  function Last(key: Path): string
    requires key != []
  {
    key[|key| - 1]
  }

  /** dir_fill_cache_from_doc: an entry for every node. */
  function LoadedAll(doc: Doc): (entries: Entries)
    ensures entries.Keys == doc.Keys
  {
    map n | n in doc :: XmlEntries.Loaded(n, doc[n])
  }

  function EntriesIn(files: map<Path, Doc>, p: Path): Entries {
    if p in files then LoadedAll(files[p]) else map[]
  }

  function SyncedAll(entries: Entries): (saved: Entries)
    ensures saved.Keys == entries.Keys
  {
    map n | n in entries :: XmlEntries.Synced(entries[n])
  }

  function NodesOf(entries: Entries): (doc: Doc)
    ensures doc.Keys == entries.Keys
  {
    map n | n in entries :: entries[n].node
  }

  /** The entries of p as any user of the cache would find them, loaded or not. */
  function EntriesOf(s: State, p: Path): Entries {
    if p in s.cache && s.cache[p].entries.Some? then s.cache[p].entries.value else EntriesIn(s.files, p)
  }

  /** What a directory holds: its entries as they are found, what its file says, and whether it is dirty. */
  datatype Held = Held(entries: Entries, saved: Doc, changed: bool)

  const NothingHeld := Held(map[], map[], false)

  function HeldAt(s: State, p: Path): Held {
    Held(EntriesOf(s, p), if p in s.files then s.files[p] else map[], p in s.cache && s.cache[p].dirty)
  }

  /** No directory holds anything else: nothing but the caches themselves has changed. */
  ghost predicate SameHeld(s: State, s': State) {
    forall p :: HeldAt(s', p) == HeldAt(s, p)
  }

  ghost predicate Lists(files: map<Path, Doc>, p: Path, names: set<string>) {
    forall n :: n in names <==> p + [n] in files
  }

  // ----- what every reachable state satisfies -----

  ghost predicate DirsClosed(fsDirs: set<Path>) {
    [] in fsDirs && forall p {:trigger Parent(p)} :: p in fsDirs ==> Parent(p) in fsDirs
  }

  ghost predicate FilesInDirs(s: State) {
    forall p :: p in s.files ==> p in s.fsDirs
  }

  /** A cached directory, the ones in hole aside, exists; it has a file unless it is dirty and loaded. */
  ghost predicate CacheSound(s: State, hole: set<Path>) {
    forall p :: p in s.cache && p !in hole ==>
      p in s.fsDirs && (s.cache[p].entries == None || !s.cache[p].dirty ==> p in s.files)
  }

  /** Nothing the negative cache holds is on disk or in the cache. */
  ghost predicate NegativeSound(s: State) {
    forall p :: p in s.nonexistent ==> p !in s.files && p !in s.cache
  }

  ghost predicate Sound(s: State, hole: set<Path>) {
    DirsClosed(s.fsDirs) && FilesInDirs(s) && CacheSound(s, hole) && NegativeSound(s)
  }

  /** Every directory below the root has its data file, and so has the root when there are any. */
  ghost predicate DiskTidy(s: State) {
    && (forall p :: p in s.fsDirs && p != [] ==> p in s.files)
    && (forall p {:trigger Parent(p)} :: p in s.files && p != [] ==> Parent(p) in s.files)
  }

  ghost predicate CachedOnDisk(s: State) {
    forall p :: p in s.cache ==> p in s.files
  }

  ghost predicate ListingsFresh(s: State) {
    forall p :: p in s.cache && !s.cache[p].needRescan ==> Lists(s.files, p, s.cache[p].subdirNames)
  }

  /** Both caches agree with the disk on which directories there are. */
  ghost predicate ListingsAgree(s: State) {
    NegativeSound(s) && DiskTidy(s) && CachedOnDisk(s) && ListingsFresh(s)
  }

  /** The cache agrees with the disk. */
  ghost predicate Agrees(s: State) {
    DirsClosed(s.fsDirs) && FilesInDirs(s) && ListingsAgree(s)
  }

  lemma AgreesIsSound(s: State)
    requires Agrees(s)
    ensures Sound(s, {})
  {
  }

  // ----- lookup -----

  /** dir_child_added. */
  function Told(d: Dir, name: string): Dir {
    if d.needRescan then d else d.(subdirNames := d.subdirNames + {name})
  }

  /** dir_child_removed. */
  function Untold(d: Dir, name: string): Dir {
    if d.needRescan then d.(dirty := true) else d.(dirty := true, subdirNames := d.subdirNames - {name})
  }

  /** cache_lookup without create: loads key, and then what it takes to tell the parents. */
  function Looked(s: State, key: Path): State
    decreases |key|, if key in s.cache then 0 else 2
  {
    if key in s.cache || key in s.nonexistent then s
    else if key in s.files then AddedToParent(s.(cache := s.cache[key := Blank]), key)
    else s.(nonexistent := s.nonexistent + {key})
  }

  /** cache_add_to_parent. */
  function AddedToParent(s: State, key: Path): State
    requires key in s.cache
    decreases |key|, 1
  {
    if key == [] then s
    else
      var s' := Looked(s, Parent(key));
      if Parent(key) in s'.cache
      then s'.(cache := s'.cache[Parent(key) := Told(s'.cache[Parent(key)], Last(key))])
      else s'
  }

  /** create_fs_dir: the directories up to the first that has a file, each with an empty file. */
  function FsCreated(s: State, key: Path): State
    decreases |key|
  {
    if key in s.files then s
    else
      var above := if key == [] then s else FsCreated(s, Parent(key));
      above.(files := above.files[key := map[]], fsDirs := above.fsDirs + {key})
  }

  /** cache_unset_nonexistent: key and everything above it. */
  function WithoutAbove(nonexistent: set<Path>, key: Path): set<Path>
    decreases |key|
  {
    if key == [] then nonexistent - {key} else WithoutAbove(nonexistent - {key}, Parent(key))
  }

  /** The end of cache_lookup with create, on a directory that is neither cached nor loadable. */
  function Created(s: State, key: Path): State {
    var made := FsCreated(s, key);
    var added := AddedToParent(made.(cache := made.cache[key := Blank]), key);
    added.(nonexistent := WithoutAbove(added.nonexistent, key))
  }

  function LookedUp(s: State, key: Path, create: bool): State {
    if create && key !in s.cache && (key in s.nonexistent || key !in s.files) then Created(s, key) else Looked(s, key)
  }

  /** What a lookup may do to a state: load directories on the way up to the root, and nothing else. */
  ghost predicate Grew(s: State, s': State, key: Path) {
    && s'.files == s.files && s'.fsDirs == s.fsDirs
    && s.nonexistent <= s'.nonexistent && s.cache.Keys <= s'.cache.Keys
    && (forall q :: q in s'.nonexistent && q !in s.nonexistent ==> q <= key && q !in s.files && q !in s'.cache)
    && (forall q :: q in s'.cache && q !in s.cache ==>
          q <= key && q in s.files && q !in s'.nonexistent && s'.cache[q] == Blank)
    && (forall q :: q in s.cache ==> OnlyTold(s.files, q, s.cache[q], s'.cache[q]))
  }

  /** d' is d, perhaps with more names of subdirectories that do have a file. */
  ghost predicate OnlyTold(files: map<Path, Doc>, p: Path, d: Dir, d': Dir) {
    && d'.entries == d.entries && d'.dirty == d.dirty && d'.needRescan == d.needRescan
    && (d.needRescan ==> d' == d) && d.subdirNames <= d'.subdirNames
    && forall n :: n in d'.subdirNames && n !in d.subdirNames ==> p + [n] in files
  }

  lemma GrewTwice(s: State, s': State, s'': State, key: Path)
    requires Grew(s, s', key) && Grew(s', s'', key)
    ensures Grew(s, s'', key)
  {
  }

  lemma GrewBelow(s: State, s': State, key: Path)
    requires key != [] && Grew(s, s', Parent(key))
    ensures Grew(s, s', key)
  {
    forall q | q in s'.nonexistent + s'.cache.Keys && q <= Parent(key)
      ensures q <= key
    {
      PrefixOfParent(q, key);
    }
  }

  lemma {:induction false} LookedGrew(s: State, key: Path)
    ensures Grew(s, Looked(s, key), key)
    ensures key in Looked(s, key).cache <==> key in s.cache || (key in s.files && key !in s.nonexistent)
    decreases |key|, if key in s.cache then 0 else 2
  {
    if key !in s.cache && key !in s.nonexistent && key in s.files {
      var s1 := s.(cache := s.cache[key := Blank]);
      assert Grew(s, s1, key);
      AddedGrew(s1, key);
      GrewTwice(s, s1, AddedToParent(s1, key), key);
    }
  }

  lemma ToldGrew(s: State, key: Path)
    requires key != [] && Parent(key) in s.cache && key in s.files
    ensures Grew(s, s.(cache := s.cache[Parent(key) := Told(s.cache[Parent(key)], Last(key))]), key)
  {
    assert Parent(key) + [Last(key)] == key;
  }

  lemma {:induction false} AddedGrew(s: State, key: Path)
    requires key in s.cache && key in s.files
    ensures Grew(s, AddedToParent(s, key), key)
    decreases |key|, 1
  {
    if key != [] {
      var s' := Looked(s, Parent(key));
      LookedGrew(s, Parent(key));
      GrewBelow(s, s', key);
      if Parent(key) in s'.cache {
        ToldGrew(s', key);
        GrewTwice(s, s', AddedToParent(s, key), key);
      }
    }
  }

  lemma GrewIsSound(s: State, s': State, key: Path, hole: set<Path>)
    requires Sound(s, hole) && Grew(s, s', key) && forall q :: q in hole ==> q in s.cache
    ensures Sound(s', hole)
  {
  }

  lemma GrewIsUnseen(s: State, s': State, key: Path)
    requires Grew(s, s', key)
    ensures SameHeld(s, s')
  {
  }

  lemma GrewKeepsListings(s: State, s': State, key: Path)
    requires Grew(s, s', key) && ListingsFresh(s)
    ensures ListingsFresh(s')
  {
  }

  /** A lookup that creates nothing keeps the cache in agreement and finds what an uncached load would. */
  lemma {:induction false} LookupAgrees(s: State, key: Path)
    requires Agrees(s)
    ensures Agrees(Looked(s, key)) && SameHeld(s, Looked(s, key))
    ensures key in Looked(s, key).cache <==> key in s.files
  {
    var s' := Looked(s, key);
    LookedGrew(s, key);
    GrewIsUnseen(s, s', key);
    GrewKeepsListings(s, s', key);
  }

  // ----- creating a directory -----

  /** New empty files at or above key, in directories that then exist, and nothing else. */
  ghost predicate FilesGrew(s: State, s': State, key: Path) {
    && s'.cache == s.cache && s'.nonexistent == s.nonexistent
    && key in s'.files && s.fsDirs <= s'.fsDirs
    && (forall q :: q in s.files ==> q in s'.files && s'.files[q] == s.files[q])
    && (forall q :: q in s'.files && q !in s.files ==> q <= key && s'.files[q] == map[])
    && (forall q :: q in s'.fsDirs && q !in s.fsDirs ==> q in s'.files)
  }

  lemma {:induction false} FsCreatedGrew(s: State, key: Path)
    requires DirsClosed(s.fsDirs) && FilesInDirs(s)
    ensures FilesGrew(s, FsCreated(s, key), key)
    ensures DirsClosed(FsCreated(s, key).fsDirs) && FilesInDirs(FsCreated(s, key))
    decreases |key|
  {
    if key !in s.files && key != [] {
      var above := FsCreated(s, Parent(key));
      FsCreatedGrew(s, Parent(key));
      forall q | q in above.files && q <= Parent(key)
        ensures q <= key
      {
        PrefixOfParent(q, key);
      }
    }
  }

  lemma {:induction false} FsCreatedHasFile(s: State, key: Path)
    ensures key in FsCreated(s, key).files && FsCreated(s, key).cache == s.cache
    decreases |key|
  {
    if key !in s.files && key != [] {
      FsCreatedHasFile(s, Parent(key));
    }
  }

  lemma {:induction false} PrefixesRemoved(nonexistent: set<Path>, key: Path)
    ensures forall q :: q in WithoutAbove(nonexistent, key) <==> q in nonexistent && !(q <= key)
    decreases |key|
  {
    if key != [] {
      PrefixesRemoved(nonexistent - {key}, Parent(key));
      forall q | q in nonexistent
        ensures q <= Parent(key) <==> q <= key && q != key
      {
        PrefixOfParent(q, key);
      }
    }
  }

  /** The three stages of a creation: the files made, the directory cached, its ancestors told. */
  lemma CreationStages(s: State, key: Path)
    returns (made: State, cached: State, added: State)
    requires DirsClosed(s.fsDirs) && FilesInDirs(s) && key !in s.cache
    ensures made == FsCreated(s, key) && FilesGrew(s, made, key) && DirsClosed(made.fsDirs) && FilesInDirs(made)
    ensures cached == made.(cache := made.cache[key := Blank]) && added == AddedToParent(cached, key)
    ensures Grew(cached, added, key)
    ensures Created(s, key) == added.(nonexistent := WithoutAbove(added.nonexistent, key))
    ensures forall q :: q in Created(s, key).nonexistent <==> q in added.nonexistent && !(q <= key)
  {
    made := FsCreated(s, key);
    FsCreatedGrew(s, key);
    cached := made.(cache := made.cache[key := Blank]);
    added := AddedToParent(cached, key);
    AddedGrew(cached, key);
    PrefixesRemoved(added.nonexistent, key);
  }

  lemma CreatedStaysCacheSound(s: State, made: State, cached: State, added: State, key: Path, hole: set<Path>)
    requires Sound(s, hole) && FilesGrew(s, made, key) && FilesInDirs(made)
    requires cached == made.(cache := made.cache[key := Blank]) && Grew(cached, added, key)
    ensures CacheSound(added, hole)
  {
    assert CacheSound(made, hole);
    assert CacheSound(cached, hole);
  }

  lemma CreatedStaysNegative(s: State, made: State, cached: State, added: State, last: State, key: Path)
    requires NegativeSound(s) && FilesGrew(s, made, key)
    requires cached == made.(cache := made.cache[key := Blank]) && Grew(cached, added, key)
    requires last.cache == added.cache && last.files == added.files
    requires forall q :: q in last.nonexistent <==> q in added.nonexistent && !(q <= key)
    ensures NegativeSound(last)
  {
  }

  lemma CreatedIsUnseen(s: State, made: State, cached: State, key: Path, hole: set<Path>)
    requires CacheSound(s, hole) && FilesGrew(s, made, key) && key !in s.cache
    requires forall q :: q in hole ==> q in s.cache && s.cache[q].entries.Some?
    requires cached == made.(cache := made.cache[key := Blank])
    ensures SameHeld(s, cached)
  {
  }

  /** Creating a directory is always sound, and no directory holds anything else afterwards. */
  lemma CreatedIsSound(s: State, key: Path, hole: set<Path>)
    requires Sound(s, hole) && key !in s.cache && forall q :: q in hole ==> q in s.cache && s.cache[q].entries.Some?
    ensures Sound(Created(s, key), hole) && SameHeld(s, Created(s, key))
    ensures key in Created(s, key).cache && Created(s, key).cache.Keys >= s.cache.Keys
    ensures forall q :: q in Created(s, key).cache ==> q in s.cache || q <= key
    ensures forall q :: q in Created(s, key).files ==> q in s.files || q <= key
  {
    var made, cached, added := CreationStages(s, key);
    CreatedStaysCacheSound(s, made, cached, added, key, hole);
    CreatedStaysNegative(s, made, cached, added, Created(s, key), key);
    CreatedIsUnseen(s, made, cached, key, hole);
    GrewIsUnseen(cached, added, key);
  }

  /** Whatever state the cache is in, a lookup adds at most directories at or above the one looked up. */
  lemma LookedUpGrows(s: State, key: Path, create: bool)
    ensures s.cache.Keys <= LookedUp(s, key, create).cache.Keys
    ensures forall q :: q in LookedUp(s, key, create).cache ==> q in s.cache || q <= key
    ensures create ==> key in LookedUp(s, key, create).cache
  {
    if create && key !in s.cache && (key in s.nonexistent || key !in s.files) {
      var made := FsCreated(s, key);
      FsCreatedHasFile(s, key);
      AddedGrew(made.(cache := made.cache[key := Blank]), key);
    } else {
      LookedGrew(s, key);
    }
  }

  lemma LookedUpIsSound(s: State, key: Path, create: bool, hole: set<Path>)
    requires Sound(s, hole) && forall q :: q in hole ==> q in s.cache && s.cache[q].entries.Some?
    ensures Sound(LookedUp(s, key, create), hole) && SameHeld(s, LookedUp(s, key, create))
    ensures create ==> key in LookedUp(s, key, create).cache
    ensures LookedUp(s, key, create).cache.Keys >= s.cache.Keys
    ensures forall q :: q in LookedUp(s, key, create).cache ==> q in s.cache || q <= key
    ensures forall q :: q in LookedUp(s, key, create).files ==> q in s.files || q <= key
  {
    if create && key !in s.cache && (key in s.nonexistent || key !in s.files) {
      CreatedIsSound(s, key, hole);
    } else {
      LookedGrew(s, key);
      GrewIsSound(s, Looked(s, key), key, hole);
      GrewIsUnseen(s, Looked(s, key), key);
    }
  }

  // ----- when a creation leaves a stale listing behind -----

  /** The deepest directory at or above key that has a file, the root if none has. */
  function DeepestOnDisk(files: map<Path, Doc>, key: Path): Path
    decreases |key|
  {
    if key == [] || key in files then key else DeepestOnDisk(files, Parent(key))
  }

  lemma {:induction false} DeepestIsAbove(files: map<Path, Doc>, key: Path)
    ensures var t := DeepestOnDisk(files, key);
            t <= key && (t == [] || t in files) && forall q :: q in files && q <= key ==> q <= t
    decreases |key|
  {
    if key != [] && key !in files {
      DeepestIsAbove(files, Parent(key));
      var t := DeepestOnDisk(files, key);
      PrefixOfParent(t, key);
      forall q | q in files && q <= key
        ensures q <= t
      {
        PrefixOfParent(q, key);
      }
    }
  }

  /** Some directory on the way to key is remembered as absent. */
  predicate AncestorKnownAbsent(s: State, key: Path) {
    exists q :: q in s.nonexistent && q < key
  }

  /** Creating key under such an ancestor does not tell the deepest existing one, whose listing was scanned. */
  predicate Forgets(s: State, key: Path) {
    var t := DeepestOnDisk(s.files, key);
    AncestorKnownAbsent(s, key) && t in s.cache && !s.cache[t].needRescan
  }

  /** No cached directory lies strictly between t and key, and t has been scanned. */
  predicate ScannedAbove(s: State, t: Path, key: Path) {
    && t < key && t in s.cache && !s.cache[t].needRescan
    && forall q :: q in s.cache ==> !(t < q < key)
  }

  predicate AbsentBetween(s: State, t: Path, key: Path) {
    exists q :: q in s.nonexistent && t < q < key
  }

  /** The news of key travels up to t exactly when nothing between them is remembered as absent. */
  lemma {:induction false} NewsReaches(s: State, t: Path, key: Path)
    requires key in s.cache && ScannedAbove(s, t, key) && t !in s.nonexistent
    requires forall q :: t < q && q <= key ==> q in s.files
    ensures var d := AddedToParent(s, key).cache;
            t in d && d[t] == if AbsentBetween(s, t, key) then s.cache[t] else Told(s.cache[t], key[|t|])
    decreases |key|
  {
    var p := Parent(key);
    PrefixOfParent(t, key);
    if p == t {
      assert Looked(s, p) == s;
    } else if p in s.nonexistent {
      assert Looked(s, p) == s;
    } else {
      var s1 := s.(cache := s.cache[p := Blank]);
      assert Looked(s, p) == AddedToParent(s1, p);
      NewsReaches(s1, t, p);
      forall q | q in s.nonexistent
        ensures t < q < p <==> t < q < key
      {
        PrefixOfParent(q, key);
        assert |q| == |p| && q <= p ==> q == p;
      }
    }
  }

  lemma {:induction false} FsCreatedTidy(s: State, key: Path)
    requires DiskTidy(s) && DirsClosed(s.fsDirs) && FilesInDirs(s)
    ensures DiskTidy(FsCreated(s, key))
    decreases |key|
  {
    if key !in s.files && key != [] {
      FsCreatedTidy(s, Parent(key));
      FsCreatedGrew(s, Parent(key));
    }
  }

  lemma {:induction false} AncestorOnDisk(s: State, a: Path, p: Path)
    requires DiskTidy(s) && p in s.files && a <= p
    ensures a in s.files
    decreases |p|
  {
    if a != p {
      PrefixOfParent(a, p);
      AncestorOnDisk(s, a, Parent(p));
    }
  }

  lemma NextOnTheWay(q: Path, n: string, t: Path, key: Path)
    requires q + [n] <= key && t <= key
    ensures n == key[|q|] && q <= key
    ensures q <= t ==> q == t || q + [n] <= t
  {
    var r := q + [n];
    assert r[|q|] == n && r[..|q|] == q;
    if q <= t && q != t {
      assert |q| == |t| ==> q == t;
      PrefixesAreComparable(r, t, key);
    }
  }

  /** A directory that gains a child by the creation of key is the deepest that was there before. */
  lemma {:induction false} OnlyDeepestGains(s: State, made: State, key: Path, q: Path, n: string)
    requires DiskTidy(s) && FilesGrew(s, made, key) && q in s.files
    requires q + [n] in made.files && q + [n] !in s.files
    ensures q == DeepestOnDisk(s.files, key) && n == key[|q|]
  {
    var t := DeepestOnDisk(s.files, key);
    DeepestIsAbove(s.files, key);
    NextOnTheWay(q, n, t, key);
    if q != t {
      AncestorOnDisk(s, q + [n], t);
    }
  }

  lemma {:induction false} OthersStayFresh(s: State, made: State, key: Path, q: Path)
    requires ListingsAgree(s) && FilesGrew(s, made, key) && q != DeepestOnDisk(s.files, key)
    requires q in s.cache && !s.cache[q].needRescan
    ensures Lists(made.files, q, s.cache[q].subdirNames)
  {
    forall n | q + [n] in made.files && q + [n] !in s.files
      ensures false
    {
      OnlyDeepestGains(s, made, key, q, n);
    }
  }

  /** Whether the deepest directory's listing is right after the creation. */
  lemma {:induction false} DeepestIsTold(s: State, made: State, cached: State, added: State, key: Path)
    requires ListingsAgree(s) && key !in s.files && FilesGrew(s, made, key) && DiskTidy(made)
    requires cached == made.(cache := made.cache[key := Blank]) && added == AddedToParent(cached, key)
    ensures var t := DeepestOnDisk(s.files, key);
            t in s.cache && !s.cache[t].needRescan ==>
              && t in added.cache && !added.cache[t].needRescan
              && (Lists(made.files, t, added.cache[t].subdirNames) <==> !AncestorKnownAbsent(s, key))
  {
    var t := DeepestOnDisk(s.files, key);
    if t in s.cache && !s.cache[t].needRescan {
      DeepestIsAbove(s.files, key);
      assert t in s.files && (|t| == |key| ==> t == key);
      var n := key[|t|];
      assert t + [n] <= key && t + [n] !in s.files;
      AncestorOnDisk(made, t + [n], key);
      forall q | q <= key && t < q
        ensures q in made.files && q !in s.files
      {
        AncestorOnDisk(made, q, key);
      }
      NewsReaches(cached, t, key);
      forall q | q in s.nonexistent && q < key
        ensures t < q
      {
        if q <= t {
          AncestorOnDisk(s, q, t);
        }
        PrefixesAreComparable(q, t, key);
      }
      assert AbsentBetween(cached, t, key) <==> AncestorKnownAbsent(s, key);
      forall m | t + [m] in made.files && t + [m] !in s.files
        ensures m == n
      {
        OnlyDeepestGains(s, made, key, t, m);
      }
      assert n !in s.cache[t].subdirNames;
    }
  }

  lemma {:induction false} CreationKeepsListingsExactlyWhen(s: State, key: Path, made: State, cached: State,
                                                            added: State)
    requires ListingsAgree(s) && key !in s.files && FilesGrew(s, made, key) && DiskTidy(made)
    requires cached == made.(cache := made.cache[key := Blank]) && added == AddedToParent(cached, key)
    requires Grew(cached, added, key)
    ensures ListingsFresh(added) <==> !Forgets(s, key)
  {
    DeepestIsTold(s, made, cached, added, key);
    forall q | q in s.cache && !s.cache[q].needRescan && q != DeepestOnDisk(s.files, key)
      ensures q in added.cache && Lists(added.files, q, added.cache[q].subdirNames)
    {
      OthersStayFresh(s, made, key, q);
      assert OnlyTold(cached.files, q, cached.cache[q], added.cache[q]);
    }
    assert forall q :: q in added.cache && !added.cache[q].needRescan ==> q in s.cache && !s.cache[q].needRescan;
  }

  /**
   * Creating a directory keeps the cache in agreement with the disk exactly when no ancestor is
   * remembered as absent below a scanned listing: the ancestors are told before they are taken out of
   * the negative cache, and the news stops at the first that is still in it.
   */
  lemma CreateAgreesExactlyWhen(s: State, key: Path)
    requires Agrees(s) && key !in s.files
    ensures Agrees(LookedUp(s, key, true)) <==> !Forgets(s, key)
  {
    var made, cached, added := CreationStages(s, key);
    var last := Created(s, key);
    AgreesIsSound(s);
    CreatedIsSound(s, key, {});
    FsCreatedTidy(s, key);
    assert CachedOnDisk(last) && DiskTidy(last);
    CreationKeepsListingsExactlyWhen(s, key, made, cached, added);
    assert ListingsFresh(last) <==> !Forgets(s, key);
  }

  // ----- sync -----

  /** dir_load_doc and dir_rescan_subdirs, as deciding whether a directory is useless forces them. */
  function Examined(s: State, p: Path): Dir
    requires p in s.cache
  {
    var d := s.cache[p];
    Dir(Some(EntriesOf(s, p)), d.dirty, false, if d.needRescan then Scan(s.files, p) else d.subdirNames)
  }

  function Scan(files: map<Path, Doc>, p: Path): set<string> {
    set c | c in files && c != [] && Parent(c) == p :: Last(c)
  }

  lemma ScanLists(files: map<Path, Doc>, p: Path)
    ensures Lists(files, p, Scan(files, p))
  {
    forall n
      ensures n in Scan(files, p) <==> p + [n] in files
    {
      var c := p + [n];
      assert Parent(c) == p && Last(c) == n;
      if n in Scan(files, p) {
        var c' :| c' in files && c' != [] && Parent(c') == p && Last(c') == n;
        assert c' == Parent(c') + [Last(c')];
      }
    }
  }

  predicate Useless(d: Dir) {
    d.subdirNames == {} && d.entries == Some(map[])
  }

  predicate HasSubdirectory(fsDirs: set<Path>, p: Path) {
    exists c :: c in fsDirs && c != [] && Parent(c) == p
  }

  /** Every entry is written into its node, before anything is asked of the disk. */
  function Prepared(s: State, p: Path): Dir
    requires p in s.cache
  {
    var d := Examined(s, p);
    d.(entries := Some(SyncedAll(d.entries.value)))
  }

  /** The end of dir_sync: the document is written to its file. */
  function SavedDir(s: State, p: Path): State
    requires p in s.cache
  {
    var d := Prepared(s, p);
    s.(cache := s.cache[p := d.(dirty := false)], files := s.files[p := NodesOf(d.entries.value)])
  }

  datatype SyncResult = NothingToDo | Saved | Deleted | Refused

  /** dir_sync. accepted says whether the disk takes the write, or lets go of the file. */
  function DirSynced(s: State, p: Path, accepted: bool): (State, SyncResult)
    requires p in s.cache
  {
    if !s.cache[p].dirty then (s, NothingToDo)
    else
      var d := Examined(s, p);
      if !accepted then (s.(cache := s.cache[p := if Useless(d) then d else Prepared(s, p)]), Refused)
      else if !Useless(d) then (SavedDir(s, p), Saved)
      else if p !in s.files then (s.(cache := s.cache[p := d]), Refused)
      else
        var s' := s.(files := s.files - {p});
        if p == [] then (s'.(cache := s.cache[p := d.(dirty := false)]), Deleted)
        else if HasSubdirectory(s.fsDirs, p) then (s'.(cache := s.cache[p := d]), Refused)
        else (s'.(cache := s.cache[p := d.(dirty := false)], fsDirs := s.fsDirs - {p}), Deleted)
  }

  /** cache_remove_from_parent. */
  function RemovedFromParent(s: State, key: Path): State {
    var s' := LookedUp(s, Parent(key), true);
    if key == [] || Parent(key) !in s'.cache then s'
    else s'.(cache := s'.cache[Parent(key) := Untold(s'.cache[Parent(key)], Last(key))])
  }

  /** What is left of a deleted directory: its place in the negative cache. */
  function Dropped(s: State, p: Path): State {
    s.(cache := s.cache - {p}, nonexistent := s.nonexistent + {p})
  }

  /** cache_sync_foreach. */
  function Synced(s: State, p: Path, accepted: bool): State
    requires p in s.cache
  {
    var (s', result) := DirSynced(s, p, accepted);
    if result == Deleted then Dropped(RemovedFromParent(s', p), p) else s'
  }

  /** Every entry written into its node, and then again, comes to the same. */
  lemma SyncedTwice(entries: Entries)
    ensures SyncedAll(SyncedAll(entries)) == SyncedAll(entries)
    ensures SyncedAll(map[]) == map[]
  {
  }

  /** What one or more syncs may leave of what a directory held. */
  ghost predicate Stored(h: Held, h': Held) {
    var saved := SyncedAll(h.entries);
    && (h'.entries == h.entries || h'.entries == saved)
    && (h'.saved == h.saved || (h'.entries == saved && h'.saved == NodesOf(saved)))
    && (!h'.changed ==> h' == h || (h'.entries == saved && h'.saved == NodesOf(saved)))
  }

  lemma StoredTwice(h0: Held, h1: Held, h2: Held)
    requires Stored(h0, h1) && Stored(h1, h2)
    ensures Stored(h0, h2)
    ensures h1.entries == SyncedAll(h0.entries) ==> h2.entries == SyncedAll(h0.entries)
  {
    SyncedTwice(h0.entries);
  }

  ghost predicate AllStored(s: State, s': State) {
    forall p :: Stored(HeldAt(s, p), HeldAt(s', p))
  }

  lemma AllStoredTwice(s0: State, s1: State, s2: State)
    requires AllStored(s0, s1) && AllStored(s1, s2)
    ensures AllStored(s0, s2)
  {
    forall p
      ensures Stored(HeldAt(s0, p), HeldAt(s2, p))
    {
      StoredTwice(HeldAt(s0, p), HeldAt(s1, p), HeldAt(s2, p));
    }
  }

  /** The record of a cached directory replaced, and what its file says with it. */
  lemma RecordReplaced(s: State, p: Path, d: Dir)
    requires Sound(s, {}) && p in s.cache && d.entries.Some? && (!d.dirty ==> p in s.files)
    ensures var s' := s.(cache := s.cache[p := d]);
            && Sound(s', {})
            && (forall q :: q != p ==> HeldAt(s', q) == HeldAt(s, q))
            && HeldAt(s', p) == HeldAt(s, p).(entries := d.entries.value, changed := d.dirty)
  {
    var s' := s.(cache := s.cache[p := d]);
    assert CacheSound(s', {});
    assert NegativeSound(s');
  }

  lemma ListingsStay(s: State, p: Path, d: Dir)
    requires Agrees(s) && p in s.cache
    requires (d.needRescan == s.cache[p].needRescan && d.subdirNames == s.cache[p].subdirNames) ||
             (!d.needRescan && Lists(s.files, p, d.subdirNames))
    ensures Agrees(s.(cache := s.cache[p := d]))
  {
    var s' := s.(cache := s.cache[p := d]);
    forall q | q in s'.cache && !s'.cache[q].needRescan
      ensures Lists(s'.files, q, s'.cache[q].subdirNames)
    {
      assert q != p ==> Lists(s.files, q, s.cache[q].subdirNames);
      assert q == p && !s.cache[p].needRescan ==> Lists(s.files, p, s.cache[p].subdirNames);
    }
  }

  lemma ExaminedListings(s: State, p: Path)
    requires p in s.cache
    ensures var d := Examined(s, p);
            !d.needRescan && (d.subdirNames == s.cache[p].subdirNames || Lists(s.files, p, d.subdirNames))
    ensures ListingsFresh(s) ==> Lists(s.files, p, Examined(s, p).subdirNames)
  {
    ScanLists(s.files, p);
  }

  lemma ExaminedIsUnseen(s: State, p: Path)
    requires Sound(s, {}) && p in s.cache
    ensures var s' := s.(cache := s.cache[p := Examined(s, p)]);
            Sound(s', {}) && SameHeld(s, s') && (Agrees(s) ==> Agrees(s'))
  {
    RecordReplaced(s, p, Examined(s, p));
    if Agrees(s) {
      ExaminedListings(s, p);
      ListingsStay(s, p, Examined(s, p));
    }
  }

  /** The entries written into their nodes and the file not: the directory stays dirty. */
  lemma PreparedIsStored(s: State, p: Path)
    requires Sound(s, {}) && p in s.cache && s.cache[p].dirty
    ensures var s' := s.(cache := s.cache[p := Prepared(s, p)]);
            && Sound(s', {}) && (Agrees(s) ==> Agrees(s'))
            && (forall q :: q != p ==> HeldAt(s', q) == HeldAt(s, q))
            && HeldAt(s', p) == HeldAt(s, p).(entries := SyncedAll(EntriesOf(s, p)))
  {
    RecordReplaced(s, p, Prepared(s, p));
    if Agrees(s) {
      ExaminedListings(s, p);
      ListingsStay(s, p, Prepared(s, p));
    }
  }

  lemma SavedIsSound(s: State, p: Path)
    requires Sound(s, {}) && p in s.cache
    ensures Sound(SavedDir(s, p), {})
    ensures forall q :: q != p ==> HeldAt(SavedDir(s, p), q) == HeldAt(s, q)
    ensures var saved := SyncedAll(EntriesOf(s, p)); HeldAt(SavedDir(s, p), p) == Held(saved, NodesOf(saved), false)
  {
  }

  lemma SavedAgrees(s: State, p: Path)
    requires Agrees(s) && p in s.cache
    ensures Agrees(SavedDir(s, p))
  {
    var s' := SavedDir(s, p);
    ExaminedListings(s, p);
    assert s'.files.Keys == s.files.Keys;
    forall q | q in s'.cache && !s'.cache[q].needRescan
      ensures Lists(s'.files, q, s'.cache[q].subdirNames)
    {
      assert q != p ==> Lists(s.files, q, s.cache[q].subdirNames);
    }
  }

  /** The file gone and its directory not: the directory stays cached and dirty, and nothing is lost. */
  lemma HalfDeletedIsSound(s: State, p: Path, d: Dir)
    requires Sound(s, {}) && p in s.cache && s.cache[p].dirty && d == Examined(s, p) && Useless(d)
    ensures var s' := s.(cache := s.cache[p := d], files := s.files - {p});
            && Sound(s', {}) && (forall q :: q != p ==> HeldAt(s', q) == HeldAt(s, q))
            && HeldAt(s', p) == Held(map[], map[], true)
  {
  }

  ghost predicate Dirty(s: State, p: Path) {
    p in s.cache && s.cache[p].dirty
  }

  /** A directory of a state that was synced: what it holds was stored, and in nodes if it was dirty. */
  ghost predicate StoredAt(s: State, s': State, p: Path) {
    && (forall q :: q != p ==> HeldAt(s', q) == HeldAt(s, q)) && Stored(HeldAt(s, p), HeldAt(s', p))
    && (Dirty(s, p) ==> EntriesOf(s', p) == SyncedAll(EntriesOf(s, p)))
  }

  /** What a sync that does not delete does to the cache, whatever state it is in. */
  lemma NotDeletedCleans(s: State, p: Path, accepted: bool)
    requires p in s.cache && DirSynced(s, p, accepted).1 != Deleted
    ensures var s' := DirSynced(s, p, accepted).0;
            && s'.cache.Keys == s.cache.Keys && (forall q :: q in s.cache && q != p ==> s'.cache[q] == s.cache[q])
            && (DirSynced(s, p, accepted).1 != Refused ==> !s'.cache[p].dirty)
  {
  }

  /** A sync that does not delete is sound, and stores what the directory holds. */
  lemma NotDeletedIsSound(s: State, p: Path, accepted: bool)
    requires Sound(s, {}) && p in s.cache && DirSynced(s, p, accepted).1 != Deleted
    ensures var s' := DirSynced(s, p, accepted).0; Sound(s', {}) && StoredAt(s, s', p)
  {
    var s', d := DirSynced(s, p, accepted).0, Examined(s, p);
    SyncedTwice(EntriesOf(s, p));
    if s.cache[p].dirty && Useless(d) {
      ExaminedIsUnseen(s, p);
      HalfDeletedIsSound(s, p, d);
    } else if s.cache[p].dirty && accepted {
      SavedIsSound(s, p);
    } else if s.cache[p].dirty {
      PreparedIsStored(s, p);
    }
  }

  lemma ChildIsListed(s: State, p: Path, c: Path)
    requires ListingsAgree(s) && p in s.cache && c in s.fsDirs && c != [] && Parent(c) == p
    ensures Last(c) in Examined(s, p).subdirNames
  {
    ScanLists(s.files, p);
    assert p + [Last(c)] == c;
  }

  /** In agreement with the disk, a useless directory has no subdirectories there. */
  lemma UselessCanGo(s: State, p: Path)
    requires Agrees(s) && p in s.cache && Useless(Examined(s, p))
    ensures p in s.files && !HasSubdirectory(s.fsDirs, p)
  {
    if HasSubdirectory(s.fsDirs, p) {
      var c :| c in s.fsDirs && c != [] && Parent(c) == p;
      ChildIsListed(s, p, c);
      assert false;
    }
  }

  /** In agreement with the disk nothing but the disk itself refuses a sync, and the agreement stays. */
  lemma NotDeletedAgrees(s: State, p: Path, accepted: bool)
    requires Agrees(s) && p in s.cache && DirSynced(s, p, accepted).1 != Deleted
    ensures Agrees(DirSynced(s, p, accepted).0)
    ensures accepted ==> DirSynced(s, p, accepted).1 != Refused
  {
    var d := Examined(s, p);
    AgreesIsSound(s);
    if Useless(d) {
      ExaminedIsUnseen(s, p);
      UselessCanGo(s, p);
    } else if s.cache[p].dirty {
      PreparedIsStored(s, p);
      SavedAgrees(s, p);
    }
  }

  lemma UnlinkedHolds(s: State, p: Path, d: Dir, fsDirs: set<Path>)
    requires p in s.cache && EntriesOf(s, p) == map[] && d.entries == Some(map[])
    ensures var s' := s.(cache := s.cache[p := d], files := s.files - {p}, fsDirs := fsDirs);
            && (forall q :: q != p ==> HeldAt(s', q) == HeldAt(s, q))
            && HeldAt(s', p) == Held(map[], map[], d.dirty)
  {
  }

  /** A directory without subdirectories taken off the disk, its now empty record still in the cache. */
  lemma UnlinkedIsSound(s: State, p: Path, d: Dir, fsDirs: set<Path>)
    requires Sound(s, {}) && p in s.cache
    requires fsDirs == s.fsDirs || (fsDirs == s.fsDirs - {p} && p != [] && !HasSubdirectory(s.fsDirs, p))
    ensures Sound(s.(cache := s.cache[p := d], files := s.files - {p}, fsDirs := fsDirs), {p})
  {
    var s' := s.(cache := s.cache[p := d], files := s.files - {p}, fsDirs := fsDirs);
    forall q | q in fsDirs
      ensures Parent(q) in fsDirs
    {
      if Parent(q) == p && q != [] {
        assert fsDirs != s.fsDirs ==> HasSubdirectory(s.fsDirs, p);
      }
    }
    assert CacheSound(s', {p}) && NegativeSound(s');
  }

  lemma DeletedIsSound(s: State, p: Path)
    requires Sound(s, {}) && p in s.cache && DirSynced(s, p, true).1 == Deleted
    ensures var s1 := DirSynced(s, p, true).0;
            && Sound(s1, {p}) && p in s1.cache && s1.cache[p].entries == Some(map[]) && p !in s1.files
            && (forall q :: q != p ==> HeldAt(s1, q) == HeldAt(s, q)) && HeldAt(s1, p) == NothingHeld
            && EntriesOf(s, p) == map[]
  {
    var s1, d := DirSynced(s, p, true).0, Examined(s, p).(dirty := false);
    UnlinkedIsSound(s, p, d, s1.fsDirs);
    UnlinkedHolds(s, p, d, s1.fsDirs);
  }

  /** Taking a deleted directory out of the cache, its parent and the disk. */
  lemma DroppedIsSound(s2: State, p: Path)
    requires Sound(s2, {p}) && p !in s2.files && p in s2.cache && HeldAt(s2, p) == NothingHeld
    ensures Sound(Dropped(s2, p), {}) && SameHeld(s2, Dropped(s2, p))
  {
  }

  /** Told of a removal, a directory is dirty and holds what it held. */
  ghost predicate OnlyMarked(s: State, s': State, p: Path) {
    && (forall q :: q != p ==> HeldAt(s', q) == HeldAt(s, q))
    && HeldAt(s', p) == HeldAt(s, p).(changed := HeldAt(s', p).changed)
    && (HeldAt(s, p).changed ==> HeldAt(s', p).changed)
  }

  lemma UntoldIsSound(s: State, p: Path, name: string, hole: set<Path>)
    requires Sound(s, hole) && p in s.cache
    ensures var s' := s.(cache := s.cache[p := Untold(s.cache[p], name)]); Sound(s', hole) && OnlyMarked(s, s', p)
  {
  }

  /** Telling the parent of a deleted directory adds at most directories above it to the cache. */
  lemma RemovedFromParentGrows(s: State, p: Path)
    ensures var s' := RemovedFromParent(s, p);
            && s.cache.Keys <= s'.cache.Keys
            && forall q :: q in s'.cache ==> q in s.cache || (q <= p && (q != p || p == []))
  {
    LookedUpGrows(s, Parent(p), true);
    var s' := LookedUp(s, Parent(p), true);
    if p != [] {
      forall q | q in s'.cache.Keys && q <= Parent(p)
        ensures q <= p && q != p
      {
        PrefixOfParent(q, p);
      }
    }
  }

  lemma RemovedFromParentIsSound(s: State, p: Path)
    requires Sound(s, {p}) && p in s.cache && s.cache[p].entries == Some(map[]) && p !in s.files
    ensures var s' := RemovedFromParent(s, p);
            Sound(s', {p}) && p !in s'.files && if p == [] then SameHeld(s, s') else OnlyMarked(s, s', Parent(p))
  {
    var s' := LookedUp(s, Parent(p), true);
    LookedUpIsSound(s, Parent(p), true, {p});
    if p != [] {
      forall q | q in s'.files && q <= Parent(p)
        ensures q != p
      {
        PrefixOfParent(q, p);
      }
      UntoldIsSound(s', Parent(p), Last(p), {p});
    }
  }

  /** Whatever state the cache is in, a deletion takes one directory out of it and adds at most ones above. */
  lemma DeletionGrowsUpwards(s: State, p: Path)
    requires p in s.cache && DirSynced(s, p, true).1 == Deleted
    ensures var s' := Synced(s, p, true);
            && p !in s'.cache && s.cache.Keys - {p} <= s'.cache.Keys
            && forall q :: q in s'.cache ==> q in s.cache || (q <= p && q != p)
  {
    RemovedFromParentGrows(DirSynced(s, p, true).0, p);
  }

  /** What a deletion changes: the directory holds nothing any more, and its parent is marked. */
  ghost predicate DeletedAt(s: State, s': State, p: Path) {
    && EntriesOf(s, p) == map[] && HeldAt(s', p) == NothingHeld
    && forall q :: q != p ==> HeldAt(s', q).(changed := HeldAt(s, q).changed) == HeldAt(s, q)
                              && (HeldAt(s, q).changed ==> HeldAt(s', q).changed)
  }

  lemma DeletionIsSound(s: State, p: Path)
    requires Sound(s, {}) && p in s.cache && DirSynced(s, p, true).1 == Deleted
    ensures Sound(Synced(s, p, true), {}) && DeletedAt(s, Synced(s, p, true), p)
  {
    var s1 := DirSynced(s, p, true).0;
    DeletedIsSound(s, p);
    RemovedFromParentGrows(s1, p);
    RemovedFromParentIsSound(s1, p);
    var s2 := RemovedFromParent(s1, p);
    assert HeldAt(s2, p) == NothingHeld by {
      assert p != [] ==> Parent(p) != p;
    }
    DroppedIsSound(s2, p);
  }

  /** So what each directory holds is stored. */
  lemma DeletionStores(s: State, s': State, p: Path)
    requires DeletedAt(s, s', p)
    ensures AllStored(s, s') && EntriesOf(s', p) == SyncedAll(EntriesOf(s, p))
  {
    SyncedTwice(map[]);
    forall q
      ensures Stored(HeldAt(s, q), HeldAt(s', q))
    {
      if q != p {
        assert HeldAt(s', q).(changed := HeldAt(s, q).changed) == HeldAt(s, q);
      }
    }
  }

  lemma DeletionKeepsDiskTidy(s: State, p: Path)
    requires Agrees(s) && p in s.cache && Useless(Examined(s, p))
    ensures DiskTidy(s.(files := s.files - {p}, fsDirs := if p == [] then s.fsDirs else s.fsDirs - {p}))
  {
    UselessCanGo(s, p);
    forall q | q in s.files && q != []
      ensures Parent(q) != p
    {
    }
  }

  lemma ChildOf(p: Path, n: string, c: Path)
    requires c != []
    ensures p + [n] == c <==> p == Parent(c) && n == Last(c)
  {
    assert Parent(p + [n]) == p && Last(p + [n]) == n && Parent(c) + [Last(c)] == c;
  }

  /** The listings after a deletion: the parent's without the deleted name, the others as they were. */
  lemma DeletionKeepsListings(s: State, p: Path, s1: State, s2: State, s3: State)
    requires ListingsAgree(s) && p in s.cache && p != [] && Grew(s1, s2, Parent(p)) && Parent(p) in s2.cache
    requires s1.files == s.files - {p} && s1.cache.Keys == s.cache.Keys
    requires forall q :: q in s.cache && q != p ==> s1.cache[q] == s.cache[q]
    requires s3 == Dropped(s2.(cache := s2.cache[Parent(p) := Untold(s2.cache[Parent(p)], Last(p))]), p)
    ensures ListingsFresh(s3)
  {
    forall q | q in s3.cache && !s3.cache[q].needRescan
      ensures Lists(s3.files, q, s3.cache[q].subdirNames)
    {
      assert q in s.cache && !s.cache[q].needRescan && OnlyTold(s1.files, q, s1.cache[q], s2.cache[q]);
      forall n
        ensures n in s3.cache[q].subdirNames <==> q + [n] in s3.files
      {
        ChildOf(q, n, p);
      }
    }
  }

  /** The stages of a deletion: off the disk, the parent looked up, the parent told and the directory dropped. */
  lemma DeletionStages(s: State, p: Path) returns (s1: State, s2: State)
    requires Agrees(s) && p in s.cache && p != [] && DirSynced(s, p, true).1 == Deleted
    ensures s1 == DirSynced(s, p, true).0 && Grew(s1, s2, Parent(p)) && Parent(p) in s2.cache
    ensures s1.files == s.files - {p} && s1.cache.Keys == s.cache.Keys
    ensures s1.fsDirs == s.fsDirs - {p} && s1.nonexistent == s.nonexistent
    ensures forall q :: q in s.cache && q != p ==> s1.cache[q] == s.cache[q]
    ensures Synced(s, p, true) == Dropped(s2.(cache := s2.cache[Parent(p) := Untold(s2.cache[Parent(p)], Last(p))]), p)
  {
    s1 := DirSynced(s, p, true).0;
    assert Parent(p) in s1.files && Parent(p) !in s1.nonexistent;
    s2 := Looked(s1, Parent(p));
    LookedGrew(s1, Parent(p));
  }

  /** A deletion keeps an agreement there was. */
  lemma DeletionAgrees(s: State, p: Path)
    requires Agrees(s) && p in s.cache && DirSynced(s, p, true).1 == Deleted
    ensures Agrees(Synced(s, p, true))
  {
    var s' := Synced(s, p, true);
    AgreesIsSound(s);
    DeletionIsSound(s, p);
    DeletionKeepsDiskTidy(s, p);
    if p != [] {
      var s1, s2 := DeletionStages(s, p);
      DeletionKeepsListings(s, p, s1, s2, s');
    }
  }

  /** In agreement with the disk a deletion takes one file off it, and creates none on the way up. */
  lemma DeletionAddsNoFiles(s: State, p: Path)
    requires Agrees(s) && p in s.cache && DirSynced(s, p, true).1 == Deleted
    ensures Synced(s, p, true).files == s.files - {p}
  {
    if p != [] {
      var s1, s2 := DeletionStages(s, p);
    }
  }

  // ----- directories disappear when they are empty -----

  /** A directory on disk with neither entries nor subdirectories. */
  ghost predicate Husk(s: State, p: Path) {
    p in s.files && EntriesOf(s, p) == map[] && forall n :: p + [n] !in s.files
  }

  /** A husk after the step is dirty, or was one before, and not dirty then either. */
  ghost predicate NoNewHusk(s: State, s': State) {
    forall p :: Husk(s', p) ==> Dirty(s', p) || (Husk(s, p) && !Dirty(s, p))
  }

  lemma SavedIsNoHusk(s: State, p: Path)
    requires p in s.cache && !Useless(Examined(s, p)) && ListingsFresh(s)
    ensures !Husk(SavedDir(s, p), p)
  {
    var s', d := SavedDir(s, p), Examined(s, p);
    ScanLists(s.files, p);
    if d.subdirNames == {} {
      assert EntriesOf(s, p).Keys != {};
      assert EntriesOf(s', p).Keys == EntriesOf(s, p).Keys;
    } else {
      var n :| n in d.subdirNames;
      assert p + [n] in s.files;
    }
  }

  lemma NotDeletedFiles(s: State, p: Path, accepted: bool)
    requires Agrees(s) && p in s.cache && DirSynced(s, p, accepted).1 != Deleted
    ensures var s' := DirSynced(s, p, accepted).0;
            && s'.files.Keys == s.files.Keys
            && (forall q :: q in s.cache && q != p ==> s'.cache[q] == s.cache[q])
            && (s.cache[p].dirty && Husk(s', p) ==> Dirty(s', p))
  {
    if Useless(Examined(s, p)) {
      UselessCanGo(s, p);
    } else {
      SavedIsNoHusk(s, p);
    }
  }

  lemma NotDeletedLeavesNoHusk(s: State, p: Path, accepted: bool)
    requires Agrees(s) && p in s.cache && DirSynced(s, p, accepted).1 != Deleted
    ensures NoNewHusk(s, DirSynced(s, p, accepted).0)
  {
    var s' := DirSynced(s, p, accepted).0;
    AgreesIsSound(s);
    NotDeletedIsSound(s, p, accepted);
    NotDeletedFiles(s, p, accepted);
    forall q | Husk(s', q) && !Dirty(s', q)
      ensures Husk(s, q) && !Dirty(s, q)
    {
      assert HeldAt(s', q).entries.Keys == HeldAt(s, q).entries.Keys;
      forall n
        ensures q + [n] !in s.files
      {
        assert q + [n] !in s'.files;
      }
      assert q == p ==> !s.cache[p].dirty;
    }
  }

  lemma DroppedStaysDirty(s1: State, s2: State, s3: State, p: Path)
    requires p != [] && Grew(s1, s2, Parent(p)) && Parent(p) in s2.cache
    requires s3 == Dropped(s2.(cache := s2.cache[Parent(p) := Untold(s2.cache[Parent(p)], Last(p))]), p)
    ensures Dirty(s3, Parent(p)) && forall q :: q != p && Dirty(s1, q) ==> Dirty(s3, q)
  {
    assert Parent(p) != p;
    forall q | q != p && Dirty(s1, q)
      ensures Dirty(s3, q)
    {
      assert OnlyTold(s1.files, q, s1.cache[q], s2.cache[q]);
    }
  }

  /** The parent of a deleted directory, even one that had to be loaded first, is dirty afterwards. */
  lemma DeletionDirtiesParent(s: State, p: Path)
    requires Agrees(s) && p in s.cache && p != [] && DirSynced(s, p, true).1 == Deleted
    ensures Dirty(Synced(s, p, true), Parent(p))
    ensures forall q :: q != p && Dirty(s, q) ==> Dirty(Synced(s, p, true), q)
  {
    var s1, s2 := DeletionStages(s, p);
    DroppedStaysDirty(s1, s2, Synced(s, p, true), p);
    assert forall q :: q != p && Dirty(s, q) ==> Dirty(s1, q);
  }

  lemma DeletionFiles(s: State, p: Path)
    requires Agrees(s) && p in s.cache && DirSynced(s, p, true).1 == Deleted
    ensures Synced(s, p, true).files == s.files - {p}
  {
    if p != [] {
      var s1, s2 := DeletionStages(s, p);
    }
  }

  lemma DeletionLeavesNoHusk(s: State, p: Path)
    requires Agrees(s) && p in s.cache && DirSynced(s, p, true).1 == Deleted
    ensures NoNewHusk(s, Synced(s, p, true))
  {
    var s' := Synced(s, p, true);
    AgreesIsSound(s);
    DeletionIsSound(s, p);
    DeletionFiles(s, p);
    if p != [] {
      DeletionDirtiesParent(s, p);
    }
    forall q | Husk(s', q) && !Dirty(s', q)
      ensures Husk(s, q) && !Dirty(s, q)
    {
      assert HeldAt(s', q).entries == HeldAt(s, q).entries;
      forall n
        ensures q + [n] !in s.files
      {
        assert Parent(q + [n]) == q && q + [n] !in s'.files;
      }
    }
  }

  // ----- entries -----

  /** dir_load_doc, if the document is not loaded yet. */
  function WithDoc(s: State, p: Path): State
    requires p in s.cache
  {
    s.(cache := s.cache[p := s.cache[p].(entries := Some(EntriesOf(s, p)))])
  }

  /** Other entries for a cached directory, which makes it dirty unless they were only read. */
  function WithEntries(s: State, p: Path, entries: Entries, changed: bool): State
    requires p in s.cache
  {
    var d := s.cache[p];
    s.(cache := s.cache[p := d.(entries := Some(entries), dirty := d.dirty || changed)])
  }

  /** One of the operations: a directory looked up, created if need be, and its entries replaced. */
  function Changed(s: State, dir: Path, create: bool, entries: Entries, changed: bool): State {
    var found := LookedUp(s, dir, create);
    if dir in found.cache then WithEntries(found, dir, entries, changed) else found
  }

  lemma ChangingEntries(s: State, p: Path, entries: Entries, changed: bool)
    requires Sound(s, {}) && p in s.cache
    ensures var s' := WithEntries(s, p, entries, changed);
            && Sound(s', {}) && (Agrees(s) <==> Agrees(s'))
            && (forall q :: q != p ==> HeldAt(s', q) == HeldAt(s, q))
            && HeldAt(s', p) == Held(entries, HeldAt(s, p).saved, HeldAt(s, p).changed || changed)
  {
    var d := s.cache[p].(entries := Some(entries), dirty := s.cache[p].dirty || changed);
    RecordReplaced(s, p, d);
    SameListings(s, p, d);
  }

  lemma SameListings(s: State, p: Path, d: Dir)
    requires p in s.cache && d.needRescan == s.cache[p].needRescan && d.subdirNames == s.cache[p].subdirNames
    ensures Agrees(s) <==> Agrees(s.(cache := s.cache[p := d]))
  {
    var s' := s.(cache := s.cache[p := d]);
    assert forall q :: q in s.cache <==> q in s'.cache;
    assert forall q :: q in s.cache ==> s'.cache[q].needRescan == s.cache[q].needRescan
                                        && s'.cache[q].subdirNames == s.cache[q].subdirNames;
  }

  lemma LookupHolds(s: State, dir: Path, create: bool, s': State)
    requires Sound(s, {}) && s' == LookedUp(s, dir, create)
    ensures Sound(s', {}) && SameHeld(s, s') && (create ==> dir in s'.cache)
    ensures dir !in s'.cache ==> EntriesOf(s, dir) == map[]
    ensures Agrees(s) ==> (Agrees(s') <==> !create || dir in s.files || !Forgets(s, dir))
    ensures Agrees(s) && !create ==> (dir in s'.cache <==> dir in s.files)
  {
    LookedUpIsSound(s, dir, create, {});
    if !create {
      LookedGrew(s, dir);
    }
    if Agrees(s) {
      if !create || dir in s.files {
        LookupAgrees(s, dir);
      } else {
        CreateAgreesExactlyWhen(s, dir);
      }
    }
  }

  /**
   * Only what that directory holds changes, whatever entries it has; the caches stay in agreement with
   * the disk unless creating the directory forgets a listing.
   */
  lemma ChangeSays(s: State, dir: Path, create: bool, entries: Entries, changed: bool)
    requires Sound(s, {})
    ensures var s', h := Changed(s, dir, create, entries, changed), HeldAt(s, dir);
            && Sound(s', {}) && (forall q :: q != dir ==> HeldAt(s', q) == HeldAt(s, q))
            && (if dir in LookedUp(s, dir, create).cache
                then HeldAt(s', dir) == Held(entries, h.saved, h.changed || changed)
                else !create && HeldAt(s', dir) == h && h.entries == map[])
            && (Agrees(s) ==> (Agrees(s') <==> !create || dir in s.files || !Forgets(s, dir)))
  {
    var found := LookedUp(s, dir, create);
    LookupHolds(s, dir, create, found);
    assert HeldAt(found, dir) == HeldAt(s, dir);
    if dir in found.cache {
      ChangingEntries(found, dir, entries, changed);
    }
  }

  lemma LoadedFirst(s: State, p: Path, entries: Entries, changed: bool)
    requires p in s.cache
    ensures WithEntries(WithDoc(s, p), p, entries, changed) == WithEntries(s, p, entries, changed)
    ensures WithEntries(s, p, EntriesOf(s, p), false) == WithDoc(s, p)
  {
    assert WithEntries(WithDoc(s, p), p, entries, changed).cache == WithEntries(s, p, entries, changed).cache;
  }

  // ----- what a stale listing costs -----

  /** An entry put in its directory, which is created if need be. */
  function EntrySet(s: State, key: Path, e: DirEntry): State
    requires key != []
  {
    Changed(s, Parent(key), true, EntriesOf(s, Parent(key))[Last(key) := e], true)
  }

  /** An entry taken out of its directory. */
  function EntryRemoved(s: State, key: Path): State
    requires key != []
  {
    var entries := EntriesOf(s, Parent(key));
    Changed(s, Parent(key), false, entries - {Last(key)}, Last(key) in entries)
  }

  /** A cached directory dirty from the removal of its last entry, scanned, and a subdirectory known to be absent. */
  ghost predicate LastEntryRemoved(s: State, a: Path, b: string) {
    && Agrees(s) && a in s.cache && a + [b] in s.nonexistent
    && s.cache[a] == Dir(Some(map[]), true, false, {}) && a != []
  }

  const EmptyDisk := State(map[], {}, map[[] := map[]], {[]})

  lemma EmptyDiskAgrees()
    ensures Agrees(EmptyDisk)
  {
  }

  lemma DirCreatedOnEmptyDisk(a: Path)
    requires |a| == 1
    ensures var s := LookedUp(EmptyDisk, a, true);
            && s.nonexistent == {} && s.files == map[[] := map[], a := map[]]
            && a in s.cache && s.cache[a] == Blank && EntriesOf(s, a) == map[]
  {
    EmptyDiskAgrees();
    var root: Path := [];
    assert Parent(a) == root && a !in EmptyDisk.files;
    var made, cached, added := CreationStages(EmptyDisk, a);
    assert FsCreated(EmptyDisk, root) == EmptyDisk;
    assert made.files == map[root := map[], a := map[]];
    assert LookedUp(EmptyDisk, a, true) == Created(EmptyDisk, a);
    var looked := Looked(cached, root);
    assert looked == cached.(cache := cached.cache[root := Blank]) by {
      var loaded := cached.(cache := cached.cache[root := Blank]);
      assert AddedToParent(loaded, root) == loaded;
    }
    assert added == looked.(cache := looked.cache[root := Told(Blank, Last(a))]);
  }

  lemma NothingForgotten(a: Path)
    ensures !Forgets(EmptyDisk, a)
  {
  }

  lemma FirstEntrySet(a: Path, e: DirEntry)
    requires |a| == 1
    ensures var s := EntrySet(EmptyDisk, a + [e.name], e);
            && Agrees(s) && s.nonexistent == {}
            && a in s.cache && s.cache[a] == Dir(Some(map[e.name := e]), true, true, {})
            && s.files.Keys == {[], a}
  {
    assert Parent(a + [e.name]) == a && Last(a + [e.name]) == e.name;
    EmptyDiskAgrees();
    DirCreatedOnEmptyDisk(a);
    NothingForgotten(a);
    ChangeSays(EmptyDisk, a, true, map[e.name := e], true);
  }

  lemma FirstEntrySaved(s: State, a: Path, e: DirEntry)
    requires Agrees(s) && s.nonexistent == {} && |a| == 1 && s.files.Keys == {[], a}
    requires a in s.cache && s.cache[a] == Dir(Some(map[e.name := e]), true, true, {})
    ensures var s' := Synced(s, a, true);
            && Agrees(s') && s'.nonexistent == {} && s'.files.Keys == {[], a}
            && a in s'.cache && s'.cache[a] == Dir(Some(map[e.name := XmlEntries.Synced(e)]), false, false, {})
  {
    FirstEntryWritten(s, a, e);
    assert e.name in EntriesOf(s, a);
    SaveIsSynced(s, a);
    SavedAgrees(s, a);
  }

  lemma FirstEntryWritten(s: State, a: Path, e: DirEntry)
    requires |a| == 1 && s.files.Keys == {[], a}
    requires a in s.cache && s.cache[a] == Dir(Some(map[e.name := e]), true, true, {})
    ensures var s' := SavedDir(s, a);
            && !Useless(Examined(s, a)) && s'.nonexistent == s.nonexistent && s'.files.Keys == {[], a}
            && a in s'.cache && s'.cache[a] == Dir(Some(map[e.name := XmlEntries.Synced(e)]), false, false, {})
  {
    NoneScanned(s.files, a);
    OneSyncedEntry(e);
    assert EntriesOf(s, a) == map[e.name := e] && e.name in Examined(s, a).entries.value;
    assert SavedDir(s, a).files.Keys == s.files.Keys + {a};
  }

  lemma SaveIsSynced(s: State, p: Path)
    requires p in s.cache && s.cache[p].dirty && !Useless(Examined(s, p))
    ensures Synced(s, p, true) == SavedDir(s, p)
  {
  }

  lemma NoneScanned(files: map<Path, Doc>, a: Path)
    requires |a| == 1 && files.Keys == {[], a}
    ensures Scan(files, a) == {}
  {
    assert forall c :: c in files ==> c == [] || c == a;
  }

  lemma OneSyncedEntry(e: DirEntry)
    ensures SyncedAll(map[e.name := e]) == map[e.name := XmlEntries.Synced(e)]
  {
  }

  lemma AbsentIsRemembered(s: State, p: Path)
    requires p !in s.cache && p !in s.files && s.nonexistent == {}
    ensures LookedUp(s, p, false) == s.(nonexistent := {p})
  {
  }

  lemma OnlyEntryRemoved(s: State, a: Path, name: string, e: DirEntry)
    requires a in s.cache && s.cache[a] == Dir(Some(map[name := e]), false, false, {})
    ensures EntryRemoved(s, a + [name]) == s.(cache := s.cache[a := Dir(Some(map[]), true, false, {})])
  {
    assert Parent(a + [name]) == a && Last(a + [name]) == name && LookedUp(s, a, false) == s;
    assert map[name := e] - {name} == map[];
  }

  /**
   * One way there: an entry is set in a new directory and saved, a key in a subdirectory there is not
   * is asked for, and the entry is removed again.
   */
  lemma LastEntryIsRemoved(a: Path, b: string, e: DirEntry) returns (s1: State, s2: State, s3: State, s4: State)
    requires |a| == 1
    ensures s1 == EntrySet(EmptyDisk, a + [e.name], e)
    ensures a in s1.cache && s2 == Synced(s1, a, true)
    ensures s3 == LookedUp(s2, a + [b], false)
    ensures s4 == EntryRemoved(s3, a + [e.name]) && LastEntryRemoved(s4, a, b)
  {
    var key, ab := a + [e.name], a + [b];
    assert Parent(key) == a && Last(key) == e.name && |ab| == 2;
    s1 := EntrySet(EmptyDisk, key, e);
    FirstEntrySet(a, e);
    s2 := Synced(s1, a, true);
    FirstEntrySaved(s1, a, e);
    s3 := LookedUp(s2, ab, false);
    assert ab !in s2.files && ab !in s2.cache;
    AbsentIsRemembered(s2, ab);
    AgreesIsSound(s2);
    LookupHolds(s2, ab, false, s3);
    s4 := EntryRemoved(s3, key);
    OnlyEntryRemoved(s3, a, e.name, XmlEntries.Synced(e));
    ChangeSays(s3, a, false, map[], true);
  }

  /**
   * Creating a directory two levels below, whose parent is known to be absent, leaves the scanned
   * listing without the new subdirectory. The next sync takes the directory for empty, deletes its data
   * file and fails, with the new directories on disk below one that has no file any more.
   */
  lemma ForgottenSubdirectoryCostsTheFile(s: State, a: Path, b: string, c: string)
    requires LastEntryRemoved(s, a, b)
    ensures var s1 := LookedUp(s, a + [b] + [c], true);
            && a in s1.files && a + [b] in s1.files && a + [b] + [c] in s1.files
            && a in s1.cache
            && var (s2, result) := DirSynced(s1, a, true);
               && result == Refused && a in s2.cache && s2.cache[a].dirty
               && a !in s2.files && a + [b] in s2.files
  {
    var key, ab := a + [b] + [c], a + [b];
    assert Parent(key) == ab && Parent(ab) == a;
    if key in s.files {
      AncestorOnDisk(s, ab, key);
      assert false;
    }
    var made, cached, added := CreationStages(s, key);
    FsCreatedTidy(s, key);
    AncestorOnDisk(made, ab, key);
    AncestorOnDisk(made, a, key);
    assert Looked(cached, ab) == cached && added == cached;
    assert ab in made.fsDirs;
  }
}
