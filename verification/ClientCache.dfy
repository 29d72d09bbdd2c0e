/** The client's key cache as a value: what each update of it and each question to it means. */
module ClientCaches {
  import opened Options
  import opened Paths
  import opened Values

  datatype LookupResult = Hit(entry: Entry) | KnownAbsent | Miss

  /** gconf_entry_new: the entry a notification or a local change puts in the cache. */
  function NewEntry(value: Option<Value>): Entry {
    Entry(value, false, true, None)
  }

  function CachePut(cache: map<Path, Entry>, key: Path, entry: Entry, preserveSchemaName: bool): map<Path, Entry> {
    if key !in cache then cache[key := entry]
    else if cache[key] == entry then cache
    else if preserveSchemaName then cache[key := entry.(schemaName := cache[key].schemaName)]
    else cache[key := entry]
  }

  /** The attributes an entry has that a change puts in the cache: no default, writable, no schema. */
  lemma NewEntryIs(value: Option<Value>)
    ensures var e := NewEntry(value);
            e.value == value && !e.isDefault && e.isWritable && e.schemaName == None
  {
  }

  /**
   * Caching an entry takes over all of it but, when asked to and there was an entry before, the name of
   * that one's schema; no other key is touched.
   */
  lemma PutSays(cache: map<Path, Entry>, key: Path, entry: Entry, preserveSchemaName: bool)
    ensures var cache' := CachePut(cache, key, entry, preserveSchemaName);
            && cache'.Keys == cache.Keys + {key}
            && (forall k :: k in cache && k != key ==> cache'[k] == cache[k])
            && cache'[key].value == entry.value
            && cache'[key].isDefault == entry.isDefault && cache'[key].isWritable == entry.isWritable
            && (preserveSchemaName && key in cache ==> cache'[key].schemaName == cache[key].schemaName)
            && (!preserveSchemaName || key !in cache ==> cache'[key].schemaName == entry.schemaName)
  {
  }

  lemma CachedTwice(cache: map<Path, Entry>, key: Path, entry: Entry)
    ensures CachePut(CachePut(cache, key, entry, true), key, entry, true) == CachePut(cache, key, entry, true)
  {
  }

  /** A listing put into the cache. */
  function CacheAll(cache: map<Path, Entry>, replies: map<Path, Entry>): map<Path, Entry> {
    map k | k in cache.Keys + replies.Keys ::
      if k in replies then CachePut(cache, k, replies[k], false)[k] else cache[k]
  }

  lemma OneOfAll(cache: map<Path, Entry>, replies: map<Path, Entry>, k: Path)
    ensures k in CacheAll(cache, replies) <==> k in cache || k in replies
    ensures k in replies ==> CacheAll(cache, replies)[k] == replies[k]
    ensures k in cache && k !in replies ==> CacheAll(cache, replies)[k] == cache[k]
  {
  }

  lemma NoneCached(cache: map<Path, Entry>)
    ensures CacheAll(cache, map[]) == cache
  {
  }

  lemma OneMoreCached(cache: map<Path, Entry>, replies: map<Path, Entry>, todo: set<Path>, k: Path)
    requires k in todo && todo <= replies.Keys
    ensures var done := map j | j in replies && j !in todo :: replies[j];
            var more := map j | j in replies && j !in todo - {k} :: replies[j];
            CachePut(CacheAll(cache, done), k, replies[k], false) == CacheAll(cache, more)
  {
  }

  /**
   * A key of a fully cached directory that is not cached is known to be absent. A key directly
   * below the root never is: its directory reads "" here and "/" where directories are marked.
   */
  function LookupIn(cache: map<Path, Entry>, fullDirs: set<Path>, key: Path): LookupResult {
    if key in cache then Hit(cache[key])
    else if |key| >= 2 && Parent(key) in fullDirs then KnownAbsent
    else Miss
  }

  /** The directories still marked once a key was unset. */
  function ForgetDirOf(fullDirs: set<Path>, key: Path): set<Path> {
    if |key| >= 2 then fullDirs - {Parent(key)} else fullDirs
  }

  /** A key that was unset is not known to be absent, for it may have a default: it will be asked for. */
  lemma UnsetKeyIsAskedFor(cache: map<Path, Entry>, fullDirs: set<Path>, key: Path)
    ensures LookupIn(cache - {key}, ForgetDirOf(fullDirs, key), key) == Miss
    ensures forall d :: d in fullDirs && d !in ForgetDirOf(fullDirs, key) ==> key != [] && d == Parent(key) && d != []
    ensures ForgetDirOf(fullDirs, key) <= fullDirs
  {
  }

  function ForgetBelow(cache: map<Path, Entry>, dir: Path): map<Path, Entry> {
    map k | k in cache && !IsBelow(dir, k) :: cache[k]
  }

  function ForgetDirsBelow(fullDirs: set<Path>, dir: Path): set<Path> {
    set d | d in fullDirs && !IsBelow(dir, d)
  }

  /** key is listed for dir: its last slash is the one that follows the text of dir. */
  predicate IsListed(dir: Path, key: Path) {
    dir != [] && key != [] && Parent(key) == dir
  }

  function CachedListing(cache: map<Path, Entry>, dir: Path): map<Path, Entry> {
    map k | k in cache && IsListed(dir, k) :: cache[k]
  }

  /** Giving up a directory forgets the keys and marks in it and the one of its own name; the others stay. */
  lemma ForgottenAre(cache: map<Path, Entry>, fullDirs: set<Path>, dir: Path)
    ensures var cache' := ForgetBelow(cache, dir);
            && (forall k :: k in cache' <==> k in cache && !(dir <= k))
            && forall k :: k in cache' ==> cache'[k] == cache[k]
    ensures forall d :: d in ForgetDirsBelow(fullDirs, dir) <==> d in fullDirs && !(dir <= d)
  {
  }

  /** A listing holds the keys directly in the directory as they are cached, and nothing for the root. */
  lemma ListedAre(cache: map<Path, Entry>, dir: Path)
    ensures var listing := CachedListing(cache, dir);
            && (forall k :: k in listing <==> k in cache && dir != [] && |k| == |dir| + 1 && dir <= k)
            && forall k :: k in listing ==> listing[k] == cache[k]
  {
  }

  /** The textual test of gconf_client_all_entries picks exactly the children, and nothing for "/". */
  lemma ListedByText(dir: Path, key: Path)
    requires key != [] && ValidPath(dir) && ValidPath(key)
    ensures (Text(dir) <= Text(key) && |Text(dir)| == LastSlash(Text(key))) <==> IsListed(dir, key)
  {
    KeyDirectoryIsParent(key);
    SlashedStart(dir);
    SlashedStart(key);
    var parent := Parent(key);
    var n := LastSlash(Text(key));
    if parent == [] {
      assert key == [key[0]];
      assert Text(key) == "/" + key[0] + Slashed([]);
      assert forall i :: 0 < i < |Text(key)| ==> Text(key)[i] == key[0][i - 1];
      assert n == 0;
    } else {
      SlashedStart(parent);
      assert Text(parent) == Text(key)[..n];
      if Text(dir) <= Text(key) && |Text(dir)| == n {
        assert Text(dir) == Text(parent);
        KeyIsBelowIsPrefix(dir, parent);
        KeyIsBelowIsPrefix(parent, dir);
        PrefixIsAntisymmetric(dir, parent);
      }
    }
  }
}
