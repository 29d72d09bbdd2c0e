/**
 * The markup backend's tree of directories, loaded from disk on demand and written back on sync.
 * The tree is a table from a directory's path to its record, the disk a table from a directory's
 * path to the events of its %gconf.xml; a directory's subdirectories are the paths one longer.
 */
module MarkupTrees {
  import opened Options
  import opened Paths
  import opened Values
  import MarkupFiles
  import opened MarkupEntries

  datatype MarkupDir = MarkupDir(
    entries: Entries,
    entriesLoaded: bool,
    entriesNeedSave: bool,
    subdirsLoaded: bool,
    someSubdirNeedsSync: bool,
    filesystemDirProbablyExists: bool)
  {
    /** markup_dir_needs_sync. */
    predicate NeedsSync() {
      entriesNeedSave || someSubdirNeedsSync
    }
  }

  /** The tree in memory, and what the data files on disk give when they are parsed. */
  datatype Tree = Tree(dirs: map<Path, MarkupDir>, files: map<Path, Entries>)

  const BlankDir := MarkupDir(map[], false, false, false, false, false)
  const NewDir := MarkupDir(map[], true, true, true, false, false)

  function EntriesIn(files: map<Path, Entries>, p: Path): Entries {
    if p in files then files[p] else map[]
  }

  function Useful(entries: Entries): Entries {
    map n | n in entries && entries[n] != NoEntry :: entries[n]
  }

  /** What a query for the key name in directory p finds, loaded or not. */
  function Lookup(t: Tree, p: Path, name: string): MarkupEntry {
    if p in t.dirs && t.dirs[p].entriesLoaded then EntryIn(t.dirs[p].entries, name)
    else EntryIn(EntriesIn(t.files, p), name)
  }

  ghost predicate SameAnswers(t: Tree, t': Tree) {
    forall p, name :: Lookup(t', p, name) == Lookup(t, p, name)
  }

  /** The same once a sync has dropped the local schemas that no longer apply. */
  ghost predicate SameOnceCleaned(t: Tree, t': Tree) {
    forall p, name :: Cleaned(Lookup(t', p, name)) == Cleaned(Lookup(t, p, name))
  }

  function Last(key: Path): string
    requires key != []
  {
    key[|key| - 1]
  }

  // ----- the plain store the backend stands for -----

  /** The operations of the backend, as its callers issue them. */
  datatype Op =
    | Query(key: Path, locales: seq<string>)
    | Set(key: Path, value: Value)
    | Unset(key: Path, locale: Option<string>)
    | SetSchemaName(key: Path, schemaName: Option<string>)
    | Sync
    | DropCache

  datatype Reply = Reply(value: Option<Value>, schemaName: Option<string>)

  type Store = map<Path, MarkupEntry>

  predicate ValidOp(op: Op) {
    (op.Query? || op.Set? || op.Unset? || op.SetSchemaName?) ==> op.key != []
  }

  function Stored(store: Store, key: Path): MarkupEntry {
    if key in store then store[key] else NoEntry
  }

  function ReplyFor(e: MarkupEntry, locales: seq<string>): Reply {
    Reply(Answer(e, locales), e.schemaName)
  }

  /** The entry a write to its key leaves. */
  function Written(e: MarkupEntry, op: Op): MarkupEntry {
    match op
    case Set(_, value) => MarkupEntries.Set(e, value)
    case Unset(_, locale) => MarkupEntries.Unset(e, locale)
    case SetSchemaName(_, schemaName) => e.(schemaName := schemaName)
    case _ => e
  }

  /** A plain map from keys to entries, where a sync drops the local schemas that no longer apply. */
  function PlainApply(store: Store, op: Op): Store
    requires !op.DropCache?
  {
    match op
    case Query(_, _) => store
    case Sync => map k | k in store :: Cleaned(store[k])
    case Set(key, _) => store[key := Written(Stored(store, key), op)]
    case Unset(key, _) => store[key := Written(Stored(store, key), op)]
    case SetSchemaName(key, _) => store[key := Written(Stored(store, key), op)]
  }

  function StoredIn(store: Store, p: Path): string -> MarkupEntry {
    n => Stored(store, p + [n])
  }

  function CleanedIn(store: Store, p: Path): string -> MarkupEntry {
    n => Cleaned(Stored(store, p + [n]))
  }

  /** Dropping the cache leaves in each directory what its file gives. */
  ghost predicate Dropped(store: Store, store': Store) {
    store'.Keys == store.Keys && forall p :: Gives(CleanedIn(store, p), StoredIn(store', p))
  }

  ghost predicate Follows(store: Store, op: Op, store': Store) {
    if op.DropCache? then Dropped(store, store') else store' == PlainApply(store, op)
  }

  /** The answers a run over such a map may give. */
  ghost predicate PlainRun(store: Store, ops: seq<Op>, answers: seq<Reply>)
    decreases |ops|
  {
    if ops == [] then answers == []
    else if ops[0].Query? then
      && answers != [] && answers[0] == ReplyFor(Stored(store, ops[0].key), ops[0].locales)
      && PlainRun(store, ops[1..], answers[1..])
    else exists store' :: Follows(store, ops[0], store') && PlainRun(store', ops[1..], answers)
  }

  ghost predicate StandsFor(t: Tree, store: Store) {
    [] !in store && forall p, n :: Lookup(t, p, n) == Stored(store, p + [n])
  }

  lemma KeySplits(key: Path)
    requires key != []
    ensures Parent(key) + [Last(key)] == key
  {
  }

  lemma KeysDiffer(p: Path, n: string, q: Path, m: string)
    ensures p + [n] == q + [m] <==> p == q && n == m
  {
    if p + [n] == q + [m] {
      assert p == (p + [n])[..|p|] == (q + [m])[..|q|] == q;
      assert n == (p + [n])[|p|] == (q + [m])[|q|] == m;
    }
  }

  lemma GivesTheSame(entries: string -> MarkupEntry, found: string -> MarkupEntry,
                     entries': string -> MarkupEntry, found': string -> MarkupEntry)
    requires Gives(entries, found) && forall n :: entries'(n) == entries(n) && found'(n) == found(n)
    ensures Gives(entries', found')
  {
    var order, stop :| Orders(entries, order) && GivesUpTo(entries, found, order, stop);
    assert Orders(entries', order) && GivesUpTo(entries', found', order, stop);
  }

  lemma NothingFromNothing(entries: string -> MarkupEntry, found: string -> MarkupEntry, n: string)
    requires Gives(entries, found) && entries(n) == NoEntry
    ensures found(n) == NoEntry
  {
    GivesForms(entries, found);
  }

  // ----- the invariant -----

  predicate IsChild(c: Path, p: Path) {
    c != [] && Parent(c) == p
  }

  /** Every directory with a data file has one in each directory above it, the root aside. */
  ghost predicate FilesClosed(files: map<Path, Entries>) {
    forall p {:trigger Parent(p)} :: p in files && p != [] && Parent(p) != [] ==> Parent(p) in files
  }

  ghost predicate DirsClosed(dirs: map<Path, MarkupDir>) {
    && [] in dirs
    && forall p {:trigger Parent(p)} :: p in dirs && p != [] ==> Parent(p) in dirs && dirs[Parent(p)].subdirsLoaded
  }

  /** A directory whose subdirectories were loaded knows all of them. */
  ghost predicate SubdirsKnown(t: Tree) {
    forall c {:trigger Parent(c)} ::
      c in t.files && c != [] && Parent(c) in t.dirs && t.dirs[Parent(c)].subdirsLoaded ==> c in t.dirs
  }

  /** What a directory that needs no save holds is what its file holds, and it has one. */
  ghost predicate CleanAgrees(t: Tree) {
    forall p :: p in t.dirs && !t.dirs[p].entriesNeedSave ==>
      && (p != [] ==> p in t.files)
      && (t.dirs[p].entriesLoaded ==> InFile(t.dirs[p].entries, EntriesIn(t.files, p)))
  }

  /** The file gives what it can keep of these entries, and a sync would drop nothing from them. */
  ghost predicate InFile(entries: Entries, found: Entries) {
    Gives(In(entries), In(found)) && forall n :: Cleaned(EntryIn(entries, n)) == EntryIn(entries, n)
  }

  ghost predicate AllShaped(entries: Entries) {
    forall n :: n in entries ==> Shaped(entries[n])
  }

  ghost predicate AllLasting(entries: Entries) {
    forall n :: n in entries ==> Lasting(entries[n])
  }

  /** What is in memory was set, and what the files give was read. */
  ghost predicate EntriesFit(t: Tree) {
    && (forall p :: p in t.dirs ==> AllShaped(t.dirs[p].entries))
    && (forall p :: p in t.files ==> AllLasting(t.files[p]))
  }

  ghost predicate FlagsSane(dirs: map<Path, MarkupDir>) {
    forall p :: p in dirs ==>
      && (dirs[p].entriesNeedSave ==> dirs[p].entriesLoaded)
      && (dirs[p].someSubdirNeedsSync ==> dirs[p].subdirsLoaded)
  }

  /**
   * The parent of every directory that needs a sync is flagged, and so are all its ancestors. While an
   * operation on pending is under way the directories it just created are exempt.
   */
  ghost predicate AncestorsFlagged(dirs: map<Path, MarkupDir>, pending: Option<Path>) {
    forall p {:trigger Parent(p)} :: p in dirs && p != [] && Parent(p) in dirs && dirs[p].NeedsSync() ==>
      dirs[Parent(p)].someSubdirNeedsSync || (pending.Some? && IsBelow(p, pending.value))
  }

  ghost predicate Consistent(t: Tree, pending: Option<Path>) {
    && FilesClosed(t.files) && DirsClosed(t.dirs) && SubdirsKnown(t)
    && CleanAgrees(t) && FlagsSane(t.dirs) && AncestorsFlagged(t.dirs, pending)
  }

  // ----- the elementary changes -----

  function WithEntries(t: Tree, p: Path): Tree
    requires p in t.dirs
  {
    if t.dirs[p].entriesLoaded then t
    else t.(dirs := t.dirs[p := t.dirs[p].(entries := EntriesIn(t.files, p), entriesLoaded := true)])
  }

  /** Blank records for those of the directories that lie directly in p. */
  function Listed(names: set<Path>, p: Path): map<Path, MarkupDir> {
    map c | c in names && IsChild(c, p) :: BlankDir
  }

  function WithSubdirs(t: Tree, p: Path): Tree
    requires p in t.dirs
  {
    if t.dirs[p].subdirsLoaded then t
    else t.(dirs := t.dirs[p := t.dirs[p].(subdirsLoaded := true)] + Listed(t.files.Keys, p))
  }

  function WithNewDir(t: Tree, c: Path): Tree {
    t.(dirs := t.dirs[c := NewDir])
  }

  function WithEntry(t: Tree, p: Path, name: string, entry: MarkupEntry): Tree
    requires p in t.dirs
  {
    t.(dirs := t.dirs[p := t.dirs[p].(entries := t.dirs[p].entries[name := entry], entriesNeedSave := true)])
  }

  function Flagged(t: Tree, p: Path): Tree
    requires p in t.dirs
  {
    t.(dirs := t.dirs[p := t.dirs[p].(someSubdirNeedsSync := true)])
  }

  function CleanedAll(entries: Entries): (cleaned: Entries)
    ensures cleaned.Keys == entries.Keys
  {
    map n | n in entries :: Cleaned(entries[n])
  }

  function WithCleaned(t: Tree, p: Path): Tree
    requires p in t.dirs
  {
    if !t.dirs[p].entriesLoaded then t
    else t.(dirs := t.dirs[p := t.dirs[p].(entries := CleanedAll(t.dirs[p].entries))])
  }

  /** p saved, with found what the new file gives. */
  function Saved(t: Tree, p: Path, found: Entries): Tree
    requires p in t.dirs
  {
    var d := t.dirs[p].(entries := Useful(t.dirs[p].entries), entriesNeedSave := false,
                        filesystemDirProbablyExists := true);
    Tree(t.dirs[p := d], t.files[p := found])
  }

  function Unflagged(t: Tree, p: Path): Tree
    requires p in t.dirs
  {
    t.(dirs := t.dirs[p := t.dirs[p].(someSubdirNeedsSync := false)])
  }

  function Deleted(t: Tree, c: Path): Tree {
    Tree(t.dirs - {c}, t.files - {c})
  }

  // ----- what each change keeps -----

  /** Another record for p that says as much about its subdirectories: the shape of the tree is the same. */
  lemma RecordKeepsShape(t: Tree, p: Path, d: MarkupDir)
    requires FilesClosed(t.files) && DirsClosed(t.dirs) && SubdirsKnown(t)
    requires p in t.dirs && d.subdirsLoaded == t.dirs[p].subdirsLoaded
    ensures DirsClosed(t.dirs[p := d]) && SubdirsKnown(t.(dirs := t.dirs[p := d]))
  {
  }

  lemma RecordKeepsFlags(dirs: map<Path, MarkupDir>, p: Path, d: MarkupDir, pending: Option<Path>)
    requires FlagsSane(dirs) && AncestorsFlagged(dirs, pending) && p in dirs
    requires (d.NeedsSync() ==> dirs[p].NeedsSync()) && d.someSubdirNeedsSync == dirs[p].someSubdirNeedsSync
    requires d.entriesLoaded == dirs[p].entriesLoaded && d.subdirsLoaded == dirs[p].subdirsLoaded
    requires d.entriesNeedSave ==> dirs[p].entriesNeedSave
    ensures FlagsSane(dirs[p := d]) && AncestorsFlagged(dirs[p := d], pending)
  {
  }

  lemma FileIsInFile(found: Entries)
    requires AllLasting(found)
    ensures InFile(found, found)
  {
    NoEntryLasts();
    var order := SomeOrder(found.Keys);
    FormsAreGiven(In(found), In(found), order);
  }

  lemma LoadingEntriesIsUnseen(t: Tree, p: Path, pending: Option<Path>)
    requires Consistent(t, pending) && EntriesFit(t) && p in t.dirs
    ensures Consistent(WithEntries(t, p), pending) && SameAnswers(t, WithEntries(t, p)) && EntriesFit(WithEntries(t, p))
  {
    FileIsInFile(EntriesIn(t.files, p));
    LoadedEntriesShape(t, p, pending);
    LoadedEntriesAnswer(t, p);
    var t' := WithEntries(t, p);
    forall q | q in t'.dirs && !t'.dirs[q].entriesNeedSave && t'.dirs[q].entriesLoaded
      ensures InFile(t'.dirs[q].entries, EntriesIn(t'.files, q))
    {
      assert q != p ==> t'.dirs[q] == t.dirs[q];
    }
  }

  lemma LoadedEntriesShape(t: Tree, p: Path, pending: Option<Path>)
    requires DirsClosed(t.dirs) && SubdirsKnown(t) && FlagsSane(t.dirs) && AncestorsFlagged(t.dirs, pending)
    requires p in t.dirs
    ensures var t' := WithEntries(t, p);
            DirsClosed(t'.dirs) && SubdirsKnown(t') && FlagsSane(t'.dirs) && AncestorsFlagged(t'.dirs, pending)
  {
  }

  lemma LoadedEntriesAnswer(t: Tree, p: Path)
    requires EntriesFit(t) && p in t.dirs
    ensures SameAnswers(t, WithEntries(t, p)) && EntriesFit(WithEntries(t, p))
  {
  }

  lemma LoadingSubdirsIsUnseen(t: Tree, p: Path, pending: Option<Path>)
    requires Consistent(t, pending) && p in t.dirs
    ensures Consistent(WithSubdirs(t, p), pending) && SameAnswers(t, WithSubdirs(t, p))
    ensures forall q :: q in t.dirs && q != p ==> q in WithSubdirs(t, p).dirs && WithSubdirs(t, p).dirs[q] == t.dirs[q]
    ensures EntriesFit(t) ==> EntriesFit(WithSubdirs(t, p))
  {
    if !t.dirs[p].subdirsLoaded {
      var t' := WithSubdirs(t, p);
      SubdirsListed(t, p);
      LoadedSubdirsClosed(t, t', p);
      LoadedSubdirsFlags(t, t', p, pending);
      LoadedSubdirsAnswer(t, t', p);
    }
  }

  lemma SubdirsListed(t: Tree, p: Path)
    requires DirsClosed(t.dirs) && p in t.dirs && !t.dirs[p].subdirsLoaded
    ensures ListedSubdirs(t, WithSubdirs(t, p), p)
  {
    var t' := WithSubdirs(t, p);
    var listed := Listed(t.files.Keys, p);
    assert t'.dirs == t.dirs[p := t.dirs[p].(subdirsLoaded := true)] + listed;
    NoneListedYet(t.dirs, p);
    assert p !in listed && forall c :: c in listed ==> c !in t.dirs;
  }

  lemma NoneListedYet(dirs: map<Path, MarkupDir>, p: Path)
    requires DirsClosed(dirs) && p in dirs && !dirs[p].subdirsLoaded
    ensures forall c :: c in dirs ==> !IsChild(c, p)
    ensures !IsChild(p, p)
  {
    forall c | c in dirs
      ensures !IsChild(c, p)
    {
      if c != [] {
        assert dirs[Parent(c)].subdirsLoaded;
      }
    }
  }

  /** t' is t with blank records for the subdirectories of p that have files. */
  ghost predicate ListedSubdirs(t: Tree, t': Tree, p: Path) {
    && t'.files == t.files && p in t.dirs && p in t'.dirs && t'.dirs[p] == t.dirs[p].(subdirsLoaded := true)
    && (forall c :: c in t'.dirs <==> c in t.dirs || (c in t.files && IsChild(c, p)))
    && (forall c :: c in t.files && IsChild(c, p) ==> c in t'.dirs && t'.dirs[c] == BlankDir)
    && (forall c :: c in t.dirs && c != p ==> c in t'.dirs && t'.dirs[c] == t.dirs[c])
  }

  lemma LoadedSubdirsClosed(t: Tree, t': Tree, p: Path)
    requires DirsClosed(t.dirs) && SubdirsKnown(t) && ListedSubdirs(t, t', p)
    ensures DirsClosed(t'.dirs) && SubdirsKnown(t')
  {
  }

  lemma LoadedSubdirsAnswer(t: Tree, t': Tree, p: Path)
    requires ListedSubdirs(t, t', p)
    ensures SameAnswers(t, t')
    ensures CleanAgrees(t) ==> CleanAgrees(t')
    ensures EntriesFit(t) ==> EntriesFit(t')
  {
  }

  lemma LoadedSubdirsFlags(t: Tree, t': Tree, p: Path, pending: Option<Path>)
    requires DirsClosed(t.dirs) && FlagsSane(t.dirs) && AncestorsFlagged(t.dirs, pending) && ListedSubdirs(t, t', p)
    ensures FlagsSane(t'.dirs) && AncestorsFlagged(t'.dirs, pending)
  {
  }

  lemma {:induction false} AncestorHasFile(files: map<Path, Entries>, a: Path, p: Path)
    requires FilesClosed(files) && p in files && IsBelow(a, p) && a != []
    ensures a in files
    decreases |p|
  {
    if a != p {
      PrefixOfParent(a, p);
      AncestorHasFile(files, a, Parent(p));
    }
  }

  lemma {:induction false} AncestorHasDir(dirs: map<Path, MarkupDir>, a: Path, p: Path)
    requires DirsClosed(dirs) && p in dirs && IsBelow(a, p)
    ensures a in dirs
    ensures a != p ==> dirs[a].subdirsLoaded
    decreases |p|
  {
    if a != p {
      PrefixOfParent(a, p);
      AncestorHasDir(dirs, a, Parent(p));
    }
  }

  /** When a loaded directory lacks a subdirectory, nothing at or below that subdirectory is stored. */
  lemma MissingSubdir(t: Tree, c: Path, p: Path, pending: Option<Path>)
    requires Consistent(t, pending) && c != [] && Parent(c) in t.dirs && t.dirs[Parent(c)].subdirsLoaded
    requires c !in t.dirs && IsBelow(c, p)
    ensures p !in t.dirs && p !in t.files
  {
    if p in t.dirs {
      AncestorHasDir(t.dirs, c, p);
    }
    if p in t.files {
      AncestorHasFile(t.files, c, p);
    }
  }

  lemma CreatingADirIsUnseen(t: Tree, c: Path, pending: Path)
    requires Consistent(t, Some(pending)) && c != [] && IsBelow(c, pending)
    requires Parent(c) in t.dirs && t.dirs[Parent(c)].subdirsLoaded && c !in t.dirs
    ensures Consistent(WithNewDir(t, c), Some(pending)) && SameAnswers(t, WithNewDir(t, c))
    ensures EntriesFit(t) ==> EntriesFit(WithNewDir(t, c))
  {
    var t' := WithNewDir(t, c);
    MissingSubdir(t, c, c, Some(pending));
    forall d | d in t.files && d != []
      ensures Parent(d) != c
    {
      PrefixOfParent(c, d);
      if IsBelow(c, d) {
        MissingSubdir(t, c, d, Some(pending));
      }
    }
  }

  /** Changing one entry of a loaded directory changes the answer for that key alone. */
  lemma SettingAnEntry(t: Tree, p: Path, name: string, entry: MarkupEntry, pending: Path)
    requires Consistent(t, Some(pending)) && p in t.dirs && t.dirs[p].entriesLoaded && IsBelow(p, pending)
    ensures var t' := WithEntry(t, p, name, entry);
            && Consistent(t', Some(pending))
            && (forall q, n :: Lookup(t', q, n) == if q == p && n == name then entry else Lookup(t, q, n))
            && (EntriesFit(t) && Shaped(entry) ==> EntriesFit(t'))
  {
    var t' := WithEntry(t, p, name, entry);
    ChangedLookups(t, p, name, entry);
    forall q | q in t'.dirs && !t'.dirs[q].entriesNeedSave
      ensures (q != [] ==> q in t'.files)
      ensures t'.dirs[q].entriesLoaded ==> InFile(t'.dirs[q].entries, EntriesIn(t'.files, q))
    {
      assert q != p && t'.dirs[q] == t.dirs[q];
    }
    ChangedShape(t, p, t'.dirs[p], pending);
    assert Consistent(t', Some(pending));
  }

  lemma ChangedLookups(t: Tree, p: Path, name: string, entry: MarkupEntry)
    requires p in t.dirs && t.dirs[p].entriesLoaded
    ensures var t' := WithEntry(t, p, name, entry);
            && (forall q, n :: Lookup(t', q, n) == if q == p && n == name then entry else Lookup(t, q, n))
            && (EntriesFit(t) && Shaped(entry) ==> EntriesFit(t'))
  {
  }

  lemma ChangedShape(t: Tree, p: Path, d: MarkupDir, pending: Path)
    requires FilesClosed(t.files) && DirsClosed(t.dirs) && SubdirsKnown(t) && p in t.dirs && IsBelow(p, pending)
    requires FlagsSane(t.dirs) && AncestorsFlagged(t.dirs, Some(pending))
    requires d.subdirsLoaded == t.dirs[p].subdirsLoaded && d.entriesLoaded
    requires d.someSubdirNeedsSync == t.dirs[p].someSubdirNeedsSync
    ensures var t' := t.(dirs := t.dirs[p := d]);
            && FilesClosed(t'.files) && DirsClosed(t'.dirs) && SubdirsKnown(t')
            && FlagsSane(t'.dirs) && AncestorsFlagged(t'.dirs, Some(pending))
  {
  }

  lemma FlaggingIsUnseen(t: Tree, p: Path, pending: Path)
    requires Consistent(t, Some(pending)) && p in t.dirs && t.dirs[p].subdirsLoaded && IsBelow(p, pending)
    ensures Consistent(Flagged(t, p), Some(pending)) && SameAnswers(t, Flagged(t, p))
    ensures EntriesFit(t) ==> EntriesFit(Flagged(t, p))
  {
  }

  lemma SavingIsUnseen(t: Tree, p: Path, found: Entries)
    requires Consistent(t, None) && EntriesFit(t) && p in t.dirs && t.dirs[p].entriesLoaded
    requires CleanedAll(t.dirs[p].entries) == t.dirs[p].entries && Keeps(Useful(t.dirs[p].entries), found)
    requires p == [] || Parent(p) == [] || Parent(p) in t.files
    ensures var t' := Saved(t, p, found); Consistent(t', None) && SameAnswers(t, t') && EntriesFit(t')
  {
    var d := Saved(t, p, found).dirs[p];
    RecordKeepsShape(t, p, d);
    RecordKeepsFlags(t.dirs, p, d, None);
    FileKeepsShape(t.(dirs := t.dirs[p := d]), p, found);
    SavedEntriesAreInFile(t.dirs[p].entries, found);
    SavedAnswers(t, p, found);
  }

  lemma FileKeepsShape(t: Tree, p: Path, entries: Entries)
    requires FilesClosed(t.files) && SubdirsKnown(t) && p in t.dirs
    requires p == [] || Parent(p) == [] || Parent(p) in t.files
    ensures FilesClosed(t.files[p := entries]) && SubdirsKnown(t.(files := t.files[p := entries]))
  {
  }

  lemma SavedAnswers(t: Tree, p: Path, found: Entries)
    requires CleanAgrees(t) && EntriesFit(t) && p in t.dirs && t.dirs[p].entriesLoaded
    requires var useful := Useful(t.dirs[p].entries); AllShaped(useful) && AllLasting(found) && InFile(useful, found)
    ensures var t' := Saved(t, p, found); CleanAgrees(t') && SameAnswers(t, t') && EntriesFit(t')
  {
    UsefulSaysTheSame(t.dirs[p].entries);
    SavedLookups(t, p, found);
    SavedAgrees(t, p, found);
  }

  lemma UsefulSaysTheSame(entries: Entries)
    ensures forall n :: EntryIn(Useful(entries), n) == EntryIn(entries, n)
  {
  }

  lemma SavedLookups(t: Tree, p: Path, found: Entries)
    requires p in t.dirs && t.dirs[p].entriesLoaded
    requires forall n :: EntryIn(Useful(t.dirs[p].entries), n) == EntryIn(t.dirs[p].entries, n)
    ensures SameAnswers(t, Saved(t, p, found))
  {
  }

  lemma SavedAgrees(t: Tree, p: Path, found: Entries)
    requires CleanAgrees(t) && p in t.dirs && InFile(Useful(t.dirs[p].entries), found)
    ensures CleanAgrees(Saved(t, p, found))
  {
    var t' := Saved(t, p, found);
    forall q | q in t'.dirs && !t'.dirs[q].entriesNeedSave && q != p
      ensures t'.dirs[q].entriesLoaded ==> InFile(t'.dirs[q].entries, EntriesIn(t'.files, q))
    {
      assert EntriesIn(t'.files, q) == EntriesIn(t.files, q);
    }
  }

  lemma SavedEntriesAreInFile(entries: Entries, found: Entries)
    requires AllShaped(entries) && CleanedAll(entries) == entries && Keeps(Useful(entries), found)
    ensures AllShaped(Useful(entries)) && AllLasting(found) && InFile(Useful(entries), found)
  {
    var useful := Useful(entries);
    NoEntryLasts();
    forall n | n in useful
      ensures Cleaned(useful[n]) == useful[n] && (HasForm(useful[n]) ==> Lasting(FileForm(useful[n])))
    {
      assert CleanedAll(entries)[n] == useful[n];
      if HasForm(useful[n]) {
        FileFormLasts(useful[n]);
      }
    }
    GivesForms(In(useful), In(found));
    forall n | n in found
      ensures Lasting(found[n])
    {
      assert In(found)(n) == found[n] && In(useful)(n) == useful[n];
    }
  }

  /** A directory whose entries are written, or need not be: a sync drops nothing from it. */
  lemma NothingToClean(t: Tree, p: Path)
    requires CleanAgrees(t) && p in t.dirs && !t.dirs[p].entriesNeedSave
    ensures WithCleaned(t, p) == t
  {
    var entries := t.dirs[p].entries;
    if t.dirs[p].entriesLoaded {
      assert InFile(entries, EntriesIn(t.files, p));
      forall n | n in entries
        ensures CleanedAll(entries)[n] == entries[n]
      {
        assert EntryIn(entries, n) == entries[n];
      }
      assert CleanedAll(entries) == entries;
    }
  }

  lemma CleaningEntries(entries: Entries)
    requires AllShaped(entries)
    ensures AllShaped(CleanedAll(entries)) && CleanedAll(CleanedAll(entries)) == CleanedAll(entries)
    ensures forall n :: EntryIn(CleanedAll(entries), n) == Cleaned(EntryIn(entries, n))
    ensures forall n :: Cleaned(EntryIn(CleanedAll(entries), n)) == Cleaned(EntryIn(entries, n))
  {
    NoEntryLasts();
    forall n | n in entries
      ensures Shaped(Cleaned(entries[n])) && Cleaned(Cleaned(entries[n])) == Cleaned(entries[n])
    {
      CleanedIsShaped(entries[n]);
    }
    assert CleanedAll(CleanedAll(entries)) == CleanedAll(entries);
  }

  lemma CleaningIsUnseen(t: Tree, p: Path)
    requires Consistent(t, None) && EntriesFit(t) && p in t.dirs && t.dirs[p].entriesNeedSave
    ensures var t' := WithCleaned(t, p);
            && Consistent(t', None) && EntriesFit(t') && SameOnceCleaned(t, t')
            && CleanedAll(t'.dirs[p].entries) == t'.dirs[p].entries
  {
    var d := t.dirs[p].(entries := CleanedAll(t.dirs[p].entries));
    RecordKeepsShape(t, p, d);
    RecordKeepsFlags(t.dirs, p, d, None);
    CleaningEntries(t.dirs[p].entries);
    CleanedAnswers(t, p);
  }

  lemma CleanedAnswers(t: Tree, p: Path)
    requires CleanAgrees(t) && p in t.dirs && t.dirs[p].entriesNeedSave && t.dirs[p].entriesLoaded
    requires forall n :: Cleaned(EntryIn(CleanedAll(t.dirs[p].entries), n)) == Cleaned(EntryIn(t.dirs[p].entries, n))
    ensures CleanAgrees(WithCleaned(t, p)) && SameOnceCleaned(t, WithCleaned(t, p))
  {
  }

  lemma UnflaggingIsUnseen(t: Tree, p: Path)
    requires Consistent(t, None) && p in t.dirs
    requires forall c :: c in t.dirs && IsChild(c, p) ==> !t.dirs[c].NeedsSync()
    ensures Consistent(Unflagged(t, p), None) && SameAnswers(t, Unflagged(t, p))
    ensures EntriesFit(t) ==> EntriesFit(Unflagged(t, p))
  {
    UnflaggedParents(t, p);
    RecordKeepsShape(t, p, t.dirs[p].(someSubdirNeedsSync := false));
    UnflaggedAnswers(t, p);
  }

  lemma UnflaggedAnswers(t: Tree, p: Path)
    requires CleanAgrees(t) && FlagsSane(t.dirs) && p in t.dirs
    ensures CleanAgrees(Unflagged(t, p)) && FlagsSane(Unflagged(t, p).dirs) && SameAnswers(t, Unflagged(t, p))
    ensures EntriesFit(t) ==> EntriesFit(Unflagged(t, p))
  {
  }

  lemma UnflaggedParents(t: Tree, p: Path)
    requires AncestorsFlagged(t.dirs, None) && p in t.dirs
    requires forall c :: c in t.dirs && IsChild(c, p) ==> !t.dirs[c].NeedsSync()
    ensures AncestorsFlagged(Unflagged(t, p).dirs, None)
  {
    var dirs := Unflagged(t, p).dirs;
    forall q | q in dirs && q != [] && Parent(q) in dirs && dirs[q].NeedsSync()
      ensures dirs[Parent(q)].someSubdirNeedsSync
    {
      assert t.dirs[q].NeedsSync();
      assert !IsChild(q, p);
    }
  }

  /** delete_useless_subdirs takes this for useless. */
  predicate UselessIn(dirs: map<Path, MarkupDir>, c: Path) {
    && c in dirs && dirs[c].entriesLoaded && dirs[c].entries == map[]
    && dirs[c].subdirsLoaded && (forall d :: d in dirs ==> !IsChild(d, c))
  }

  predicate Useless(t: Tree, c: Path) {
    UselessIn(t.dirs, c)
  }

  /** Nothing stored and nothing loaded lies directly in a useless directory. */
  lemma NothingBelowUseless(t: Tree, c: Path)
    requires SubdirsKnown(t) && Useless(t, c)
    ensures forall d :: d in t.files ==> !IsChild(d, c)
  {
    forall d | d in t.files
      ensures !IsChild(d, c)
    {
      if d != [] && Parent(d) == c {
        assert d in t.dirs;
      }
    }
  }

  lemma DeletedStaysClosed(t: Tree, c: Path)
    requires FilesClosed(t.files) && DirsClosed(t.dirs) && SubdirsKnown(t) && c != [] && Useless(t, c)
    ensures FilesClosed(Deleted(t, c).files) && DirsClosed(Deleted(t, c).dirs) && SubdirsKnown(Deleted(t, c))
  {
    NothingBelowUseless(t, c);
    forall p | p in t.dirs.Keys + t.files.Keys && p != []
      ensures Parent(p) != c
    {
      assert !IsChild(p, c);
    }
  }

  lemma DeletedStaysFlagged(t: Tree, c: Path)
    requires FlagsSane(t.dirs) && AncestorsFlagged(t.dirs, None)
    ensures FlagsSane(Deleted(t, c).dirs) && AncestorsFlagged(Deleted(t, c).dirs, None)
  {
  }

  lemma DeletedIsUnseen(t: Tree, c: Path)
    requires CleanAgrees(t) && Useless(t, c)
    ensures CleanAgrees(Deleted(t, c)) && SameAnswers(t, Deleted(t, c))
  {
    forall p, n
      ensures Lookup(Deleted(t, c), p, n) == Lookup(t, p, n)
    {
    }
  }

  lemma DeletingTheUselessIsUnseen(t: Tree, c: Path)
    requires Consistent(t, None) && c != [] && Useless(t, c) && !t.dirs[c].NeedsSync()
    ensures Consistent(Deleted(t, c), None) && SameAnswers(t, Deleted(t, c))
    ensures EntriesFit(t) ==> EntriesFit(Deleted(t, c))
  {
    DeletedStaysClosed(t, c);
    DeletedStaysFlagged(t, c);
    DeletedIsUnseen(t, c);
  }

  lemma WhatWasSynced(before: Tree, synced: Tree, t': Tree)
    requires forall p, n :: Lookup(synced, p, n) == Cleaned(Lookup(before, p, n))
    requires forall p :: Gives(At(synced, p), At(t', p))
    ensures forall p :: Gives(CleanedAt(before, p), At(t', p))
  {
    forall p
      ensures Gives(CleanedAt(before, p), At(t', p))
    {
      GivesTheSame(At(synced, p), At(t', p), CleanedAt(before, p), At(t', p));
    }
  }

  ghost function At(t: Tree, p: Path): string -> MarkupEntry {
    n => Lookup(t, p, n)
  }

  ghost function CleanedAt(t: Tree, p: Path): string -> MarkupEntry {
    n => Cleaned(Lookup(t, p, n))
  }

  /** Once nothing needs a sync, the disk alone gives every answer, up to what the files cannot keep. */
  lemma DiskAnswersWhenClean(t: Tree)
    requires Consistent(t, None) && EntriesFit(t) && !t.dirs[[]].NeedsSync()
    ensures var t' := Tree(map[[] := BlankDir], t.files);
            && Consistent(t', None) && EntriesFit(t')
            && (forall p :: Gives(At(t, p), At(t', p)))
            && forall p, n :: Cleaned(Lookup(t, p, n)) == Lookup(t, p, n)
  {
    var t' := Tree(map[[] := BlankDir], t.files);
    NoEntryLasts();
    forall p, n
      ensures Cleaned(Lookup(t, p, n)) == Lookup(t, p, n)
    {
      if p in t.dirs && t.dirs[p].entriesLoaded {
        CleanBelow(t, [], p);
        assert InFile(t.dirs[p].entries, EntriesIn(t.files, p));
      } else {
        assert p in t.files ==> AllLasting(t.files[p]);
      }
    }
    forall p
      ensures Gives(At(t, p), At(t', p))
    {
      if p in t.dirs && t.dirs[p].entriesLoaded {
        CleanBelow(t, [], p);
        assert InFile(t.dirs[p].entries, EntriesIn(t.files, p));
        GivesTheSame(In(t.dirs[p].entries), In(EntriesIn(t.files, p)), At(t, p), At(t', p));
      } else {
        assert p in t.files ==> AllLasting(t.files[p]);
        FileIsInFile(EntriesIn(t.files, p));
        GivesTheSame(In(EntriesIn(t.files, p)), In(EntriesIn(t.files, p)), At(t, p), At(t', p));
      }
    }
  }

  // ----- directories on the file system, and what a sync may touch -----

  /** Data files lie in directories that exist, as do directories believed to exist. */
  ghost predicate FileSystemFits(t: Tree, fsDirs: set<Path>) {
    && [] in fsDirs
    && (forall p {:trigger Parent(p)} :: p in fsDirs && p != [] ==> Parent(p) in fsDirs)
    && (forall p :: p in t.files ==> p in fsDirs)
    && (forall p :: p in t.dirs && t.dirs[p].filesystemDirProbablyExists ==> p in fsDirs)
  }

  /** No path in memory or on disk is longer than depth. */
  ghost predicate Bounded(t: Tree, depth: nat) {
    forall p :: p in t.dirs || p in t.files ==> |p| <= depth
  }

  /** Only what lies at or below p changed, in a way no query can tell. */
  ghost predicate OnlyBelow(p: Path, t: Tree, fs: set<Path>, t': Tree, fs': set<Path>) {
    && SameOnceCleaned(t, t')
    && (forall q :: !IsBelow(p, q) ==> (q in t'.dirs <==> q in t.dirs) && (q in t.dirs ==> t'.dirs[q] == t.dirs[q]))
    && (forall q :: !IsBelow(p, q) ==>
          (q in t'.files <==> q in t.files) && (q in t.files ==> t'.files[q] == t.files[q]))
    && (forall q :: q in fs && (q == p || !IsBelow(p, q)) ==> q in fs')
  }

  ghost predicate Sound(t: Tree, fs: set<Path>, depth: nat) {
    Consistent(t, None) && EntriesFit(t) && FileSystemFits(t, fs) && Bounded(t, depth)
  }

  lemma OnlyBelowTransitive(p: Path, t0: Tree, fs0: set<Path>, t1: Tree, fs1: set<Path>, t2: Tree, fs2: set<Path>)
    requires OnlyBelow(p, t0, fs0, t1, fs1) && OnlyBelow(p, t1, fs1, t2, fs2)
    ensures OnlyBelow(p, t0, fs0, t2, fs2)
  {
    forall q, n
      ensures Cleaned(Lookup(t2, q, n)) == Cleaned(Lookup(t0, q, n))
    {
      assert Cleaned(Lookup(t1, q, n)) == Cleaned(Lookup(t0, q, n));
    }
  }

  lemma FourSteps(p: Path, t0: Tree, fs0: set<Path>, t1: Tree, fs1: set<Path>, t2: Tree, fs2: set<Path>,
                  t3: Tree, fs3: set<Path>, t4: Tree, fs4: set<Path>)
    requires OnlyBelow(p, t0, fs0, t1, fs1) && OnlyBelow(p, t1, fs1, t2, fs2)
    requires OnlyBelow(p, t2, fs2, t3, fs3) && OnlyBelow(p, t3, fs3, t4, fs4)
    ensures OnlyBelow(p, t0, fs0, t4, fs4)
  {
    OnlyBelowTransitive(p, t0, fs0, t1, fs1, t2, fs2);
    OnlyBelowTransitive(p, t0, fs0, t2, fs2, t3, fs3);
    OnlyBelowTransitive(p, t0, fs0, t3, fs3, t4, fs4);
  }

  lemma OnlyBelowChild(p: Path, c: Path, t: Tree, fs: set<Path>, t': Tree, fs': set<Path>)
    requires IsChild(c, p) && OnlyBelow(c, t, fs, t', fs')
    ensures OnlyBelow(p, t, fs, t', fs')
    ensures p in t.dirs ==> p in t'.dirs && t'.dirs[p] == t.dirs[p]
    ensures p in fs ==> p in fs'
  {
    PrefixOfParent(c, c);
    forall q
      ensures !IsBelow(p, q) ==> !IsBelow(c, q)
      ensures IsBelow(c, q) && q != c ==> IsBelow(p, q) && q != p
    {
      if IsBelow(c, q) {
        PrefixIsTransitive(p, c, q);
      }
    }
    assert !IsBelow(c, p);
  }

  lemma LoadingSubdirsFits(t: Tree, p: Path, fsDirs: set<Path>)
    requires FileSystemFits(t, fsDirs) && p in t.dirs
    ensures FileSystemFits(WithSubdirs(t, p), fsDirs)
    ensures forall depth :: Bounded(t, depth) ==> Bounded(WithSubdirs(t, p), depth)
  {
  }

  lemma LoadingEntriesFits(t: Tree, p: Path, fsDirs: set<Path>)
    requires FileSystemFits(t, fsDirs) && p in t.dirs
    ensures FileSystemFits(WithEntries(t, p), fsDirs)
    ensures forall depth :: Bounded(t, depth) ==> Bounded(WithEntries(t, p), depth)
  {
  }

  lemma NoChildBeforeLoading(t: Tree, p: Path)
    requires DirsClosed(t.dirs) && p in t.dirs
    ensures !t.dirs[p].subdirsLoaded ==> forall c :: c in t.dirs ==> !IsChild(c, p)
  {
  }

  lemma NoChildOfMissing(t: Tree, c: Path, pending: Path)
    requires Consistent(t, Some(pending)) && c !in t.dirs
    ensures forall d :: d in t.dirs ==> !IsChild(d, c)
  {
  }

  /** A directory created by the operation under way: nothing in it and nothing below it. */
  ghost predicate JustCreated(t: Tree, p: Path) {
    && p in t.dirs && t.dirs[p].entriesLoaded && t.dirs[p].entries == map[]
    && t.dirs[p].subdirsLoaded && forall c :: c in t.dirs ==> !IsChild(c, p)
  }

  ghost predicate SameEntries(dirs: map<Path, MarkupDir>, dirs': map<Path, MarkupDir>) {
    && dirs'.Keys == dirs.Keys
    && forall q :: q in dirs ==>
         dirs'[q].entries == dirs[q].entries && dirs'[q].entriesLoaded == dirs[q].entriesLoaded
  }

  lemma SameEntriesSameAnswers(t: Tree, t': Tree)
    requires SameEntries(t.dirs, t'.dirs) && t'.files == t.files
    ensures SameAnswers(t, t')
  {
  }

  lemma SameAnswersTransitive(t0: Tree, t1: Tree, t2: Tree)
    requires SameAnswers(t0, t1) && SameAnswers(t1, t2)
    ensures SameAnswers(t0, t2)
  {
    forall p, n
      ensures Lookup(t2, p, n) == Lookup(t0, p, n)
    {
      assert Lookup(t1, p, n) == Lookup(t0, p, n);
    }
  }

  /** The directories from iter down to p, p itself aside, are flagged. */
  ghost predicate FlaggedDownFrom(dirs: map<Path, MarkupDir>, iter: Path, p: Path) {
    forall q :: q in dirs && IsBelow(q, p) && |q| >= |iter| && q != p ==> dirs[q].someSubdirNeedsSync
  }

  lemma FlaggingFits(t: Tree, p: Path, fsDirs: set<Path>)
    requires FileSystemFits(t, fsDirs) && p in t.dirs
    ensures FileSystemFits(Flagged(t, p), fsDirs) && SameEntries(t.dirs, Flagged(t, p).dirs)
  {
  }

  lemma AllFlagged(t: Tree, p: Path)
    requires Consistent(t, Some(p)) && FlaggedDownFrom(t.dirs, [], p)
    ensures Consistent(t, None)
  {
    forall q {:trigger Parent(q)} | q in t.dirs && q != [] && IsBelow(q, p)
      ensures t.dirs[Parent(q)].someSubdirNeedsSync
    {
      PrefixIsTransitive(Parent(q), q, p);
    }
  }

  lemma FlaggedFurtherUp(dirs: map<Path, MarkupDir>, iter: Path, p: Path)
    requires DirsClosed(dirs) && iter in dirs && iter != [] && IsBelow(iter, p) && FlaggedDownFrom(dirs, iter, p)
    ensures var up := Parent(iter);
            && up in dirs && dirs[up].subdirsLoaded && IsBelow(up, p)
            && FlaggedDownFrom(dirs[up := dirs[up].(someSubdirNeedsSync := true)], up, p)
  {
    var up := Parent(iter);
    PrefixIsTransitive(up, iter, p);
    forall q | IsBelow(q, p) && |q| >= |up|
      ensures q == up || |q| >= |iter|
    {
      if |q| == |up| {
        PrefixesAreComparable(q, up, p);
      }
    }
  }

  /** Of all answers only the one for key changed, to this. */
  ghost predicate OnlyAnswer(t: Tree, t': Tree, key: Path, entry: MarkupEntry)
    requires key != []
  {
    forall q, n :: Lookup(t', q, n) == if q == Parent(key) && n == Last(key) then entry else Lookup(t, q, n)
  }

  // ----- the steps of a sync stay within the directory synced -----

  lemma SavingFits(t: Tree, p: Path, found: Entries, fs: set<Path>, depth: nat)
    requires p in t.dirs && Bounded(t, depth) && FileSystemFits(t, fs)
    requires p != [] ==> Parent(p) in fs
    ensures FileSystemFits(Saved(t, p, found), fs + {p}) && Bounded(Saved(t, p, found), depth)
  {
  }

  lemma SavedOnlyBelow(t: Tree, fs: set<Path>, p: Path, found: Entries)
    requires p in t.dirs && SameAnswers(t, Saved(t, p, found))
    ensures OnlyBelow(p, t, fs, Saved(t, p, found), fs + {p})
  {
    assert IsBelow(p, p);
  }

  lemma FlagClearMeansClean(t: Tree, p: Path)
    requires Consistent(t, None) && p in t.dirs && !t.dirs[p].someSubdirNeedsSync
    ensures forall c :: c in t.dirs && IsChild(c, p) ==> !t.dirs[c].NeedsSync()
  {
  }

  lemma UnflaggedOnlyBelow(t: Tree, fs: set<Path>, p: Path, depth: nat)
    requires Sound(t, fs, depth) && p in t.dirs
    requires forall c :: c in t.dirs && IsChild(c, p) ==> !t.dirs[c].NeedsSync()
    ensures Sound(Unflagged(t, p), fs, depth) && OnlyBelow(p, t, fs, Unflagged(t, p), fs)
  {
    UnflaggingIsUnseen(t, p);
    assert IsBelow(p, p);
  }

  function WithExisting(t: Tree, p: Path): Tree
    requires p in t.dirs
  {
    t.(dirs := t.dirs[p := t.dirs[p].(filesystemDirProbablyExists := true)])
  }

  lemma ExistingStaysConsistent(t: Tree, p: Path)
    requires Consistent(t, None) && EntriesFit(t) && p in t.dirs
    ensures Consistent(WithExisting(t, p), None) && EntriesFit(WithExisting(t, p)) && SameAnswers(t, WithExisting(t, p))
  {
    var d := t.dirs[p].(filesystemDirProbablyExists := true);
    RecordKeepsShape(t, p, d);
    RecordKeepsFlags(t.dirs, p, d, None);
    assert SameEntries(t.dirs, WithExisting(t, p).dirs);
    SameEntriesSameAnswers(t, WithExisting(t, p));
  }

  lemma ExistingFits(t: Tree, fs: set<Path>, p: Path, depth: nat)
    requires FileSystemFits(t, fs) && Bounded(t, depth) && p in t.dirs && (p == [] || Parent(p) in fs)
    ensures FileSystemFits(WithExisting(t, p), fs + {p}) && Bounded(WithExisting(t, p), depth)
  {
  }

  lemma ExistingOnlyBelow(t: Tree, fs: set<Path>, p: Path, depth: nat)
    requires Sound(t, fs, depth) && p in t.dirs && (p == [] || Parent(p) in fs)
    ensures var t' := WithExisting(t, p);
            && Sound(t', fs + {p}, depth) && OnlyBelow(p, t, fs, t', fs + {p})
            && SameRecord(p, t, t') && forall q :: q != p ==> SameAt(t, t', q)
  {
    ExistingStaysConsistent(t, p);
    ExistingFits(t, fs, p, depth);
    assert IsBelow(p, p);
  }

  lemma NothingOnlyBelow(t: Tree, fs: set<Path>, p: Path)
    requires p in t.dirs
    ensures OnlyBelow(p, t, fs, t, fs) && SameRecord(p, t, t) && forall q :: SameAt(t, t, q)
  {
  }

  lemma SiblingsApart(p: Path, c: Path)
    requires IsChild(c, p)
    ensures forall d :: IsChild(d, p) && d != c ==> !IsBelow(c, d)
  {
    forall d | IsChild(d, p) && IsBelow(c, d)
      ensures d == c
    {
      assert |c| == |d|;
    }
  }

  lemma DeletedOnlyBelow(t: Tree, fs: set<Path>, p: Path, c: Path, fs': set<Path>, depth: nat)
    requires Sound(t, fs, depth) && IsChild(c, p) && c in t.dirs && c != []
    requires SameAnswers(t, Deleted(t, c)) && Consistent(Deleted(t, c), None)
    requires fs' == fs || (fs' == fs - {c} && forall d :: d in fs' ==> !IsChild(d, c))
    ensures Sound(Deleted(t, c), fs', depth) && OnlyBelow(p, t, fs, Deleted(t, c), fs')
  {
    PrefixOfParent(p, c);
    assert IsBelow(p, Parent(c));
    assert p != c;
  }

  lemma LoadedOnlyBelow(t: Tree, fs: set<Path>, p: Path)
    requires p in t.dirs && SameAnswers(t, WithSubdirs(t, p))
    ensures OnlyBelow(p, t, fs, WithSubdirs(t, p), fs)
  {
    forall c | IsChild(c, p)
      ensures IsBelow(p, c)
    {
      PrefixOfParent(p, c);
    }
    assert IsBelow(p, p);
  }

  lemma LoadedSubdirsAreSound(t: Tree, fs: set<Path>, p: Path, depth: nat)
    requires Sound(t, fs, depth) && p in t.dirs && !t.dirs[p].NeedsSync()
    ensures var t' := WithSubdirs(t, p);
            Sound(t', fs, depth) && OnlyBelow(p, t, fs, t', fs) && p in t'.dirs && !t'.dirs[p].NeedsSync()
    ensures !t.dirs[p].subdirsLoaded ==> forall c :: c in t.dirs ==> !IsChild(c, p)
  {
    var t' := WithSubdirs(t, p);
    assert Sound(t', fs, depth) && SameAnswers(t, t') by {
      LoadingSubdirsIsUnseen(t, p, None);
      LoadingSubdirsFits(t, p, fs);
    }
    assert p in t'.dirs && !t'.dirs[p].NeedsSync() by {
      if !t.dirs[p].subdirsLoaded {
        SubdirsListed(t, p);
      }
    }
    LoadedOnlyBelow(t, fs, p);
    NoChildBeforeLoading(t, p);
  }

  ghost function Longest(paths: set<Path>): (n: nat)
    ensures forall p :: p in paths ==> |p| <= n
  {
    if paths == {} then 0
    else
      var p :| p in paths;
      var rest := Longest(paths - {p});
      if |p| > rest then |p| else rest
  }

  lemma ListedOneMore(marked: map<Path, MarkupDir>, names: set<Path>, c: Path, p: Path)
    ensures marked + Listed(names + {c}, p) ==
            if IsChild(c, p) then (marked + Listed(names, p))[c := BlankDir] else marked + Listed(names, p)
  {
  }

  function KidsOf(dirs: map<Path, MarkupDir>, p: Path): set<Path> {
    set c | c in dirs && IsChild(c, p)
  }

  lemma KidsKept(p: Path, c: Path, t: Tree, fs: set<Path>, t': Tree, fs': set<Path>)
    requires IsChild(c, p) && OnlyBelow(c, t, fs, t', fs') && c in t.dirs && c in t'.dirs
    ensures KidsOf(t'.dirs, p) == KidsOf(t.dirs, p)
    ensures forall d :: d in KidsOf(t.dirs, p) && d != c ==> t'.dirs[d] == t.dirs[d]
  {
    SiblingsApart(p, c);
  }

  // ----- what a sync empties, it deletes -----

  function EntriesAt(t: Tree, p: Path): Entries {
    if p in t.dirs && t.dirs[p].entriesLoaded then t.dirs[p].entries else EntriesIn(t.files, p)
  }

  /** A directory without entries, and without subdirectories in memory or on disk. */
  ghost predicate Empty(t: Tree, p: Path) {
    EntriesAt(t, p) == map[] && forall c :: IsChild(c, p) ==> c !in t.files && c !in t.dirs
  }

  /** A directory that holds something in memory. */
  ghost predicate Held(t: Tree, p: Path) {
    p in t.dirs && ((t.dirs[p].entriesLoaded && t.dirs[p].entries != map[]) || exists c :: c in t.dirs && IsChild(c, p))
  }

  /** An entry with neither a value nor parts of a schema nor the name of one. */
  predicate HoldsNothing(e: MarkupEntry) {
    e.value == None && e.localSchemas == [] && e.schemaName == None
  }

  /** One that was to be saved, and has no entries left but such as hold nothing. */
  ghost predicate LeftBare(t: Tree, t': Tree, p: Path) {
    && p in t.dirs && t.dirs[p].entriesNeedSave && p in t'.dirs
    && (forall n :: n in EntriesAt(t', p) ==> HoldsNothing(EntriesAt(t', p)[n]))
    && forall c :: IsChild(c, p) ==> c !in t'.files && c !in t'.dirs
  }

  ghost predicate Emptied(t: Tree, t': Tree, p: Path) {
    Held(t, p) && p in t'.dirs && (Empty(t', p) || LeftBare(t, t', p))
  }

  /** Below c nothing was emptied and left; c itself, if it was emptied, is known to be useless. */
  ghost predicate Done(c: Path, t: Tree, t': Tree) {
    && (forall q :: IsBelow(c, q) && q != c ==> !Emptied(t, t', q))
    && (Emptied(t, t', c) ==> Useless(t', c))
  }

  ghost predicate SameAt(t: Tree, t': Tree, q: Path) {
    && (q in t'.dirs <==> q in t.dirs) && (q in t.dirs ==> t'.dirs[q] == t.dirs[q])
    && (q in t'.files <==> q in t.files) && (q in t.files ==> t'.files[q] == t.files[q])
  }

  ghost predicate Untouched(c: Path, t: Tree, t': Tree) {
    forall q :: IsBelow(c, q) ==> SameAt(t, t', q)
  }

  lemma ChildStaysBelow(c: Path, q: Path)
    requires IsBelow(c, q)
    ensures forall d :: IsChild(d, q) ==> IsBelow(c, d)
  {
    forall d | IsChild(d, q)
      ensures IsBelow(c, d)
    {
      PrefixOfParent(c, d);
    }
  }

  /** What happened elsewhere does not change what is empty, held or useless here. */
  lemma UntouchedAt(c: Path, t: Tree, t': Tree, q: Path)
    requires Untouched(c, t, t') && IsBelow(c, q)
    ensures Empty(t', q) == Empty(t, q) && Held(t', q) == Held(t, q) && (q in t'.dirs <==> q in t.dirs)
    ensures Useless(t', q) == Useless(t, q)
  {
    ChildStaysBelow(c, q);
    assert SameAt(t, t', q);
    assert forall d :: IsChild(d, q) ==> SameAt(t, t', d);
  }

  /** Nothing at or below c is to be saved. */
  ghost predicate SavedBelow(c: Path, t: Tree) {
    forall q :: IsBelow(c, q) && q in t.dirs ==> !t.dirs[q].entriesNeedSave
  }

  lemma {:induction false} CleanBelow(t: Tree, c: Path, q: Path)
    requires Consistent(t, None) && c in t.dirs && !t.dirs[c].NeedsSync() && IsBelow(c, q) && q in t.dirs
    ensures !t.dirs[q].NeedsSync()
    decreases |q|
  {
    if q != c {
      PrefixOfParent(c, q);
      CleanBelow(t, c, Parent(q));
    }
  }

  lemma CleanIsSavedBelow(t: Tree, c: Path)
    requires Consistent(t, None) && c in t.dirs && !t.dirs[c].NeedsSync()
    ensures SavedBelow(c, t)
  {
    forall q | IsBelow(c, q) && q in t.dirs
      ensures !t.dirs[q].entriesNeedSave
    {
      CleanBelow(t, c, q);
    }
  }

  lemma UntouchedIsDone(c: Path, t: Tree, t': Tree)
    requires Untouched(c, t, t') && SavedBelow(c, t')
    ensures Done(c, t, t')
  {
    forall q | IsBelow(c, q)
      ensures !Emptied(t, t', q)
    {
      UntouchedAt(c, t, t', q);
      assert SameAt(t, t', q);
    }
    assert IsBelow(c, c);
  }

  lemma UntouchedThenDone(c: Path, t0: Tree, t1: Tree, t2: Tree)
    requires Untouched(c, t0, t1) && Done(c, t1, t2)
    ensures Done(c, t0, t2)
  {
    forall q | IsBelow(c, q)
      ensures Emptied(t0, t2, q) == Emptied(t1, t2, q)
    {
      UntouchedAt(c, t0, t1, q);
      assert SameAt(t0, t1, q);
    }
    assert IsBelow(c, c);
  }

  lemma DoneThenUntouched(c: Path, t0: Tree, t1: Tree, t2: Tree)
    requires Done(c, t0, t1) && Untouched(c, t1, t2)
    ensures Done(c, t0, t2)
  {
    forall q | IsBelow(c, q)
      ensures Emptied(t0, t2, q) == Emptied(t0, t1, q)
    {
      UntouchedAt(c, t1, t2, q);
      ChildStaysBelow(c, q);
      assert SameAt(t1, t2, q) && forall d :: IsChild(d, q) ==> SameAt(t1, t2, d);
    }
    assert IsBelow(c, c);
    UntouchedAt(c, t1, t2, c);
  }

  lemma UntouchedTwice(c: Path, t0: Tree, t1: Tree, t2: Tree)
    requires Untouched(c, t0, t1) && Untouched(c, t1, t2)
    ensures Untouched(c, t0, t2)
  {
    forall q | IsBelow(c, q)
      ensures SameAt(t0, t2, q)
    {
      assert SameAt(t0, t1, q) && SameAt(t1, t2, q);
    }
  }

  lemma SiblingUntouched(p: Path, c: Path, d: Path, t: Tree, fs: set<Path>, t': Tree, fs': set<Path>)
    requires IsChild(c, p) && IsChild(d, p) && c != d && OnlyBelow(d, t, fs, t', fs')
    ensures Untouched(c, t, t')
  {
    forall q | IsBelow(c, q)
      ensures SameAt(t, t', q)
    {
      if IsBelow(d, q) {
        PrefixesAreComparable(c, d, q);
        SiblingsApart(p, c);
        SiblingsApart(p, d);
      }
      assert !IsBelow(d, q);
    }
  }

  /** The record of p itself may change, what lies below does not. */
  lemma BelowUntouched(p: Path, c: Path, t: Tree, t': Tree)
    requires IsChild(c, p) && forall q :: q != p ==> SameAt(t, t', q)
    ensures Untouched(c, t, t')
  {
    forall q | IsBelow(c, q)
      ensures SameAt(t, t', q)
    {
      assert |q| >= |c| > |p|;
    }
  }

  /** What p itself has loaded is as before. */
  ghost predicate SameRecord(p: Path, t: Tree, t': Tree) {
    && p in t.dirs && p in t'.dirs && t'.dirs[p].entries == t.dirs[p].entries
    && t'.dirs[p].entriesLoaded == t.dirs[p].entriesLoaded && t'.dirs[p].subdirsLoaded == t.dirs[p].subdirsLoaded
    && (p in t'.files <==> p in t.files) && (p in t.files ==> t'.files[p] == t.files[p])
  }

  /** The subdirectories of p outside todo are done, those in it untouched. */
  ghost predicate KidsDone(p: Path, t: Tree, t': Tree, todo: set<Path>) {
    && SameRecord(p, t, t') && KidsOf(t'.dirs, p) == KidsOf(t.dirs, p)
    && forall c :: c in KidsOf(t.dirs, p) ==> if c in todo then Untouched(c, t, t') else Done(c, t, t')
  }

  /** One subdirectory was synced, the others were not touched. */
  ghost predicate OneKidSynced(p: Path, c: Path, t: Tree, t': Tree) {
    && SameRecord(p, t, t') && KidsOf(t'.dirs, p) == KidsOf(t.dirs, p) && Done(c, t, t')
    && forall d :: d in KidsOf(t.dirs, p) && d != c ==> Untouched(d, t, t') && d in t'.dirs && t'.dirs[d] == t.dirs[d]
  }

  lemma KidSynced(p: Path, c: Path, t0: Tree, t1: Tree, fs1: set<Path>, t2: Tree, fs2: set<Path>)
    requires c in KidsOf(t0.dirs, p) && SameRecord(p, t0, t1) && forall q :: q != p ==> SameAt(t0, t1, q)
    requires OnlyBelow(c, t1, fs1, t2, fs2) && c in t2.dirs && Done(c, t1, t2)
    ensures OneKidSynced(p, c, t0, t2) && (forall d :: d in KidsOf(t0.dirs, p) && d != c ==> t2.dirs[d] == t0.dirs[d])
  {
    NotOwnChild(p);
    NoKidTouched(p, t0, t1);
    KidsKept(p, c, t1, fs1, t2, fs2);
    BelowUntouched(p, c, t0, t1);
    UntouchedThenDone(c, t0, t1, t2);
    forall d | d in KidsOf(t0.dirs, p) && d != c
      ensures Untouched(d, t0, t2) && t2.dirs[d] == t0.dirs[d]
    {
      BelowUntouched(p, d, t0, t1);
      SiblingUntouched(p, d, c, t1, fs1, t2, fs2);
      UntouchedTwice(d, t0, t1, t2);
      assert IsBelow(d, d) && SameAt(t0, t2, d);
    }
    PrefixOfParent(p, c);
    assert !IsBelow(c, p);
  }

  lemma OneMoreKidDone(p: Path, c: Path, t0: Tree, t1: Tree, t2: Tree, todo: set<Path>)
    requires KidsDone(p, t0, t1, todo + {c}) && OneKidSynced(p, c, t1, t2) && c in KidsOf(t0.dirs, p) && c !in todo
    ensures KidsDone(p, t0, t2, todo)
  {
    forall d | d in KidsOf(t0.dirs, p)
      ensures if d in todo then Untouched(d, t0, t2) else Done(d, t0, t2)
    {
      if d == c {
        UntouchedThenDone(c, t0, t1, t2);
      } else if d in todo {
        UntouchedTwice(d, t0, t1, t2);
      } else {
        DoneThenUntouched(d, t0, t1, t2);
      }
    }
  }

  lemma CleanKidIsDone(p: Path, c: Path, t0: Tree, t1: Tree, todo: set<Path>)
    requires KidsDone(p, t0, t1, todo + {c}) && c !in todo && SavedBelow(c, t1)
    ensures KidsDone(p, t0, t1, todo)
  {
    if c in KidsOf(t0.dirs, p) {
      UntouchedIsDone(c, t0, t1);
    }
  }

  lemma NoKidTouched(p: Path, t: Tree, t': Tree)
    requires p in t.dirs && SameRecord(p, t, t') && forall q :: q != p ==> SameAt(t, t', q)
    ensures KidsDone(p, t, t', KidsOf(t.dirs, p))
  {
    NotOwnChild(p);
    assert forall c :: c in t'.dirs && IsChild(c, p) ==> SameAt(t, t', c);
    assert forall c :: c in t.dirs && IsChild(c, p) ==> SameAt(t, t', c);
    forall c | c in KidsOf(t.dirs, p)
      ensures Untouched(c, t, t')
    {
      BelowUntouched(p, c, t, t');
    }
  }

  lemma CleanKidsAreDone(p: Path, t: Tree)
    requires Consistent(t, None) && p in t.dirs && forall c :: c in KidsOf(t.dirs, p) ==> !t.dirs[c].NeedsSync()
    ensures KidsDone(p, t, t, {})
  {
    forall c | c in KidsOf(t.dirs, p)
      ensures Done(c, t, t)
    {
      CleanIsSavedBelow(t, c);
      UntouchedIsDone(c, t, t);
    }
  }

  /** In the middle of syncing the subdirectories of p, from t0 to t: those outside todo need no sync any more. */
  ghost predicate SyncingKids(p: Path, t0: Tree, fs0: set<Path>, t: Tree, fs: set<Path>, todo: set<Path>, depth: nat) {
    && KidsDone(p, t0, t, todo) && Sound(t, fs, depth) && OnlyBelow(p, t0, fs0, t, fs)
    && todo <= KidsOf(t.dirs, p) && !t.dirs[p].entriesNeedSave
    && forall c :: c in KidsOf(t.dirs, p) && c !in todo ==> !t.dirs[c].NeedsSync()
  }

  lemma KidsBegin(p: Path, t: Tree, fs: set<Path>, depth: nat)
    requires Sound(t, fs, depth) && p in t.dirs && !t.dirs[p].entriesNeedSave
    ensures SyncingKids(p, t, fs, t, fs, KidsOf(t.dirs, p), depth)
  {
    NoKidTouched(p, t, t);
  }

  lemma StillOnDisk(p: Path, t0: Tree, fs0: set<Path>, t: Tree, fs: set<Path>, todo: set<Path>, c: Path, depth: nat)
    requires SyncingKids(p, t0, fs0, t, fs, todo, depth) && c in todo && (p != [] ==> Parent(p) in fs0)
    ensures c in t.dirs && IsChild(c, p) && p in t.dirs && (p != [] ==> Parent(p) in fs)
  {
    if p != [] {
      assert !IsBelow(p, Parent(p));
    }
  }

  lemma KidsGoOn(p: Path, t0: Tree, fs0: set<Path>, t1: Tree, fs1: set<Path>, t2: Tree, fs2: set<Path>,
                 todo: set<Path>, c: Path, depth: nat)
    requires SyncingKids(p, t0, fs0, t1, fs1, todo, depth) && c in todo
    requires Sound(t2, fs2, depth) && OnlyBelow(p, t1, fs1, t2, fs2) && OneKidSynced(p, c, t1, t2)
    requires p in t2.dirs && !t2.dirs[p].entriesNeedSave && c in t2.dirs && !t2.dirs[c].NeedsSync()
    ensures SyncingKids(p, t0, fs0, t2, fs2, todo - {c}, depth)
  {
    assert todo - {c} + {c} == todo;
    OnlyBelowTransitive(p, t0, fs0, t1, fs1, t2, fs2);
    OneMoreKidDone(p, c, t0, t1, t2, todo - {c});
  }

  lemma KidPassedOver(p: Path, t0: Tree, fs0: set<Path>, t: Tree, fs: set<Path>, todo: set<Path>, c: Path, depth: nat)
    requires SyncingKids(p, t0, fs0, t, fs, todo, depth) && c in todo && !t.dirs[c].NeedsSync()
    ensures SyncingKids(p, t0, fs0, t, fs, todo - {c}, depth)
  {
    assert todo - {c} + {c} == todo;
    CleanIsSavedBelow(t, c);
    CleanKidIsDone(p, c, t0, t, todo - {c});
  }

  lemma UnflagTouchesNoKid(p: Path, t: Tree)
    requires p in t.dirs
    ensures KidsDone(p, t, Unflagged(t, p), KidsOf(t.dirs, p))
  {
    NoKidTouched(p, t, Unflagged(t, p));
  }

  lemma NotOwnChild(p: Path)
    ensures !IsChild(p, p)
  {
  }

  lemma KidsDoneThenNoneTouched(p: Path, t0: Tree, t1: Tree, t2: Tree)
    requires KidsDone(p, t0, t1, {}) && KidsDone(p, t1, t2, KidsOf(t1.dirs, p))
    ensures KidsDone(p, t0, t2, {})
  {
    forall c | c in KidsOf(t0.dirs, p)
      ensures Done(c, t0, t2)
    {
      DoneThenUntouched(c, t0, t1, t2);
    }
  }

  /** Of the subdirectories of p exactly the useless ones outside todo are gone, from memory and disk. */
  ghost predicate PrunedKids(p: Path, t: Tree, t': Tree, todo: set<Path>) {
    && SameRecord(p, t, t')
    && (forall c :: c in KidsOf(t'.dirs, p) <==> c in KidsOf(t.dirs, p) && (c in todo || !Useless(t, c)))
    && (forall c :: c in KidsOf(t'.dirs, p) ==> Untouched(c, t, t'))
    && (forall c :: c in KidsOf(t.dirs, p) && c !in KidsOf(t'.dirs, p) ==> c !in t'.files)
  }

  lemma NothingPruned(p: Path, t: Tree)
    requires p in t.dirs
    ensures PrunedKids(p, t, t, KidsOf(t.dirs, p))
    ensures !t.dirs[p].NeedsSync() && (forall c :: c in t.dirs && IsChild(c, p) ==> !t.dirs[c].NeedsSync()) ==>
              Pruning(p, t, t, KidsOf(t.dirs, p), false)
  {
  }

  lemma OneMorePruned(p: Path, c: Path, t0: Tree, t1: Tree, todo: set<Path>)
    requires PrunedKids(p, t0, t1, todo + {c}) && c !in todo && c in KidsOf(t0.dirs, p)
    ensures Useless(t1, c) == Useless(t0, c)
    ensures PrunedKids(p, t0, if Useless(t1, c) then Deleted(t1, c) else t1, todo)
  {
    assert c in KidsOf(t1.dirs, p) && IsBelow(c, c);
    UntouchedAt(c, t0, t1, c);
    var t2 := Deleted(t1, c);
    NotOwnChild(p);
    forall d | d in KidsOf(t2.dirs, p)
      ensures Untouched(d, t0, t2)
    {
      DeletedSibling(p, c, d, t1);
      UntouchedTwice(d, t0, t1, t2);
    }
  }

  lemma DeletedSibling(p: Path, c: Path, d: Path, t: Tree)
    requires IsChild(c, p) && IsChild(d, p) && c != d
    ensures Untouched(d, t, Deleted(t, c))
  {
    forall q | IsBelow(d, q)
      ensures SameAt(t, Deleted(t, c), q)
    {
      SiblingsApart(p, d);
      assert q != c;
    }
  }

  /** In the middle of that pruning: nothing here needs a sync, and someDeleted says whether anything is gone. */
  ghost predicate Pruning(p: Path, t: Tree, t': Tree, todo: set<Path>, someDeleted: bool) {
    && PrunedKids(p, t, t', todo) && todo <= KidsOf(t.dirs, p)
    && (someDeleted <==> KidsOf(t'.dirs, p) != KidsOf(t.dirs, p))
    && !t'.dirs[p].NeedsSync() && forall c :: c in KidsOf(t'.dirs, p) ==> !t'.dirs[c].NeedsSync()
  }

  lemma PruningStep(p: Path, c: Path, t0: Tree, t: Tree, todo: set<Path>, someDeleted: bool)
    requires Pruning(p, t0, t, todo, someDeleted) && c in todo
    ensures c in KidsOf(t.dirs, p) && !t.dirs[c].NeedsSync()
    ensures Pruning(p, t0, if Useless(t, c) then Deleted(t, c) else t, todo - {c}, someDeleted || Useless(t, c))
  {
    assert todo - {c} + {c} == todo;
    OneMorePruned(p, c, t0, t, todo - {c});
    NotOwnChild(p);
    var t' := Deleted(t, c);
    assert c !in KidsOf(t'.dirs, p) && forall d :: d in KidsOf(t'.dirs, p) ==> d in KidsOf(t.dirs, p);
  }

  /** More of p may be loaded than before; what it holds is the same. */
  ghost predicate LoadedMore(p: Path, t: Tree, t': Tree) {
    && p in t.dirs && p in t'.dirs && t'.files == t.files
    && (t.dirs[p].entriesLoaded ==> t'.dirs[p].entriesLoaded) && (t.dirs[p].subdirsLoaded ==> t'.dirs[p].subdirsLoaded)
    && EntriesAt(t', p) == EntriesAt(t, p)
    && (forall c :: c in KidsOf(t.dirs, p) ==> c in KidsOf(t'.dirs, p) && Untouched(c, t, t'))
    && (forall c :: c in KidsOf(t'.dirs, p) && c !in KidsOf(t.dirs, p) ==> c in t.files)
  }

  lemma LoadedNoMore(p: Path, t: Tree)
    requires p in t.dirs
    ensures LoadedMore(p, t, t)
  {
  }

  lemma LoadedMoreTwice(p: Path, t0: Tree, t1: Tree, t2: Tree)
    requires LoadedMore(p, t0, t1) && LoadedMore(p, t1, t2)
    ensures LoadedMore(p, t0, t2)
  {
    forall c | c in KidsOf(t0.dirs, p)
      ensures Untouched(c, t0, t2)
    {
      UntouchedTwice(c, t0, t1, t2);
    }
  }

  lemma EntriesAreMore(p: Path, t: Tree)
    requires p in t.dirs
    ensures LoadedMore(p, t, WithEntries(t, p))
  {
    var t' := WithEntries(t, p);
    NotOwnChild(p);
    forall c | c in KidsOf(t.dirs, p)
      ensures Untouched(c, t, t')
    {
      BelowUntouched(p, c, t, t');
    }
  }

  lemma SubdirsAreMore(p: Path, t: Tree)
    requires DirsClosed(t.dirs) && p in t.dirs
    ensures LoadedMore(p, t, WithSubdirs(t, p)) && WithSubdirs(t, p).dirs[p].subdirsLoaded
  {
    if !t.dirs[p].subdirsLoaded {
      SubdirsListed(t, p);
      NoneListedYet(t.dirs, p);
    }
  }

  /** p's entries were saved, the useless among them dropped. */
  ghost predicate EntriesSaved(p: Path, t: Tree, t': Tree, someUseless: bool) {
    && p in t.dirs && p in t'.dirs && (forall q :: q != p ==> SameAt(t, t', q))
    && t'.dirs[p].entriesLoaded == t.dirs[p].entriesLoaded && t'.dirs[p].subdirsLoaded == t.dirs[p].subdirsLoaded
    && t.dirs[p].entriesLoaded && t'.dirs[p].entries == Useful(t.dirs[p].entries)
    && (someUseless <==> t'.dirs[p].entries.Keys != t.dirs[p].entries.Keys)
  }

  lemma SavedEntries(t: Tree, p: Path, found: Entries)
    requires p in t.dirs && t.dirs[p].entriesLoaded
    ensures EntriesSaved(p, t, Saved(t, p, found), Useful(t.dirs[p].entries).Keys != t.dirs[p].entries.Keys)
  {
  }

  lemma CleanedOnlyBelow(t: Tree, fs: set<Path>, p: Path, depth: nat)
    requires Sound(t, fs, depth) && p in t.dirs && t.dirs[p].entriesNeedSave
    ensures var t' := WithCleaned(t, p); Sound(t', fs, depth) && OnlyBelow(p, t, fs, t', fs)
  {
    CleaningIsUnseen(t, p);
    assert IsBelow(p, p);
  }

  lemma CleanedStaysSound(t: Tree, fs: set<Path>, p: Path, depth: nat)
    requires Sound(t, fs, depth) && p in t.dirs
    ensures var t' := WithCleaned(t, p);
            && Sound(t', fs, depth) && OnlyBelow(p, t, fs, t', fs)
            && (t'.dirs[p].entriesNeedSave ==> CleanedAll(t'.dirs[p].entries) == t'.dirs[p].entries)
  {
    if t.dirs[p].entriesNeedSave {
      CleanedOnlyBelow(t, fs, p, depth);
      CleaningIsUnseen(t, p);
    } else {
      NothingToClean(t, p);
      assert OnlyBelow(p, t, fs, t, fs);
    }
  }

  /** Cleaning entries leaves as many. */
  lemma CleanedThenDone(p: Path, t0: Tree, t1: Tree)
    requires p in t0.dirs && Done(p, WithCleaned(t0, p), t1)
    ensures Done(p, t0, t1)
  {
    var t := WithCleaned(t0, p);
    assert t.dirs[p].entries.Keys == t0.dirs[p].entries.Keys;
    forall q
      ensures Held(t, q) == Held(t0, q)
    {
      assert forall c :: c in t.dirs <==> c in t0.dirs;
    }
  }

  /** The four parts of a sync of p, from t0 to t4. */
  ghost predicate SyncedInParts(p: Path, t0: Tree, t1: Tree, t2: Tree, t3: Tree, t4: Tree, someE: bool, someS: bool) {
    && (EntriesSaved(p, t0, t1, someE) || (t1 == t0 && p in t0.dirs && !t0.dirs[p].entriesNeedSave && !someE))
    && KidsDone(p, t1, t2, {})
    && PrunedKids(p, t2, t3, {}) && (someS <==> KidsOf(t3.dirs, p) != KidsOf(t2.dirs, p))
    && LoadedMore(p, t3, t4)
    && (someE ==> t4.dirs[p].subdirsLoaded) && (someS ==> t4.dirs[p].entriesLoaded)
  }

  /** A subdirectory there after all four parts that was there before was neither useless nor emptied below. */
  lemma KidThroughParts(p: Path, c: Path, t0: Tree, t1: Tree, t2: Tree, t3: Tree, t4: Tree, someE: bool, someS: bool)
    requires SyncedInParts(p, t0, t1, t2, t3, t4, someE, someS)
    requires c in KidsOf(t0.dirs, p) && c in KidsOf(t4.dirs, p)
    ensures Done(c, t0, t4) && !Useless(t4, c)
  {
    NotOwnChild(p);
    BelowUntouched(p, c, t0, t1);
    assert IsBelow(c, c) && SameAt(t0, t1, c);
    UntouchedThenDone(c, t0, t1, t2);
    assert c in KidsOf(t2.dirs, p);
    assert c in KidsOf(t3.dirs, p);
    DoneThenUntouched(c, t0, t2, t3);
    DoneThenUntouched(c, t0, t3, t4);
    UntouchedAt(c, t2, t3, c);
    UntouchedAt(c, t3, t4, c);
  }

  /** The subdirectory of p that q lies in. */
  function KidTowards(p: Path, q: Path): Path
    requires IsBelow(p, q) && q != p
  {
    q[..|p| + 1]
  }

  lemma KidTowardsIsKid(p: Path, q: Path)
    requires IsBelow(p, q) && q != p
    ensures IsChild(KidTowards(p, q), p) && IsBelow(KidTowards(p, q), q)
  {
    assert |q| == |p| ==> q == p;
    var c := KidTowards(p, q);
    assert Parent(c) == q[..|p|] == p;
  }

  lemma NothingBelowEmptied(p: Path, q: Path, t0: Tree, t1: Tree, t2: Tree, t3: Tree, t4: Tree,
                            someE: bool, someS: bool)
    requires SyncedInParts(p, t0, t1, t2, t3, t4, someE, someS) && DirsClosed(t0.dirs) && DirsClosed(t4.dirs)
    requires IsBelow(p, q) && q != p
    ensures !Emptied(t0, t4, q)
  {
    if q in t0.dirs && q in t4.dirs {
      var c := KidTowards(p, q);
      KidTowardsIsKid(p, q);
      AncestorHasDir(t0.dirs, c, q);
      AncestorHasDir(t4.dirs, c, q);
      KidThroughParts(p, c, t0, t1, t2, t3, t4, someE, someS);
    }
  }

  /** If p itself lost what it held, everything of it has been loaded by now, so that its parent can tell. */
  lemma EmptiedIsUseless(p: Path, t0: Tree, t1: Tree, t2: Tree, t3: Tree, t4: Tree, someE: bool, someS: bool)
    requires SyncedInParts(p, t0, t1, t2, t3, t4, someE, someS) && DirsClosed(t0.dirs)
    requires Emptied(t0, t4, p)
    ensures Useless(t4, p)
  {
    NotOwnChild(p);
    if c :| c in t0.dirs && IsChild(c, p) {
      assert SameAt(t0, t1, c);
      assert c in KidsOf(t2.dirs, p) && c !in t4.dirs;
      assert c !in KidsOf(t3.dirs, p);
      assert t0.dirs[p].subdirsLoaded;
    }
  }

  lemma SyncIsDone(p: Path, t0: Tree, t1: Tree, t2: Tree, t3: Tree, t4: Tree, someE: bool, someS: bool)
    requires SyncedInParts(p, t0, t1, t2, t3, t4, someE, someS) && DirsClosed(t0.dirs) && DirsClosed(t4.dirs)
    ensures Done(p, t0, t4)
  {
    forall q | IsBelow(p, q) && q != p
      ensures !Emptied(t0, t4, q)
    {
      NothingBelowEmptied(p, q, t0, t1, t2, t3, t4, someE, someS);
    }
    if Emptied(t0, t4, p) {
      EmptiedIsUseless(p, t0, t1, t2, t3, t4, someE, someS);
    }
  }

  /** p's entries were cleaned and, if they needed it, saved. */
  ghost predicate OwnPartDone(p: Path, t: Tree, t': Tree, someUseless: bool) {
    && p in t.dirs
    && (|| EntriesSaved(p, WithCleaned(t, p), t', someUseless)
        || (t' == WithCleaned(t, p) && !t.dirs[p].entriesNeedSave && !someUseless))
  }

  lemma AllPartsDone(p: Path, t0: Tree, t1: Tree, t2: Tree, t3: Tree, t4: Tree, someE: bool, someS: bool)
    requires DirsClosed(t0.dirs) && DirsClosed(t4.dirs) && OwnPartDone(p, t0, t1, someE) && KidsDone(p, t1, t2, {})
    requires PrunedKids(p, t2, t3, {}) && (someS <==> KidsOf(t3.dirs, p) != KidsOf(t2.dirs, p))
    requires LoadedMore(p, t3, t4)
    requires (someE ==> t4.dirs[p].subdirsLoaded) && (someS ==> t4.dirs[p].entriesLoaded)
    ensures Done(p, t0, t4)
  {
    SyncIsDone(p, WithCleaned(t0, p), t1, t2, t3, t4, someE, someS);
    CleanedThenDone(p, t0, t4);
  }

  /** What the data files give. */
  ghost function Parsed(disk: map<Path, seq<MarkupFiles.Event>>): (files: map<Path, Entries>)
    ensures files.Keys == disk.Keys
  {
    map p | p in disk :: Decoded(disk[p])
  }

  lemma ParsedOneMore(disk: map<Path, seq<MarkupFiles.Event>>, p: Path, file: seq<MarkupFiles.Event>)
    ensures Parsed(disk[p := file]) == Parsed(disk)[p := Decoded(file)]
  {
  }

  lemma NothingReadYet(disk: map<Path, seq<MarkupFiles.Event>>, fsDirs: set<Path>)
    requires FilesClosed(Parsed(disk)) && FileSystemFits(Tree(map[], Parsed(disk)), fsDirs)
    requires forall p :: p in disk ==> Sane(disk[p])
    ensures var t := Tree(map[[] := BlankDir], Parsed(disk));
            Consistent(t, None) && EntriesFit(t) && FileSystemFits(t, fsDirs)
  {
    forall p | p in disk
      ensures AllLasting(Decoded(disk[p]))
    {
      SaneLasts(disk[p]);
    }
  }

  /** In the middle of flagging what lies above p, with the directories from iter down done. */
  ghost predicate Flagging(t0: Tree, t: Tree, iter: Path, p: Path, fs: set<Path>) {
    && OnTheWay(t, p, fs) && IsBelow(iter, p) && iter in t.dirs && FlaggedDownFrom(t.dirs, iter, p)
    && SameEntries(t0.dirs, t.dirs) && t.files == t0.files
  }

  lemma FlaggingGoesOn(t0: Tree, t: Tree, iter: Path, p: Path, fs: set<Path>)
    requires Flagging(t0, t, iter, p, fs) && iter != []
    ensures Parent(iter) in t.dirs && Flagging(t0, Flagged(t, Parent(iter)), Parent(iter), p, fs)
  {
    FlaggedFurtherUp(t.dirs, iter, p);
    FlaggingIsUnseen(t, Parent(iter), p);
    FlaggingFits(t, Parent(iter), fs);
  }

  /** On the way to pending: consistent but for flags that wait until the entry is there. */
  ghost predicate OnTheWay(t: Tree, pending: Path, fs: set<Path>) {
    Consistent(t, Some(pending)) && EntriesFit(t) && FileSystemFits(t, fs)
  }

  lemma SubdirsReady(t: Tree, dir: Path, sub: Path, pending: Path, fs: set<Path>)
    requires OnTheWay(t, pending, fs) && dir in t.dirs && (Consistent(t, None) || JustCreated(t, dir))
    ensures var t' := WithSubdirs(t, dir);
            && OnTheWay(t', pending, fs) && SameAnswers(t, t') && dir in t'.dirs && t'.dirs[dir].subdirsLoaded
            && (Consistent(t', None) || (t' == t && JustCreated(t, dir)))
    ensures !t.dirs[dir].subdirsLoaded ==> forall c :: c in t.dirs ==> !IsChild(c, dir)
  {
    LoadingSubdirsIsUnseen(t, dir, Some(pending));
    if Consistent(t, None) {
      LoadingSubdirsIsUnseen(t, dir, None);
    }
    LoadingSubdirsFits(t, dir, fs);
    NoChildBeforeLoading(t, dir);
    if !t.dirs[dir].subdirsLoaded {
      SubdirsListed(t, dir);
    }
  }

  lemma NewSubdirReady(t0: Tree, t: Tree, sub: Path, pending: Path, fs: set<Path>)
    requires OnTheWay(t, pending, fs) && SameAnswers(t0, t) && sub != [] && IsBelow(sub, pending)
    requires Parent(sub) in t.dirs && t.dirs[Parent(sub)].subdirsLoaded && sub !in t.dirs
    ensures var t' := WithNewDir(t, sub); OnTheWay(t', pending, fs) && SameAnswers(t0, t') && JustCreated(t', sub)
  {
    CreatingADirIsUnseen(t, sub, pending);
    NoChildOfMissing(t, sub, pending);
    SameAnswersTransitive(t0, t, WithNewDir(t, sub));
    NotOwnChild(sub);
  }

  lemma EntriesReady(t0: Tree, t: Tree, p: Path, name: string, fs: set<Path>)
    requires OnTheWay(t, p, fs) && p in t.dirs && (Consistent(t, None) || JustCreated(t, p)) && SameAnswers(t0, t)
    ensures var t' := WithEntries(t, p);
            && OnTheWay(t', p, fs) && SameAnswers(t0, t')
            && (name in t'.dirs[p].entries ==> Consistent(t', None))
            && (name !in t'.dirs[p].entries ==>
                  OnTheWay(WithEntry(t', p, name, NoEntry), p, fs) && SameAnswers(t0, WithEntry(t', p, name, NoEntry)))
  {
    var t' := WithEntries(t, p);
    LoadingEntriesIsUnseen(t, p, Some(p));
    LoadingEntriesFits(t, p, fs);
    if Consistent(t, None) {
      LoadingEntriesIsUnseen(t, p, None);
    }
    SameAnswersTransitive(t0, t, t');
    if name !in t'.dirs[p].entries {
      NoEntryLasts();
      SettingAnEntry(t', p, name, NoEntry, p);
    }
  }

  lemma OneAnswerStandsFor(t: Tree, t': Tree, store: Store, key: Path, entry: MarkupEntry)
    requires key != [] && StandsFor(t, store) && OnlyAnswer(t, t', key, entry)
    ensures Lookup(t, Parent(key), Last(key)) == Stored(store, key)
    ensures StandsFor(t', store[key := entry])
  {
    KeySplits(key);
    forall p, n
      ensures Lookup(t', p, n) == Stored(store[key := entry], p + [n])
    {
      KeysDiffer(p, n, Parent(key), Last(key));
    }
  }

  lemma AllAnswersStandFor(t: Tree, t': Tree, store: Store)
    requires StandsFor(t, store)
    ensures SameAnswers(t, t') ==> StandsFor(t', store)
    ensures (forall p, n :: Lookup(t', p, n) == Cleaned(Lookup(t, p, n))) ==> StandsFor(t', PlainApply(store, Sync))
  {
    NoEntryLasts();
  }

  /** What is found once the cache was dropped, as a store. */
  lemma DroppedStandsFor(t: Tree, t': Tree, store: Store) returns (store': Store)
    requires StandsFor(t, store) && forall p :: Gives(CleanedAt(t, p), At(t', p))
    ensures Dropped(store, store') && StandsFor(t', store')
  {
    store' := map k | k in store :: if k == [] then NoEntry else Lookup(t', Parent(k), Last(k));
    NoEntryLasts();
    forall p, n
      ensures Lookup(t', p, n) == Stored(store', p + [n])
    {
      KeysDiffer(p, n, Parent(p + [n]), Last(p + [n]));
      if p + [n] !in store {
        NothingFromNothing(CleanedAt(t, p), At(t', p), n);
      }
    }
    forall p
      ensures Gives(CleanedIn(store, p), StoredIn(store', p))
    {
      assert Gives(CleanedAt(t, p), At(t', p));
      GivesTheSame(CleanedAt(t, p), At(t', p), CleanedIn(store, p), StoredIn(store', p));
    }
  }

  lemma {:induction false} RunGoesOn(store: Store, ops: seq<Op>, answers: seq<Reply>, current: Store, i: nat,
                                     answer: seq<Reply>, next: Store)
    requires i < |ops| && Follows(current, ops[i], next)
    requires answer == if ops[i].Query? then [ReplyFor(Stored(current, ops[i].key), ops[i].locales)] else []
    requires forall more :: PlainRun(current, ops[i..], more) ==> PlainRun(store, ops, answers + more)
    ensures forall more :: PlainRun(next, ops[i + 1..], more) ==> PlainRun(store, ops, answers + answer + more)
  {
    assert ops[i..][0] == ops[i] && ops[i..][1..] == ops[i + 1..];
    forall more | PlainRun(next, ops[i + 1..], more)
      ensures PlainRun(store, ops, answers + answer + more)
    {
      assert (answer + more)[|answer|..] == more && answers + (answer + more) == answers + answer + more;
      assert PlainRun(current, ops[i..], answer + more);
    }
  }

  class MarkupTree {
    var dirs: map<Path, MarkupDir>
    /** The data files on disk. */
    var disk: map<Path, seq<MarkupFiles.Event>>
    /** The directories that exist below the backend's root directory, that one included. */
    var fsDirs: set<Path>

    ghost function State(): Tree
      reads this
    {
      Tree(dirs, Parsed(disk))
    }

    ghost predicate Valid()
      reads this
    {
      Consistent(State(), None) && EntriesFit(State()) && FileSystemFits(State(), fsDirs)
    }

    /** markup_tree_get on a disk as the backend leaves it: nothing is read yet. */
    constructor (disk: map<Path, seq<MarkupFiles.Event>>, fsDirs: set<Path>)
      requires FilesClosed(Parsed(disk)) && FileSystemFits(Tree(map[], Parsed(disk)), fsDirs)
      requires forall p :: p in disk ==> Sane(disk[p])
      ensures Valid() && this.disk == disk && this.fsDirs == fsDirs
      ensures forall p, n :: Lookup(State(), p, n) == EntryIn(EntriesIn(Parsed(disk), p), n)
    {
      this.disk, this.fsDirs := disk, fsDirs;
      dirs := map[[] := BlankDir];
      new;
      NothingReadYet(disk, fsDirs);
    }

    method LoadEntries(p: Path)
      requires p in dirs
      modifies this`dirs
      ensures State() == WithEntries(old(State()), p)
    {
      if !dirs[p].entriesLoaded {
        dirs := dirs[p := dirs[p].(entries := if p in disk then Decoded(disk[p]) else map[],
                                       entriesLoaded := true)];
      }
    }

    /** load_subdirs: a record for each subdirectory that has a data file. */
    method LoadSubdirs(p: Path)
      requires p in dirs && (!dirs[p].subdirsLoaded ==> forall c :: c in dirs ==> !IsChild(c, p))
      modifies this`dirs
      ensures State() == WithSubdirs(old(State()), p)
    {
      if dirs[p].subdirsLoaded {
        return;
      }
      dirs := dirs[p := dirs[p].(subdirsLoaded := true)];
      ghost var marked := dirs;
      var todo := disk.Keys;
      while todo != {}
        invariant todo <= disk.Keys && dirs == marked + Listed(disk.Keys - todo, p)
        decreases todo
      {
        var c :| c in todo;
        ListedOneMore(marked, disk.Keys - todo, c, p);
        assert disk.Keys - todo + {c} == disk.Keys - (todo - {c});
        todo := todo - {c};
        if IsChild(c, p) {
          dirs := dirs[c := BlankDir];
        }
      }
      assert disk.Keys - todo == disk.Keys;
    }

    // ----- finding and creating -----

    /** markup_tree_lookup_dir: walks down, loading what it passes through. */
    method LookupDir(path: Path) returns (found: bool)
      requires Valid()
      modifies this`dirs
      ensures Valid() && SameAnswers(old(State()), State())
      ensures found ==> path in dirs
      ensures !found ==> path !in dirs && path !in disk
    {
      var i := 0;
      found := true;
      while i < |path|
        invariant 0 <= i <= |path| && path[..i] in dirs
        invariant Valid() && SameAnswers(old(State()), State())
      {
        var dir, sub := path[..i], path[..i + 1];
        assert Parent(sub) == dir;
        ghost var before := State();
        LoadingSubdirsIsUnseen(before, dir, None);
        LoadingSubdirsFits(before, dir, fsDirs);
        NoChildBeforeLoading(before, dir);
        LoadSubdirs(dir);
        if sub !in dirs {
          MissingSubdir(State(), sub, path, None);
          return false;
        }
        i := i + 1;
      }
      assert path[..i] == path;
    }

    /** markup_dir_ensure_subdir, on the way to pending. */
    method EnsureSubdir(dir: Path, sub: Path, ghost pending: Path)
      requires Consistent(State(), Some(pending)) && EntriesFit(State()) && FileSystemFits(State(), fsDirs)
      requires dir in dirs && IsChild(sub, dir) && IsBelow(sub, pending)
      requires Consistent(State(), None) || JustCreated(State(), dir)
      modifies this`dirs
      ensures Consistent(State(), Some(pending)) && EntriesFit(State()) && FileSystemFits(State(), fsDirs)
      ensures SameAnswers(old(State()), State()) && sub in dirs
      ensures Consistent(State(), None) || JustCreated(State(), sub)
    {
      ghost var before := State();
      SubdirsReady(before, dir, sub, pending, fsDirs);
      LoadSubdirs(dir);
      if sub !in dirs {
        NewSubdirReady(before, State(), sub, pending, fsDirs);
        dirs := dirs[sub := NewDir];
      }
    }

    /** markup_tree_ensure_dir: as lookup, creating what is missing; the flags above wait for queue_sync. */
    method EnsureDir(path: Path)
      requires Valid()
      modifies this`dirs
      ensures Consistent(State(), Some(path)) && EntriesFit(State()) && FileSystemFits(State(), fsDirs)
      ensures SameAnswers(old(State()), State()) && path in dirs
      ensures Consistent(State(), None) || JustCreated(State(), path)
    {
      var i := 0;
      while i < |path|
        invariant 0 <= i <= |path| && path[..i] in dirs
        invariant Consistent(State(), Some(path)) && EntriesFit(State()) && FileSystemFits(State(), fsDirs)
        invariant SameAnswers(old(State()), State())
        invariant Consistent(State(), None) || JustCreated(State(), path[..i])
      {
        var dir, sub := path[..i], path[..i + 1];
        assert Parent(sub) == dir;
        ghost var before := State();
        EnsureSubdir(dir, sub, path);
        SameAnswersTransitive(old(State()), before, State());
        i := i + 1;
      }
      assert path[..i] == path;
    }

    /** markup_dir_queue_sync: flags every directory above p. */
    method QueueSync(p: Path)
      requires Consistent(State(), Some(p)) && EntriesFit(State()) && FileSystemFits(State(), fsDirs) && p in dirs
      modifies this`dirs
      ensures Valid() && SameAnswers(old(State()), State())
      ensures SameEntries(old(dirs), dirs)
    {
      var iter := p;
      ghost var start := State();
      while iter != []
        invariant Flagging(start, State(), iter, p, fsDirs)
        decreases |iter|
      {
        FlaggingGoesOn(start, State(), iter, p, fsDirs);
        iter := Parent(iter);
        dirs := dirs[iter := dirs[iter].(someSubdirNeedsSync := true)];
      }
      AllFlagged(State(), p);
      SameEntriesSameAnswers(start, State());
    }

    /** tree_lookup_entry with creation: afterwards the entry is there, blank if it was not before. */
    method EnsureEntry(key: Path)
      requires Valid() && key != []
      modifies this`dirs
      ensures Valid() && SameAnswers(old(State()), State())
      ensures Parent(key) in dirs && dirs[Parent(key)].entriesLoaded && Last(key) in dirs[Parent(key)].entries
    {
      var p, name := Parent(key), Last(key);
      EnsureDir(p);
      EntriesReady(old(State()), State(), p, name, fsDirs);
      LoadEntries(p);
      if name !in dirs[p].entries {
        dirs := dirs[p := dirs[p].(entries := dirs[p].entries[name := NoEntry], entriesNeedSave := true)];
        QueueSync(p);
      }
    }

    /** Replaces an entry that is there, and has the change written on the next sync. */
    method ReplaceEntry(p: Path, name: string, entry: MarkupEntry)
      requires Valid() && p in dirs && dirs[p].entriesLoaded && name in dirs[p].entries && Shaped(entry)
      modifies this`dirs
      ensures Valid()
      ensures forall q, n :: Lookup(State(), q, n) == if q == p && n == name then entry else Lookup(old(State()), q, n)
    {
      SettingAnEntry(State(), p, name, entry, p);
      dirs := dirs[p := dirs[p].(entries := dirs[p].entries[name := entry], entriesNeedSave := true)];
      ghost var changed := State();
      QueueSync(p);
      forall q, n
        ensures Lookup(State(), q, n) == Lookup(changed, q, n)
      {
      }
    }

    // ----- the backend's operations -----

    /** query_value: the value and schema name stored for key. */
    method QueryValue(key: Path, locales: seq<string>) returns (reply: Reply)
      requires Valid() && key != []
      modifies this`dirs
      ensures Valid() && SameAnswers(old(State()), State())
      ensures reply == ReplyFor(Lookup(State(), Parent(key), Last(key)), locales)
    {
      var p, name := Parent(key), Last(key);
      var found := LookupDir(p);
      if !found {
        return Reply(None, None);
      }
      LoadingEntriesIsUnseen(State(), p, None);
      LoadingEntriesFits(State(), p, fsDirs);
      LoadEntries(p);
      if name !in dirs[p].entries {
        return Reply(None, None);
      }
      var value := GetValue(dirs[p].entries[name], locales);
      reply := Reply(value, dirs[p].entries[name].schemaName);
    }

    /** set_value. */
    method SetValue(key: Path, value: Value)
      requires Valid() && key != []
      modifies this`dirs
      ensures Valid()
      ensures var before := Lookup(old(State()), Parent(key), Last(key));
              OnlyAnswer(old(State()), State(), key, MarkupEntries.Set(before, value))
    {
      var p, name := Parent(key), Last(key);
      EnsureEntry(key);
      assert Lookup(State(), p, name) == Lookup(old(State()), p, name);
      assert AllShaped(dirs[p].entries);
      SetIsShaped(dirs[p].entries[name], value);
      ReplaceEntry(p, name, MarkupEntries.Set(dirs[p].entries[name], value));
    }

    /** unset_value, for all locales or for one. */
    method UnsetValue(key: Path, locale: Option<string>)
      requires Valid() && key != []
      modifies this`dirs
      ensures Valid()
      ensures var before := Lookup(old(State()), Parent(key), Last(key));
              OnlyAnswer(old(State()), State(), key, MarkupEntries.Unset(before, locale))
    {
      var p, name := Parent(key), Last(key);
      EnsureEntry(key);
      assert Lookup(State(), p, name) == Lookup(old(State()), p, name);
      assert AllShaped(dirs[p].entries);
      if dirs[p].entries[name].value.Some? {
        UnsetIsShaped(dirs[p].entries[name], locale);
        ReplaceEntry(p, name, MarkupEntries.Unset(dirs[p].entries[name], locale));
      }
    }

    /** set_schema. */
    method SetSchema(key: Path, schemaName: Option<string>)
      requires Valid() && key != []
      modifies this`dirs
      ensures Valid()
      ensures var before := Lookup(old(State()), Parent(key), Last(key));
              OnlyAnswer(old(State()), State(), key, before.(schemaName := schemaName))
    {
      var p, name := Parent(key), Last(key);
      EnsureEntry(key);
      assert Lookup(State(), p, name) == Lookup(old(State()), p, name);
      assert AllShaped(dirs[p].entries);
      ReplaceEntry(p, name, dirs[p].entries[name].(schemaName := schemaName));
    }

    // ----- the file system -----

    /** mkdir: fails only for want of a parent. */
    method CreateFilesystemDir(p: Path) returns (ok: bool)
      modifies this`fsDirs
      ensures ok <==> p == [] || Parent(p) in old(fsDirs)
      ensures fsDirs == old(fsDirs) + if ok then {p} else {}
    {
      ok := p == [] || Parent(p) in fsDirs;
      if ok {
        fsDirs := fsDirs + {p};
      }
    }

    /** save_tree: fails only for want of the directory. */
    method SaveFile(p: Path, entries: Entries) returns (ok: bool)
      modifies this`disk
      ensures ok <==> p in fsDirs
      ensures !ok ==> disk == old(disk)
      ensures ok ==> p in disk && Keeps(entries, Decoded(disk[p]))
      ensures ok ==> Parsed(disk) == old(Parsed(disk))[p := Decoded(disk[p])]
    {
      ok := p in fsDirs;
      if ok {
        var file := Encode(entries);
        ParsedOneMore(disk, p, file);
        disk := disk[p := file];
      }
    }

    /** unlink and rmdir: a directory that still holds others stays behind. */
    method RemoveFromDisk(c: Path)
      requires c != [] && FileSystemFits(State(), fsDirs)
      modifies this`disk, this`fsDirs
      ensures Parsed(disk) == old(Parsed(disk)) - {c}
      ensures fsDirs == old(fsDirs) || (fsDirs == old(fsDirs) - {c} && forall d :: d in fsDirs ==> !IsChild(d, c))
    {
      disk := disk - {c};
      if forall d :: d in fsDirs ==> !IsChild(d, c) {
        fsDirs := fsDirs - {c};
      }
    }

    // ----- sync -----

    /** The first part of markup_dir_sync: drops useless entries and writes the file; true if any was dropped. */
    method SaveEntries(p: Path, ghost depth: nat) returns (someUseless: bool)
      requires Sound(State(), fsDirs, depth) && p in dirs && dirs[p].entriesNeedSave
      requires CleanedAll(dirs[p].entries) == dirs[p].entries
      requires p != [] ==> Parent(p) in dirs && !dirs[Parent(p)].entriesNeedSave && Parent(p) in fsDirs
      modifies this
      ensures Sound(State(), fsDirs, depth) && OnlyBelow(p, old(State()), old(fsDirs), State(), fsDirs)
      ensures p in dirs && p in fsDirs && !dirs[p].entriesNeedSave
      ensures dirs[p].someSubdirNeedsSync == old(dirs)[p].someSubdirNeedsSync
      ensures EntriesSaved(p, old(State()), State(), someUseless)
    {
      ghost var before, fs := State(), fsDirs;
      var useful := Useful(dirs[p].entries);
      someUseless := useful.Keys != dirs[p].entries.Keys;
      var d := dirs[p].(entries := useful);
      if !d.filesystemDirProbablyExists {
        var made := CreateFilesystemDir(p);
        d := d.(filesystemDirProbablyExists := made);
      }
      assert fsDirs == fs + {p};
      var saved := SaveFile(p, useful);
      ghost var found := Decoded(disk[p]);
      dirs := dirs[p := d.(entriesNeedSave := !saved)];
      assert State() == Saved(before, p, found);
      SavingIsUnseen(before, p, found);
      SavingFits(before, p, found, fs, depth);
      SavedOnlyBelow(before, fs, p, found);
      SavedEntries(before, p, found);
    }

    /** markup_dir_sync: writes what needs writing at and below p; true when nothing there needs it any more. */
    method SyncDir(p: Path, ghost depth: nat) returns (ok: bool)
      requires Sound(State(), fsDirs, depth) && p in dirs
      requires p != [] ==> Parent(p) in dirs && !dirs[Parent(p)].entriesNeedSave && Parent(p) in fsDirs
      modifies this
      ensures ok && Sound(State(), fsDirs, depth) && OnlyBelow(p, old(State()), old(fsDirs), State(), fsDirs)
      ensures p in dirs && !dirs[p].NeedsSync() && Done(p, old(State()), State())
      decreases depth - |p|, 2
    {
      ghost var t0, fs0 := State(), fsDirs;
      var someUselessEntries := CleanAndSave(p, depth);
      ghost var t1, fs1 := State(), fsDirs;
      SyncSubdirs(p, depth);
      ghost var t2, fs2 := State(), fsDirs;
      var someUselessSubdirs := DeleteUselessSubdirs(p, depth);
      ghost var t3, fs3 := State(), fsDirs;
      LoadRest(p, someUselessEntries, someUselessSubdirs, depth);
      AllPartsDone(p, t0, t1, t2, t3, State(), someUselessEntries, someUselessSubdirs);
      FourSteps(p, t0, fs0, t1, fs1, t2, fs2, t3, fs3, State(), fsDirs);
      ok := !dirs[p].NeedsSync();
    }

    /** What is done about the directory's own entries: cleaned, and written if they need it. */
    method CleanAndSave(p: Path, ghost depth: nat) returns (someUseless: bool)
      requires Sound(State(), fsDirs, depth) && p in dirs
      requires p != [] ==> Parent(p) in dirs && !dirs[Parent(p)].entriesNeedSave && Parent(p) in fsDirs
      modifies this
      ensures Sound(State(), fsDirs, depth) && OnlyBelow(p, old(State()), old(fsDirs), State(), fsDirs)
      ensures p in dirs && !dirs[p].entriesNeedSave
      ensures OwnPartDone(p, old(State()), State(), someUseless)
    {
      someUseless := false;
      ghost var t0, fs0 := State(), fsDirs;
      CleanOldLocalSchemas(p, depth);
      ghost var cleaned := State();
      if dirs[p].entriesNeedSave {
        someUseless := SaveEntries(p, depth);
        OnlyBelowTransitive(p, t0, fs0, cleaned, fs0, State(), fsDirs);
      }
    }

    /** clean_old_local_schemas_recurse, in a directory with a file of its own. */
    method CleanOldLocalSchemas(p: Path, ghost depth: nat)
      requires Sound(State(), fsDirs, depth) && p in dirs
      modifies this`dirs
      ensures State() == WithCleaned(old(State()), p)
      ensures Sound(State(), fsDirs, depth) && OnlyBelow(p, old(State()), fsDirs, State(), fsDirs)
      ensures dirs[p].entriesNeedSave ==> CleanedAll(dirs[p].entries) == dirs[p].entries
    {
      CleanedStaysSound(State(), fsDirs, p, depth);
      if dirs[p].entriesLoaded {
        dirs := dirs[p := dirs[p].(entries := CleanedAll(dirs[p].entries))];
      }
    }

    /** The second part: syncs each subdirectory that needs it, then clears the flag. */
    method SyncSubdirs(p: Path, ghost depth: nat)
      requires Sound(State(), fsDirs, depth) && p in dirs && !dirs[p].entriesNeedSave
      requires p != [] ==> Parent(p) in fsDirs
      modifies this
      ensures Sound(State(), fsDirs, depth) && OnlyBelow(p, old(State()), old(fsDirs), State(), fsDirs)
      ensures p in dirs && !dirs[p].NeedsSync() && KidsDone(p, old(State()), State(), {})
      ensures forall c :: c in dirs && IsChild(c, p) ==> !dirs[c].NeedsSync()
      decreases depth - |p|, 1
    {
      if !dirs[p].someSubdirNeedsSync {
        FlagClearMeansClean(State(), p);
        CleanKidsAreDone(p, State());
        return;
      }
      var oneFailed := SyncKids(p, depth);
      ghost var t1 := State();
      if !oneFailed {
        Unflag(p, depth);
        KidsDoneThenNoneTouched(p, old(State()), t1, State());
      }
    }

    /** The loop over the subdirectories. */
    method SyncKids(p: Path, ghost depth: nat) returns (oneFailed: bool)
      requires Sound(State(), fsDirs, depth) && p in dirs && !dirs[p].entriesNeedSave
      requires p != [] ==> Parent(p) in fsDirs
      modifies this
      ensures !oneFailed && SyncingKids(p, old(State()), old(fsDirs), State(), fsDirs, {}, depth)
      decreases depth - |p|, 1, 0
    {
      var todo := KidsOf(dirs, p);
      oneFailed := false;
      ghost var start, startFs := State(), fsDirs;
      KidsBegin(p, start, startFs, depth);
      while todo != {}
        invariant !oneFailed && SyncingKids(p, start, startFs, State(), fsDirs, todo, depth)
        decreases todo
      {
        var c :| c in todo;
        ghost var t1, fs1 := State(), fsDirs;
        StillOnDisk(p, start, startFs, t1, fs1, todo, c, depth);
        if dirs[c].NeedsSync() {
          var synced := SyncChild(p, c, depth);
          KidsGoOn(p, start, startFs, t1, fs1, State(), fsDirs, todo, c, depth);
          oneFailed := oneFailed || !synced;
        } else {
          KidPassedOver(p, start, startFs, t1, fs1, todo, c, depth);
        }
        todo := todo - {c};
      }
    }

    /** When every subdirectory was synced, the directory no longer says that some need it. */
    method Unflag(p: Path, ghost depth: nat)
      requires Sound(State(), fsDirs, depth) && p in dirs && !dirs[p].entriesNeedSave
      requires forall c :: c in dirs && IsChild(c, p) ==> !dirs[c].NeedsSync()
      modifies this`dirs
      ensures Sound(State(), fsDirs, depth) && OnlyBelow(p, old(State()), fsDirs, State(), fsDirs)
      ensures p in dirs && !dirs[p].NeedsSync() && KidsDone(p, old(State()), State(), KidsOf(old(dirs), p))
      ensures forall c :: c in dirs && IsChild(c, p) ==> !dirs[c].NeedsSync()
    {
      UnflaggingIsUnseen(State(), p);
      UnflaggedOnlyBelow(State(), fsDirs, p, depth);
      UnflagTouchesNoKid(p, State());
      dirs := dirs[p := dirs[p].(someSubdirNeedsSync := false)];
    }

    /** One turn of that loop, which first makes sure the directory itself exists. */
    method SyncChild(p: Path, c: Path, ghost depth: nat) returns (ok: bool)
      requires Sound(State(), fsDirs, depth) && p in dirs && !dirs[p].entriesNeedSave
      requires p != [] ==> Parent(p) in fsDirs
      requires c in dirs && IsChild(c, p)
      modifies this
      ensures ok && Sound(State(), fsDirs, depth) && OnlyBelow(p, old(State()), old(fsDirs), State(), fsDirs)
      ensures p in dirs && !dirs[p].entriesNeedSave && c in dirs && !dirs[c].NeedsSync()
      ensures OneKidSynced(p, c, old(State()), State())
      decreases depth - |p|, 0
    {
      EnsureExists(p, depth);
      NotOwnChild(p);
      assert SameAt(old(State()), State(), c);
      ghost var t1, fs1 := State(), fsDirs;
      ok := SyncDir(c, depth);
      OnlyBelowChild(p, c, t1, fs1, State(), fsDirs);
      OnlyBelowTransitive(p, old(State()), old(fsDirs), t1, fs1, State(), fsDirs);
      KidSynced(p, c, old(State()), t1, fs1, State(), fsDirs);
    }

    /** The directory may not have had entries to save, and then it may not exist yet. */
    method EnsureExists(p: Path, ghost depth: nat)
      requires Sound(State(), fsDirs, depth) && p in dirs && !dirs[p].entriesNeedSave
      requires p != [] ==> Parent(p) in fsDirs
      modifies this`dirs, this`fsDirs
      ensures Sound(State(), fsDirs, depth) && OnlyBelow(p, old(State()), old(fsDirs), State(), fsDirs)
      ensures p in dirs && !dirs[p].entriesNeedSave && p in fsDirs
      ensures SameRecord(p, old(State()), State()) && forall q :: q != p ==> SameAt(old(State()), State(), q)
    {
      NothingOnlyBelow(State(), fsDirs, p);
      if !dirs[p].filesystemDirProbablyExists {
        ghost var before := State();
        ExistingOnlyBelow(before, fsDirs, p, depth);
        var made := CreateFilesystemDir(p);
        dirs := dirs[p := dirs[p].(filesystemDirProbablyExists := made)];
        assert State() == WithExisting(before, p);
      }
    }

    /** delete_useless_subdirs. */
    method DeleteUselessSubdirs(p: Path, ghost depth: nat) returns (someDeleted: bool)
      requires Sound(State(), fsDirs, depth) && p in dirs && !dirs[p].NeedsSync()
      requires forall c :: c in dirs && IsChild(c, p) ==> !dirs[c].NeedsSync()
      modifies this
      ensures Sound(State(), fsDirs, depth) && OnlyBelow(p, old(State()), old(fsDirs), State(), fsDirs)
      ensures p in dirs && !dirs[p].NeedsSync()
      ensures PrunedKids(p, old(State()), State(), {})
      ensures someDeleted <==> KidsOf(dirs, p) != KidsOf(old(dirs), p)
    {
      someDeleted := false;
      var todo := KidsOf(dirs, p);
      ghost var start, startFs := State(), fsDirs;
      NothingPruned(p, start);
      while todo != {}
        invariant Pruning(p, start, State(), todo, someDeleted)
        invariant Sound(State(), fsDirs, depth) && OnlyBelow(p, start, startFs, State(), fsDirs)
        decreases todo
      {
        var c :| c in todo;
        ghost var before, fs := State(), fsDirs;
        PruningStep(p, c, start, before, todo, someDeleted);
        todo := todo - {c};
        var deleted := DeleteIfUseless(p, c, depth);
        OnlyBelowTransitive(p, start, startFs, before, fs, State(), fsDirs);
        someDeleted := someDeleted || deleted;
      }
    }

    /** One turn of that loop. */
    method DeleteIfUseless(p: Path, c: Path, ghost depth: nat) returns (deleted: bool)
      requires Sound(State(), fsDirs, depth) && c in KidsOf(dirs, p) && !dirs[c].NeedsSync()
      modifies this
      ensures deleted <==> Useless(old(State()), c)
      ensures State() == if deleted then Deleted(old(State()), c) else old(State())
      ensures Sound(State(), fsDirs, depth) && OnlyBelow(p, old(State()), old(fsDirs), State(), fsDirs)
    {
      deleted := UselessIn(dirs, c);
      if deleted {
        ghost var before, fs := State(), fsDirs;
        DeletingTheUselessIsUnseen(before, c);
        RemoveFromDisk(c);
        dirs := dirs - {c};
        DeletedOnlyBelow(before, fs, p, c, fsDirs, depth);
      }
    }

    /** What was dropped may have been the last thing here: loads the rest, so that the parent can tell. */
    method LoadRest(p: Path, someUselessEntries: bool, someUselessSubdirs: bool, ghost depth: nat)
      requires Sound(State(), fsDirs, depth) && p in dirs && !dirs[p].NeedsSync()
      modifies this`dirs
      ensures Sound(State(), fsDirs, depth) && OnlyBelow(p, old(State()), old(fsDirs), State(), fsDirs)
      ensures p in dirs && !dirs[p].NeedsSync() && LoadedMore(p, old(State()), State())
      ensures (someUselessEntries ==> dirs[p].subdirsLoaded) && (someUselessSubdirs ==> dirs[p].entriesLoaded)
    {
      LoadedNoMore(p, State());
      if someUselessEntries && !dirs[p].subdirsLoaded {
        LoadRestOfSubdirs(p, depth);
      }
      ghost var t1 := State();
      if someUselessSubdirs && !dirs[p].entriesLoaded {
        LoadRestOfEntries(p, depth);
        OnlyBelowTransitive(p, old(State()), fsDirs, t1, fsDirs, State(), fsDirs);
        LoadedMoreTwice(p, old(State()), t1, State());
      }
    }

    method LoadRestOfSubdirs(p: Path, ghost depth: nat)
      requires Sound(State(), fsDirs, depth) && p in dirs && !dirs[p].NeedsSync()
      modifies this`dirs
      ensures Sound(State(), fsDirs, depth) && OnlyBelow(p, old(State()), fsDirs, State(), fsDirs)
      ensures p in dirs && !dirs[p].NeedsSync() && dirs[p].subdirsLoaded && LoadedMore(p, old(State()), State())
    {
      LoadedSubdirsAreSound(State(), fsDirs, p, depth);
      SubdirsAreMore(p, State());
      LoadSubdirs(p);
    }

    method LoadRestOfEntries(p: Path, ghost depth: nat)
      requires Sound(State(), fsDirs, depth) && p in dirs && !dirs[p].NeedsSync()
      modifies this`dirs
      ensures Sound(State(), fsDirs, depth) && OnlyBelow(p, old(State()), fsDirs, State(), fsDirs)
      ensures p in dirs && !dirs[p].NeedsSync() && dirs[p].entriesLoaded && LoadedMore(p, old(State()), State())
      ensures dirs[p].subdirsLoaded == old(dirs)[p].subdirsLoaded
    {
      EntriesAreMore(p, State());
      LoadingEntriesIsUnseen(State(), p, None);
      LoadingEntriesFits(State(), p, fsDirs);
      LoadEntries(p);
    }

    /**
     * sync_all: always succeeds and leaves nothing to write; all a query can tell is that local schemas
     * that no longer apply are gone. A directory other than the root that held something before and is
     * still there is not empty.
     */
    method SyncAll() returns (ok: bool)
      requires Valid()
      modifies this
      ensures ok && Valid()
      ensures forall p, n :: Lookup(State(), p, n) == Cleaned(Lookup(old(State()), p, n))
      ensures forall p :: p in dirs ==> !dirs[p].NeedsSync()
      ensures forall p :: p != [] ==> !Emptied(old(State()), State(), p)
    {
      ok := true;
      if dirs[[]].NeedsSync() {
        ghost var depth := Longest(dirs.Keys + disk.Keys);
        ok := SyncDir([], depth);
      } else {
        CleanIsSavedBelow(State(), []);
        UntouchedIsDone([], State(), State());
      }
      forall p | p in dirs
        ensures !dirs[p].NeedsSync()
      {
        CleanBelow(State(), [], p);
      }
      DiskAnswersWhenClean(State());
    }

    /** clear_cache: syncs, then forgets everything that was loaded; what is left is what the files give. */
    method ClearCache()
      requires Valid()
      modifies this
      ensures Valid() && dirs == map[[] := BlankDir]
      ensures forall p :: Gives(CleanedAt(old(State()), p), At(State(), p))
    {
      ghost var before := State();
      var ok := SyncAll();
      if ok {
        ghost var synced := State();
        DiskAnswersWhenClean(synced);
        dirs := map[[] := BlankDir];
        WhatWasSynced(before, synced, State());
      }
    }

    // ----- whole runs -----

    method Perform(op: Op, ghost store: Store) returns (answer: seq<Reply>, ghost store': Store)
      requires Valid() && ValidOp(op) && StandsFor(State(), store)
      modifies this
      ensures Valid() && StandsFor(State(), store') && Follows(store, op, store')
      ensures answer == if op.Query? then [ReplyFor(Stored(store, op.key), op.locales)] else []
    {
      answer := [];
      ghost var before := State();
      if !op.DropCache? {
        store' := PlainApply(store, op);
      }
      match op
      case Query(key, locales) =>
        KeySplits(key);
        var reply := QueryValue(key, locales);
        AllAnswersStandFor(before, State(), store);
        answer := [reply];
      case Set(key, value) =>
        SetValue(key, value);
        OneAnswerStandsFor(before, State(), store, key, Written(Lookup(before, Parent(key), Last(key)), op));
      case Unset(key, locale) =>
        UnsetValue(key, locale);
        OneAnswerStandsFor(before, State(), store, key, Written(Lookup(before, Parent(key), Last(key)), op));
      case SetSchemaName(key, schemaName) =>
        SetSchema(key, schemaName);
        OneAnswerStandsFor(before, State(), store, key, Written(Lookup(before, Parent(key), Last(key)), op));
      case Sync =>
        var ok := SyncAll();
        AllAnswersStandFor(before, State(), store);
      case DropCache =>
        ClearCache();
        store' := DroppedStandsFor(before, State(), store);
    }

    /**
     * Loading on demand, pruning and rebuilding are unobservable: over any sequence of operations the
     * queries answer as a plain map from keys to entries would, one where a sync drops the local schemas
     * that no longer apply and dropping the cache leaves in each directory what its file gives.
     */
    method Run(ops: seq<Op>, ghost store: Store) returns (answers: seq<Reply>)
      requires Valid() && StandsFor(State(), store) && forall i :: 0 <= i < |ops| ==> ValidOp(ops[i])
      modifies this
      ensures Valid() && PlainRun(store, ops, answers)
    {
      answers := [];
      ghost var current := store;
      var i := 0;
      assert ops[i..] == ops && forall more: seq<Reply> :: answers + more == more;
      while i < |ops|
        invariant 0 <= i <= |ops| && Valid() && StandsFor(State(), current)
        invariant forall more :: PlainRun(current, ops[i..], more) ==> PlainRun(store, ops, answers + more)
      {
        var answer, next := Perform(ops[i], current);
        RunGoesOn(store, ops, answers, current, i, answer, next);
        answers := answers + answer;
        current := next;
        i := i + 1;
      }
      assert ops[i..] == [] && answers + [] == answers && PlainRun(current, ops[i..], []);
    }
  }
}
