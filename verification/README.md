# A Dafny model of GConf

GConf keeps configuration values under slash-separated keys. A daemon holds the store, clients cache
what they read and are told of changes below the directories they watch, and two backends keep the
values in trees of XML files. This project models the parts of it whose correctness cannot be read
off one function, and proves what they are for. `dafny verify dfyconfig.toml` checks all of it.

The code is modelled as it is, also where it falls short of what it is meant to do. Where a promise
fails, there is a lemma with the input on which it fails and, beside it, the condition under which
it holds.

**Paths** (`Paths`, `Options`, `Values`, `Words`, `Decimal`). A key is the sequence of its
components; "above" is the prefix order, which `gconf_key_is_below` is proved to compute on the text
of keys.

**Client and daemon** (`Watching`, `ClientCaches`, `Connections`, `GConfClients`, `GConfDatabases`,
`Notification`, `ClientSteps`). `GConfClient`, the engine under it and `GConfDatabase` are the
objects, with their tables as fields; any call to the daemon may be refused. `Notification` puts one
client, the daemon's store, other writers and the queue of messages between them into a state
machine, and `ClientSteps` proves that the objects take its steps. Main results: exactly one message
per change, quiescent consistency of the cache, and the exact conditions under which watching and
giving up a directory keep it.

**Markup backend** (`MarkupFiles`, `MarkupRoundTrip`, `MarkupKept`, `MarkupParsed`, `MarkupReadable`,
`MarkupDiscipline`, `MarkupEntries`, `MarkupItems`, `MarkupTrees`, `MarkupMeanings`, `MarkupRuns`). The
data file is the sequence of events an XML reader delivers; the writer produces them and the parser,
with its state, value and directory stacks, reads them. An entry keeps a schema in a shared part and
one part per locale; `MarkupItems` says what it is meant to hold. The tree is loaded on demand from the
files, parsed as far as they can be, flagged, cleaned, pruned and written back. Main results: writing
and parsing is the identity exactly on the canonical trees, and succeeds exactly on those the file has
a form for, for every tree; a run of the backend, whatever values it sets, answers as a map of items
that a sync cleans and the files keep, and as one that loses nothing exactly when every value set is
canonical; what a sync empties it deletes; and the parser's stacks stay in step exactly on the files
whose value elements carry a type.

**Codec** (`Quoting`, `ValueCodec`, `Substitution`). The buffer algorithms work on arrays. Main
results: decoding undoes encoding for values nested to any depth, unquoting in place computes what
it should and never overtakes its own reading, and the substitution never leaves its growing buffer.

**XML backend** (`XmlCacheStates`, `XmlCaches`, `DirOrder`, `XmlNodes`, `XmlEntries`, `XmlItems`,
`XmlRuns`). The directory cache, its negative cache and the disk, which holds documents; the
comparison that orders a sync; the DOM node of an entry and the entry that caches one locale of it.
Main results: the sync ends and cleans in every state; over any operations, values and documents the
caches are unobservable, and the cached listings agree with the disk exactly as long as no creation
forgets one; the comparison is an order exactly for alphabets above the slash; a value comes back
from its node exactly when a node can hold it, and the last write for each locale wins; and the
backend is as good as a map that loses nothing exactly when every change of a run is one that its
entry can follow and its node can hold.

**Change sets** (`ChangeSets`). Commit, partial commit, retry and revert against an engine any
access to which may fail. Main results: nothing is lost or done twice by a partial commit, and the
reverse set restores the store.

Each object is a class whose methods follow the functions of the source and are proved against
functions on values; what the source promises is proved about those functions and, for whole runs,
in the `Run` methods. Hash tables are maps walked in any order. Where the environment may refuse
something, a method chooses freely whether it does. Every induction is written out:
`{:induction false}` keeps Dafny from adding hypotheses of its own.

## Model

| member | source | states |
|---|---|---|
| `Paths.KeyIsBelowIsPrefix` | gconf/gconf.c:2899-2920 | On slash-separated text `gconf_key_is_below` decides exactly the component-prefix order, for the root, equal keys and names that only begin alike (`/foo`, `/foofoo`). |
| `Paths.KeyDirectoryIsParent` | gconf/gconf-internals.c:83-128 | Cutting a key at its last slash drops exactly the last component, and what follows the slash is that component; keys directly below the root give `/`. |
| `Paths.ValidKeyExactlyWhen` | gconf/gconf.c:2701-2782 | A key is valid exactly if it is the root, or begins with a slash, does not end with one, has neither a slash nor a period behind a slash, and holds no characters but slashes and plain ones, which are written out. |
| `Watching.CoveringAntichainIsTopmost` | gconf/gconf-client.c:516-573 | A set of registrations among the watched directories that covers all of them and holds no two nested ones can only be the set of topmost watched directories. |
| `Watching.TopmostIsCoveringAntichain` | gconf/gconf-client.c:516-573 | Conversely the topmost watched directories are pairwise unrelated and cover every watched directory. |
| `Watching.TopmostCoversTheSame` | gconf/gconf-client.c:908-940 | A key lies in a watched directory exactly when it lies in a registered one. |
| `Watching.AddingToTopmost` | gconf/gconf-client.c:575-639 | Dropping the registrations below a new directory and registering it unless something above it is registered turns the topmost directories of the old set into those of the new one. |
| `Watching.RefusedAddIsHarmless` | gconf/gconf-client.c:561-625 | After a refused registration the remaining registrations are still the topmost ones exactly when nothing registered lay below the refused directory. |
| `GConfClients.GConfClient.SetupOverlaps` | gconf/gconf-client.c:516-573 | In any iteration order: reports a directory above exactly when the new one is covered, removes exactly the registrations below it, keeps every use count, and keeps the engine's connections and the ids in agreement. |
| `GConfClients.GConfClient.AddDir` | gconf/gconf-client.c:575-639 | After success the registrations are exactly the topmost watched directories and only the use count of the added one grew by one. After a refusal the directory is not watched, the registrations below it are gone, and the invariant survives exactly when there were none. |
| `GConfClients.GConfClient.AddNotifyUnlessCovered` | gconf/gconf-client.c:646-685 | One directory of the re-registration pass: it ends registered exactly when nothing above it is, in place of what lies below it; after a refusal it is left uncovered. |
| `GConfClients.GConfClient.ForeachAddNotifies` | gconf/gconf-client.c:646-685 | Visiting the watched directories in any order: no two registrations are ever nested and no use count changes, and the topmost directories are exactly the registered ones afterwards exactly when the daemon refused none. |
| `GConfClients.GConfClient.RealRemoveDir` | gconf/gconf-client.c:712-749 | The directory is no longer watched, exactly the cached keys and marks at or below it are forgotten, and what it covered is registered again, in full exactly when the daemon refuses nothing. |
| `GConfClients.GConfClient.RemoveDir` | gconf/gconf-client.c:751-777 | Only the last of several uses gives the directory up; earlier ones change its count and nothing else, and an unknown directory changes nothing. The registrations are the topmost directories afterwards exactly when it reports success. |
| `GConfClients.GConfClient.KeyBeingMonitored` | gconf/gconf-client.c:908-940 | Truncating the key slash by slash finds a watched directory exactly when the key lies at or below one. |
| `GConfClients.GConfClient.Cache` | gconf/gconf-client.c:2287-2347 | The new cache is the old one with the entry put in, with all its fields but for the old schema name, kept when asked to; it reports a change exactly when the cached entry differed. |
| `GConfClients.GConfClient.Lookup` | gconf/gconf-client.c:2349-2401 | Answers a cached key with the very entry in the cache, else "known absent" exactly for keys two or more levels deep in a directory marked as fully cached. |
| `GConfClients.GConfClient.RemoveKeyFromCache` | gconf/gconf-client.c:1104-1128 | Forgets one key and the mark of its directory, but never the mark of the root; a lookup of the key is a miss afterwards. |
| `GConfClients.GConfClient.AllEntriesCached` | gconf/gconf-client.c:962-988 | Lists exactly the cached keys directly in the directory. |
| `GConfClients.GConfClient.EngineNotifyAdd` | gconf/gconf-dbus.c:1038-1070 | A registration gets an identifier not used before and is put in both tables of the engine, or is refused and leaves them alone. |
| `GConfClients.GConfClient.EngineNotifyRemove` | gconf/gconf-dbus.c:1072-1123 | Exactly the given identifier leaves both tables of the engine. |
| `Connections.GConfEngine.CnxnInsert` | gconf/gconf-dbus.c:716-734 | The table by identifier gains the connection, and the table by directory still lists every connection once under its own directory. |
| `Connections.GConfEngine.CnxnRemove` | gconf/gconf-dbus.c:736-757 | Exactly that connection leaves both tables, and a directory's list goes with its last connection. |
| `Connections.GConfEngine.HandleNotify` | gconf/gconf-dbus.c:2400-2477 | Calls every connection registered for the section once and no other, and reports whether there was one. |
| `GConfClients.GConfClient.HandleNotify` | gconf/gconf-client.c:405-430 | The engine calls back once per connection for the section, and each call caches the entry, keeping the schema name: the same as once if the client is registered there, and nothing otherwise. |
| `ClientCaches.PutSays` | gconf/gconf-client.c:2287-2347 | Caching an entry takes over its value and both its flags, keeps the old schema name exactly when asked to and there is one, and touches no other key. |
| `ClientCaches.NewEntryIs` | gconf/gconf-value.c:1479-1502 | The entry made for a change has the value, is no default, is writable and names no schema. |
| `ClientCaches.UnsetKeyIsAskedFor` | gconf/gconf-client.c:1104-1128 | After forgetting a key its lookup is a miss, and no mark but that of the key's own directory is lost. |
| `ClientCaches.ForgottenAre` | gconf/gconf-client.c:712-749 | Giving up a directory forgets exactly the keys and marks at or below it and leaves every other entry as it is. |
| `ClientCaches.ListedByText` | gconf/gconf-client.c:962-988 | The textual test of the listing (prefix, and last slash at its end) picks exactly the children of a directory, and nothing for `/`. |
| `ClientCaches.ListedAre` | gconf/gconf-client.c:962-988 | The listing of a directory holds exactly the cached keys one component longer, as they are cached, and nothing for the root. |
| `ClientSteps.Take` | gconf/gconf-client.c:405-1216 | Every step of the protocol is what the methods of the client object do: if object and protocol state agree before (use counts, cache, marks, registrations), they agree after, unless the daemon refuses a registration. |
| `ClientSteps.DeliverAll` | gconf/gconf-dbus.c:2400-2477 | Delivering the whole queue through the engine leaves the cache the drained protocol state has; all of it is right afterwards exactly when the state was up to date. |
| `ClientSteps.DaemonSendsWhatIsAnnounced` | gconf/gconf-database-dbus.c:898-984 | What the daemon's walk sends to a client listed under its registrations are exactly the messages the protocol puts in the queue for a change. |
| `Notification.NotifiedExactlyOnce` | gconf/gconf-database-dbus.c:898-971 | A client registered on exactly its topmost watched directories is sent one message for a change of a key it watches and none for any other key. |
| `Notification.WritesAre` | gconf/gconf-database.c:1387-1520 | Whoever sets a key, its value is the daemon's from then on; once unset it has its default; no other key changes. |
| `Notification.OtherStepsWriteNothing` | gconf/gconf-client.c:2287-2401 | What a client only reads, watches, caches or receives changes no value of the daemon. |
| `Notification.AnnounceSettles` | gconf/gconf-database-dbus.c:898-971 | A change of a watched key makes its new value the one the cache will hold once the queue has drained, and leaves the outcome for every other key alone. |
| `Notification.ReceiveSettles` | gconf/gconf-dbus.c:2400-2477 | Delivering a message never changes what the cache will hold once the queue has drained. |
| `Notification.CacheChangeConsistent` | gconf/gconf-client.c:1460-1526 | Caching a value just read, or dropping an entry whose news is in flight, keeps every entry current and every fully cached directory complete. |
| `Notification.ClientSetConsistent` | gconf/gconf-client.c:1173-1192 | Setting a watched key and caching the value at once keeps the invariant, with older news of the key still in flight. |
| `Notification.ClientUnsetConsistent` | gconf/gconf-client.c:1194-1216 | Unsetting a key and dropping it from the cache keeps the invariant, the default it falls back to included. |
| `Notification.AllEntriesConsistent` | gconf/gconf-client.c:1281-1331 | Caching a whole listing and marking its directory keeps the invariant. |
| `Notification.AddDirIsSafeExactlyWhen` | gconf/gconf-client.c:575-639 | In every consistent state: watching a new directory keeps the cache right exactly when the last message the new registrations let through for each key carries its current value, and no change of a cached or listed key is in flight only for a registration that is dropped. |
| `Notification.RemoveDirIsSafeExactlyWhen` | gconf/gconf-client.c:712-749 | In every consistent state: giving a directory up keeps the cache right exactly when the last message the remaining and renewed registrations let through for each key carries its current value, and the directory's own name is not a key with a value in a fully cached directory, unless news of it is still to come. |
| `Notification.StepKeepsConsistent` | gconf/gconf-client.c:405-430 | Every safe step of the client, of other writers and of the queue keeps the invariant; for watching and giving up a directory safe means the exact condition above. |
| `Notification.RunKeepsConsistent` | gconf/gconf-client.c:405-430 | So does every run of safe steps. |
| `Notification.QuiescentConsistency` | gconf/gconf-client.c:2287-2401 | After any such run, once the messages in flight have arrived: a lookup answers a cached key with the daemon's value, a key taken for absent has none, every cached key is answered, and a fully cached directory lists every value in it, correctly. |
| `Notification.UpToDateMeansRightOnceDrained` | gconf/gconf-client.c:405-430 | The invariant is no stronger than needed: it holds of a state exactly when draining that state leaves every entry right. |
| `Notification.CoveringAddDirLosesNews` | gconf/gconf-client.c:547-559 | A run that ends with a stale entry for good: watching `/a` while a change of `/a/b/k` is in flight for `/a/b`. |
| `Notification.WatchingAgainRevivesOldNews` | gconf/gconf-client.c:712-749 | A run that ends with an older value for good: giving a directory up, missing a change, and watching it again while an earlier message is in flight. |
| `Notification.UnmonitoredSetGoesStale` | gconf/gconf-client.c:1151-1165 | From every consistent state: a value set on a key nobody watches is cached, and the next write of another value by someone else leaves the old one in the cache for good. |
| `Notification.SetStaysRightExactlyWhen` | gconf/gconf-client.c:1151-1192 | From every consistent state: the cache stays right after a set and whatever sequence of writes by others exactly when the key is watched. |
| `Notification.ForgottenDirHidesItsKey` | gconf/gconf-client.c:687-740 | A run that gets there: watch `/a` and `/a/b`, list `/a`, give `/a/b` up; the key `/a/b` is then known absent although it has a value. |
| `GConfDatabases.GConfDatabase.HandleAddNotify` | gconf/gconf-database-dbus.c:681-726 | Puts the sender in front of the section's list and counts it once more; lists and counters stay right exactly when the sender was not listed there before. |
| `GConfDatabases.GConfDatabase.RemoveNotificationData` | gconf/gconf-database-dbus.c:728-754 | Removes the first listing of the service for the section, and the section with its last listener; reports exactly whether there was one. |
| `GConfDatabases.GConfDatabase.HandleRemoveNotify` | gconf/gconf-database-dbus.c:756-795 | The counter goes down even when nothing was listed: the bookkeeping stays right exactly when the sender held the section or had no record at all. |
| `GConfDatabases.GConfDatabase.HandleNameVanished` | gconf/gconf-database-dbus.c:223-269 | Every section loses one listing of the service and its record goes; the service is gone from all sections exactly when none listed it twice. |
| `GConfDatabases.RemoveKeepsCountsExactlyWhen` | gconf/gconf-database-dbus.c:756-795 | With lists and counters in agreement, a removal keeps the agreement exactly when the sender was listed for the section. |
| `GConfDatabases.AddKeepsCountsExactlyWhen` | gconf/gconf-database-dbus.c:681-726 | With lists and counters in agreement, an addition keeps the agreement exactly when the sender was not listed for the section. |
| `GConfDatabases.GoneExactlyWhenListedOnce` | gconf/gconf-database-dbus.c:223-269 | Removing one listing per section empties a service's sections exactly when it was listed at most once in each. |
| `GConfDatabases.GConfDatabase.NotifyListeners` | gconf/gconf-database-dbus.c:898-984 | The loop that truncates the key sends exactly the messages of a walk over the key and all directories above it, in that order. |
| `GConfDatabases.WalkReaches` | gconf/gconf-database-dbus.c:898-984 | What the walk sends to one service are exactly the registered sections at or above the key, innermost first: the daemon's tables behave as the protocol model assumes. |
| `GConfDatabases.EachChangeIsSentOnce` | gconf/gconf-database-dbus.c:898-984 | A service registered on its topmost watched directories gets one message for a watched key and none otherwise; a change of the root key itself reaches a listener on the root twice. |
| `Quoting.UnquoteQuoted` | gconf/gconf-internals.c:1649-1729 | Unquoting a quoted string followed by any text gives the string and the position where that text begins. |
| `Quoting.QuoteString` | gconf/gconf-internals.c:1572-1628 | Fills a fresh buffer of 2n+4 characters with the quoted string and its terminator, never more than 2n+3 of them. |
| `Quoting.CopyOne` | gconf/gconf-internals.c:1673-1716 | One turn of the in-place loop: the read position stays strictly ahead of the write position and nothing from it on was overwritten. |
| `Quoting.UnquoteStringInplace` | gconf/gconf-internals.c:1649-1729 | Leaves in the buffer the text the recursive definition gives, returns its end and whether both quotation marks were there, and does not touch what follows. |
| `Quoting.LoneBackslashStays` | gconf/gconf-internals.c:1649-1729 | A backslash in front of any character but a quotation mark and a backslash stands for itself. |
| `Quoting.UnclosedIsTaken` | gconf/gconf-internals.c:1649-1729 | Without a closing quotation mark everything is taken, and the failure is reported. |
| `ValueCodec.EncodedIsCarried` | gconf/gconf-internals.c:1830-2183 | The round trip said of the values themselves, at every depth: integers, truth values, strings, element types, halves, a schema's types and default come back, its locale and descriptions come back where it has them and are empty where it has none, its owner is gone. |
| `ValueCodec.DecodeEncode` | gconf/gconf-internals.c:1830-2183 | Decoding an encoded value gives the normalized value, for lists, pairs and schema defaults nested to any depth. |
| `ValueCodec.PlainForms` | gconf/gconf-internals.c:2042-2056 | The encodings of an integer, the truth values and a string, written out. |
| `ValueCodec.ListForm` | gconf/gconf-internals.c:2117-2152 | The encoding of a list, with the comma in front of its first element, written out. |
| `ValueCodec.PairForm` | gconf/gconf-internals.c:2154-2180 | The encoding of a pair, written out. |
| `ValueCodec.MarksAreEscaped` | gconf/gconf-internals.c:1572-1628 | How a quotation mark and a backslash are quoted, written out. |
| `ValueCodec.SchemaForm` | gconf/gconf-internals.c:2058-2115 | The encoding of a schema with a locale and a description, written out. |
| `ValueCodec.BareSchemaForm` | gconf/gconf-internals.c:2058-2115 | The encoding of one without a locale, written out. |
| `ValueCodec.ForeignTexts` | gconf/gconf-internals.c:1830-1880 | What is decoded of texts that no encoder wrote: only a t is true, and an unknown type byte is no value. |
| `ValueCodec.DecodeListElems` | gconf/gconf-internals.c:1953-1990 | The list decoder reads the elements of any list of quoted texts although a comma stands before the first one: that one is read as an element that does not decode and passed over. |
| `ValueCodec.DecodeSchemaText` | gconf/gconf-internals.c:1880-1951 | Four quoted fields separated by commas give back the four parts, whatever they hold. |
| `ValueCodec.DecodePairText` | gconf/gconf-internals.c:1992-2023 | Two quoted halves separated by a comma give back both halves. |
| `ValueCodec.Field` | gconf/gconf-internals.c:1902-1926 | A quoted field is consumed with the character behind it and is no longer than what was left to read, which is why the decoder terminates. |
| `Decimal.AtoiReadsIntText` | gconf/gconf-internals.c:1854-1856 | Reading the printed decimal text of an integer gives the integer. |
| `Decimal.AtoiReads` | gconf/gconf-internals.c:1854-1857 | Blanks in front and whatever follows the digits are passed over, and without digits the number is 0. |
| `Words.WordsAre` | gconf/gconf-internals.c:618-680 | The words for types and truth values as they stand in the files. |
| `Substitution.SubstVariables` | gconf/gconf-internals.c:798-870 | Computes the left-to-right substitution into a buffer that grows; the fill position never passes the accounted length, so their difference cannot wrap, and every write is inside the three spare characters behind it. |
| `Substitution.PutTurn` | gconf/gconf-internals.c:817-866 | One turn adds what the reference or the character at the read position stands for and advances to where the next one begins. |
| `Substitution.PutValue` | gconf/gconf-internals.c:845-854 | A value that does not fit makes the buffer grow to just enough, keeping what was written. |
| `Substitution.SubstReference` | gconf/gconf-internals.c:798-870 | A closed reference becomes the variable's value, which is not scanned again, and the text behind it is substituted on its own. |
| `Substitution.SubstPlain` | gconf/gconf-internals.c:798-870 | Text before the first dollar sign is copied as it is. |
| `Substitution.SubstUnclosed` | gconf/gconf-internals.c:798-870 | A dollar sign that opens no closed reference is copied, and the scan goes on right behind it. |
| `MarkupTrees.MarkupTree.LookupDir` | backends/markup-tree.c:350-417 | Walks down loading listings on demand; finds the directory exactly when it is in memory or has a file on disk, and no query can tell it ran. |
| `MarkupTrees.MarkupTree.EnsureDir` | backends/markup-tree.c:350-425 | As lookup, creating what is missing, with no answer changed and the new directories the only ones whose ancestors are not flagged yet. |
| `MarkupTrees.MarkupTree.EnsureSubdir` | backends/markup-tree.c:799-828 | One level of that walk. |
| `MarkupTrees.MarkupTree.QueueSync` | backends/markup-tree.c:322-333 | Flagging every directory above restores the invariant that each directory in need of a sync has all its ancestors flagged. |
| `MarkupTrees.MarkupTree.LoadSubdirs` | backends/markup-tree.c:618-720 | A blank record for exactly the subdirectories with a data file. |
| `MarkupTrees.LoadingSubdirsIsUnseen` | backends/markup-tree.c:618-720 | Loading a listing keeps the invariant and changes no answer and no other record. |
| `MarkupTrees.LoadingEntriesIsUnseen` | backends/markup-tree.c:573-616 | Taking a directory's entries from its parsed file keeps the invariant and changes no answer. |
| `MarkupTrees.MissingSubdir` | backends/markup-tree.c:776-797 | When a loaded directory lacks a subdirectory, nothing at or below it is stored anywhere. |
| `MarkupTrees.CreatingADirIsUnseen` | backends/markup-tree.c:799-828 | A new directory record keeps the invariant and changes no answer. |
| `MarkupTrees.MarkupTree.EnsureEntry` | backends/markup-backend.c:415-466 | Afterwards the entry is in its loaded directory, blank if it was not stored, and no answer changed. |
| `MarkupTrees.MarkupTree.QueryValue` | backends/markup-backend.c:468-504 | Returns what the entry in memory, or else the one in the parsed file, answers for the wanted locales, with its schema name, and changes no answer. |
| `MarkupTrees.MarkupTree.SetValue` | backends/markup-backend.c:552-577 | For every value: that one entry becomes what a set makes of it (MarkupItems.SetIsAnswered, MarkupItems.SchemaIsAnswered), and no other answer changes. |
| `MarkupTrees.MarkupTree.UnsetValue` | backends/markup-backend.c:688-713 | Removes the value of that key, or of its schema the part for one locale, keeping its schema name; no other answer changes. |
| `MarkupTrees.MarkupTree.SetSchema` | backends/markup-backend.c:745-771 | Changes the schema name of that key and no other answer. |
| `MarkupTrees.MarkupTree.CleanOldLocalSchemas` | backends/markup-tree.c:874-945 | Drops from every entry of the directory exactly the local schemas whose default is not of the schema's type. |
| `MarkupTrees.MarkupTree.SaveFile` | backends/markup-tree.c:4353-4623 | The new file gives of the entries, when it is parsed as far as it can be, exactly what a file keeps of them, and no other file changes. |
| `MarkupTrees.MarkupTree.SaveEntries` | backends/markup-tree.c:1177-1219 | Drops exactly the useless entries, says whether there were any, and writes the rest; the directory is then clean and on disk, nothing else changed, and no query can tell as long as the entries are in memory. |
| `MarkupTrees.MarkupTree.SyncDir` | backends/markup-tree.c:1138-1303 | Leaves nothing at or below the directory in need of a sync and changes nothing outside it; all a query can tell is that local schemas that no longer apply are gone. Below it nothing that held something was emptied and left, and if it was emptied itself its parent can tell. |
| `MarkupTrees.MarkupTree.SyncSubdirs` | backends/markup-tree.c:1221-1256 | Syncs every subdirectory that needs it, in any order, and then no longer says that some need it. |
| `MarkupTrees.MarkupTree.LoadRest` | backends/markup-tree.c:1285-1300 | When an entry was dropped the listing is loaded, when a subdirectory was dropped the entries are; no answer changes and nothing becomes dirty. |
| `MarkupTrees.MarkupTree.DeleteUselessSubdirs` | backends/markup-tree.c:969-1031 | Deletes, from memory and disk, exactly those subdirectories that are loaded and have neither entries nor subdirectories, says whether there were any, and changes no answer and nothing else. |
| `MarkupTrees.DeletingTheUselessIsUnseen` | backends/markup-tree.c:969-1031 | Taking a useless directory out of memory and off the disk keeps the invariant and changes no answer. |
| `MarkupTrees.SyncIsDone` | backends/markup-tree.c:1138-1303 | The four parts of a sync (save, sync the subdirectories, prune, load the rest) together delete every directory they empty: loading the rest is what lets the parent see that a directory has become useless. |
| `MarkupTrees.SavingIsUnseen` | backends/markup-tree.c:1056-1093 | Writing the useful entries of a directory, cleaned of local schemas that no longer apply, keeps the invariant and changes no answer, whatever the file can keep of them. |
| `MarkupTrees.MarkupTree.SyncAll` | backends/markup-backend.c:773-780 | Always succeeds, leaves no directory in need of a sync, and every entry is as before less the local schemas that no longer apply. A directory other than the root that held something before and is still there is not empty, and if it was to be saved has an entry that holds something, or a subdirectory: what a sync empties it deletes. |
| `MarkupTrees.DiskAnswersWhenClean` | backends/markup-tree.c:204-211 | Once nothing needs a sync, the files alone give for each directory what they keep of it: all entries in their file form, or, in the order of writing, exactly those in front of the first that has none, and of that one what was read. |
| `MarkupTrees.MarkupTree.ClearCache` | backends/markup-backend.c:788-802 | Syncs and forgets everything loaded: each directory is then what its file gives of the entries that were written, in some order all of them up to the first the file has no form for. |
| `MarkupTrees.MarkupTree.Run` | backends/markup-backend.c:468-802 | Over any sequence of queries for any locales, sets of any values, unsets, schema names, syncs and cache clearings, with the disk holding written files that are parsed when needed and as far as they can be, the queries answer as a plain store of entries that a sync cleans and a cache clearing reduces, directory by directory, to what the files give. |
| `MarkupMeanings.PlainRunMeans` | backends/markup-backend.c:468-802 | What every such run answers, said without entries: a value as it was set, a schema part by part with C to fall back on, nothing once it is unset, without the parts a sync drops, and after a cache clearing what the files keep, in the order of writing up to the first item they have no place for. |
| `MarkupMeanings.StoreMeansExactlyWhen` | backends/markup-backend.c:468-802 | Any entries the backend may have in memory are where such a run may start: they hold the items of a map, and no others do. |
| `MarkupItems.OneMeaning` | backends/markup-tree.c:1501-1640 | No entry holds two items. |
| `MarkupRuns.RunsTheSameExactlyWhen` | backends/markup-backend.c:468-802 | For every run: at every point of it the backend can only answer, now and however it is read on, as a map that loses nothing, exactly when every value the run sets is canonical for its entry: the file has a place for it, no blank strings or descriptions, no part types its schema has no use for, no default of another type than its schema. |
| `MarkupRuns.ReadsTheSameExactlyWhen` | backends/markup-backend.c:468-802 | Reading on from a store, with syncs and cache clearings in between, can only answer as if nothing were lost exactly when each of its entries survives being written and read. |
| `MarkupRuns.LossIsRead` | backends/markup-backend.c:788-802 | If one does not, there is a key, of that directory, whose answer after a cache clearing is wrong in whatever order the file was written. |
| `MarkupItems.SetIsAnswered` | backends/markup-tree.c:1501-1640 | For every entry: a value that is no schema is answered as it was set, for all locales; a schema leaves the parts for other locales alone. |
| `MarkupItems.SchemaIsAnswered` | backends/markup-tree.c:1501-1640 | For every entry: a schema that was set is answered for its locale with its type, part types, owner, descriptions and default, and where it is silent with what the entry says for C. |
| `MarkupItems.SetMeans` | backends/markup-tree.c:1501-1640 | An entry that holds an item holds, after a set, the item with the value, or with what the schema's locales share and the part for its own. |
| `MarkupItems.UnsetMeans` | backends/markup-tree.c:1643-1715 | An unset takes the value away, or of a schema the part for one locale and no other. |
| `MarkupItems.CleanedMeans` | backends/markup-tree.c:874-945 | A sync drops exactly the parts with a default of another type than the schema's. |
| `MarkupItems.AnswerMeans` | backends/markup-tree.c:1741-1847 | A query answers the value, or of a schema its shared fields with each text and the default of the part for the first wanted locale there is, else of the part for C. |
| `MarkupItems.FileFormMeans` | backends/markup-tree.c:3599-4479 | What a file keeps of an item: everything but strings and long descriptions that hold nothing but blanks, and part types its schema has no use for. |
| `MarkupItems.ShapedExactlyWhen` | backends/markup-tree.c:1501-1640 | The entries the backend keeps in memory are exactly those that hold an item: one part per locale, and none beside a value that is no schema. |
| `MarkupEntries.GetValue` | backends/markup-tree.c:1741-1847 | Returns the value, or for a schema the shared part with what the first local schema for the first wanted locale says, and where that is silent the one for C. |
| `MarkupEntries.FindLocals` | backends/markup-tree.c:1778-1818 | The one search for two local schemas at a time finds the first for the best wanted locale and the first for C. |
| `MarkupEntries.AnswersLastExactlyWhen` | backends/markup-tree.c:1741-1847 | Writing and reading an entry again, when its file has a form for what a sync leaves of it, changes no answer about it, whatever locales are asked for, exactly when its value and local schemas are canonical and no local default has the wrong type. |
| `MarkupEntries.SetLastsExactlyWhen` | backends/markup-tree.c:1501-1640 | For every value: after a set the entry survives being written and read exactly when the file has a place for the value, it is canonical, and no local default, new or kept, contradicts the type of the schema. |
| `MarkupEntries.SetHasFormExactlyWhen` | backends/markup-tree.c:1501-1640 | The file has a form for what a set leaves exactly when it has a place for the value: lists of plain values of the list's type, pairs of halves that are neither filled lists nor filled pairs, schemas with plain part types, and defaults alike. |
| `MarkupEntries.NoFormIsSeen` | backends/markup-tree.c:1741-1847 | An entry the file has no form for answers for some locales as no entry does that was read from a file. |
| `MarkupEntries.BlankIsLost` | backends/markup-tree.c:3193-3210 | A string of blanks is answered as it was set until the cache is cleared and as the empty string afterwards. |
| `MarkupEntries.Encode` | backends/markup-tree.c:4353-4623 | In whatever order the entries are listed: of the names in the order of writing, the written file gives the file form of each in front of the first that has none, of that one what was read until the parser stopped, and nothing of those behind it; the file form of all if there is one for each. |
| `MarkupEntries.WrittenHolds` | backends/markup-tree.c:573-616 | Writing entries of different names and loading them, whether the file can be parsed to the end or not, gives exactly that. |
| `MarkupFiles.ParseEvents` | backends/markup-tree.c:3599-3683 | Handing the events over one by one and stopping at the first error computes the parser's run. |
| `MarkupRoundTrip.LoadSaved` | backends/markup-tree.c:4353-4479 | For every tree that can be written, parsing the written events gives exactly what the file form keeps of it, with entries, subdirectories and local schemas in their order. |
| `MarkupKept.SavedIsBack` | backends/markup-tree.c:3505-3560 | Said of the values themselves: a text with any character other than space, tab, newline and carriage return comes back as it is, in an entry, a list element, a half of a pair, a default and a long description; one of only those four comes back empty, and such a long description not at all. Everything else of an entry comes back, but part types of no use and, in a subtree's file, the descriptions for other locales than C. |
| `MarkupKept.PlainAttrsAre` | backends/markup-tree.c:3714-3900 | The attributes of integers, truth values and strings, written out. |
| `MarkupKept.CompoundAttrsAre` | backends/markup-tree.c:3714-3900 | The attributes of lists and pairs, written out. |
| `MarkupKept.ListSchemaAttrsAre` | backends/markup-tree.c:3714-3900 | The attributes of a schema for lists, written out. |
| `MarkupKept.PairSchemaAttrsAre` | backends/markup-tree.c:3714-3900 | The attributes of a schema for pairs, written out. |
| `MarkupKept.ChildrenAre` | backends/markup-tree.c:3900-3974 | The elements inside a string, a list and a pair, written out. |
| `MarkupKept.EntriesAre` | backends/markup-tree.c:4164-4252 | The attributes of an entry, written out. |
| `MarkupKept.LocalSchemasAre` | backends/markup-tree.c:3975-4080 | The element of a local schema with its default and descriptions, written out. |
| `MarkupKept.RefusedElements` | backends/markup-tree.c:3165-3370 | The parser refuses elements where they do not belong: anything but gconf outermost, anything but entries and, if allowed, directories in a directory, elements in texts, compound values in compound values. |
| `MarkupKept.RefusedParts` | backends/markup-tree.c:2923-2980 | It refuses a second default, a second long description and anything else in a local schema. |
| `MarkupKept.RefusedInside` | backends/markup-tree.c:3048-3290 | It refuses a second car or cdr, halves outside a pair, elements outside a list or of another type than its, and a string value outside a string. |
| `MarkupKept.RefusedAttributes` | backends/markup-tree.c:2690-2900 | It refuses an entry or directory without a name or with an unknown attribute. |
| `MarkupKept.RefusedText` | backends/markup-tree.c:3532-3598 | It passes over blanks anywhere and refuses any other text outside strings and long descriptions. |
| `MarkupParsed.SubtreeComesBackExactlyWhen` | backends/markup-tree.c:3599-4479 | For every tree at all: writing a whole subtree and parsing it again is the identity exactly on the trees the file has a form for that are canonical: no blank strings or long descriptions, no part types a schema has no use for, nothing localized outside the local schemas, no descriptions for locales other than C, lists only at the top of a value or a default. |
| `MarkupParsed.DirComesBackExactlyWhen` | backends/markup-tree.c:4353-4479 | The same for a directory with a file of its own, which keeps its entries and not its subdirectories. |
| `MarkupParsed.ParsedIsCanonical` | backends/markup-tree.c:3599-3683 | Whatever events a file delivers, if they are accepted at all the tree read from them is canonical and can be written again. |
| `MarkupParsed.FilledIsCanonical` | backends/markup-tree.c:3599-3683 | So is what a file leaves in its directory when it cannot be parsed to the end, whatever it holds and wherever the parser stops. |
| `MarkupReadable.SubtreeLoadsExactlyWhen` | backends/markup-tree.c:3599-4479 | For every tree at all: the file written for a subtree can be parsed exactly when the file has a place for every value in it; one it has none for costs all of the file, wherever it stands. |
| `MarkupReadable.DirLoadsExactlyWhen` | backends/markup-tree.c:4353-4479 | The same for a directory with a file of its own, whatever its subdirectories hold. |
| `MarkupReadable.FilledToTheFirst` | backends/markup-tree.c:573-616 | What is left of a directory whose file cannot be parsed: exactly the entries in front of the first that cannot be read, in their file form, and of that one at most what was read of its value. |
| `MarkupReadable.UnwritableCostsTheFile` | backends/markup-tree.c:3931-3975 | An instance: one pair with a filled list for its car is written without complaint, and the whole file cannot be parsed any more. |
| `MarkupRoundTrip.ReadEntry` | backends/markup-tree.c:2689-2843 | Parsing one written entry adds what the file form keeps of it to the open directory and leaves every stack as it was. |
| `MarkupRoundTrip.ReadDir` | backends/markup-tree.c:2845-2920 | Parsing one written directory adds it, restored, to the open directory and leaves every stack as it was. |
| `MarkupRoundTrip.ReadValue` | backends/markup-tree.c:3047-3289 | Parsing what is written inside a value element completes the value on top of the stack. |
| `MarkupRoundTrip.ReadLocalSchemas` | backends/markup-tree.c:2922-3045 | Parsing the written local schemas of an entry stacks up exactly those the file form keeps. |
| `MarkupRoundTrip.ReversalRestores` | backends/markup-tree.c:3384-3499 | Reversing what was collected by prepending restores the written order. |
| `MarkupRoundTrip.ValueAttrsParse` | backends/markup-tree.c:2349-2687 | The attributes written for a value are parsed back to that value as it stands before its children are read, among the other attributes of an entry too. |
| `MarkupRoundTrip.TimeComesBack` | backends/markup-tree.c:2783-2790 | A modification time printed as an unsigned long is read back, negative times included. |
| `MarkupDiscipline.StackDiscipline` | backends/markup-tree.c:2061-2146 | On any error-free run over a file whose default, car, cdr and li elements carry a type: the value stack has one item per open such element plus one for an open entry with a value, the directory stack one per open directory plus the root, the state stack one per open element, and no assertion in the handlers fires. |
| `MarkupDiscipline.StepDisciplined` | backends/markup-tree.c:3291-3597 | Every event a reader of well-formed XML can deliver next keeps the state stack a path of the grammar and the owner of every stacked value the one that path determines. |
| `MarkupDiscipline.RunDisciplined` | backends/markup-tree.c:3291-3597 | The same over every run. |
| `MarkupDiscipline.StepDisciplinedExactlyWhen` | backends/markup-tree.c:3291-3597 | An accepted event keeps the stacks in step exactly when its element, if it is one that holds a value, says the type; that step itself never trips an assertion. |
| `MarkupDiscipline.RunDisciplinedExactlyWhen` | backends/markup-tree.c:3291-3597 | The stacks stay in step over a whole run exactly when every accepted element carries its type. |
| `MarkupDiscipline.FinishedRunsLeaveNothing` | backends/markup-tree.c:3479-3499 | When the outermost element has ended, the root is finished and every stack is empty. |
| `MarkupDiscipline.EndEntryDisciplined` | backends/markup-tree.c:3384-3395 | The end of an entry finds the entry and an empty local schema list, and takes its value off the stack. |
| `MarkupDiscipline.EndDefaultDisciplined` | backends/markup-tree.c:3454-3470 | The end of a typed default finds that default on top of the value stack. |
| `MarkupDiscipline.UntypedDefaultCrashes` | backends/markup-tree.c:2936-2960 | A default element without a type is accepted and then trips the assertion at its end, whatever came before it. |
| `MarkupDiscipline.UntypedInnerLosesOwner` | backends/markup-tree.c:3472-3477 | A car, cdr or li without a type takes its owner's value off the stack, and the entry's next child trips the assertion. |
| `XmlCacheStates.LookupAgrees` | backends/xml-cache.c:351-443 | In agreement with the disk, whatever its entries and documents, a lookup without create finds a directory exactly when an uncached load would, leaves what every directory holds and what its file says as it was, and keeps the agreement. |
| `XmlCacheStates.LookedGrew` | backends/xml-cache.c:351-443 | In any state such a lookup only loads directories at or above the key that have files, tells cached parents of names that are on disk, and remembers as absent only what is not on disk. |
| `XmlCacheStates.CreatedIsSound` | backends/xml-cache.c:419-443 | Creating a directory keeps, in any sound state, the negative cache free of anything on disk or cached and leaves what every directory holds as it was; only the directory and those above it are cached or get files. |
| `XmlCacheStates.NewsReaches` | backends/xml-cache.c:534-551 | Telling the parents of a new directory reaches the nearest scanned ancestor exactly when nothing in between is remembered as absent. |
| `XmlCacheStates.CreateAgreesExactlyWhen` | backends/xml-cache.c:419-443 | Creating a directory keeps the cached listings right exactly when not both hold: an ancestor is remembered as absent, and the deepest existing ancestor is cached and scanned. The ancestors are told before they are taken out of the negative cache. |
| `XmlCacheStates.ForgottenSubdirectoryCostsTheFile` | backends/xml-cache.c:419-443 | When both hold and the existing ancestor has lost its last entry, the next sync deletes that ancestor's data file, fails, and leaves the new directories below a directory without one. |
| `XmlCacheStates.LastEntryIsRemoved` | backends/xml-cache.c:351-443 | A run that gets there from an empty disk: set `/a/e`, sync, look up `/a/b`, remove `/a/e`. |
| `XmlCacheStates.ChangeSays` | backends/xml-backend.c:466-722 | The part common to queries, writes and unsets: whatever entries are put in its place, only what that one directory holds changes, and the agreement with the disk survives exactly when nothing was created, the directory had a file, or its creation forgets no listing. |
| `XmlCacheStates.DeletionGrowsUpwards` | backends/xml-cache.c:157-193 | In every state whatsoever a deletion takes one directory out of the cache and adds at most directories above it. |
| `XmlCacheStates.NotDeletedCleans` | backends/xml-dir.c:393-583 | In every state whatsoever a sync that deletes nothing keeps which directories are cached and all other records, and leaves its directory clean unless the disk refused it. |
| `XmlCacheStates.DeletionAgrees` | backends/xml-cache.c:157-193 | Deleting a useless directory and dropping it from the cache and its parent's listing keeps the agreement with the disk. |
| `XmlCacheStates.NotDeletedAgrees` | backends/xml-dir.c:393-583 | In agreement with the disk a sync keeps the agreement, and fails only if the disk refuses it. |
| `XmlCacheStates.DeletionIsSound` | backends/xml-cache.c:157-193 | In any sound state a deletion loads at most directories above the deleted one and changes what no other directory holds; the deleted one held nothing. |
| `XmlCacheStates.DeletionLeavesNoHusk` | backends/xml-cache.c:512-532 | A deletion leaves no new empty directory that is not dirty: the parent, loaded for the purpose if need be, is marked so that the next pass considers it. |
| `XmlCaches.DeletionLightens` | backends/xml-cache.c:248-292 | Weighing a directory more than all its ancestors together, a deletion makes the cache lighter however many ancestors it loads: why the sync ends. |
| `XmlCaches.XmlCache.Lookup` | backends/xml-cache.c:351-443 | Leaves exactly the state of a lookup, and reports whether the directory is cached afterwards. |
| `XmlCaches.XmlCache.AddToParent` | backends/xml-cache.c:534-551 | Leaves exactly the state in which the parent, loaded if it can be, knows the directory. |
| `XmlCaches.XmlCache.CreateFsDir` | backends/xml-dir.c:1208-1303 | Creates the directories up to the first that has a file, each with an empty file. |
| `XmlCaches.XmlCache.UnsetNonexistent` | backends/xml-cache.c:469-487 | Takes the key and everything above it out of the negative cache. |
| `XmlCaches.XmlCache.SyncDir` | backends/xml-dir.c:393-583 | Writes every entry of a dirty directory into its node and, if the disk takes it, the document to the file, or deletes the file and then the directory when it has neither entries nor known subdirectories; what fails leaves it dirty, with the nodes written all the same. |
| `XmlCaches.XmlCache.SyncOne` | backends/xml-cache.c:157-193 | One directory of the pass. In every state a success leaves it clean or gone and a deletion makes the cache lighter; in a sound one what was dirty is stored and nothing else changes; in agreement with the disk the agreement stays, only the disk makes it fail, and no new empty directory is left that is not dirty. |
| `XmlCaches.XmlCache.SyncCache` | backends/xml-cache.c:248-292 | In every state, with no condition on directories, entries or documents and with the disk refusing whatever it likes, it ends, and when it reports success no cached directory is dirty. In a sound state what every directory holds is stored. In agreement with the disk it keeps the agreement and reports failure exactly when the disk refused something in its last pass, and after a success the only empty directories are those that were empty before and had not been changed: what was emptied has no file any more. |
| `XmlCaches.LastUnsetEmptiesItsDir` | backends/xml-dir.c:706-760 | In agreement with the disk, unsetting the last value of a directory without subdirectories, when it names no schema, leaves the directory empty and dirty, so that the next successful sync deletes it. |
| `XmlCaches.XmlCache.Clean` | backends/xml-cache.c:301-349 | Forgets exactly the idle directories that are not dirty; each directory holds what it held, or if it was not dirty what its file gives when loaded. |
| `XmlCaches.XmlCache.QueryValue` | backends/xml-backend.c:466-519 | Answers what the entry read gives for the wanted locales and the name of its schema; in that one entry the part that is cached may change, and nothing else that any directory holds. |
| `XmlCaches.XmlCache.SetValue` | backends/xml-backend.c:551-584 | For every value: the one entry becomes what the write makes of it, or of a new one, with the user and the time, its directory is dirty, and nothing else changes. |
| `XmlCaches.XmlCache.UnsetValue` | backends/xml-backend.c:635-663 | For all locales or one: the one entry becomes what the unset leaves, and is still there only if it names a schema or a read of it answers a value; the directory is dirty exactly if the entry had a value, and nothing else changes. |
| `XmlCaches.XmlCache.SetSchema` | backends/xml-backend.c:689-722 | The one entry, a new one if need be, gets the schema name and the time, and is still there only if it names a schema or a read of it answers a value. |
| `XmlCaches.SetIsStamped` | backends/xml-dir.c:585-614 | A write leaves every other entry alone and gives its own the value, the user and the time, keeping the schema name. |
| `XmlCaches.OthersAreStamped` | backends/xml-dir.c:706-957 | Naming a schema sets the time and not the user; unsetting a value sets both; reading, and unsetting nothing, set neither. |
| `XmlCaches.DirtyExactlyWhen` | backends/xml-dir.c:706-760 | Reading, and unsetting what has no value, make no directory dirty; every other change does. |
| `XmlEntries.KeptExactlyWhen` | backends/xml-dir.c:1118-1137 | An entry is forgotten exactly when it names no schema and a read without locales answers nothing; reading it to find out changes only which part is cached. |
| `XmlEntries.ModificationComesBack` | backends/xml-entry.c:397-434 | An entry's name, who changed it last and when are written with it and read again. |
| `XmlCaches.XmlCache.AllSubdirs` | backends/xml-backend.c:604-633 | In agreement with the disk, after a sync: finds the directory exactly when it has a file and lists exactly its subdirectories with files. In a sound state it stores what is dirty and changes nothing else. |
| `XmlCaches.XmlCache.Run` | backends/xml-backend.c:466-745 | Over any sequence of queries, sets, unsets for all locales or one, schema names, syncs and cleanings, for every value and every document, with the disk refusing whatever it likes, the answers are those of a plain store of what each directory holds, which a sync writes into nodes and files and a cleaning reads back from them. From agreement with the disk the cache agrees with it after each operation exactly when none forgets a listing. |
| `XmlItems.SyncedMeans` | backends/xml-entry.c:397-434 | Writing an entry into its node leaves it holding what it held, of any type and with its schema name. |
| `XmlItems.LoadedMeans` | backends/xml-entry.c:307-381 | An entry loaded from a written node holds what was written, of a schema the part for every locale. |
| `XmlItems.ReadMeans` | backends/xml-entry.c:105-163 | A query leaves the entry holding what it held and answers the value, or of a schema the part for the first wanted locale that was written, else the one for no locale, else another. |
| `XmlItems.SetMeans` | backends/xml-entry.c:165-178 | An entry holds a value that is set, and a schema beside the parts set before for other locales, if the value comes back from a node and a first schema finds no leftovers in it. |
| `XmlItems.UnsetMeans` | backends/xml-entry.c:180-228 | An entry is rid of its value or of the part for one locale, and keeps the others, if what it caches is in the node, or if nothing is left there when the last part goes. |
| `XmlItems.LeftoverShows` | backends/xml-entry.c:783-932 | A schema set where the node has a part of an earlier one for another locale, or a first child that is no part, is answered with something else at once, by a query for other locales. |
| `XmlItems.LoadedMeansExactlyWhen` | backends/xml-entry.c:307-381 | A node's entry holds something, and then what it says, exactly when no two of its parts are for the same locale, no other child has a locale, and a schema is not read from a child that is no part. |
| `XmlRuns.StartFits` | backends/xml-dir.c:1138-1199 | With nothing cached, documents of such nodes hold the map of what they say: any such disk is where the runs below may start. |
| `XmlRuns.FittingRunsTheSame` | backends/xml-backend.c:466-745 | As long as each change is one its entry can follow, one for a single locale included, the backend answers as a map from keys to values, parts per locale and schema names that loses nothing, through the whole run and however it is read on. |
| `XmlRuns.RunsTheSameExactlyWhen` | backends/xml-backend.c:466-745 | Without unsets for a single locale, the backend can only answer as a map that loses nothing, at every point of a run and however it is read on, exactly when each value set comes back from a node, each schema is for no empty locale, has a default that comes back and when it is the first finds no leftovers in the node, and each schema name is a valid key. |
| `XmlRuns.LossIsRead` | backends/xml-backend.c:466-745 | What such a map holds and no node can give back is missed by one query after a sync that succeeds and a cleaning. |
| `XmlRuns.ValueLastsExactlyWhen` | backends/xml-entry.c:508-605 | A value set on a new entry, saved, forgotten and loaded again is found as it was set exactly when a node can hold it. |
| `DirOrder.Compare` | backends/xml-cache.c:195-246 | Walking both keys to the first difference decides what the comparison is defined to. |
| `DirOrder.DescendantsFirst` | backends/xml-cache.c:208-226 | Whatever the characters, a directory is placed before every directory it lies in. |
| `DirOrder.DirCmpIsByRank` | backends/xml-cache.c:195-246 | On keys with no character below the slash the comparison is lexicographic, with the end of a key ranked between the slash and all other characters. |
| `DirOrder.OrderExactlyWhen` | backends/xml-cache.c:195-246 | The comparison is a strict total order on the keys over an alphabet exactly when every character of it is above the slash. |
| `DirOrder.Cycle` | backends/xml-cache.c:195-246 | For every character below the slash, such as the hyphen, a directory, its subdirectory and a longer name form a cycle (`/foo/bar`, `/foo`, `/foo-bar`). |
| `XmlNodes.ComesBackExactlyWhen` | backends/xml-entry.c:383-605 | A value of any type and depth, written into a node (a new one for a schema) and read again, is the same exactly when a node can hold it: lists of one plain or schema type, pairs of two halves that are neither lists nor pairs, no empty texts in a schema. |
| `XmlNodes.ReadComesBack` | backends/xml-entry.c:934-1240 | Whatever is read from a node, however it came to be, is such a value. |
| `XmlNodes.PlainNodesAre` | backends/xml-entry.c:508-605 | The nodes of an integer, a truth value and a string, written out. |
| `XmlNodes.ListNodesAre` | backends/xml-entry.c:508-605 | The node of a list and those of its elements, written out. |
| `XmlNodes.PairNodesAre` | backends/xml-entry.c:508-605 | The node of a pair, with one child for each half. |
| `XmlNodes.SchemaPropsAre` | backends/xml-entry.c:436-480 | The properties of a schema, written out. |
| `XmlNodes.LocalNodesAre` | backends/xml-entry.c:480-506 | The node of a schema's part for one locale, written out. |
| `XmlNodes.BoolWords` | gconf/gconf-value.c:164-190 | A word is read as a truth value by its first character. |
| `XmlNodes.WriteLocalSays` | backends/xml-entry.c:436-506 | Writing a schema's part for one locale changes what the node says for that locale and for no other. |
| `XmlNodes.BestIsFirstAvailable` | backends/xml-entry.c:843-915 | A schema is read from the child for the first wanted locale that has one, if none has from the one for no locale, and if there is none from the first child. |
| `XmlNodes.FindLocal` | backends/xml-entry.c:607-642 | Finds the first child for the locale, or that there is none. |
| `XmlNodes.FillSlots` | backends/xml-entry.c:845-888 | One pass over the children fills a slot per wanted locale with its last child and stops at the first child for the most wanted one. |
| `XmlNodes.FindBest` | backends/xml-entry.c:843-915 | Chooses the child for the best wanted locale, else the one for no locale, else the first. |
| `XmlNodes.SharedComesBack` | backends/xml-entry.c:436-480 | What all locales of a schema share is read back from the node as it was written. |
| `XmlEntries.SyncSays` | backends/xml-entry.c:397-434 | Writing the cached part into the node changes nothing the entry says for any locale, and then the node says all of it. |
| `XmlEntries.SetSays` | backends/xml-entry.c:165-178 | Setting a schema changes what the entry says for that schema's locale and for no other, although only one locale is cached. |
| `XmlEntries.GotSays` | backends/xml-entry.c:105-163 | Reading changes nothing the entry says; what it returns is for the first wanted locale that has anything, else for no locale if that has, says what the entry says for it, and carries the shared fields last set. |
| `XmlEntries.PlainReadIsSettledExactlyWhen` | backends/xml-entry.c:105-163 | What a read without locales returns is independent of what was read before exactly when the entry has not both a part for no locale and one for C. |
| `XmlEntries.UnsetRemovesOnlyExactlyWhen` | backends/xml-entry.c:180-228 | When the node has only ever held schemas, unsetting one locale removes just that part exactly when the cached part is that one or is already in the node; when the node holds nothing for another locale, exactly when the entry said nothing but an empty part for no locale besides. |
| `XmlEntries.UnsetLosesUnsyncedWrite` | backends/xml-entry.c:180-228 | Whatever its locale and contents, a schema set on a new entry and not saved is lost by unsetting any other locale. |
| `XmlEntries.WriteIsFoundExactlyWhen` | backends/xml-entry.c:436-506 | Once saved, a schema is what the node says for its locale exactly when that is not the empty string; one for the empty string is what the node says for no locale exactly when the node said nothing else for that before. |
| `XmlEntries.ReplacedSchemaResurfaces` | backends/xml-entry.c:165-178 | A value of another type set and replaced by a schema again before a save leaves the parts of the earlier schema for all other locales in place; after a save they are gone. |
| `XmlEntries.UnsetLeavesNothing` | backends/xml-entry.c:644-657 | What was unset for all locales and saved leaves nothing in the node that a later schema could find. |
| `XmlEntries.Entry.SyncToNode` | backends/xml-entry.c:397-434 | A dirty entry's node gets its properties anew and its cached value; afterwards the entry is clean. |
| `XmlEntries.Entry.SetTo` | backends/xml-entry.c:165-178 | The entry afterwards is the specified one: synced first if it caches a schema, then holding the new value, dirty. |
| `XmlEntries.Entry.UnsetTo` | backends/xml-entry.c:180-228 | The entry afterwards is the specified one, and the call reports whether there was anything to unset. |
| `XmlEntries.Entry.GetValue` | backends/xml-entry.c:105-163 | Returns the cached value if its locale is the wanted one, else what the synced node gives, which is cached from then on. |
| `XmlEntries.Entry.Run` | backends/xml-entry.c:105-178 | The last write for each locale wins: over any sequence of writes for any locales, reads, changes of the modification data and saves, a read finds what was last written for the first wanted locale that was written at all. |
| `ChangeSets.ChangeSet.Commit` | gconf/gconf-changeset.c:510-591 | Whatever fails, the store is the old one with some of the changes applied, all of them exactly on success; with removal the set keeps exactly the others; and committing what the set then holds would come to the same store as one commit without failures. |
| `ChangeSets.ChangeSet.SendChanges` | gconf/gconf-changeset.c:510-534 | The walk stops sending at the first error and lists exactly the committed keys. |
| `ChangeSets.RestReachesTheSame` | gconf/gconf-changeset.c:536-591 | A partial commit followed by the rest, or by the whole set again, comes to the full commit, wherever it stopped. |
| `ChangeSets.ChangeSet.CommitWithRetries` | gconf/gconf-changeset.c:536-591 | However many commits fail, as soon as one succeeds the set is empty and the store is the one a single unfailing commit gives. |
| `ChangeSets.ChangeSet.Reverse` | gconf/gconf-changeset.c:599-659 | In any order of the walk, builds exactly the reverse set, a value that cannot be read counting as none. |
| `ChangeSets.RevertRestores` | gconf/gconf-changeset.c:599-659 | The reverse set computed beforehand restores the store after a commit in full or in part. |
| `ChangeSets.RestoresExactlyWhen` | gconf/gconf-changeset.c:612-632 | With some values unreadable when the reverse set is built, it restores what a commit left, wherever that stopped, exactly when each unreadable key of the set had no value, or was to be unset and was not. |
| `ChangeSets.CommitAndTakeBack` | gconf/gconf-changeset.c:536-659 | Reverse set, commit as far as it goes, commit of the reverse set: if that succeeds the store is as before exactly when no unreadable key had a value, other than keys whose unset was not reached. |
| `ChangeSets.ChangeSet.Remove` | gconf/gconf-changeset.c:192-208 | Removes the change, but nothing while the set is being walked. |

## Left out

- Notification.QuiescentConsistency: takes every step of the client as atomic, a watched directory as registered at once (the source marks that race at gconf/gconf-client.c:547-550), and daemon calls as answered without error.
- ClientSteps.Take: speaks of calls the daemon does not refuse; what the client is left with after a refusal is stated with GConfClients.GConfClient.AddDir and GConfClients.GConfClient.RemoveDir.
- MarkupParsed.SubtreeComesBackExactlyWhen: covers the file for the C locale; descriptions for other locales live in files of their own, whose merge is not modelled (the source copies a description it has just cleared, backends/markup-tree.c:3420-3426).
- MarkupTrees.MarkupTree.Run: covers trees that are not merged into one file, starts from files that as far as they can be parsed say no name and no locale twice and have no local default of another type than its schema's, takes the disk as accepting every write, and does not follow who changed an entry and when. What a file gives is exact up to the entry in which the parser stops; of that one it says only that what is left of it is something a file can hold.
- MarkupMeanings.PlainRunMeans: of the item in which the parser stops it says nothing.
- MarkupFiles.ParseEvents: an element's attributes are a map, so duplicate attributes are not modelled; what a parse error leaves behind is modelled for a directory's own file (MarkupFiles.Filled), not for a subtree's.
- MarkupDiscipline.StackDiscipline: covers the main file, not the ones for a single locale.
- XmlCaches.XmlCache.Lookup: does not model a failure to create the directory or its file.
- XmlCaches.XmlCache.CreateFsDir: as for Lookup, every directory and file asked for is created.
- XmlCaches.XmlCache.SyncDir: a disk that lets go of a data file but not of the emptied directory is modelled only where the directory is not empty.
- XmlCaches.XmlCache.Run: a document is a map from names to nodes, so a second node of the same name and a node without one, which the source skips, are not part of it; directories and files asked for are created, and an emptied directory that holds no other is removed.
- XmlRuns.RunsTheSameExactlyWhen: leaves out unsets for a single locale, of which XmlRuns.FittingRunsTheSame says when they do what they should (one direction), XmlEntries.UnsetRemovesOnlyExactlyWhen for one entry exactly when, and XmlCaches.XmlCache.Run what they do. It starts from documents the backend could have written (XmlItems.LoadedMeansExactlyWhen), and of a query without locales it says only that it is answered for C or for no locale when there is a part for either.
- XmlEntries.Entry.Run: covers schemas whose locale is not the empty string; what happens otherwise is XmlEntries.WriteIsFoundExactlyWhen. A value of another type between two schemas is not part of these runs, nor is unsetting, of which XmlEntries.UnsetRemovesOnlyExactlyWhen says what it does.
- Quoting.UnquoteStringInplace: characters are not checked to be UTF-8.
- Substitution.SubstVariables: lengths are unbounded, so an overflow of 32 bits in them is not modelled.
- ValueCodec.DecodeEncode: floats are excluded, since the encoder prints them with loss; a byte other than the type byte's own that ends a text early is outside the model.
- The parser keeps values under construction on its stack and puts them into their owner when they are popped, where the source shares pointers; directories likewise. The node of an XML entry is a value that is replaced, not changed in place, and the children a reading of malformed nodes unlinks stay where they are.
- The XML cache starts from any disk, but in agreement with it only when every directory has its data file; the markup tree starts only where every directory above a data file has one.
- The XML text level: escaping, tokenising, indentation, and the order of attributes.
- D-Bus, CORBA, signals, modules, logging, locks, permissions, memory and the clock.
- Recursive preloading and recursive unsetting in the client, reconnection after a restart of the daemon, and the client's own change sets.
- Sources, schemas and defaults of the daemon beyond a map of defaults; the backends' metadata and listings other than the subdirectories of the XML backend.
