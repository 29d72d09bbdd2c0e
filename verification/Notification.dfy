/**
 * One client, the daemon and the queue of notifications between them, as a state machine. The
 * client's steps are those of GConfClient; everything other clients do is a remote set or unset.
 * A notification carries the section it was sent for, and the client drops it on arrival when it
 * holds no registration for that section.
 */
module Notification {
  import opened Options
  import opened Paths
  import opened Values
  import opened Watching
  import opened ClientCaches

  datatype Message = Message(section: Path, key: Path, value: Option<Value>)

  datatype System = System(
    addCount: map<Path, nat>,
    cache: map<Path, Entry>,
    fullDirs: set<Path>,
    stored: map<Path, Value>,
    defaults: map<Path, Value>,
    queue: seq<Message>)

  datatype Step =
    | RemoteSet(key: Path, value: Value)
    | RemoteUnset(key: Path)
    | ClientSet(key: Path, value: Value)
    | ClientUnset(key: Path)
    | Get(key: Path, reply: Entry)
    | AllEntries(dir: Path, replies: map<Path, Entry>)
    | Deliver
    | AddDir(dir: Path)
    | RemoveDir(dir: Path)
    | ClearCache

  /** The value the daemon answers with: what was set, or else the default. */
  function Current(s: System, key: Path): Option<Value> {
    if key in s.stored then Some(s.stored[key])
    else if key in s.defaults then Some(s.defaults[key])
    else None
  }

  ghost function Registered(s: System): set<Path> {
    Topmost(s.addCount.Keys)
  }

  ghost predicate Monitored(s: System, key: Path) {
    Covered(s.addCount.Keys, key)
  }

  /** The sections a change of key is sent for, in the order of the daemon's walk up the namespace. */
  ghost function SectionsNotified(registered: set<Path>, key: Path): seq<Path>
    decreases |key|
  {
    (if key in registered then [key] else [])
    + (if key == [] then [] else SectionsNotified(registered, Parent(key)))
  }

  ghost function Messages(sections: seq<Path>, key: Path, value: Option<Value>): seq<Message> {
    seq(|sections|, i requires 0 <= i < |sections| => Message(sections[i], key, value))
  }

  /** The daemon has just changed key: it notifies everyone registered above it. */
  ghost function Announce(s: System, key: Path): System {
    s.(queue := s.queue + Messages(SectionsNotified(Registered(s), key), key, Current(s, key)))
  }

  ghost function Receive(s: System): System
    requires s.queue != []
  {
    var m := s.queue[0];
    var s' := s.(queue := s.queue[1..]);
    if m.section in Registered(s) then
      s'.(cache := CachePut(s.cache, m.key, NewEntry(m.value), true))
    else s'
  }

  /** What the daemon answers, up to the attributes it sends along. */
  ghost predicate Enabled(s: System, step: Step) {
    match step
    case RemoteSet(key, _) => key != []
    case RemoteUnset(key) => key != []
    case ClientSet(key, _) => key != []
    case ClientUnset(key) => key != []
    case Get(key, reply) => key != [] && reply.value == Current(s, key)
    case AllEntries(dir, replies) =>
      && (forall k :: k in replies ==> k != [] && Parent(k) == dir && replies[k].value == Current(s, k))
      && (forall k :: k != [] && Parent(k) == dir && Current(s, k).Some? ==> k in replies)
    case Deliver => s.queue != []
    case AddDir(_) => true
    case RemoveDir(dir) => dir in s.addCount && s.addCount[dir] > 0
    case ClearCache => true
  }

  ghost function Apply(s: System, step: Step): System
    requires Enabled(s, step)
  {
    match step
    case RemoteSet(key, value) => Announce(s.(stored := s.stored[key := value]), key)
    case RemoteUnset(key) => Announce(s.(stored := s.stored - {key}), key)
    case ClientSet(key, value) =>
      var s' := Announce(s.(stored := s.stored[key := value]), key);
      s'.(cache := CachePut(s.cache, key, NewEntry(Some(value)), true))
    case ClientUnset(key) =>
      var s' := Announce(s.(stored := s.stored - {key}), key);
      s'.(cache := s.cache - {key}, fullDirs := ForgetDirOf(s.fullDirs, key))
    case Get(key, reply) =>
      if LookupIn(s.cache, s.fullDirs, key) == Miss && Monitored(s, key) then
        s.(cache := CachePut(s.cache, key, reply, false))
      else s
    case AllEntries(dir, replies) =>
      if dir !in s.fullDirs && Monitored(s, dir) then
        s.(cache := CacheAll(s.cache, replies), fullDirs := s.fullDirs + {dir})
      else s
    case Deliver => Receive(s)
    case AddDir(dir) =>
      s.(addCount := s.addCount[dir := 1 + if dir in s.addCount then s.addCount[dir] else 0])
    case RemoveDir(dir) =>
      if s.addCount[dir] > 1 then s.(addCount := s.addCount[dir := s.addCount[dir] - 1])
      else s.(addCount := s.addCount - {dir},
              cache := ForgetBelow(s.cache, dir), fullDirs := ForgetDirsBelow(s.fullDirs, dir))
    case ClearCache => s.(cache := map[], fullDirs := {})
  }

  /** Whoever sets a key, its value is the daemon's from then on; unset, it has its default; no other key changes. */
  lemma WritesAre(s: System, key: Path, value: Value, other: Path)
    requires key != [] && other != key
    ensures Current(Apply(s, RemoteSet(key, value)), key) == Some(value)
    ensures Current(Apply(s, ClientSet(key, value)), key) == Some(value)
    ensures Current(Apply(s, RemoteUnset(key)), key) ==
            Current(Apply(s, ClientUnset(key)), key) == if key in s.defaults then Some(s.defaults[key]) else None
    ensures Current(Apply(s, RemoteSet(key, value)), other) == Current(Apply(s, RemoteUnset(key)), other) ==
            Current(Apply(s, ClientSet(key, value)), other) == Current(Apply(s, ClientUnset(key)), other) ==
            Current(s, other)
  {
  }

  /** The steps of a client that change no key leave the daemon alone. */
  lemma OtherStepsWriteNothing(s: System, step: Step, key: Path)
    requires Enabled(s, step) && !step.RemoteSet? && !step.RemoteUnset? && !step.ClientSet? && !step.ClientUnset?
    ensures Current(Apply(s, step), key) == Current(s, key)
  {
  }

  // ----- what is in flight -----

  /** The last notification for key the client would act on. */
  ghost function LastFor(queue: seq<Message>, registered: set<Path>, key: Path): Option<Message> {
    if queue == [] then None
    else
      var m := queue[|queue| - 1];
      if m.key == key && m.section in registered then Some(m)
      else LastFor(queue[..|queue| - 1], registered, key)
  }

  /** The value the cache will hold for key once the queue is drained; None when it will hold no entry. */
  ghost function Settled(s: System, key: Path): Option<Option<Value>> {
    match LastFor(s.queue, Registered(s), key)
    case Some(m) => Some(m.value)
    case None => if key in s.cache then Some(s.cache[key].value) else None
  }

  ghost function Drain(s: System): System
    decreases |s.queue|
  {
    if s.queue == [] then s else Drain(Receive(s))
  }

  // ----- the invariant -----

  /** Every entry is, or is about to become, the daemon's current value. */
  ghost predicate UpToDate(s: System) {
    forall key :: Settled(s, key).Some? ==> Settled(s, key).value == Current(s, key)
  }

  /** No key of a fully cached directory that has a value is, or will be, missing from the cache. */
  ghost predicate Complete(s: System) {
    forall key :: key != [] && Parent(key) in s.fullDirs && Current(s, key).Some? ==> Settled(s, key).Some?
  }

  ghost predicate Confined(s: System) {
    && (forall k :: k in s.cache ==> Monitored(s, k))
    && (forall d :: d in s.fullDirs ==> Monitored(s, d))
    && (forall i :: 0 <= i < |s.queue| ==> IsBelow(s.queue[i].section, s.queue[i].key))
    && (forall d :: d in s.addCount ==> s.addCount[d] > 0)
  }

  ghost predicate Consistent(s: System) {
    Confined(s) && UpToDate(s) && Complete(s)
  }

  // ----- lemmas on the queue -----

  lemma {:induction false} LastForCons(m: Message, queue: seq<Message>, registered: set<Path>, key: Path)
    ensures LastFor([m] + queue, registered, key) ==
            (match LastFor(queue, registered, key)
             case Some(n) => Some(n)
             case None => if m.key == key && m.section in registered then Some(m) else None)
  {
    var q := [m] + queue;
    if queue == [] {
      assert q[..|q| - 1] == [];
    } else {
      assert q[..|q| - 1] == [m] + queue[..|queue| - 1];
      LastForCons(m, queue[..|queue| - 1], registered, key);
    }
  }

  lemma {:induction false} LastForAppend(queue: seq<Message>, more: seq<Message>, registered: set<Path>, key: Path)
    ensures LastFor(queue + more, registered, key) ==
            (match LastFor(more, registered, key)
             case Some(n) => Some(n)
             case None => LastFor(queue, registered, key))
  {
    var q := queue + more;
    if more == [] {
      assert q == queue;
    } else {
      assert q[..|q| - 1] == queue + more[..|more| - 1];
      LastForAppend(queue, more[..|more| - 1], registered, key);
    }
  }

  lemma {:induction false} LastForIsQueued(queue: seq<Message>, registered: set<Path>, key: Path)
    ensures LastFor(queue, registered, key).Some? ==>
              exists i :: 0 <= i < |queue| && queue[i] == LastFor(queue, registered, key).value
                          && queue[i].key == key && queue[i].section in registered
  {
    if queue != [] {
      var m := queue[|queue| - 1];
      if !(m.key == key && m.section in registered) {
        LastForIsQueued(queue[..|queue| - 1], registered, key);
      }
    }
  }

  /** Two sets of registrations that agree on every section in flight select the same notification. */
  lemma {:induction false} LastForAgree(queue: seq<Message>, r1: set<Path>, r2: set<Path>, key: Path)
    requires forall i :: 0 <= i < |queue| && queue[i].key == key ==>
               (queue[i].section in r1 <==> queue[i].section in r2)
    ensures LastFor(queue, r1, key) == LastFor(queue, r2, key)
  {
    if queue != [] {
      LastForAgree(queue[..|queue| - 1], r1, r2, key);
    }
  }

  // ----- exactly one notification -----

  lemma {:induction false} SectionsAreRegisteredPrefixes(registered: set<Path>, key: Path)
    ensures forall i :: 0 <= i < |SectionsNotified(registered, key)| ==>
              SectionsNotified(registered, key)[i] in registered && IsBelow(SectionsNotified(registered, key)[i], key)
    decreases |key|
  {
    if key != [] {
      var up := SectionsNotified(registered, Parent(key));
      SectionsAreRegisteredPrefixes(registered, Parent(key));
      forall i | 0 <= i < |up|
        ensures IsBelow(up[i], key)
      {
        PrefixIsTransitive(up[i], Parent(key), key);
      }
    }
  }

  lemma {:induction false} RegisteredPrefixIsNotified(registered: set<Path>, key: Path, d: Path)
    requires d in registered && IsBelow(d, key)
    ensures d in SectionsNotified(registered, key)
    decreases |key|
  {
    if d != key {
      PrefixOfParent(d, key);
      RegisteredPrefixIsNotified(registered, Parent(key), d);
    }
  }

  /**
   * Registered on exactly its topmost watched directories, the client hears of every change of a
   * monitored key exactly once, and of no other change.
   */
  lemma {:induction false} NotifiedExactlyOnce(watched: set<Path>, key: Path)
    ensures |SectionsNotified(Topmost(watched), key)| == if Covered(watched, key) then 1 else 0
    decreases |key|
  {
    if key != [] {
      NotifiedExactlyOnce(watched, Parent(key));
      forall d | d in watched
        ensures IsBelow(d, Parent(key)) <==> IsBelow(d, key) && d != key
      {
        PrefixOfParent(d, key);
      }
    }
  }

  // ----- when a step is safe -----

  /** With these registrations the last notification the client would act on does not carry the current value. */
  ghost predicate Stale(s: System, registered': set<Path>, key: Path) {
    match LastFor(s.queue, registered', key)
    case None => false
    case Some(m) => m.value != Current(s, key)
  }

  /**
   * Watching dir drops the registration key's notifications are sent for, and with it a change of key
   * that nothing else in flight brings.
   */
  ghost predicate LosesNews(s: System, dir: Path, key: Path) {
    && (exists r :: r in Registered(s) && IsBelow(dir, r) && IsBelow(r, key))
    && LastFor(s.queue, Topmost(s.addCount.Keys + {dir}), key) == None
    && (match LastFor(s.queue, Registered(s), key)
        case None => false
        case Some(m) =>
          if key in s.cache then s.cache[key].value != m.value
          else key != [] && Parent(key) in s.fullDirs && m.value.Some?)
  }

  /** Forgetting what lies below dir also forgets the key dir itself, in a directory that stays fully cached. */
  ghost predicate LosesKey(s: System, dir: Path) {
    && dir != [] && Parent(dir) in s.fullDirs && Current(s, dir).Some?
    && LastFor(s.queue, Topmost(s.addCount.Keys - {dir}), dir) == None
  }

  ghost predicate Safe(s: System, step: Step) {
    match step
    case ClientSet(key, _) => Monitored(s, key)
    case AddDir(dir) =>
      dir !in s.addCount ==>
        forall key :: !Stale(s, Topmost(s.addCount.Keys + {dir}), key) && !LosesNews(s, dir, key)
    case RemoveDir(dir) =>
      dir in s.addCount && s.addCount[dir] == 1 ==>
        !LosesKey(s, dir) && forall key :: !Stale(s, Topmost(s.addCount.Keys - {dir}), key)
    case _ => true
  }

  // ----- one step -----

  lemma {:induction false} OwnMessages(sections: seq<Path>, changed: Path, value: Option<Value>,
                                       registered: set<Path>, key: Path)
    requires forall i :: 0 <= i < |sections| ==> sections[i] in registered
    ensures LastFor(Messages(sections, changed, value), registered, key) ==
            if key == changed && sections != []
            then Some(Message(sections[|sections| - 1], key, value)) else None
  {
    if sections != [] {
      var front := sections[..|sections| - 1];
      var ms := Messages(sections, changed, value);
      assert ms[..|ms| - 1] == Messages(front, changed, value);
      OwnMessages(front, changed, value, registered, key);
    }
  }

  lemma {:induction false} AnnounceSettles(s: System, changed: Path, key: Path)
    ensures Settled(Announce(s, changed), key) ==
            if key == changed && Monitored(s, changed) then Some(Current(s, changed)) else Settled(s, key)
    ensures key == changed && Monitored(s, changed) ==>
              LastFor(Announce(s, changed).queue, Registered(s), key).Some?
  {
    var sections := SectionsNotified(Registered(s), changed);
    NotifiedExactlyOnce(s.addCount.Keys, changed);
    SectionsAreRegisteredPrefixes(Registered(s), changed);
    OwnMessages(sections, changed, Current(s, changed), Registered(s), key);
    LastForAppend(s.queue, Messages(sections, changed, Current(s, changed)), Registered(s), key);
  }

  lemma AnnounceConfined(s: System, changed: Path)
    requires Confined(s)
    ensures Confined(Announce(s, changed))
  {
    SectionsAreRegisteredPrefixes(Registered(s), changed);
    var s' := Announce(s, changed);
    forall k ensures Monitored(s', k) <==> Monitored(s, k) {}
  }

  lemma ReceiveSettles(s: System, key: Path)
    requires s.queue != []
    ensures Settled(Receive(s), key) == Settled(s, key)
  {
    var m := s.queue[0];
    assert s.queue == [m] + s.queue[1..];
    LastForCons(m, s.queue[1..], Registered(s), key);
  }

  lemma ReceiveConfined(s: System)
    requires s.queue != [] && Confined(s)
    ensures Confined(Receive(s))
  {
    var m, s' := s.queue[0], Receive(s);
    assert forall k :: Monitored(s', k) <==> Monitored(s, k);
    if m.section in Registered(s) {
      assert IsBelow(m.section, m.key);
    }
  }

  /** An unmonitored key has no entry and nothing in flight. */
  lemma UnmonitoredIsUnknown(s: System, key: Path)
    requires Confined(s) && !Monitored(s, key)
    ensures Settled(s, key) == None
  {
    LastForIsQueued(s.queue, Registered(s), key);
  }

  lemma RemoteStepConsistent(s: System, s1: System, key: Path)
    requires Consistent(s)
    requires s1 == s.(stored := s1.stored)
    requires forall k :: k != key ==> Current(s1, k) == Current(s, k)
    ensures Consistent(Announce(s1, key))
  {
    var s' := Announce(s1, key);
    AnnounceConfined(s1, key);
    forall k
      ensures Settled(s', k).Some? ==> Settled(s', k).value == Current(s', k)
      ensures k != [] && Parent(k) in s'.fullDirs && Current(s', k).Some? ==> Settled(s', k).Some?
    {
      AnnounceSettles(s1, key, k);
      assert Settled(s1, k) == Settled(s, k);
      if k == key && !Monitored(s, key) {
        UnmonitoredIsUnknown(s, key);
        if key != [] && Parent(key) in s.fullDirs {
          var d :| d in s.addCount.Keys && IsBelow(d, Parent(key));
          PrefixOfParent(d, key);
        }
      }
    }
  }

  /** The client replaces or drops its own entry for key, knowing better or with the news in flight. */
  lemma {:induction false} CacheChangeConsistent(s: System, key: Path, cache': map<Path, Entry>, fullDirs': set<Path>)
    requires Consistent(s)
    requires key in cache' ==> Monitored(s, key) && cache'[key].value == Current(s, key)
    requires key !in cache' && key in s.cache ==> LastFor(s.queue, Registered(s), key).Some?
    requires cache'.Keys + {key} == s.cache.Keys + {key}
    requires forall k :: k != key && k in s.cache ==> cache'[k] == s.cache[k]
    requires fullDirs' <= s.fullDirs
    ensures Consistent(s.(cache := cache', fullDirs := fullDirs'))
  {
    var s' := s.(cache := cache', fullDirs := fullDirs');
    assert Registered(s') == Registered(s);
    assert forall k :: Monitored(s', k) <==> Monitored(s, k);
    forall k
      ensures Settled(s', k).Some? ==> Settled(s', k).value == Current(s', k)
      ensures Settled(s, k).Some? ==> Settled(s', k).Some?
    {
      assert k != key ==> (k in cache' <==> k in cache'.Keys + {key}) && (k in s.cache <==> k in s.cache.Keys + {key});
      if k != key {
        assert Settled(s', k) == Settled(s, k);
      } else {
        assert LastFor(s.queue, Registered(s), key).Some? ==> Settled(s', k) == Settled(s, k);
      }
    }
    forall k | k in cache' ensures Monitored(s', k) {
      assert k != key ==> k in cache'.Keys + {key};
    }
  }

  lemma ClientSetConsistent(s: System, key: Path, value: Value)
    requires Consistent(s) && key != [] && Monitored(s, key)
    ensures Consistent(Apply(s, ClientSet(key, value)))
  {
    var s1 := s.(stored := s.stored[key := value]);
    RemoteStepConsistent(s, s1, key);
    CacheChangeConsistent(Announce(s1, key), key, CachePut(s.cache, key, NewEntry(Some(value)), true), s.fullDirs);
  }

  lemma ClientUnsetConsistent(s: System, key: Path)
    requires Consistent(s) && key != []
    ensures Consistent(Apply(s, ClientUnset(key)))
  {
    var s1 := s.(stored := s.stored - {key});
    RemoteStepConsistent(s, s1, key);
    AnnounceSettles(s1, key, key);
    CacheChangeConsistent(Announce(s1, key), key, s.cache - {key}, ForgetDirOf(s.fullDirs, key));
  }

  lemma ListingStaysConfined(s: System, dir: Path, replies: map<Path, Entry>)
    requires Confined(s) && Enabled(s, AllEntries(dir, replies)) && Monitored(s, dir)
    ensures Confined(s.(cache := CacheAll(s.cache, replies), fullDirs := s.fullDirs + {dir}))
  {
    forall k | k in replies
      ensures Monitored(s, k)
    {
      var d :| d in s.addCount.Keys && IsBelow(d, dir);
      PrefixOfParent(d, k);
    }
  }

  lemma AllEntriesConsistent(s: System, dir: Path, replies: map<Path, Entry>)
    requires Consistent(s) && Enabled(s, AllEntries(dir, replies)) && Monitored(s, dir)
    ensures Consistent(s.(cache := CacheAll(s.cache, replies), fullDirs := s.fullDirs + {dir}))
  {
    var s' := s.(cache := CacheAll(s.cache, replies), fullDirs := s.fullDirs + {dir});
    ListingStaysConfined(s, dir, replies);
    forall k
      ensures Settled(s', k).Some? ==> Settled(s', k).value == Current(s', k)
      ensures Settled(s, k).Some? || k in replies ==> Settled(s', k).Some?
    {
      OneOfAll(s.cache, replies, k);
      if k !in replies {
        assert Settled(s', k) == Settled(s, k);
      }
    }
  }

  /** A notification the client acts on but will not once dir is watched is for a registration below dir. */
  lemma {:induction false} DroppedByAdding(s: System, dir: Path, key: Path)
    requires Confined(s) && dir !in s.addCount
    requires LastFor(s.queue, Topmost(s.addCount.Keys + {dir}), key) == None
    ensures LastFor(s.queue, Registered(s), key).Some? ==>
              exists r :: r in Registered(s) && IsBelow(dir, r) && IsBelow(r, key)
  {
    var before, after := Registered(s), Topmost(s.addCount.Keys + {dir});
    AddingToTopmost(s.addCount.Keys, dir);
    LastForIsQueued(s.queue, before, key);
    if LastFor(s.queue, before, key).Some? {
      var i :| 0 <= i < |s.queue| && s.queue[i].key == key && s.queue[i].section in before;
      if s.queue[i].section in after {
        QueuedIsLast(s.queue, after, key, i);
      }
      assert IsBelow(dir, s.queue[i].section);
    }
  }

  lemma {:induction false} QueuedIsLast(queue: seq<Message>, registered: set<Path>, key: Path, i: nat)
    requires i < |queue| && queue[i].key == key && queue[i].section in registered
    ensures LastFor(queue, registered, key).Some?
  {
    if i < |queue| - 1 {
      QueuedIsLast(queue[..|queue| - 1], registered, key, i);
    }
  }

  lemma WatchingMoreConfined(s: System, dir: Path)
    requires Confined(s) && dir !in s.addCount
    ensures Confined(Apply(s, AddDir(dir)))
    ensures Registered(Apply(s, AddDir(dir))) == Topmost(s.addCount.Keys + {dir})
  {
    var s' := Apply(s, AddDir(dir));
    assert s'.addCount.Keys == s.addCount.Keys + {dir};
    forall k | Monitored(s, k)
      ensures Monitored(s', k)
    {
      var d :| d in s.addCount.Keys && IsBelow(d, k);
      assert d in s'.addCount.Keys;
    }
  }

  /**
   * Watching a new directory keeps every entry current and every fully cached directory complete
   * exactly when no older change comes back to life with the new registration and no change of a
   * cached or listed key is in flight for a registration it drops.
   */
  lemma {:induction false} AddDirIsSafeExactlyWhen(s: System, dir: Path)
    requires Consistent(s) && dir !in s.addCount
    ensures Consistent(Apply(s, AddDir(dir))) <==>
            forall key :: !Stale(s, Topmost(s.addCount.Keys + {dir}), key) && !LosesNews(s, dir, key)
  {
    var s' := Apply(s, AddDir(dir));
    WatchingMoreConfined(s, dir);
    forall key
      ensures Stale(s, Registered(s'), key) || LosesNews(s, dir, key) ==> !Consistent(s')
      ensures !Stale(s, Registered(s'), key) && !LosesNews(s, dir, key) ==>
                && (Settled(s', key).Some? ==> Settled(s', key).value == Current(s', key))
                && (key != [] && Parent(key) in s'.fullDirs && Current(s', key).Some? ==> Settled(s', key).Some?)
    {
      assert Current(s', key) == Current(s, key);
      assert Settled(s, key).Some? ==> Settled(s, key).value == Current(s, key);
      if LastFor(s.queue, Registered(s'), key) == None {
        DroppedByAdding(s, dir, key);
      }
    }
  }

  /** Registrations that come and go with dir lie at or below it. */
  lemma RegistrationsElsewhereStay(watched: set<Path>, dir: Path, r: Path)
    requires dir in watched && !IsBelow(dir, r)
    ensures r in Topmost(watched - {dir}) <==> r in Topmost(watched)
  {
  }

  lemma {:induction false} NewsElsewhereStays(s: System, dir: Path, key: Path)
    requires Confined(s) && dir in s.addCount && !IsBelow(dir, key)
    ensures LastFor(s.queue, Topmost(s.addCount.Keys - {dir}), key) == LastFor(s.queue, Registered(s), key)
  {
    var after := Topmost(s.addCount.Keys - {dir});
    forall i | 0 <= i < |s.queue| && s.queue[i].key == key
      ensures s.queue[i].section in after <==> s.queue[i].section in Registered(s)
    {
      var section := s.queue[i].section;
      if IsBelow(dir, section) {
        PrefixIsTransitive(dir, section, key);
      }
      RegistrationsElsewhereStay(s.addCount.Keys, dir, section);
    }
    LastForAgree(s.queue, after, Registered(s), key);
  }

  lemma WatchingLessConfined(s: System, dir: Path)
    requires Confined(s) && dir in s.addCount && s.addCount[dir] == 1
    ensures Confined(Apply(s, RemoveDir(dir)))
    ensures Registered(Apply(s, RemoveDir(dir))) == Topmost(s.addCount.Keys - {dir})
  {
    var s' := Apply(s, RemoveDir(dir));
    assert s'.addCount.Keys == s.addCount.Keys - {dir};
    forall k | Monitored(s, k) && !IsBelow(dir, k)
      ensures Monitored(s', k)
    {
      var d :| d in s.addCount.Keys && IsBelow(d, k);
      assert d in s'.addCount.Keys;
    }
  }

  /**
   * Giving up the last use of a directory keeps the client right exactly when no older change comes
   * back to life with a registration made in its place, and the directory's own name is not a key
   * with a value in a fully cached directory, unless news of it is still to come.
   */
  lemma {:induction false} RemoveDirIsSafeExactlyWhen(s: System, dir: Path)
    requires Consistent(s) && dir in s.addCount && s.addCount[dir] == 1
    ensures Consistent(Apply(s, RemoveDir(dir))) <==>
            !LosesKey(s, dir) && forall key :: !Stale(s, Topmost(s.addCount.Keys - {dir}), key)
  {
    var s' := Apply(s, RemoveDir(dir));
    WatchingLessConfined(s, dir);
    forall key
      ensures Stale(s, Registered(s'), key) ==> !Consistent(s')
      ensures !Stale(s, Registered(s'), key) ==>
                (Settled(s', key).Some? ==> Settled(s', key).value == Current(s', key))
      ensures !LosesKey(s, dir) && key != [] && Parent(key) in s'.fullDirs && Current(s', key).Some? ==>
                Settled(s', key).Some?
    {
      assert Current(s', key) == Current(s, key);
      assert Settled(s, key).Some? ==> Settled(s, key).value == Current(s, key);
      if !IsBelow(dir, key) {
        NewsElsewhereStays(s, dir, key);
      } else if key != [] && Parent(key) in s'.fullDirs {
        PrefixOfParent(dir, key);
        assert key == dir;
      }
    }
    if LosesKey(s, dir) {
      PrefixOfParent(dir, dir);
      assert Parent(dir) in s'.fullDirs && Settled(s', dir) == None;
    }
  }

  lemma DeliverConsistent(s: System)
    requires Consistent(s) && Enabled(s, Deliver)
    ensures Consistent(Receive(s))
  {
    ReceiveConfined(s);
    var s' := Receive(s);
    forall k
      ensures Settled(s', k) == Settled(s, k) && Current(s', k) == Current(s, k)
    {
      ReceiveSettles(s, k);
    }
  }

  lemma ClearCacheConsistent(s: System)
    requires Consistent(s) && Enabled(s, ClearCache)
    ensures Consistent(Apply(s, ClearCache))
  {
    var s' := Apply(s, ClearCache);
    forall k
      ensures Settled(s', k).Some? ==> Settled(s', k) == Settled(s, k)
    {
    }
  }

  lemma StepKeepsConsistent(s: System, step: Step)
    requires Consistent(s) && Enabled(s, step) && Safe(s, step)
    ensures Consistent(Apply(s, step))
  {
    match step
    case RemoteSet(key, value) => RemoteStepConsistent(s, s.(stored := s.stored[key := value]), key);
    case RemoteUnset(key) => RemoteStepConsistent(s, s.(stored := s.stored - {key}), key);
    case ClientSet(key, value) => ClientSetConsistent(s, key, value);
    case ClientUnset(key) => ClientUnsetConsistent(s, key);
    case Get(key, reply) =>
      if LookupIn(s.cache, s.fullDirs, key) == Miss && Monitored(s, key) {
        CacheChangeConsistent(s, key, CachePut(s.cache, key, reply, false), s.fullDirs);
      }
    case AllEntries(dir, replies) =>
      if Monitored(s, dir) {
        AllEntriesConsistent(s, dir, replies);
      }
    case Deliver => DeliverConsistent(s);
    case AddDir(dir) =>
      if dir !in s.addCount {
        AddDirIsSafeExactlyWhen(s, dir);
      } else {
        RecountKeepsConsistent(s, dir, s.addCount[dir] + 1);
      }
    case RemoveDir(dir) =>
      if s.addCount[dir] == 1 {
        RemoveDirIsSafeExactlyWhen(s, dir);
      } else {
        RecountKeepsConsistent(s, dir, s.addCount[dir] - 1);
      }
    case ClearCache => ClearCacheConsistent(s);
  }

  lemma RecountKeepsConsistent(s: System, dir: Path, count: nat)
    requires Consistent(s) && dir in s.addCount && count > 0
    ensures Consistent(s.(addCount := s.addCount[dir := count]))
  {
    var s' := s.(addCount := s.addCount[dir := count]);
    assert s'.addCount.Keys == s.addCount.Keys;
    forall k ensures Settled(s', k) == Settled(s, k) && (Monitored(s', k) <==> Monitored(s, k)) {}
  }

  // ----- whole runs -----

  ghost predicate Runnable(s: System, steps: seq<Step>)
    decreases |steps|
  {
    steps == [] || (Enabled(s, steps[0]) && Safe(s, steps[0]) && Runnable(Apply(s, steps[0]), steps[1..]))
  }

  ghost function Run(s: System, steps: seq<Step>): System
    requires Runnable(s, steps)
    decreases |steps|
  {
    if steps == [] then s else Run(Apply(s, steps[0]), steps[1..])
  }

  function Start(stored: map<Path, Value>, defaults: map<Path, Value>): System {
    System(map[], map[], {}, stored, defaults, [])
  }

  lemma {:induction false} RunKeepsConsistent(s: System, steps: seq<Step>)
    requires Consistent(s) && Runnable(s, steps)
    ensures Consistent(Run(s, steps))
    decreases |steps|
  {
    if steps != [] {
      StepKeepsConsistent(s, steps[0]);
      RunKeepsConsistent(Apply(s, steps[0]), steps[1..]);
    }
  }

  lemma {:induction false} DrainSettles(s: System, key: Path)
    ensures Drain(s).queue == []
    ensures Settled(Drain(s), key) == Settled(s, key)
    ensures Drain(s) == s.(queue := [], cache := Drain(s).cache)
    decreases |s.queue|
  {
    if s.queue != [] {
      ReceiveSettles(s, key);
      DrainSettles(Receive(s), key);
    }
  }

  /**
   * Quiescent consistency: whatever the client and the others did, once the notifications in flight
   * have arrived a lookup answers every cached key with the daemon's value, every key the client takes
   * for absent has no value, and the listing of a fully cached directory holds every value in it.
   */
  lemma {:induction false} QuiescentConsistency(stored: map<Path, Value>, defaults: map<Path, Value>, steps: seq<Step>,
                                                key: Path)
    requires Runnable(Start(stored, defaults), steps)
    ensures var s := Drain(Run(Start(stored, defaults), steps));
            && (key in s.cache ==> s.cache[key].value == Current(s, key))
            && (match LookupIn(s.cache, s.fullDirs, key)
                case Hit(entry) => key in s.cache && entry.value == Current(s, key)
                case KnownAbsent => key !in s.cache && Current(s, key) == None
                case Miss => key !in s.cache)
            && (key != [] && Parent(key) != [] && Parent(key) in s.fullDirs && Current(s, key).Some? ==>
                  && key in CachedListing(s.cache, Parent(key))
                  && CachedListing(s.cache, Parent(key))[key].value == Current(s, key))
  {
    var start := Start(stored, defaults);
    assert Consistent(start) by {
      forall k ensures Settled(start, k) == None {}
    }
    RunKeepsConsistent(start, steps);
    var s0 := Run(start, steps);
    DrainSettles(s0, key);
    var s := Drain(s0);
    assert Settled(s, key) == if key in s.cache then Some(s.cache[key].value) else None;
  }

  /** The invariant asks for no more than this: it holds of a confined state exactly when draining it is right. */
  lemma {:induction false} UpToDateMeansRightOnceDrained(s: System)
    ensures UpToDate(s) <==> forall key :: key in Drain(s).cache ==> Drain(s).cache[key].value == Current(s, key)
  {
    forall key
      ensures Settled(s, key) == if key in Drain(s).cache then Some(Drain(s).cache[key].value) else None
    {
      DrainSettles(s, key);
    }
  }

  // ----- what goes wrong in the other runs -----

  lemma OneDirIsTopmost(d: Path)
    ensures Topmost({d}) == {d} && Topmost({}) == {}
  {
  }

  lemma {:induction false} OneMoreStep(s: System, step: Step, steps: seq<Step>)
    requires Enabled(s, step) && Safe(s, step) && Runnable(Apply(s, step), steps)
    ensures Runnable(s, [step] + steps) && Run(s, [step] + steps) == Run(Apply(s, step), steps)
  {
    assert ([step] + steps)[1..] == steps;
  }

  lemma {:induction false} OneStepLater(s: System, steps: seq<Step>, step: Step)
    requires Runnable(s, steps) && Enabled(Run(s, steps), step) && Safe(Run(s, steps), step)
    ensures Runnable(s, steps + [step]) && Run(s, steps + [step]) == Apply(Run(s, steps), step)
    decreases |steps|
  {
    if steps == [] {
      assert steps + [step] == [step] + [];
      OneMoreStep(s, step, []);
    } else {
      OneStepLater(Apply(s, steps[0]), steps[1..], step);
      assert (steps + [step])[1..] == steps[1..] + [step];
    }
  }

  /** A client that watches d and has k, a key directly below it, cached; then someone sets k. */
  lemma WatchedAndSet(d: Path, k: Path, v1: Value, v2: Value) returns (steps: seq<Step>, s: System)
    requires k != [] && Parent(k) == d
    ensures Runnable(Start(map[k := v1], map[]), steps) && s == Run(Start(map[k := v1], map[]), steps)
    ensures s == System(map[d := 1], map[k := NewEntry(Some(v1))], {}, map[k := v2], map[], [Message(d, k, Some(v2))])
  {
    var s0 := Start(map[k := v1], map[]);
    var s1 := s0.(addCount := map[d := 1]);
    var s2 := s1.(cache := map[k := NewEntry(Some(v1))]);
    s := s2.(stored := map[k := v2], queue := [Message(d, k, Some(v2))]);
    OneDirIsTopmost(d);
    PrefixOfParent(d, k);
    assert {} + {d} == {d} && s1.addCount.Keys == {d} && s0.addCount.Keys == {};
    assert s1 == Apply(s0, AddDir(d));
    assert d in s1.addCount.Keys && IsBelow(d, k);
    assert s2 == Apply(s1, Get(k, NewEntry(Some(v1))));
    NotifiedExactlyOnce({d}, k);
    SectionsAreRegisteredPrefixes({d}, k);
    assert SectionsNotified({d}, k) == [d];
    assert Messages([d], k, Some(v2)) == [Message(d, k, Some(v2))];
    assert s.stored == s2.stored[k := v2];
    assert s == Apply(s2, RemoteSet(k, v2));
    assert Runnable(s, []);
    OneMoreStep(s2, RemoteSet(k, v2), []);
    OneMoreStep(s1, Get(k, NewEntry(Some(v1))), [RemoteSet(k, v2)] + []);
    OneMoreStep(s0, AddDir(d), [Get(k, NewEntry(Some(v1)))] + ([RemoteSet(k, v2)] + []));
    steps := [AddDir(d)] + ([Get(k, NewEntry(Some(v1)))] + ([RemoteSet(k, v2)] + []));
  }

  /**
   * Watching /a while a change of /a/b/k is in flight for the registration on /a/b: the change is
   * dropped on arrival and the cache keeps the old value for good.
   */
  lemma CoveringAddDirLosesNews(v1: Value, v2: Value) returns (steps: seq<Step>, s: System)
    requires v1 != v2
    ensures var k := ["a", "b", "k"];
            && Runnable(Start(map[k := v1], map[]), steps) && s == Run(Start(map[k := v1], map[]), steps)
            && LosesNews(s, ["a"], k)
            && k in Drain(Apply(s, AddDir(["a"]))).cache
            && Drain(Apply(s, AddDir(["a"]))).cache[k].value == Some(v1)
            && Current(Drain(Apply(s, AddDir(["a"]))), k) == Some(v2)
  {
    var a, b, k := ["a"], ["a", "b"], ["a", "b", "k"];
    steps, s := WatchedAndSet(b, k, v1, v2);
    assert s.addCount.Keys == {b};
    OneDirIsTopmost(b);
    assert IsBelow(a, b) && IsBelow(b, k);
    var s' := Apply(s, AddDir(a));
    assert s'.addCount.Keys == {a, b};
    assert b !in Registered(s');
    assert LastFor(s.queue, Registered(s), k) == Some(Message(b, k, Some(v2)));
    assert Receive(s') == s'.(queue := []);
    assert Drain(Receive(s')) == Receive(s');
  }

  /** The directory given up and the key set once more while the first change is still in flight. */
  lemma GivenUpAndChanged(a: Path, k: Path, v1: Value, v2: Value, v3: Value) returns (steps: seq<Step>, s: System)
    requires k != [] && Parent(k) == a
    ensures Runnable(Start(map[k := v1], map[]), steps) && s == Run(Start(map[k := v1], map[]), steps)
    ensures s == System(map[], map[], {}, map[k := v3], map[], [Message(a, k, Some(v2))])
  {
    var start := Start(map[k := v1], map[]);
    var steps2, s2 := WatchedAndSet(a, k, v1, v2);
    var s3 := s2.(addCount := map[], cache := map[]);
    s := s3.(stored := map[k := v3]);
    PrefixOfParent(a, k);
    assert s2.addCount.Keys - {a} == {} && s3.addCount.Keys == {} && s2.addCount.Keys == {a};
    assert s2.addCount - {a} == map[] && ForgetBelow(s2.cache, a) == map[] && ForgetDirsBelow({}, a) == {};
    OneDirIsTopmost(a);
    assert s3 == Apply(s2, RemoveDir(a));
    assert forall key :: LastFor(s2.queue, {}, key) == None by {
      assert s2.queue[..0] == [];
    }
    OneStepLater(start, steps2, RemoveDir(a));
    NotifiedExactlyOnce({}, k);
    assert s.stored == s3.stored[k := v3] && s.queue == s3.queue + [];
    assert s == Apply(s3, RemoteSet(k, v3));
    OneStepLater(start, steps2 + [RemoveDir(a)], RemoteSet(k, v3));
    steps := steps2 + [RemoveDir(a)] + [RemoteSet(k, v3)];
  }

  /**
   * Giving up a directory and watching it again revives what is still in flight for it, while
   * what changed in between was never announced: the cache ends with the older value.
   */
  lemma WatchingAgainRevivesOldNews(v1: Value, v2: Value, v3: Value)
    requires v2 != v3
    ensures var k := ["a", "k"];
            exists steps, s ::
              && Runnable(Start(map[k := v1], map[]), steps) && s == Run(Start(map[k := v1], map[]), steps)
              && Enabled(s, AddDir(["a"])) && !Safe(s, AddDir(["a"]))
              && k in Drain(Apply(s, AddDir(["a"]))).cache
              && Drain(Apply(s, AddDir(["a"]))).cache[k].value == Some(v2)
              && Current(Drain(Apply(s, AddDir(["a"]))), k) == Some(v3)
  {
    var a, k := ["a"], ["a", "k"];
    var steps, s := GivenUpAndChanged(a, k, v1, v2, v3);
    OldNewsArrives(a, k, v2, v3, s);
  }

  lemma OldNewsArrives(a: Path, k: Path, v2: Value, v3: Value, s: System)
    requires k != [] && Parent(k) == a && v2 != v3
    requires s == System(map[], map[], {}, map[k := v3], map[], [Message(a, k, Some(v2))])
    ensures Enabled(s, AddDir(a)) && !Safe(s, AddDir(a))
    ensures var last := Drain(Apply(s, AddDir(a)));
            k in last.cache && last.cache[k].value == Some(v2) && Current(last, k) == Some(v3)
  {
    OneDirIsTopmost(a);
    PrefixOfParent(a, k);
    var s5 := Apply(s, AddDir(a));
    assert s.addCount.Keys == {} && s5.addCount.Keys == {a} && s.addCount.Keys + {a} == {a};
    assert Stale(s, {a}, k);
    var s6 := Receive(s5);
    assert s6.cache == map[k := NewEntry(Some(v2))] && s6.queue == [];
    assert Drain(s6) == s6;
  }

  lemma {:induction false} UnmonitoredChangeIsSilent(s: System, key: Path)
    requires !Monitored(s, key)
    ensures Announce(s, key) == s
  {
    NotifiedExactlyOnce(s.addCount.Keys, key);
    assert s.queue + [] == s.queue;
  }

  /** A value set on a key nobody watches is cached all the same, and no later change reaches it. */
  lemma {:induction false} UnmonitoredSetGoesStale(s: System, key: Path, v1: Value, v2: Value)
    requires Consistent(s) && key != [] && !Monitored(s, key) && v1 != v2
    ensures var last := Apply(Apply(s, ClientSet(key, v1)), RemoteSet(key, v2));
            && !UpToDate(last)
            && key in Drain(last).cache && Drain(last).cache[key].value == Some(v1)
            && Current(Drain(last), key) == Some(v2)
  {
    UnmonitoredIsUnknown(s, key);
    UnmonitoredChangeIsSilent(s.(stored := s.stored[key := v1]), key);
    var s1 := Apply(s, ClientSet(key, v1));
    assert Registered(s1) == Registered(s) && s1.queue == s.queue;
    UnmonitoredChangeIsSilent(s1.(stored := s1.stored[key := v2]), key);
    var s2 := Apply(s1, RemoteSet(key, v2));
    assert Settled(s2, key) == Some(Some(v1));
    DrainSettles(s2, key);
  }

  predicate IsRemoteWrite(step: Step) {
    (step.RemoteSet? || step.RemoteUnset?) && step.key != []
  }

  predicate AllRemote(writes: seq<Step>) {
    forall i :: 0 <= i < |writes| ==> IsRemoteWrite(writes[i])
  }

  ghost function AfterWrites(s: System, writes: seq<Step>): System
    requires AllRemote(writes)
    decreases |writes|
  {
    if writes == [] then s
    else
      assert IsRemoteWrite(writes[0]);
      AfterWrites(Apply(s, writes[0]), writes[1..])
  }

  lemma {:induction false} WritesKeepConsistent(s: System, writes: seq<Step>)
    requires Consistent(s) && AllRemote(writes)
    ensures Consistent(AfterWrites(s, writes))
    decreases |writes|
  {
    if writes != [] {
      assert IsRemoteWrite(writes[0]);
      StepKeepsConsistent(s, writes[0]);
      WritesKeepConsistent(Apply(s, writes[0]), writes[1..]);
    }
  }

  /** A value the client sets stays right whatever others write afterwards exactly when its key is watched. */
  lemma {:induction false} SetStaysRightExactlyWhen(s: System, key: Path, value: Value)
    requires Consistent(s) && key != []
    ensures Monitored(s, key) <==>
            forall writes :: AllRemote(writes) ==> UpToDate(AfterWrites(Apply(s, ClientSet(key, value)), writes))
  {
    var s1 := Apply(s, ClientSet(key, value));
    if Monitored(s, key) {
      ClientSetConsistent(s, key, value);
      forall writes | AllRemote(writes)
        ensures UpToDate(AfterWrites(s1, writes))
      {
        WritesKeepConsistent(s1, writes);
      }
    } else {
      var other := if value == IntValue(0) then IntValue(1) else IntValue(0);
      UnmonitoredSetGoesStale(s, key, value, other);
      var writes := [RemoteSet(key, other)];
      assert writes[1..] == [];
      assert AllRemote(writes) && AllRemote([]);
      assert AfterWrites(s1, writes) == AfterWrites(Apply(s1, writes[0]), []);
    }
  }

  /** Nothing in flight, a directory can be watched safely. */
  lemma WatchedInPeace(s: System, dir: Path)
    requires s.queue == []
    ensures Enabled(s, AddDir(dir)) && Safe(s, AddDir(dir))
  {
  }

  /** A client that watches two directories, one in the other, and has listed the outer one. */
  lemma WatchedAndListed(a: Path, b: Path, v: Value) returns (steps: seq<Step>, s: System)
    requires b != [] && Parent(b) == a
    ensures Runnable(Start(map[b := v], map[]), steps) && s == Run(Start(map[b := v], map[]), steps)
    ensures s == System(map[a := 1, b := 1], map[b := NewEntry(Some(v))], {a}, map[b := v], map[], [])
  {
    var replies := map[b := NewEntry(Some(v))];
    var s0 := Start(map[b := v], map[]);
    var s1 := s0.(addCount := map[a := 1]);
    var s2 := s1.(addCount := map[a := 1, b := 1]);
    s := s2.(cache := replies, fullDirs := {a});
    PrefixOfParent(a, b);
    assert a != b && s1 == Apply(s0, AddDir(a)) && s2 == Apply(s1, AddDir(b));
    assert a in s2.addCount.Keys && IsBelow(a, a);
    assert CacheAll(map[], replies) == replies && {} + {a} == {a};
    assert s == Apply(s2, AllEntries(a, replies));
    WatchedInPeace(s0, a);
    WatchedInPeace(s1, b);
    assert Runnable(s, []);
    OneMoreStep(s2, AllEntries(a, replies), []);
    OneMoreStep(s1, AddDir(b), [AllEntries(a, replies)] + []);
    steps := [AddDir(a)] + ([AddDir(b)] + ([AllEntries(a, replies)] + []));
    OneMoreStep(s0, AddDir(a), [AddDir(b)] + ([AllEntries(a, replies)] + []));
  }

  /**
   * A key that shares its name with a directory that is given up: in a parent that was listed, and so is
   * fully cached, it seems gone.
   */
  lemma ForgottenDirHidesItsKey(v: Value) returns (steps: seq<Step>, s: System)
    ensures var a, b := ["a"], ["a", "b"];
            && Runnable(Start(map[b := v], map[]), steps) && s == Run(Start(map[b := v], map[]), steps)
            && Consistent(s) && Enabled(s, RemoveDir(b)) && LosesKey(s, b)
            && var s' := Apply(s, RemoveDir(b));
               && s'.queue == [] && LookupIn(s'.cache, s'.fullDirs, b) == KnownAbsent && Current(s', b) == Some(v)
  {
    var a, b := ["a"], ["a", "b"];
    steps, s := WatchedAndListed(a, b, v);
    var start := Start(map[b := v], map[]);
    assert Consistent(start) by {
      forall k ensures Settled(start, k) == None {}
    }
    RunKeepsConsistent(start, steps);
    assert Parent(b) == a && IsBelow(b, b) && !IsBelow(b, a);
    var s' := Apply(s, RemoveDir(b));
    assert b !in s'.cache && a in s'.fullDirs;
  }
}
