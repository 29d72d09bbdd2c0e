/**
 * The objects of the client and the daemon take the steps of the protocol: what GConfClient does is a
 * step of its part of the system, and what GConfDatabase sends is what the system announces.
 */
module ClientSteps {
  import opened Options
  import opened Paths
  import opened Values
  import opened ClientCaches
  import opened GConfClients
  import opened GConfDatabases
  import opened Notification

  ghost function AddCounts(dirs: map<Path, Dir>): (counts: map<Path, nat>)
    ensures counts.Keys == dirs.Keys
  {
    map d | d in dirs :: dirs[d].addCount
  }

  /** The client's part of the system: what it watches, what it caches, and where it is registered. */
  ghost predicate Represents(c: GConfClient, s: System)
    reads c, c.engine
  {
    && c.Valid() && AddCounts(c.dirHash) == s.addCount
    && c.cacheHash == s.cache && c.cacheDirs == s.fullDirs
  }

  lemma RegisteredAsInTheSystem(c: GConfClient, s: System)
    requires Represents(c, s)
    ensures c.Registered() == Registered(s) && c.Watched() == s.addCount.Keys
  {
  }

  /** For one client the daemon's walk sends just the messages that the change announces. */
  lemma {:induction false} DaemonSendsWhatIsAnnounced(notifications: map<Path, seq<Service>>, service: Service,
                                                      s: System, key: Path)
    requires ListedOnce(notifications) && SectionsOf(notifications, service) == Registered(s) && key != []
    ensures Announce(s, key).queue ==
            s.queue + Messages(SentTo(NotifyAll(notifications, key), service), key, Current(s, key))
  {
    WalkReaches(notifications, key, service);
    assert NotifyAll(notifications, key) == Walk(notifications, key);
  }

  /** gconf_client_get and the like, with the daemon's answer at hand should it be needed. */
  method Get(c: GConfClient, key: Path, reply: Entry, ghost s: System)
    requires Represents(c, s) && Enabled(s, Step.Get(key, reply))
    modifies c`cacheHash
    ensures Represents(c, Apply(s, Step.Get(key, reply)))
  {
    var found := c.Lookup(key);
    if found == Miss {
      var monitored := c.KeyBeingMonitored(key);
      if monitored {
        var changed := c.Cache(key, reply, false);
      }
    }
  }

  /** gconf_client_all_entries, likewise. */
  method AllEntries(c: GConfClient, dir: Path, replies: map<Path, Entry>, ghost s: System)
    requires Represents(c, s) && Enabled(s, Step.AllEntries(dir, replies))
    modifies c`cacheHash, c`cacheDirs
    ensures Represents(c, Apply(s, Step.AllEntries(dir, replies)))
  {
    if dir in c.cacheDirs {
      return;
    }
    var monitored := c.KeyBeingMonitored(dir);
    if monitored {
      c.CacheListing(dir, replies);
    }
  }

  method AddDir(c: GConfClient, dir: Path, ghost s: System) returns (ok: bool)
    requires Represents(c, s)
    modifies c`dirHash, c`nextId, c.engine
    ensures ok ==> Represents(c, Apply(s, Step.AddDir(dir)))
  {
    ok := c.AddDir(dir);
    assert ok ==> AddCounts(c.dirHash) == Apply(s, Step.AddDir(dir)).addCount;
  }

  method RemoveDir(c: GConfClient, dir: Path, ghost s: System) returns (ok: bool)
    requires Represents(c, s) && Enabled(s, Step.RemoveDir(dir))
    modifies c, c.engine
    ensures ok ==> Represents(c, Apply(s, Step.RemoveDir(dir)))
  {
    ok := c.RemoveDir(dir);
    assert ok ==> AddCounts(c.dirHash) == Apply(s, Step.RemoveDir(dir)).addCount;
  }

  method Deliver(c: GConfClient, m: Message, ghost s: System)
    requires Represents(c, s) && s.queue != [] && m == s.queue[0]
    modifies c`cacheHash
    ensures Represents(c, Receive(s))
  {
    RegisteredAsInTheSystem(c, s);
    c.HandleNotify(m.section, m.key, m.value);
  }

  /** Once everything in flight has been delivered, an up-to-date client holds the daemon's values. */
  method DeliverAll(c: GConfClient, queue: seq<Message>, ghost s: System)
    requires Represents(c, s) && queue == s.queue
    modifies c`cacheHash
    ensures Represents(c, Drain(s))
    ensures UpToDate(s) <==> forall key :: key in c.cacheHash ==> c.cacheHash[key].value == Current(s, key)
  {
    ghost var current := s;
    var i := 0;
    while i < |queue|
      invariant 0 <= i <= |queue| && current.queue == queue[i..]
      invariant Represents(c, current) && Drain(current) == Drain(s)
    {
      Deliver(c, queue[i], current);
      current := Receive(current);
      assert queue[i..][1..] == queue[i + 1..];
      i := i + 1;
    }
    assert current.queue == [];
    UpToDateMeansRightOnceDrained(s);
  }

  /**
   * Every step of the protocol is what the client's methods do, as long as the daemon refuses nothing;
   * what others do leaves the client as it is.
   */
  method Take(c: GConfClient, step: Step, next: Option<Message>, ghost s: System) returns (ok: bool)
    requires Represents(c, s) && Enabled(s, step)
    requires step.Deliver? ==> next == Some(s.queue[0])
    modifies c, c.engine
    ensures ok ==> Represents(c, Apply(s, step))
  {
    ok := true;
    match step
    case RemoteSet(_, _) =>
    case RemoteUnset(_) =>
    case ClientSet(key, value) => var changed := c.Cache(key, NewEntry(Some(value)), true);
    case ClientUnset(key) => c.RemoveKeyFromCache(key);
    case Get(key, reply) => Get(c, key, reply, s);
    case AllEntries(dir, replies) => AllEntries(c, dir, replies, s);
    case Deliver => Deliver(c, next.value, s);
    case AddDir(dir) => ok := AddDir(c, dir, s);
    case RemoveDir(dir) => ok := RemoveDir(c, dir, s);
    case ClearCache => c.ClearCache();
  }
}
