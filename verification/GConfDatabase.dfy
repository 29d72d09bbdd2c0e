/**
 * The daemon's table of listeners for one database: which services listen on which section, and
 * how many notifications each service holds.
 */
module GConfDatabases {
  import opened Paths
  import opened Notification
  import opened Watching

  type Service = string

  datatype Sent = Sent(service: Service, section: Path)

  ghost function Listeners(notifications: map<Path, seq<Service>>, section: Path): seq<Service> {
    if section in notifications then notifications[section] else []
  }

  /** The sections on which service listens. */
  ghost function SectionsOf(notifications: map<Path, seq<Service>>, service: Service): set<Path> {
    set p | p in notifications && service in notifications[p]
  }

  ghost predicate NoEmptyList(notifications: map<Path, seq<Service>>) {
    forall p :: p in notifications ==> notifications[p] != []
  }

  ghost predicate ListedOnce(notifications: map<Path, seq<Service>>) {
    forall p, service :: p in notifications ==> Count(notifications[p], service) <= 1
  }

  /** The counters agree with the lists, and a service with nothing listed has no record. */
  ghost predicate Counted(notifications: map<Path, seq<Service>>, listening: map<Service, int>) {
    && (forall c :: c in listening ==> listening[c] == |SectionsOf(notifications, c)| && listening[c] > 0)
    && (forall p, c :: p in notifications && c in notifications[p] ==> c in listening)
  }

  /** How often service is listed. */
  ghost function Count(clients: seq<Service>, service: Service): nat {
    if clients == [] then 0 else (if clients[0] == service then 1 else 0) + Count(clients[1..], service)
  }

  lemma {:induction false} ListedMeansCounted(clients: seq<Service>, service: Service)
    ensures service in clients <==> Count(clients, service) > 0
  {
    if clients != [] {
      assert clients == [clients[0]] + clients[1..];
      ListedMeansCounted(clients[1..], service);
    }
  }

  /** The list without the first occurrence of service. */
  function WithoutFirst(clients: seq<Service>, service: Service): seq<Service> {
    if clients == [] then []
    else if clients[0] == service then clients[1..]
    else [clients[0]] + WithoutFirst(clients[1..], service)
  }

  lemma {:induction false} WithoutFirstCounts(clients: seq<Service>, service: Service, c: Service)
    ensures Count(WithoutFirst(clients, service), c) ==
            Count(clients, c) - if c == service && Count(clients, c) > 0 then 1 else 0
  {
    if clients != [] && clients[0] != service {
      WithoutFirstCounts(clients[1..], service, c);
      assert WithoutFirst(clients, service)[1..] == WithoutFirst(clients[1..], service);
    }
  }

  ghost function Without(notifications: map<Path, seq<Service>>, section: Path, service: Service)
    : map<Path, seq<Service>>
  {
    if section !in notifications then notifications
    else if WithoutFirst(notifications[section], service) == [] then notifications - {section}
    else notifications[section := WithoutFirst(notifications[section], service)]
  }

  lemma {:induction false} WithoutFirstMembers(clients: seq<Service>, service: Service, c: Service)
    requires Count(clients, service) <= 1
    ensures c in WithoutFirst(clients, service) <==> c in clients && c != service
  {
    WithoutFirstCounts(clients, service, c);
    ListedMeansCounted(clients, c);
    ListedMeansCounted(WithoutFirst(clients, service), c);
  }

  lemma {:induction false} NothingToRemove(clients: seq<Service>, service: Service)
    requires service !in clients
    ensures WithoutFirst(clients, service) == clients
  {
    if clients != [] {
      NothingToRemove(clients[1..], service);
    }
  }

  lemma NothingRemoved(notifications: map<Path, seq<Service>>, section: Path, service: Service)
    requires NoEmptyList(notifications) && service !in Listeners(notifications, section)
    ensures Without(notifications, section, service) == notifications
  {
    NothingToRemove(Listeners(notifications, section), service);
    if section in notifications {
      assert notifications[section := notifications[section]] == notifications;
    }
  }

  lemma WithoutSections(notifications: map<Path, seq<Service>>, section: Path, service: Service, c: Service)
    requires NoEmptyList(notifications) && ListedOnce(notifications)
    ensures NoEmptyList(Without(notifications, section, service))
    ensures ListedOnce(Without(notifications, section, service))
    ensures SectionsOf(Without(notifications, section, service), c) ==
            if c == service then SectionsOf(notifications, c) - {section} else SectionsOf(notifications, c)
  {
    if section in notifications {
      WithoutFirstMembers(notifications[section], service, c);
      forall d
        ensures Count(WithoutFirst(notifications[section], service), d) <= 1
      {
        WithoutFirstCounts(notifications[section], service, d);
      }
    }
  }

  lemma {:induction false} AddSections(notifications: map<Path, seq<Service>>, section: Path, sender: Service,
                                       c: Service)
    requires ListedOnce(notifications) && sender !in Listeners(notifications, section)
    ensures var n' := notifications[section := [sender] + Listeners(notifications, section)];
            && (forall p :: p in n' ==> Count(n'[p], c) <= 1)
            && SectionsOf(n', c) == SectionsOf(notifications, c) + if c == sender then {section} else {}
    ensures section !in SectionsOf(notifications, sender)
  {
    var n' := notifications[section := [sender] + Listeners(notifications, section)];
    assert n'[section][1..] == Listeners(notifications, section);
    ListedMeansCounted(Listeners(notifications, section), sender);
  }

  lemma {:induction false} AddedTwice(clients: seq<Service>, sender: Service)
    requires sender in clients
    ensures Count([sender] + clients, sender) >= 2
  {
    ListedMeansCounted(clients, sender);
    assert ([sender] + clients)[1..] == clients;
  }

  lemma AddKeepsCounts(notifications: map<Path, seq<Service>>, listening: map<Service, int>,
                       section: Path, sender: Service)
    requires NoEmptyList(notifications) && ListedOnce(notifications) && Counted(notifications, listening)
    requires sender !in Listeners(notifications, section)
    ensures var n' := notifications[section := [sender] + Listeners(notifications, section)];
            var l' := listening[sender := 1 + if sender in listening then listening[sender] else 0];
            ListedOnce(n') && Counted(n', l')
  {
    var n' := notifications[section := [sender] + Listeners(notifications, section)];
    var l' := listening[sender := 1 + if sender in listening then listening[sender] else 0];
    forall p, c | p in n'
      ensures Count(n'[p], c) <= 1
      ensures c in n'[p] ==> c in l'
    {
      AddSections(notifications, section, sender, c);
      if c in n'[p] && c != sender {
        assert p in SectionsOf(n', c) && p in notifications && c in notifications[p];
      }
    }
    forall c | c in l'
      ensures l'[c] == |SectionsOf(n', c)| && l'[c] > 0
    {
      AddSections(notifications, section, sender, c);
      if c == sender && c !in listening {
        assert SectionsOf(notifications, c) == {};
      }
    }
  }

  lemma TwoListed(sections: set<Path>, p: Path, q: Path)
    requires p in sections && q in sections - {p}
    ensures |sections| > 1
  {
    assert {p, q} <= sections;
    assert |sections - {p} - {q}| == |sections| - 2;
  }

  /** An addition keeps them right exactly when the sender was not listed before. */
  lemma AddKeepsCountsExactlyWhen(notifications: map<Path, seq<Service>>, listening: map<Service, int>,
                                  section: Path, sender: Service)
    requires NoEmptyList(notifications) && ListedOnce(notifications) && Counted(notifications, listening)
    ensures var n' := notifications[section := [sender] + Listeners(notifications, section)];
            var l' := listening[sender := 1 + if sender in listening then listening[sender] else 0];
            (ListedOnce(n') && Counted(n', l')) <==> sender !in Listeners(notifications, section)
  {
    if sender in Listeners(notifications, section) {
      var n' := notifications[section := [sender] + Listeners(notifications, section)];
      AddedTwice(Listeners(notifications, section), sender);
      assert section in n' && Count(n'[section], sender) > 1;
    } else {
      AddKeepsCounts(notifications, listening, section, sender);
    }
  }

  /** The counter step of a removal is right exactly when there was something to remove. */
  lemma RemoveKeepsCountsExactlyWhen(notifications: map<Path, seq<Service>>, listening: map<Service, int>,
                                     section: Path, sender: Service)
    requires NoEmptyList(notifications) && ListedOnce(notifications) && Counted(notifications, listening)
    requires sender in listening
    ensures Counted(Without(notifications, section, sender),
                    if listening[sender] == 1 then listening - {sender}
                    else listening[sender := listening[sender] - 1])
            <==> sender in Listeners(notifications, section)
  {
    var n' := Without(notifications, section, sender);
    var l' := if listening[sender] == 1 then listening - {sender} else listening[sender := listening[sender] - 1];
    forall c
      ensures SectionsOf(n', c) ==
              if c == sender then SectionsOf(notifications, c) - {section} else SectionsOf(notifications, c)
    {
      WithoutSections(notifications, section, sender, c);
    }
    if section in SectionsOf(notifications, sender) {
      forall p, c | p in n' && c in n'[p]
        ensures c in l'
      {
        assert p in SectionsOf(n', c);
        if c == sender {
          TwoListed(SectionsOf(notifications, sender), section, p);
        } else {
          assert p in SectionsOf(notifications, c);
        }
      }
      assert Counted(n', l');
    } else {
      assert SectionsOf(n', sender) == SectionsOf(notifications, sender);
      if listening[sender] == 1 {
        var p :| p in SectionsOf(notifications, sender);
        assert p in n' && sender in n'[p];
      }
      assert !Counted(n', l');
    }
  }

  /** Every list lost its first occurrence of service, and lists that became empty are gone. */
  ghost predicate Removed(n0: map<Path, seq<Service>>, n1: map<Path, seq<Service>>, todo: set<Path>, service: Service) {
    && n1.Keys <= n0.Keys && NoEmptyList(n1)
    && forall p :: Listeners(n1, p) == if p in todo then Listeners(n0, p) else WithoutFirst(Listeners(n0, p), service)
  }

  lemma OneMoreRemoved(n0: map<Path, seq<Service>>, n1: map<Path, seq<Service>>, todo: set<Path>,
                       service: Service, section: Path)
    requires Removed(n0, n1, todo, service) && section in todo
    ensures Removed(n0, Without(n1, section, service), todo - {section}, service)
  {
    var n2 := Without(n1, section, service);
    forall p
      ensures Listeners(n2, p) == if p == section then WithoutFirst(Listeners(n1, p), service) else Listeners(n1, p)
    {
    }
  }

  /** The service is gone from every section exactly when no section listed it twice. */
  lemma {:induction false} GoneExactlyWhenListedOnce(n0: map<Path, seq<Service>>, n1: map<Path, seq<Service>>,
                                                     service: Service)
    requires Removed(n0, n1, {}, service)
    ensures SectionsOf(n1, service) == {} <==> forall p :: p in n0 ==> Count(n0[p], service) <= 1
  {
    forall p | p in n0
      ensures Count(n0[p], service) <= 1 <==> p !in SectionsOf(n1, service)
    {
      assert Listeners(n1, p) == WithoutFirst(Listeners(n0, p), service);
      WithoutFirstCounts(n0[p], service, service);
      ListedMeansCounted(WithoutFirst(n0[p], service), service);
    }
  }

  lemma {:induction false} VanishedSections(n0: map<Path, seq<Service>>, n1: map<Path, seq<Service>>,
                                            service: Service, c: Service)
    requires ListedOnce(n0) && Removed(n0, n1, {}, service)
    ensures SectionsOf(n1, c) == if c == service then {} else SectionsOf(n0, c)
    ensures forall p :: p in n1 ==> Count(n1[p], c) <= 1
  {
    forall p
      ensures p in SectionsOf(n1, c) <==> c != service && p in SectionsOf(n0, c)
      ensures p in n1 ==> Count(n1[p], c) <= 1
    {
      assert Listeners(n1, p) == WithoutFirst(Listeners(n0, p), service);
      if p in n0 {
        WithoutFirstMembers(n0[p], service, c);
        WithoutFirstCounts(n0[p], service, c);
      }
    }
  }

  lemma VanishKeepsCounts(n0: map<Path, seq<Service>>, n1: map<Path, seq<Service>>, l0: map<Service, int>,
                          service: Service)
    requires ListedOnce(n0) && Counted(n0, l0) && Removed(n0, n1, {}, service)
    ensures ListedOnce(n1) && Counted(n1, l0 - {service})
  {
    forall c
      ensures SectionsOf(n1, c) == if c == service then {} else SectionsOf(n0, c)
    {
      VanishedSections(n0, n1, service, c);
    }
    forall p, c | p in n1
      ensures Count(n1[p], c) <= 1
    {
      VanishedSections(n0, n1, service, c);
    }
    forall p, c | p in n1 && c in n1[p]
      ensures c in l0 - {service}
    {
      assert p in SectionsOf(n1, c);
    }
  }

  // ----- the walk up the namespace -----

  ghost function Here(notifications: map<Path, seq<Service>>, dir: Path): seq<Sent> {
    var clients := Listeners(notifications, dir);
    seq(|clients|, i requires 0 <= i < |clients| => Sent(clients[i], dir))
  }

  ghost function Walk(notifications: map<Path, seq<Service>>, dir: Path): seq<Sent>
    decreases |dir|
  {
    Here(notifications, dir) + if dir == [] then [] else Walk(notifications, Parent(dir))
  }

  /** A change of the root key itself is sent twice to those who listen on the root. */
  ghost function NotifyAll(notifications: map<Path, seq<Service>>, key: Path): seq<Sent> {
    Walk(notifications, key) + if key == [] then Here(notifications, []) else []
  }

  /** What the walk still sends when it stands at dir. */
  ghost function Remaining(notifications: map<Path, seq<Service>>, dir: Path, last: bool): seq<Sent> {
    if last then Here(notifications, []) else NotifyAll(notifications, dir)
  }

  lemma AppendIsAssociative(a: seq<Sent>, b: seq<Sent>, c: seq<Sent>)
    ensures a + (b + c) == (a + b) + c
  {
  }

  lemma RemainingStep(notifications: map<Path, seq<Service>>, dir: Path, last: bool)
    requires last ==> dir == []
    ensures Remaining(notifications, dir, last) == Here(notifications, dir) +
            if last then [] else if |dir| <= 1 then Remaining(notifications, [], true)
            else Remaining(notifications, Parent(dir), false)
  {
    if !last && |dir| == 1 {
      assert Walk(notifications, []) == Here(notifications, []) + [];
    }
  }

  /** The sections named in the messages for one service. */
  ghost function SentTo(sent: seq<Sent>, service: Service): seq<Path> {
    if sent == [] then []
    else (if sent[0].service == service then [sent[0].section] else []) + SentTo(sent[1..], service)
  }

  lemma {:induction false} SentToAppend(a: seq<Sent>, b: seq<Sent>, service: Service)
    ensures SentTo(a + b, service) == SentTo(a, service) + SentTo(b, service)
  {
    if a == [] {
      assert a + b == b;
    } else {
      assert (a + b)[1..] == a[1..] + b;
      SentToAppend(a[1..], b, service);
    }
  }

  lemma {:induction false} OneSection(clients: seq<Service>, dir: Path, service: Service)
    requires Count(clients, service) <= 1
    ensures SentTo(seq(|clients|, i requires 0 <= i < |clients| => Sent(clients[i], dir)), service)
            == if service in clients then [dir] else []
  {
    var all := seq(|clients|, i requires 0 <= i < |clients| => Sent(clients[i], dir));
    if clients != [] {
      var rest := clients[1..];
      assert clients == [clients[0]] + rest;
      ListedMeansCounted(rest, service);
      assert all[1..] == seq(|rest|, i requires 0 <= i < |rest| => Sent(rest[i], dir));
      OneSection(rest, dir, service);
    }
  }

  lemma {:induction false} HereReaches(notifications: map<Path, seq<Service>>, dir: Path, service: Service)
    requires ListedOnce(notifications)
    ensures SentTo(Here(notifications, dir), service) == if dir in SectionsOf(notifications, service) then [dir] else []
  {
    OneSection(Listeners(notifications, dir), dir, service);
  }

  lemma {:induction false} WalkReaches(notifications: map<Path, seq<Service>>, key: Path, service: Service)
    requires ListedOnce(notifications)
    ensures SentTo(Walk(notifications, key), service) == SectionsNotified(SectionsOf(notifications, service), key)
    decreases |key|
  {
    HereReaches(notifications, key, service);
    if key != [] {
      SentToAppend(Here(notifications, key), Walk(notifications, Parent(key)), service);
      WalkReaches(notifications, Parent(key), service);
    } else {
      assert Walk(notifications, key) == Here(notifications, key);
    }
  }

  lemma WatchedRootIsTopmost(watched: set<Path>)
    ensures Covered(watched, []) <==> [] in Topmost(watched)
  {
  }

  /**
   * Exactly one message: a service that listens on exactly its topmost watched directories is told
   * once of a change of a key it watches and not at all of any other; a change of the root key
   * itself reaches a listener on the root twice.
   */
  lemma {:induction false} EachChangeIsSentOnce(notifications: map<Path, seq<Service>>, service: Service,
                                                watched: set<Path>, key: Path)
    requires ListedOnce(notifications)
    requires SectionsOf(notifications, service) == Topmost(watched)
    ensures |SentTo(NotifyAll(notifications, key), service)| ==
            if !Covered(watched, key) then 0 else if key == [] then 2 else 1
  {
    WalkReaches(notifications, key, service);
    NotifiedExactlyOnce(watched, key);
    var walk := Walk(notifications, key);
    if key == [] {
      var again := Here(notifications, []);
      SentToAppend(walk, again, service);
      HereReaches(notifications, [], service);
      WatchedRootIsTopmost(watched);
    } else {
      assert NotifyAll(notifications, key) == walk;
    }
  }

  class GConfDatabase {
    var notifications: map<Path, seq<Service>>
    var listeningClients: map<Service, int>

    /** What holds as long as a service adds a section at most once and removes only what it added. */
    ghost predicate Valid()
      reads this
    {
      NoEmptyList(notifications) && ListedOnce(notifications) && Counted(notifications, listeningClients)
    }

    constructor ()
      ensures Valid() && notifications == map[] && listeningClients == map[]
    {
      notifications, listeningClients := map[], map[];
    }

    /** database_handle_add_notify. */
    method HandleAddNotify(section: Path, sender: Service)
      requires NoEmptyList(notifications)
      modifies this
      ensures NoEmptyList(notifications)
      ensures notifications == old(notifications)[section := [sender] + Listeners(old(notifications), section)]
      ensures listeningClients == old(listeningClients)[sender :=
                1 + if sender in old(listeningClients) then old(listeningClients)[sender] else 0]
      ensures old(Valid()) ==> (Valid() <==> sender !in Listeners(old(notifications), section))
    {
      if Valid() {
        AddKeepsCountsExactlyWhen(notifications, listeningClients, section, sender);
      }
      if sender in listeningClients {
        listeningClients := listeningClients[sender := listeningClients[sender] + 1];
      } else {
        listeningClients := listeningClients[sender := 1];
      }
      var clients := [];
      if section in notifications {
        clients := notifications[section];
      }
      notifications := notifications[section := [sender] + clients];
    }

    /** database_remove_notification_data: true if service was listed for section. */
    method RemoveNotificationData(section: Path, service: Service) returns (found: bool)
      requires NoEmptyList(notifications)
      modifies this`notifications
      ensures NoEmptyList(notifications)
      ensures found <==> service in Listeners(old(notifications), section)
      ensures notifications == Without(old(notifications), section, service)
    {
      found := section in notifications && service in notifications[section];
      if !found {
        NothingRemoved(notifications, section, service);
      }
      if found {
        var clients := WithoutFirst(notifications[section], service);
        if clients == [] {
          notifications := notifications - {section};
        } else {
          notifications := notifications[section := clients];
        }
      }
    }

    /**
     * database_handle_remove_notify. The counter goes down even when nothing is found to remove,
     * so the counts stay right only for a sender that holds what it removes.
     */
    method HandleRemoveNotify(section: Path, sender: Service)
      requires NoEmptyList(notifications)
      modifies this
      ensures NoEmptyList(notifications)
      ensures notifications == Without(old(notifications), section, sender)
      ensures sender in old(listeningClients) ==>
                listeningClients == if old(listeningClients)[sender] == 1 then old(listeningClients) - {sender}
                                    else old(listeningClients)[sender := old(listeningClients)[sender] - 1]
      ensures sender !in old(listeningClients) ==> listeningClients == old(listeningClients)
      ensures old(Valid()) ==>
                (Valid() <==> sender in Listeners(old(notifications), section) || sender !in old(listeningClients))
    {
      ghost var n0, l0 := notifications, listeningClients;
      if ListedOnce(n0) && Counted(n0, l0) {
        WithoutSections(n0, section, sender, sender);
        if sender in l0 {
          RemoveKeepsCountsExactlyWhen(n0, l0, section, sender);
        } else {
          NothingRemoved(n0, section, sender);
        }
      }
      if sender in listeningClients {
        listeningClients := listeningClients[sender := listeningClients[sender] - 1];
        if listeningClients[sender] == 0 {
          listeningClients := listeningClients - {sender};
          assert listeningClients == l0 - {sender};
        }
      }
      var found := RemoveNotificationData(section, sender);
    }

    /** database_handle_name_owner_changed for a service whose name has no owner any more. */
    method HandleNameVanished(service: Service)
      requires NoEmptyList(notifications)
      modifies this
      ensures NoEmptyList(notifications)
      ensures forall p :: Listeners(notifications, p) == WithoutFirst(Listeners(old(notifications), p), service)
      ensures listeningClients == old(listeningClients) - {service}
      ensures old(Valid()) ==> Valid()
      ensures SectionsOf(notifications, service) == {} <==>
              forall p :: p in old(notifications) ==> Count(old(notifications)[p], service) <= 1
    {
      ghost var n0 := notifications;
      var todo := notifications.Keys;
      while todo != {}
        invariant listeningClients == old(listeningClients) && todo <= n0.Keys
        invariant Removed(n0, notifications, todo, service)
        decreases todo
      {
        var section :| section in todo;
        OneMoreRemoved(n0, notifications, todo, service, section);
        todo := todo - {section};
        var found := RemoveNotificationData(section, service);
      }
      GoneExactlyWhenListedOnce(n0, notifications, service);
      if ListedOnce(n0) && Counted(n0, listeningClients) {
        VanishKeepsCounts(n0, notifications, listeningClients, service);
      }
      listeningClients := listeningClients - {service};
    }

    /** gconf_database_dbus_notify_listeners: the messages sent, in order. */
    method NotifyListeners(key: Path) returns (sent: seq<Sent>)
      ensures sent == NotifyAll(notifications, key)
    {
      sent := [];
      var dir, last := key, false;
      while true
        invariant last ==> dir == []
        invariant NotifyAll(notifications, key) == sent + Remaining(notifications, dir, last)
        decreases !last, |dir|
      {
        RemainingStep(notifications, dir, last);
        var here := SendTo(dir);
        AppendIsAssociative(sent, here, if last then [] else if |dir| <= 1 then Remaining(notifications, [], true)
                                        else Remaining(notifications, Parent(dir), false));
        sent := sent + here;
        if last {
          break;
        }
        if |dir| <= 1 {
          last := true;
          dir := [];
        } else {
          dir := Parent(dir);
        }
      }
    }

    /** One message to each client listed for dir. */
    method SendTo(dir: Path) returns (sent: seq<Sent>)
      ensures sent == Here(notifications, dir)
    {
      sent := [];
      if dir in notifications {
        var clients := notifications[dir];
        var i := 0;
        while i < |clients|
          invariant 0 <= i <= |clients|
          invariant sent == Here(notifications, dir)[..i]
        {
          sent := sent + [Sent(clients[i], dir)];
          i := i + 1;
        }
      }
    }
  }
}
