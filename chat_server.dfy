/** The chat server's shared state and its coroutines, run one step at a
    time: the two registries (connection to name and name to connection),
    their registration order, and an outbox recording every text the
    server manages to send. A connection whose peer has gone is one of the
    sockets in `broken`; a send to it raises instead of being recorded.
    The clock reading `stamp` is a parameter. */
module ChatServer {
  import opened Wrappers
  import opened Seqs
  import opened Text
  import opened ChatProtocol

  /** The registries agree: they are inverse maps over the same
      connections, the order lists each connection once, and no name is
      empty. */
  predicate Consistent(order: seq<Socket>, clients: map<Socket, string>, users: map<string, Socket>) {
    Distinct(order)
    && (forall ws | ws in clients :: ws in order)
    && (forall i | 0 <= i < |order| :: order[i] in clients)
    && (forall ws | ws in clients :: clients[ws] in users && users[clients[ws]] == ws)
    && (forall name | name in users :: users[name] in clients && clients[users[name]] == name)
    && (forall name | name in users :: name != [])
  }

  /** The online users' names in registration order. */
  function NamesOf(order: seq<Socket>, clients: map<Socket, string>): (names: seq<string>)
    requires forall i | 0 <= i < |order| :: order[i] in clients
    ensures |names| == |order|
    ensures forall i | 0 <= i < |order| :: names[i] == clients[order[i]]
  {
    if order == [] then [] else [clients[order[0]]] + NamesOf(order[1..], clients)
  }

  /** The user list names every online user exactly once. */
  lemma NamesExactly(order: seq<Socket>, clients: map<Socket, string>, users: map<string, Socket>)
    requires Consistent(order, clients, users)
    ensures Distinct(NamesOf(order, clients))
    ensures forall name :: name in NamesOf(order, clients) <==> name in users
    ensures |NamesOf(order, clients)| == |users|
  {
    var names := NamesOf(order, clients);
    forall i | 0 <= i < |names| ensures names[i] in users && users[names[i]] == order[i] {
      var ws := order[i];
      assert ws in clients;
      assert names[i] == clients[ws];
      assert clients[ws] in users && users[clients[ws]] == ws;
    }
    forall name | name in users ensures name in names {
      var ws := users[name];
      assert ws in order;
      var i :| 0 <= i < |order| && order[i] == ws;
      assert names[i] == name;
    }
    DistinctElementsSize(names);
    assert Elements(names) == users.Keys;
  }

  /** Adding a connection under a fresh, non-empty name keeps the
      registries in agreement. */
  lemma RegisterKeepsConsistent(order: seq<Socket>, clients: map<Socket, string>, users: map<string, Socket>,
                                ws: Socket, name: string)
    requires Consistent(order, clients, users)
    requires ws !in clients && name !in users && name != []
    ensures Consistent(order + [ws], clients[ws := name], users[name := ws])
  {
    DistinctAppend(order, ws);
  }

  /** Dropping a connection and its name keeps the registries in
      agreement. */
  lemma UnregisterKeepsConsistent(order: seq<Socket>, clients: map<Socket, string>, users: map<string, Socket>,
                                  ws: Socket)
    requires Consistent(order, clients, users) && ws in clients
    ensures Consistent(Without(order, ws), clients - {ws}, users - {clients[ws]})
  {
    WithoutSpec(order, ws);
    var rest := Without(order, ws);
    forall i | 0 <= i < |rest| ensures rest[i] in clients && rest[i] != ws {
      assert rest[i] in rest;
      var j :| 0 <= j < |order| && order[j] == rest[i];
    }
  }

  /** Why a connecting user is turned away, if they are: no name arrived in
      time, the name is taken, or it is empty once stripped. The taken
      check comes first. */
  function Refusal(reply: Option<string>, users: map<string, Socket>): Option<string> {
    if reply.None? then Some(TimeoutNotice)
    else if Strip(reply.value) in users then Some(NameTakenNotice)
    else if Strip(reply.value) == [] then Some(NameEmptyNotice)
    else None
  }

  /** A user is admitted exactly when a name arrived that, stripped, is
      non-empty and not in use. */
  lemma RefusalIff(reply: Option<string>, users: map<string, Socket>)
    ensures Refusal(reply, users).None?
            <==> reply.Some? && Strip(reply.value) != [] && Strip(reply.value) !in users
    ensures reply.Some? && Strip(reply.value) in users ==> Refusal(reply, users) == Some(NameTakenNotice)
  {
  }

  /** The departure notices of the connections of `clients` that are in
      `gone`. */
  function LeftNotices(clients: map<Socket, string>, gone: set<Socket>): set<string> {
    set c | c in clients && c in gone :: Notice(LeftText(clients[c]))
  }

  /** The outbox grew from `before` to `after` by departure notices only:
      each later send goes to an open connection of `clients` and
      announces that a closed connection of `clients` left. */
  ghost predicate Grows(before: seq<Send>, after: seq<Send>, clients: map<Socket, string>, broken: set<Socket>) {
    |before| <= |after| && after[..|before|] == before
    && forall i | |before| <= i < |after| ::
         after[i].to in clients && after[i].to !in broken && after[i].text in LeftNotices(clients, broken)
  }

  lemma GrowsTrans(a: seq<Send>, b: seq<Send>, c: seq<Send>, clients: map<Socket, string>, broken: set<Socket>)
    requires Grows(a, b, clients, broken) && Grows(b, c, clients, broken)
    ensures Grows(a, c, clients, broken)
  {
    assert c[..|a|] == c[..|b|][..|a|];
    forall i | |a| <= i < |c| && i < |b| ensures c[i] == b[i] {
      assert c[i] == c[..|b|][i];
    }
  }

  /** Growth judged against fewer connections, with their names unchanged,
      is growth judged against more. */
  lemma GrowsWiden(before: seq<Send>, after: seq<Send>, wide: map<Socket, string>, narrow: map<Socket, string>,
                   broken: set<Socket>)
    requires Grows(before, after, narrow, broken) && Within(wide, narrow)
    ensures Grows(before, after, wide, broken)
  {
    forall i | |before| <= i < |after| ensures after[i].text in LeftNotices(wide, broken) {
      assert after[i].text in LeftNotices(narrow, broken);
      var c :| c in narrow && c in broken && after[i].text == Notice(LeftText(narrow[c]));
      assert narrow[c] == wide[c];
    }
  }

  /** A connection outside `clients` may be counted among the gone ones. */
  lemma GrowsLeft(before: seq<Send>, after: seq<Send>, clients: map<Socket, string>, broken: set<Socket>, ws: Socket)
    requires Grows(before, after, clients, broken) && ws !in clients
    ensures Grows(before, after, clients, broken + {ws})
  {
    assert LeftNotices(clients, broken) <= LeftNotices(clients, broken + {ws});
  }

  /** A departure: the notice that `ws` left, sent to open connections
      that are still registered, followed by departure notices of closed
      connections, is growth by departure notices of connections that are
      closed or are `ws`. */
  lemma Departed(before: seq<Send>, targets: seq<Socket>, clients: map<Socket, string>, ws: Socket,
                 left: map<Socket, string>, broken: set<Socket>, after: seq<Send>)
    requires ws in clients && left == clients - {ws}
    requires forall t | t in targets :: t in left && t !in broken
    requires Grows(before + Addressed(targets, Notice(LeftText(clients[ws]))), after, left, broken)
    ensures Grows(before, after, clients, broken + {ws})
  {
    var notices := Addressed(targets, Notice(LeftText(clients[ws])));
    GrowsByNotice(before, targets, clients, ws, broken + {ws});
    GrowsLeft(before + notices, after, left, broken, ws);
    GrowsWiden(before + notices, after, clients, left, broken + {ws});
    GrowsTrans(before, before + notices, after, clients, broken + {ws});
  }

  /** Every connection of `before` that `after` no longer holds had its
      departure announced in `sent` to every connection `after` holds. */
  ghost predicate Announced(before: map<Socket, string>, after: map<Socket, string>, sent: seq<Send>) {
    forall c, d | c in before && c !in after && d in after :: Send(d, Notice(LeftText(before[c]))) in sent
  }

  /** Departures announced in two successive stretches of the outbox are
      announced in the two together; the middle registry may also hold
      connections the first did not. */
  lemma AnnouncedTrans(a: map<Socket, string>, b: map<Socket, string>, c: map<Socket, string>,
                       sent0: seq<Send>, sent1: seq<Send>, sent2: seq<Send>)
    requires (forall x | x in a && x in b :: b[x] == a[x]) && Within(b, c)
    requires |sent0| <= |sent1| <= |sent2| && sent2[..|sent1|] == sent1
    requires Announced(a, b, sent1[|sent0|..]) && Announced(b, c, sent2[|sent1|..])
    ensures Announced(a, c, sent2[|sent0|..])
  {
    forall x, d | x in a && x !in c && d in c
      ensures Send(d, Notice(LeftText(a[x]))) in sent2[|sent0|..]
    {
      var notice := Send(d, Notice(LeftText(a[x])));
      if x in b {
        assert notice in sent2[|sent1|..];
        var k :| 0 <= k < |sent2| - |sent1| && sent2[|sent1|..][k] == notice;
        assert sent2[|sent0|..][k + |sent1| - |sent0|] == notice;
      } else {
        assert notice in sent1[|sent0|..];
        var k :| 0 <= k < |sent1| - |sent0| && sent1[|sent0|..][k] == notice;
        assert sent2[|sent0|..][k] == notice;
      }
    }
  }

  /** The outbox only grows: `after` starts with `before`. */
  predicate Extends(before: seq<Send>, after: seq<Send>) {
    |before| <= |after| && after[..|before|] == before
  }

  lemma ExtendsTrans(a: seq<Send>, b: seq<Send>, c: seq<Send>)
    requires Extends(a, b) && Extends(b, c)
    ensures Extends(a, c)
  {
    assert c[..|a|] == c[..|b|][..|a|];
  }

  lemma ExtendsShorter(a: seq<Send>, b: seq<Send>, c: seq<Send>)
    requires Extends(a + b, c)
    ensures Extends(a, c)
  {
    assert c[..|a|] == c[..|a + b|][..|a|];
  }

  /** The handshake and the message loop of a session together announce
      every departure since the session began. */
  lemma SessionAnnounced(clients: map<Socket, string>, present: map<Socket, string>, before: map<Socket, string>,
                         sent0: seq<Send>, sent1: seq<Send>, sent2: seq<Send>)
    requires forall c | c in present && c in clients :: present[c] == clients[c]
    requires Within(present, before)
    requires Extends(sent0, sent1) && Extends(sent1, sent2)
    requires Announced(clients, present, sent1[|sent0|..]) && Announced(present, before, sent2[|sent1|..])
    ensures forall c | c in before && c in clients :: before[c] == clients[c]
    ensures Extends(sent0, sent2) && Announced(clients, before, sent2[|sent0|..])
  {
    AnnouncedTrans(clients, present, before, sent0, sent1, sent2);
    ExtendsTrans(sent0, sent1, sent2);
  }

  /** A session's end, restated about the registries before it began:
      the session kept the open connections, and its disconnection removed
      only `ws` and closed connections, announcing each departure. */
  lemma SessionEnds(clients0: map<Socket, string>, order0: seq<Socket>, before: map<Socket, string>,
                    final: map<Socket, string>, staying: seq<Socket>, order: seq<Socket>, ws: Socket,
                    broken: set<Socket>, sent0: seq<Send>, sent1: seq<Send>, sent2: seq<Send>)
    requires ws !in clients0
    requires forall c | c in before && c != ws :: c in clients0 && before[c] == clients0[c]
    requires forall c | c in clients0 && c !in broken :: c in before && before[c] == clients0[c]
    requires staying == Keep(order0 + [ws], before.Keys)
    requires ws !in final && Within(before, final) && before.Keys - final.Keys <= broken + {ws}
    requires order == Keep(Without(staying, ws), final.Keys)
    requires Extends(sent0, sent1) && Grows(sent1, sent2, before, broken + {ws})
    requires Announced(clients0, before, sent1[|sent0|..]) && Announced(before, final, sent2[|sent1|..])
    ensures Within(clients0, final)
    ensures forall c | c in clients0 && c !in broken :: c in final && final[c] == clients0[c]
    ensures order == Keep(order0, final.Keys)
    ensures Extends(sent0, sent2) && Announced(clients0, final, sent2[|sent0|..])
  {
    Narrows(before, final);
    KeepWithout(staying, ws, final.Keys);
    KeepTwice(order0 + [ws], before.Keys, final.Keys);
    KeepDropLast(order0, ws, final.Keys);
    AnnouncedTrans(clients0, before, final, sent0, sent1, sent2);
    ExtendsTrans(sent0, sent1, sent2);
    forall c | c in clients0 && c !in broken
      ensures c in final && final[c] == clients0[c]
    {
      assert c in before && c !in before.Keys - final.Keys;
    }
  }

  /** Registering `ws` removes nobody, so the departures announced after
      the registration are all the departures since `sent0`. */
  lemma JoinAnnounced(clients: map<Socket, string>, ws: Socket, name: string, final: map<Socket, string>,
                      broken: set<Socket>, sent0: seq<Send>, welcomed: seq<Send>, round: seq<Send>, after: seq<Send>)
    requires ws !in clients && |sent0| <= |welcomed|
    requires Within(clients[ws := name], final)
    requires Grows(welcomed + round, after, clients[ws := name], broken)
    requires Announced(clients[ws := name], final, after[|welcomed|..])
    ensures Extends(welcomed, after)
    ensures Announced(clients, final, after[|sent0|..])
  {
    assert after[..|welcomed|] == (welcomed + round)[..|welcomed|] == welcomed;
    AnnouncedTrans(clients, clients[ws := name], final, sent0, welcomed, after);
  }

  /** A departure round with no sender reaches every open connection that
      is still registered, so together with the departures announced after
      it, the departure of `ws` is announced too. */
  lemma DepartureAnnounced(before: seq<Send>, remaining: seq<Socket>, broken: set<Socket>,
                           clients: map<Socket, string>, ws: Socket, left: map<Socket, string>,
                           final: map<Socket, string>, after: seq<Send>)
    requires ws in clients && left == clients - {ws}
    requires Distinct(remaining) && forall c | c in left :: c in remaining
    requires Within(left, final) && forall c | c in left && c in broken :: c !in final
    requires Grows(before + Addressed(Reached(remaining, None, broken), Notice(LeftText(clients[ws]))),
                   after, left, broken)
    requires Announced(left, final, after[|before|..])
    ensures Announced(clients, final, after[|before|..])
  {
    var targets := Reached(remaining, None, broken);
    var round := before + Addressed(targets, Notice(LeftText(clients[ws])));
    ReachedExactly(remaining, None, broken);
    forall x, d | x in clients && x !in final && d in final
      ensures Send(d, Notice(LeftText(clients[x]))) in after[|before|..]
    {
      if x == ws {
        assert d in targets;
        var k :| 0 <= k < |targets| && targets[k] == d;
        assert round[|before| + k] == Send(d, Notice(LeftText(clients[ws])));
        assert after[..|round|][|before| + k] == round[|before| + k];
        assert after[|before|..][k] == Send(d, Notice(LeftText(clients[ws])));
      } else {
        assert x in left && left[x] == clients[x];
      }
    }
  }

  /** A departure's broadcast restated about the registry before `ws`
      was removed: when no other connection is closed, the departure
      round is all that is sent and nobody else leaves. */
  lemma DepartureExact(before: seq<Send>, order0: seq<Socket>, clients0: map<Socket, string>, ws: Socket,
                       broken: set<Socket>, stamp: string, remaining: seq<Socket>, left: map<Socket, string>,
                       final: map<Socket, string>, after: seq<Send>)
    requires ws in clients0 && left == clients0 - {ws} && remaining == Without(order0, ws)
    requires (forall c | c in clients0 && c != ws :: c !in broken) ==> Failed(remaining, None, broken) == []
    requires Failed(remaining, None, broken) == [] ==>
               after == before + Addressed(Reached(remaining, None, broken), Stamped(LeftText(clients0[ws]), None, left, stamp))
               && final == left
    ensures (forall c | c in clients0 && c != ws :: c !in broken) ==>
              after == before + Addressed(Reached(Without(order0, ws), None, broken), Notice(LeftText(clients0[ws])))
              && final == clients0 - {ws}
  {
    assert Stamped(LeftText(clients0[ws]), None, left, stamp) == Notice(LeftText(clients0[ws]));
  }

  /** A departure's broadcast restated about the registry before `ws`
      was removed: the round reaches every open connection still
      registered, and anything sent after it announces a closed
      connection's departure. */
  lemma DepartureGrows(before: seq<Send>, order0: seq<Socket>, clients0: map<Socket, string>, ws: Socket,
                       broken: set<Socket>, stamp: string, remaining: seq<Socket>, left: map<Socket, string>,
                       after: seq<Send>)
    requires ws in clients0 && left == clients0 - {ws} && remaining == Without(order0, ws)
    requires Distinct(remaining) && forall i | 0 <= i < |remaining| :: remaining[i] in left
    requires Grows(before + Addressed(Reached(remaining, None, broken), Stamped(LeftText(clients0[ws]), None, left, stamp)),
                   after, left, broken)
    ensures Grows(before + Addressed(Reached(Without(order0, ws), None, broken), Notice(LeftText(clients0[ws]))),
                  after, clients0 - {ws}, broken)
    ensures Grows(before, after, clients0, broken + {ws})
  {
    assert Stamped(LeftText(clients0[ws]), None, left, stamp) == Notice(LeftText(clients0[ws]));
    ReachedExactly(remaining, None, broken);
    Departed(before, Reached(remaining, None, broken), clients0, ws, left, broken, after);
  }

  /** Announcing to open connections of `clients` that the closed
      connection `gone` left grows the outbox. */
  lemma GrowsByNotice(before: seq<Send>, targets: seq<Socket>, clients: map<Socket, string>, gone: Socket,
                      broken: set<Socket>)
    requires forall t | t in targets :: t in clients && t !in broken
    requires gone in clients && gone in broken
    ensures Grows(before, before + Addressed(targets, Notice(LeftText(clients[gone]))), clients, broken)
  {
    var text := Notice(LeftText(clients[gone]));
    assert text in LeftNotices(clients, broken);
    var after := before + Addressed(targets, text);
    assert after[..|before|] == before;
    forall i | |before| <= i < |after| ensures after[i] == Send(targets[i - |before|], text) {
    }
  }

  /** One more connection of the snapshot: it is reached when it is open
      and not the sender's, and failed on when it is closed and not the
      sender's. */
  lemma ReachedStep(s: seq<Socket>, i: nat, sender: Option<Socket>, broken: set<Socket>)
    requires i < |s|
    ensures Some(s[i]) != sender && s[i] !in broken ==>
              Reached(s[..i + 1], sender, broken) == Reached(s[..i], sender, broken) + [s[i]]
              && Failed(s[..i + 1], sender, broken) == Failed(s[..i], sender, broken)
    ensures Some(s[i]) != sender && s[i] in broken ==>
              Reached(s[..i + 1], sender, broken) == Reached(s[..i], sender, broken)
              && Failed(s[..i + 1], sender, broken) == Failed(s[..i], sender, broken) + [s[i]]
    ensures Some(s[i]) == sender ==>
              Reached(s[..i + 1], sender, broken) == Reached(s[..i], sender, broken)
              && Failed(s[..i + 1], sender, broken) == Failed(s[..i], sender, broken)
  {
    ReachedConcat(s[..i], [s[i]], sender, broken);
    assert s[..i + 1] == s[..i] + [s[i]];
    assert [s[i]][1..] == [];
    var r := Reached(s[..i], sender, broken);
    var f := Failed(s[..i], sender, broken);
    assert r + [] == r && f + [] == f;
  }

  lemma {:induction false} ReachedConcat(a: seq<Socket>, b: seq<Socket>, sender: Option<Socket>, broken: set<Socket>)
    ensures Reached(a + b, sender, broken) == Reached(a, sender, broken) + Reached(b, sender, broken)
    ensures Failed(a + b, sender, broken) == Failed(a, sender, broken) + Failed(b, sender, broken)
  {
    if a == [] {
      assert a + b == b;
    } else {
      var ab := a + b;
      assert ab[0] == a[0] && ab[1..] == a[1..] + b;
      ReachedConcat(a[1..], b, sender, broken);
      var r0 := if Some(a[0]) != sender && a[0] !in broken then [a[0]] else [];
      var f0 := if Some(a[0]) != sender && a[0] in broken then [a[0]] else [];
      calc {
        Reached(ab, sender, broken);
        r0 + Reached(a[1..] + b, sender, broken);
        r0 + (Reached(a[1..], sender, broken) + Reached(b, sender, broken));
        { AppendAssoc(r0, Reached(a[1..], sender, broken), Reached(b, sender, broken)); }
        (r0 + Reached(a[1..], sender, broken)) + Reached(b, sender, broken);
        Reached(a, sender, broken) + Reached(b, sender, broken);
      }
      calc {
        Failed(ab, sender, broken);
        f0 + Failed(a[1..] + b, sender, broken);
        f0 + (Failed(a[1..], sender, broken) + Failed(b, sender, broken));
        { AppendAssoc(f0, Failed(a[1..], sender, broken), Failed(b, sender, broken)); }
        (f0 + Failed(a[1..], sender, broken)) + Failed(b, sender, broken);
        Failed(a, sender, broken) + Failed(b, sender, broken);
      }
    }
  }

  /** `after` keeps some of the entries of `before` and nothing else. */
  predicate Within<K, V(==)>(before: map<K, V>, after: map<K, V>) {
    forall c | c in after :: c in before && after[c] == before[c]
  }

  lemma Narrows<K, V>(before: map<K, V>, after: map<K, V>)
    requires Within(before, after)
    ensures after.Keys <= before.Keys && |after.Keys| <= |before.Keys|
  {
    SubsetSize(after.Keys, before.Keys);
  }

  lemma NarrowsTrans<K, V>(a: map<K, V>, b: map<K, V>, c: map<K, V>, removable: set<K>)
    requires Within(a, b) && Within(b, c)
    requires a.Keys - b.Keys <= removable && b.Keys - c.Keys <= removable
    ensures Within(a, c) && a.Keys - c.Keys <= removable
  {
  }

  /** Targets removed earlier stay removed when the key set shrinks, and
      the one just removed joins them. */
  lemma StillRemoved<K>(targets: seq<K>, j: nat, mid: set<K>, now: set<K>)
    requires j < |targets| && now <= mid && targets[j] !in now
    requires forall k | 0 <= k < j :: targets[k] !in mid
    ensures forall k | 0 <= k < j + 1 :: targets[k] !in now
  {
  }

  /** What one step of a disconnection loop keeps: the facts before the
      step about `mid`, `midOrder` and `before`, and those the step's
      disconnection of `targets[j]` gives, combine into the same facts
      about `clients`, `order` and `outbox`. */
  lemma DisconnectedNext(targets: seq<Socket>, j: nat, broken: set<Socket>,
                         clients0: map<Socket, string>, order0: seq<Socket>, outbox0: seq<Send>,
                         mid: map<Socket, string>, midOrder: seq<Socket>, before: seq<Send>,
                         clients: map<Socket, string>, order: seq<Socket>, outbox: seq<Send>)
    requires j < |targets| && targets[j] in broken
    requires Within(clients0, mid) && clients0.Keys - mid.Keys <= broken
    requires forall k | 0 <= k < j :: targets[k] !in mid
    requires midOrder == Keep(order0, mid.Keys)
    requires Grows(outbox0, before, clients0, broken)
    requires targets[j] !in clients && Within(mid, clients) && mid.Keys - clients.Keys <= broken + {targets[j]}
    requires order == Keep(Without(midOrder, targets[j]), clients.Keys)
    requires Grows(before, outbox, mid, broken + {targets[j]})
    ensures Within(clients0, clients) && clients0.Keys - clients.Keys <= broken
    ensures forall k | 0 <= k < j + 1 :: targets[k] !in clients
    ensures order == Keep(order0, clients.Keys)
    ensures Grows(outbox0, outbox, clients0, broken)
  {
    assert broken + {targets[j]} == broken;
    Narrows(mid, clients);
    NarrowsTrans(clients0, mid, clients, broken);
    KeepWithout(midOrder, targets[j], clients.Keys);
    KeepTwice(order0, mid.Keys, clients.Keys);
    StillRemoved(targets, j, mid.Keys, clients.Keys);
    GrowsWiden(before, outbox, clients0, mid, broken);
    GrowsTrans(outbox0, before, outbox, clients0, broken);
  }

  class Server {
    /** Connection to the name it registered. */
    var clients: map<Socket, string>
    /** Name to the connection that registered it. */
    var users: map<string, Socket>
    /** The connections in the order they registered. */
    var order: seq<Socket>
    /** Every text sent so far, in order. */
    var outbox: seq<Send>

    ghost predicate Valid()
      reads this
    {
      Consistent(order, clients, users)
    }

    constructor()
      ensures Valid()
      ensures clients == map[] && users == map[] && order == [] && outbox == []
    {
      clients := map[];
      users := map[];
      order := [];
      outbox := [];
    }

    /** The names the user list shows, in registration order. */
    function UserNames(): seq<string>
      reads this
      requires Valid()
    {
      NamesOf(order, clients)
    }

    /** Attempts `sends` in order; the first send to a closed connection
        raises and the rest are abandoned. */
    method SendAll(sends: seq<Send>, broken: set<Socket>) returns (raised: bool)
      modifies this`outbox
      ensures outbox == old(outbox) + Deliver(sends, broken).sent
      ensures raised == Deliver(sends, broken).raised
    {
      var i := 0;
      raised := false;
      while i < |sends| && !raised
        decreases |sends| - i, !raised
        invariant 0 <= i <= |sends|
        invariant forall k | 0 <= k < i :: sends[k].to !in broken
        invariant !raised ==> outbox == old(outbox) + sends[..i]
        invariant raised ==> i < |sends| && sends[i].to in broken && outbox == old(outbox) + sends[..i]
      {
        if sends[i].to in broken {
          raised := true;
        } else {
          outbox := outbox + [sends[i]];
          assert sends[..i + 1] == sends[..i] + [sends[i]];
          i := i + 1;
        }
      }
      var d := Deliver(sends, broken);
      if !raised {
        assert sends[..i] == sends;
      }
      assert |d.sent| == i;
    }

    /** One pass over `snapshot`: sends `message` to every connection but
        the sender's and collects the ones the send fails on. */
    method SendRound(snapshot: seq<Socket>, sender: Option<Socket>, message: string, broken: set<Socket>)
      returns (disconnected: seq<Socket>)
      modifies this`outbox
      ensures outbox == old(outbox) + Addressed(Reached(snapshot, sender, broken), message)
      ensures disconnected == Failed(snapshot, sender, broken)
    {
      disconnected := [];
      var i := 0;
      while i < |snapshot|
        invariant 0 <= i <= |snapshot|
        invariant outbox == old(outbox) + Addressed(Reached(snapshot[..i], sender, broken), message)
        invariant disconnected == Failed(snapshot[..i], sender, broken)
      {
        var ws := snapshot[i];
        ReachedStep(snapshot, i, sender, broken);
        if Some(ws) != sender {
          if ws in broken {
            disconnected := disconnected + [ws];
          } else {
            AddressedAppend(Reached(snapshot[..i], sender, broken), ws, message);
            outbox := outbox + [Send(ws, message)];
          }
        }
        i := i + 1;
      }
      assert snapshot[..i] == snapshot;
    }

    /** Sends `text` to every registered connection except the sender's,
        signed with the sender's name and the time when the sender is
        registered and as a system notice otherwise; afterwards every
        connection the send failed on is disconnected, which may in turn
        broadcast departures. */
    method Broadcast(text: string, sender: Option<Socket>, stamp: string, broken: set<Socket>)
      requires Valid()
      modifies this
      decreases |clients.Keys|, 4
      ensures Valid()
      ensures Within(old(clients), clients)
      ensures old(clients).Keys - clients.Keys <= broken
      ensures forall c | c in old(clients) && c in broken && Some(c) != sender :: c !in clients
      ensures order == Keep(old(order), clients.Keys)
      ensures forall c | c in Reached(old(order), sender, broken) :: c !in broken
      ensures Grows(old(outbox) + Addressed(Reached(old(order), sender, broken),
                                            Stamped(text, sender, old(clients), stamp)),
                    outbox, old(clients), broken)
      ensures Failed(old(order), sender, broken) == [] ==>
                outbox == old(outbox) + Addressed(Reached(old(order), sender, broken),
                                                  Stamped(text, sender, old(clients), stamp))
                && clients == old(clients) && users == old(users) && order == old(order)
      ensures Announced(old(clients), clients, outbox[|old(outbox)|..])
    {
      var message := Stamped(text, sender, clients, stamp);
      var snapshot := order;
      ReachedExactly(snapshot, sender, broken);
      var disconnected := SendRound(snapshot, sender, message, broken);
      FailedClosed(snapshot, sender, broken);
      ghost var sent := outbox;
      DisconnectAll(disconnected, stamp, broken);
      AnnouncedTrans(old(clients), old(clients), clients, old(outbox), sent, outbox);
      forall c | c in old(clients) && c in broken && Some(c) != sender ensures c !in clients {
        assert c in snapshot && c in disconnected;
        var k :| 0 <= k < |disconnected| && disconnected[k] == c;
      }
    }

    /** Disconnects each of `targets` in turn, all of them closed
        connections. */
    method DisconnectAll(targets: seq<Socket>, stamp: string, broken: set<Socket>)
      requires Valid()
      requires forall k | 0 <= k < |targets| :: targets[k] in broken
      modifies this
      decreases |clients.Keys|, 3
      ensures Valid()
      ensures Within(old(clients), clients)
      ensures old(clients).Keys - clients.Keys <= broken
      ensures forall k | 0 <= k < |targets| :: targets[k] !in clients
      ensures order == Keep(old(order), clients.Keys)
      ensures Grows(old(outbox), outbox, old(clients), broken)
      ensures Announced(old(clients), clients, outbox[|old(outbox)|..])
      ensures targets == [] ==>
                outbox == old(outbox) && clients == old(clients) && users == old(users) && order == old(order)
    {
      KeepAll(order, clients.Keys);
      assert outbox[..|old(outbox)|] == old(outbox);
      if targets == [] {
        return;
      }
      var j := 0;
      while j < |targets|
        invariant 0 <= j <= |targets|
        invariant Valid()
        invariant Within(old(clients), clients)
        invariant old(clients).Keys - clients.Keys <= broken
        invariant forall k | 0 <= k < j :: targets[k] !in clients
        invariant order == Keep(old(order), clients.Keys)
        invariant Grows(old(outbox), outbox, old(clients), broken)
        invariant Announced(old(clients), clients, outbox[|old(outbox)|..])
      {
        Narrows(old(clients), clients);
        DisconnectNext(targets, j, stamp, broken, old(clients), old(order), old(outbox));
        j := j + 1;
      }
    }

    /** The step of `DisconnectAll` that disconnects `targets[j]`, keeping
        what the loop maintains about the registries and the outbox since
        `clients0`, `order0` and `outbox0`. */
    method DisconnectNext(targets: seq<Socket>, j: nat, stamp: string, broken: set<Socket>,
                          ghost clients0: map<Socket, string>, ghost order0: seq<Socket>, ghost outbox0: seq<Send>)
      requires j < |targets| && forall k | 0 <= k < |targets| :: targets[k] in broken
      requires Valid()
      requires Within(clients0, clients)
      requires clients0.Keys - clients.Keys <= broken
      requires forall k | 0 <= k < j :: targets[k] !in clients
      requires order == Keep(order0, clients.Keys)
      requires Grows(outbox0, outbox, clients0, broken)
      requires Announced(clients0, clients, outbox[|outbox0|..])
      modifies this
      decreases |clients.Keys|, 2
      ensures Valid()
      ensures Within(clients0, clients)
      ensures clients0.Keys - clients.Keys <= broken
      ensures forall k | 0 <= k < j + 1 :: targets[k] !in clients
      ensures order == Keep(order0, clients.Keys)
      ensures Grows(outbox0, outbox, clients0, broken)
      ensures Announced(clients0, clients, outbox[|outbox0|..])
    {
      ghost var before := outbox;
      ghost var mid := clients;
      ghost var midOrder := order;
      HandleDisconnect(targets[j], stamp, broken);
      DisconnectedNext(targets, j, broken, clients0, order0, outbox0, mid, midOrder, before, clients, order, outbox);
      AnnouncedTrans(clients0, mid, clients, outbox0, before, outbox);
    }

    /** Forgets a connection and tells everyone else the user left; a
        connection that is not registered is left alone. */
    method HandleDisconnect(ws: Socket, stamp: string, broken: set<Socket>)
      requires Valid()
      modifies this
      decreases |clients.Keys|, 1
      ensures Valid()
      ensures ws !in clients
      ensures ws !in old(clients) ==> clients == old(clients) && users == old(users)
                                      && order == old(order) && outbox == old(outbox)
      ensures Within(old(clients), clients)
      ensures old(clients).Keys - clients.Keys <= broken + {ws}
      ensures order == Keep(Without(old(order), ws), clients.Keys)
      ensures ws in old(clients) ==> forall c | c in broken :: c !in clients
      ensures ws in old(clients) ==>
                Grows(old(outbox) + Addressed(Reached(Without(old(order), ws), None, broken),
                                              Notice(LeftText(old(clients)[ws]))),
                      outbox, old(clients) - {ws}, broken)
      ensures ws in old(clients) && (forall c | c in old(clients) && c != ws :: c !in broken) ==>
                outbox == old(outbox) + Addressed(Reached(Without(old(order), ws), None, broken),
                                                  Notice(LeftText(old(clients)[ws])))
                && clients == old(clients) - {ws}
      ensures Grows(old(outbox), outbox, old(clients), broken + {ws})
      ensures Announced(old(clients), clients, outbox[|old(outbox)|..])
    {
      if ws in clients {
        Depart(ws, stamp, broken);
      } else {
        assert outbox[..|old(outbox)|] == old(outbox);
        KeepWithout(order, ws, clients.Keys);
        KeepAll(order, clients.Keys);
      }
    }

    /** Removes a registered connection from both registries and from the
        registration order. */
    method Forget(ws: Socket) returns (name: string)
      requires Valid() && ws in clients
      modifies this
      ensures Valid()
      ensures name == old(clients)[ws]
      ensures clients == old(clients) - {ws} && clients.Keys == old(clients).Keys - {ws}
      ensures users == old(users) - {name}
      ensures order == Without(old(order), ws) && outbox == old(outbox)
    {
      name := clients[ws];
      UnregisterKeepsConsistent(order, clients, users, ws);
      assert (clients - {ws}).Keys == clients.Keys - {ws};
      clients := clients - {ws};
      users := users - {name};
      order := Without(order, ws);
    }

    /** Forgets a registered connection and tells everyone else the user
        left. */
    method Depart(ws: Socket, stamp: string, broken: set<Socket>)
      requires Valid() && ws in clients
      modifies this
      decreases |clients.Keys|, 0
      ensures Valid()
      ensures ws !in clients
      ensures Within(old(clients), clients)
      ensures old(clients).Keys - clients.Keys <= broken + {ws}
      ensures order == Keep(Without(old(order), ws), clients.Keys)
      ensures forall c | c in broken :: c !in clients
      ensures Grows(old(outbox) + Addressed(Reached(Without(old(order), ws), None, broken),
                                            Notice(LeftText(old(clients)[ws]))),
                    outbox, old(clients) - {ws}, broken)
      ensures (forall c | c in old(clients) && c != ws :: c !in broken) ==>
                outbox == old(outbox) + Addressed(Reached(Without(old(order), ws), None, broken),
                                                  Notice(LeftText(old(clients)[ws])))
                && clients == old(clients) - {ws}
      ensures Grows(old(outbox), outbox, old(clients), broken + {ws})
      ensures Announced(old(clients), clients, outbox[|old(outbox)|..])
    {
      var name := Forget(ws);
      ghost var removed := outbox;
      ghost var remaining := order;
      ghost var left := clients;
      ReachedExactly(remaining, None, broken);
      if forall c | c in old(clients) && c != ws :: c !in broken {
        NothingFailed(remaining, None, broken);
      }
      assert forall c | c in left :: c in remaining;
      assert forall i | 0 <= i < |remaining| :: remaining[i] in left;
      Broadcast(LeftText(name), None, stamp, broken);
      DepartureExact(removed, old(order), old(clients), ws, broken, stamp, remaining, left, clients, outbox);
      DepartureGrows(removed, old(order), old(clients), ws, broken, stamp, remaining, left, outbox);
      DepartureAnnounced(removed, remaining, broken, old(clients), ws, left, clients, outbox);
    }

    /** The registration handshake of one connection: prompt for a name,
        refuse a missing, taken or empty one, or register it, welcome the
        user and announce them to everyone, themselves included. */
    method Connect(ws: Socket, reply: Option<string>, stamp: string, broken: set<Socket>) returns (accepted: bool)
      requires Valid() && ws !in clients
      modifies this
      ensures Valid()
      ensures accepted <==> ws !in broken && Refusal(reply, old(users)).None?
      ensures accepted ==> reply.Some? && ws in clients && clients[ws] == Strip(reply.value)
                           && users[Strip(reply.value)] == ws
      ensures accepted ==> forall c | c in broken :: c !in clients
      ensures forall c | c in clients && c != ws :: c in old(clients) && clients[c] == old(clients)[c]
      ensures forall c | c in old(clients) && c !in broken :: c in clients && clients[c] == old(clients)[c]
      ensures accepted ==> order == Keep(old(order) + [ws], clients.Keys)
      ensures !accepted ==> ws !in clients && clients == old(clients) && users == old(users) && order == old(order)
      ensures ws in broken ==> outbox == old(outbox)
      ensures ws !in broken && !accepted ==>
                outbox == old(outbox) + [Send(ws, NamePrompt), Send(ws, Refusal(reply, old(users)).value)]
      ensures accepted ==>
                Grows(old(outbox) + [Send(ws, NamePrompt), Send(ws, WelcomeNotice(Strip(reply.value)))]
                      + Addressed(Reached(old(order) + [ws], None, broken), Notice(JoinedText(Strip(reply.value)))),
                      outbox, old(clients)[ws := Strip(reply.value)], broken)
      ensures accepted && (forall c | c in old(clients) :: c !in broken) ==>
                outbox == old(outbox) + [Send(ws, NamePrompt), Send(ws, WelcomeNotice(Strip(reply.value)))]
                          + Addressed(Reached(old(order) + [ws], None, broken), Notice(JoinedText(Strip(reply.value))))
                && clients == old(clients)[ws := Strip(reply.value)]
      ensures Extends(old(outbox), outbox)
      ensures Announced(old(clients), clients, outbox[|old(outbox)|..])
    {
      if ws in broken {
        return false;
      }
      outbox := outbox + [Send(ws, NamePrompt)];
      var refusal := Refusal(reply, users);
      if refusal.Some? {
        outbox := outbox + [Send(ws, refusal.value)];
        HandleDisconnect(ws, stamp, broken);
        return false;
      }
      Admit(ws, Strip(reply.value), stamp, broken, old(outbox));
      accepted := true;
    }

    /** Registers a connection under its free, non-empty name, welcomes
        the user and announces them to everyone, themselves included.
        `sent0` is the outbox before the name prompt. */
    method Admit(ws: Socket, name: string, stamp: string, broken: set<Socket>, ghost sent0: seq<Send>)
      requires Valid() && ws !in clients && ws !in broken
      requires name !in users && name != []
      requires outbox == sent0 + [Send(ws, NamePrompt)]
      modifies this
      ensures Valid()
      ensures ws in clients && clients[ws] == name && users[name] == ws
      ensures forall c | c in broken :: c !in clients
      ensures forall c | c in clients && c != ws :: c in old(clients) && clients[c] == old(clients)[c]
      ensures forall c | c in old(clients) && c !in broken :: c in clients && clients[c] == old(clients)[c]
      ensures order == Keep(old(order) + [ws], clients.Keys)
      ensures Grows(sent0 + [Send(ws, NamePrompt), Send(ws, WelcomeNotice(name))]
                    + Addressed(Reached(old(order) + [ws], None, broken), Notice(JoinedText(name))),
                    outbox, old(clients)[ws := name], broken)
      ensures (forall c | c in old(clients) :: c !in broken) ==>
                outbox == sent0 + [Send(ws, NamePrompt), Send(ws, WelcomeNotice(name))]
                          + Addressed(Reached(old(order) + [ws], None, broken), Notice(JoinedText(name)))
                && clients == old(clients)[ws := name]
      ensures Extends(sent0, outbox)
      ensures Announced(old(clients), clients, outbox[|sent0|..])
    {
      RegisterKeepsConsistent(order, clients, users, ws, name);
      clients := clients[ws := name];
      users := users[name := ws];
      order := order + [ws];
      outbox := outbox + [Send(ws, WelcomeNotice(name))];
      assert outbox == sent0 + [Send(ws, NamePrompt), Send(ws, WelcomeNotice(name))];
      if forall c | c in old(clients) :: c !in broken {
        NothingFailed(order, None, broken);
      }
      ghost var welcomed := outbox;
      Broadcast(JoinedText(name), None, stamp, broken);
      JoinAnnounced(old(clients), ws, name, clients, broken, sent0, welcomed,
                    Addressed(Reached(old(order) + [ws], None, broken), Notice(JoinedText(name))), outbox);
      ExtendsTrans(sent0, welcomed, outbox);
    }

    /** Handles one classified line from a registered user's connection
        and says whether the session ends (on /exit, or when a send to a
        closed connection raises). Chat goes to everyone else; every
        command is answered to the sender alone, except that a private
        message goes to its recipient. */
    method HandleMessage(ws: Socket, username: string, command: Command, stamp: string, broken: set<Socket>)
      returns (ends: bool)
      requires Valid()
      modifies this
      ensures Valid()
      ensures Within(old(clients), clients)
      ensures forall c | c in old(clients) && c !in broken :: c in clients && clients[c] == old(clients)[c]
      ensures order == Keep(old(order), clients.Keys)
      ensures !command.Chat? ==>
                clients == old(clients) && users == old(users) && order == old(order)
                && outbox == old(outbox) + Deliver(Replies(ws, username, command, old(NamesOf(order, clients)),
                                                           old(users), stamp), broken).sent
                && ends == (command.Exit?
                            || Deliver(Replies(ws, username, command, old(NamesOf(order, clients)),
                                               old(users), stamp), broken).raised)
      ensures command.Chat? ==>
                !ends
                && Grows(old(outbox) + Addressed(Reached(old(order), Some(ws), broken),
                                                 Stamped(command.text, Some(ws), old(clients), stamp)),
                         outbox, old(clients), broken)
                && forall c | c in old(clients) && c in broken && c != ws :: c !in clients
      ensures command.Chat? && (forall c | c in old(clients) && c != ws :: c !in broken) ==>
                outbox == old(outbox) + Addressed(Reached(old(order), Some(ws), broken),
                                                  Stamped(command.text, Some(ws), old(clients), stamp))
                && clients == old(clients)
      ensures Extends(old(outbox), outbox)
      ensures Announced(old(clients), clients, outbox[|old(outbox)|..])
    {
      if command.Chat? {
        if forall c | c in clients && c != ws :: c !in broken {
          NothingFailed(order, Some(ws), broken);
        }
        Broadcast(command.text, Some(ws), stamp, broken);
        ExtendsShorter(old(outbox), Addressed(Reached(old(order), Some(ws), broken),
                                              Stamped(command.text, Some(ws), old(clients), stamp)), outbox);
        ends := false;
      } else {
        KeepAll(order, clients.Keys);
        var raised := SendAll(Replies(ws, username, command, UserNames(), users, stamp), broken);
        ends := command.Exit? || raised;
      }
    }

    /** Reads one line from a registered user's connection and acts on it. */
    method HandleLine(ws: Socket, username: string, data: string, stamp: string, broken: set<Socket>)
      returns (ends: bool)
      requires Valid()
      modifies this
      ensures Valid()
      ensures Within(old(clients), clients)
      ensures forall c | c in old(clients) && c !in broken :: c in clients && clients[c] == old(clients)[c]
      ensures order == Keep(old(order), clients.Keys)
      ensures !Dispatch(data).Chat? ==>
                clients == old(clients) && users == old(users) && order == old(order)
                && outbox == old(outbox) + Deliver(Replies(ws, username, Dispatch(data), old(NamesOf(order, clients)),
                                                           old(users), stamp), broken).sent
                && ends == (Dispatch(data).Exit?
                            || Deliver(Replies(ws, username, Dispatch(data), old(NamesOf(order, clients)),
                                               old(users), stamp), broken).raised)
      ensures Dispatch(data).Chat? ==>
                !ends
                && Grows(old(outbox) + Addressed(Reached(old(order), Some(ws), broken),
                                                 Stamped(Dispatch(data).text, Some(ws), old(clients), stamp)),
                         outbox, old(clients), broken)
                && forall c | c in old(clients) && c in broken && c != ws :: c !in clients
      ensures Dispatch(data).Chat? && (forall c | c in old(clients) && c != ws :: c !in broken) ==>
                outbox == old(outbox) + Addressed(Reached(old(order), Some(ws), broken),
                                                  Stamped(Dispatch(data).text, Some(ws), old(clients), stamp))
                && clients == old(clients)
      ensures Extends(old(outbox), outbox)
      ensures Announced(old(clients), clients, outbox[|old(outbox)|..])
    {
      ends := HandleMessage(ws, username, Dispatch(data), stamp, broken);
    }

    /** One connection's whole session: the handshake, then its lines in
        order until it leaves, its connection closes or the lines run out,
        and in every case its disconnection at the end. */
    method Serve(ws: Socket, reply: Option<string>, lines: seq<string>, stamp: string, broken: set<Socket>)
      requires Valid() && ws !in clients
      modifies this
      ensures Valid()
      ensures ws !in clients
      ensures Within(old(clients), clients)
      ensures forall c | c in old(clients) && c !in broken :: c in clients && clients[c] == old(clients)[c]
      ensures order == Keep(old(order), clients.Keys)
      ensures Extends(old(outbox), outbox)
      ensures Announced(old(clients), clients, outbox[|old(outbox)|..])
    {
      Session(ws, reply, lines, stamp, broken);
      ghost var staying := order;
      ghost var before := clients;
      ghost var conversed := outbox;
      HandleDisconnect(ws, stamp, broken);
      SessionEnds(old(clients), old(order), before, clients, staying, order, ws, broken,
                  old(outbox), conversed, outbox);
    }

    /** A session up to its disconnection: the handshake and, once
        admitted, the message loop. */
    method Session(ws: Socket, reply: Option<string>, lines: seq<string>, stamp: string, broken: set<Socket>)
      requires Valid() && ws !in clients
      modifies this
      ensures Valid()
      ensures forall c | c in clients && c != ws :: c in old(clients) && clients[c] == old(clients)[c]
      ensures forall c | c in old(clients) && c !in broken :: c in clients && clients[c] == old(clients)[c]
      ensures order == Keep(old(order) + [ws], clients.Keys)
      ensures Extends(old(outbox), outbox)
      ensures Announced(old(clients), clients, outbox[|old(outbox)|..])
    {
      var accepted := Connect(ws, reply, stamp, broken);
      ghost var present := clients;
      ghost var connected := outbox;
      if accepted {
        Converse(ws, clients[ws], lines, stamp, broken);
        Narrows(present, clients);
        KeepTwice(old(order) + [ws], present.Keys, clients.Keys);
        SessionAnnounced(old(clients), present, clients, old(outbox), connected, outbox);
      } else {
        KeepAll(old(order), clients.Keys);
        KeepDropLast(old(order), ws, clients.Keys);
      }
    }

    /** The message loop of a registered user's session. */
    method Converse(ws: Socket, username: string, lines: seq<string>, stamp: string, broken: set<Socket>)
      requires Valid()
      modifies this
      ensures Valid()
      ensures Within(old(clients), clients)
      ensures forall c | c in old(clients) && c !in broken :: c in clients && clients[c] == old(clients)[c]
      ensures order == Keep(old(order), clients.Keys)
      ensures Extends(old(outbox), outbox)
      ensures Announced(old(clients), clients, outbox[|old(outbox)|..])
    {
      KeepAll(order, clients.Keys);
      assert outbox[..|old(outbox)|] == old(outbox);
      var i := 0;
      var ends := false;
      while i < |lines| && !ends
        invariant 0 <= i <= |lines|
        invariant Valid()
        invariant Within(old(clients), clients)
        invariant forall c | c in old(clients) && c !in broken :: c in clients && clients[c] == old(clients)[c]
        invariant order == Keep(old(order), clients.Keys)
        invariant Extends(old(outbox), outbox)
        invariant Announced(old(clients), clients, outbox[|old(outbox)|..])
      {
        ghost var mid := clients;
        ghost var sent := outbox;
        ends := HandleLine(ws, username, lines[i], stamp, broken);
        AnnouncedTrans(old(clients), mid, clients, old(outbox), sent, outbox);
        ExtendsTrans(old(outbox), sent, outbox);
        Narrows(mid, clients);
        KeepTwice(old(order), mid.Keys, clients.Keys);
        i := i + 1;
      }
    }
  }

  lemma AddressedAppend(targets: seq<Socket>, ws: Socket, text: string)
    ensures Addressed(targets + [ws], text) == Addressed(targets, text) + [Send(ws, text)]
  {
  }
}
