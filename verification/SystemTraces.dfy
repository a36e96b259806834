/** Building blocks of concrete runs of the whole system in which everything goes well. */
module SystemTraces {
  import opened LeaseTypes
  import opened ServerModel
  import opened ServerInvariant
  import opened ServerProperties
  import opened LeaseSystem
  import opened SystemSafety
  import C = ClientModel

  const IO_OK := Io(true, true, true)
  const ALL_SENT := C.Sends(true, true, true)

  // The state after the first of some actions, for two ways to go on from it.
  lemma AfterFirst(s: System, actions: seq<Action>, others: seq<Action>) returns (m: System)
    requires Typed(s) && actions != [] && others != [] && actions[0] == others[0] && Run(s, actions)
    ensures Typed(m) && Run(m, actions[1..]) && Outcome(s, actions) == Outcome(m, actions[1..])
    ensures Run(m, others[1..]) ==> Run(s, others) && Outcome(s, others) == Outcome(m, others[1..])
  {
    m := Next(s, actions[0]);
  }

  lemma {:induction false} RunAppend(s: System, first: seq<Action>, rest: seq<Action>)
    requires Typed(s) && Run(s, first) && Run(Outcome(s, first), rest)
    ensures Run(s, first + rest) && Outcome(s, first + rest) == Outcome(Outcome(s, first), rest)
    decreases |first|
  {
    if first == [] {
      assert first + rest == rest;
    } else {
      var all := first + rest;
      assert all[0] == first[0] && all[1..] == first[1..] + rest;
      var m := AfterFirst(s, first, all);
      RunAppend(m, first[1..], rest);
    }
  }

  lemma RunOne(s: System, a: Action)
    requires Typed(s) && Possible(s, a)
    ensures Run(s, [a]) && Outcome(s, [a]) == Next(s, a)
  {
    assert [a][1..] == [];
  }

  // The new process's first request, with everything working.
  function Ask(key: Key): Action {
    Local(key, C.SocketTimeout(true, true))
  }

  function Asked(address: C.Address): (c: C.Client)
    ensures c.receiving && !c.stopped && c.requestTimer.Some?
    ensures c.address == address && c.rtTable == 0 && c.numFailed == 0 && c.sent == [CMD_REQ]
  {
    C.Step(C.Start(address), C.SocketTimeout(true, true))
  }

  lemma Asks(s: System, key: Key, address: C.Address)
    requires Typed(s) && key in s.clients && s.clients[key] == C.Start(address)
    ensures Possible(s, Ask(key))
    ensures Next(s, Ask(key))
            == s.(queue := s.queue + [Packet(key, CMD_REQ)], clients := s.clients[key := Asked(address)])
  {
    var c := Asked(address);
    assert Packets(key, c.sent[0..]) == [Packet(key, CMD_REQ)];
    assert s.inbox[key := s.inbox[key]] == s.inbox;
  }

  lemma RunTwo(s: System, a: Action, b: Action)
    requires Typed(s) && Possible(s, a) && Possible(Next(s, a), b)
    ensures Run(s, [a, b]) && Outcome(s, [a, b]) == Next(Next(s, a), b)
  {
    RunOne(Next(s, a), b);
    assert [a, b][0] == a && [a, b][1..] == [b];
  }

  lemma RunThen(s: System, first: seq<Action>, m: System, rest: seq<Action>, t: System) returns (actions: seq<Action>)
    requires Typed(s) && Run(s, first) && Outcome(s, first) == m
    requires Run(m, rest) && Outcome(m, rest) == t
    ensures Run(s, actions) && Outcome(s, actions) == t
  {
    RunAppend(s, first, rest);
    actions := first + rest;
  }

  ghost function Joined(s: System, key: Key, address: C.Address): System {
    s.(queue := s.queue + [Packet(key, CMD_REQ)],
       clients := s.clients[key := Asked(address)], inbox := s.inbox[key := []])
  }

  // A process begins and sends its first request.
  lemma Joins(s: System, key: Key, address: C.Address) returns (actions: seq<Action>)
    requires Typed(s) && Possible(s, Begin(key, address))
    ensures Run(s, actions) && Outcome(s, actions) == Joined(s, key, address)
  {
    var m := Next(s, Begin(key, address));
    Asks(m, key, address);
    actions := [Begin(key, address), Ask(key)];
    RunTwo(s, Begin(key, address), Ask(key));
  }

  // A client that has read a granted lease.
  function Lessee(c: C.Client, reply: Reply, now: nat): (r: C.Client)
    requires !c.stopped && reply.table != 0
    ensures r.rtTable == ReadInt(reply.table) && r.leaseExpires == ReadInt(reply.expires)
    ensures !r.stopped && r.sent == c.sent && r.receiving == c.receiving && r.requestTimer.Some?
    ensures r.address == c.address
    ensures r.installed == if c.rulesAdded then c.installed
                           else c.installed + C.FirstRules(c.address, ReadInt(reply.table), 3)
    ensures r.rulesAdded
  {
    C.Step(c, C.Datagram(C.TA_VERSION, CMD_RESP, reply.table, reply.expires, now, ALL_SENT))
  }

  // The head of the inbox, a granted table, is handed to the client.
  lemma Hands(s: System, key: Key)
    requires Typed(s) && Possible(s, Deliver(key, ALL_SENT)) && !s.clients[key].stopped && s.inbox[key][0].table != 0
    ensures var r := Next(s, Deliver(key, ALL_SENT));
            r == s.(clients := s.clients[key := Lessee(s.clients[key], s.inbox[key][0], s.now)],
                    inbox := s.inbox[key := s.inbox[key][1..]])
  {
    assert Packets(key, []) == [];
    assert s.queue + [] == s.queue;
  }

  // The server grants a request of the key.
  ghost predicate ServerReplies(cfg: Config, server: Server, now: nat, key: Key, server': Server, reply: Reply)
    requires cfg.Accepted() && RowsOk(cfg, server)
  {
    Apply(cfg, server, Event(now, Message(key, CMD_REQ, IO_OK))) == (server', Some(reply))
  }

  // A new key is granted the lowest table that is marked free.
  lemma GrantsLowest(cfg: Config, server: Server, now: nat, key: Key, table: u32) returns (server': Server)
    requires cfg.Accepted() && RowsOk(cfg, server) && ClockFits(cfg, now) && !HasRow(server.rows, key)
    requires TableFree(cfg, server, key.fam, table) && forall t | TableFree(cfg, server, key.fam, t) :: table <= t
    ensures ServerReplies(cfg, server, now, key, server', Reply(table, now + cfg.timeout)) && RowsOk(cfg, server')
    ensures server'.rows == server.rows[PrimaryKey(table, key.fam) := Row(key.ifname, key.addr, now + cfg.timeout)]
    ensures forall f: Family, t: u32 :: TableFree(cfg, server', f, t)
                                        <==> TableFree(cfg, server, f, t) && (f, t) != (key.fam, table)
  {
    server' := Apply(cfg, server, Event(now, Message(key, CMD_REQ, IO_OK))).0;
    Allotment(cfg, server, key, now, true, true);
  }

  ghost function Answered(s: System, key: Key, server: Server, reply: Reply): System
    requires key in s.clients && !s.clients[key].stopped && reply.table != 0
  {
    System(s.cfg, s.now, server, [], s.clients[key := Lessee(s.clients[key], reply, s.now)], s.inbox)
  }

  // A client's request, the only one in the queue, is served and its reply read.
  lemma Answers(s: System, key: Key, server: Server, reply: Reply) returns (actions: seq<Action>)
    requires Typed(s) && s.queue == [Packet(key, CMD_REQ)] && key in s.clients && s.inbox[key] == []
    requires s.clients[key].receiving && !s.clients[key].stopped
    requires ServerReplies(s.cfg, s.server, s.now, key, server, reply) && reply.table != 0
    ensures Run(s, actions) && Outcome(s, actions) == Answered(s, key, server, reply)
  {
    var m := Next(s, Serve(IO_OK, false));
    Hands(m, key);
    RunTwo(s, Serve(IO_OK, false), Deliver(key, ALL_SENT));
    assert m.inbox[key := m.inbox[key][1..]] == s.inbox;
    actions := [Serve(IO_OK, false), Deliver(key, ALL_SENT)];
  }

  ghost function Leased(s: System, key: Key, address: C.Address, server: Server, reply: Reply): System
    requires reply.table != 0
  {
    System(s.cfg, s.now, server, [], s.clients[key := Lessee(Asked(address), reply, s.now)], s.inbox[key := []])
  }

  lemma JoinedThenAnswered(s: System, key: Key, address: C.Address, server: Server, reply: Reply)
    requires reply.table != 0
    ensures Answered(Joined(s, key, address), key, server, reply) == Leased(s, key, address, server, reply)
  {
    var asked, lessee := Asked(address), Lessee(Asked(address), reply, s.now);
    assert s.clients[key := asked][key := lessee] == s.clients[key := lessee];
  }

  // A new client asks, is served and reads its reply.
  lemma Leases(s: System, key: Key, address: C.Address, server: Server, reply: Reply) returns (actions: seq<Action>)
    requires Typed(s) && key !in s.clients && s.queue == []
    requires ServerReplies(s.cfg, s.server, s.now, key, server, reply) && reply.table != 0
    ensures Run(s, actions) && Outcome(s, actions) == Leased(s, key, address, server, reply)
  {
    var first := Joins(s, key, address);
    var m := Joined(s, key, address);
    assert m.queue == [Packet(key, CMD_REQ)];
    var rest := Answers(m, key, server, reply);
    JoinedThenAnswered(s, key, address, server, reply);
    actions := RunThen(s, first, m, rest, Leased(s, key, address, server, reply));
  }

  // Different names, as many as it takes.
  function Name(fam: Family, i: nat): (key: Key) {
    Key(fam, "", seq(i, _ => 'a'))
  }

  lemma NamesDiffer(fam: Family, i: nat, j: nat)
    requires i != j
    ensures Name(fam, i) != Name(fam, j)
  {
    assert |Name(fam, i).addr| == i && |Name(fam, j).addr| == j;
  }

  lemma OthersKeepNoRow(rows: Rows, pk: PrimaryKey, row: Row, n: nat)
    requires KeyOf(pk, row) == Name(pk.fam, n) && forall i | n <= i :: !HasRow(rows, Name(pk.fam, i))
    ensures forall i | n + 1 <= i :: !HasRow(rows[pk := row], Name(pk.fam, i))
  {
    var rows' := rows[pk := row];
    forall i | n + 1 <= i ensures !HasRow(rows', Name(pk.fam, i)) {
      NamesDiffer(pk.fam, i, n);
      forall q ensures !Owns(rows', q, Name(pk.fam, i)) {
        assert !Owns(rows, q, Name(pk.fam, i));
      }
    }
  }
}
