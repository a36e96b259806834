/** Why a client process must not begin while a request of its key is queued ahead of a release of it. */
module EarlyBegin {
  import opened LeaseTypes
  import opened ServerModel
  import opened ServerInvariant
  import opened ServerProperties
  import opened ServerRuns
  import opened LeaseSystem
  import opened SystemSafety
  import opened SystemTraces
  import C = ClientModel

  // A client that waits for its first reply asks again, and then its link goes away.
  lemma Leaves(s: System, key: Key, address: C.Address) returns (actions: seq<Action>)
    requires Typed(s) && key in s.clients && s.clients[key] == Asked(address)
    ensures Run(s, actions)
    ensures Outcome(s, actions) == s.(queue := s.queue + [Packet(key, CMD_REQ), Packet(key, CMD_REL)],
                                      clients := s.clients - {key}, inbox := s.inbox - {key})
  {
    var again := Local(key, C.RequestTimeout(true));
    var leave := Local(key, C.Netlink([C.DelLink(address.ifidx)], ALL_SENT, true));
    var c1 := C.Step(Asked(address), again.event);
    assert c1.sent == [CMD_REQ, CMD_REQ];
    assert Packets(key, c1.sent[1..]) == [Packet(key, CMD_REQ)];
    var m := Next(s, again);
    assert m == s.(queue := s.queue + [Packet(key, CMD_REQ)], clients := s.clients[key := c1], inbox := m.inbox);
    GoesAway(c1, leave.event);
    RunTwo(s, again, leave);
    actions := [again, leave];
    assert Packets(key, C.Step(c1, leave.event).sent[2..]) == [Packet(key, CMD_REL)];
  }

  lemma GoesAway(c: C.Client, e: C.Event)
    requires !c.stopped && e == C.Netlink([C.DelLink(c.address.ifidx)], ALL_SENT, true)
    ensures C.Step(c, e).stopped && C.Step(c, e).sent == c.sent + [CMD_REL]
  {
    assert C.DelLink(c.address.ifidx) in e.msgs && C.Concerns(c.address, C.DelLink(c.address.ifidx));
  }

  // A request of k1, its release and a request of k2, served in turn at one moment: both get the same table.
  ghost predicate LendsOn(cfg: Config, server: Server, now: nat, k1: Key, k2: Key, granted: Reply)
    requires cfg.Accepted() && RowsOk(cfg, server)
  {
    var (v1, r1) := Apply(cfg, server, Event(now, Message(k1, CMD_REQ, IO_OK)));
    var (v2, r2) := Apply(cfg, v1, Event(now, Message(k1, CMD_REL, IO_OK)));
    var (v3, r3) := Apply(cfg, v2, Event(now, Message(k2, CMD_REQ, IO_OK)));
    r1 == Some(granted) && r2 == Some(Reply(0, 0)) && r3 == Some(granted)
  }

  // k1 has a row whose table is not above any free one, and k2 has none.
  ghost predicate ReadyToLend(cfg: Config, server: Server, now: nat, k1: Key, k2: Key) {
    && Inv(cfg, server, now) && ClockFits(cfg, now)
    && HasRow(server.rows, k1) && !HasRow(server.rows, k2)
    && forall t | TableFree(cfg, server, k1.fam, t) :: Lookup(server.rows, k1) <= t
  }

  lemma ServerLendsOn(cfg: Config, server: Server, now: nat, k1: Key, k2: Key) returns (granted: Reply)
    requires ReadyToLend(cfg, server, now, k1, k2) && k1.fam == k2.fam
    ensures LendsOn(cfg, server, now, k1, k2, granted) && Lasting(granted, now)
  {
    granted := Reply(Lookup(server.rows, k1), Wrap32(now + cfg.timeout));
    ClockFacts(cfg, now);
    ReleaseLendsOn(cfg, server, k1, k2, now, IO_OK);
    RowTable(cfg, server, k1, Lookup(server.rows, k1));
  }

  // A lease that has some time to run.
  predicate Lasting(r: Reply, now: nat) {
    r.table != 0 && now < r.expires < 0x8000_0000
  }

  // Serving the very first request is enough for that.
  lemma FirstIsReady(cfg: Config, families: set<Family>, k1: Key, k2: Key)
    requires cfg.Accepted() && families <= FAMILIES && cfg.numTables >= 32 && ClockFits(cfg, 0)
    requires k1.fam in families && k1 != k2
    ensures ReadyToLend(cfg, Apply(cfg, Fresh(cfg, families), Event(0, Message(k1, CMD_REQ, IO_OK))).0, 0, k1, k2)
  {
    var server, e := Fresh(cfg, families), Event(0, Message(k1, CMD_REQ, IO_OK));
    FreshAgrees(cfg, families);
    StepKeepsInv(cfg, server, e);
    FirstRequestIff(cfg, families, k1, 0, true, true);
    NewLease(cfg, server, k1, 0, true, true);
    var (server', reply) := Apply(cfg, server, e);
    var pk := PrimaryKey(reply.value.table, k1.fam);
    assert server'.rows == map[pk := Row(k1.ifname, k1.addr, cfg.timeout)];
    assert Owns(server'.rows, pk, k1);
    LookupIs(server'.rows, pk, k1);
  }

  predicate HeadOfQueue(s: System, k1: Key, k2: Key) {
    && |s.queue| >= 3
    && s.queue[0] == Packet(k1, CMD_REQ) && s.queue[1] == Packet(k1, CMD_REL) && s.queue[2] == Packet(k2, CMD_REQ)
  }

  lemma ServesThree(s: System, k1: Key, k2: Key, granted: Reply) returns (actions: seq<Action>)
    requires Typed(s) && LendsOn(s.cfg, s.server, s.now, k1, k2, granted) && k1 != k2
    requires HeadOfQueue(s, k1, k2)
    requires k1 in s.clients && k2 in s.clients && s.inbox[k1] == [] && s.inbox[k2] == []
    ensures Run(s, actions)
    ensures var r := Outcome(s, actions);
            && r.clients == s.clients && r.now == s.now
            && r.inbox[k1] == [granted, Reply(0, 0)] && r.inbox[k2] == [granted]
  {
    var serve := Serve(IO_OK, false);
    var s1 := Next(s, serve);
    var s2 := Next(s1, serve);
    RunTwo(s, serve, serve);
    RunOne(s2, serve);
    RunAppend(s, [serve, serve], [serve]);
    actions := [serve, serve] + [serve];
  }

  // The next reply that the running client reads.
  ghost predicate CanRead(s: System, k: Key, reply: Reply)
    requires Typed(s)
  {
    k in s.clients && s.clients[k].receiving && !s.clients[k].stopped && s.inbox[k] != [] && s.inbox[k][0] == reply
  }

  // Both clients read the reply that names the same table.
  lemma ReadBoth(s: System, k1: Key, k2: Key, granted: Reply) returns (actions: seq<Action>)
    requires Typed(s) && k1 != k2 && k1.fam == k2.fam && Lasting(granted, s.now)
    requires CanRead(s, k1, granted) && CanRead(s, k2, granted)
    ensures Run(s, actions) && !Exclusive(Outcome(s, actions))
  {
    var m := Next(s, Deliver(k1, ALL_SENT));
    Hands(s, k1);
    Hands(m, k2);
    RunTwo(s, Deliver(k1, ALL_SENT), Deliver(k2, ALL_SENT));
    actions := [Deliver(k1, ALL_SENT), Deliver(k2, ALL_SENT)];
    var r := Outcome(s, actions);
    assert Holds(r, k1) && Holds(r, k2);
  }

  // From the empty system: k1 asks, is served, asks again, and leaves before it has read anything.
  lemma FirstProcess(cfg: Config, families: set<Family>, k1: Key, k2: Key, a1: C.Address) returns (actions: seq<Action>)
    requires cfg.Accepted() && families <= FAMILIES && cfg.numTables >= 32 && ClockFits(cfg, 0)
    requires k1.fam in families && k1 != k2
    ensures Run(Initial(cfg, families), actions)
    ensures var s := Outcome(Initial(cfg, families), actions);
            && s.cfg == cfg && s.now == 0 && s.clients == map[]
            && s.queue == [Packet(k1, CMD_REQ), Packet(k1, CMD_REL)]
            && ReadyToLend(cfg, s.server, 0, k1, k2)
  {
    var s := Initial(cfg, families);
    var join := Joins(s, k1, a1);
    var s1 := Outcome(s, join);
    var s2 := Next(s1, Serve(IO_OK, false));
    FirstIsReady(cfg, families, k1, k2);
    RunOne(s1, Serve(IO_OK, false));
    RunAppend(s, join, [Serve(IO_OK, false)]);
    var leave := Leaves(s2, k1, a1);
    RunAppend(s, join + [Serve(IO_OK, false)], leave);
    actions := join + [Serve(IO_OK, false)] + leave;
  }

  lemma BothTake(s: System, k1: Key, k2: Key) returns (actions: seq<Action>)
    requires Typed(s) && k1 != k2 && k1.fam == k2.fam && ReadyToLend(s.cfg, s.server, s.now, k1, k2)
    requires HeadOfQueue(s, k1, k2)
    requires k1 in s.clients && k2 in s.clients && s.inbox[k1] == [] && s.inbox[k2] == []
    requires s.clients[k1].receiving && !s.clients[k1].stopped && s.clients[k2].receiving && !s.clients[k2].stopped
    ensures Run(s, actions) && !Exclusive(Outcome(s, actions))
  {
    var granted := ServerLendsOn(s.cfg, s.server, s.now, k1, k2);
    var serve := ServesThree(s, k1, k2, granted);
    var read := ReadBoth(Outcome(s, serve), k1, k2, granted);
    RunAppend(s, serve, read);
    actions := serve + read;
  }

  // What happens once the process has begun too early: it asks, the three older packets are served, both read.
  lemma AfterEarlyBegin(s: System, k1: Key, k2: Key, a1: C.Address) returns (actions: seq<Action>)
    requires Typed(s) && k1 != k2 && k1.fam == k2.fam && ReadyToLend(s.cfg, s.server, s.now, k1, k2)
    requires HeadOfQueue(s, k1, k2)
    requires k1 in s.clients && k2 in s.clients && s.inbox[k1] == [] && s.inbox[k2] == []
    requires s.clients[k1] == C.Start(a1) && s.clients[k2].receiving && !s.clients[k2].stopped
    ensures Run(s, actions) && !Exclusive(Outcome(s, actions))
  {
    Asks(s, k1, a1);
    var m := Next(s, Ask(k1));
    RunOne(s, Ask(k1));
    var rest := BothTake(m, k1, k2);
    RunAppend(s, [Ask(k1)], rest);
    actions := [Ask(k1)] + rest;
  }

  // From the empty system there is a run after which one process may begin, as nothing in the programs prevents, only
  // against that restriction; and if it does, a run from there on ends with two clients that hold unexpired leases of
  // one table. Its key's older request is answered to it, although a release that follows gives the table to another.
  lemma EarlyBeginLendsTwice(cfg: Config, families: set<Family>, k1: Key, k2: Key, a1: C.Address, a2: C.Address)
    returns (before: seq<Action>, after: seq<Action>)
    requires cfg.Accepted() && families <= FAMILIES && cfg.numTables >= 32 && ClockFits(cfg, 0)
    requires k1.fam in families && k1 != k2 && k1.fam == k2.fam
    ensures Run(Initial(cfg, families), before)
    ensures var s := Outcome(Initial(cfg, families), before);
            && Runnable(s, Begin(k1, a1)) && GrantBeforeRelease(s, k1)
            && Run(Next(s, Begin(k1, a1)), after) && !Exclusive(Outcome(Next(s, Begin(k1, a1)), after))
  {
    var first := FirstProcess(cfg, families, k1, k2, a1);
    var s1 := Outcome(Initial(cfg, families), first);
    var join := Joins(s1, k2, a2);
    RunAppend(Initial(cfg, families), first, join);
    before := first + join;
    var s := Outcome(s1, join);
    assert s.queue == [Packet(k1, CMD_REQ), Packet(k1, CMD_REL), Packet(k2, CMD_REQ)];
    assert s.queue[0] == Packet(k1, CMD_REQ) && s.queue[1] == Packet(k1, CMD_REL);
    after := AfterEarlyBegin(Next(s, Begin(k1, a1)), k1, k2, a1);
  }
}
