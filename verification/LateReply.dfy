/** Why a reply must not change the table of rules that are in place: two lease holders end up with rules for one. */
module LateReply {
  import opened LeaseTypes
  import opened Words
  import opened ServerModel
  import opened ServerInvariant
  import opened ServerProperties
  import opened ServerRuns
  import opened LeaseSystem
  import opened SystemSafety
  import opened SystemRules
  import opened SystemTraces
  import C = ClientModel

  // Nothing is lent: every table of the family is free and no row is left.
  ghost predicate Unlent(cfg: Config, server: Server, fam: Family) {
    && cfg.Accepted() && RowsOk(cfg, server) && server.rows == map[]
    && forall t: u32 :: TableFree(cfg, server, fam, t) <==> cfg.InRange(t)
  }

  lemma FreshIsUnlent(cfg: Config, families: set<Family>, fam: Family)
    requires cfg.Accepted() && families <= FAMILIES && fam in families
    ensures Unlent(cfg, Fresh(cfg, families), fam)
  {
    var server := Fresh(cfg, families);
    forall t: u32 ensures TableFree(cfg, server, fam, t) <==> cfg.InRange(t) {
      if cfg.InRange(t) {
        TableRoundTrip(cfg, t);
        assert WithinWords(cfg.Slot(t), cfg.Elements());
        NothingRead(cfg, server, 0);
      }
    }
  }

  // k1's lease is granted, runs out and is swept.
  lemma LapseIsUnlent(cfg: Config, server: Server, k1: Key) returns (lent: Server, swept: Server, read: set<PrimaryKey>)
    requires Unlent(cfg, server, k1.fam) && cfg.numTables >= 32
    ensures ServerReplies(cfg, server, 0, k1, lent, Reply(cfg.offset, cfg.timeout)) && RowsOk(cfg, lent)
    ensures swept == ServerModel.Sweep(cfg, lent, cfg.timeout, read, true) && Unlent(cfg, swept, k1.fam)
  {
    var pk := PrimaryKey(cfg.offset, k1.fam);
    assert TableFree(cfg, server, k1.fam, cfg.offset);
    forall key ensures !HasRow(server.rows, key) {
    }
    lent := GrantsLowest(cfg, server, 0, k1, cfg.offset);
    read := {pk};
    swept := ServerModel.Sweep(cfg, lent, cfg.timeout, read, true);
    assert lent.rows == map[pk := Row(k1.ifname, k1.addr, cfg.timeout)];
    ClockFacts(cfg, cfg.timeout);
    SweepKeepsRows(cfg, lent, cfg.timeout, read, true);
    forall t: u32 ensures TableFree(cfg, swept, k1.fam, t) <==> cfg.InRange(t) {
      SweptTable(cfg, lent, cfg.timeout, read, true, k1.fam, t);
    }
  }

  // Then k2 is granted the first table, and k1 the next.
  lemma TwoMoreGrants(cfg: Config, server: Server, now: nat, k1: Key, k2: Key) returns (lent: Server, both: Server)
    requires Unlent(cfg, server, k1.fam) && cfg.numTables >= 32 && ClockFits(cfg, now) && k1 != k2 && k1.fam == k2.fam
    ensures ServerReplies(cfg, server, now, k2, lent, Reply(cfg.offset, now + cfg.timeout)) && RowsOk(cfg, lent)
    ensures ServerReplies(cfg, lent, now, k1, both, Reply(cfg.offset + 1, now + cfg.timeout))
  {
    assert TableFree(cfg, server, k1.fam, cfg.offset) && TableFree(cfg, server, k1.fam, cfg.offset + 1);
    forall key ensures !HasRow(server.rows, key) {
    }
    lent := GrantsLowest(cfg, server, now, k2, cfg.offset);
    forall pk ensures !Owns(lent.rows, pk, k1) {
    }
    both := GrantsLowest(cfg, lent, now, k1, cfg.offset + 1);
  }

  // A client with a lease asks again.
  lemma AsksAgain(s: System, key: Key) returns (c: C.Client)
    requires Typed(s) && key in s.clients && !s.clients[key].stopped && s.clients[key].requestTimer.Some?
    requires s.clients[key].rtTable != 0
    ensures Possible(s, Local(key, C.RequestTimeout(true)))
    ensures Next(s, Local(key, C.RequestTimeout(true)))
            == s.(queue := s.queue + [Packet(key, CMD_REQ)], clients := s.clients[key := c])
    ensures c == C.Send(s.clients[key], CMD_REQ, true)
  {
    c := C.Step(s.clients[key], C.RequestTimeout(true));
    assert Packets(key, c.sent[|s.clients[key].sent|..]) == [Packet(key, CMD_REQ)];
    assert s.inbox[key := s.inbox[key]] == s.inbox;
  }

  // ... and reads the answer; its rules stay.
  lemma IsAnswered(s: System, key: Key, server: Server, reply: Reply) returns (actions: seq<Action>)
    requires Typed(s) && s.queue == [] && key in s.clients && s.inbox[key] == []
    requires !s.clients[key].stopped && s.clients[key].receiving && s.clients[key].requestTimer.Some?
    requires s.clients[key].rtTable != 0 && s.clients[key].rulesAdded
    requires ServerReplies(s.cfg, s.server, s.now, key, server, reply) && reply.table != 0
    ensures Run(s, actions)
    ensures var t := Outcome(s, actions);
            && t.now == s.now && key in t.clients && t.clients == s.clients[key := t.clients[key]]
            && t.clients[key].rtTable == ReadInt(reply.table) && t.clients[key].leaseExpires == ReadInt(reply.expires)
            && t.clients[key].installed == s.clients[key].installed
  {
    var ask := Local(key, C.RequestTimeout(true));
    var c := AsksAgain(s, key);
    RunOne(s, ask);
    var m := s.(queue := s.queue + [Packet(key, CMD_REQ)], clients := s.clients[key := c]);
    assert m.queue == [Packet(key, CMD_REQ)];
    var answer := Answers(m, key, server, reply);
    actions := RunThen(s, [ask], m, answer, Answered(m, key, server, reply));
  }

  // The lease of k1 runs out and is swept: nothing is lent, k1 does not know.
  lemma Lapses(cfg: Config, families: set<Family>, k1: Key, a1: C.Address) returns (actions: seq<Action>, c1: C.Client)
    requires cfg.Accepted() && families <= FAMILIES && ClockFits(cfg, 0) && cfg.numTables >= 32 && k1.fam in families
    ensures c1 == Lessee(Asked(a1), Reply(cfg.offset, cfg.timeout), 0)
    ensures Run(Initial(cfg, families), actions)
    ensures var s := Outcome(Initial(cfg, families), actions);
            && s == System(cfg, cfg.timeout, s.server, [], map[k1 := c1], map[k1 := []])
            && Unlent(cfg, s.server, k1.fam)
  {
    var s := Initial(cfg, families);
    var reply := Reply(cfg.offset, cfg.timeout);
    c1 := Lessee(Asked(a1), reply, 0);
    FreshIsUnlent(cfg, families, k1.fam);
    var lent, swept, read := LapseIsUnlent(cfg, s.server, k1);
    var lease := Leases(s, k1, a1, lent, reply);
    var m := Leased(s, k1, a1, lent, reply);
    assert m == System(cfg, 0, lent, [], map[k1 := c1], map[k1 := []]);
    RunTwo(m, Tick(cfg.timeout), Sweep(read, true));
    actions := RunThen(s, lease, m, [Tick(cfg.timeout), Sweep(read, true)],
                       System(cfg, cfg.timeout, swept, [], map[k1 := c1], map[k1 := []]));
  }

  // Two holders of leases in one family, and a rule of each that names one table.
  ghost predicate ShareRules(s: System, k1: Key, k2: Key) {
    && k1 != k2 && k1.fam == k2.fam && Holds(s, k1) && Holds(s, k2)
    && exists r1, r2 :: r1 in s.clients[k1].installed && r2 in s.clients[k2].installed && r1.table == r2.table
  }

  ghost predicate HasRuleFor(c: C.Client, table: u32) {
    exists r :: r in c.installed && r.table == table
  }

  lemma LesseeHasRule(address: C.Address, reply: Reply, now: nat)
    requires reply.table != 0
    ensures HasRuleFor(Lessee(Asked(address), reply, now), ReadInt(reply.table))
  {
    assert C.Rules(address, ReadInt(reply.table))[0] in Lessee(Asked(address), reply, now).installed;
  }

  // A client whose rules name the table that another is lent asks again only now, gets another one and keeps its rules.
  lemma StillHasRule(s: System, k1: Key, k2: Key, table: u32, server: Server, reply: Reply)
    returns (actions: seq<Action>)
    requires Typed(s) && s.queue == [] && k1 != k2 && k1.fam == k2.fam && k1 in s.clients && s.inbox[k1] == []
    requires !s.clients[k1].stopped && s.clients[k1].receiving && s.clients[k1].requestTimer.Some?
    requires s.clients[k1].rtTable != 0 && s.clients[k1].rulesAdded
    requires HasRuleFor(s.clients[k1], table) && Holds(s, k2) && HasRuleFor(s.clients[k2], table)
    requires ServerReplies(s.cfg, s.server, s.now, k1, server, reply)
    requires reply.table != 0 && s.now < reply.expires < 0x8000_0000
    ensures Run(s, actions) && ShareRules(Outcome(s, actions), k1, k2)
  {
    actions := IsAnswered(s, k1, server, reply);
  }

  // k2 gets the table that k1's rules name.
  lemma NextHolder(cfg: Config, s: System, k1: Key, k2: Key, c1: C.Client, a2: C.Address) returns (actions: seq<Action>)
    requires Typed(s) && s.cfg == cfg && s.queue == [] && ClockFits(cfg, s.now) && cfg.numTables >= 32
    requires Unlent(cfg, s.server, k1.fam) && k1 != k2 && k1.fam == k2.fam
    requires s.clients == map[k1 := c1] && s.inbox[k1] == []
    requires !c1.stopped && c1.receiving && c1.requestTimer.Some? && c1.rtTable != 0 && c1.rulesAdded
    requires HasRuleFor(c1, ReadInt(cfg.offset))
    ensures Run(s, actions) && ShareRules(Outcome(s, actions), k1, k2)
  {
    var lent, both := TwoMoreGrants(cfg, s.server, s.now, k1, k2);
    var first, second := Reply(cfg.offset, s.now + cfg.timeout), Reply(cfg.offset + 1, s.now + cfg.timeout);
    var lease := Leases(s, k2, a2, lent, first);
    var m := Leased(s, k2, a2, lent, first);
    LesseeHasRule(a2, first, s.now);
    assert Typed(m) && m.clients[k1] == c1 && m.inbox[k1] == [];
    var rest := StillHasRule(m, k1, k2, ReadInt(cfg.offset), both, second);
    actions := RunThen(s, lease, m, rest, Outcome(m, rest));
  }

  // From the empty system there is a run in which one client reads a reply after its lease has expired, and which ends
  // with two holders of leases whose rules name one table.
  lemma LateReplySharesRules(cfg: Config, families: set<Family>, k1: Key, k2: Key, a1: C.Address, a2: C.Address)
    returns (actions: seq<Action>)
    requires cfg.Accepted() && families <= FAMILIES && ClockFits(cfg, 0) && cfg.numTables >= 32
    requires k1.fam in families && k1 != k2 && k1.fam == k2.fam
    ensures Run(Initial(cfg, families), actions) && ShareRules(Outcome(Initial(cfg, families), actions), k1, k2)
    ensures cfg.ReadsBack() ==> !RulesKept(Initial(cfg, families), actions)
  {
    var lapse, c1 := Lapses(cfg, families, k1, a1);
    var s := Outcome(Initial(cfg, families), lapse);
    LesseeHasRule(a1, Reply(cfg.offset, cfg.timeout), 0);
    var rest := NextHolder(cfg, s, k1, k2, c1, a2);
    actions := RunThen(Initial(cfg, families), lapse, s, rest, Outcome(s, rest));
    if cfg.ReadsBack() && RulesKept(Initial(cfg, families), actions) {
      RulesAreExclusive(cfg, families, actions, k1, k2);
    }
  }
}
