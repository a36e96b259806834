/** Safety of every run of the whole system. */
module SystemSafety {
  import opened LeaseTypes
  import opened ServerModel
  import opened ServerInvariant
  import opened ServerProperties
  import opened ServerRuns
  import opened LeaseSystem
  import C = ClientModel
  import CP = ClientProperties

  lemma BackedSurvives(cfg: Config, server: Server, e: Event, key: Key, table: u32, expires: int)
    requires Inv(cfg, server, e.now) && Proper(cfg, server, e) && !ReleasesKey(e.op, key)
    requires Backed(server.rows, key, table, expires, e.now)
    ensures Backed(Apply(cfg, server, e).0.rows, key, table, expires, e.now)
  {
    if expires > e.now {
      LiveRowSurvives(cfg, server, e, PrimaryKey(table, key.fam));
    }
  }

  // A granted request leaves a row with the reply's table and expiry, the latest expiry there can be.
  lemma ReplyIsBacked(cfg: Config, server: Server, key: Key, now: nat, io: Io)
    requires Inv(cfg, server, now) && ClockFits(cfg, now)
    ensures var (server', reply) := Request(cfg, server, key, now, io.updated, io.inserted);
            reply.Some? ==>
              && reply.value.table != 0 && reply.value.expires == now + cfg.timeout
              && Backed(server'.rows, key, reply.value.table, reply.value.expires, now)
  {
    if HasRow(server.rows, key) {
      Renewal(cfg, server, key, now, io.updated, io.inserted);
    } else {
      NewLease(cfg, server, key, now, io.updated, io.inserted);
    }
  }

  predicate Sends(e: C.Event) {
    e.SocketTimeout? || e.RequestTimeout? || e.Netlink?
  }

  lemma OthersSendNothing(c: C.Client, e: C.Event)
    requires C.Enabled(c, e) && !Sends(e)
    ensures C.Step(c, e).sent == c.sent
  {
    match e
    case SocketError =>
    case SocketClosed =>
    case PartialDatagram =>
    case Unparsable =>
    case Datagram(_, _, _, _, _, _) =>
    case NetlinkTimeout(_) =>
  }

  lemma SendingAdds(c: C.Client, cmd: nat, sendOk: bool)
    ensures var c' := C.Send(c, cmd, sendOk);
            c.sent <= c'.sent && (CMD_REL in c'.sent[|c.sent|..] ==> cmd == CMD_REL)
  {
  }

  // A client only adds to what it has sent, and sends a release only as its last act.
  lemma ClientSends(c: C.Client, e: C.Event)
    requires C.Enabled(c, e)
    ensures var c' := C.Step(c, e);
            && c.sent <= c'.sent
            && (CMD_REL in c'.sent[|c.sent|..] ==> c'.stopped)
  {
    if !Sends(e) {
      OthersSendNothing(c, e);
    } else {
      match e
      case SocketTimeout(_, sendOk) => SendingAdds(c.(socketTimer := false), CMD_REQ, sendOk);
      case RequestTimeout(sendOk) => SendingAdds(c.(numFailed := C.Failures(c)), CMD_REQ, sendOk);
      case Netlink(_, sends, sendOk) => SendingAdds(C.DeleteRules(c.(stopped := true), sends), CMD_REL, sendOk);
    }
  }

  // Only a reply touches the expiry and the table.
  lemma LeaseKept(c: C.Client, e: C.Event)
    requires C.Enabled(c, e) && !e.Datagram?
    ensures C.Step(c, e).rtTable == c.rtTable && C.Step(c, e).leaseExpires == c.leaseExpires
  {
    match e
    case SocketTimeout(_, _) =>
    case RequestTimeout(_) =>
    case SocketError =>
    case SocketClosed =>
    case PartialDatagram =>
    case Unparsable =>
    case NetlinkTimeout(_) =>
    case Netlink(_, _, _) =>
  }

  lemma LeaseTaken(c: C.Client, e: C.Event)
    requires C.Enabled(c, e) && e.Datagram?
    ensures C.Step(c, e).leaseExpires == ReadInt(e.expires)
    ensures C.Step(c, e).rtTable == if CP.Accepts(e) then ReadInt(e.table) else c.rtTable
  {
  }

  lemma PacketsOf(key: Key, cmds: seq<nat>, p: Packet)
    ensures p in Packets(key, cmds) <==> p.key == key && p.cmd in cmds
  {
    if p.key == key && p.cmd in cmds {
      var i :| 0 <= i < |cmds| && cmds[i] == p.cmd;
      assert Packets(key, cmds)[i] == p;
    }
  }

  lemma QueueGrows(s: System, s': System, key: Key, cmds: seq<nat>, k: Key)
    requires s'.queue == s.queue + Packets(key, cmds)
    requires k != key || CMD_REL !in cmds
    ensures ReleaseQueued(s', k) ==> ReleaseQueued(s, k)
    ensures GrantBeforeRelease(s', k) ==> GrantBeforeRelease(s, k)
  {
    PacketsOf(key, cmds, Packet(k, CMD_REL));
    if GrantBeforeRelease(s', k) {
      var i, j :| 0 <= i < j < |s'.queue| && s'.queue[i] == Packet(k, CMD_REQ) && s'.queue[j] == Packet(k, CMD_REL);
      assert j < |s.queue|;
      assert s.queue[i] == s'.queue[i] && s.queue[j] == s'.queue[j];
    }
  }

  // Only the database, the clock and a queued release matter to what a client holds and is sent.
  lemma LeaseOkFrame(s: System, s': System, key: Key, c: C.Client, replies: seq<Reply>)
    requires LeaseOk(s, key, c, replies)
    requires s'.cfg == s.cfg && s'.now == s.now && s'.server == s.server
    requires ReleaseQueued(s', key) ==> ReleaseQueued(s, key)
    ensures LeaseOk(s', key, c, replies) && LeaseOk(s', key, c, [])
  {
  }

  // A client step keeps the invariant when it leaves its own lease and replies in order.
  lemma UpdateKeepsInv(s: System, key: Key, e: C.Event, inbox: seq<Reply>)
    requires SystemInv(s) && key in s.clients && C.Enabled(s.clients[key], e)
    requires LeaseOk(s, key, C.Step(s.clients[key], e), inbox)
    ensures SystemInv(Update(s, key, C.Step(s.clients[key], e), inbox))
  {
    var c' := C.Step(s.clients[key], e);
    var s' := Update(s, key, c', inbox);
    ClientSends(s.clients[key], e);
    var sent := c'.sent[|s.clients[key].sent|..];
    forall k | k in s'.clients ensures ClientOk(s', k) {
      assert ClientOk(s, k);
      QueueGrows(s, s', key, sent, k);
      if k == key {
        LeaseOkFrame(s, s', key, c', inbox);
      } else {
        LeaseOkFrame(s, s', k, s.clients[k], s.inbox[k]);
      }
    }
  }

  lemma LocalKeepsInv(s: System, a: Action)
    requires SystemInv(s) && Possible(s, a) && a.Local?
    ensures SystemInv(Next(s, a))
  {
    assert ClientOk(s, a.key);
    LeaseKept(s.clients[a.key], a.event);
    UpdateKeepsInv(s, a.key, a.event, s.inbox[a.key]);
  }

  // A reply that still matters is read as what it says.
  lemma HeadReadsBack(s: System, key: Key)
    requires SystemInv(s) && key in s.clients && s.inbox[key] != []
    ensures var r := s.inbox[key][0];
            && ReadInt(r.expires) == r.expires
            && (r.expires > s.now ==> ReadInt(r.table) == r.table)
  {
    assert ClientOk(s, key);
    ReadBackIff(s.cfg);
  }

  lemma DeliverKeepsInv(s: System, a: Action)
    requires SystemInv(s) && Possible(s, a) && a.Deliver?
    ensures SystemInv(Next(s, a))
  {
    assert ClientOk(s, a.key);
    var e := DeliveredEvent(s, a.key, a.sends);
    LeaseTaken(s.clients[a.key], e);
    HeadReadsBack(s, a.key);
    UpdateKeepsInv(s, a.key, e, s.inbox[a.key][1..]);
  }

  lemma RepliesSurvive(cfg: Config, server: Server, e: Event, key: Key, replies: seq<Reply>)
    requires Inv(cfg, server, e.now) && Proper(cfg, server, e) && !ReleasesKey(e.op, key)
    requires forall r | r in replies && r.table != 0 :: Backed(server.rows, key, r.table, r.expires, e.now)
    ensures forall r | r in replies && r.table != 0 ::
              Backed(Apply(cfg, server, e).0.rows, key, r.table, r.expires, e.now)
  {
    forall r | r in replies && r.table != 0
      ensures Backed(Apply(cfg, server, e).0.rows, key, r.table, r.expires, e.now)
    {
      BackedSurvives(cfg, server, e, key, r.table, r.expires);
    }
  }

  // A server step keeps backed what a running client holds and is sent; a release of its key can only be served
  // while that is nothing.
  lemma ServerKeepsClient(s: System, op: Op, key: Key, s': System)
    requires Typed(s) && Inv(s.cfg, s.server, s.now) && Proper(s.cfg, s.server, Event(s.now, op))
    requires key in s.clients && ClientOk(s, key) && (ReleasesKey(op, key) ==> ReleaseQueued(s, key))
    requires s' == s.(server := ServerStep(s, op).0)
    ensures ClientOk(s', key)
  {
    var e := Event(s.now, op);
    var c := s.clients[key];
    if !ReleasesKey(op, key) {
      if c.rtTable != 0 {
        BackedSurvives(s.cfg, s.server, e, key, c.rtTable, c.leaseExpires);
      }
      RepliesSurvive(s.cfg, s.server, e, key, s.inbox[key]);
    }
  }

  lemma MaintenanceKeepsInv(s: System, op: Op)
    requires SystemInv(s) && !op.Message? && Proper(s.cfg, s.server, Event(s.now, op))
    ensures SystemInv(s.(server := ServerStep(s, op).0))
  {
    var s' := s.(server := ServerStep(s, op).0);
    StepKeepsInv(s.cfg, s.server, Event(s.now, op));
    forall key | key in s'.clients ensures ClientOk(s', key) {
      assert ClientOk(s, key);
      ServerKeepsClient(s, op, key, s');
    }
  }

  // Losing queued packets or a client's replies, and changes to other clients, do not matter to a client.
  lemma ClientOkFrame(s: System, s': System, key: Key, cut: nat)
    requires key in s.clients && key in s.inbox && ClientOk(s, key)
    requires key in s'.clients && key in s'.inbox
    requires s'.clients[key] == s.clients[key] && (s'.inbox[key] == s.inbox[key] || s'.inbox[key] == [])
    requires s'.cfg == s.cfg && s'.now == s.now && s'.server == s.server
    requires cut <= |s.queue| && (s'.queue == [] || s'.queue == CutAt(s.queue, cut))
    ensures ClientOk(s', key)
  {
    QueueShrinks(s, s', key, cut);
    LeaseOkFrame(s, s', key, s.clients[key], s.inbox[key]);
  }

  // The queue without its packet at i; all of it for the position after the last.
  function CutAt(queue: seq<Packet>, i: nat): seq<Packet>
    requires i <= |queue|
  {
    if i == |queue| then queue else queue[..i] + queue[i + 1..]
  }

  lemma QueueShrinks(s: System, s': System, k: Key, cut: nat)
    requires cut <= |s.queue| && (s'.queue == [] || s'.queue == CutAt(s.queue, cut))
    ensures ReleaseQueued(s', k) ==> ReleaseQueued(s, k)
    ensures GrantBeforeRelease(s', k) ==> GrantBeforeRelease(s, k)
  {
    if GrantBeforeRelease(s', k) {
      var i, j :| 0 <= i < j < |s'.queue| && s'.queue[i] == Packet(k, CMD_REQ) && s'.queue[j] == Packet(k, CMD_REL);
      var i', j' := if i < cut then i else i + 1, if j < cut then j else j + 1;
      assert s.queue[i'] == s'.queue[i] && s.queue[j'] == s'.queue[j];
    }
  }

  lemma NewReplyIsOk(s: System, s': System, key: Key, reply: Reply)
    requires key in s.clients && key in s.inbox && ClientOk(s, key)
    requires s' == s.(inbox := s.inbox[key := s.inbox[key] + [reply]])
    requires if ReleaseQueued(s, key) then reply == Reply(0, 0)
             else
               && reply.table != 0 && reply.expires == s.now + s.cfg.timeout
               && Backed(s.server.rows, key, reply.table, reply.expires, s.now)
    ensures ClientOk(s', key)
  {
  }

  lemma ServeKeepsInv(s: System, a: Action)
    requires SystemInv(s) && Possible(s, a) && a.Serve?
    ensures SystemInv(Next(s, a))
  {
    var p := s.queue[0];
    var op := Message(p.key, p.cmd, a.io);
    var reply := ServerStep(s, op).1;
    var s1 := s.(server := ServerStep(s, op).0);
    var s' := Next(s, a);
    StepKeepsInv(s.cfg, s.server, Event(s.now, op));
    forall key | key in s'.clients ensures ClientOk(s', key) {
      assert ClientOk(s, key);
      ServerKeepsClient(s, op, key, s1);
      if key == p.key && reply.Some? && !a.lost {
        RepliesInOrder(s, key, a.io);
        var s2 := s1.(inbox := s1.inbox[key := s1.inbox[key] + [reply.value]]);
        NewReplyIsOk(s1, s2, key, reply.value);
        ClientOkFrame(s2, s', key, 0);
      } else {
        ClientOkFrame(s1, s', key, 0);
      }
    }
  }

  // While a release is queued for a running client, the packet of its key at the head is that release.
  lemma RepliesInOrder(s: System, key: Key, io: Io)
    requires SystemInv(s) && key in s.clients && s.queue != [] && s.queue[0].key == key
    requires ServerStep(s, Message(key, s.queue[0].cmd, io)).1.Some?
    ensures var (server, reply) := ServerStep(s, Message(key, s.queue[0].cmd, io));
            if ReleaseQueued(s, key) then reply.value == Reply(0, 0)
            else
              && reply.value.table != 0 && reply.value.expires == s.now + s.cfg.timeout
              && Backed(server.rows, key, reply.value.table, reply.value.expires, s.now)
  {
    assert ClientOk(s, key);
    ReplyIsBacked(s.cfg, s.server, key, s.now, io);
    assert s.queue[0] == Packet(key, CMD_REQ) ==> !ReleaseQueued(s, key);
    if s.queue[0].cmd == CMD_REL {
      assert s.queue[0] == Packet(key, CMD_REL);
    }
  }

  lemma TickKeepsInv(s: System, a: Action)
    requires SystemInv(s) && Possible(s, a) && a.Tick?
    ensures SystemInv(Next(s, a))
  {
    InvAges(s.cfg, s.server, s.now, a.now);
    forall key | key in s.clients ensures ClientOk(Next(s, a), key) {
      assert ClientOk(s, key);
    }
  }

  lemma BeginKeepsInv(s: System, a: Action)
    requires SystemInv(s) && Possible(s, a) && a.Begin?
    ensures SystemInv(Next(s, a))
  {
    forall key | key in s.clients ensures ClientOk(Next(s, a), key) {
      assert ClientOk(s, key);
      ClientOkFrame(s, Next(s, a), key, |s.queue|);
    }
  }

  lemma LossKeepsInv(s: System, a: Action)
    requires SystemInv(s) && Possible(s, a) && (a.Crash? || a.DropReplies? || a.DropRequest?)
    ensures SystemInv(Next(s, a))
  {
    forall key | key in Next(s, a).clients ensures ClientOk(Next(s, a), key) {
      assert ClientOk(s, key);
      ClientOkFrame(s, Next(s, a), key, if a.DropRequest? then a.i else |s.queue|);
    }
  }

  lemma NextKeepsInv(s: System, a: Action)
    requires SystemInv(s) && Possible(s, a)
    ensures SystemInv(Next(s, a))
  {
    match a
    case Local(_, _) => LocalKeepsInv(s, a);
    case Deliver(_, _) => DeliverKeepsInv(s, a);
    case Serve(_, _) => ServeKeepsInv(s, a);
    case Sweep(read, deleted) => MaintenanceKeepsInv(s, SweepOp(read, deleted));
    case Restart(read) =>
      var s1 := s.(server := ServerStep(s, ServerInvariant.Restart(read)).0);
      MaintenanceKeepsInv(s, ServerInvariant.Restart(read));
      forall key | key in s.clients ensures ClientOk(Next(s, a), key) {
        ClientOkFrame(s1, Next(s, a), key, 0);
      }
    case Tick(_) => TickKeepsInv(s, a);
    case Begin(_, _) => BeginKeepsInv(s, a);
    case _ => LossKeepsInv(s, a);
  }

  // Runs --------------------------------------------------------------------------------------------------------

  ghost predicate Run(s: System, actions: seq<Action>)
    requires Typed(s)
    decreases |actions|
  {
    actions == [] || (Possible(s, actions[0]) && Run(Next(s, actions[0]), actions[1..]))
  }

  ghost function Outcome(s: System, actions: seq<Action>): (r: System)
    requires Typed(s) && Run(s, actions)
    ensures Typed(r)
    decreases |actions|
  {
    if actions == [] then s else Outcome(Next(s, actions[0]), actions[1..])
  }

  // The system before anything has happened: an empty database, no client, clock 0.
  ghost function Initial(cfg: Config, families: set<Family>): (s: System)
    requires cfg.Accepted() && families <= FAMILIES && ClockFits(cfg, 0)
    ensures Typed(s) && (cfg.ReadsBack() ==> SystemInv(s))
  {
    FreshAgrees(cfg, families);
    System(cfg, 0, Fresh(cfg, families), [], map[], map[])
  }

  lemma {:induction false} RunKeepsSystemInv(s: System, actions: seq<Action>)
    requires SystemInv(s) && Run(s, actions)
    ensures SystemInv(Outcome(s, actions))
    decreases |actions|
  {
    if actions == [] {
    } else {
      NextKeepsInv(s, actions[0]);
      RunKeepsSystemInv(Next(s, actions[0]), actions[1..]);
    }
  }

  // A client holds a lease: it has a table, and its expiry has not passed.
  predicate Holds(s: System, key: Key) {
    key in s.clients && s.clients[key].rtTable != 0 && s.clients[key].leaseExpires > s.now
  }

  // Two clients of one family that hold leases hold different tables.
  ghost predicate Exclusive(s: System) {
    forall k1, k2 | Holds(s, k1) && Holds(s, k2) && k1 != k2 && k1.fam == k2.fam ::
      s.clients[k1].rtTable != s.clients[k2].rtTable
  }

  lemma InvIsExclusive(s: System)
    requires SystemInv(s)
    ensures Exclusive(s)
  {
    forall k1, k2 | Holds(s, k1) && Holds(s, k2) && k1 != k2 && k1.fam == k2.fam
      ensures s.clients[k1].rtTable != s.clients[k2].rtTable
    {
      HoldersDiffer(s, k1, k2);
    }
  }

  // Lease exclusion: in every state of every run, two clients of one family that hold leases hold different tables.
  lemma LeaseExclusion(cfg: Config, families: set<Family>, actions: seq<Action>)
    requires cfg.Accepted() && cfg.ReadsBack() && families <= FAMILIES && ClockFits(cfg, 0)
    requires Run(Initial(cfg, families), actions)
    ensures Exclusive(Outcome(Initial(cfg, families), actions))
  {
    RunKeepsSystemInv(Initial(cfg, families), actions);
    InvIsExclusive(Outcome(Initial(cfg, families), actions));
  }

  lemma HoldersDiffer(s: System, k1: Key, k2: Key)
    requires SystemInv(s) && k1 != k2 && k1.fam == k2.fam && Holds(s, k1) && Holds(s, k2)
    ensures s.clients[k1].rtTable != s.clients[k2].rtTable
  {
    assert ClientOk(s, k1) && ClientOk(s, k2);
  }
}
