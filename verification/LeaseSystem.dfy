/** The whole system: one server, its request queue, any number of clients with their reply queues, one clock. */
module LeaseSystem {
  import opened LeaseTypes
  import opened ServerModel
  import opened ServerInvariant
  import C = ClientModel

  datatype Packet = Packet(key: Key, cmd: nat)

  // clients are the processes that run, inbox the replies each of them has not read yet, oldest first.
  datatype System = System(
    cfg: Config, now: nat, server: Server,
    queue: seq<Packet>,
    clients: map<Key, C.Client>, inbox: map<Key, seq<Reply>>)

  datatype Action =
    | Tick(now: nat)
    | Begin(key: Key, address: C.Address)
    | Crash(key: Key)
    | Local(key: Key, event: C.Event)
    | Deliver(key: Key, sends: C.Sends)
    | DropReplies(key: Key)
    | Serve(io: Io, lost: bool)
    | DropRequest(i: nat)
    | Sweep(read: set<PrimaryKey>, deleted: bool)
    | Restart(read: set<PrimaryKey>)

  ghost predicate Typed(s: System) {
    s.cfg.Accepted() && RowsOk(s.cfg, s.server) && s.inbox.Keys == s.clients.Keys
  }

  predicate ReleaseQueued(s: System, key: Key) {
    Packet(key, CMD_REL) in s.queue
  }

  // A request of the key is queued ahead of a release of it.
  ghost predicate GrantBeforeRelease(s: System, key: Key) {
    exists i, j :: 0 <= i < j < |s.queue| && s.queue[i] == Packet(key, CMD_REQ) && s.queue[j] == Packet(key, CMD_REL)
  }

  // What the programs and their surroundings can do.
  ghost predicate Runnable(s: System, a: Action)
    requires Typed(s)
  {
    match a
    case Tick(now) => s.now <= now && ClockFits(s.cfg, now)
    case Begin(key, _) => key !in s.clients
    case Crash(key) => key in s.clients
    case Local(key, event) => key in s.clients && !event.Datagram? && C.Enabled(s.clients[key], event)
    case Deliver(key, _) => key in s.clients && s.inbox[key] != [] && s.clients[key].receiving
    case DropReplies(key) => key in s.clients
    case Serve(_, _) => s.queue != []
    case DropRequest(i) => i < |s.queue|
    case _ => true
  }

  // ... restricted in two ways: a new client process of a key does not begin while an earlier one's request is still
  // queued ahead of its release, and a restarting server comes to every unexpired row.
  ghost predicate Possible(s: System, a: Action)
    requires Typed(s)
  {
    && Runnable(s, a)
    && (a.Begin? ==> !GrantBeforeRelease(s, a.key))
    && (a.Restart? ==> AliveRead(s.server.rows, s.now, a.read))
  }

  function Packets(key: Key, cmds: seq<nat>): seq<Packet> {
    seq(|cmds|, i requires 0 <= i < |cmds| => Packet(key, cmds[i]))
  }

  // The client's new commands join the queue; a client that has stopped is gone, and its socket with it.
  ghost function Update(s: System, key: Key, c: C.Client, inbox: seq<Reply>): System
    requires key in s.clients
  {
    var before := s.clients[key].sent;
    var sent := if |before| <= |c.sent| then c.sent[|before|..] else [];
    System(s.cfg, s.now, s.server, s.queue + Packets(key, sent),
           if c.stopped then s.clients - {key} else s.clients[key := c],
           if c.stopped then s.inbox - {key} else s.inbox[key := inbox])
  }

  ghost function ServerStep(s: System, op: Op): (Server, Option<Reply>)
    requires Typed(s)
  {
    Apply(s.cfg, s.server, Event(s.now, op))
  }

  function DeliveredEvent(s: System, key: Key, sends: C.Sends): C.Event
    requires key in s.inbox && s.inbox[key] != []
  {
    var reply := s.inbox[key][0];
    C.Datagram(C.TA_VERSION, CMD_RESP, reply.table, reply.expires, s.now, sends)
  }

  ghost function Next(s: System, a: Action): (s': System)
    requires Typed(s) && Runnable(s, a)
    ensures Typed(s')
  {
    match a
    case Tick(now) => s.(now := now)
    case Begin(key, address) => s.(clients := s.clients[key := C.Start(address)], inbox := s.inbox[key := []])
    case Crash(key) => s.(clients := s.clients - {key}, inbox := s.inbox - {key})
    case Local(key, event) => Update(s, key, C.Step(s.clients[key], event), s.inbox[key])
    case Deliver(key, sends) =>
      Update(s, key, C.Step(s.clients[key], DeliveredEvent(s, key, sends)), s.inbox[key][1..])
    case DropReplies(key) => s.(inbox := s.inbox[key := []])
    case Serve(io, lost) =>
      var p := s.queue[0];
      var (server, reply) := ServerStep(s, Message(p.key, p.cmd, io));
      System(s.cfg, s.now, server, s.queue[1..], s.clients,
             if reply.Some? && p.key in s.inbox && !lost then s.inbox[p.key := s.inbox[p.key] + [reply.value]]
             else s.inbox)
    case DropRequest(i) => s.(queue := s.queue[..i] + s.queue[i + 1..])
    case Sweep(read, deleted) => s.(server := ServerStep(s, SweepOp(read, deleted)).0)
    case Restart(read) => s.(server := ServerStep(s, ServerInvariant.Restart(read)).0, queue := [])
  }

  // The row that stands behind a lease which has not expired.
  ghost predicate Backed(rows: Rows, key: Key, table: u32, expires: int, now: nat) {
    expires > now ==> Owns(rows, PrimaryKey(table, key.fam), key) && rows[PrimaryKey(table, key.fam)].expires >= expires
  }

  ghost predicate RepliesOk(s: System, key: Key, replies: seq<Reply>) {
    && (forall i | 0 <= i < |replies| ::
          && (if replies[i].table == 0 then replies[i].expires == 0
              else Backed(s.server.rows, key, replies[i].table, replies[i].expires, s.now))
          && replies[i].expires <= s.now + s.cfg.timeout)
    && (forall i, j | 0 <= i < j < |replies| :: replies[i].expires <= replies[j].expires)
  }

  // What a client holds and what is under way to it; while a release of an earlier process is queued that is nothing.
  ghost predicate LeaseOk(s: System, key: Key, c: C.Client, replies: seq<Reply>) {
    && (c.rtTable != 0 ==> Backed(s.server.rows, key, c.rtTable, c.leaseExpires, s.now))
    && c.leaseExpires <= s.now + s.cfg.timeout
    && (forall i | 0 <= i < |replies| :: c.leaseExpires <= replies[i].expires)
    && RepliesOk(s, key, replies)
    && (ReleaseQueued(s, key) ==>
          && c.rtTable == 0 && c.leaseExpires == 0
          && forall i | 0 <= i < |replies| :: replies[i] == Reply(0, 0))
  }

  ghost predicate ClientOk(s: System, key: Key)
    requires key in s.clients && key in s.inbox
  {
    && !s.clients[key].stopped && !GrantBeforeRelease(s, key)
    && LeaseOk(s, key, s.clients[key], s.inbox[key])
  }

  ghost predicate SystemInv(s: System) {
    && Typed(s) && s.cfg.ReadsBack() && Inv(s.cfg, s.server, s.now) && ClockFits(s.cfg, s.now)
    && forall key | key in s.clients :: ClientOk(s, key)
  }

  // Nothing but its two restrictions keeps the clock from going on, a process from beginning, a client from meeting any
  // of its events, or the server from restarting.
  lemma AnythingCanHappen(s: System, key: Key, read: set<PrimaryKey>)
    requires Typed(s)
    ensures forall later: nat | s.now <= later && ClockFits(s.cfg, later) ::
              Possible(s, Tick(later)) && Next(s, Tick(later)).now == later
    ensures key in s.clients ==>
              && (forall e: C.Event | C.Enabled(s.clients[key], e) && !e.Datagram? :: Possible(s, Local(key, e)))
              && (s.clients[key].receiving && s.inbox[key] != [] ==> forall sends :: Possible(s, Deliver(key, sends)))
    ensures key !in s.clients && (forall i, j | 0 <= i < j < |s.queue| && s.queue[j] == Packet(key, 1) ::
                                    s.queue[i] != Packet(key, 0)) ==>
              forall address :: Possible(s, Begin(key, address))
    ensures (forall pk | pk in s.server.rows && s.server.rows[pk].expires > s.now :: pk in read) ==>
              Possible(s, Action.Restart(read))
  {
  }

  // A process can crash, a packet or a reply be lost, and a sweep fail anywhere; and each of these does happen in its
  // step.
  lemma AnythingIsLost(s: System, key: Key, i: nat, io: Io, read: set<PrimaryKey>, deleted: bool)
    requires Typed(s)
    ensures Possible(s, Sweep(read, deleted))
    ensures key in s.clients ==>
              && Possible(s, Crash(key)) && Next(s, Crash(key)).clients.Keys == s.clients.Keys - {key}
              && Possible(s, DropReplies(key)) && Next(s, DropReplies(key)).inbox[key] == []
              && Next(s, DropReplies(key)).clients == s.clients
    ensures i < |s.queue| ==>
              var queue := Next(s, DropRequest(i)).queue;
              && Possible(s, DropRequest(i)) && |queue| == |s.queue| - 1
              && forall j | 0 <= j < |queue| :: queue[j] == s.queue[if j < i then j else j + 1]
    ensures s.queue != [] ==>
              && Possible(s, Serve(io, true)) && Possible(s, Serve(io, false))
              && Next(s, Serve(io, true)).inbox == s.inbox
              && Next(s, Serve(io, true)).server == Next(s, Serve(io, false)).server
  {
  }
}
