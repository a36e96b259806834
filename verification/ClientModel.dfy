/** The client as a state machine over its callbacks: requests, retries, renewal and the three routing rules. */
module ClientModel {
  import opened LeaseTypes

  const REQUEST_RETRANSMISSION_MS: nat := 2000
  const NUM_FAILED_LIMIT: nat := 5
  const TA_VERSION: nat := 1

  const ADDR_RULE_PRIO: nat := 10000
  const NW_RULE_PRIO: nat := 20000
  const DEF_RULE_PRIO: nat := 91000

  datatype Prefix = Prefix(addr: bv32, len: nat)

  // A policy rule in the kernel; loopback: only for traffic of the host itself (iif lo).
  datatype Rule = Rule(prio: nat, src: Option<Prefix>, dst: Option<Prefix>, loopback: bool, table: u32)

  // The address a client looks after.
  datatype Address = Address(addr: bv32, prefixLen: nat, ifidx: nat)

  // sent and printed are the commands sent and the numbers written to stdout so far; installed are the rules of
  // this client that are in the kernel. stopped: the event loop has been told to stop, no callback runs any more.
  datatype Client = Client(
    address: Address,
    rtTable: u32, leaseExpires: u32, rulesAdded: bool,
    numFailed: nat, stopped: bool,
    requestTimer: Option<nat>, socketTimer: bool, socketClosing: bool, receiving: bool, netlinkTimer: bool,
    sent: seq<nat>, printed: seq<u32>, installed: set<Rule>)

  // Which of the three rule messages of one update can be sent.
  datatype Sends = Sends(first: bool, second: bool, third: bool)

  datatype NetlinkMsg =
    | DelLink(link: nat)
    | DelAddr(index: nat, fam: Family, prefixLen: nat, local: Option<bv32>)
    | OtherMsg

  datatype Event =
    | SocketTimeout(isOpen: bool, sendOk: bool)
    | RequestTimeout(sendOk: bool)
    | SocketError
    | SocketClosed
    | PartialDatagram
    | Unparsable
    | Datagram(ver: nat, cmd: nat, table: u32, expires: u32, now: nat, sends: Sends)
    | NetlinkTimeout(sends: Sends)
    | Netlink(msgs: seq<NetlinkMsg>, sends: Sends, sendOk: bool)

  function Start(address: Address): Client {
    Client(address, 0, 0, false, 0, false, None, true, false, false, false, [], [], {})
  }

  // Source rule, network rule, and the rule for unbound traffic of the host.
  function Rules(a: Address, table: u32): (r: seq<Rule>)
    ensures |r| == 3
  {
    [Rule(ADDR_RULE_PRIO, Some(Prefix(a.addr, 32)), None, false, table),
     Rule(NW_RULE_PRIO, None, if a.prefixLen == 0 then None else Some(Prefix(a.addr, a.prefixLen)), false, table),
     Rule(DEF_RULE_PRIO, None, None, true, table)]
  }

  function FirstRules(a: Address, table: u32, n: nat): set<Rule>
    requires n <= 3
  {
    var r := Rules(a, table);
    if n == 0 then {} else if n == 1 then {r[0]} else if n == 2 then {r[0], r[1]} else {r[0], r[1], r[2]}
  }

  // An update stops at the first message that cannot be sent.
  function Sendable(sends: Sends): (n: nat)
    ensures n <= 3
  {
    if !sends.first then 0 else if !sends.second then 1 else if !sends.third then 2 else 3
  }

  function AddRules(c: Client, sends: Sends): Client {
    if c.rulesAdded then c
    else
      var n := Sendable(sends);
      c.(installed := c.installed + FirstRules(c.address, c.rtTable, n),
         rulesAdded := n == 3,
         netlinkTimer := if n < 3 then true else c.netlinkTimer)
  }

  function DeleteRules(c: Client, sends: Sends): Client {
    var n := Sendable(sends);
    c.(installed := c.installed - FirstRules(c.address, c.rtTable, n),
       rulesAdded := if n == 3 then true else c.rulesAdded)
  }

  function Send(c: Client, cmd: nat, sendOk: bool): Client {
    c.(requestTimer := Some(REQUEST_RETRANSMISSION_MS),
       sent := if sendOk then c.sent + [cmd] else c.sent,
       receiving := c.receiving || sendOk)
  }

  // A client without a table counts failures; at the limit it prints its table, which is 0, and stops.
  predicate AtLimit(c: Client) {
    c.rtTable == 0 && c.numFailed + 1 >= NUM_FAILED_LIMIT
  }

  function Failures(c: Client): nat {
    if c.rtTable == 0 then c.numFailed + 1 else c.numFailed
  }

  function GiveUp(c: Client): Client {
    c.(numFailed := c.numFailed + 1, stopped := true, printed := c.printed + [c.rtTable])
  }

  function CloseSocket(c: Client): Client {
    c.(receiving := false, requestTimer := None, socketTimer := false, socketClosing := true)
  }

  // Milliseconds until the next request, in 32-bit arithmetic.
  function RenewalDelay(expires: u32, now: nat): u32 {
    Wrap32(Wrap32(expires - now) / 2 * 1000)
  }

  // A parsed reply has already overwritten the expiry when it is looked at.
  function Reply(c: Client, ver: nat, cmd: nat, table: u32, expires: u32, now: nat, sends: Sends): Client {
    if ver != TA_VERSION then c.(leaseExpires := expires, stopped := true)
    else if cmd != CMD_RESP || table == 0 then
      c.(leaseExpires := expires, requestTimer := Some(REQUEST_RETRANSMISSION_MS))
    else
      AddRules(Accepted(c, table, expires, now), sends)
  }

  function Accepted(c: Client, table: u32, expires: u32, now: nat): Client {
    c.(leaseExpires := expires, rtTable := table, numFailed := 0, printed := c.printed + [table],
       requestTimer := Some(RenewalDelay(expires, now)))
  }

  predicate Concerns(a: Address, m: NetlinkMsg) {
    match m
    case DelLink(link) => link == a.ifidx
    case DelAddr(index, fam, prefixLen, local) =>
      && index == a.ifidx && fam == AF_INET && prefixLen == a.prefixLen
      && (local.Some? ==> local.value == a.addr)
    case OtherMsg => false
  }

  function TearDown(c: Client, sends: Sends, sendOk: bool): Client {
    Send(DeleteRules(c.(stopped := true), sends), CMD_REL, sendOk)
  }

  function Step(c: Client, e: Event): Client {
    if c.stopped then c else
    match e
    case SocketTimeout(isOpen, sendOk) =>
      if isOpen then Send(c.(socketTimer := false), CMD_REQ, sendOk) else c
    case RequestTimeout(sendOk) =>
      if AtLimit(c) then GiveUp(c.(requestTimer := None)) else Send(c.(numFailed := Failures(c)), CMD_REQ, sendOk)
    case SocketError =>
      if AtLimit(c) then GiveUp(c) else CloseSocket(c.(numFailed := Failures(c)))
    case SocketClosed => c.(socketClosing := false, socketTimer := true)
    case PartialDatagram => c.(requestTimer := Some(REQUEST_RETRANSMISSION_MS))
    case Unparsable => c
    case Datagram(ver, cmd, table, expires, now, sends) =>
      Reply(c, ver, cmd, ReadInt(table), ReadInt(expires), now, sends)
    case NetlinkTimeout(sends) => AddRules(c.(netlinkTimer := false), sends)
    case Netlink(msgs, sends, sendOk) =>
      if exists m :: m in msgs && Concerns(c.address, m) then TearDown(c, sends, sendOk) else c
  }

  // Timers fire when armed, datagrams arrive while the socket is read.
  predicate Enabled(c: Client, e: Event) {
    && !c.stopped
    && match e
       case SocketTimeout(_, _) => c.socketTimer
       case RequestTimeout(_) => c.requestTimer.Some?
       case SocketClosed => c.socketClosing
       case NetlinkTimeout(_) => c.netlinkTimer
       case Netlink(_, _, _) => true
       case _ => c.receiving
  }

  ghost predicate Run(c: Client, events: seq<Event>)
    decreases |events|
  {
    events == [] || (Enabled(c, events[0]) && Run(Step(c, events[0]), events[1..]))
  }

  ghost function After(c: Client, events: seq<Event>): Client
    decreases |events|
  {
    if events == [] then c else After(Step(c, events[0]), events[1..])
  }
}
