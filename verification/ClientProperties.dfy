/** Retry limit, renewal time and rule installation of a client over whole runs. */
module ClientProperties {
  import opened LeaseTypes
  import opened ClientModel

  // A response of version 1 that names a table.
  predicate Accepts(e: Event) {
    e.Datagram? && e.ver == 1 && e.cmd == 2 && e.table != 0
  }

  // The link is gone, or the address: with its link, family and prefix length, and no other local address.
  predicate TakesAway(a: Address, m: NetlinkMsg) {
    || m == DelLink(a.ifidx)
    || (m.DelAddr? && m.index == a.ifidx && m.fam == 2 && m.prefixLen == a.prefixLen && m.local in {None, Some(a.addr)})
  }

  predicate LosesAddress(a: Address, e: Event) {
    e.Netlink? && exists m :: m in e.msgs && TakesAway(a, m)
  }

  // Ends the client other than by the retry limit.
  predicate Ends(a: Address, e: Event) {
    (e.Datagram? && e.ver != 1) || LosesAddress(a, e)
  }

  lemma ConcernsIff(a: Address, msgs: seq<NetlinkMsg>)
    ensures (exists m :: m in msgs && Concerns(a, m)) <==> (exists m :: m in msgs && TakesAway(a, m))
  {
    assert forall m :: Concerns(a, m) <==> TakesAway(a, m);
  }

  // A request that nobody answered in time, or a socket that failed.
  predicate CountsAsFailure(e: Event) {
    e.RequestTimeout? || e.SocketError?
  }

  function Count(events: seq<Event>): nat {
    if events == [] then 0
    else (if CountsAsFailure(events[0]) then 1 else 0) + Count(events[1..])
  }

  function Requests(sent: seq<nat>): nat {
    if sent == [] then 0
    else Requests(sent[..|sent| - 1]) + (if sent[|sent| - 1] == CMD_REQ then 1 else 0)
  }

  lemma OneMoreSent(sent: seq<nat>, cmd: nat)
    ensures Requests(sent + [cmd]) == Requests(sent) + (if cmd == CMD_REQ then 1 else 0)
  {
    assert (sent + [cmd])[..|sent|] == sent;
  }

  function PendingReopen(c: Client): nat {
    if c.socketTimer || c.socketClosing then 1 else 0
  }

  // Kept by every step of a client without a lease: requests and a pending reopen are paid for by failures.
  predicate RetryInv(c: Client) {
    c.rtTable == 0 ==>
      && c.numFailed <= NUM_FAILED_LIMIT
      && (!c.stopped ==> c.numFailed < NUM_FAILED_LIMIT && c.printed == [])
      && (!c.stopped ==> Requests(c.sent) + PendingReopen(c) <= 1 + c.numFailed)
      && (!c.stopped ==> !(c.socketTimer && c.socketClosing))
      && (!c.stopped && (c.receiving || c.requestTimer.Some?) ==> PendingReopen(c) == 0)
      && Requests(c.sent) <= NUM_FAILED_LIMIT
  }

  lemma SendKeepsRetryInv(c: Client, sendOk: bool)
    requires c.rtTable == 0 && !c.stopped && c.printed == [] && c.numFailed < NUM_FAILED_LIMIT
    requires !c.socketTimer && !c.socketClosing && Requests(c.sent) <= c.numFailed
    ensures RetryInv(Send(c, CMD_REQ, sendOk))
  {
    OneMoreSent(c.sent, CMD_REQ);
  }

  predicate Local(e: Event) {
    e.SocketTimeout? || e.RequestTimeout? || e.SocketError? || e.SocketClosed?
  }

  // Only an accepted reply changes the table, and never to 0.
  lemma TableAfterStep(c: Client, e: Event)
    ensures Step(c, e).rtTable == if !c.stopped && Accepts(e) then ReadInt(e.table) else c.rtTable
  {
    if Local(e) {
    } else if e.Datagram? {
    }
  }

  lemma LocalRetryStep(c: Client, e: Event)
    requires RetryInv(c) && Enabled(c, e) && Local(e) && c.rtTable == 0
    ensures RetryInv(Step(c, e))
  {
    match e
    case SocketTimeout(isOpen, sendOk) =>
      if isOpen {
        SendKeepsRetryInv(c.(socketTimer := false), sendOk);
      }
    case RequestTimeout(sendOk) =>
      if !AtLimit(c) {
        SendKeepsRetryInv(c.(numFailed := Failures(c)), sendOk);
      }
    case SocketError =>
    case SocketClosed =>
  }

  lemma IncomingRetryStep(c: Client, e: Event)
    requires RetryInv(c) && Enabled(c, e) && !Local(e) && c.rtTable == 0
    ensures RetryInv(Step(c, e))
  {
    if e.Netlink? {
      OneMoreSent(c.sent, CMD_REL);
    }
  }

  lemma RetryStep(c: Client, e: Event)
    requires RetryInv(c) && Enabled(c, e)
    ensures RetryInv(Step(c, e))
  {
    if c.rtTable != 0 {
      TableAfterStep(c, e);
    } else if Local(e) {
      LocalRetryStep(c, e);
    } else {
      IncomingRetryStep(c, e);
    }
  }

  lemma StoppedRunEnds(c: Client, events: seq<Event>)
    requires c.stopped && Run(c, events)
    ensures events == [] && After(c, events) == c
  {
  }

  lemma {:induction false} RetryRun(c: Client, events: seq<Event>)
    requires RetryInv(c) && Run(c, events)
    ensures RetryInv(After(c, events))
    decreases |events|
  {
    if events == [] {
    } else {
      RetryStep(c, events[0]);
      RetryRun(Step(c, events[0]), events[1..]);
    }
  }

  // A client that has never had a lease sends at most five requests, however the socket fails.
  lemma AtMostFiveRequests(a: Address, events: seq<Event>)
    requires Run(Start(a), events) && After(Start(a), events).rtTable == 0
    ensures Requests(After(Start(a), events).sent) <= 5
  {
    RetryRun(Start(a), events);
  }

  lemma CountingStep(c: Client, e: Event)
    requires Enabled(c, e) && c.rtTable == 0 && c.numFailed < 5 && !Accepts(e) && !Ends(c.address, e)
    ensures var c1 := Step(c, e);
            && c1.rtTable == 0 && c1.address == c.address
            && c1.numFailed == c.numFailed + (if CountsAsFailure(e) then 1 else 0)
            && (c1.stopped <==> c1.numFailed == 5)
            && c1.printed == (if c1.stopped then c.printed + [0] else c.printed)
  {
    match e
    case SocketTimeout(_, _) =>
    case RequestTimeout(_) =>
    case SocketError =>
    case SocketClosed =>
    case PartialDatagram =>
    case Unparsable =>
    case Datagram(_, _, _, _, _, _) =>
    case NetlinkTimeout(_) =>
    case Netlink(msgs, _, _) => ConcernsIff(c.address, msgs);
  }

  lemma LeasedStep(c: Client, e: Event)
    requires Enabled(c, e) && c.rtTable != 0 && !Ends(c.address, e)
    ensures !Step(c, e).stopped && Step(c, e).rtTable != 0 && Step(c, e).address == c.address
  {
    match e
    case SocketTimeout(_, _) =>
    case RequestTimeout(_) =>
    case SocketError =>
    case SocketClosed =>
    case PartialDatagram =>
    case Unparsable =>
    case Datagram(_, _, _, _, _, _) =>
    case NetlinkTimeout(_) =>
    case Netlink(msgs, _, _) => ConcernsIff(c.address, msgs);
  }

  // As long as no reply is accepted and nothing else ends the client, it stops exactly at the fifth counted failure,
  // having printed 0 once then and nothing before.
  lemma {:induction false} GivesUpAtFive(c: Client, events: seq<Event>)
    requires Run(c, events) && !c.stopped && c.rtTable == 0 && c.numFailed < 5 && c.printed == []
    requires forall e | e in events :: !Accepts(e) && !Ends(c.address, e)
    ensures var c' := After(c, events);
            && c'.numFailed == c.numFailed + Count(events) <= 5
            && (c'.stopped <==> c.numFailed + Count(events) == 5)
            && c'.printed == (if c'.stopped then [0] else [])
    decreases |events|
  {
    if events == [] {
    } else {
      var e := events[0];
      var c1 := Step(c, e);
      assert !Accepts(e) && !Ends(c.address, e);
      CountingStep(c, e);
      if c1.stopped {
        StoppedRunEnds(c1, events[1..]);
      } else {
        GivesUpAtFive(c1, events[1..]);
      }
    }
  }

  // The request that the event would send goes out.
  predicate SendsWork(e: Event) {
    && (e.SocketTimeout? ==> e.sendOk)
    && (e.RequestTimeout? ==> e.sendOk)
  }

  // While no send fails, every request but the first answers to one counted failure, and giving up comes after five.
  predicate Balanced(c: Client) {
    && RetryInv(c)
    && Requests(c.sent) + (if c.stopped then 1 else PendingReopen(c)) == 1 + c.numFailed
  }

  lemma BalanceStep(c: Client, e: Event)
    requires Enabled(c, e) && c.rtTable == 0 && Balanced(c)
    requires !Accepts(e) && !Ends(c.address, e) && SendsWork(e)
    ensures Balanced(Step(c, e))
  {
    RetryStep(c, e);
    match e
    case SocketTimeout(_, _) => OneMoreSent(c.sent, CMD_REQ);
    case RequestTimeout(_) => OneMoreSent(c.sent, CMD_REQ);
    case SocketError =>
    case SocketClosed =>
    case PartialDatagram =>
    case Unparsable =>
    case Datagram(_, _, _, _, _, _) =>
    case NetlinkTimeout(_) =>
    case Netlink(msgs, _, _) => ConcernsIff(c.address, msgs);
  }

  lemma {:induction false} BalancedRun(c: Client, events: seq<Event>)
    requires Run(c, events) && c.rtTable == 0 && Balanced(c)
    requires forall e | e in events :: !Accepts(e) && !Ends(c.address, e) && SendsWork(e)
    ensures Balanced(After(c, events))
    decreases |events|
  {
    if events == [] {
    } else {
      var e := events[0];
      assert !Accepts(e) && !Ends(c.address, e) && SendsWork(e);
      BalanceStep(c, e);
      if Step(c, e).stopped {
        StoppedRunEnds(Step(c, e), events[1..]);
      } else {
        CountingStep(c, e);
        BalancedRun(Step(c, e), events[1..]);
      }
    }
  }

  // Without a lease and without failing sends the client has sent one request more than failures were counted, or is
  // about to reopen its socket for it; it stops exactly when the fifth failure is counted, after exactly five requests.
  lemma ExactlyFiveRequests(a: Address, events: seq<Event>)
    requires Run(Start(a), events)
    requires forall e | e in events :: !Accepts(e) && !Ends(a, e) && SendsWork(e)
    ensures var c := After(Start(a), events);
            if c.stopped then Requests(c.sent) == Count(events) == 5
            else Requests(c.sent) + PendingReopen(c) == 1 + Count(events) <= 5
  {
    BalancedRun(Start(a), events);
    GivesUpAtFive(Start(a), events);
  }

  // With a lease the client never gives up by counting: only a foreign version or the end of its address stops it.
  lemma {:induction false} LeasedClientStays(c: Client, events: seq<Event>)
    requires Run(c, events) && !c.stopped && c.rtTable != 0
    requires forall e | e in events :: !Ends(c.address, e)
    ensures var c' := After(c, events); !c'.stopped && c'.rtTable != 0
    decreases |events|
  {
    if events == [] {
    } else {
      assert !Ends(c.address, events[0]);
      LeasedStep(c, events[0]);
      LeasedClientStays(Step(c, events[0]), events[1..]);
    }
  }

  // A client that runs always has something that will wake it up, and keeps retrying its rules until they are in.
  predicate Awake(c: Client) {
    !c.stopped ==>
      && (c.requestTimer.Some? || c.socketTimer || c.socketClosing)
      && (c.rtTable != 0 ==> c.rulesAdded || c.netlinkTimer)
  }

  lemma AwakeStep(c: Client, e: Event)
    requires Awake(c) && Enabled(c, e)
    ensures Awake(Step(c, e))
  {
  }

  lemma {:induction false} NeverStuck(c: Client, events: seq<Event>)
    requires Awake(c) && Run(c, events)
    ensures Awake(After(c, events))
    decreases |events|
  {
    if events == [] {
    } else {
      AwakeStep(c, events[0]);
      NeverStuck(Step(c, events[0]), events[1..]);
    }
  }

  // Rules ------------------------------------------------------------------------------------------------------

  // The kernel holds the first n of the three rules for the client's table, all three exactly when the client says so.
  ghost predicate PrefixInstalled(c: Client) {
    exists n: nat :: n <= 3 && InstalledUpTo(c, n)
  }

  ghost predicate InstalledUpTo(c: Client, n: nat)
    requires n <= 3
  {
    && c.installed == FirstRules(c.address, c.rtTable, n)
    && (c.rulesAdded <==> n == 3)
    && (c.rtTable == 0 ==> n == 0)
  }

  // Accepting a reply does not change the table of rules that are in the kernel.
  predicate KeepsRules(c: Client, e: Event) {
    Accepts(e) && c.rtTable != 0 ==> ReadInt(e.table) == c.rtTable || c.installed == {}
  }

  lemma FirstRulesGrow(a: Address, table: u32, m: nat, n: nat)
    requires m <= 3 && n <= 3
    ensures FirstRules(a, table, m) + FirstRules(a, table, n) == FirstRules(a, table, if m < n then n else m)
  {
  }

  lemma AddKeepsPrefix(c: Client, sends: Sends)
    requires PrefixInstalled(c) && c.rtTable != 0
    ensures PrefixInstalled(AddRules(c, sends))
  {
    var m: nat :| m <= 3 && InstalledUpTo(c, m);
    var n := Sendable(sends);
    FirstRulesGrow(c.address, c.rtTable, m, n);
    if !c.rulesAdded {
      assert InstalledUpTo(AddRules(c, sends), if m < n then n else m);
    }
  }

  // The table that an accepted reply names, with the rules that are in place.
  lemma AcceptedKeepsPrefix(c: Client, e: Event)
    requires PrefixInstalled(c) && !c.stopped && Accepts(e) && KeepsRules(c, e)
    ensures PrefixInstalled(Step(c, e))
  {
    var n: nat :| n <= 3 && InstalledUpTo(c, n);
    var table := ReadInt(e.table);
    var c1 := Accepted(c, table, ReadInt(e.expires), e.now);
    if n == 0 {
      assert FirstRules(c.address, c.rtTable, 0) == FirstRules(c.address, table, 0);
    } else {
      assert Rules(c.address, c.rtTable)[0] in c.installed;
    }
    assert InstalledUpTo(c1, n);
    AddKeepsPrefix(c1, e.sends);
  }

  lemma OtherEventKeepsPrefix(c: Client, e: Event)
    requires PrefixInstalled(c) && Enabled(c, e) && !Accepts(e) && (c.netlinkTimer ==> c.rtTable != 0)
    ensures !Step(c, e).stopped ==> PrefixInstalled(Step(c, e))
  {
    var n: nat :| n <= 3 && InstalledUpTo(c, n);
    var c' := Step(c, e);
    if e.NetlinkTimeout? {
      assert InstalledUpTo(c.(netlinkTimer := false), n);
      AddKeepsPrefix(c.(netlinkTimer := false), e.sends);
    } else if !c'.stopped {
      assert InstalledUpTo(c', n);
    }
  }

  // A reply with another table leaves the old rules standing, so the rules follow the table exactly when it is the
  // same or no rule had been installed yet.
  lemma RulesFollowTableIff(c: Client, e: Event)
    requires PrefixInstalled(c) && !c.stopped && Accepts(e) && c.rtTable != 0
    ensures PrefixInstalled(Step(c, e)) <==> ReadInt(e.table) == c.rtTable || c.installed == {}
  {
    var n: nat :| n <= 3 && InstalledUpTo(c, n);
    if KeepsRules(c, e) {
      AcceptedKeepsPrefix(c, e);
    } else {
      var stale := Rules(c.address, c.rtTable)[0];
      assert stale in FirstRules(c.address, c.rtTable, n);
      assert stale in Step(c, e).installed;
      forall k: nat | k <= 3 ensures stale !in FirstRules(c.address, ReadInt(e.table), k) {
      }
    }
  }

  // The retry timer of the rules only runs with a table.
  ghost predicate RulesFollow(c: Client) {
    PrefixInstalled(c) && (c.netlinkTimer ==> c.rtTable != 0)
  }

  lemma TimerNeedsTable(c: Client, e: Event)
    requires Enabled(c, e) && (c.netlinkTimer ==> c.rtTable != 0)
    ensures !Step(c, e).stopped ==> (Step(c, e).netlinkTimer ==> Step(c, e).rtTable != 0)
  {
  }

  lemma PrefixStepIff(c: Client, e: Event)
    requires RulesFollow(c) && Enabled(c, e)
    ensures (!Step(c, e).stopped ==> RulesFollow(Step(c, e))) <==> KeepsRules(c, e)
  {
    TimerNeedsTable(c, e);
    if !Accepts(e) {
      OtherEventKeepsPrefix(c, e);
    } else if c.rtTable == 0 {
      AcceptedKeepsPrefix(c, e);
    } else {
      RulesFollowTableIff(c, e);
    }
  }

  // In every state of the run that the client lives to see, the rules in the kernel are a prefix of its three.
  ghost predicate FollowThroughout(c: Client, events: seq<Event>)
    decreases |events|
  {
    && (!c.stopped ==> RulesFollow(c))
    && (events != [] ==> FollowThroughout(Step(c, events[0]), events[1..]))
  }

  ghost predicate RulesKept(c: Client, events: seq<Event>)
    decreases |events|
  {
    events == [] || (KeepsRules(c, events[0]) && RulesKept(Step(c, events[0]), events[1..]))
  }

  // Over any sequence of failing sends and retries, the rules in the kernel are always a prefix of the three for
  // the table the client holds, and all of them once it says so, exactly when no reply gave it another table while
  // some rule was in place.
  lemma {:induction false} RulesConvergeIff(c: Client, events: seq<Event>)
    requires RulesFollow(c) && Run(c, events)
    ensures FollowThroughout(c, events) <==> RulesKept(c, events)
    decreases |events|
  {
    if events == [] {
    } else {
      var c1 := Step(c, events[0]);
      PrefixStepIff(c, events[0]);
      if c1.stopped {
        StoppedRunEnds(c1, events[1..]);
      } else if RulesFollow(c1) {
        RulesConvergeIff(c1, events[1..]);
      }
    }
  }

  // One retry whose messages all go out completes the rules.
  lemma RetryCompletes(c: Client)
    requires PrefixInstalled(c) && !c.stopped && c.rtTable != 0 && c.netlinkTimer
    ensures var c' := Step(c, NetlinkTimeout(Sends(true, true, true)));
            c'.rulesAdded && c'.installed == FirstRules(c.address, c.rtTable, 3)
  {
    var n: nat :| n <= 3 && InstalledUpTo(c, n);
    FirstRulesGrow(c.address, c.rtTable, n, 3);
  }

  // A tear-down whose messages all go out leaves none of the client's rules behind.
  lemma TearDownClears(c: Client, e: Event)
    requires PrefixInstalled(c) && Enabled(c, e) && e.Netlink? && Ends(c.address, e)
    requires e.sends == Sends(true, true, true)
    ensures Step(c, e).installed == {} && Step(c, e).stopped
    ensures Step(c, e).sent == if e.sendOk then c.sent + [CMD_REL] else c.sent
  {
    ConcernsIff(c.address, e.msgs);
    var n: nat :| n <= 3 && InstalledUpTo(c, n);
    FirstRulesGrow(c.address, c.rtTable, n, 3);
  }

  // Renewal ----------------------------------------------------------------------------------------------------

  // The delay is half the remaining seconds exactly when the reply is not late and that fits 32 bits.
  lemma DelayIsHalfIff(expires: u32, now: nat)
    ensures RenewalDelay(expires, now) == (expires - now) / 2 * 1000 <==> now <= expires && expires - now <= 8589935
  {
    if now > expires {
      assert (expires - now) / 2 * 1000 < 0;
    }
  }

  // The next request goes out before the lease expires exactly when the reply is read before that; nowMs is the
  // time of reading in milliseconds.
  lemma RenewsInTimeIff(expires: u32, now: nat, nowMs: nat)
    requires nowMs / 1000 == now
    ensures nowMs + RenewalDelay(expires, now) < 1000 * expires <==> now < expires
    ensures 1000 * now + RenewalDelay(expires, now) <= 1000 * expires <==> now <= expires
  {
  }

  lemma WrapsOnce(late: nat)
    requires 1 <= late <= 0x1_0000_0000
    ensures Wrap32(0 - late) == 0x1_0000_0000 - late
  {
  }

  lemma WrapsAround(x: int)
    ensures Wrap32(500 * 0x1_0000_0000 + x) == Wrap32(x)
  {
  }

  // A late reply makes the remaining time wrap: for every lateness the delay is what its half, rounded up, leaves of
  // 2^32 milliseconds, nearly 50 days when the reply is only a little late.
  lemma LateReplyDelay(expires: u32, late: nat)
    requires 1 <= late <= 0x1_0000_0000
    ensures RenewalDelay(expires, expires + late) == Wrap32(0 - (late + 1) / 2 * 1000)
    ensures late <= 8589934 ==> RenewalDelay(expires, expires + late) == 0x1_0000_0000 - (late + 1) / 2 * 1000
  {
    var up := (late + 1) / 2;
    assert Wrap32(expires - (expires + late)) == Wrap32(0 - late) == 0x1_0000_0000 - late by {
      WrapsOnce(late);
    }
    assert (0x1_0000_0000 - late) / 2 == 0x8000_0000 - up;
    WrapsAround(0 - up * 1000);
  }
}
