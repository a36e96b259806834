/** What a client does to the world around it, over whole runs, in the numbers and messages of its protocol. */
module ClientOutcomes {
  import opened LeaseTypes
  import opened ClientModel
  import opened ClientProperties

  // Single events -----------------------------------------------------------------------------------------------

  // A response with a table is printed and held, forgets all failures and starts the renewal timer.
  lemma GrantIsPrinted(c: Client, e: Event)
    requires !c.stopped && c.receiving && Accepts(e)
    ensures var c' := Step(c, e);
            && Enabled(c, e) && !c'.stopped
            && c'.printed == c.printed + [ReadInt(e.table)] && c'.rtTable == ReadInt(e.table)
            && c'.leaseExpires == ReadInt(e.expires) && c'.numFailed == 0 && c'.sent == c.sent
            && c'.requestTimer == Some((ReadInt(e.expires) - e.now) % 0x1_0000_0000 / 2 * 1000 % 0x1_0000_0000)
            && c'.receiving
  {
  }

  // Any other datagram that parses: of another version it ends the client, else the client asks again in two seconds.
  // Either way the expiry has been overwritten, and nothing is printed or sent.
  lemma OtherDatagrams(c: Client, e: Event)
    requires !c.stopped && c.receiving && e.Datagram? && !Accepts(e)
    ensures var c' := Step(c, e);
            && Enabled(c, e) && (c'.stopped <==> e.ver != 1)
            && (e.ver == 1 ==> c' == c.(leaseExpires := ReadInt(e.expires), requestTimer := Some(2000)))
            && (e.ver != 1 ==> c' == c.(leaseExpires := ReadInt(e.expires), stopped := true))
  {
  }

  // A truncated datagram only puts off the next request, one that does not parse does nothing.
  lemma BadDatagrams(c: Client)
    requires !c.stopped && c.receiving
    ensures Enabled(c, PartialDatagram) && Step(c, PartialDatagram) == c.(requestTimer := Some(2000))
    ensures Enabled(c, Unparsable) && Step(c, Unparsable) == c
  {
  }

  // The client ends at netlink messages exactly when one of them takes its address or link away; others do nothing.
  lemma StopsIffAddressLost(c: Client, msgs: seq<NetlinkMsg>, sends: Sends, sendOk: bool)
    requires !c.stopped
    ensures var c' := Step(c, Netlink(msgs, sends, sendOk));
            && Enabled(c, Netlink(msgs, sends, sendOk))
            && (c'.stopped <==> exists m :: m in msgs && TakesAway(c.address, m))
            && (c'.stopped ==> c'.sent == (if sendOk then c.sent + [1] else c.sent) && c'.printed == c.printed)
            && c'.rtTable == c.rtTable && c'.address == c.address && c'.numFailed == c.numFailed
            && (!c'.stopped ==> c' == c)
  {
    ConcernsIff(c.address, msgs);
  }

  // The three rules of a client for a table; the last is for what the host itself sends, from no particular address.
  function ThreeRules(a: Address, table: u32): (r: seq<Rule>)
    ensures |r| == 3
  {
    var subnet := if a.prefixLen == 0 then None else Some(Prefix(a.addr, a.prefixLen));
    [Rule(10000, Some(Prefix(a.addr, 32)), None, false, table),
     Rule(20000, None, subnet, false, table),
     Rule(91000, None, None, true, table)]
  }

  // How many messages go out: all before the first that cannot be sent.
  predicate GoesOut(s: Sends, i: nat) {
    s.first && (i > 0 ==> s.second) && (i > 1 ==> s.third)
  }

  // The retry timer adds the rules whose messages go out and runs again exactly while one is missing.
  lemma RulesAreAdded(c: Client, s: Sends)
    requires !c.stopped && c.netlinkTimer && !c.rulesAdded
    ensures var c' := Step(c, NetlinkTimeout(s));
            && Enabled(c, NetlinkTimeout(s))
            && (forall r :: r in c'.installed <==>
                  || r in c.installed
                  || exists i: nat :: i < 3 && GoesOut(s, i) && r == ThreeRules(c.address, c.rtTable)[i])
            && (c'.rulesAdded <==> GoesOut(s, 2)) && (c'.netlinkTimer <==> !GoesOut(s, 2))
            && !c'.stopped && c'.sent == c.sent && c'.printed == c.printed
  {
    var r := ThreeRules(c.address, c.rtTable);
    assert Rules(c.address, c.rtTable) == r;
    assert forall i: nat | i < 3 :: r[i] in FirstRules(c.address, c.rtTable, Sendable(s)) <==> GoesOut(s, i);
  }

  // The same messages the first reply with a table gives rise to; when all rules are in, a reply leaves them alone.
  lemma GrantAddsRules(c: Client, e: Event)
    requires !c.stopped && c.receiving && Accepts(e)
    ensures var c' := Step(c, e);
            && (c.rulesAdded ==> c'.installed == c.installed && c'.rulesAdded && c'.netlinkTimer == c.netlinkTimer)
            && (!c.rulesAdded ==>
                  && (forall r :: r in c'.installed <==>
                        r in c.installed
                        || exists i: nat :: i < 3 && GoesOut(e.sends, i)
                                            && r == ThreeRules(c.address, ReadInt(e.table))[i])
                  && (c'.rulesAdded <==> GoesOut(e.sends, 2))
                  && (c'.netlinkTimer <==> c.netlinkTimer || !GoesOut(e.sends, 2)))
  {
    var r := ThreeRules(c.address, ReadInt(e.table));
    assert Rules(c.address, ReadInt(e.table)) == r;
    assert forall i: nat | i < 3 :: r[i] in FirstRules(c.address, ReadInt(e.table), Sendable(e.sends))
                                    <==> GoesOut(e.sends, i);
  }

  // A client that loses its address deletes the rules whose messages go out, however few.
  lemma RulesAreDeleted(c: Client, e: Event)
    requires !c.stopped && LosesAddress(c.address, e)
    ensures forall r :: r in Step(c, e).installed <==>
              r in c.installed
              && !exists i: nat :: i < 3 && GoesOut(e.sends, i) && r == ThreeRules(c.address, c.rtTable)[i]
    ensures Step(c, e).rulesAdded <==> c.rulesAdded || GoesOut(e.sends, 2)
  {
    StopsIffAddressLost(c, e.msgs, e.sends, e.sendOk);
    var r := ThreeRules(c.address, c.rtTable);
    assert Rules(c.address, c.rtTable) == r;
    assert forall i: nat | i < 3 :: r[i] in FirstRules(c.address, c.rtTable, Sendable(e.sends))
                                    <==> GoesOut(e.sends, i);
  }

  // A failed read closes the socket of every client that goes on, leased or not, with both its timers; once it is
  // closed it is opened again, and the request that follows is sent.
  lemma FailedSocketIsReopened(c: Client)
    requires !c.stopped && c.receiving && (c.rtTable == 0 ==> c.numFailed < 4)
    ensures var c1 := Step(c, SocketError);
            var c2 := Step(c1, SocketClosed);
            var c3 := Step(c2, SocketTimeout(true, true));
            && Enabled(c, SocketError) && Enabled(c1, SocketClosed) && Enabled(c2, SocketTimeout(true, true))
            && !c1.receiving && c1.requestTimer == None && !c1.socketTimer && c1.sent == c.sent
            && c1.numFailed == (if c.rtTable == 0 then c.numFailed + 1 else c.numFailed)
            && !c2.receiving && c2.requestTimer == None && c2.sent == c.sent
            && c3.receiving && c3.requestTimer == Some(2000) && !c3.socketTimer && c3.sent == c.sent + [0]
            && c3.rtTable == c.rtTable && c3.printed == c.printed && c3.installed == c.installed
  {
  }

  // Opening the socket is tried until it works.
  lemma OpeningIsRepeated(c: Client, sendOk: bool)
    requires !c.stopped && c.socketTimer
    ensures Enabled(c, SocketTimeout(false, sendOk)) && Step(c, SocketTimeout(false, sendOk)) == c
  {
  }

  // A timeout sends a request to be repeated in two seconds, whether it can be sent or not; a client with a table does
  // so for ever, one without until its fifth failure.
  lemma TimeoutAsksAgain(c: Client, sendOk: bool)
    requires !c.stopped && c.requestTimer.Some? && (c.rtTable == 0 ==> c.numFailed < 4)
    ensures Enabled(c, RequestTimeout(sendOk))
    ensures Step(c, RequestTimeout(sendOk))
            == c.(requestTimer := Some(2000), sent := if sendOk then c.sent + [0] else c.sent,
                  receiving := c.receiving || sendOk,
                  numFailed := if c.rtTable == 0 then c.numFailed + 1 else c.numFailed)
  {
  }

  lemma OpenSocketAsks(c: Client, sendOk: bool)
    requires !c.stopped && c.socketTimer
    ensures Enabled(c, SocketTimeout(true, sendOk))
    ensures Step(c, SocketTimeout(true, sendOk))
            == c.(socketTimer := false, requestTimer := Some(2000), sent := if sendOk then c.sent + [0] else c.sent,
                  receiving := c.receiving || sendOk)
  {
  }

  // Whole runs --------------------------------------------------------------------------------------------------

  // The tables that the replies of a run name, in order.
  function Tables(events: seq<Event>): seq<u32> {
    if events == [] then [] else Named(events[0]) + Tables(events[1..])
  }

  function Named(e: Event): seq<u32> {
    if Accepts(e) then [ReadInt(e.table)] else []
  }

  // The client gives up: five failures, those before the run included, without a table.
  predicate GivesUp(leased: bool, failed: nat, events: seq<Event>) {
    !leased && Tables(events) == [] && failed + Count(events) >= 5
  }

  // What the client writes to stdout: the table of each reply, in order, or a single 0.
  function Output(leased: bool, failed: nat, events: seq<Event>): seq<u32> {
    if GivesUp(leased, failed, events) then [0] else Tables(events)
  }

  // The messages that an event gives rise to: a request, or the release that is the last of them.
  function Command(a: Address, e: Event): seq<nat> {
    match e
    case SocketTimeout(isOpen, sendOk) => if isOpen && sendOk then [0] else []
    case RequestTimeout(sendOk) => if sendOk then [0] else []
    case Netlink(_, _, sendOk) => if sendOk && LosesAddress(a, e) then [1] else []
    case _ => []
  }

  function Commands(a: Address, events: seq<Event>): seq<nat> {
    if events == [] then [] else Command(a, events[0]) + Commands(a, events[1..])
  }

  // The failure that makes the client give up, the last event then, sends nothing.
  function Messages(a: Address, leased: bool, failed: nat, events: seq<Event>): seq<nat> {
    Commands(a, if GivesUp(leased, failed, events) && events != [] then events[..|events| - 1] else events)
  }

  // The fifth failure of a client without a table.
  predicate IsFifth(c: Client, e: Event) {
    c.rtTable == 0 && CountsAsFailure(e) && c.numFailed == 4
  }

  predicate Leased(c: Client) {
    c.rtTable != 0
  }

  // What an event leaves alone that neither grants a table nor is the fifth failure.
  ghost predicate Unnamed(c: Client, e: Event, c': Client) {
    && c'.printed == c.printed && c'.rtTable == c.rtTable && c'.address == c.address
    && (c'.rtTable == 0 ==> c'.numFailed == c.numFailed + (if CountsAsFailure(e) then 1 else 0))
    && (c'.stopped <==> Ends(c.address, e))
  }

  lemma LocalEvents(c: Client, e: Event)
    requires Enabled(c, e) && Local(e) && !IsFifth(c, e) && (c.rtTable == 0 ==> c.numFailed < 5)
    ensures Unnamed(c, e, Step(c, e))
  {
    match e
    case SocketTimeout(isOpen, sendOk) =>
      OpenSocketAsks(c, sendOk);
      OpeningIsRepeated(c, sendOk);
    case RequestTimeout(sendOk) => TimeoutAsksAgain(c, sendOk);
    case SocketError => FailedSocketIsReopened(c);
    case SocketClosed =>
  }

  lemma IncomingEvents(c: Client, e: Event)
    requires Enabled(c, e) && !Local(e) && !Accepts(e)
    ensures Unnamed(c, e, Step(c, e))
  {
    match e
    case PartialDatagram => BadDatagrams(c);
    case Unparsable => BadDatagrams(c);
    case Datagram(_, _, _, _, _, _) => OtherDatagrams(c, e);
    case NetlinkTimeout(_) =>
    case Netlink(msgs, sends, sendOk) => StopsIffAddressLost(c, msgs, sends, sendOk);
  }

  lemma SendsCommand(c: Client, e: Event)
    requires Enabled(c, e) && !IsFifth(c, e) && (c.rtTable == 0 ==> c.numFailed < 5)
    ensures Step(c, e).sent == c.sent + Command(c.address, e)
  {
    match e
    case SocketTimeout(_, _) =>
    case RequestTimeout(_) =>
    case SocketError =>
    case SocketClosed =>
    case PartialDatagram =>
    case Unparsable =>
    case Datagram(_, _, _, _, _, _) =>
    case NetlinkTimeout(_) =>
    case Netlink(msgs, sends, sendOk) => StopsIffAddressLost(c, msgs, sends, sendOk);
  }

  // The client after the first event of a run.
  lemma Advance(c: Client, events: seq<Event>) returns (c1: Client)
    requires Run(c, events) && events != [] && (c.rtTable == 0 ==> c.numFailed < 5)
    ensures Run(c1, events[1..]) && After(c, events) == After(c1, events[1..])
    ensures var e := events[0];
            if IsFifth(c, e) then c1.stopped && c1.printed == c.printed + [0] && c1.sent == c.sent
            else
              && c1.printed == c.printed + Named(e) && c1.sent == c.sent + Command(c.address, e)
              && c1.address == c.address && (c1.stopped <==> Ends(c.address, e))
              && (Leased(c1) <==> Leased(c) || Accepts(e))
              && (!Leased(c1) ==> c1.numFailed == c.numFailed + (if CountsAsFailure(e) then 1 else 0))
  {
    var e := events[0];
    c1 := Step(c, e);
    if !IsFifth(c, e) {
      SendsCommand(c, e);
      if Accepts(e) {
        GrantIsPrinted(c, e);
      } else if Local(e) {
        LocalEvents(c, e);
      } else {
        IncomingEvents(c, e);
      }
    }
  }

  // What is left to write and to send after an event that does not make the client give up.
  lemma OneEventLess(a: Address, leased: bool, failed: nat, events: seq<Event>)
    requires events != [] && (!leased ==> failed < 5) && !(!leased && CountsAsFailure(events[0]) && failed == 4)
    ensures var e, rest := events[0], events[1..];
            var later, more := leased || Accepts(e), failed + (if CountsAsFailure(e) then 1 else 0);
            && (GivesUp(leased, failed, events) <==> GivesUp(later, more, rest))
            && Output(leased, failed, events) == Named(e) + Output(later, more, rest)
            && Messages(a, leased, failed, events) == Command(a, e) + Messages(a, later, more, rest)
  {
    if |events| > 1 {
      assert events[..|events| - 1][1..] == events[1..][..|events| - 2];
    }
  }

  lemma OnlyEvent(a: Address, leased: bool, failed: nat, e: Event)
    requires !leased ==> failed < 5
    ensures var quits := !leased && CountsAsFailure(e) && failed == 4;
            && (GivesUp(leased, failed, [e]) <==> quits)
            && Output(leased, failed, [e]) == (if quits then [0] else Named(e))
            && Messages(a, leased, failed, [e]) == (if quits then [] else Command(a, e))
  {
    var events := [e];
    assert events[1..] == [] && events[..0] == [];
    assert Tables(events) == Named(e) && Commands(a, events) == Command(a, e);
    assert Count(events) == if CountsAsFailure(e) then 1 else 0;
  }

  // What a run that goes on from c1 adds to what c has written and sent.
  ghost predicate Outcome(c: Client, events: seq<Event>, c': Client) {
    && c'.printed == c.printed + Output(Leased(c), c.numFailed, events)
    && c'.sent == c.sent + Messages(c.address, Leased(c), c.numFailed, events)
    && (c'.stopped <==> GivesUp(Leased(c), c.numFailed, events) || exists e :: e in events && Ends(c.address, e))
  }

  lemma Append<T>(s: seq<T>, x: seq<T>, y: seq<T>)
    ensures s + (x + y) == (s + x) + y
  {
  }

  lemma EndsLater(a: Address, events: seq<Event>)
    requires events != [] && !Ends(a, events[0])
    ensures (exists e :: e in events && Ends(a, e)) <==> (exists e :: e in events[1..] && Ends(a, e))
  {
    assert events == [events[0]] + events[1..];
  }

  lemma OutcomeFromRest(c: Client, c1: Client, events: seq<Event>, c': Client)
    requires events != [] && (!Leased(c) ==> c.numFailed < 5) && !IsFifth(c, events[0]) && !c1.stopped
    requires var e := events[0];
             && c1.printed == c.printed + Named(e) && c1.sent == c.sent + Command(c.address, e)
             && c1.address == c.address && !Ends(c.address, e)
             && (Leased(c1) <==> Leased(c) || Accepts(e))
             && (!Leased(c1) ==> c1.numFailed == c.numFailed + (if CountsAsFailure(e) then 1 else 0))
    requires Outcome(c1, events[1..], c')
    ensures Outcome(c, events, c')
  {
    var e, rest := events[0], events[1..];
    var more := c.numFailed + (if CountsAsFailure(e) then 1 else 0);
    OneEventLess(c.address, Leased(c), c.numFailed, events);
    MoreFailuresWhenLeased(c.address, c1.numFailed, more, rest);
    Append(c.printed, Named(e), Output(Leased(c1), more, rest));
    Append(c.sent, Command(c.address, e), Messages(c.address, Leased(c1), more, rest));
    EndsLater(c.address, events);
  }

  lemma {:induction false} RunOutcome(c: Client, events: seq<Event>)
    requires Run(c, events) && !c.stopped && (!Leased(c) ==> c.numFailed < 5)
    ensures Outcome(c, events, After(c, events))
    decreases |events|
  {
    if events == [] {
    } else {
      var e, rest := events[0], events[1..];
      var c1 := Advance(c, events);
      if c1.stopped {
        StoppedRunEnds(c1, rest);
        assert events == [e];
        OnlyEvent(c.address, Leased(c), c.numFailed, e);
      } else {
        RunOutcome(c1, rest);
        OutcomeFromRest(c, c1, events, After(c1, rest));
      }
    }
  }

  // With a table the failures do not matter.
  lemma MoreFailuresWhenLeased(a: Address, failed: nat, other: nat, events: seq<Event>)
    ensures Output(true, failed, events) == Output(true, other, events)
    ensures Messages(a, true, failed, events) == Messages(a, true, other, events)
  {
  }

  // What a client prints and sends in a run, and whether it has ended, are functions of its events alone: the table of
  // each reply, or a single 0 once five failures have gone by without one.
  lemma OutcomeOfRun(a: Address, events: seq<Event>)
    requires Run(Start(a), events)
    ensures var c := After(Start(a), events);
            && c.printed == Output(false, 0, events)
            && c.sent == Messages(a, false, 0, events)
            && (c.stopped <==> GivesUp(false, 0, events) || exists e :: e in events && Ends(a, e))
  {
    RunOutcome(Start(a), events);
  }
}
