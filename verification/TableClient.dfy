/** The client process: its callbacks change the fields of one context step by step. */
module TableClient {
  import opened LeaseTypes
  import M = ClientModel

  const RTM_NEWRULE: nat := 32
  const RTM_DELRULE: nat := 33

  class Client {
    const address: M.Address
    var rtTable: u32
    var leaseExpires: u32
    var rulesAdded: bool
    var numFailed: nat
    var stopped: bool
    var requestTimer: Option<nat>
    var socketTimer: bool
    var socketClosing: bool
    var receiving: bool
    var netlinkTimer: bool
    var sent: seq<nat>
    var printed: seq<u32>
    // this client's rules in the kernel
    var installed: set<M.Rule>

    function View(): M.Client
      reads this
    {
      M.Client(address, rtTable, leaseExpires, rulesAdded, numFailed, stopped,
               requestTimer, socketTimer, socketClosing, receiving, netlinkTimer, sent, printed, installed)
    }

    constructor (address: M.Address)
      ensures View() == M.Start(address)
    {
      this.address := address;
      rtTable, leaseExpires, rulesAdded := 0, 0, false;
      numFailed, stopped := 0, false;
      requestTimer, socketTimer, socketClosing, receiving, netlinkTimer := None, true, false, false, false;
      sent, printed, installed := [], [], {};
    }

    // One rule message; the kernel acts on it when it can be sent.
    method ModifyRule(msgType: nat, rule: M.Rule, sendOk: bool) returns (retval: int)
      modifies this`installed
      ensures retval < 0 <==> !sendOk
      ensures installed == if !sendOk then old(installed)
                           else if msgType == RTM_NEWRULE then old(installed) + {rule} else old(installed) - {rule}
    {
      if !sendOk {
        return -1;
      }
      if msgType == RTM_NEWRULE {
        installed := installed + {rule};
      } else {
        installed := installed - {rule};
      }
      retval := 0;
    }

    method UpdateRules(msgType: nat, sends: M.Sends)
      requires msgType == RTM_NEWRULE || msgType == RTM_DELRULE
      modifies this`installed, this`rulesAdded, this`netlinkTimer
      ensures View() == if msgType == RTM_NEWRULE then M.AddRules(old(View()), sends)
                        else M.DeleteRules(old(View()), sends)
    {
      if msgType == RTM_NEWRULE && rulesAdded {
        return;
      }
      var rules := M.Rules(address, rtTable);
      var retval := ModifyRule(msgType, rules[0], sends.first);
      if retval < 0 {
        netlinkTimer := netlinkTimer || msgType == RTM_NEWRULE;
        return;
      }
      retval := ModifyRule(msgType, rules[1], sends.second);
      if retval < 0 {
        netlinkTimer := netlinkTimer || msgType == RTM_NEWRULE;
        return;
      }
      retval := ModifyRule(msgType, rules[2], sends.third);
      if retval < 0 {
        netlinkTimer := netlinkTimer || msgType == RTM_NEWRULE;
      } else {
        rulesAdded := true;
      }
    }

    method SendRequest(cmd: nat, sendOk: bool)
      modifies this
      ensures View() == M.Send(old(View()), cmd, sendOk)
    {
      if sendOk {
        sent := sent + [cmd];
        receiving := true;
      }
      requestTimer := Some(M.REQUEST_RETRANSMISSION_MS);
    }

    // Counts a failure; true when the client may go on.
    method CheckFailCount() returns (below: bool)
      modifies this
      ensures below <==> old(numFailed) + 1 < M.NUM_FAILED_LIMIT
      ensures View() == if below then old(View()).(numFailed := old(numFailed) + 1) else M.GiveUp(old(View()))
    {
      numFailed := numFailed + 1;
      if numFailed < M.NUM_FAILED_LIMIT {
        return true;
      }
      printed := printed + [rtTable];
      stopped := true;
      below := false;
    }

    method StopRecv()
      modifies this
      ensures View() == M.CloseSocket(old(View()))
    {
      receiving, requestTimer, socketTimer := false, None, false;
      socketClosing := true;
    }

    method RequestTimeout(sendOk: bool)
      requires !stopped
      modifies this
      ensures View() == M.Step(old(View()), M.RequestTimeout(sendOk))
    {
      requestTimer := None;
      var go := true;
      if rtTable == 0 {
        go := CheckFailCount();
      }
      if go {
        SendRequest(CMD_REQ, sendOk);
      }
    }

    method SocketTimeout(isOpen: bool, sendOk: bool)
      modifies this
      ensures View() == M.Step(old(View()), M.SocketTimeout(isOpen, sendOk))
    {
      if stopped {
        return;
      }
      if isOpen {
        socketTimer := false;
        SendRequest(CMD_REQ, sendOk);
      }
    }

    method SocketClosed()
      modifies this
      ensures View() == M.Step(old(View()), M.SocketClosed)
    {
      if stopped {
        return;
      }
      socketClosing, socketTimer := false, true;
    }

    // unix_socket_recv_cb for a failed read.
    method RecvError()
      modifies this
      ensures View() == M.Step(old(View()), M.SocketError)
    {
      if stopped {
        return;
      }
      var go := true;
      if rtTable == 0 {
        go := CheckFailCount();
      }
      if go {
        StopRecv();
      }
    }

    // unix_socket_recv_cb for a truncated datagram.
    method RecvPartial()
      modifies this
      ensures View() == M.Step(old(View()), M.PartialDatagram)
    {
      if stopped {
        return;
      }
      requestTimer := Some(M.REQUEST_RETRANSMISSION_MS);
    }

    // unix_socket_recv_cb for a reply that parses, given the numbers in it: the expiry is overwritten first.
    method RecvReply(ver: nat, cmd: nat, table: u32, expires: u32, now: nat, sends: M.Sends)
      modifies this
      ensures View() == M.Step(old(View()), M.Datagram(ver, cmd, table, expires, now, sends))
    {
      if stopped {
        return;
      }
      var rtTable := ReadInt(table);
      leaseExpires := ReadInt(expires);
      if ver != M.TA_VERSION {
        stopped := true;
        return;
      }
      if cmd != CMD_RESP || rtTable == 0 {
        requestTimer := Some(M.REQUEST_RETRANSMISSION_MS);
        return;
      }
      TakeLease(rtTable, now, sends);
    }

    // The rest of unix_socket_recv_cb, for a reply that names a table.
    method TakeLease(table: u32, now: nat, sends: M.Sends)
      modifies this
      ensures View() == M.AddRules(M.Accepted(old(View()), table, old(leaseExpires), now), sends)
    {
      rtTable := table;
      numFailed := 0;
      var tdiff: int := Wrap32(leaseExpires - now);
      var delay := Wrap32(tdiff / 2 * 1000);
      printed := printed + [rtTable];
      AddRulesThenTimer(View(), sends, Some(delay));
      if !rulesAdded {
        UpdateRules(RTM_NEWRULE, sends);
      }
      requestTimer := Some(delay);
    }

    method NetlinkTimeout(sends: M.Sends)
      requires !stopped
      modifies this
      ensures View() == M.Step(old(View()), M.NetlinkTimeout(sends))
    {
      netlinkTimer := false;
      UpdateRules(RTM_NEWRULE, sends);
    }

    // The loop over the netlink messages stops at the first one that takes the client's address or link away.
    method NetlinkRecv(msgs: seq<M.NetlinkMsg>, sends: M.Sends, sendOk: bool)
      modifies this
      ensures View() == M.Step(old(View()), M.Netlink(msgs, sends, sendOk))
    {
      if stopped {
        return;
      }
      for i := 0 to |msgs|
        invariant View() == old(View())
        invariant forall k | 0 <= k < i :: !M.Concerns(address, msgs[k])
      {
        var shouldDelete := M.Concerns(address, msgs[i]);
        if shouldDelete {
          UpdateRules(RTM_DELRULE, sends);
          SendRequest(CMD_REL, sendOk);
          stopped := true;
          return;
        }
      }
    }
  }

  // Adding rules does not touch the request timer.
  lemma AddRulesThenTimer(c: M.Client, sends: M.Sends, timer: Option<nat>)
    ensures M.AddRules(c, sends).(requestTimer := timer) == M.AddRules(c.(requestTimer := timer), sends)
  {
  }
}
