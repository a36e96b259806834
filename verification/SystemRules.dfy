/** What the leases mean for the routing rules, over runs of the whole system. */
module SystemRules {
  import opened LeaseTypes
  import opened ServerModel
  import opened ServerInvariant
  import opened LeaseSystem
  import opened SystemSafety
  import C = ClientModel
  import CP = ClientProperties

  // Each unexpired lease that a client holds or that is on its way to one is the lease of a row of that key, with
  // that table and at least that expiry.
  ghost predicate Sound(s: System)
    requires Typed(s)
  {
    forall key | key in s.clients ::
      && (s.clients[key].rtTable != 0 ==>
            Backed(s.server.rows, key, s.clients[key].rtTable, s.clients[key].leaseExpires, s.now))
      && (forall r | r in s.inbox[key] && r.table != 0 :: Backed(s.server.rows, key, r.table, r.expires, s.now))
  }

  // Lease soundness, in every state of every run.
  lemma LeaseSoundness(cfg: Config, families: set<Family>, actions: seq<Action>)
    requires cfg.Accepted() && cfg.ReadsBack() && families <= FAMILIES && ClockFits(cfg, 0)
    requires Run(Initial(cfg, families), actions)
    ensures Sound(Outcome(Initial(cfg, families), actions))
  {
    RunKeepsSystemInv(Initial(cfg, families), actions);
    var s := Outcome(Initial(cfg, families), actions);
    forall key | key in s.clients ensures ClientOk(s, key) {
    }
  }

  // A reply that reaches a client before its lease has expired names the same table and no earlier expiry.
  lemma TimelyReplyKeepsTable(s: System, key: Key, sends: C.Sends)
    requires SystemInv(s) && Possible(s, Deliver(key, sends)) && Holds(s, key)
    ensures var r := s.inbox[key][0];
            && r.expires >= s.clients[key].leaseExpires
            && r.table == s.clients[key].rtTable
  {
    assert ClientOk(s, key);
    var c, r := s.clients[key], s.inbox[key][0];
    assert c.leaseExpires <= r.expires;
    assert Owns(s.server.rows, PrimaryKey(c.rtTable, key.fam), key);
    assert Owns(s.server.rows, PrimaryKey(r.table, key.fam), key);
  }

  // A reply that is read no later than its expiry starts the renewal timer at half the remaining time, and the timer
  // fires before the expiry, from wherever in the current second, exactly when the reply has not expired.
  lemma ReplySchedulesRenewal(s: System, key: Key, sends: C.Sends)
    requires SystemInv(s) && Possible(s, Deliver(key, sends)) && s.inbox[key][0].table != 0
    ensures var expires := s.inbox[key][0].expires;
            var timer := C.Step(s.clients[key], DeliveredEvent(s, key, sends)).requestTimer;
            && expires <= s.now + s.cfg.timeout
            && timer.Some?
            && (s.now <= expires ==> timer.value == (expires - s.now) / 2 * 1000)
            && (1000 * (s.now + 1) + timer.value <= 1000 * expires <==> s.now < expires)
  {
    assert ClientOk(s, key);
    HeadReadsBack(s, key);
    CP.DelayIsHalfIff(s.inbox[key][0].expires, s.now);
    CP.RenewsInTimeIff(s.inbox[key][0].expires, s.now, 1000 * s.now + 999);
  }

  ghost predicate RulesInv(s: System) {
    forall key | key in s.clients :: CP.RulesFollow(s.clients[key])
  }

  // The reply that is read does not name another table while a rule is in place.
  predicate KeepsRules(s: System, a: Action) {
    a.Deliver? && a.key in s.clients && a.key in s.inbox && s.inbox[a.key] != [] ==>
      CP.KeepsRules(s.clients[a.key], DeliveredEvent(s, a.key, a.sends))
  }

  lemma OneClientFollows(s: System, key: Key, e: C.Event, inbox: seq<Reply>)
    requires RulesInv(s) && key in s.clients && C.Enabled(s.clients[key], e)
    ensures RulesInv(Update(s, key, C.Step(s.clients[key], e), inbox)) <==> CP.KeepsRules(s.clients[key], e)
  {
    var c' := C.Step(s.clients[key], e);
    var s' := Update(s, key, c', inbox);
    CP.PrefixStepIff(s.clients[key], e);
    if !c'.stopped {
      assert key in s'.clients && s'.clients[key] == c';
    }
  }

  lemma RulesStepIff(s: System, a: Action)
    requires Typed(s) && RulesInv(s) && Possible(s, a) && forall key | key in s.clients :: !s.clients[key].stopped
    ensures RulesInv(Next(s, a)) <==> KeepsRules(s, a)
  {
    match a
    case Begin(key, address) =>
      var c := C.Start(address);
      assert CP.InstalledUpTo(c, 0);
    case Local(key, event) =>
      OneClientFollows(s, key, event, s.inbox[key]);
    case Deliver(key, sends) =>
      OneClientFollows(s, key, DeliveredEvent(s, key, sends), s.inbox[key][1..]);
    case _ =>
  }

  ghost predicate RulesThroughout(s: System, actions: seq<Action>)
    requires Typed(s) && Run(s, actions)
    decreases |actions|
  {
    RulesInv(s) && (actions == [] || RulesThroughout(Next(s, actions[0]), actions[1..]))
  }

  // No reply that is read in the run names another table while a rule of its reader is in place.
  ghost predicate RulesKept(s: System, actions: seq<Action>)
    requires Typed(s) && Run(s, actions)
    decreases |actions|
  {
    actions == [] || (KeepsRules(s, actions[0]) && RulesKept(Next(s, actions[0]), actions[1..]))
  }

  // Every client's rules in the kernel are a prefix of the three for the table that it holds, in every state of a run,
  // exactly when no reply that is read names another table while a rule is in place.
  lemma {:induction false} RulesThroughoutIff(s: System, actions: seq<Action>)
    requires SystemInv(s) && RulesInv(s) && Run(s, actions)
    ensures RulesThroughout(s, actions) <==> RulesKept(s, actions)
    decreases |actions|
  {
    if actions == [] {
    } else {
      assert forall key | key in s.clients :: ClientOk(s, key);
      RulesStepIff(s, actions[0]);
      NextKeepsInv(s, actions[0]);
      if RulesInv(Next(s, actions[0])) {
        RulesThroughoutIff(Next(s, actions[0]), actions[1..]);
      }
    }
  }

  lemma {:induction false} RulesAtTheEnd(s: System, actions: seq<Action>)
    requires Typed(s) && Run(s, actions) && RulesThroughout(s, actions)
    ensures RulesInv(Outcome(s, actions))
    decreases |actions|
  {
    if actions == [] {
    } else {
      RulesAtTheEnd(Next(s, actions[0]), actions[1..]);
    }
  }

  // From the empty system, what follows in the state that such a run ends in.
  lemma KeptRunKeepsRules(cfg: Config, families: set<Family>, actions: seq<Action>)
    requires cfg.Accepted() && cfg.ReadsBack() && families <= FAMILIES && ClockFits(cfg, 0)
    requires Run(Initial(cfg, families), actions) && RulesKept(Initial(cfg, families), actions)
    ensures SystemInv(Outcome(Initial(cfg, families), actions)) && RulesInv(Outcome(Initial(cfg, families), actions))
  {
    RunKeepsSystemInv(Initial(cfg, families), actions);
    RulesThroughoutIff(Initial(cfg, families), actions);
    RulesAtTheEnd(Initial(cfg, families), actions);
  }

  // The client reads its replies before the lease it holds has expired.
  predicate Timely(s: System, a: Action) {
    a.Deliver? && a.key in s.clients && s.clients[a.key].rtTable != 0 ==> s.clients[a.key].leaseExpires > s.now
  }

  // That is enough: a timely reply names the same table.
  lemma TimelyKeepsRules(s: System, a: Action)
    requires SystemInv(s) && Possible(s, a) && Timely(s, a)
    ensures KeepsRules(s, a)
  {
    if a.Deliver? && s.clients[a.key].rtTable != 0 {
      TimelyReplyKeepsTable(s, a.key, a.sends);
      HeadReadsBack(s, a.key);
    }
  }

  ghost predicate TimelyRun(s: System, actions: seq<Action>)
    requires Typed(s) && Run(s, actions)
    decreases |actions|
  {
    actions == [] || (Timely(s, actions[0]) && TimelyRun(Next(s, actions[0]), actions[1..]))
  }

  lemma {:induction false} TimelyRunKeepsRules(s: System, actions: seq<Action>)
    requires SystemInv(s) && Run(s, actions) && TimelyRun(s, actions)
    ensures RulesKept(s, actions)
    decreases |actions|
  {
    if actions == [] {
    } else {
      NextKeepsInv(s, actions[0]);
      TimelyKeepsRules(s, actions[0]);
      TimelyRunKeepsRules(Next(s, actions[0]), actions[1..]);
    }
  }

  lemma RulesNameTable(c: C.Client)
    requires CP.PrefixInstalled(c)
    ensures forall r | r in c.installed :: r.table == c.rtTable
  {
  }

  lemma RulesDiffer(s: System, k1: Key, k2: Key)
    requires SystemInv(s) && RulesInv(s) && k1 != k2 && k1.fam == k2.fam && Holds(s, k1) && Holds(s, k2)
    ensures forall r1, r2 | r1 in s.clients[k1].installed && r2 in s.clients[k2].installed :: r1.table != r2.table
  {
    HoldersDiffer(s, k1, k2);
    assert CP.RulesFollow(s.clients[k1]) && CP.RulesFollow(s.clients[k2]);
    RulesNameTable(s.clients[k1]);
    RulesNameTable(s.clients[k2]);
  }

  // In every state of every run in which no such reply is read, each client's rules in the kernel are the first of the
  // three for the table it holds, and the rules of two clients of one family that hold leases never name a common
  // table.
  lemma RulesAreExclusive(cfg: Config, families: set<Family>, actions: seq<Action>, k1: Key, k2: Key)
    requires cfg.Accepted() && cfg.ReadsBack() && families <= FAMILIES && ClockFits(cfg, 0)
    requires Run(Initial(cfg, families), actions) && RulesKept(Initial(cfg, families), actions)
    requires k1 != k2 && k1.fam == k2.fam
    ensures var s := Outcome(Initial(cfg, families), actions);
            && (k1 in s.clients ==> CP.PrefixInstalled(s.clients[k1]))
            && (Holds(s, k1) && Holds(s, k2) ==>
                  forall r1, r2 | r1 in s.clients[k1].installed && r2 in s.clients[k2].installed ::
                    r1.table != r2.table)
  {
    KeptRunKeepsRules(cfg, families, actions);
    var s := Outcome(Initial(cfg, families), actions);
    if Holds(s, k1) && Holds(s, k2) {
      RulesDiffer(s, k1, k2);
    }
  }
}
