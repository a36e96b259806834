/** Which tables the kernel consults in the states that a run of the whole system reaches. */
module SystemRouting {
  import opened LeaseTypes
  import opened PolicyRouting
  import opened RuleSelection
  import opened LeaseSystem
  import opened SystemSafety
  import opened SystemRules
  import C = ClientModel
  import CP = ClientProperties

  // The rules of all running clients.
  ghost function KernelRules(s: System): set<C.Rule> {
    set key, r | key in s.clients && r in s.clients[key].installed :: r
  }

  predicate KernelLength(len: nat) {
    1 <= len <= 32
  }

  // A client with the mask of its prefix length and the table it was given.
  function Lessee(c: C.Client): Owner {
    Owner(c.address, if KernelLength(c.address.prefixLen) then NetMask(c.address.prefixLen) else 0, c.rtTable)
  }

  ghost function Lessees(s: System): set<Owner> {
    set key | key in s.clients :: Lessee(s.clients[key])
  }

  lemma InstalledIsOwn(c: C.Client, r: C.Rule) returns (i: nat)
    requires CP.PrefixInstalled(c) && r in c.installed
    ensures i < 3 && r == RuleOf(Lessee(c), i) && RuleOf(Lessee(c), 0) in c.installed
  {
    var n: nat :| n <= 3 && CP.InstalledUpTo(c, n);
    var rules := C.Rules(c.address, c.rtTable);
    i := if r == rules[0] then 0 else if r == rules[1] then 1 else 2;
  }

  lemma ClientsOwnRules(s: System)
    requires RulesInv(s)
    ensures AllOwned(KernelRules(s), Lessees(s))
  {
    forall r | r in KernelRules(s) ensures Owned(Lessees(s), r) {
      var key :| key in s.clients && r in s.clients[key].installed;
      assert CP.RulesFollow(s.clients[key]);
      var i := InstalledIsOwn(s.clients[key], r);
      assert Lessee(s.clients[key]) in Lessees(s);
    }
  }

  // In every state of every run that keeps the rules, however many rules could not be sent yet, the kernel consults
  // for a packet exactly the installed rules of the clients' addresses; failing these, of their subnets; failing these,
  // any.
  lemma KernelConsultsLeases(cfg: Config, families: set<Family>, actions: seq<Action>, t: Traffic, r: C.Rule)
    requires cfg.Accepted() && cfg.ReadsBack() && families <= FAMILIES && ClockFits(cfg, 0)
    requires Run(Initial(cfg, families), actions) && RulesKept(Initial(cfg, families), actions)
    ensures var s := Outcome(Initial(cfg, families), actions);
            (forall key | key in s.clients :: KernelLength(s.clients[key].address.prefixLen)) ==>
              (Consulted(KernelRules(s), t, r) <==> Expected(KernelRules(s), Lessees(s), t, r))
  {
    KeptRunKeepsRules(cfg, families, actions);
    var s := Outcome(Initial(cfg, families), actions);
    ClientsOwnRules(s);
    if forall key | key in s.clients :: KernelLength(s.clients[key].address.prefixLen) {
      forall o | o in Lessees(s) ensures ProperMask(o) {
        NetMaskIsProper(o.address.prefixLen);
      }
      KernelConsultsIff(KernelRules(s), Lessees(s), t, r);
    }
  }

  // The client's source rule is in place and names its table.
  ghost predicate Sourced(s: System, k: Key, src: bv32, r: C.Rule) {
    && k in s.clients && s.clients[k].address.addr == src && s.clients[k].installed != {}
    && r == RuleOf(Lessee(s.clients[k]), 0)
  }

  lemma SourcedIsInstalled(s: System, k: Key, src: bv32, r: C.Rule)
    requires RulesInv(s) && Sourced(s, k, src, r)
    ensures r in KernelRules(s) && Lessee(s.clients[k]) in Lessees(s)
  {
    assert CP.RulesFollow(s.clients[k]);
    var any :| any in s.clients[k].installed;
    var i := InstalledIsOwn(s.clients[k], any);
  }

  lemma InstalledIsSourced(s: System, src: bv32, r: C.Rule, o: Owner) returns (k: Key)
    requires RulesInv(s) && r in KernelRules(s) && r == RuleOf(o, 0) && o.address.addr == src
    ensures Sourced(s, k, src, r)
  {
    k :| k in s.clients && r in s.clients[k].installed;
    assert CP.RulesFollow(s.clients[k]);
    var i := InstalledIsOwn(s.clients[k], r);
  }

  // Traffic from a client's address, once the client has a rule in place, consults exactly the source rules of clients
  // with that address, each of which names the table that its client holds.
  lemma TrafficOfAddress(s: System, key: Key, t: Traffic, r: C.Rule)
    requires RulesInv(s) && key in s.clients && s.clients[key].installed != {} && s.clients[key].address.addr == t.src
    ensures Consulted(KernelRules(s), t, r) <==> exists k :: Sourced(s, k, t.src, r)
  {
    var own := Lessee(s.clients[key]);
    ClientsOwnRules(s);
    SourcedIsInstalled(s, key, t.src, RuleOf(own, 0));
    SourceRulesFirst(KernelRules(s), Lessees(s), t, r, own);
    if Consulted(KernelRules(s), t, r) {
      var p :| p in Lessees(s) && r == RuleOf(p, 0) && p.address.addr == t.src;
      var k := InstalledIsSourced(s, t.src, r, p);
    }
    if k :| Sourced(s, k, t.src, r) {
      SourcedIsInstalled(s, k, t.src, r);
    }
  }

  // In every state of every run that keeps the rules: the packets from the address of a client that holds a lease and
  // has a rule in place go to the tables of clients with that address, and if no other client has it, to the client's
  // own table, which no other holder of the family has.
  lemma LeasedTrafficIsSeparate(cfg: Config, families: set<Family>, actions: seq<Action>, key: Key,
                                t: Traffic, r: C.Rule)
    requires cfg.Accepted() && cfg.ReadsBack() && families <= FAMILIES && ClockFits(cfg, 0)
    requires Run(Initial(cfg, families), actions) && RulesKept(Initial(cfg, families), actions)
    ensures var s := Outcome(Initial(cfg, families), actions);
            Holds(s, key) && s.clients[key].installed != {} && s.clients[key].address.addr == t.src
            && Consulted(KernelRules(s), t, r) ==>
              && (exists k :: k in s.clients && s.clients[k].address.addr == t.src && s.clients[k].rtTable == r.table)
              && ((forall k | k in s.clients && k != key :: s.clients[k].address.addr != t.src) ==>
                    && r.table == s.clients[key].rtTable
                    && forall k | Holds(s, k) && k != key && k.fam == key.fam :: s.clients[k].rtTable != r.table)
  {
    KeptRunKeepsRules(cfg, families, actions);
    var s := Outcome(Initial(cfg, families), actions);
    if Holds(s, key) && s.clients[key].installed != {} && s.clients[key].address.addr == t.src
       && Consulted(KernelRules(s), t, r) {
      TrafficOfAddress(s, key, t, r);
      var k :| Sourced(s, k, t.src, r);
      assert r.table == s.clients[k].rtTable;
      forall k | Holds(s, k) && k != key && k.fam == key.fam ensures s.clients[k].rtTable != s.clients[key].rtTable {
        HoldersDiffer(s, k, key);
      }
    }
  }
}
