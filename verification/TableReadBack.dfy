/** When clients can tell their tables apart: replies carry table numbers that clients read as signed integers. */
module TableReadBack {
  import opened LeaseTypes
  import opened Words
  import opened ServerModel
  import opened ServerInvariant
  import opened ServerProperties
  import opened ServerRuns
  import opened LeaseSystem
  import opened SystemSafety
  import opened SystemRules
  import opened SystemTraces
  import C = ClientModel

  predicate Has(s: System, key: Key, table: u32) {
    key in s.clients && s.clients[key].rtTable == table && s.clients[key].leaseExpires > s.now
  }

  // The first n tables of the family are lent to the first n names.
  ghost predicate Lent(cfg: Config, server: Server, fam: Family, n: nat) {
    && Inv(cfg, server, 0) && ClockFits(cfg, 0) && fam in server.free && 32 <= cfg.numTables && n <= cfg.numTables
    && (forall t: u32 :: TableFree(cfg, server, fam, t) <==> cfg.InRange(t) && t >= cfg.offset + n)
    && (forall i | n <= i :: !HasRow(server.rows, Name(fam, i)))
  }

  lemma LendOne(cfg: Config, server: Server, fam: Family, n: nat) returns (server': Server)
    requires Lent(cfg, server, fam, n) && n < cfg.numTables
    ensures Lent(cfg, server', fam, n + 1)
    ensures ServerReplies(cfg, server, 0, Name(fam, n), server', Reply(cfg.offset + n, cfg.timeout))
  {
    var key := Name(fam, n);
    var table: u32 := cfg.offset + n;
    assert TableFree(cfg, server, fam, table);
    server' := GrantsLowest(cfg, server, 0, key, table);
    StepKeepsInv(cfg, server, Event(0, Message(key, CMD_REQ, IO_OK)));
    OthersKeepNoRow(server.rows, PrimaryKey(table, fam), Row(key.ifname, key.addr, cfg.timeout), n);
  }

  // ... and held by them.
  ghost predicate Filled(cfg: Config, s: System, fam: Family, n: nat) {
    && Typed(s) && s.cfg == cfg && s.now == 0 && s.queue == [] && Lent(cfg, s.server, fam, n)
    && (forall i | n <= i :: Name(fam, i) !in s.clients)
    && (forall i: nat | i < n :: Has(s, Name(fam, i), ReadInt(cfg.offset + i)))
  }

  lemma FillOne(cfg: Config, s: System, fam: Family, n: nat, address: C.Address) returns (actions: seq<Action>)
    requires Filled(cfg, s, fam, n) && n < cfg.numTables
    ensures Run(s, actions) && Filled(cfg, Outcome(s, actions), fam, n + 1)
  {
    var key := Name(fam, n);
    var server := LendOne(cfg, s.server, fam, n);
    actions := Leases(s, key, address, server, Reply(cfg.offset + n, cfg.timeout));
    var r := Outcome(s, actions);
    forall i: nat | i != n ensures Name(fam, i) != key {
      NamesDiffer(fam, i, n);
    }
    forall i: nat | i < n + 1 ensures Has(r, Name(fam, i), ReadInt(cfg.offset + i)) {
      assert i < n ==> Has(s, Name(fam, i), ReadInt(cfg.offset + i));
    }
  }

  lemma {:induction false} Fill(cfg: Config, s: System, fam: Family, n: nat, address: C.Address)
    returns (actions: seq<Action>)
    requires Filled(cfg, s, fam, n)
    ensures Run(s, actions) && Filled(cfg, Outcome(s, actions), fam, cfg.numTables)
    decreases cfg.numTables - n
  {
    if n == cfg.numTables {
      actions := [];
    } else {
      var first := FillOne(cfg, s, fam, n, address);
      var rest := Fill(cfg, Outcome(s, first), fam, n + 1, address);
      RunAppend(s, first, rest);
      actions := first + rest;
    }
  }

  lemma EmptyIsFilled(cfg: Config, families: set<Family>, fam: Family)
    requires cfg.Accepted() && families <= FAMILIES && ClockFits(cfg, 0) && fam in families && cfg.numTables >= 32
    ensures Filled(cfg, Initial(cfg, families), fam, 0)
  {
    var s := Initial(cfg, families);
    FreshAgrees(cfg, families);
    forall t: u32 ensures TableFree(cfg, s.server, fam, t) <==> cfg.InRange(t) && t >= cfg.offset {
      if cfg.InRange(t) {
        TableRoundTrip(cfg, t);
        assert WithinWords(cfg.Slot(t), cfg.Elements());
      }
    }
  }

  // The holders of the last two tables read one number, and one of the two has no row that names it.
  lemma LastTwoCollide(cfg: Config, s: System, fam: Family)
    requires cfg.Accepted() && Filled(cfg, s, fam, cfg.numTables) && !cfg.ReadsBack()
    ensures !Exclusive(s) && !Sound(s)
  {
    var n: nat := cfg.numTables - 1;
    var last, other := Name(fam, n), Name(fam, n - 1);
    assert Has(s, last, ReadInt(cfg.offset + n));
    assert Has(s, other, ReadInt(cfg.offset + (n - 1)));
    NamesDiffer(fam, n, n - 1);
    assert Holds(s, last) && Holds(s, other);
    assert s.clients[last].rtTable == s.clients[other].rtTable;
    var key := if Owns(s.server.rows, PrimaryKey(s.clients[last].rtTable, fam), last) then other else last;
    assert !Backed(s.server.rows, key, s.clients[key].rtTable, s.clients[key].leaseExpires, s.now);
  }

  // When the last table does not fit a signed integer, lending every table once ends there.
  lemma TablesCollide(cfg: Config, families: set<Family>, fam: Family, address: C.Address)
    returns (actions: seq<Action>)
    requires cfg.Accepted() && families <= FAMILIES && ClockFits(cfg, 0) && fam in families && !cfg.ReadsBack()
    ensures Run(Initial(cfg, families), actions)
    ensures var s := Outcome(Initial(cfg, families), actions); !Exclusive(s) && !Sound(s)
  {
    EmptyIsFilled(cfg, families, fam);
    actions := Fill(cfg, Initial(cfg, families), fam, 0, address);
    LastTwoCollide(cfg, Outcome(Initial(cfg, families), actions), fam);
  }

  ghost predicate ExclusiveAfter(cfg: Config, families: set<Family>, actions: seq<Action>)
    requires cfg.Accepted() && families <= FAMILIES && ClockFits(cfg, 0)
  {
    Run(Initial(cfg, families), actions) ==> Exclusive(Outcome(Initial(cfg, families), actions))
  }

  ghost predicate SoundAfter(cfg: Config, families: set<Family>, actions: seq<Action>)
    requires cfg.Accepted() && families <= FAMILIES && ClockFits(cfg, 0)
  {
    Run(Initial(cfg, families), actions) ==> Sound(Outcome(Initial(cfg, families), actions))
  }

  // Lease exclusion, and lease soundness, hold in every state of every run exactly when the last table number fits a
  // signed 32-bit integer, or there are too few tables for any to be lent.
  lemma ExclusionIff(cfg: Config, families: set<Family>)
    requires cfg.Accepted() && families <= FAMILIES && families != {} && ClockFits(cfg, 0)
    ensures cfg.ReadsBack() <==> forall actions :: ExclusiveAfter(cfg, families, actions)
    ensures cfg.ReadsBack() <==> forall actions :: SoundAfter(cfg, families, actions)
  {
    if cfg.ReadsBack() {
      forall actions ensures ExclusiveAfter(cfg, families, actions) && SoundAfter(cfg, families, actions) {
        if Run(Initial(cfg, families), actions) {
          LeaseExclusion(cfg, families, actions);
          LeaseSoundness(cfg, families, actions);
        }
      }
    } else {
      var fam :| fam in families;
      var actions := TablesCollide(cfg, families, fam, C.Address(0, 32, 0));
      assert !ExclusiveAfter(cfg, families, actions) && !SoundAfter(cfg, families, actions);
    }
  }
}
