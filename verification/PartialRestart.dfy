/** Why a restarting server must come to every unexpired row: a lease that it misses is lent again. */
module PartialRestart {
  import opened LeaseTypes
  import opened ServerModel
  import opened ServerInvariant
  import opened ServerProperties
  import opened LeaseSystem
  import opened SystemSafety
  import opened SystemTraces
  import C = ClientModel

  ghost function Restarted(s: System, read: set<PrimaryKey>): (r: System)
    requires Typed(s)
    ensures Typed(r)
  {
    Next(s, Action.Restart(read))
  }

  // One of the names from n on.
  predicate IsName(key: Key, fam: Family, n: nat) {
    |key.addr| >= n && key == Name(fam, |key.addr|)
  }

  // Past some length no name is taken.
  lemma {:induction false} UnusedNames(keys: set<Key>, fam: Family) returns (n: nat)
    ensures forall key | key in keys :: !IsName(key, fam, n)
  {
    if keys == {} {
      n := 0;
    } else {
      var key :| key in keys;
      var m := UnusedNames(keys - {key}, fam);
      n := if m > |key.addr| then m else |key.addr| + 1;
      forall k | k in keys ensures !IsName(k, fam, n) {
        assert k == key || k in keys - {key};
      }
    }
  }

  ghost function RowKeys(rows: Rows): set<Key> {
    set pk | pk in rows :: KeyOf(pk, rows[pk])
  }

  // The table is marked free, whoever has it, and no free table of its family is below low. The names from n on are
  // new.
  ghost predicate Lurking(s: System, pk: PrimaryKey, low: nat, n: nat) {
    && Typed(s) && ClockFits(s.cfg, s.now) && s.queue == []
    && TableFree(s.cfg, s.server, pk.fam, pk.table)
    && (forall t | TableFree(s.cfg, s.server, pk.fam, t) :: low <= t)
    && (forall i | n <= i :: Name(pk.fam, i) !in s.clients && !HasRow(s.server.rows, Name(pk.fam, i)))
  }

  // The others' clients are left alone, and no row is written but for new names.
  ghost predicate Undisturbed(s: System, t: System, fam: Family, n: nat) {
    && t.cfg == s.cfg && t.now == s.now
    && (forall k | k in s.clients :: k in t.clients && t.clients[k] == s.clients[k])
    && (forall q | q in t.server.rows && !IsName(KeyOf(q, t.server.rows[q]), fam, n) ::
          q in s.server.rows && s.server.rows[q] == t.server.rows[q])
  }

  // The new key holds an unexpired lease of the table.
  ghost predicate Took(t: System, pk: PrimaryKey, key: Key) {
    && Owns(t.server.rows, pk, key) && Holds(t, key) && t.clients[key].rtTable == ReadInt(pk.table)
  }

  lemma LendLowest(s: System, pk: PrimaryKey, low: nat, n: nat, address: C.Address)
    returns (actions: seq<Action>, table: u32)
    requires Lurking(s, pk, low, n)
    ensures low <= table <= pk.table && Run(s, actions)
    ensures var t := Outcome(s, actions);
            && Undisturbed(s, t, pk.fam, n)
            && (if table == pk.table then Took(t, pk, Name(pk.fam, n)) else Lurking(t, pk, table + 1, n + 1))
  {
    var key := Name(pk.fam, n);
    table := Lowest(s.cfg, s.server, pk.fam, pk.table);
    var server := GrantsLowest(s.cfg, s.server, s.now, key, table);
    var reply := Reply(table, s.now + s.cfg.timeout);
    actions := Leases(s, key, address, server, reply);
    StillLurking(s, Leased(s, key, address, server, reply), pk, low, n, table);
  }

  // One new name has been lent the lowest free table.
  lemma StillLurking(s: System, t: System, pk: PrimaryKey, low: nat, n: nat, table: u32)
    requires Lurking(s, pk, low, n) && Typed(t) && t.cfg == s.cfg && t.now == s.now && t.queue == []
    requires table <= pk.table && forall other | TableFree(s.cfg, s.server, pk.fam, other) :: table <= other
    requires var key := Name(pk.fam, n);
             && t.server.rows == s.server.rows[PrimaryKey(table, pk.fam) :=
                                                 Row(key.ifname, key.addr, s.now + s.cfg.timeout)]
             && key in t.clients && t.clients == s.clients[key := t.clients[key]]
    requires forall other: u32 :: TableFree(s.cfg, t.server, pk.fam, other)
                                  <==> TableFree(s.cfg, s.server, pk.fam, other) && other != table
    ensures Undisturbed(s, t, pk.fam, n)
    ensures table < pk.table ==> Lurking(t, pk, table + 1, n + 1)
  {
    var key := Name(pk.fam, n);
    OthersKeepNoRow(s.server.rows, PrimaryKey(table, pk.fam), Row(key.ifname, key.addr, s.now + s.cfg.timeout), n);
    forall i | n + 1 <= i ensures Name(pk.fam, i) !in t.clients {
      NamesDiffer(pk.fam, i, n);
    }
    assert IsName(key, pk.fam, n);
  }

  lemma {:induction false} Lowest(cfg: Config, server: Server, fam: Family, table: u32) returns (lowest: u32)
    requires TableFree(cfg, server, fam, table)
    ensures TableFree(cfg, server, fam, lowest) && forall t | TableFree(cfg, server, fam, t) :: lowest <= t
    decreases table
  {
    if t: u32 :| TableFree(cfg, server, fam, t) && t < table {
      lowest := Lowest(cfg, server, fam, t);
    } else {
      lowest := table;
    }
  }

  // Lending to one new client after the other comes to the table.
  lemma {:induction false} LendUntil(s: System, pk: PrimaryKey, low: nat, n: nat, address: C.Address)
    returns (actions: seq<Action>, key: Key)
    requires Lurking(s, pk, low, n)
    ensures Run(s, actions) && IsName(key, pk.fam, n)
    ensures Undisturbed(s, Outcome(s, actions), pk.fam, n) && Took(Outcome(s, actions), pk, key)
    decreases pk.table - low
  {
    var first, table := LendLowest(s, pk, low, n, address);
    var m := Outcome(s, first);
    if table == pk.table {
      actions, key := first, Name(pk.fam, n);
    } else {
      var rest;
      rest, key := LendUntil(m, pk, table + 1, n + 1, address);
      actions := RunThen(s, first, m, rest, Outcome(m, rest));
    }
  }

  // A row that the start-up does not come to, expired or not, is lent again: some run from there on grants its table
  // to a new key in its place and lets a client of that key hold it, while the clients that there were go on.
  lemma UnreadRowIsLentAgain(s: System, read: set<PrimaryKey>, pk: PrimaryKey, address: C.Address)
    returns (actions: seq<Action>, key: Key)
    requires Typed(s) && ClockFits(s.cfg, s.now) && pk in s.server.rows && pk !in read
    ensures Run(Restarted(s, read), actions)
    ensures var t := Outcome(Restarted(s, read), actions);
            var owner := KeyOf(pk, s.server.rows[pk]);
            && key != owner && Took(t, pk, key) && !HasRow(t.server.rows, owner) && key !in s.clients
            && (forall k | k in s.clients :: k in t.clients && t.clients[k] == s.clients[k]) && t.now == s.now
  {
    var r := Restarted(s, read);
    var owner := KeyOf(pk, s.server.rows[pk]);
    RowIsRebuiltIff(s.cfg, s.server, s.now, read, pk);
    assert TableFree(r.cfg, r.server, pk.fam, pk.table);
    var n := UnusedNames(s.clients.Keys + RowKeys(s.server.rows), pk.fam);
    assert owner in RowKeys(s.server.rows);
    forall i | n <= i ensures Name(pk.fam, i) !in s.clients && !HasRow(s.server.rows, Name(pk.fam, i)) {
      assert IsName(Name(pk.fam, i), pk.fam, n);
      forall q ensures !Owns(s.server.rows, q, Name(pk.fam, i)) {
        assert q in s.server.rows ==> KeyOf(q, s.server.rows[q]) in RowKeys(s.server.rows);
      }
    }
    actions, key := LendUntil(r, pk, 0, n, address);
    var t := Outcome(r, actions);
    assert Owns(s.server.rows, pk, owner) && Owns(t.server.rows, pk, key);
    assert forall q :: Owns(t.server.rows, q, owner) ==> Owns(s.server.rows, q, owner);
  }

  // If that is the row of a lease that a client holds, two clients end up holding unexpired leases of one table.
  lemma UnreadLeaseIsShared(s: System, read: set<PrimaryKey>, key: Key) returns (actions: seq<Action>)
    requires SystemInv(s) && Holds(s, key) && PrimaryKey(s.clients[key].rtTable, key.fam) !in read
    ensures Run(Restarted(s, read), actions) && !Exclusive(Outcome(Restarted(s, read), actions))
  {
    assert ClientOk(s, key);
    var pk := PrimaryKey(s.clients[key].rtTable, key.fam);
    ReadBackIff(s.cfg);
    var other;
    actions, other := UnreadRowIsLentAgain(s, read, pk, C.Address(0, 32, 0));
    var t := Outcome(Restarted(s, read), actions);
    assert Holds(t, key) && Holds(t, other) && t.clients[key].rtTable == t.clients[other].rtTable;
  }

  ghost predicate ExclusiveFrom(s: System, actions: seq<Action>)
    requires Typed(s)
  {
    Run(s, actions) ==> Exclusive(Outcome(s, actions))
  }

  // Every unexpired row is the lease of a client that holds it.
  ghost predicate AllHeld(s: System) {
    forall pk | pk in s.server.rows && s.server.rows[pk].expires > s.now ::
      var key := KeyOf(pk, s.server.rows[pk]);
      Holds(s, key) && s.clients[key].rtTable == pk.table
  }

  // While every unexpired lease is held by its client, exclusion survives a restart, in every state of every run from
  // there on, exactly when the start-up came to every unexpired row.
  lemma RestartIsSafeIff(s: System, read: set<PrimaryKey>)
    requires SystemInv(s) && AllHeld(s)
    ensures AliveRead(s.server.rows, s.now, read) <==>
              forall actions :: ExclusiveFrom(Restarted(s, read), actions)
  {
    var r := Restarted(s, read);
    if AliveRead(s.server.rows, s.now, read) {
      NextKeepsInv(s, Action.Restart(read));
      forall actions ensures ExclusiveFrom(r, actions) {
        if Run(r, actions) {
          RunKeepsSystemInv(r, actions);
          InvIsExclusive(Outcome(r, actions));
        }
      }
    } else {
      var pk :| pk in s.server.rows && s.server.rows[pk].expires > s.now && pk !in read;
      var actions := UnreadLeaseIsShared(s, read, KeyOf(pk, s.server.rows[pk]));
      assert !ExclusiveFrom(r, actions);
    }
  }
}
