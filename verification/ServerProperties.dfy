/** What a caller may rely on from one request, release or sweep, and where the code leaks a table. */
module ServerProperties {
  import opened LeaseTypes
  import opened ServerModel
  import opened ServerInvariant

  // The tables that can be handed out and are marked free.
  ghost predicate TableFree(cfg: Config, s: Server, fam: Family, table: u32) {
    fam in s.free && cfg.InRange(table) && cfg.Slot(table) as nat in s.free[fam]
  }

  // A key without a row is granted a table exactly when its family is enabled, the INSERT goes through and some
  // in-range table is marked free; it is the lowest such one, and no other bit or row changes.
  lemma Allotment(cfg: Config, s: Server, key: Key, now: nat, updated: bool, inserted: bool)
    requires cfg.Accepted() && RowsOk(cfg, s) && ClockFits(cfg, now) && !HasRow(s.rows, key)
    ensures var (s', reply) := Request(cfg, s, key, now, updated, inserted);
            && (reply.Some? <==> inserted && exists t :: TableFree(cfg, s, key.fam, t))
            && (reply.Some? ==>
                  var pk := PrimaryKey(reply.value.table, key.fam);
                  && TableFree(cfg, s, key.fam, pk.table) && !TableFree(cfg, s', key.fam, pk.table)
                  && (forall t | TableFree(cfg, s, key.fam, t) :: pk.table <= t)
                  && (forall f: Family, t: u32 | (f, t) != (key.fam, pk.table) ::
                        TableFree(cfg, s', f, t) <==> TableFree(cfg, s, f, t))
                  && s'.rows == s.rows[pk := Row(key.ifname, key.addr, now + cfg.timeout)]
                  && reply.value.expires == now + cfg.timeout)
  {
    ClockFacts(cfg, now);
    if key.fam in s.free && s.free[key.fam] != {} {
      AllotArithmetic(cfg, s.free, key.fam);
      var slot := Least(s.free[key.fam]);
      if slot < cfg.numTables {
        var table := cfg.TableAt(slot + 1);
        assert TableFree(cfg, s, key.fam, table);
        forall t | TableFree(cfg, s, key.fam, t) ensures table <= t {
          TableRoundTrip(cfg, t);
        }
        forall t: u32 | t != table ensures cfg.Slot(t) != cfg.Slot(table) {
          SlotInjective(cfg, t, table);
        }
      } else {
        forall t: u32 ensures !TableFree(cfg, s, key.fam, t) {
          if TableFree(cfg, s, key.fam, t) {
            TableRoundTrip(cfg, t);
          }
        }
      }
    }
  }

  // ... and while bitmap and unexpired rows agree, a row that it replaces had expired.
  lemma NewLease(cfg: Config, s: Server, key: Key, now: nat, updated: bool, inserted: bool)
    requires Inv(cfg, s, now) && ClockFits(cfg, now) && !HasRow(s.rows, key)
    ensures var (s', reply) := Request(cfg, s, key, now, updated, inserted);
            && (reply.Some? <==> inserted && exists t :: TableFree(cfg, s, key.fam, t))
            && (reply.Some? ==>
                  var pk := PrimaryKey(reply.value.table, key.fam);
                  && TableFree(cfg, s, key.fam, pk.table) && !TableFree(cfg, s', key.fam, pk.table)
                  && (forall t | TableFree(cfg, s, key.fam, t) :: pk.table <= t)
                  && (forall f: Family, t: u32 | (f, t) != (key.fam, pk.table) ::
                        TableFree(cfg, s', f, t) <==> TableFree(cfg, s, f, t))
                  && (pk in s.rows ==> s.rows[pk].expires <= now)
                  && s'.rows == s.rows[pk := Row(key.ifname, key.addr, now + cfg.timeout)]
                  && reply.value.expires == now + cfg.timeout)
  {
    Allotment(cfg, s, key, now, updated, inserted);
  }

  // A refused request for a new lease leaves every row and every in-range bit as it was.
  lemma RefusalRollsBack(cfg: Config, s: Server, key: Key, now: nat, updated: bool, inserted: bool)
    requires cfg.Accepted() && RowsOk(cfg, s) && !HasRow(s.rows, key)
    requires Request(cfg, s, key, now, updated, inserted).1 == None
    ensures var s' := Request(cfg, s, key, now, updated, inserted).0;
            && s'.rows == s.rows
            && (forall f, t :: TableFree(cfg, s', f, t) <==> TableFree(cfg, s, f, t))
            && (forall f | f in s.free :: exists padding :: padding >= cfg.numTables
                                            && s.free[f] - {padding} <= s'.free[f] <= s.free[f])
  {
    var s' := Request(cfg, s, key, now, updated, inserted).0;
    if key.fam in s.free && s.free[key.fam] != {} {
      var slot := Least(s.free[key.fam]);
      if slot >= cfg.numTables {
        forall f | f in s.free ensures s.free[f] - {slot} <= s'.free[f] <= s.free[f] {
        }
        forall t: u32 | cfg.InRange(t) ensures cfg.Slot(t) != slot {
          TableRoundTrip(cfg, t);
        }
      }
    }
    if s' == s {
      forall f | f in s.free ensures s.free[f] - {cfg.numTables} <= s'.free[f] <= s.free[f] {
      }
    }
  }

  // When no table is left but the last word still has a bit above the limit, each refused request takes the lowest one.
  lemma ExhaustionTakesPadding(cfg: Config, s: Server, key: Key, now: nat, updated: bool, inserted: bool)
    requires cfg.Accepted() && RowsOk(cfg, s) && !HasRow(s.rows, key)
    requires key.fam in s.free && s.free[key.fam] != {} && forall t :: !TableFree(cfg, s, key.fam, t)
    ensures var (s', reply) := Request(cfg, s, key, now, updated, inserted);
            && reply == None && s'.rows == s.rows
            && exists padding :: padding in s.free[key.fam] && padding >= cfg.numTables
                 && (forall x | x in s.free[key.fam] :: padding <= x)
                 && s'.free == s.free[key.fam := s.free[key.fam] - {padding}]
  {
    AllotArithmetic(cfg, s.free, key.fam);
    var slot := Least(s.free[key.fam]);
    if slot < cfg.numTables {
      assert TableFree(cfg, s, key.fam, cfg.TableAt(slot + 1));
    }
  }

  // A key that has a row keeps its table: a request answers with it, consumes no other, and only moves that row's
  // expiry.
  lemma RenewedTable(cfg: Config, s: Server, key: Key, now: nat, updated: bool, inserted: bool)
    requires cfg.Accepted() && RowsOk(cfg, s) && ClockFits(cfg, now) && HasRow(s.rows, key)
    ensures var (s', reply) := Request(cfg, s, key, now, updated, inserted);
            var pk := PrimaryKey(Lookup(s.rows, key), key.fam);
            && Owns(s.rows, pk, key) && Owns(s'.rows, pk, key) && Lookup(s'.rows, key) == pk.table
            && reply == (if updated then Some(Reply(pk.table, now + cfg.timeout)) else None)
            && s'.rows == (if updated then s.rows[pk := s.rows[pk].(expires := now + cfg.timeout)] else s.rows)
            && key.fam in s.free && s'.free == s.free[key.fam := s.free[key.fam] - {cfg.Slot(pk.table) as nat}]
            && (forall f: Family, t: u32 :: TableFree(cfg, s', f, t)
                               <==> TableFree(cfg, s, f, t) && (f, t) != (key.fam, pk.table))
  {
    ClockFacts(cfg, now);
    var pk := PrimaryKey(Lookup(s.rows, key), key.fam);
    assert Owns(s.rows, pk, key);
    RequestKeepsRows(cfg, s, key, now, updated, inserted);
    var s' := Request(cfg, s, key, now, updated, inserted).0;
    LookupIs(s'.rows, pk, key);
    forall t: u32 | t != pk.table ensures cfg.Slot(t) != cfg.Slot(pk.table) {
      SlotInjective(cfg, t, pk.table);
    }
  }

  // ... and while no expiry is further off than a new one would be, never back.
  lemma Renewal(cfg: Config, s: Server, key: Key, now: nat, updated: bool, inserted: bool)
    requires Inv(cfg, s, now) && ClockFits(cfg, now) && HasRow(s.rows, key)
    ensures var (s', reply) := Request(cfg, s, key, now, updated, inserted);
            var pk := PrimaryKey(Lookup(s.rows, key), key.fam);
            && Owns(s.rows, pk, key) && Owns(s'.rows, pk, key) && Lookup(s'.rows, key) == pk.table
            && reply == (if updated then Some(Reply(pk.table, now + cfg.timeout)) else None)
            && s'.rows == (if updated then s.rows[pk := s.rows[pk].(expires := now + cfg.timeout)] else s.rows)
            && s'.rows[pk].expires >= s.rows[pk].expires
            && (forall f: Family, t: u32 :: TableFree(cfg, s', f, t)
                               <==> TableFree(cfg, s, f, t) && (f, t) != (key.fam, pk.table))
  {
    RenewedTable(cfg, s, key, now, updated, inserted);
  }

  // Asking twice in one moment is asking once.
  lemma RequestTwiceIsOnce(cfg: Config, s: Server, key: Key, now: nat, updated: bool, inserted: bool)
    requires cfg.Accepted() && RowsOk(cfg, s) && ClockFits(cfg, now) && HasRow(s.rows, key)
    ensures var (s', reply) := Request(cfg, s, key, now, updated, inserted);
            Request(cfg, s', key, now, updated, inserted) == (s', reply)
  {
    RequestKeepsRows(cfg, s, key, now, updated, inserted);
    RenewedTable(cfg, s, key, now, updated, inserted);
    var s1 := Request(cfg, s, key, now, updated, inserted).0;
    RenewedTable(cfg, s1, key, now, updated, inserted);
    var s2 := Request(cfg, s1, key, now, updated, inserted).0;
    var slot := cfg.Slot(Lookup(s.rows, key)) as nat;
    assert s1.free[key.fam] - {slot} == s1.free[key.fam];
    assert s2.free == s1.free && s2.rows == s1.rows;
  }

  // After a sweep that went through and read all of them: no expired row is left, unexpired rows and their bits are
  // untouched, and exactly the tables of the expired rows have become free. Sweeping again at that time changes
  // nothing.
  lemma SweepIsExact(cfg: Config, s: Server, now: nat, read: set<PrimaryKey>)
    requires Inv(cfg, s, now) && ClockFits(cfg, now) && DeadKeys(s.rows, now) <= read
    ensures var s' := Sweep(cfg, s, now, read, true);
            && (forall pk :: pk in s'.rows <==> pk in s.rows && s.rows[pk].expires > now)
            && (forall pk | pk in s'.rows :: s'.rows[pk] == s.rows[pk] && !TableFree(cfg, s', pk.fam, pk.table))
            && (forall f, t :: TableFree(cfg, s', f, t) <==>
                  || TableFree(cfg, s, f, t)
                  || (PrimaryKey(t, f) in s.rows && s.rows[PrimaryKey(t, f)].expires <= now))
            && forall again, deleted :: Sweep(cfg, s', now, again, deleted) == s'
  {
    ClockFacts(cfg, now);
    var s' := Sweep(cfg, s, now, read, true);
    forall f, t: u32 ensures TableFree(cfg, s', f, t) <==>
                               || TableFree(cfg, s, f, t)
                               || (PrimaryKey(t, f) in s.rows && s.rows[PrimaryKey(t, f)].expires <= now)
    {
      SweptTable(cfg, s, now, read, true, f, t);
    }
    SweepKeepsInv(cfg, s, now, read, true);
    assert DeadKeys(s'.rows, now) == {};
    assert Alive(s'.rows, now) == s'.rows;
    forall again, deleted ensures Sweep(cfg, s', now, again, deleted) == s' {
      assert again * DeadKeys(s'.rows, now) == {};
      NothingFreed(cfg, s'.free);
    }
  }

  // A sweep frees exactly the tables of the expired rows that it read.
  lemma SweptTable(cfg: Config, s: Server, now: nat, read: set<PrimaryKey>, deleted: bool, f: Family, t: u32)
    requires cfg.Accepted() && RowsOk(cfg, s) && ClockFits(cfg, now)
    ensures TableFree(cfg, Sweep(cfg, s, now, read, deleted), f, t) <==>
              || TableFree(cfg, s, f, t)
              || (PrimaryKey(t, f) in read && PrimaryKey(t, f) in s.rows && s.rows[PrimaryKey(t, f)].expires <= now)
  {
    ClockFacts(cfg, now);
    var dead := read * DeadKeys(s.rows, now);
    if PrimaryKey(t, f) in dead {
      assert cfg.Slot(PrimaryKey(t, f).table) as nat in SlotsOf(cfg, dead, f);
    }
    if cfg.Slot(t) as nat in SlotsOf(cfg, dead, f) {
      var pk :| pk in dead && pk.fam == f && cfg.Slot(pk.table) == cfg.Slot(t);
      SlotInjective(cfg, pk.table, t);
    }
  }

  // The 32-bit column is why the clock must fit: a lease granted at this time is already dead exactly when it
  // does not.
  lemma FreshLeaseIsDeadIff(cfg: Config, ifname: string, addr: string, now: nat)
    requires cfg.Accepted() && now < 0x8000_0000
    ensures Dead(Row(ifname, addr, Int32(now + cfg.timeout)), now) <==> !ClockFits(cfg, now)
  {
  }

  // No in-range table is marked taken without a row.
  ghost predicate NoLeak(cfg: Config, s: Server) {
    forall f, t: u32 | f in s.free && cfg.InRange(t) && !TableFree(cfg, s, f, t) :: PrimaryKey(t, f) in s.rows
  }

  // A release that goes through for a row whose bit is already free: the guard that handle_release does not have.
  ghost predicate StaleRelease(cfg: Config, s: Server, op: Op) {
    && op.Message? && op.cmd == CMD_REL && op.io.removed
    && HasRow(s.rows, op.key) && TableFree(cfg, s, op.key.fam, Lookup(s.rows, op.key))
  }

  // A sweep that deletes an expired row which its result loop did not get to, while the table is marked taken.
  ghost predicate LossySweep(cfg: Config, s: Server, now: nat, op: Op) {
    && op.SweepOp? && op.deleted
    && exists pk :: pk in s.rows && s.rows[pk].expires <= now && pk !in op.read && !TableFree(cfg, s, pk.fam, pk.table)
  }

  // The steps that lose a table.
  ghost predicate LosesTable(cfg: Config, s: Server, e: Event) {
    StaleRelease(cfg, s, e.op) || LossySweep(cfg, s, e.now, e.op)
  }

  // A release that goes through removes exactly the key's row and flips exactly its table's bit, which frees the table
  // provided that it was marked taken.
  lemma ReleaseIsExact(cfg: Config, s: Server, key: Key)
    requires cfg.Accepted() && RowsOk(cfg, s) && HasRow(s.rows, key)
    ensures var (s', done) := Release(cfg, s, key, true);
            var pk := PrimaryKey(Lookup(s.rows, key), key.fam);
            && done && !HasRow(s'.rows, key) && s'.rows == s.rows - {pk}
            && (forall f: Family, t: u32 | (f, t) != (key.fam, pk.table) ::
                  TableFree(cfg, s', f, t) <==> TableFree(cfg, s, f, t))
            && (TableFree(cfg, s', key.fam, pk.table) <==> !TableFree(cfg, s, key.fam, pk.table))
  {
    var pk := PrimaryKey(Lookup(s.rows, key), key.fam);
    assert Owns(s.rows, pk, key);
    forall t: u32 | t != pk.table ensures cfg.Slot(t) != cfg.Slot(pk.table) {
      SlotInjective(cfg, t, pk.table);
    }
  }

  // Releasing again succeeds and changes nothing.
  lemma ReleaseTwiceIsOnce(cfg: Config, s: Server, key: Key, again: bool)
    requires cfg.Accepted() && RowsOk(cfg, s)
    ensures var s' := Release(cfg, s, key, true).0;
            RowsOk(cfg, s') && Release(cfg, s', key, again) == (s', true)
  {
    ReleaseKeepsRows(cfg, s, key, true);
    if HasRow(s.rows, key) {
      ReleaseIsExact(cfg, s, key);
    }
  }

  lemma MessageLeaksIff(cfg: Config, s: Server, key: Key, cmd: nat, now: nat, io: Io)
    requires cfg.Accepted() && RowsOk(cfg, s) && ClockFits(cfg, now) && NoLeak(cfg, s)
    ensures NoLeak(cfg, Serve(cfg, s, key, cmd, now, io).0) <==> !StaleRelease(cfg, s, Message(key, cmd, io))
  {
    var s' := Serve(cfg, s, key, cmd, now, io).0;
    if cmd == CMD_REQ {
      if HasRow(s.rows, key) {
        RenewedTable(cfg, s, key, now, io.updated, io.inserted);
      } else {
        Allotment(cfg, s, key, now, io.updated, io.inserted);
        if Request(cfg, s, key, now, io.updated, io.inserted).1 == None {
          RefusalRollsBack(cfg, s, key, now, io.updated, io.inserted);
        }
      }
    } else if cmd == CMD_REL && HasRow(s.rows, key) && io.removed {
      ReleaseIsExact(cfg, s, key);
      var pk := PrimaryKey(Lookup(s.rows, key), key.fam);
      assert Owns(s.rows, pk, key);
      assert pk !in s'.rows;
    }
  }

  // A sweep leaves a table marked taken without a row exactly when its DELETE removes a row that the loop missed.
  lemma SweepLeaksIff(cfg: Config, s: Server, now: nat, read: set<PrimaryKey>, deleted: bool)
    requires cfg.Accepted() && RowsOk(cfg, s) && ClockFits(cfg, now) && NoLeak(cfg, s)
    ensures NoLeak(cfg, Sweep(cfg, s, now, read, deleted)) <==> !LossySweep(cfg, s, now, SweepOp(read, deleted))
  {
    ClockFacts(cfg, now);
    var s' := Sweep(cfg, s, now, read, deleted);
    forall f, t: u32 | f in s.free && cfg.InRange(t)
      ensures !TableFree(cfg, s', f, t) && PrimaryKey(t, f) !in s'.rows <==>
                && deleted && PrimaryKey(t, f) in s.rows && s.rows[PrimaryKey(t, f)].expires <= now
                && PrimaryKey(t, f) !in read && !TableFree(cfg, s, f, t)
    {
      SweptTable(cfg, s, now, read, deleted, f, t);
    }
    if LossySweep(cfg, s, now, SweepOp(read, deleted)) {
      var pk :| pk in s.rows && s.rows[pk].expires <= now && pk !in read && !TableFree(cfg, s, pk.fam, pk.table);
      assert pk == PrimaryKey(pk.table, pk.fam);
    }
  }

  lemma StartHasNoLeak(cfg: Config, families: set<Family>, rows: Rows, now: nat, read: set<PrimaryKey>)
    requires cfg.Accepted() && ClockFits(cfg, now)
    ensures NoLeak(cfg, Start(cfg, families, rows, now, read))
  {
    var s := Start(cfg, families, rows, now, read);
    forall f, t: u32 | f in s.free && cfg.InRange(t) && !TableFree(cfg, s, f, t)
      ensures PrimaryKey(t, f) in s.rows
    {
      TableRoundTrip(cfg, t);
      StartRebuilds(cfg, families, rows, now, read, f, cfg.Slot(t));
      var pk :| pk in rows && pk.fam == f && cfg.Slot(pk.table) == cfg.Slot(t);
      SlotInjective(cfg, pk.table, t);
    }
  }

  // How a stale release comes about: a start-up finds the key's row expired, or does not find it, and leaves its table
  // free.
  lemma RestartMakesStale(cfg: Config, s: Server, pk: PrimaryKey, now: nat, read: set<PrimaryKey>, io: Io)
    requires cfg.Accepted() && RowsOk(cfg, s) && ClockFits(cfg, now) && pk in s.rows && io.removed
    ensures StaleRelease(cfg, Start(cfg, s.free.Keys, s.rows, now, read), Message(KeyOf(pk, s.rows[pk]), CMD_REL, io))
            <==> s.rows[pk].expires <= now || pk !in read
  {
    RowIsRebuiltIff(cfg, s, now, read, pk);
    LookupIs(s.rows, pk, KeyOf(pk, s.rows[pk]));
  }

  // ... and so does a sweep whose DELETE failed: the row stays, its table is free.
  lemma FailedSweepMakesStale(cfg: Config, s: Server, pk: PrimaryKey, now: nat, read: set<PrimaryKey>, io: Io)
    requires cfg.Accepted() && RowsOk(cfg, s) && ClockFits(cfg, now) && pk in s.rows && io.removed
    ensures StaleRelease(cfg, Sweep(cfg, s, now, read, false), Message(KeyOf(pk, s.rows[pk]), CMD_REL, io))
            <==> TableFree(cfg, s, pk.fam, pk.table) || (s.rows[pk].expires <= now && pk in read)
  {
    LookupIs(s.rows, pk, KeyOf(pk, s.rows[pk]));
    SweptTable(cfg, s, now, read, false, pk.fam, pk.table);
    assert PrimaryKey(pk.table, pk.fam) == pk;
  }

  // Of all steps, exactly the stale release and the sweep that deletes what it has not read mark a table taken that
  // has no row.
  lemma StepLeaksIff(cfg: Config, s: Server, e: Event)
    requires cfg.Accepted() && RowsOk(cfg, s) && ClockFits(cfg, e.now) && NoLeak(cfg, s)
    ensures NoLeak(cfg, Apply(cfg, s, e).0) <==> !LosesTable(cfg, s, e)
  {
    match e.op
    case Message(key, cmd, io) =>
      MessageLeaksIff(cfg, s, key, cmd, e.now, io);
    case SweepOp(read, deleted) =>
      SweepLeaksIff(cfg, s, e.now, read, deleted);
    case Restart(read) =>
      StartHasNoLeak(cfg, s.free.Keys, s.rows, e.now, read);
  }

  ghost function FreeTables(cfg: Config, s: Server, fam: Family): set<u32> {
    set t: u32 | cfg.offset <= t < cfg.offset + cfg.numTables && TableFree(cfg, s, fam, t)
  }

  ghost function HeldRows(cfg: Config, s: Server, fam: Family): set<PrimaryKey> {
    set pk | pk in s.rows && pk.fam == fam && !TableFree(cfg, s, fam, pk.table)
  }

  ghost function TablesFrom(first: u32, n: nat): (r: set<u32>)
    requires first + n <= 0x1_0000_0000
    ensures |r| == n && forall t: u32 :: t in r <==> first <= t < first + n
  {
    if n == 0 then {} else
      assert first + n - 1 !in TablesFrom(first, n - 1);
      TablesFrom(first, n - 1) + {first + n - 1}
  }

  lemma {:induction false} DistinctTables(pks: set<PrimaryKey>, fam: Family)
    requires forall pk | pk in pks :: pk.fam == fam
    ensures |TablesOf(pks)| == |pks|
  {
    if pks == {} {
      assert TablesOf(pks) == {};
    } else {
      var p :| p in pks;
      DistinctTables(pks - {p}, fam);
      assert TablesOf(pks) == TablesOf(pks - {p}) + {p.table};
      assert p.table !in TablesOf(pks - {p});
    }
  }

  ghost predicate Conserved(cfg: Config, s: Server) {
    forall f | f in s.free :: |FreeTables(cfg, s, f)| + |HeldRows(cfg, s, f)| == cfg.numTables
  }

  // Conservation: free tables plus rows that hold theirs make up all the tables of an enabled family, exactly as
  // long as nothing has leaked.
  lemma ConservationIff(cfg: Config, s: Server)
    requires cfg.Accepted() && RowsOk(cfg, s) && cfg.numTables >= 32
    ensures NoLeak(cfg, s) <==> Conserved(cfg, s)
  {
    forall f | f in s.free
      ensures |FreeTables(cfg, s, f)| + |HeldRows(cfg, s, f)| == cfg.numTables
              <==> forall t: u32 | cfg.InRange(t) && !TableFree(cfg, s, f, t) :: PrimaryKey(t, f) in s.rows
    {
      FamilyConservation(cfg, s, f);
    }
    if Conserved(cfg, s) {
      forall f, t: u32 | f in s.free && cfg.InRange(t) && !TableFree(cfg, s, f, t)
        ensures PrimaryKey(t, f) in s.rows
      {
        assert |FreeTables(cfg, s, f)| + |HeldRows(cfg, s, f)| == cfg.numTables;
      }
    }
  }

  lemma CountIff(all: set<u32>, a: set<u32>, b: set<u32>)
    requires a !! b && a + b <= all
    ensures |a| + |b| == |all| <==> a + b == all
  {
    assert |a + b| == |a| + |b|;
    assert |all - (a + b)| == |all| - |a + b|;
    if a + b != all {
      var t :| t in all - (a + b);
    }
  }

  ghost function TablesOf(pks: set<PrimaryKey>): set<u32> {
    set pk | pk in pks :: pk.table
  }

  lemma HeldTable(cfg: Config, s: Server, f: Family, t: u32)
    ensures t in TablesOf(HeldRows(cfg, s, f)) <==> PrimaryKey(t, f) in s.rows && !TableFree(cfg, s, f, t)
  {
    if PrimaryKey(t, f) in s.rows && !TableFree(cfg, s, f, t) {
      assert PrimaryKey(t, f) in HeldRows(cfg, s, f);
    }
  }

  lemma HeldTables(cfg: Config, s: Server, f: Family, all: set<u32>)
    requires RowsOk(cfg, s) && f in s.free
    requires forall t: u32 :: t in all <==> cfg.InRange(t)
    ensures var (free, held) := (FreeTables(cfg, s, f), TablesOf(HeldRows(cfg, s, f)));
            && free !! held && free + held <= all
            && (free + held == all
                <==> forall t: u32 | cfg.InRange(t) && !TableFree(cfg, s, f, t) :: PrimaryKey(t, f) in s.rows)
  {
    forall t: u32
      ensures t in TablesOf(HeldRows(cfg, s, f)) <==> PrimaryKey(t, f) in s.rows && !TableFree(cfg, s, f, t)
    {
      HeldTable(cfg, s, f, t);
    }
    assert forall t: u32 :: t in FreeTables(cfg, s, f) <==> TableFree(cfg, s, f, t);
  }

  lemma FamilyConservation(cfg: Config, s: Server, f: Family)
    requires cfg.Accepted() && RowsOk(cfg, s) && cfg.numTables >= 32 && f in s.free
    ensures |FreeTables(cfg, s, f)| + |HeldRows(cfg, s, f)| == cfg.numTables
            <==> forall t: u32 | cfg.InRange(t) && !TableFree(cfg, s, f, t) :: PrimaryKey(t, f) in s.rows
  {
    WordsCoverTables(cfg);
    var all := TablesFrom(cfg.offset, cfg.numTables);
    DistinctTables(HeldRows(cfg, s, f), f);
    HeldTables(cfg, s, f, all);
    CountIff(all, FreeTables(cfg, s, f), TablesOf(HeldRows(cfg, s, f)));
  }

  lemma StillNoRow(rows: Rows, later: Rows, key: Key)
    requires !HasRow(rows, key) && forall pk | pk in later :: pk in rows && KeyOf(pk, later[pk]) == KeyOf(pk, rows[pk])
    ensures !HasRow(later, key)
  {
    forall pk | Owns(later, pk, key) ensures false {
      assert Owns(rows, pk, key);
    }
  }

  // A release lends the table on to the next new request when no lower one is free.
  lemma ReleaseThenLend(cfg: Config, s: Server, k1: Key, k2: Key, now: nat)
    requires cfg.Accepted() && RowsOk(cfg, s) && ClockFits(cfg, now)
    requires HasRow(s.rows, k1) && !HasRow(s.rows, k2) && k1.fam == k2.fam
    requires !TableFree(cfg, s, k1.fam, Lookup(s.rows, k1))
    requires forall t | TableFree(cfg, s, k1.fam, t) :: Lookup(s.rows, k1) <= t
    ensures var (s', done) := Release(cfg, s, k1, true);
            done && Request(cfg, s', k2, now, true, true).1 == Some(Reply(Lookup(s.rows, k1), now + cfg.timeout))
  {
    ReleaseIsExact(cfg, s, k1);
    ReleaseKeepsRows(cfg, s, k1, true);
    var s' := Release(cfg, s, k1, true).0;
    StillNoRow(s.rows, s'.rows, k2);
    Allotment(cfg, s', k2, now, true, true);
    assert TableFree(cfg, s', k1.fam, Lookup(s.rows, k1));
  }

  // Serving a request and the release of one key, and then a new request of another, lends the same table twice
  // within one moment. The first key must not get to see its reply any more.
  lemma ReleaseLendsOn(cfg: Config, s: Server, k1: Key, k2: Key, now: nat, io: Io)
    requires cfg.Accepted() && RowsOk(cfg, s) && ClockFits(cfg, now) && io == Io(true, true, true)
    requires HasRow(s.rows, k1) && !HasRow(s.rows, k2) && k1.fam == k2.fam
    requires forall t | TableFree(cfg, s, k1.fam, t) :: Lookup(s.rows, k1) <= t
    ensures var table := Lookup(s.rows, k1);
            var (s1, r1) := Request(cfg, s, k1, now, true, true);
            && RowsOk(cfg, s1) && r1 == Some(Reply(table, now + cfg.timeout))
            && var (s2, done) := Release(cfg, s1, k1, true);
               && done
               && Request(cfg, s2, k2, now, true, true).1 == Some(Reply(table, now + cfg.timeout))
  {
    RenewedTable(cfg, s, k1, now, true, true);
    RequestKeepsRows(cfg, s, k1, now, true, true);
    var s1 := Request(cfg, s, k1, now, true, true).0;
    StillNoRow(s.rows, s1.rows, k2);
    ReleaseThenLend(cfg, s1, k1, k2, now);
  }

  // On the wire a request is 0 and a release 1. A release is answered with table 0, and only when the key has no row
  // afterwards; what is neither changes nothing and is not answered.
  lemma CommandNumbers(cfg: Config, s: Server, key: Key, cmd: nat, now: nat, io: Io)
    requires cfg.Accepted() && RowsOk(cfg, s) && ClockFits(cfg, now)
    ensures var (s', reply) := Serve(cfg, s, key, cmd, now, io);
            && (cmd == 0 ==> (s', reply) == Request(cfg, s, key, now, io.updated, io.inserted)
                             && (reply.Some? ==> HasRow(s'.rows, key) && reply.value.table == Lookup(s'.rows, key)))
            && (cmd == 1 ==> (reply.Some? <==> !HasRow(s'.rows, key)) && (reply.Some? ==> reply.value == Reply(0, 0)))
            && (cmd > 1 ==> s' == s && reply == None)
  {
    if cmd == 0 {
      RequestKeepsRows(cfg, s, key, now, io.updated, io.inserted);
      if HasRow(s.rows, key) {
        RenewedTable(cfg, s, key, now, io.updated, io.inserted);
      } else {
        Allotment(cfg, s, key, now, io.updated, io.inserted);
        var (s', reply) := Request(cfg, s, key, now, io.updated, io.inserted);
        if reply.Some? {
          LookupIs(s'.rows, PrimaryKey(reply.value.table, key.fam), key);
        }
      }
    } else if cmd == 1 && HasRow(s.rows, key) && io.removed {
      ReleaseIsExact(cfg, s, key);
    }
  }
}
