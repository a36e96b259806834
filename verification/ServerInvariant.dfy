/** What every server step keeps: the bitmap agrees with the live leases. */
module ServerInvariant {
  import opened LeaseTypes
  import opened Words
  import opened ServerModel

  datatype Op =
    | Message(key: Key, cmd: nat, io: Io)
    | SweepOp(read: set<PrimaryKey>, deleted: bool)
    | Restart(read: set<PrimaryKey>)

  datatype Event = Event(now: nat, op: Op)

  ghost function Apply(cfg: Config, s: Server, e: Event): (r: (Server, Option<Reply>))
    requires cfg.Accepted() && RowsOk(cfg, s)
    ensures RowsOk(cfg, r.0) && r.0.free.Keys == s.free.Keys
  {
    match e.op
    case Message(key, cmd, io) =>
      RequestKeepsRows(cfg, s, key, e.now, io.updated, io.inserted);
      ReleaseKeepsRows(cfg, s, key, io.removed);
      Serve(cfg, s, key, cmd, e.now, io)
    case SweepOp(read, deleted) =>
      SweepKeepsRows(cfg, s, e.now, read, deleted);
      (Sweep(cfg, s, e.now, read, deleted), None)
    case Restart(read) =>
      StartKeepsRows(cfg, s, e.now, read);
      (Start(cfg, s.free.Keys, s.rows, e.now, read), None)
  }

  // The bit of every unexpired row is clear.
  ghost predicate LiveTaken(cfg: Config, s: Server, now: nat) {
    forall pk | pk in s.rows && s.rows[pk].expires > now && pk.fam in s.free ::
      cfg.Slot(pk.table) as nat !in s.free[pk.fam]
  }

  ghost predicate ExpiryBound(cfg: Config, s: Server, now: nat) {
    forall pk | pk in s.rows :: s.rows[pk].expires <= now + cfg.timeout
  }

  ghost predicate Inv(cfg: Config, s: Server, now: nat) {
    cfg.Accepted() && RowsOk(cfg, s) && LiveTaken(cfg, s, now) && ExpiryBound(cfg, s, now)
  }

  lemma InvAges(cfg: Config, s: Server, now: nat, later: nat)
    requires Inv(cfg, s, now) && now <= later
    ensures Inv(cfg, s, later)
  {
  }

  lemma ClockFacts(cfg: Config, now: nat)
    requires ClockFits(cfg, now)
    ensures Int32(now) == now && Int32(now + cfg.timeout) == Wrap32(now + cfg.timeout) == now + cfg.timeout
  {
  }

  // Taking slots and giving fresh expiries to one row whose slot is taken keeps the agreement.
  lemma GrantKeepsAgreement(cfg: Config, s: Server, s': Server, pk: PrimaryKey, now: nat)
    requires LiveTaken(cfg, s, now) && ExpiryBound(cfg, s, now)
    requires s'.free.Keys == s.free.Keys && forall f | f in s.free :: s'.free[f] <= s.free[f]
    requires forall q | q in s'.rows && q != pk :: q in s.rows && s'.rows[q] == s.rows[q]
    requires pk in s'.rows ==> s'.rows[pk].expires <= now + cfg.timeout
    requires pk.fam in s'.free ==> cfg.Slot(pk.table) as nat !in s'.free[pk.fam]
    ensures LiveTaken(cfg, s', now) && ExpiryBound(cfg, s', now)
  {
  }

  lemma RequestKeepsInv(cfg: Config, s: Server, key: Key, now: nat, updated: bool, inserted: bool)
    requires Inv(cfg, s, now) && ClockFits(cfg, now)
    ensures Inv(cfg, Request(cfg, s, key, now, updated, inserted).0, now)
  {
    RequestKeepsRows(cfg, s, key, now, updated, inserted);
    ClockFacts(cfg, now);
    var s' := Request(cfg, s, key, now, updated, inserted).0;
    if key.fam !in s.free {
    } else if HasRow(s.rows, key) {
      GrantKeepsAgreement(cfg, s, s', PrimaryKey(Lookup(s.rows, key), key.fam), now);
    } else if s.free[key.fam] != {} {
      AllotKeepsAgreement(cfg, s, key, now, inserted);
    }
  }

  lemma AllotKeepsAgreement(cfg: Config, s: Server, key: Key, now: nat, inserted: bool)
    requires cfg.Accepted() && key.fam in s.free && s.free[key.fam] <= AllSlots(cfg.Elements()) && s.free[key.fam] != {}
    requires LiveTaken(cfg, s, now) && ExpiryBound(cfg, s, now) && ClockFits(cfg, now)
    ensures LiveTaken(cfg, Allot(cfg, s, key, now, inserted).0, now)
    ensures ExpiryBound(cfg, Allot(cfg, s, key, now, inserted).0, now)
  {
    AllotArithmetic(cfg, s.free, key.fam);
    ClockFacts(cfg, now);
    var slot := Least(s.free[key.fam]);
    if slot < cfg.numTables && inserted {
      GrantKeepsAgreement(cfg, s, Allot(cfg, s, key, now, inserted).0, PrimaryKey(cfg.TableAt(slot + 1), key.fam), now);
    }
  }

  lemma ReleaseKeepsInv(cfg: Config, s: Server, key: Key, now: nat, removed: bool)
    requires Inv(cfg, s, now)
    ensures Inv(cfg, Release(cfg, s, key, removed).0, now)
  {
    ReleaseKeepsRows(cfg, s, key, removed);
    if HasRow(s.rows, key) {
      var pk := PrimaryKey(Lookup(s.rows, key), key.fam);
      assert Owns(s.rows, pk, key);
      var s' := Release(cfg, s, key, removed).0;
      forall q | q in s'.rows && s'.rows[q].expires > now ensures cfg.Slot(q.table) as nat !in s'.free[q.fam] {
        SlotInjective(cfg, q.table, pk.table);
      }
    }
  }

  lemma SweepKeepsInv(cfg: Config, s: Server, now: nat, read: set<PrimaryKey>, deleted: bool)
    requires Inv(cfg, s, now) && ClockFits(cfg, now)
    ensures Inv(cfg, Sweep(cfg, s, now, read, deleted), now)
  {
    ClockFacts(cfg, now);
    SweepKeepsRows(cfg, s, now, read, deleted);
    var s' := Sweep(cfg, s, now, read, deleted);
    forall q | q in s'.rows && s'.rows[q].expires > now ensures cfg.Slot(q.table) as nat !in s'.free[q.fam] {
      forall pk | pk in DeadKeys(s.rows, now) && cfg.Slot(pk.table) == cfg.Slot(q.table) ensures pk.fam != q.fam {
        SlotInjective(cfg, q.table, pk.table);
      }
    }
  }

  // Every unexpired row is among those read.
  ghost predicate AliveRead(rows: Rows, now: nat, read: set<PrimaryKey>) {
    forall pk | pk in rows && rows[pk].expires > now :: pk in read
  }

  // After a start-up the clear bits are exactly those of the unexpired rows that were read.
  lemma StartRebuilds(cfg: Config, families: set<Family>, rows: Rows, now: nat, read: set<PrimaryKey>,
                      fam: Family, slot: nat)
    requires ClockFits(cfg, now) && fam in families && slot < 32 * cfg.Elements()
    ensures slot !in Start(cfg, families, rows, now, read).free[fam]
            <==> exists pk :: pk in read && pk in rows && pk.fam == fam && rows[pk].expires > now
                              && cfg.Slot(pk.table) == slot
  {
    ClockFacts(cfg, now);
    assert WithinWords(slot, cfg.Elements());
    var free := Start(cfg, families, rows, now, read).free[fam];
    if slot !in free {
      var pk :| pk in read * AliveKeys(rows, now) && pk.fam == fam && cfg.Slot(pk.table) == slot;
    }
    if pk :| pk in read && pk in rows && pk.fam == fam && rows[pk].expires > now && cfg.Slot(pk.table) == slot {
      assert pk in read * AliveKeys(rows, now);
    }
  }

  // A row's bit is clear after a start-up exactly when it was read and has not expired.
  lemma RowIsRebuiltIff(cfg: Config, s: Server, now: nat, read: set<PrimaryKey>, pk: PrimaryKey)
    requires cfg.Accepted() && RowsOk(cfg, s) && ClockFits(cfg, now) && pk in s.rows
    ensures cfg.Slot(pk.table) as nat !in Start(cfg, s.free.Keys, s.rows, now, read).free[pk.fam]
            <==> pk in read && s.rows[pk].expires > now
  {
    TableRoundTrip(cfg, pk.table);
    StartRebuilds(cfg, s.free.Keys, s.rows, now, read, pk.fam, cfg.Slot(pk.table));
    forall q | q in s.rows && q.fam == pk.fam && cfg.Slot(q.table) == cfg.Slot(pk.table) ensures q == pk {
      SlotInjective(cfg, q.table, pk.table);
    }
  }

  // Agreement survives a restart exactly when its SELECT came to every unexpired row; main ignores whether it ran,
  // and the result loop cannot tell its end from an error.
  lemma RestartAgreesIff(cfg: Config, s: Server, now: nat, read: set<PrimaryKey>)
    requires cfg.Accepted() && RowsOk(cfg, s) && ClockFits(cfg, now)
    ensures LiveTaken(cfg, Start(cfg, s.free.Keys, s.rows, now, read), now) <==> AliveRead(s.rows, now, read)
  {
    forall pk | pk in s.rows && s.rows[pk].expires > now
      ensures pk in read <==> cfg.Slot(pk.table) as nat !in Start(cfg, s.free.Keys, s.rows, now, read).free[pk.fam]
    {
      RowIsRebuiltIff(cfg, s, now, read, pk);
    }
  }

  ghost predicate Proper(cfg: Config, s: Server, e: Event) {
    ClockFits(cfg, e.now) && (e.op.Restart? ==> AliveRead(s.rows, e.now, e.op.read))
  }

  lemma MessageKeepsInv(cfg: Config, s: Server, key: Key, cmd: nat, now: nat, io: Io)
    requires Inv(cfg, s, now) && ClockFits(cfg, now)
    ensures Inv(cfg, Serve(cfg, s, key, cmd, now, io).0, now)
  {
    RequestKeepsInv(cfg, s, key, now, io.updated, io.inserted);
    ReleaseKeepsInv(cfg, s, key, now, io.removed);
  }

  // Whichever statements fail and wherever result loops end, a step keeps the agreement, except exactly a start-up
  // that missed an unexpired row.
  lemma StepKeepsInvIff(cfg: Config, s: Server, e: Event)
    requires Inv(cfg, s, e.now) && ClockFits(cfg, e.now)
    ensures Inv(cfg, Apply(cfg, s, e).0, e.now) <==> (e.op.Restart? ==> AliveRead(s.rows, e.now, e.op.read))
  {
    match e.op
    case Message(key, cmd, io) =>
      MessageKeepsInv(cfg, s, key, cmd, e.now, io);
    case SweepOp(read, deleted) =>
      SweepKeepsInv(cfg, s, e.now, read, deleted);
    case Restart(read) =>
      RestartAgreesIff(cfg, s, e.now, read);
  }

  lemma StepKeepsInv(cfg: Config, s: Server, e: Event)
    requires Inv(cfg, s, e.now) && Proper(cfg, s, e)
    ensures Inv(cfg, Apply(cfg, s, e).0, e.now)
  {
    StepKeepsInvIff(cfg, s, e);
  }
}
