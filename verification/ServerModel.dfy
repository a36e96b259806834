/** What each server operation does to the free slots and the lease rows, without the bitmap. */
module ServerModel {
  import opened LeaseTypes
  import opened Words

  // One set of free slots per enabled family (the slots above numTables in the last word included),
  // and the lease rows.
  datatype Server = Server(free: map<Family, set<nat>>, rows: Rows)

  function KeyOf(pk: PrimaryKey, row: Row): Key {
    Key(pk.fam, row.ifname, row.addr)
  }

  predicate Owns(rows: Rows, pk: PrimaryKey, key: Key) {
    pk in rows && KeyOf(pk, rows[pk]) == key
  }

  ghost predicate HasRow(rows: Rows, key: Key) {
    exists pk :: Owns(rows, pk, key)
  }

  ghost predicate UniqueKeys(rows: Rows) {
    forall p, q | p in rows && q in rows && KeyOf(p, rows[p]) == KeyOf(q, rows[q]) :: p == q
  }

  // The table of the key's row, 0 when it has none.
  ghost function Lookup(rows: Rows, key: Key): u32 {
    if HasRow(rows, key) then (var pk :| Owns(rows, pk, key); pk.table) else 0
  }

  predicate Dead(row: Row, now: nat) {
    row.expires <= Int32(now)
  }

  ghost function Least(s: set<nat>): (m: nat)
    requires s != {}
    ensures m in s && forall x | x in s :: m <= x
  {
    var x :| x in s;
    if s == {x} then x
    else
      assert s == {x} + (s - {x});
      var y := Least(s - {x});
      if x < y then x else y
  }

  // ffs index of the lowest free slot, 0 when there is none.
  ghost function LowestIndex(f: set<nat>): nat {
    if f == {} then 0 else Least(f) + 1
  }

  ghost function TakeLowestSlot(f: set<nat>): set<nat> {
    if f == {} then {} else f - {Least(f)}
  }

  // An index above the limit counts as no index.
  function UpTo(limit: nat, index: nat): nat {
    if index > limit then 0 else index
  }

  function Without(rows: Rows, key: Key): Rows {
    map pk | pk in rows && KeyOf(pk, rows[pk]) != key :: rows[pk]
  }

  function Alive(rows: Rows, now: nat): Rows {
    map pk | pk in rows && !Dead(rows[pk], now) :: rows[pk]
  }

  function DeadKeys(rows: Rows, now: nat): set<PrimaryKey> {
    set pk | pk in rows && Dead(rows[pk], now)
  }

  function AliveKeys(rows: Rows, now: nat): set<PrimaryKey> {
    set pk | pk in rows && !Dead(rows[pk], now)
  }

  ghost function SlotsOf(cfg: Config, pks: set<PrimaryKey>, fam: Family): set<nat> {
    set pk | pk in pks && pk.fam == fam :: cfg.Slot(pk.table) as nat
  }

  ghost function Freed(cfg: Config, free: map<Family, set<nat>>, pks: set<PrimaryKey>): map<Family, set<nat>> {
    map f | f in free :: free[f] + SlotsOf(cfg, pks, f)
  }

  ghost function Taken(cfg: Config, free: map<Family, set<nat>>, pks: set<PrimaryKey>): map<Family, set<nat>> {
    map f | f in free :: free[f] - SlotsOf(cfg, pks, f)
  }

  ghost function AllFree(cfg: Config, families: set<Family>): map<Family, set<nat>> {
    map f | f in families :: AllSlots(cfg.Elements())
  }

  ghost predicate RowsOk(cfg: Config, s: Server) {
    && s.free.Keys <= FAMILIES
    && (forall f | f in s.free :: s.free[f] <= AllSlots(cfg.Elements()))
    && (forall pk | pk in s.rows :: pk.fam in s.free && cfg.InRange(pk.table))
    && UniqueKeys(s.rows)
  }

  ghost function Renew(cfg: Config, s: Server, key: Key, table: u32, now: nat, updated: bool): (Server, Option<Reply>)
    requires key.fam in s.free && PrimaryKey(table, key.fam) in s.rows
  {
    var pk := PrimaryKey(table, key.fam);
    var s1 := s.(free := s.free[key.fam := s.free[key.fam] - {cfg.Slot(table) as nat}]);
    if updated then
      (s1.(rows := s.rows[pk := s.rows[pk].(expires := Int32(now + cfg.timeout))]),
       Some(Reply(table, Wrap32(now + cfg.timeout))))
    else (s1, None)
  }

  ghost function Allot(cfg: Config, s: Server, key: Key, now: nat, inserted: bool): (Server, Option<Reply>)
    requires key.fam in s.free
  {
    var f := s.free[key.fam];
    if f == {} then (s, None)
    else
      var slot := Least(f);
      var taken := s.free[key.fam := f - {slot}];
      if slot >= cfg.numTables then (s.(free := taken), None)
      else if !inserted then (s, None)
      else
        var table := cfg.TableAt(slot + 1);
        (Server(taken, s.rows[PrimaryKey(table, key.fam) := Row(key.ifname, key.addr, Int32(now + cfg.timeout))]),
         Some(Reply(table, Wrap32(now + cfg.timeout))))
  }

  ghost function Request(cfg: Config, s: Server, key: Key, now: nat, updated: bool, inserted: bool)
    : (Server, Option<Reply>)
  {
    if key.fam !in s.free then (s, None)
    else if HasRow(s.rows, key) then Renew(cfg, s, key, Lookup(s.rows, key), now, updated)
    else Allot(cfg, s, key, now, inserted)
  }

  ghost function Release(cfg: Config, s: Server, key: Key, removed: bool): (Server, bool)
    requires RowsOk(cfg, s)
  {
    if !HasRow(s.rows, key) then (s, true)
    else if !removed then (s, false)
    else
      var slot := cfg.Slot(Lookup(s.rows, key)) as nat;
      (Server(s.free[key.fam := Toggle(s.free[key.fam], slot)], Without(s.rows, key)), true)
  }

  // read: the dead leases that the SELECT came to before it ended, for whatever reason; deleted: the DELETE went
  // through, which removes all of them.
  ghost function Sweep(cfg: Config, s: Server, now: nat, read: set<PrimaryKey>, deleted: bool): Server {
    Server(Freed(cfg, s.free, read * DeadKeys(s.rows, now)), if deleted then Alive(s.rows, now) else s.rows)
  }

  // read: the alive leases that the SELECT came to before it ended, none when it could not run at all.
  ghost function Start(cfg: Config, families: set<Family>, rows: Rows, now: nat, read: set<PrimaryKey>): Server {
    Server(Taken(cfg, AllFree(cfg, families), read * AliveKeys(rows, now)), rows)
  }

  // Outcomes of the statements a step may run, chosen by the environment.
  datatype Io = Io(updated: bool, inserted: bool, removed: bool)

  // One received message: the new state, and the reply when there is one.
  ghost function Serve(cfg: Config, s: Server, key: Key, cmd: nat, now: nat, io: Io): (Server, Option<Reply>)
    requires RowsOk(cfg, s)
  {
    if cmd == CMD_REQ then Request(cfg, s, key, now, io.updated, io.inserted)
    else if cmd == CMD_REL then
      var (s', done) := Release(cfg, s, key, io.removed);
      (s', if done then Some(Reply(0, 0)) else None)
    else (s, None)
  }

  lemma LookupIs(rows: Rows, pk: PrimaryKey, key: Key)
    requires UniqueKeys(rows) && Owns(rows, pk, key)
    ensures HasRow(rows, key) && Lookup(rows, key) == pk.table
  {
  }

  // What the SELECT answers is the key's table, and 0 means that there is none.
  lemma RowTable(cfg: Config, s: Server, key: Key, table: u32)
    requires cfg.Accepted() && RowsOk(cfg, s)
    requires !HasRow(s.rows, key) ==> table == 0
    requires HasRow(s.rows, key) ==> Owns(s.rows, PrimaryKey(table, key.fam), key)
    ensures table == Lookup(s.rows, key)
    ensures table != 0 <==> HasRow(s.rows, key)
    ensures table != 0 ==> cfg.InRange(table) && key.fam in s.free
  {
  }

  // The slot taken is inside the words, its table maps back to it, and toggling it again undoes the taking.
  lemma AllotArithmetic(cfg: Config, free: map<Family, set<nat>>, fam: Family)
    requires cfg.Accepted() && fam in free && free[fam] <= AllSlots(cfg.Elements())
    ensures free[fam] == {} ==> free[fam := TakeLowestSlot(free[fam])] == free
    ensures free[fam] != {} ==> free[fam := Toggle(TakeLowestSlot(free[fam]), Least(free[fam]))] == free
    ensures free[fam] != {} && Least(free[fam]) < cfg.numTables ==>
              var table := cfg.TableAt(Least(free[fam]) + 1);
              && cfg.Slot(table) == Least(free[fam]) < 32 * cfg.Elements()
              && cfg.InRange(table) && table == cfg.offset + Least(free[fam])
  {
    var f := free[fam];
    if f != {} {
      assert WithinWords(Least(f), cfg.Elements());
      assert Toggle(TakeLowestSlot(f), Least(f)) == f;
      if Least(f) < cfg.numTables {
        SlotRoundTrip(cfg, Least(f) + 1);
      }
    }
  }

  lemma AllotKeepsRows(cfg: Config, s: Server, key: Key, now: nat, inserted: bool)
    requires cfg.Accepted() && RowsOk(cfg, s) && key.fam in s.free && !HasRow(s.rows, key)
    ensures RowsOk(cfg, Allot(cfg, s, key, now, inserted).0)
  {
    var f := s.free[key.fam];
    if f != {} && Least(f) < cfg.numTables && inserted {
      AllotArithmetic(cfg, s.free, key.fam);
      forall pk | pk in s.rows ensures !Owns(s.rows, pk, key) {
      }
    }
  }

  lemma RequestKeepsRows(cfg: Config, s: Server, key: Key, now: nat, updated: bool, inserted: bool)
    requires cfg.Accepted() && RowsOk(cfg, s)
    ensures RowsOk(cfg, Request(cfg, s, key, now, updated, inserted).0)
  {
    if key.fam in s.free && !HasRow(s.rows, key) {
      AllotKeepsRows(cfg, s, key, now, inserted);
    }
  }

  lemma ReleaseKeepsRows(cfg: Config, s: Server, key: Key, removed: bool)
    requires cfg.Accepted() && RowsOk(cfg, s)
    ensures RowsOk(cfg, Release(cfg, s, key, removed).0)
  {
    if HasRow(s.rows, key) {
      var slot := cfg.Slot(Lookup(s.rows, key)) as nat;
      assert WithinWords(slot, cfg.Elements());
    }
  }

  lemma SlotsWithinWords(cfg: Config, s: Server, pks: set<PrimaryKey>, fam: Family)
    requires cfg.Accepted() && RowsOk(cfg, s) && pks <= s.rows.Keys
    ensures SlotsOf(cfg, pks, fam) <= AllSlots(cfg.Elements())
  {
    forall x | x in SlotsOf(cfg, pks, fam) ensures x in AllSlots(cfg.Elements()) {
      assert WithinWords(x, cfg.Elements());
    }
  }

  lemma SweepKeepsRows(cfg: Config, s: Server, now: nat, read: set<PrimaryKey>, deleted: bool)
    requires cfg.Accepted() && RowsOk(cfg, s)
    ensures RowsOk(cfg, Sweep(cfg, s, now, read, deleted))
  {
    var dead := read * DeadKeys(s.rows, now);
    forall f | f in s.free ensures SlotsOf(cfg, dead, f) <= AllSlots(cfg.Elements()) {
      SlotsWithinWords(cfg, s, dead, f);
    }
  }

  lemma StartKeepsRows(cfg: Config, s: Server, now: nat, read: set<PrimaryKey>)
    requires RowsOk(cfg, s)
    ensures RowsOk(cfg, Start(cfg, s.free.Keys, s.rows, now, read))
  {
  }

  lemma OneMoreSlot(cfg: Config, pks: set<PrimaryKey>, pk: PrimaryKey, fam: Family)
    ensures SlotsOf(cfg, pks + {pk}, fam)
            == SlotsOf(cfg, pks, fam) + (if fam == pk.fam then {cfg.Slot(pk.table) as nat} else {})
  {
  }

  lemma FreedStep(cfg: Config, free: map<Family, set<nat>>, done: set<PrimaryKey>, pk: PrimaryKey)
    requires pk.fam in free
    ensures var freed := Freed(cfg, free, done);
            Freed(cfg, free, done + {pk}) == freed[pk.fam := freed[pk.fam] + {cfg.Slot(pk.table) as nat}]
  {
    var freed, freed' := Freed(cfg, free, done), Freed(cfg, free, done + {pk});
    forall f | f in free
      ensures freed'[f] == if f == pk.fam then freed[f] + {cfg.Slot(pk.table) as nat} else freed[f]
    {
      OneMoreSlot(cfg, done, pk, f);
    }
  }

  // XOR takes a further table, because no other primary key has its bit.
  lemma TakenStep(cfg: Config, families: set<Family>, done: set<PrimaryKey>, pk: PrimaryKey)
    requires pk.fam in families && cfg.Slot(pk.table) < 32 * cfg.Elements() && pk !in done
    ensures var taken := Taken(cfg, AllFree(cfg, families), done);
            Taken(cfg, AllFree(cfg, families), done + {pk})
            == taken[pk.fam := Toggle(taken[pk.fam], cfg.Slot(pk.table))]
  {
    var slot := cfg.Slot(pk.table) as nat;
    var all := AllFree(cfg, families);
    var taken, taken' := Taken(cfg, all, done), Taken(cfg, all, done + {pk});
    assert WithinWords(slot, cfg.Elements());
    if slot in SlotsOf(cfg, done, pk.fam) {
      var q :| q in done && q.fam == pk.fam && cfg.Slot(q.table) == slot;
      SlotInjective(cfg, q.table, pk.table);
      assert false;
    }
    forall f | f in families
      ensures taken'[f] == if f == pk.fam then Toggle(taken[f], slot) else taken[f]
    {
      OneMoreSlot(cfg, done, pk, f);
    }
  }

  // The sweep's result loop, row by row: release_dead_lease leaves the row's slot free.
  ghost function FreedAlong(cfg: Config, free: map<Family, set<nat>>, pks: seq<PrimaryKey>): map<Family, set<nat>>
    requires forall pk | pk in pks :: pk.fam in free
    ensures FreedAlong(cfg, free, pks).Keys == free.Keys
  {
    if pks == [] then free
    else
      var n := |pks| - 1;
      var before := FreedAlong(cfg, free, pks[..n]);
      before[pks[n].fam := before[pks[n].fam] + {cfg.Slot(pks[n].table) as nat}]
  }

  // The start-up result loop, row by row: set_table flips the row's bit.
  ghost function FlippedAlong(cfg: Config, free: map<Family, set<nat>>, pks: seq<PrimaryKey>): map<Family, set<nat>>
    requires forall pk | pk in pks :: pk.fam in free
    ensures FlippedAlong(cfg, free, pks).Keys == free.Keys
  {
    if pks == [] then free
    else
      var n := |pks| - 1;
      var before := FlippedAlong(cfg, free, pks[..n]);
      before[pks[n].fam := Toggle(before[pks[n].fam], cfg.Slot(pks[n].table))]
  }

  function Elems(pks: seq<PrimaryKey>): set<PrimaryKey> {
    set pk | pk in pks
  }

  ghost predicate Distinct(pks: seq<PrimaryKey>) {
    forall i, j | 0 <= i < j < |pks| :: pks[i] != pks[j]
  }

  lemma LastElem(pks: seq<PrimaryKey>)
    requires pks != []
    ensures Elems(pks) == Elems(pks[..|pks| - 1]) + {pks[|pks| - 1]}
    ensures Distinct(pks) ==> pks[|pks| - 1] !in Elems(pks[..|pks| - 1])
  {
    assert pks == pks[..|pks| - 1] + [pks[|pks| - 1]];
  }

  lemma {:induction false} FreedAlongIsFreed(cfg: Config, free: map<Family, set<nat>>, pks: seq<PrimaryKey>)
    requires forall pk | pk in pks :: pk.fam in free
    ensures FreedAlong(cfg, free, pks) == Freed(cfg, free, Elems(pks))
  {
    if pks == [] {
      NothingFreed(cfg, free);
      assert Elems(pks) == {};
    } else {
      var n := |pks| - 1;
      FreedAlongIsFreed(cfg, free, pks[..n]);
      LastElem(pks);
      FreedStep(cfg, free, Elems(pks[..n]), pks[n]);
    }
  }

  // The XOR fold of the start-up loop clears exactly the bits of its rows: primary keys are unique, so no bit is
  // flipped twice.
  lemma {:induction false} FlippedAlongIsTaken(cfg: Config, families: set<Family>, pks: seq<PrimaryKey>)
    requires Distinct(pks)
    requires forall pk | pk in pks :: pk.fam in families && cfg.Slot(pk.table) < 32 * cfg.Elements()
    ensures FlippedAlong(cfg, AllFree(cfg, families), pks) == Taken(cfg, AllFree(cfg, families), Elems(pks))
  {
    if pks == [] {
      NothingFreed(cfg, AllFree(cfg, families));
      assert Elems(pks) == {};
    } else {
      var n := |pks| - 1;
      FlippedAlongIsTaken(cfg, families, pks[..n]);
      LastElem(pks);
      TakenStep(cfg, families, Elems(pks[..n]), pks[n]);
    }
  }

  lemma NothingFreed(cfg: Config, free: map<Family, set<nat>>)
    ensures Freed(cfg, free, {}) == free && Taken(cfg, free, {}) == free
  {
    forall f | f in free ensures Freed(cfg, free, {})[f] == free[f] && Taken(cfg, free, {})[f] == free[f] {
      assert SlotsOf(cfg, {}, f) == {};
    }
  }

  lemma SelectedInRange(cfg: Config, s: Server, pks: seq<PrimaryKey>)
    requires cfg.Accepted() && RowsOk(cfg, s) && Elems(pks) <= s.rows.Keys
    ensures forall pk | pk in pks :: pk.fam in s.free && cfg.Slot(pk.table) / 32 < cfg.Elements()
  {
    forall pk | pk in pks ensures pk.fam in s.free && cfg.Slot(pk.table) / 32 < cfg.Elements() {
      assert pk in Elems(pks);
      TableRoundTrip(cfg, pk.table);
    }
  }

  lemma NothingRead(cfg: Config, s: Server, now: nat)
    ensures Sweep(cfg, s, now, {}, false) == s
    ensures Start(cfg, s.free.Keys, s.rows, now, {}) == Server(AllFree(cfg, s.free.Keys), s.rows)
  {
    NothingFreed(cfg, s.free);
    NothingFreed(cfg, AllFree(cfg, s.free.Keys));
    assert {} * DeadKeys(s.rows, now) == {} && {} * AliveKeys(s.rows, now) == {};
  }

  // The sweep as its result loop does it.
  lemma SweepAlong(cfg: Config, s: Server, now: nat, dead: seq<PrimaryKey>, deleted: bool)
    requires cfg.Accepted() && RowsOk(cfg, s) && Elems(dead) <= DeadKeys(s.rows, now)
    ensures forall pk | pk in dead :: pk.fam in s.free && cfg.Slot(pk.table) / 32 < cfg.Elements()
    ensures Sweep(cfg, s, now, Elems(dead), deleted)
            == Server(FreedAlong(cfg, s.free, dead), if deleted then Alive(s.rows, now) else s.rows)
    ensures RowsOk(cfg, Sweep(cfg, s, now, Elems(dead), deleted))
  {
    SelectedInRange(cfg, s, dead);
    FreedAlongIsFreed(cfg, s.free, dead);
    assert Elems(dead) * DeadKeys(s.rows, now) == Elems(dead);
    SweepKeepsRows(cfg, s, now, Elems(dead), deleted);
  }

  // The start-up as its result loop does it.
  lemma StartAlong(cfg: Config, s: Server, now: nat, alive: seq<PrimaryKey>)
    requires cfg.Accepted() && RowsOk(cfg, s) && Distinct(alive) && Elems(alive) <= AliveKeys(s.rows, now)
    ensures forall pk | pk in alive :: pk.fam in s.free && cfg.Slot(pk.table) / 32 < cfg.Elements()
    ensures Start(cfg, s.free.Keys, s.rows, now, Elems(alive))
            == Server(FlippedAlong(cfg, AllFree(cfg, s.free.Keys), alive), s.rows)
    ensures RowsOk(cfg, Start(cfg, s.free.Keys, s.rows, now, Elems(alive)))
  {
    SelectedInRange(cfg, s, alive);
    FlippedAlongIsTaken(cfg, s.free.Keys, alive);
    assert Elems(alive) * AliveKeys(s.rows, now) == Elems(alive);
    StartKeepsRows(cfg, s, now, Elems(alive));
  }

  lemma OneMoreElem(pks: seq<PrimaryKey>, pk: PrimaryKey)
    requires Distinct(pks) && pk !in pks
    ensures Distinct(pks + [pk]) && Elems(pks + [pk]) == Elems(pks) + {pk}
    ensures |Elems(pks + [pk])| == |Elems(pks)| + 1
  {
    LastElem(pks + [pk]);
    assert (pks + [pk])[..|pks|] == pks;
    assert pk !in Elems(pks);
  }
}
