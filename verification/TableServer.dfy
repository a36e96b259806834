/** The server process: table maps of 32-bit words changed in place, and the lease database. */
module TableServer {
  import opened LeaseTypes
  import opened ServerModel
  import opened Words
  import opened SlotIndex

  lemma DisjointParts(all: set<PrimaryKey>, done: set<PrimaryKey>, todo: set<PrimaryKey>)
    requires done <= all && todo == all - done
    ensures |all| == |done| + |todo|
  {
    assert all == done + todo;
  }

  // The RtTables table. Every statement that changes it can fail (ok is its outcome) and then changes nothing.
  class LeaseStore {
    var rows: Rows

    constructor ()
      ensures rows == map[]
    {
      rows := map[];
    }

    // INSERT; the primary key is declared ON CONFLICT REPLACE.
    method InsertTable(key: Key, table: u32, leaseSec: int, ok: bool) returns (done: bool)
      modifies this
      ensures done == ok
      ensures rows == if ok then old(rows)[PrimaryKey(table, key.fam) := Row(key.ifname, key.addr, Int32(leaseSec))]
                      else old(rows)
    {
      if ok {
        rows := rows[PrimaryKey(table, key.fam) := Row(key.ifname, key.addr, Int32(leaseSec))];
      }
      done := ok;
    }

    // SELECT RtTable: the first matching row, whichever it is, or 0.
    method GetTable(key: Key) returns (table: u32)
      ensures !HasRow(rows, key) ==> table == 0
      ensures HasRow(rows, key) ==> Owns(rows, PrimaryKey(table, key.fam), key)
    {
      var matching := set pk | pk in rows && KeyOf(pk, rows[pk]) == key;
      if matching == {} {
        assert forall pk | Owns(rows, pk, key) :: pk in matching;
        return 0;
      }
      var pk :| pk in matching;
      assert Owns(rows, pk, key);
      table := pk.table;
    }

    // DELETE by (family, interface, address).
    method RemoveTable(key: Key, ok: bool) returns (done: bool)
      modifies this
      ensures done == ok
      ensures rows == if ok then Without(old(rows), key) else old(rows)
    {
      if ok {
        rows := Without(rows, key);
      }
      done := ok;
    }

    // UPDATE by (family, table): at most one row, by the primary key.
    method UpdateLease(table: u32, fam: Family, leaseSec: int, ok: bool) returns (done: bool)
      modifies this
      ensures done == ok
      ensures var pk := PrimaryKey(table, fam);
              rows == if ok && pk in old(rows) then old(rows)[pk := old(rows)[pk].(expires := Int32(leaseSec))]
                      else old(rows)
    {
      var pk := PrimaryKey(table, fam);
      if ok && pk in rows {
        rows := rows[pk := rows[pk].(expires := Int32(leaseSec))];
      }
      done := ok;
    }

    // SELECT (RtTable, AddrFamily) of the dead rows, or of the alive ones: each row once, in no particular order. No
    // more than limit steps return a row; a result loop cannot tell an error from the end.
    method SelectByLease(now: nat, dead: bool, limit: nat) returns (result: seq<PrimaryKey>)
      ensures Distinct(result)
      ensures var all := if dead then DeadKeys(rows, now) else AliveKeys(rows, now);
              Elems(result) <= all && |Elems(result)| == if limit < |all| then limit else |all|
    {
      var todo := if dead then DeadKeys(rows, now) else AliveKeys(rows, now);
      ghost var all := todo;
      result := [];
      while todo != {} && |result| < limit
        invariant Distinct(result) && Elems(result) <= all && todo == all - Elems(result)
        invariant |Elems(result)| == |result| <= limit
        decreases todo
      {
        var pk :| pk in todo;
        assert pk !in Elems(result);
        OneMoreElem(result, pk);
        result, todo := result + [pk], todo - {pk};
      }
      DisjointParts(all, Elems(result), todo);
    }

    method DeleteDead(now: nat, ok: bool)
      modifies this
      ensures rows == if ok then Alive(old(rows), now) else old(rows)
    {
      if ok {
        rows := Alive(rows, now);
      }
    }
  }

  // calloc and populate_table_map
  method NewTableMap(elements: nat) returns (tables: array<bv32>)
    ensures fresh(tables) && tables.Length == elements
    ensures Represents(tables[..], AllSlots(elements))
  {
    tables := new bv32[elements];
    for i := 0 to elements
      invariant forall k | 0 <= k < i :: tables[k] == 0xFFFF_FFFF
    {
      tables[i] := 0xFFFF_FFFF;
    }
    OnesAreAllFree(tables[..]);
  }

  // tables[element] ^= 1 << bit
  method FlipBitAt(tables: array<bv32>, element: nat, bit: nat, ghost free: set<nat>)
    requires element < tables.Length && bit < 32 && Represents(tables[..], free)
    modifies tables
    ensures Represents(tables[..], Toggle(free, 32 * element + bit))
  {
    FlipWordToggles(tables[..], free, element, bit);
    tables[element] := tables[element] ^ Mask(bit);
    assert tables[..] == FlipWord(old(tables[..]), element, bit);
  }

  // allocate_table's scan: the first non-zero word gives up its lowest bit.
  method TakeLowest(rtTables: array<bv32>, ghost free: set<nat>) returns (rtTable: nat)
    requires Represents(rtTables[..], free)
    modifies rtTables
    ensures Represents(rtTables[..], TakeLowestSlot(free))
    ensures rtTable == LowestIndex(free)
  {
    ghost var words := rtTables[..];
    rtTable := 0;
    for i := 0 to rtTables.Length
      invariant rtTables[..] == words
      invariant forall k | 0 <= k < i :: words[k] == 0
    {
      if rtTables[i] == 0 {
        continue;
      }
      var low := Ffs(rtTables[i]) - 1;
      FirstWordIsTaken(words, free, i);
      FlipBitAt(rtTables, i, low, free);
      return low + 1 + i * 32;
    }
    ZeroWordsAreFull(words, free);
  }

  method TestBitAt(tables: array<bv32>, element: nat, bit: nat, ghost free: set<nat>) returns (isSet: bool)
    requires element < tables.Length && bit < 32 && Represents(tables[..], free)
    ensures isSet <==> 32 * element + bit in free
  {
    SlotOfBit(tables[..], element, bit);
    isSet := tables[element] & Mask(bit) != 0;
  }

  // The lowest bit of the first non-zero word is the least free slot.
  lemma FirstWordIsTaken(words: seq<bv32>, free: set<nat>, i: nat)
    requires Represents(words, free)
    requires i < |words| && words[i] != 0 && forall k | 0 <= k < i :: words[k] == 0
    ensures var low := Ffs(words[i]) - 1;
            low < 32 && LowestIndex(free) == low + 1 + i * 32 && TakeLowestSlot(free) == Toggle(free, 32 * i + low)
  {
    var low := Ffs(words[i]) - 1;
    FirstWordHasLowest(words, free, i, low);
    LowestIs(free, 32 * i + low);
  }

  lemma LowestIs(f: set<nat>, m: nat)
    requires m in f && forall x | x in f :: m <= x
    ensures LowestIndex(f) == m + 1 && TakeLowestSlot(f) == Toggle(f, m)
  {
  }

  // What a result loop has read of all the rows: none if the SELECT could not start, else as many as the limit lets it.
  predicate RowsRead(read: set<PrimaryKey>, all: set<PrimaryKey>, selectOk: bool, limit: nat) {
    && read <= all
    && |read| == if !selectOk then 0 else if limit < |all| then limit else |all|
  }

  class Server {
    const cfg: Config
    const store: LeaseStore
    // The table maps of the enabled families, and the free slots they stand for.
    const tables: map<Family, array<bv32>>
    ghost var free: map<Family, set<nat>>

    // The maps have the configured size, do not share memory, and say what free says.
    ghost predicate Shape()
      reads this, tables.Values
    {
      && cfg.Accepted()
      && tables.Keys == free.Keys
      && (forall f | f in tables :: tables[f].Length == cfg.Elements() && Represents(tables[f][..], free[f]))
      && (forall f, g | f in tables && g in tables && f != g :: tables[f] != tables[g])
    }

    ghost function View(): ServerModel.Server
      reads this, store
    {
      ServerModel.Server(free, store.rows)
    }

    ghost predicate Valid()
      reads this, store, tables.Values
    {
      Shape() && RowsOk(cfg, View())
    }

    constructor (cfg: Config, families: set<Family>, store: LeaseStore)
      requires cfg.Accepted() && families <= FAMILIES
      ensures this.cfg == cfg && this.store == store && fresh(tables.Values)
      ensures Shape() && View() == ServerModel.Server(AllFree(cfg, families), store.rows)
    {
      var maps: map<Family, array<bv32>> := map[];
      if AF_INET in families {
        var m := NewTableMap(cfg.Elements());
        maps := maps[AF_INET := m];
      }
      if AF_INET6 in families {
        var m := NewTableMap(cfg.Elements());
        maps := maps[AF_INET6 := m];
      }
      if AF_UNSPEC in families {
        var m := NewTableMap(cfg.Elements());
        maps := maps[AF_UNSPEC := m];
      }
      this.cfg := cfg;
      this.store := store;
      tables := maps;
      free := AllFree(cfg, families);
    }

    // Returns the ffs index (slot + 1) of the lowest free slot and takes it; 0 when there is none below numTables.
    method AllocateTable(fam: Family) returns (rtTable: nat)
      requires Shape() && fam in free
      modifies this`free, tables[fam]
      ensures Shape()
      ensures free == old(free)[fam := TakeLowestSlot(old(free)[fam])]
      ensures rtTable == UpTo(cfg.numTables, LowestIndex(old(free)[fam]))
    {
      rtTable := TakeLowest(tables[fam], free[fam]);
      free := free[fam := TakeLowestSlot(free[fam])];
      if rtTable > cfg.numTables {
        rtTable := 0;
      }
    }

    // XOR on the table's bit. There is no bounds check: the table must be one of the map's.
    method ReleaseTable(fam: Family, table: u32)
      requires Shape() && fam in free && cfg.Slot(table) / 32 < cfg.Elements()
      modifies this`free, tables[fam]
      ensures Shape()
      ensures free == old(free)[fam := Toggle(old(free)[fam], cfg.Slot(table))]
    {
      var slot := cfg.Slot(table);
      FlipBitAt(tables[fam], ElementOf(slot), BitOf(slot), free[fam]);
      free := free[fam := Toggle(free[fam], slot)];
    }

    // XOR on the table's bit, ignored beyond the last word.
    method SetTable(fam: Family, table: u32)
      requires Shape() && fam in free
      modifies this`free, tables[fam]
      ensures Shape()
      ensures free == if cfg.Slot(table) / 32 >= cfg.Elements() then old(free)
                      else old(free)[fam := Toggle(old(free)[fam], cfg.Slot(table))]
    {
      if ElementOf(cfg.Slot(table)) >= cfg.Elements() {
        return;
      }
      ReleaseTable(fam, table);
    }

    method IsTableFree(fam: Family, table: u32) returns (isFree: bool)
      requires Shape() && fam in free
      ensures isFree == (cfg.Slot(table) as nat in free[fam])
    {
      var slot := cfg.Slot(table);
      if ElementOf(slot) >= cfg.Elements() {
        assert !WithinWords(slot, cfg.Elements());
        return false;
      }
      isFree := TestBitAt(tables[fam], ElementOf(slot), BitOf(slot), free[fam]);
    }

    method ReleaseDeadLease(fam: Family, table: u32)
      requires Shape() && fam in free && cfg.Slot(table) / 32 < cfg.Elements()
      modifies this`free, tables[fam]
      ensures Shape()
      ensures free == old(free)[fam := old(free)[fam] + {cfg.Slot(table) as nat}]
    {
      var isFree := IsTableFree(fam, table);
      if isFree {
        assert free[fam] + {cfg.Slot(table) as nat} == free[fam];
      } else {
        ReleaseTable(fam, table);
      }
    }

    // The renewing half of handle_req: make sure that the bit is taken, then update the row.
    method RenewLease(key: Key, table: u32, now: nat, updateOk: bool) returns (reply: Option<Reply>)
      requires Shape() && key.fam in free && PrimaryKey(table, key.fam) in store.rows
      modifies this`free, store, tables[key.fam]
      ensures Shape()
      ensures (View(), reply) == Renew(cfg, old(View()), key, table, now, updateOk)
    {
      var isFree := IsTableFree(key.fam, table);
      if isFree {
        assert WithinWords(cfg.Slot(table), cfg.Elements());
        SetTable(key.fam, table);
      } else {
        assert free[key.fam] - {cfg.Slot(table) as nat} == free[key.fam];
      }
      assert free == old(free)[key.fam := old(free)[key.fam] - {cfg.Slot(table) as nat}];
      var leaseSec := now + cfg.timeout;
      var updated := store.UpdateLease(table, key.fam, leaseSec, updateOk);
      if !updated {
        return None;
      }
      return Some(Reply(table, Wrap32(leaseSec)));
    }

    // The allotting half: take a slot, insert the row, and give the slot back if that fails.
    method AllotLease(key: Key, now: nat, insertOk: bool) returns (reply: Option<Reply>)
      requires Shape() && key.fam in free && free[key.fam] <= AllSlots(cfg.Elements())
      modifies this`free, store, tables[key.fam]
      ensures Shape()
      ensures (View(), reply) == Allot(cfg, old(View()), key, now, insertOk)
    {
      AllotArithmetic(cfg, free, key.fam);
      var index := AllocateTable(key.fam);
      if index == 0 {
        return None;
      }
      var table := cfg.TableAt(index);
      var leaseSec := now + cfg.timeout;
      var inserted := store.InsertTable(key, table, leaseSec, insertOk);
      if !inserted {
        ReleaseTable(key.fam, table);
        assert free == old(free);
        return None;
      }
      return Some(Reply(table, Wrap32(leaseSec)));
    }

    // Command 0. A request for a key that has a row renews that row, expired or not.
    method HandleRequest(key: Key, now: nat, updateOk: bool, insertOk: bool) returns (reply: Option<Reply>)
      requires Valid()
      modifies this`free, store, tables.Values
      ensures Valid()
      ensures (View(), reply) == Request(cfg, old(View()), key, now, updateOk, insertOk)
    {
      RequestKeepsRows(cfg, View(), key, now, updateOk, insertOk);
      if key.fam !in tables {
        return None;
      }
      var table := store.GetTable(key);
      RowTable(cfg, View(), key, table);
      if table != 0 {
        reply := RenewLease(key, table, now, updateOk);
      } else {
        reply := AllotLease(key, now, insertOk);
      }
    }

    // Command 1. Releasing a lease that does not exist succeeds; the bit of an existing one is flipped unseen.
    method HandleRelease(key: Key, removeOk: bool) returns (done: bool)
      requires Valid()
      modifies this`free, store, tables.Values
      ensures Valid()
      ensures (View(), done) == Release(cfg, old(View()), key, removeOk)
    {
      ReleaseKeepsRows(cfg, View(), key, removeOk);
      var table := store.GetTable(key);
      RowTable(cfg, View(), key, table);
      if table == 0 {
        return true;
      }
      done := store.RemoveTable(key, removeOk);
      if done {
        ReleaseTable(key.fam, table);
      }
    }

    // unix_socket_recv_cb: dispatch on the command; no reply when there is nothing to say.
    method Receive(key: Key, cmd: nat, now: nat, io: Io) returns (reply: Option<Reply>)
      requires Valid()
      modifies this`free, store, tables.Values
      ensures Valid()
      ensures (View(), reply) == Serve(cfg, old(View()), key, cmd, now, io)
    {
      reply := None;
      if cmd == CMD_REQ {
        reply := HandleRequest(key, now, io.updated, io.inserted);
      } else if cmd == CMD_REL {
        var done := HandleRelease(key, io.removed);
        if done {
          reply := Some(Reply(0, 0));
        }
      }
    }

    // The result loop of the sweep's SELECT, with release_dead_lease called on each row.
    method ReleaseDeadLeases(result: seq<PrimaryKey>)
      requires Shape() && forall pk | pk in result :: pk.fam in free && cfg.Slot(pk.table) / 32 < cfg.Elements()
      modifies this`free, tables.Values
      ensures Shape() && free == FreedAlong(cfg, old(free), result)
    {
      for i := 0 to |result|
        invariant Shape() && free == FreedAlong(cfg, old(free), result[..i])
      {
        assert result[..i + 1][..i] == result[..i];
        ReleaseDeadLease(result[i].fam, result[i].table);
      }
      assert result[..|result|] == result;
    }

    // The result loop of the start-up SELECT, with set_table called on each row.
    method SetTables(result: seq<PrimaryKey>)
      requires Shape() && forall pk | pk in result :: pk.fam in free && cfg.Slot(pk.table) / 32 < cfg.Elements()
      modifies this`free, tables.Values
      ensures Shape() && free == FlippedAlong(cfg, old(free), result)
    {
      for i := 0 to |result|
        invariant Shape() && free == FlippedAlong(cfg, old(free), result[..i])
      {
        assert result[..i + 1][..i] == result[..i];
        SetTable(result[i].fam, result[i].table);
      }
      assert result[..|result|] == result;
    }

    // The first half of the sweep: the table of every dead row that is read is made free.
    method ReleaseReadLeases(now: nat, limit: nat) returns (ghost read: set<PrimaryKey>)
      requires Valid()
      modifies this`free, tables.Values
      ensures Valid() && View() == Sweep(cfg, old(View()), now, read, false)
      ensures RowsRead(read, DeadKeys(old(View()).rows, now), true, limit)
    {
      ghost var s := View();
      var dead := store.SelectByLease(now, true, limit);
      read := Elems(dead);
      SweepAlong(cfg, s, now, dead, false);
      ReleaseDeadLeases(dead);
    }

    // The sweep: then the dead rows are deleted, read or not.
    method DeleteDeadLeases(now: nat, selectOk: bool, limit: nat, deleteOk: bool)
      returns (ghost read: set<PrimaryKey>)
      requires Valid()
      modifies this`free, store, tables.Values
      ensures Valid()
      ensures View() == Sweep(cfg, old(View()), now, read, selectOk && deleteOk)
      ensures RowsRead(read, DeadKeys(old(View()).rows, now), selectOk, limit)
    {
      ghost var s := View();
      read := {};
      NothingRead(cfg, s, now);
      if selectOk {
        read := ReleaseReadLeases(now, limit);
        SweepKeepsRows(cfg, s, now, read, deleteOk);
        assert free == Sweep(cfg, s, now, read, deleteOk).free && store.rows == s.rows;
        store.DeleteDead(now, deleteOk);
        assert Shape() && View() == Sweep(cfg, s, now, read, deleteOk);
      }
    }

    // Start-up: the tables of the leases that are still alive, as far as they are read, are marked taken.
    method BuildTableMap(now: nat, selectOk: bool, limit: nat) returns (ghost read: set<PrimaryKey>)
      requires Valid() && free == AllFree(cfg, free.Keys)
      modifies this`free, tables.Values
      ensures Valid()
      ensures View() == Start(cfg, old(View()).free.Keys, old(View()).rows, now, read)
      ensures RowsRead(read, AliveKeys(old(View()).rows, now), selectOk, limit)
    {
      ghost var s := View();
      read := {};
      NothingRead(cfg, s, now);
      if selectOk {
        var alive := store.SelectByLease(now, false, limit);
        read := Elems(alive);
        StartAlong(cfg, s, now, alive);
        SetTables(alive);
      }
    }
  }
}
