/** The values the server and the client exchange and store, with the C integer widths. */
module LeaseTypes {
  datatype Option<+T> = None | Some(value: T)

  type u32 = x: int | 0 <= x < 0x1_0000_0000
  type i32 = x: int | -0x8000_0000 <= x < 0x8000_0000
  type Family = f: int | 0 <= f < 256

  const AF_UNSPEC: Family := 0
  const AF_INET: Family := 2
  const AF_INET6: Family := 10
  const FAMILIES: set<Family> := {AF_UNSPEC, AF_INET, AF_INET6}

  // A lease belongs to one (family, interface, address).
  datatype Key = Key(fam: Family, ifname: string, addr: string)

  // The database's primary key is (RtTable, AddrFamily); the other columns are the row.
  datatype PrimaryKey = PrimaryKey(table: u32, fam: Family)
  datatype Row = Row(ifname: string, addr: string, expires: i32)
  type Rows = map<PrimaryKey, Row>

  // Commands of a message.
  const CMD_REQ: nat := 0
  const CMD_REL: nat := 1
  const CMD_RESP: nat := 2

  datatype Reply = Reply(table: u32, expires: u32)

  datatype Config = Config(offset: u32, numTables: u32, timeout: nat) {
    // What start-up insists on: every value present, and the last table number does not wrap.
    predicate Accepted() {
      && offset != 0 && numTables != 0
      && 0 < timeout < 0x1_0000
      && Wrap32(offset + numTables) > offset
    }

    // Number of 32-bit words in each family's table map.
    function Elements(): nat {
      if numTables < 32 then 0
      else if numTables % 32 != 0 then numTables / 32 + 1
      else numTables / 32
    }

    // uint32_t subtraction of the offset: the slot a table number is kept at.
    function Slot(table: u32): u32 {
      Wrap32(table - offset)
    }

    // The table number that allocation hands out for ffs index r.
    function TableAt(r: nat): u32
      requires r > 0
    {
      Wrap32(offset + (r - 1))
    }

    predicate InRange(table: u32) {
      && offset <= table < offset + numTables
      && table - offset < 32 * Elements()
    }

    // Every table that can be handed out is read back by a client as the number it is.
    predicate ReadsBack() {
      numTables < 32 || offset + numTables <= 0x8000_0000
    }
  }

  function Wrap32(x: int): u32 {
    x % 0x1_0000_0000
  }

  // Value of a column written through sqlite3_bind_int: a 32-bit signed integer.
  function Int32(x: int): i32 {
    if Wrap32(x) < 0x8000_0000 then Wrap32(x) else Wrap32(x) - 0x1_0000_0000
  }

  // json_object_get_int: a number in a reply that exceeds a signed 32-bit integer is read as the largest one.
  function ReadInt(x: u32): u32 {
    if x > 0x7FFF_FFFF then 0x7FFF_FFFF else x
  }

  // The clock the lease arithmetic is safe for: the new expiry still fits a signed 32-bit column.
  predicate ClockFits(cfg: Config, now: nat) {
    now + cfg.timeout < 0x8000_0000
  }

  // The configurations that start-up takes: three positive values, a 16-bit timeout, and a last table number that
  // still is one.
  lemma AcceptedIff(cfg: Config)
    ensures cfg.Accepted() <==>
              && cfg.offset > 0 && cfg.numTables > 0 && 1 <= cfg.timeout <= 65535
              && cfg.offset + cfg.numTables <= 0xFFFF_FFFF
  {
  }

  // Every table number that is handed out fits: the wrap check means the range does not wrap at all.
  lemma WrapCheckMeansNoWrap(cfg: Config)
    requires cfg.numTables != 0
    ensures Wrap32(cfg.offset + cfg.numTables) > cfg.offset <==> cfg.offset + cfg.numTables < 0x1_0000_0000
  {
  }

  // The words cover all the tables exactly when there are none or at least 32 of them, and with less than
  // a word to spare; below 32 tables there is no word at all.
  lemma WordsCoverTables(cfg: Config)
    ensures 32 * cfg.Elements() >= cfg.numTables <==> cfg.numTables == 0 || cfg.numTables >= 32
    ensures cfg.numTables >= 32 ==> 32 * cfg.Elements() < cfg.numTables + 32
    ensures cfg.Elements() == 0 <==> cfg.numTables < 32
  {
  }

  // ffs index -> table -> slot comes back to the same bit, inside the words, without wrapping.
  lemma SlotRoundTrip(cfg: Config, r: nat)
    requires cfg.Accepted() && 1 <= r <= cfg.numTables && r <= 32 * cfg.Elements()
    ensures cfg.TableAt(r) == cfg.offset + (r - 1)
    ensures cfg.InRange(cfg.TableAt(r)) && cfg.TableAt(r) != 0
    ensures cfg.Slot(cfg.TableAt(r)) == r - 1
    ensures cfg.Slot(cfg.TableAt(r)) / 32 < cfg.Elements()
  {
  }

  // ... and in the other direction; the slots of in-range tables are the first numTables bits.
  lemma TableRoundTrip(cfg: Config, table: u32)
    requires cfg.Accepted() && cfg.InRange(table)
    ensures cfg.Slot(table) == table - cfg.offset < cfg.numTables
    ensures cfg.Slot(table) < 32 * cfg.Elements()
    ensures cfg.TableAt(cfg.Slot(table) + 1) == table
  {
  }

  // A client can tell all the tables apart, and knows each one by its number, exactly when the last of them fits a
  // signed 32-bit integer (or there is no word at all).
  lemma ReadBackIff(cfg: Config)
    requires cfg.Accepted()
    ensures cfg.ReadsBack() <==> forall t: u32 | cfg.InRange(t) :: ReadInt(t) == t
    ensures cfg.ReadsBack() <==>
              forall a: u32, b: u32 | cfg.InRange(a) && cfg.InRange(b) && ReadInt(a) == ReadInt(b) :: a == b
  {
    if !cfg.ReadsBack() {
      var last: u32 := cfg.offset + (cfg.numTables - 1);
      assert cfg.InRange(last) && cfg.InRange(last - 1) && ReadInt(last) == ReadInt(last - 1) != last;
    }
  }

  // The wrapping subtraction never maps two table numbers to one slot.
  lemma SlotInjective(cfg: Config, a: u32, b: u32)
    ensures cfg.Slot(a) == cfg.Slot(b) <==> a == b
  {
  }
}
