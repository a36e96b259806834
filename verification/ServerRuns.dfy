/** Whole runs of the server: requests, releases, sweeps and restarts in any order. */
module ServerRuns {
  import opened LeaseTypes
  import opened Words
  import opened ServerModel
  import opened ServerInvariant
  import opened ServerProperties

  // Events in time order from a start time on, within which no restart misses an unexpired row.
  ghost predicate Schedule(cfg: Config, s: Server, from: nat, events: seq<Event>)
    requires cfg.Accepted() && RowsOk(cfg, s)
    decreases |events|
  {
    events == [] ||
    (from <= events[0].now && Proper(cfg, s, events[0])
     && Schedule(cfg, Apply(cfg, s, events[0]).0, events[0].now, events[1..]))
  }

  // Without restarts that is just the order of time, in which events may coincide.
  lemma {:induction false} OrderedIsScheduled(cfg: Config, s: Server, from: nat, events: seq<Event>)
    requires cfg.Accepted() && RowsOk(cfg, s)
    requires forall i | 0 <= i < |events| ::
               from <= events[i].now && ClockFits(cfg, events[i].now) && !events[i].op.Restart?
    requires forall i, j | 0 <= i < j < |events| :: events[i].now <= events[j].now
    ensures Schedule(cfg, s, from, events)
    decreases |events|
  {
    if events != [] {
      OrderedIsScheduled(cfg, Apply(cfg, s, events[0]).0, events[0].now, events[1..]);
    }
  }

  // Events while the clock fits, restarts of any kind included.
  predicate Clocked(cfg: Config, events: seq<Event>) {
    forall e | e in events :: ClockFits(cfg, e.now)
  }

  ghost function After(cfg: Config, s: Server, events: seq<Event>): (r: Server)
    requires cfg.Accepted() && RowsOk(cfg, s)
    ensures RowsOk(cfg, r) && r.free.Keys == s.free.Keys
    decreases |events|
  {
    if events == [] then s else After(cfg, Apply(cfg, s, events[0]).0, events[1..])
  }

  function LastTime(from: nat, events: seq<Event>): nat {
    if events == [] then from else events[|events| - 1].now
  }

  // The server as it is first started, with an empty database.
  ghost function Fresh(cfg: Config, families: set<Family>): (r: Server)
    requires cfg.Accepted() && families <= FAMILIES
    ensures RowsOk(cfg, r)
  {
    Start(cfg, families, map[], 0, {})
  }

  lemma FreshAgrees(cfg: Config, families: set<Family>)
    requires cfg.Accepted() && families <= FAMILIES && ClockFits(cfg, 0)
    ensures Inv(cfg, Fresh(cfg, families), 0) && NoLeak(cfg, Fresh(cfg, families))
  {
    StartHasNoLeak(cfg, families, map[], 0, {});
  }

  lemma {:induction false} RunKeepsInv(cfg: Config, s: Server, from: nat, events: seq<Event>)
    requires Inv(cfg, s, from) && Schedule(cfg, s, from, events)
    ensures Inv(cfg, After(cfg, s, events), LastTime(from, events))
    decreases |events|
  {
    if events == [] {
    } else {
      InvAges(cfg, s, from, events[0].now);
      StepKeepsInv(cfg, s, events[0]);
      RunKeepsInv(cfg, Apply(cfg, s, events[0]).0, events[0].now, events[1..]);
    }
  }

  // Nothing has leaked in any state of the run.
  ghost predicate LeakFree(cfg: Config, s: Server, events: seq<Event>)
    requires cfg.Accepted() && RowsOk(cfg, s)
    decreases |events|
  {
    NoLeak(cfg, s) && (events == [] || LeakFree(cfg, Apply(cfg, s, events[0]).0, events[1..]))
  }

  ghost predicate NothingLost(cfg: Config, s: Server, events: seq<Event>)
    requires cfg.Accepted() && RowsOk(cfg, s)
    decreases |events|
  {
    events == [] ||
    (!LosesTable(cfg, s, events[0]) && NothingLost(cfg, Apply(cfg, s, events[0]).0, events[1..]))
  }

  // A run, whatever fails in it, is free of leaks in all its states exactly when none of its steps is a stale release
  // or a sweep that deletes what it has not read.
  lemma {:induction false} RunLeaksIff(cfg: Config, s: Server, events: seq<Event>)
    requires cfg.Accepted() && RowsOk(cfg, s) && NoLeak(cfg, s) && Clocked(cfg, events)
    ensures LeakFree(cfg, s, events) <==> NothingLost(cfg, s, events)
    decreases |events|
  {
    if events == [] {
    } else {
      assert events[0] in events;
      StepLeaksIff(cfg, s, events[0]);
      if !LosesTable(cfg, s, events[0]) {
        RunLeaksIff(cfg, Apply(cfg, s, events[0]).0, events[1..]);
      }
    }
  }

  predicate ReleasesKey(op: Op, key: Key) {
    op.Message? && op.key == key && op.cmd == CMD_REL
  }

  // An unexpired row outlives every step but its own key's release: same table, same key, no earlier expiry.
  lemma LiveRowSurvives(cfg: Config, s: Server, e: Event, pk: PrimaryKey)
    requires Inv(cfg, s, e.now) && Proper(cfg, s, e)
    requires pk in s.rows && s.rows[pk].expires > e.now && !ReleasesKey(e.op, KeyOf(pk, s.rows[pk]))
    ensures var rows := Apply(cfg, s, e).0.rows;
            pk in rows && KeyOf(pk, rows[pk]) == KeyOf(pk, s.rows[pk]) && rows[pk].expires >= s.rows[pk].expires
  {
    ClockFacts(cfg, e.now);
    if e.op.Message? && e.op.cmd == CMD_REQ {
      var io := e.op.io;
      if HasRow(s.rows, e.op.key) {
        Renewal(cfg, s, e.op.key, e.now, io.updated, io.inserted);
      } else {
        NewLease(cfg, s, e.op.key, e.now, io.updated, io.inserted);
        if Request(cfg, s, e.op.key, e.now, io.updated, io.inserted).1 == None {
          RefusalRollsBack(cfg, s, e.op.key, e.now, io.updated, io.inserted);
        }
      }
    }
  }

  // In one step a key loses its row exactly when it is released, or when it had expired and was swept or its table
  // was granted to another key.
  lemma RowLostIff(cfg: Config, s: Server, e: Event, key: Key)
    requires Inv(cfg, s, e.now) && Proper(cfg, s, e) && HasRow(s.rows, key)
    ensures var (s', reply) := Apply(cfg, s, e);
            var pk := PrimaryKey(Lookup(s.rows, key), key.fam);
            && Owns(s.rows, pk, key)
            && (!HasRow(s'.rows, key) <==>
                  || (ReleasesKey(e.op, key) && e.op.io.removed)
                  || (s.rows[pk].expires <= e.now &&
                        (|| (e.op.SweepOp? && e.op.deleted)
                         || (e.op.Message? && e.op.cmd == CMD_REQ && e.op.key != key && e.op.key.fam == key.fam
                             && reply.Some? && reply.value.table == pk.table))))
  {
    ClockFacts(cfg, e.now);
    var pk := PrimaryKey(Lookup(s.rows, key), key.fam);
    assert Owns(s.rows, pk, key);
    var s' := Apply(cfg, s, e).0;
    assert forall q :: Owns(s'.rows, q, key) && q in s.rows && s'.rows[q] == s.rows[q] ==> q == pk;
    if e.op.Message? && e.op.cmd == CMD_REQ {
      RequestAndRow(cfg, s, e.op.key, e.now, e.op.io, pk, key);
    } else if pk in s'.rows {
      assert Owns(s'.rows, pk, key);
    }
  }

  // What a request, its own or another's, does to a key's row.
  lemma RequestAndRow(cfg: Config, s: Server, from: Key, now: nat, io: Io, pk: PrimaryKey, key: Key)
    requires Inv(cfg, s, now) && ClockFits(cfg, now) && Owns(s.rows, pk, key)
    ensures var (s', reply) := Request(cfg, s, from, now, io.updated, io.inserted);
            if from != key && from.fam == key.fam && reply.Some? && reply.value.table == pk.table
            then s.rows[pk].expires <= now && !HasRow(s'.rows, key)
            else Owns(s'.rows, pk, key) && s'.rows[pk].expires >= s.rows[pk].expires
  {
    var (s', reply) := Request(cfg, s, from, now, io.updated, io.inserted);
    if HasRow(s.rows, from) {
      Renewal(cfg, s, from, now, io.updated, io.inserted);
    } else {
      NewLease(cfg, s, from, now, io.updated, io.inserted);
      if reply.None? {
        RefusalRollsBack(cfg, s, from, now, io.updated, io.inserted);
      } else {
        forall q | Owns(s'.rows, q, key) ensures q != PrimaryKey(reply.value.table, from.fam) && q == pk {
          assert Owns(s.rows, q, key);
        }
      }
    }
  }

  // The key has a row in every state of the run.
  ghost predicate KeepsRow(cfg: Config, s: Server, key: Key, events: seq<Event>)
    requires cfg.Accepted() && RowsOk(cfg, s)
    decreases |events|
  {
    HasRow(s.rows, key) && (events == [] || KeepsRow(cfg, Apply(cfg, s, events[0]).0, key, events[1..]))
  }

  // Every request of the key that is answered is answered with this table.
  ghost predicate AnswersAre(cfg: Config, s: Server, key: Key, table: u32, events: seq<Event>)
    requires cfg.Accepted() && RowsOk(cfg, s)
    decreases |events|
  {
    events == [] ||
    (var (s', reply) := Apply(cfg, s, events[0]);
     && (events[0].op.Message? && events[0].op.key == key && reply.Some? ==> reply.value.table == table)
     && AnswersAre(cfg, s', key, table, events[1..]))
  }

  // As long as the key has a row, it is the same one, its expiry does not go back, and an answer names its table.
  lemma StableStep(cfg: Config, s: Server, e: Event, key: Key)
    requires Inv(cfg, s, e.now) && Proper(cfg, s, e) && HasRow(s.rows, key) && HasRow(Apply(cfg, s, e).0.rows, key)
    ensures var (s', reply) := Apply(cfg, s, e);
            var pk := PrimaryKey(Lookup(s.rows, key), key.fam);
            && Owns(s.rows, pk, key) && Owns(s'.rows, pk, key) && Lookup(s'.rows, key) == pk.table
            && s'.rows[pk].expires >= s.rows[pk].expires
            && (e.op.Message? && e.op.key == key && reply.Some? ==> reply.value.table == pk.table)
  {
    var pk := PrimaryKey(Lookup(s.rows, key), key.fam);
    assert Owns(s.rows, pk, key);
    var s' := Apply(cfg, s, e).0;
    if e.op.Message? && e.op.cmd == CMD_REQ {
      RequestAndRow(cfg, s, e.op.key, e.now, e.op.io, pk, key);
      if e.op.key == key {
        Renewal(cfg, s, key, e.now, e.op.io.updated, e.op.io.inserted);
      }
    } else {
      var q :| Owns(s'.rows, q, key);
      assert Owns(s.rows, q, key);
    }
    LookupIs(s'.rows, pk, key);
  }

  // However often it is requested, whatever the others do and even when it expires meanwhile: until its row is
  // released, swept or replaced, a key keeps its table, its expiry never goes back, and all its replies name that
  // table.
  lemma {:induction false} LeaseIsStable(cfg: Config, s: Server, from: nat, key: Key, events: seq<Event>)
    requires Inv(cfg, s, from) && Schedule(cfg, s, from, events) && KeepsRow(cfg, s, key, events)
    ensures var pk := PrimaryKey(Lookup(s.rows, key), key.fam);
            var s' := After(cfg, s, events);
            && Owns(s.rows, pk, key) && Owns(s'.rows, pk, key)
            && s'.rows[pk].expires >= s.rows[pk].expires
            && AnswersAre(cfg, s, key, pk.table, events)
    decreases |events|
  {
    var pk := PrimaryKey(Lookup(s.rows, key), key.fam);
    assert Owns(s.rows, pk, key);
    if events == [] {
    } else {
      var e := events[0];
      InvAges(cfg, s, from, e.now);
      StepKeepsInv(cfg, s, e);
      StableStep(cfg, s, e, key);
      LeaseIsStable(cfg, Apply(cfg, s, e).0, e.now, key, events[1..]);
    }
  }

  // Conservation over runs --------------------------------------------------------------------------------------

  ghost predicate ConservedThroughout(cfg: Config, s: Server, events: seq<Event>)
    requires cfg.Accepted() && RowsOk(cfg, s)
    decreases |events|
  {
    Conserved(cfg, s) && (events == [] || ConservedThroughout(cfg, Apply(cfg, s, events[0]).0, events[1..]))
  }

  lemma {:induction false} ConservedIsLeakFree(cfg: Config, s: Server, events: seq<Event>)
    requires cfg.Accepted() && RowsOk(cfg, s) && cfg.numTables >= 32
    ensures ConservedThroughout(cfg, s, events) <==> LeakFree(cfg, s, events)
    decreases |events|
  {
    ConservationIff(cfg, s);
    if events != [] {
      ConservedIsLeakFree(cfg, Apply(cfg, s, events[0]).0, events[1..]);
    }
  }

  // From an empty database, free tables plus rows that hold theirs make up all the tables of every enabled family
  // in every state of a run exactly when none of its steps loses a table.
  lemma RunConservesIff(cfg: Config, families: set<Family>, events: seq<Event>)
    requires cfg.Accepted() && families <= FAMILIES && cfg.numTables >= 32 && Clocked(cfg, events) && ClockFits(cfg, 0)
    ensures ConservedThroughout(cfg, Fresh(cfg, families), events) <==> NothingLost(cfg, Fresh(cfg, families), events)
  {
    FreshAgrees(cfg, families);
    ConservedIsLeakFree(cfg, Fresh(cfg, families), events);
    RunLeaksIff(cfg, Fresh(cfg, families), events);
  }

  // The first request of an enabled family is granted exactly when its row can be inserted and there are at least
  // 32 tables; with fewer, no request is ever granted.
  lemma FirstRequestIff(cfg: Config, families: set<Family>, key: Key, now: nat, updated: bool, inserted: bool)
    requires cfg.Accepted() && key.fam in families && families <= FAMILIES && ClockFits(cfg, now)
    ensures Request(cfg, Fresh(cfg, families), key, now, updated, inserted).1.Some? <==> inserted && cfg.numTables >= 32
    ensures cfg.numTables < 32 ==>
              forall s | RowsOk(cfg, s) :: Request(cfg, s, key, now, updated, inserted).1 == None
  {
    var s := Fresh(cfg, families);
    FreshAgrees(cfg, families);
    InvAges(cfg, s, 0, now);
    NewLease(cfg, s, key, now, updated, inserted);
    WordsCoverTables(cfg);
    if cfg.numTables >= 32 {
      SlotRoundTrip(cfg, 1);
      assert WithinWords(0, cfg.Elements());
      assert TableFree(cfg, s, key.fam, cfg.TableAt(1));
    } else {
      forall s | RowsOk(cfg, s) ensures Request(cfg, s, key, now, updated, inserted).1 == None {
        NoWordsNoLease(cfg, s, key, now, updated, inserted);
      }
    }
  }

  // Leases are there for IPv4, IPv6 and unspecified addresses.
  lemma ThreeFamilies(cfg: Config, key: Key, now: nat, updated: bool)
    requires cfg.Accepted() && cfg.numTables >= 32 && ClockFits(cfg, now) && key.fam in {0, 2, 10}
    ensures {0, 2, 10} <= FAMILIES
    ensures Request(cfg, Fresh(cfg, {0, 2, 10}), key, now, updated, true).1.Some?
  {
    FirstRequestIff(cfg, {0, 2, 10}, key, now, updated, true);
  }

  lemma NoWordsNoLease(cfg: Config, s: Server, key: Key, now: nat, updated: bool, inserted: bool)
    requires RowsOk(cfg, s) && cfg.numTables < 32
    ensures Request(cfg, s, key, now, updated, inserted).1 == None
  {
    assert AllSlots(cfg.Elements()) == {};
  }
}
