/** Every run of the server is a run of the lease service. */
module ServerRefinement {
  import opened LeaseTypes
  import opened ServerModel
  import opened ServerInvariant
  import opened ServerProperties
  import opened ServerRuns
  import opened LeaseService

  ghost function LiveGrants(rows: Rows, now: nat): set<Grant> {
    set pk | pk in rows && rows[pk].expires > now :: Grant(KeyOf(pk, rows[pk]), pk.table, rows[pk].expires)
  }

  ghost function ActionOf(cfg: Config, s: Server, e: Event): Action
    requires cfg.Accepted() && RowsOk(cfg, s)
  {
    var reply := Apply(cfg, s, e).1;
    if !e.op.Message? || reply.None? then Silent
    else if e.op.cmd == CMD_REQ then Granted(e.op.key, reply.value.table, reply.value.expires)
    else Released(e.op.key)
  }

  ghost function Log(cfg: Config, s: Server, events: seq<Event>): (log: seq<Observation>)
    requires cfg.Accepted() && RowsOk(cfg, s)
    ensures |log| == |events| && forall i | 0 <= i < |log| :: log[i].now == events[i].now
    decreases |events|
  {
    if events == [] then [] else
      [Observation(events[0].now, ActionOf(cfg, s, events[0]))] + Log(cfg, Apply(cfg, s, events[0]).0, events[1..])
  }

  lemma GrantOf(rows: Rows, now: nat, x: Grant)
    ensures x in LiveGrants(rows, now) <==>
              && PrimaryKey(x.table, x.key.fam) in rows
              && var row := rows[PrimaryKey(x.table, x.key.fam)];
                 row.expires == x.expires > now && row.ifname == x.key.ifname && row.addr == x.key.addr
  {
    var pk := PrimaryKey(x.table, x.key.fam);
    if pk in rows && rows[pk].expires == x.expires > now && KeyOf(pk, rows[pk]) == x.key {
      assert Grant(KeyOf(pk, rows[pk]), pk.table, rows[pk].expires) == x;
    }
  }

  // Writing an unexpired row for a key, over its own row or over none that is alive, is granting.
  lemma WritingIsGranting(rows: Rows, pk: PrimaryKey, row: Row, now: nat)
    requires UniqueKeys(rows) && row.expires > now
    requires pk in rows && rows[pk].expires > now ==> KeyOf(pk, rows[pk]) == KeyOf(pk, row)
    requires HasRow(rows, KeyOf(pk, row)) ==> Owns(rows, pk, KeyOf(pk, row))
    ensures var a := Granted(KeyOf(pk, row), pk.table, row.expires);
            && Permits(LiveGrants(rows, now), a)
            && LiveGrants(rows[pk := row], now) == Do(LiveGrants(rows, now), a)
  {
    var key := KeyOf(pk, row);
    var a := Granted(key, pk.table, row.expires);
    forall x ensures x in LiveGrants(rows[pk := row], now) <==> x in Do(LiveGrants(rows, now), a) {
      GrantOf(rows, now, x);
      GrantOf(rows[pk := row], now, x);
      var q := PrimaryKey(x.table, x.key.fam);
      assert q in rows && KeyOf(q, rows[q]) == key ==> Owns(rows, q, key);
    }
    forall x | x in LiveGrants(rows, now) && x.table == pk.table && x.key.fam == key.fam ensures x.key == key {
      GrantOf(rows, now, x);
    }
  }

  lemma RequestRefines(cfg: Config, s: Server, key: Key, now: nat, io: Io)
    requires Inv(cfg, s, now) && ClockFits(cfg, now)
    ensures var (s', reply) := Request(cfg, s, key, now, io.updated, io.inserted);
            var a := if reply.None? then Silent else Granted(key, reply.value.table, reply.value.expires);
            && Permits(LiveGrants(s.rows, now), a)
            && LiveGrants(s'.rows, now) == Do(LiveGrants(s.rows, now), a)
  {
    var reply := Request(cfg, s, key, now, io.updated, io.inserted).1;
    if HasRow(s.rows, key) {
      Renewal(cfg, s, key, now, io.updated, io.inserted);
      var pk := PrimaryKey(Lookup(s.rows, key), key.fam);
      WritingIsGranting(s.rows, pk, s.rows[pk].(expires := now + cfg.timeout), now);
    } else {
      NewLease(cfg, s, key, now, io.updated, io.inserted);
      if reply.None? {
        RefusalRollsBack(cfg, s, key, now, io.updated, io.inserted);
      } else {
        var pk := PrimaryKey(reply.value.table, key.fam);
        WritingIsGranting(s.rows, pk, Row(key.ifname, key.addr, now + cfg.timeout), now);
      }
    }
  }

  lemma ReleaseRefines(cfg: Config, s: Server, key: Key, now: nat, removed: bool)
    requires Inv(cfg, s, now)
    ensures var (s', done) := Release(cfg, s, key, removed);
            LiveGrants(s'.rows, now) == Do(LiveGrants(s.rows, now), if done then Released(key) else Silent)
  {
    var (s', done) := Release(cfg, s, key, removed);
    if done {
      forall x ensures x in LiveGrants(s'.rows, now) <==> x in Drop(LiveGrants(s.rows, now), key) {
        GrantOf(s.rows, now, x);
        GrantOf(s'.rows, now, x);
        var q := PrimaryKey(x.table, x.key.fam);
        assert q in s.rows && KeyOf(q, s.rows[q]) == key ==> Owns(s.rows, q, key);
      }
    }
  }

  lemma StepRefines(cfg: Config, s: Server, e: Event)
    requires Inv(cfg, s, e.now) && Proper(cfg, s, e)
    ensures var a := ActionOf(cfg, s, e);
            && Permits(LiveGrants(s.rows, e.now), a)
            && LiveGrants(Apply(cfg, s, e).0.rows, e.now) == Do(LiveGrants(s.rows, e.now), a)
  {
    match e.op
    case Message(key, cmd, io) =>
      if cmd == CMD_REQ {
        RequestRefines(cfg, s, key, e.now, io);
      } else if cmd == CMD_REL {
        ReleaseRefines(cfg, s, key, e.now, io.removed);
      }
    case SweepOp(_, _) =>
      ClockFacts(cfg, e.now);
      var s' := Apply(cfg, s, e).0;
      forall x ensures x in LiveGrants(s'.rows, e.now) <==> x in LiveGrants(s.rows, e.now) {
        GrantOf(s.rows, e.now, x);
        GrantOf(s'.rows, e.now, x);
      }
    case Restart(_) =>
  }

  // Refinement: the log of every scheduled run is one that the lease service allows.
  lemma {:induction false} RunRefines(cfg: Config, s: Server, from: nat, events: seq<Event>)
    requires Inv(cfg, s, from) && Schedule(cfg, s, from, events)
    ensures Allowed(LiveGrants(s.rows, from), Log(cfg, s, events))
    decreases |events|
  {
    if events == [] {
    } else {
      var e := events[0];
      InvAges(cfg, s, from, e.now);
      StepKeepsInv(cfg, s, e);
      StepRefines(cfg, s, e);
      assert Unexpired(LiveGrants(s.rows, from), e.now) == LiveGrants(s.rows, e.now);
      RunRefines(cfg, Apply(cfg, s, e).0, e.now, events[1..]);
    }
  }

  lemma {:induction false} ScheduleInOrder(cfg: Config, s: Server, from: nat, events: seq<Event>, i: nat, j: nat)
    requires cfg.Accepted() && RowsOk(cfg, s) && Schedule(cfg, s, from, events) && i <= j < |events|
    ensures from <= events[i].now <= events[j].now
    decreases |events|
  {
    if j > 0 {
      ScheduleInOrder(cfg, Apply(cfg, s, events[0]).0, events[0].now, events[1..], if i == 0 then 0 else i - 1, j - 1);
    }
  }

  // Safety of whole runs, in terms of the replies alone: from an empty database, whatever fails and however often
  // the server restarts, a table granted to one key is granted to another of its family only after the first
  // lease has expired or been given up.
  lemma RepliesAreExclusive(cfg: Config, families: set<Family>, events: seq<Event>, i: nat, j: nat)
    requires cfg.Accepted() && families <= FAMILIES && ClockFits(cfg, 0)
    requires Schedule(cfg, Fresh(cfg, families), 0, events)
    requires i < j < |events|
    requires var log := Log(cfg, Fresh(cfg, families), events);
             && log[i].action.Granted? && log[j].action.Granted?
             && log[i].action.table == log[j].action.table
             && log[i].action.key != log[j].action.key && log[i].action.key.fam == log[j].action.key.fam
             && forall k | i < k < j :: !Concerns(log[k].action, log[i].action.key)
    ensures Log(cfg, Fresh(cfg, families), events)[i].action.expires <= events[j].now
  {
    var s := Fresh(cfg, families);
    FreshAgrees(cfg, families);
    RunRefines(cfg, s, 0, events);
    forall a, b | 0 <= a < b < |events| ensures events[a].now <= events[b].now {
      ScheduleInOrder(cfg, s, 0, events, a, b);
    }
    GrantsAreExclusive(LiveGrants(s.rows, 0), Log(cfg, s, events), i, j);
  }
}
