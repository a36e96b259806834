/** The promise of the server, without table maps, rows or statements: a service that lends tables for a time. */
module LeaseService {
  import opened LeaseTypes

  datatype Grant = Grant(key: Key, table: u32, expires: int)

  // What can be seen from outside at one step.
  datatype Action =
    | Granted(key: Key, table: u32, expires: int)
    | Released(key: Key)
    | Silent

  datatype Observation = Observation(now: nat, action: Action)

  ghost function Unexpired(g: set<Grant>, now: nat): set<Grant> {
    set x | x in g && x.expires > now
  }

  ghost function Drop(g: set<Grant>, key: Key): set<Grant> {
    set x | x in g && x.key != key
  }

  // A table may be granted when no other key of the family has it.
  ghost predicate Permits(g: set<Grant>, a: Action) {
    a.Granted? ==> forall x | x in g && x.table == a.table && x.key.fam == a.key.fam :: x.key == a.key
  }

  ghost function Do(g: set<Grant>, a: Action): set<Grant> {
    match a
    case Granted(key, table, expires) => Drop(g, key) + {Grant(key, table, expires)}
    case Released(key) => Drop(g, key)
    case Silent => g
  }

  // The log is one that the service may produce from the grants g.
  ghost predicate Allowed(g: set<Grant>, log: seq<Observation>)
    decreases |log|
  {
    log == [] ||
    (var g0 := Unexpired(g, log[0].now);
     Permits(g0, log[0].action) && Allowed(Do(g0, log[0].action), log[1..]))
  }

  ghost predicate InOrder(log: seq<Observation>) {
    forall i, j | 0 <= i < j < |log| :: log[i].now <= log[j].now
  }

  predicate Concerns(a: Action, key: Key) {
    !a.Silent? && a.key == key
  }

  // Two keys of one family are granted the same table only when the first grant has expired by then, unless the
  // first key was granted something again or released in between.
  lemma {:induction false} GrantsAreExclusive(g: set<Grant>, log: seq<Observation>, i: nat, j: nat)
    requires Allowed(g, log) && InOrder(log) && i < j < |log|
    requires log[i].action.Granted? && log[j].action.Granted?
    requires log[i].action.table == log[j].action.table
    requires log[i].action.key != log[j].action.key && log[i].action.key.fam == log[j].action.key.fam
    requires forall k | i < k < j :: !Concerns(log[k].action, log[i].action.key)
    ensures log[i].action.expires <= log[j].now
    decreases |log|
  {
    var g1 := Do(Unexpired(g, log[0].now), log[0].action);
    if i == 0 {
      var a := log[0].action;
      GrantLasts(g1, Grant(a.key, a.table, a.expires), log[1..], j - 1);
    } else {
      GrantsAreExclusive(g1, log[1..], i - 1, j - 1);
    }
  }

  lemma {:induction false} GrantLasts(g: set<Grant>, x: Grant, log: seq<Observation>, j: nat)
    requires x in g && Allowed(g, log) && InOrder(log) && j < |log|
    requires log[j].action.Granted? && log[j].action.table == x.table
    requires log[j].action.key != x.key && log[j].action.key.fam == x.key.fam
    requires forall k | 0 <= k < j :: !Concerns(log[k].action, x.key)
    ensures x.expires <= log[j].now
    decreases |log|
  {
    if j > 0 && x.expires > log[0].now {
      GrantLasts(Do(Unexpired(g, log[0].now), log[0].action), x, log[1..], j - 1);
    }
  }
}
