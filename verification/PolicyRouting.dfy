/** Order of the clients' rules in the kernel, whatever it means for a rule to match. */
module PolicyRouting {
  import opened LeaseTypes
  import C = ClientModel

  // A client's address with its netmask, and the table that its rules name.
  datatype Owner = Owner(address: C.Address, mask: bv32, table: u32)

  function RuleOf(o: Owner, i: nat): C.Rule
    requires i < 3
  {
    C.Rules(o.address, o.table)[i]
  }

  ghost predicate Owned(owners: set<Owner>, r: C.Rule) {
    exists o, i: nat :: o in owners && i < 3 && r == RuleOf(o, i)
  }

  // All rules are clients' rules; any of a client's three may be missing.
  ghost predicate AllOwned(rules: set<C.Rule>, owners: set<Owner>) {
    forall r {:trigger Owned(owners, r)} | r in rules :: Owned(owners, r)
  }

  ghost predicate First(rules: set<C.Rule>, matches: C.Rule -> bool, r: C.Rule) {
    r in rules && matches(r) && forall q | q in rules && matches(q) :: r.prio <= q.prio
  }

  // Some owner's rule of level i is hit.
  ghost predicate Any(owners: set<Owner>, hit: (Owner, nat) -> bool, i: nat) {
    exists o :: o in owners && hit(o, i)
  }

  // The lowest level with a hit: source rules, then network rules, then default rules.
  ghost function Level(owners: set<Owner>, hit: (Owner, nat) -> bool): nat {
    if Any(owners, hit, 0) then 0 else if Any(owners, hit, 1) then 1 else 2
  }

  // r is an owner's rule that is hit, of the lowest level that has one.
  ghost predicate ByLevel(owners: set<Owner>, hit: (Owner, nat) -> bool, r: C.Rule) {
    var level := Level(owners, hit);
    exists o :: o in owners && r == RuleOf(o, level) && hit(o, level)
  }

  function Prio(i: nat): nat {
    if i == 0 then C.ADDR_RULE_PRIO else if i == 1 then C.NW_RULE_PRIO else C.DEF_RULE_PRIO
  }

  // A hit is a rule that is installed and matches.
  ghost predicate HitsAre(rules: set<C.Rule>, owners: set<Owner>, matches: C.Rule -> bool, hit: (Owner, nat) -> bool) {
    forall o, i: nat {:trigger hit(o, i)} | o in owners && i < 3 ::
      hit(o, i) <==> RuleOf(o, i) in rules && matches(RuleOf(o, i))
  }

  lemma OwnerOf(rules: set<C.Rule>, owners: set<Owner>, matches: C.Rule -> bool, hit: (Owner, nat) -> bool, r: C.Rule)
    returns (o: Owner, i: nat)
    requires AllOwned(rules, owners) && HitsAre(rules, owners, matches, hit) && r in rules && matches(r)
    ensures o in owners && i < 3 && r == RuleOf(o, i) && hit(o, i)
    ensures r.prio == Prio(i)
    ensures Level(owners, hit) <= i
  {
    assert Owned(owners, r);
    o, i :| o in owners && i < 3 && r == RuleOf(o, i);
    assert hit(o, i);
  }

  lemma FirstIsByLevel(rules: set<C.Rule>, owners: set<Owner>, matches: C.Rule -> bool, hit: (Owner, nat) -> bool,
                       r: C.Rule)
    requires AllOwned(rules, owners) && HitsAre(rules, owners, matches, hit)
    ensures First(rules, matches, r) <==> ByLevel(owners, hit, r)
  {
    var level := Level(owners, hit);
    if First(rules, matches, r) {
      var o, i := OwnerOf(rules, owners, matches, hit, r);
      FirstIsLowest(rules, owners, matches, hit, r, i);
    }
    if ByLevel(owners, hit, r) {
      var o :| o in owners && r == RuleOf(o, level) && hit(o, level);
      forall q | q in rules && matches(q) ensures r.prio <= q.prio {
        var p, i := OwnerOf(rules, owners, matches, hit, q);
      }
    }
  }

  // A first rule is not above the lowest level that has a hit.
  lemma FirstIsLowest(rules: set<C.Rule>, owners: set<Owner>, matches: C.Rule -> bool, hit: (Owner, nat) -> bool,
                      r: C.Rule, i: nat)
    requires HitsAre(rules, owners, matches, hit)
    requires First(rules, matches, r) && i < 3 && r.prio == Prio(i)
    ensures i <= Level(owners, hit)
  {
    var level := Level(owners, hit);
    if level < 2 {
      var p :| p in owners && hit(p, level);
      assert RuleOf(p, level) in rules && RuleOf(p, level).prio == Prio(level);
    }
  }
}
