/** Which routing tables the kernel consults for a packet, given the rules that the clients install. */
module RuleSelection {
  import opened LeaseTypes
  import opened Words
  import opened PolicyRouting
  import C = ClientModel

  // compute_prefix_len_4: the number of bits down to the lowest one that is set, 33 for the zero mask.
  function PrefixLen(mask: bv32): nat {
    32 - (Ffs(mask) - 1)
  }

  // A netmask proper has no 0 bit above a 1 bit (section 3.1 of RFC 4632).
  ghost predicate Contiguous(mask: bv32) {
    forall i: nat, j: nat | i <= j < 32 && Bit(mask, i) :: Bit(mask, j)
  }

  // The kernel's mask of a prefix length: its upper len bits are 1.
  function NetMask(len: nat): bv32
    requires 1 <= len <= 32
  {
    !(Mask(32 - len) - 1)
  }

  predicate InSubnet(dst: bv32, addr: bv32, mask: bv32) {
    dst & mask == addr & mask
  }

  // A prefix of a length that the kernel does not accept matches nothing.
  predicate InPrefix(dst: bv32, p: C.Prefix) {
    1 <= p.len <= 32 && InSubnet(dst, p.addr, NetMask(p.len))
  }

  lemma AmountsOrder(j: nat, k: nat)
    requires j < 32 && k < 32
    ensures j as bv6 <= k as bv6 <==> j <= k
    ensures j as bv6 < 32 && k as bv6 < 32
  {
    assert (j as bv6) as nat == j;
    assert (k as bv6) as nat == k;
  }

  lemma ShiftedNetMask(a: bv6, b: bv6)
    requires a < 32 && b < 32
    ensures !(((1 as bv32) << a) - 1) & (1 << b) != 0 <==> a <= b
  {
  }

  lemma NetMaskBit(low: nat, j: nat)
    requires low < 32 && j < 32
    ensures Bit(NetMask(32 - low), j) <==> low <= j
  {
    AmountsOrder(low, j);
    ShiftedNetMask(low as bv6, j as bv6);
  }

  lemma OneBitOrNone(w: bv32, b: bv6)
    requires b < 32
    ensures (1 as bv32) << b != 0 && (w & (1 << b) == 0 || w & (1 << b) == 1 << b)
  {
  }

  lemma MaskIsShift(j: nat)
    requires j < 32
    ensures j as bv6 < 32 && Mask(j) == 1 << (j as bv6)
  {
    assert (j as bv6) as nat == j;
  }

  lemma MaskOrNone(w: bv32, m: bv32, b: bv6)
    requires b < 32 && m == 1 << b
    ensures m != 0 && (w & m == 0 || w & m == m)
  {
    OneBitOrNone(w, b);
  }

  lemma BitOrNone(w: bv32, j: nat)
    requires j < 32
    ensures Mask(j) != 0 && (w & Mask(j) == 0 || w & Mask(j) == Mask(j))
  {
    MaskIsShift(j);
    MaskOrNone(w, Mask(j), j as bv6);
  }

  lemma ShiftedAbove(b: bv6)
    requires b < 31
    ensures (1 << b) | !(((1 as bv32) << b << 1) - 1) == !((1 << b) - 1)
  {
  }

  lemma MaskAbove(k: nat)
    requires k < 31
    ensures Mask(k) | !((Mask(k) << 1) - 1) == !(Mask(k) - 1)
  {
    ShiftedAbove(k as bv6);
  }

  lemma JoinAbove(w: bv32, m: bv32, above: bv32, all: bv32)
    requires m | above == all && !w & above == 0 && w & m == m
    ensures !w & all == 0
  {
  }

  lemma OneMoreHighBit(w: bv32, k: nat)
    requires k < 31 && w & Mask(k) == Mask(k)
    requires !w & !((Mask(k) << 1) - 1) == 0
    ensures !w & !(Mask(k) - 1) == 0
  {
    MaskAbove(k);
    JoinAbove(w, Mask(k), !((Mask(k) << 1) - 1), !(Mask(k) - 1));
  }

  lemma TopBit(w: bv32)
    requires Bit(w, 31)
    ensures !w & !(Mask(31) - 1) == 0
  {
  }

  predicate HighBits(w: bv32, k: nat)
    requires k < 32
    decreases 32 - k
  {
    Bit(w, k) && (k < 31 ==> HighBits(w, k + 1))
  }

  lemma {:induction false} HighBitsSet(w: bv32, k: nat)
    requires k < 32 && HighBits(w, k)
    ensures !w & !(Mask(k) - 1) == 0
    decreases 32 - k
  {
    if k == 31 {
      TopBit(w);
    } else {
      HighBitsSet(w, k + 1);
      MaskStep(k);
      BitOrNone(w, k);
      OneMoreHighBit(w, k);
    }
  }

  lemma {:induction false} ContiguousHighBits(mask: bv32, low: nat)
    requires low < 32 && Contiguous(mask) && Bit(mask, low)
    ensures HighBits(mask, low)
    decreases 32 - low
  {
    if low < 31 {
      ContiguousHighBits(mask, low + 1);
    }
  }

  lemma Complements(w: bv32, m: bv32)
    requires w & (m - 1) == 0 && !w & !(m - 1) == 0
    ensures w == !(m - 1)
  {
  }

  lemma ContiguousMask(mask: bv32, low: nat)
    requires low < 32 && Contiguous(mask) && Bit(mask, low) && forall j: nat | j < low :: !Bit(mask, j)
    ensures NetMask(32 - low) == mask
  {
    LowBitsClear(mask, low);
    ContiguousHighBits(mask, low);
    HighBitsSet(mask, low);
    Complements(mask, Mask(low));
  }

  lemma NetMaskIsContiguous(len: nat)
    requires 1 <= len <= 32
    ensures Contiguous(NetMask(len))
  {
    var mask := NetMask(len);
    forall i: nat, j: nat | i <= j < 32 && Bit(mask, i) ensures Bit(mask, j) {
      NetMaskBit(32 - len, i);
      NetMaskBit(32 - len, j);
    }
  }

  // The length computed from a mask gives the mask back exactly for the contiguous ones; the zero mask gives 33.
  lemma PrefixLenInverts(mask: bv32)
    ensures if mask == 0 then PrefixLen(mask) == 33 else 1 <= PrefixLen(mask) <= 32
    ensures mask != 0 ==> (NetMask(PrefixLen(mask)) == mask <==> Contiguous(mask))
  {
    if mask != 0 {
      if Contiguous(mask) {
        ContiguousMask(mask, Ffs(mask) - 1);
      }
      NetMaskIsContiguous(PrefixLen(mask));
    }
  }

  lemma FlipOneBit(mask: bv32, net: bv32, m: bv32)
    requires mask & m == 0 && net & m == m && m != 0
    ensures m & mask == 0 & mask && m & net != 0 & net
  {
  }

  lemma SubnetOfPrefix(mask: bv32, len: nat, dst: bv32, addr: bv32)
    requires 1 <= len <= 32 && NetMask(len) == mask
    ensures InPrefix(dst, C.Prefix(addr, len)) <==> InSubnet(dst, addr, mask)
  {
  }

  // A mask with a gap: some destination is in its subnet and not under its prefix.
  lemma GapLosesDestination(mask: bv32, len: nat, j: nat) returns (dst: bv32)
    requires 1 <= len <= 32 && 32 - len <= j < 32 && !Bit(mask, j)
    ensures InSubnet(dst, 0, mask) && !InPrefix(dst, C.Prefix(0, len))
  {
    NetMaskBit(32 - len, j);
    BitOrNone(NetMask(len), j);
    BitOrNone(mask, j);
    dst := Mask(j);
    FlipOneBit(mask, NetMask(len), dst);
  }

  // The network rule covers exactly the client's subnet, for every address, exactly when the mask is contiguous.
  lemma NetworkRuleIsSubnetIff(mask: bv32)
    requires mask != 0
    ensures Contiguous(mask) <==>
              forall dst: bv32, addr: bv32 ::
                InPrefix(dst, C.Prefix(addr, PrefixLen(mask))) <==> InSubnet(dst, addr, mask)
  {
    PrefixLenInverts(mask);
    var len := PrefixLen(mask);
    if Contiguous(mask) {
      forall dst: bv32, addr: bv32 ensures InPrefix(dst, C.Prefix(addr, len)) <==> InSubnet(dst, addr, mask) {
        SubnetOfPrefix(mask, len, dst, addr);
      }
    } else {
      var i: nat, j: nat :| i <= j < 32 && Bit(mask, i) && !Bit(mask, j);
      var dst := GapLosesDestination(mask, len, j);
    }
  }

  // local: the packet originates on this host.
  datatype Traffic = Traffic(src: bv32, dst: bv32, local: bool)

  predicate Matches(r: C.Rule, t: Traffic) {
    && (r.src.Some? ==> InPrefix(t.src, r.src.value))
    && (r.dst.Some? ==> InPrefix(t.dst, r.dst.value))
    && (r.loopback ==> t.local)
  }

  function Matching(t: Traffic): C.Rule -> bool {
    (r: C.Rule) => Matches(r, t)
  }

  // What an owner's three rules are for: traffic from its address, traffic into its subnet, traffic of the host.
  function For(o: Owner, i: nat, t: Traffic): bool {
    if i == 0 then o.address.addr == t.src else if i == 1 then InSubnet(t.dst, o.address.addr, o.mask) else t.local
  }

  // The owner's i-th rule is installed and for this traffic.
  function Hits(rules: set<C.Rule>, t: Traffic): (Owner, nat) -> bool {
    (o: Owner, i: nat) => i < 3 && RuleOf(o, i) in rules && For(o, i, t)
  }

  // The matching rules of the lowest priority number: the ones whose tables are consulted first.
  ghost predicate Consulted(rules: set<C.Rule>, t: Traffic, r: C.Rule) {
    First(rules, Matching(t), r)
  }

  // Traffic from an owner's address goes to the tables of that address, if such a rule is installed; otherwise
  // traffic into owners' subnets to the tables of those; otherwise traffic of the host to any owner's table.
  ghost predicate Expected(rules: set<C.Rule>, owners: set<Owner>, t: Traffic, r: C.Rule) {
    ByLevel(owners, Hits(rules, t), r)
  }

  ghost predicate ProperMask(o: Owner) {
    o.mask != 0 && Contiguous(o.mask) && o.address.prefixLen == PrefixLen(o.mask)
  }

  lemma FullMask(x: bv32, y: bv32)
    ensures InSubnet(x, y, NetMask(32)) <==> x == y
  {
    assert NetMask(32) == 0xFFFF_FFFF;
  }

  lemma OwnRulesMatch(o: Owner, t: Traffic, i: nat)
    requires ProperMask(o) && i < 3
    ensures Matches(RuleOf(o, i), t) <==> For(o, i, t)
  {
    FullMask(t.src, o.address.addr);
    PrefixLenInverts(o.mask);
    SubnetOfPrefix(o.mask, o.address.prefixLen, t.dst, o.address.addr);
  }

  // The rules whose tables the kernel consults first for a packet, whichever of their rules the clients have
  // installed so far.
  lemma KernelConsultsIff(rules: set<C.Rule>, owners: set<Owner>, t: Traffic, r: C.Rule)
    requires AllOwned(rules, owners) && forall o | o in owners :: ProperMask(o)
    ensures Consulted(rules, t, r) <==> Expected(rules, owners, t, r)
  {
    forall o, i: nat | o in owners && i < 3
      ensures Hits(rules, t)(o, i) <==> RuleOf(o, i) in rules && Matching(t)(RuleOf(o, i))
    {
      OwnRulesMatch(o, t, i);
    }
    FirstIsByLevel(rules, owners, Matching(t), Hits(rules, t), r);
  }

  // The mask of a prefix length that the kernel accepts is a proper one.
  lemma NetMaskIsProper(len: nat)
    requires 1 <= len <= 32
    ensures NetMask(len) != 0 && Contiguous(NetMask(len)) && PrefixLen(NetMask(len)) == len
  {
    var mask := NetMask(len);
    NetMaskIsContiguous(len);
    NetMaskBit(32 - len, 32 - len);
    BitOrNone(mask, 32 - len);
    NetMaskBit(32 - len, Ffs(mask) - 1);
  }

  // Traffic from an address for which a source rule is installed consults only source rules of that address.
  lemma SourceRulesFirst(rules: set<C.Rule>, owners: set<Owner>, t: Traffic, r: C.Rule, o: Owner)
    requires AllOwned(rules, owners) && o in owners && RuleOf(o, 0) in rules && o.address.addr == t.src
    ensures Consulted(rules, t, r) <==>
              r in rules && exists p :: p in owners && r == RuleOf(p, 0) && p.address.addr == t.src
  {
    FullMask(t.src, t.src);
    assert Matches(RuleOf(o, 0), t);
    if r in rules {
      assert Owned(owners, r);
      var p, i: nat :| p in owners && i < 3 && r == RuleOf(p, i);
      FullMask(t.src, p.address.addr);
    }
    forall q | q in rules ensures q.prio >= C.ADDR_RULE_PRIO {
      assert Owned(owners, q);
    }
  }
}
