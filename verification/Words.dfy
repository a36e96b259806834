/** The 32-bit words of the table maps. Bit 1 means that the slot's routing table is free. */
module Words {
  // 1 << k
  function Mask(k: nat): bv32
    requires k < 32
  {
    1 << k
  }

  predicate Bit(w: bv32, k: nat)
    requires k < 32
  {
    w & Mask(k) != 0
  }

  lemma AmountsDiffer(j: nat, k: nat)
    requires j < 32 && k < 32 && j != k
    ensures j as bv6 != k as bv6
  {
    assert (j as bv6) as nat == j;
    assert (k as bv6) as nat == k;
  }

  lemma FlipShifted(w: bv32, a: bv6, b: bv6)
    requires a < 32 && b < 32
    ensures (w ^ (1 << a)) & (1 << b) != 0 <==> (if a == b then w & (1 << b) == 0 else w & (1 << b) != 0)
  {
  }

  // XOR with 1 << k flips bit k and no other.
  lemma FlipBit(w: bv32, k: nat, j: nat)
    requires k < 32 && j < 32
    ensures Bit(w ^ Mask(k), j) == (if j == k then !Bit(w, j) else Bit(w, j))
  {
    FlipShifted(w, k as bv6, j as bv6);
    if j != k {
      AmountsDiffer(j, k);
    }
  }

  lemma MaskStep(k: nat)
    requires k < 31
    ensures Mask(k + 1) == Mask(k) << 1
  {
  }

  lemma {:induction false} LowBitsClear(w: bv32, k: nat)
    requires k < 32 && forall j: nat | j < k :: !Bit(w, j)
    ensures w & (Mask(k) - 1) == 0
  {
    if k == 0 {
    } else {
      LowBitsClear(w, k - 1);
      MaskStep(k - 1);
      assert !Bit(w, k - 1);
    }
  }

  lemma ZeroIffNoBit(w: bv32)
    ensures w == 0 <==> forall k: nat | k < 32 :: !Bit(w, k)
  {
    if forall k: nat | k < 32 :: !Bit(w, k) {
      LowBitsClear(w, 31);
      assert !Bit(w, 31);
    }
  }

  lemma OnesHaveEveryBit(k: nat)
    requires k < 32
    ensures Bit(0xFFFF_FFFF, k)
  {
  }

  // ffs(3): one plus the index of the lowest bit that is set, 0 for the zero word.
  function Ffs(w: bv32): (r: nat)
    ensures w == 0 <==> r == 0
    ensures w != 0 ==> r <= 32 && Bit(w, r - 1) && forall j: nat | j < r - 1 :: !Bit(w, j)
  {
    ZeroIffNoBit(w);
    if w == 0 then 0 else LowestBit(w, 0) + 1
  }

  function LowestBit(w: bv32, k: nat): (b: nat)
    requires k < 32 && exists j: nat | k <= j < 32 :: Bit(w, j)
    ensures k <= b < 32 && Bit(w, b) && forall j: nat | k <= j < b :: !Bit(w, j)
    decreases 32 - k
  {
    if Bit(w, k) then k else LowestBit(w, k + 1)
  }

  predicate SlotFree(words: seq<bv32>, i: nat) {
    i < 32 * |words| && Bit(words[i / 32], i % 32)
  }

  // free is exactly the set of slots whose bit is 1.
  ghost predicate Represents(words: seq<bv32>, free: set<nat>) {
    && free <= AllSlots(|words|)
    && forall i: nat {:trigger SlotFree(words, i)} | i < 32 * |words| :: SlotFree(words, i) <==> i in free
  }

  predicate WithinWords(i: nat, elements: nat) {
    i < 32 * elements
  }

  ghost function AllSlots(elements: nat): set<nat> {
    set i: nat | i < 32 * elements && WithinWords(i, elements)
  }

  ghost function Toggle(s: set<nat>, x: nat): set<nat> {
    if x in s then s - {x} else s + {x}
  }

  // words[element] ^= 1 << bit
  function FlipWord(words: seq<bv32>, element: nat, bit: nat): (r: seq<bv32>)
    requires element < |words| && bit < 32
    ensures |r| == |words|
  {
    words[element := words[element] ^ Mask(bit)]
  }

  // The two cases of one flipped word, on words rather than on elements of a sequence.
  lemma FlippedIs(w: bv32, r: bv32, bit: nat, b: nat)
    requires bit < 32 && b < 32 && r == w ^ Mask(bit)
    ensures Bit(r, b) == (if b == bit then !Bit(w, b) else Bit(w, b))
  {
    FlipBit(w, bit, b);
  }

  lemma SameBit(w: bv32, r: bv32, b: nat)
    requires b < 32 && w == r
    ensures Bit(r, b) == Bit(w, b)
  {
  }

  lemma FlippedWord(words: seq<bv32>, element: nat, bit: nat, e: nat, b: nat)
    requires element < |words| && bit < 32 && e < |words| && b < 32
    ensures Bit(FlipWord(words, element, bit)[e], b)
            == (if e == element && b == bit then !Bit(words[e], b) else Bit(words[e], b))
  {
    if e == element {
      FlippedIs(words[e], FlipWord(words, element, bit)[e], bit, b);
    } else {
      SameBit(words[e], FlipWord(words, element, bit)[e], b);
    }
  }

  lemma FlipWordAt(words: seq<bv32>, element: nat, bit: nat, i: nat)
    requires element < |words| && bit < 32 && i < 32 * |words|
    ensures SlotFree(FlipWord(words, element, bit), i)
            == (if i == 32 * element + bit then !SlotFree(words, i) else SlotFree(words, i))
  {
    FlippedWord(words, element, bit, i / 32, i % 32);
  }

  // Flipping one bit of one word moves exactly one slot in or out of the free set.
  lemma FlipWordToggles(words: seq<bv32>, free: set<nat>, element: nat, bit: nat)
    requires element < |words| && bit < 32 && Represents(words, free)
    ensures Represents(FlipWord(words, element, bit), Toggle(free, 32 * element + bit))
  {
    assert WithinWords(32 * element + bit, |words|);
    forall i: nat | i < 32 * |words|
      ensures SlotFree(FlipWord(words, element, bit), i) <==> i in Toggle(free, 32 * element + bit)
    {
      FlipWordAt(words, element, bit, i);
    }
  }

  lemma OnesAreAllFree(words: seq<bv32>)
    requires forall i | 0 <= i < |words| :: words[i] == 0xFFFF_FFFF
    ensures Represents(words, AllSlots(|words|))
  {
    forall i: nat | i < 32 * |words| ensures SlotFree(words, i) && WithinWords(i, |words|) {
      OnesHaveEveryBit(i % 32);
    }
  }

  lemma ZeroWordsAreFull(words: seq<bv32>, free: set<nat>)
    requires forall k | 0 <= k < |words| :: words[k] == 0
    requires Represents(words, free)
    ensures free == {}
  {
    forall i: nat | i < 32 * |words| ensures i !in free {
      assert SlotFree(words, i) <==> i in free;
    }
  }

  lemma SlotOfBit(words: seq<bv32>, element: nat, bit: nat)
    requires element < |words| && bit < 32
    ensures SlotFree(words, 32 * element + bit) == Bit(words[element], bit)
  {
    assert (32 * element + bit) / 32 == element && (32 * element + bit) % 32 == bit;
  }

  lemma FirstWordIsLowest(words: seq<bv32>, i: nat, low: nat, element: nat, bit: nat)
    requires i < |words| && forall k | 0 <= k < i :: words[k] == 0
    requires low < 32 && forall j: nat | j < low :: !Bit(words[i], j)
    requires element < |words| && bit < 32 && Bit(words[element], bit)
    ensures 32 * i + low <= 32 * element + bit
  {
    assert words[element] != 0;
    assert i <= element;
  }

  // Skipping zero words and taking the lowest bit of the first other word finds the lowest free slot.
  lemma FirstWordHasLowest(words: seq<bv32>, free: set<nat>, i: nat, low: nat)
    requires Represents(words, free)
    requires i < |words| && forall k | 0 <= k < i :: words[k] == 0
    requires low < 32 && Bit(words[i], low) && forall j: nat | j < low :: !Bit(words[i], j)
    ensures 32 * i + low in free
    ensures forall x | x in free :: 32 * i + low <= x
  {
    SlotOfBit(words, i, low);
    forall x | x in free ensures 32 * i + low <= x {
      assert WithinWords(x, |words|);
      assert SlotFree(words, x);
      FirstWordIsLowest(words, i, low, x / 32, x % 32);
    }
  }
}
