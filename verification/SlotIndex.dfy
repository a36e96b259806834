/** The word and the bit that a slot is kept at: shift and mask on 32-bit words, as numbers. */
module SlotIndex {
  // The number that a word stands for.
  function Number(w: bv32): nat
    decreases w
  {
    if w == 0 then 0 else LowBit(w) + 2 * Number(w >> 1)
  }

  function LowBit(w: bv32): nat {
    if w & 1 == 0 then 0 else 1
  }

  lemma Halves(w: bv32)
    ensures Number(w >> 1) == Number(w) / 2 && LowBit(w) == Number(w) % 2
  {
  }

  lemma FiveShifts(w: bv32)
    ensures w >> 5 == w >> 1 >> 1 >> 1 >> 1 >> 1
  {
  }

  lemma MaskedShift(w: bv32, m: bv32)
    requires m & 1 == 1
    ensures (w & m) >> 1 == (w >> 1) & (m >> 1) && LowBit(w & m) == LowBit(w)
  {
    assert (w & m) & 1 == w & 1;
  }

  // m has one low bit more than m >> 1.
  lemma MaskedHalves(w: bv32, m: bv32, half: bv32)
    requires m & 1 == 1 && half == m >> 1
    ensures Number(w & m) == Number(w) % 2 + 2 * Number((w >> 1) & half)
  {
    MaskedShift(w, m);
    Halves(w);
    Halves(w & m);
  }

  lemma ShiftDivides(w: bv32)
    ensures Number(w >> 5) == Number(w) / 32
  {
    var w1 := w >> 1;
    var w2 := w1 >> 1;
    var w3 := w2 >> 1;
    var w4 := w3 >> 1;
    FiveShifts(w);
    Halves(w);
    Halves(w1);
    Halves(w2);
    Halves(w3);
    Halves(w4);
  }

  lemma NoBits(w: bv32)
    ensures Number(w & 0) == 0
  {
    assert w & 0 == 0;
  }

  lemma Remainder4(n: nat)
    ensures n % 2 + 2 * (n / 2 % 2) == n % 4
  {
  }

  lemma Remainder8(n: nat)
    ensures n % 2 + 2 * (n / 2 % 4) == n % 8
  {
  }

  lemma Remainder16(n: nat)
    ensures n % 2 + 2 * (n / 2 % 8) == n % 16
  {
  }

  lemma Remainder32(n: nat)
    ensures n % 2 + 2 * (n / 2 % 16) == n % 32
  {
  }

  // One more low bit, as numbers: x is the number of w >> 1 under the mask half.
  lemma MaskedNumber(w: bv32, m: bv32, half: bv32, x: nat)
    requires m & 1 == 1 && half == m >> 1 && Number((w >> 1) & half) == x
    ensures Number(w & m) == Number(w) % 2 + 2 * x && Number(w >> 1) == Number(w) / 2
  {
    MaskedHalves(w, m, half);
    Halves(w);
  }

  lemma OneBit(w: bv32)
    ensures Number(w & 0x1) == Number(w) % 2
  {
    NoBits(w >> 1);
    MaskedNumber(w, 0x1, 0, 0);
  }

  lemma TwoBits(w: bv32)
    ensures Number(w & 0x3) == Number(w) % 4
  {
    OneBit(w >> 1);
    MaskedNumber(w, 0x3, 0x1, Number(w >> 1) % 2);
    Remainder4(Number(w));
  }

  lemma ThreeBits(w: bv32)
    ensures Number(w & 0x7) == Number(w) % 8
  {
    TwoBits(w >> 1);
    MaskedNumber(w, 0x7, 0x3, Number(w >> 1) % 4);
    Remainder8(Number(w));
  }

  lemma FourBits(w: bv32)
    ensures Number(w & 0xF) == Number(w) % 16
  {
    ThreeBits(w >> 1);
    MaskedNumber(w, 0xF, 0x7, Number(w >> 1) % 8);
    Remainder16(Number(w));
  }

  lemma MaskTakesRemainder(w: bv32)
    ensures Number(w & 0x1F) == Number(w) % 32
  {
    FourBits(w >> 1);
    MaskedNumber(w, 0x1F, 0xF, Number(w >> 1) % 16);
    Remainder32(Number(w));
  }

  // Shifting by five and masking with 0x1F are division by 32 and its remainder, on the numbers the words stand for.
  lemma ShiftAndMask(w: bv32)
    ensures Number(w >> 5) == Number(w) / 32 && Number(w & 0x1F) == Number(w) % 32
  {
    ShiftDivides(w);
    MaskTakesRemainder(w);
  }

  // m is a run of low bits: 2^k - 1 for some k.
  predicate LowOnes(m: bv32) {
    m & (m + 1) == 0
  }

  lemma AppendBit(w: bv32, m: bv32, bit: bv32)
    requires LowOnes(m) && m != 0 && w <= m >> 1 && bit <= 1
    ensures LowOnes(m >> 1)
    ensures var r := (w << 1) | bit; r <= m && r >> 1 == w && r & 1 == bit
  {
  }

  // The word that stands for n.
  function WordWithin(n: nat, m: bv32): (w: bv32)
    requires LowOnes(m) && n <= Number(m)
    ensures Number(w) == n && w <= m
    decreases n
  {
    if n == 0 then 0
    else
      assert m != 0;
      AppendBit(0, m, 0);
      Halves(m);
      var half := WordWithin(n / 2, m >> 1);
      var bit: bv32 := if n % 2 == 0 then 0 else 1;
      AppendBit(half, m, bit);
      Halves((half << 1) | bit);
      (half << 1) | bit
  }

  lemma FourLowBits(m: bv32)
    requires m & 0xF == 0xF
    ensures m >> 4 == m >> 1 >> 1 >> 1 >> 1
    ensures m & 1 == 1 && (m >> 1) & 1 == 1 && (m >> 1 >> 1) & 1 == 1 && (m >> 1 >> 1 >> 1) & 1 == 1
  {
  }

  lemma OddNumber(m: bv32)
    requires m & 1 == 1
    ensures Number(m) == 1 + 2 * Number(m >> 1)
  {
  }

  lemma FourOnes(m: bv32)
    requires m & 0xF == 0xF
    ensures Number(m) == 15 + 16 * Number(m >> 4)
  {
    FourLowBits(m);
    var m1 := m >> 1;
    var m2 := m1 >> 1;
    var m3 := m2 >> 1;
    OddNumber(m);
    OddNumber(m1);
    OddNumber(m2);
    OddNumber(m3);
  }

  lemma OnesNumber()
    ensures Number(0xFFFF_FFFF) == 0xFFFF_FFFF
  {
    FourOnes(0xFFFF_FFFF);
    FourOnes(0x0FFF_FFFF);
    FourOnes(0x00FF_FFFF);
    FourOnes(0x000F_FFFF);
    FourOnes(0xFFFF);
    FourOnes(0xFFF);
    FourOnes(0xFF);
    FourOnes(0xF);
  }

  function Word(n: nat): (w: bv32)
    requires n < 0x1_0000_0000
    ensures Number(w) == n
  {
    OnesNumber();
    WordWithin(n, 0xFFFF_FFFF)
  }

  // slot >> 5 and slot & 0x1F: the word and the bit that a slot is kept at.
  function ElementOf(slot: nat): (element: nat)
    requires slot < 0x1_0000_0000
    ensures element == slot / 32
  {
    ShiftAndMask(Word(slot));
    Number(Word(slot) >> 5)
  }

  function BitOf(slot: nat): (bit: nat)
    requires slot < 0x1_0000_0000
    ensures bit == slot % 32
  {
    ShiftAndMask(Word(slot));
    Number(Word(slot) & 0x1F)
  }
}
