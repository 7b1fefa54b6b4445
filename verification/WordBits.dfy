/**
 The size of a 64-bit word, its one-bit shifts as functions on numbers, and the
 bit-vector operations of the generated code that they stand for.
 */
module WordBits {

  const B: nat := 0x1_0000_0000_0000_0000
  const HALF: nat := 0x8000_0000_0000_0000

  /** `x >> 63` */
  function ShiftOut(x: nat): (bit: nat)
    ensures bit <= 1
  {
    if x >= HALF then 1 else 0
  }

  /** `x << 1` */
  function ShiftUp(x: nat): (y: nat)
    requires x < B
    ensures 2 * x == y + B * ShiftOut(x)
    ensures y < B - 1
  {
    if x >= HALF then 2 * x - B else 2 * x
  }

  lemma Fits(x: bv64)
    ensures x as nat < B
  {
  }

  /** The two shifts split twice the word at bit 64. */
  lemma Doubled(x: bv64)
    ensures (x << 1) as nat + 0x1_0000_0000_0000_0000 * (x >> 63) as nat == 2 * x as nat
  {
  }

  lemma OneBit(x: bv64)
    ensures (x >> 63) as nat <= 1
  {
  }

  lemma SplitUnique(v: nat, up: nat, out: nat)
    requires v < B && up < B && out <= 1 && up + 0x1_0000_0000_0000_0000 * out == 2 * v
    ensures up == ShiftUp(v) && out == ShiftOut(v)
  {
  }

  lemma ShiftsAreBits(x: bv64)
    ensures x as nat < B
    ensures (x << 1) as nat == ShiftUp(x as nat) && (x >> 63) as nat == ShiftOut(x as nat)
  {
    Fits(x);
    Fits(x << 1);
    Doubled(x);
    OneBit(x);
    SplitUnique(x as nat, (x << 1) as nat, (x >> 63) as nat);
  }

  lemma OrIsSum(x: bv64, y: bv64)
    ensures ((x << 1) | (y >> 63)) as nat == (x << 1) as nat + (y >> 63) as nat
  {
  }

  /** The word that the code makes of two limbs is the sum that the model makes of their values. */
  lemma ShiftOrIsAdd(x: bv64, y: bv64)
    ensures x as nat < B && y as nat < B
    ensures ((x << 1) | (y >> 63)) as nat == ShiftUp(x as nat) + ShiftOut(y as nat)
  {
    ShiftsAreBits(x);
    ShiftsAreBits(y);
    OrIsSum(x, y);
  }
}
