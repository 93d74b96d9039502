// How a cache splits a 64-bit address by bit masks (src/utils/cache/cacheMemory.hpp).
// Words are natural numbers and the operators work on them bit by bit, from the lowest
// bit up.
module Addresses {
  const ADDRESS_BITS := 64

  function Pow2(k: nat): (p: nat)
    ensures p >= 1
  {
    if k == 0 then 1 else 2 * Pow2(k - 1)
  }

  type Address = a: nat | a < Pow2(ADDRESS_BITS) witness 0

  lemma {:induction false} Pow2Adds(a: nat, b: nat)
    ensures Pow2(a + b) == Pow2(a) * Pow2(b)
  {
    if a > 0 {
      Pow2Adds(a - 1, b);
    }
  }

  lemma Squared(k: nat, p: nat, double: nat)
    requires Pow2(k) == p && double == 2 * k
    ensures Pow2(double) == p * p
  {
    Pow2Adds(k, k);
  }

  // Stated for a variable, so that Pow2 is not unfolded 64 times.
  lemma EightBytes(byte: nat)
    requires byte == 8
    ensures Pow2(8 * byte) == 0x1_0000_0000_0000_0000
  {
    assert Pow2(8) == 0x100;
    Squared(byte, 0x100, 2 * byte);
    Squared(2 * byte, 0x1_0000, 4 * byte);
    Squared(4 * byte, 0x1_0000_0000, 8 * byte);
  }

  lemma SixtyFourBits(n: nat)
    ensures n <= 0xFFFF_FFFF_FFFF_FFFF <==> n < Pow2(ADDRESS_BITS)
  {
    EightBytes(8);
  }

  // x & y
  function And(x: nat, y: nat): nat {
    if x == 0 then 0 else 2 * And(x / 2, y / 2) + (if x % 2 == 1 && y % 2 == 1 then 1 else 0)
  }

  // x << k, for results that fit the word
  function Shl(x: nat, k: nat): nat {
    if k == 0 then x else 2 * Shl(x, k - 1)
  }

  // x >> k
  function Shr(x: nat, k: nat): nat
    decreases k
  {
    if k == 0 then x else Shr(x / 2, k - 1)
  }

  // A run of `bits` ones: (1 << bits) - 1.
  function Ones(bits: nat): nat {
    Pow2(bits) - 1
  }

  // The split computed by Alocate, for the widths for which its shifts are defined.
  datatype Split = Split(offsetBits: nat, indexBits: nat) {
    predicate Valid() {
      1 <= offsetBits + indexBits < ADDRESS_BITS && indexBits < 31
    }

    function TagBits(): nat
      requires Valid()
    {
      ADDRESS_BITS - (indexBits + offsetBits)
    }

    function OffsetMask(): nat {
      Ones(offsetBits)
    }

    function IndexMask(): nat {
      Shl(Ones(indexBits), offsetBits)
    }

    function TagMask(): nat
      requires Valid()
    {
      Shl(Ones(TagBits()), offsetBits + indexBits)
    }

    function GetOffset(addr: Address): nat {
      And(addr, OffsetMask())
    }

    function GetIndex(addr: Address): nat {
      Shr(And(addr, IndexMask()), offsetBits)
    }

    function GetTag(addr: Address): nat
      requires Valid()
    {
      Shr(And(addr, TagMask()), offsetBits + indexBits)
    }

    function NumSets(): nat {
      Pow2(indexBits)
    }

    // The line an address belongs to: what is left above the offset.
    function Line(addr: Address): nat {
      Shr(addr, offsetBits)
    }
  }

  // ------ Shifts

  lemma {:induction false} ShrShl(x: nat, k: nat)
    ensures Shr(Shl(x, k), k) == x
  {
    if k != 0 {
      ShrShl(x, k - 1);
      assert Shl(x, k) / 2 == Shl(x, k - 1);
    }
  }

  lemma {:induction false} ShrShr(x: nat, a: nat, b: nat)
    ensures Shr(Shr(x, a), b) == Shr(x, a + b)
    decreases a
  {
    if a != 0 {
      ShrShr(x / 2, a - 1, b);
    }
  }

  lemma {:induction false} ShlShl(x: nat, a: nat, b: nat)
    ensures Shl(Shl(x, a), b) == Shl(x, a + b)
  {
    if b != 0 {
      ShlShl(x, a, b - 1);
    }
  }

  lemma {:induction false} ShlSum(x: nat, y: nat, k: nat)
    ensures Shl(x + y, k) == Shl(x, k) + Shl(y, k)
  {
    if k != 0 {
      ShlSum(x, y, k - 1);
    }
  }

  lemma {:induction false} ShrBound(x: nat, a: nat, b: nat)
    requires x < Pow2(a + b)
    ensures Shr(x, a) < Pow2(b)
    decreases a
  {
    if a != 0 {
      ShrBound(x / 2, a - 1, b);
    }
  }

  // ------ What a mask does

  lemma {:induction false} AndShifted(x: nat, m: nat, k: nat)
    ensures And(x, Shl(m, k)) == Shl(And(Shr(x, k), m), k)
    decreases k
  {
    if k != 0 {
      AndShifted(x / 2, m, k - 1);
      AndEven(x, Shl(m, k - 1));
    }
  }

  lemma AndEven(x: nat, y: nat)
    ensures And(x, 2 * y) == 2 * And(x / 2, y)
  {
    assert (2 * y) / 2 == y;
  }

  lemma OnesStep(k: nat)
    requires k != 0
    ensures Ones(k) == 2 * Ones(k - 1) + 1 && Ones(k) / 2 == Ones(k - 1) && Ones(k) % 2 == 1
  {
  }

  // A word is what the shift keeps plus what the mask keeps.
  lemma {:induction false} ShiftAndMask(x: nat, k: nat)
    ensures Shl(Shr(x, k), k) + And(x, Ones(k)) == x
    ensures And(x, Ones(k)) < Pow2(k)
    decreases k
  {
    if k == 0 {
      AndZero(x);
    } else {
      ShiftAndMask(x / 2, k - 1);
      OnesStep(k);
    }
  }

  lemma {:induction false} AndZero(x: nat)
    ensures And(x, 0) == 0
  {
    if x != 0 {
      AndZero(x / 2);
    }
  }

  lemma {:induction false} MaskKeepsAll(x: nat, k: nat)
    requires x < Pow2(k)
    ensures And(x, Ones(k)) == x
  {
    if x != 0 {
      OnesStep(k);
      MaskKeepsAll(x / 2, k - 1);
    }
  }

  // A word is determined by its high and low parts, and determines them.
  lemma {:induction false} PartsOfSum(high: nat, low: nat, k: nat)
    requires low < Pow2(k)
    ensures Shr(Shl(high, k) + low, k) == high
    ensures And(Shl(high, k) + low, Ones(k)) == low
    decreases k
  {
    if k == 0 {
      AndZero(high);
    } else {
      var sum := Shl(high, k) + low;
      assert sum / 2 == Shl(high, k - 1) + low / 2;
      PartsOfSum(high, low / 2, k - 1);
      OnesStep(k);
    }
  }

  // ------ The three fields

  // What the masks extract, in terms of the line.
  lemma FieldsOfLine(split: Split, addr: Address)
    requires split.Valid()
    ensures split.GetIndex(addr) == And(split.Line(addr), Ones(split.indexBits))
    ensures split.GetTag(addr) == Shr(split.Line(addr), split.indexBits)
  {
    var o, i, t := split.offsetBits, split.indexBits, split.TagBits();
    AndShifted(addr, Ones(i), o);
    ShrShl(And(Shr(addr, o), Ones(i)), o);
    AndShifted(addr, Ones(t), o + i);
    ShrShl(And(Shr(addr, o + i), Ones(t)), o + i);
    ShrBound(addr, o + i, t);
    MaskKeepsAll(Shr(addr, o + i), t);
    ShrShr(addr, o, i);
  }

  // The index always names an existing set.
  lemma IndexInRange(split: Split, addr: Address)
    requires split.Valid()
    ensures split.GetIndex(addr) < split.NumSets()
  {
    FieldsOfLine(split, addr);
    ShiftAndMask(split.Line(addr), split.indexBits);
  }

  // Tag, index and offset recombine to the address.
  lemma SplitRecombines(split: Split, addr: Address)
    requires split.Valid()
    ensures Shl(split.GetTag(addr), split.offsetBits + split.indexBits)
      + Shl(split.GetIndex(addr), split.offsetBits) + split.GetOffset(addr) == addr
  {
    var o, i := split.offsetBits, split.indexBits;
    var tag, index := split.GetTag(addr), split.GetIndex(addr);
    FieldsOfLine(split, addr);
    ShiftAndMask(split.Line(addr), i);
    ShiftAndMask(addr, o);
    ShlSum(Shl(tag, i), index, o);
    ShlShl(tag, i, o);
  }

  // Two addresses have the same tag and the same index exactly when they agree above
  // the offset bits.
  lemma SameTagAndIndex(split: Split, a: Address, b: Address)
    requires split.Valid()
    ensures split.Line(a) == split.Line(b)
      <==> split.GetTag(a) == split.GetTag(b) && split.GetIndex(a) == split.GetIndex(b)
  {
    FieldsOfLine(split, a);
    FieldsOfLine(split, b);
    ShiftAndMask(split.Line(a), split.indexBits);
    ShiftAndMask(split.Line(b), split.indexBits);
  }

  // Every pair of a set and a tag that fits belongs to exactly one line.
  lemma LineOfFields(split: Split, tag: nat, index: nat, line: nat)
    requires split.Valid() && index < split.NumSets()
    ensures Shr(line, split.indexBits) == tag && And(line, Ones(split.indexBits)) == index
      <==> line == Shl(tag, split.indexBits) + index
  {
    PartsOfSum(tag, index, split.indexBits);
    ShiftAndMask(line, split.indexBits);
  }
}
