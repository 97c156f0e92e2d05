/** Facts about single bits of 64-bit words. */
module BitVectors {
  /** Bit j of a; positions are 7-bit words, enough for 0..63. */
  predicate BitAt(a: bv64, j: bv7)
    requires j < 64
  {
    (a >> j) & 1 == 1
  }

  lemma AndBit(a: bv64, b: bv64, j: bv7)
    requires j < 64
    ensures BitAt(a & b, j) <==> BitAt(a, j) && BitAt(b, j)
  {
  }

  lemma OrBit(a: bv64, b: bv64, j: bv7)
    requires j < 64
    ensures BitAt(a | b, j) <==> BitAt(a, j) || BitAt(b, j)
  {
  }

  lemma XorBit(a: bv64, b: bv64, j: bv7)
    requires j < 64
    ensures BitAt(a ^ b, j) <==> BitAt(a, j) != BitAt(b, j)
  {
  }

  lemma ShiftBit(x: bv7, j: bv7)
    requires x < 64 && j < 64
    ensures BitAt(1 << x, j) <==> j == x
    ensures !BitAt(0, j)
  {
  }

  /** The position of the lowest set bit of a nonzero word: isolate that bit
      as `d & -d`, then read off its position one binary digit at a time. */
  function LowestBit(d: bv64): (j: bv7)
    requires d != 0
    ensures j < 64 && BitAt(d, j)
  {
    var v := d & (0 - d);
    var c0: bv7 := if v & 0xFFFF_FFFF_0000_0000 != 0 then 32 else 0;
    var c1: bv7 := if v & 0xFFFF_0000_FFFF_0000 != 0 then c0 + 16 else c0;
    var c2: bv7 := if v & 0xFF00_FF00_FF00_FF00 != 0 then c1 + 8 else c1;
    var c3: bv7 := if v & 0xF0F0_F0F0_F0F0_F0F0 != 0 then c2 + 4 else c2;
    var c4: bv7 := if v & 0xCCCC_CCCC_CCCC_CCCC != 0 then c3 + 2 else c3;
    if v & 0xAAAA_AAAA_AAAA_AAAA != 0 then c4 + 1 else c4
  }

  /** Words that agree on every bit are equal. */
  lemma EqualFromBits(a: bv64, b: bv64)
    requires forall j: bv7 :: j < 64 ==> BitAt(a, j) == BitAt(b, j)
    ensures a == b
  {
    if a != b {
      var j := DifferingBit(a, b);
      assert false;
    }
  }

  /** Different words differ at their lowest differing bit. */
  lemma DifferingBit(a: bv64, b: bv64) returns (j: bv7)
    requires a != b
    ensures j < 64 && BitAt(a, j) != BitAt(b, j)
  {
    j := LowestBit(a ^ b);
    XorBit(a, b, j);
  }
}
