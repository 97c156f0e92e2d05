/** The link between the program's `unsigned long long` masks and the sets
    of bit positions the rest of the model works with: each bit operation the
    program uses is the matching set operation on the members. */
module Bits {
  import opened Masks
  import opened BitVectors

  /** Bit i of a, for a position counted as a number. */
  predicate Bit(a: bv64, i: nat)
    requires i < Universe
  {
    BitAt(a, i as bv7)
  }

  /** The set a 64-bit mask stands for. */
  ghost function Members(a: bv64): (m: Mask)
    ensures forall i: nat :: i in m <==> i < Universe && Bit(a, i)
  {
    set i | i in Range(Universe) && Bit(a, i)
  }

  /** Membership in Members(a), as one fact about one position. */
  lemma MemberBit(a: bv64, i: nat)
    ensures i in Members(a) <==> i < Universe && Bit(a, i)
  {
  }

  /** `a & b` is intersection. */
  lemma AndIsIntersection(a: bv64, b: bv64)
    ensures Members(a & b) == Members(a) * Members(b)
  {
    var m, ma, mb := Members(a & b), Members(a), Members(b);
    forall i: nat ensures i in m <==> i in ma && i in mb {
      AndMember(a, b, i);
    }
    IntersectionFromMembers(m, ma, mb);
  }

  lemma AndMember(a: bv64, b: bv64, i: nat)
    ensures i in Members(a & b) <==> i in Members(a) && i in Members(b)
  {
    MemberBit(a & b, i);
    MemberBit(a, i);
    MemberBit(b, i);
    if i < Universe {
      AndPosition(a, b, i);
    }
  }

  lemma AndPosition(a: bv64, b: bv64, i: nat)
    requires i < Universe
    ensures Bit(a & b, i) <==> Bit(a, i) && Bit(b, i)
  {
    AndBit(a, b, i as bv7);
  }

  lemma IntersectionFromMembers(m: Mask, ma: Mask, mb: Mask)
    requires forall i: nat :: i in m <==> i in ma && i in mb
    ensures m == ma * mb
  {
  }

  /** `a | b` is union. */
  lemma OrIsUnion(a: bv64, b: bv64)
    ensures Members(a | b) == Members(a) + Members(b)
  {
    var m, ma, mb := Members(a | b), Members(a), Members(b);
    forall i: nat ensures i in m <==> i in ma || i in mb {
      OrMember(a, b, i);
    }
    UnionFromMembers(m, ma, mb);
  }

  lemma OrMember(a: bv64, b: bv64, i: nat)
    ensures i in Members(a | b) <==> i in Members(a) || i in Members(b)
  {
    MemberBit(a | b, i);
    MemberBit(a, i);
    MemberBit(b, i);
    if i < Universe {
      OrPosition(a, b, i);
    }
  }

  lemma OrPosition(a: bv64, b: bv64, i: nat)
    requires i < Universe
    ensures Bit(a | b, i) <==> Bit(a, i) || Bit(b, i)
  {
    OrBit(a, b, i as bv7);
  }

  lemma UnionFromMembers(m: Mask, ma: Mask, mb: Mask)
    requires forall i: nat :: i in m <==> i in ma || i in mb
    ensures m == ma + mb
  {
  }

  /** `a ^ b` is symmetric difference. */
  lemma XorIsSymmetricDifference(a: bv64, b: bv64)
    ensures Members(a ^ b) == Xor(Members(a), Members(b))
  {
    var m, ma, mb := Members(a ^ b), Members(a), Members(b);
    forall i: nat ensures i in m <==> (i in ma <==> i !in mb) {
      XorMember(a, b, i);
    }
    SymmetricDifferenceFromMembers(m, ma, mb);
  }

  lemma XorMember(a: bv64, b: bv64, i: nat)
    ensures i in Members(a ^ b) <==> (i in Members(a) <==> i !in Members(b))
  {
    MemberBit(a ^ b, i);
    MemberBit(a, i);
    MemberBit(b, i);
    if i < Universe {
      XorPosition(a, b, i);
    }
  }

  lemma XorPosition(a: bv64, b: bv64, i: nat)
    requires i < Universe
    ensures Bit(a ^ b, i) <==> Bit(a, i) != Bit(b, i)
  {
    XorBit(a, b, i as bv7);
  }

  lemma SymmetricDifferenceFromMembers(m: Mask, ma: Mask, mb: Mask)
    requires forall i: nat :: i in m <==> (i in ma <==> i !in mb)
    ensures m == Xor(ma, mb)
  {
  }

  /** `1ULL << x` is the singleton {x}. */
  lemma ShiftIsSingleton(x: nat)
    requires x < Universe
    ensures Members(1 << (x as bv7)) == {x}
  {
    var single: bv64 := 1 << (x as bv7);
    forall i: nat ensures i in Members(single) <==> i == x {
      if i < Universe {
        ShiftBit(x as bv7, i as bv7);
        SmallConversion(i, x);
      }
    }
  }

  /** Positions below 64 keep their identity as 7-bit words. */
  lemma SmallConversion(i: nat, x: nat)
    requires i < Universe && x < Universe
    ensures i as bv7 == x as bv7 <==> i == x
  {
    ConversionRoundTrip(i);
    ConversionRoundTrip(x);
  }

  lemma ConversionRoundTrip(i: nat)
    requires i < Universe
    ensures (i as bv7) as nat == i
  {
  }

  /** 0 is the empty set. */
  lemma ZeroIsEmpty()
    ensures Members(0) == {}
  {
    forall i: nat | i < Universe ensures !Bit(0, i) {
      ShiftBit(0, i as bv7);
    }
  }

  /** Masks are equal exactly when they have the same members, so the
      program's `==` tests on masks are equality of sets. */
  lemma EqualIffSameMembers(a: bv64, b: bv64)
    ensures a == b <==> Members(a) == Members(b)
  {
    if Members(a) == Members(b) {
      forall j: bv7 | j < 64 ensures BitAt(a, j) == BitAt(b, j) {
        SameBit(a, b, j);
      }
      EqualFromBits(a, b);
    }
  }

  lemma SameBit(a: bv64, b: bv64, j: bv7)
    requires j < 64
    requires Members(a) == Members(b)
    ensures BitAt(a, j) == BitAt(b, j)
  {
    var i: nat := j as nat;
    assert i as bv7 == j;
    assert i in Members(a) <==> i in Members(b);
  }

  /** The containment test `(x & s) == x` holds exactly when x's members
      all belong to s. */
  lemma AndTestIsSubset(x: bv64, s: bv64)
    ensures x & s == x <==> Members(x) <= Members(s)
  {
    AndIsIntersection(x, s);
    EqualIffSameMembers(x & s, x);
  }

  /** The jump test `(subset | j) == subset` holds exactly when j's members
      all belong to subset. */
  lemma OrTestIsSubset(subset: bv64, j: bv64)
    ensures subset | j == subset <==> Members(j) <= Members(subset)
  {
    OrIsUnion(subset, j);
    EqualIffSameMembers(subset | j, subset);
  }
}
