/** Bitmasks over the 64-element universe {0,...,63}.

    The program stores every set as an `unsigned long long` whose bit i is set
    exactly when i is a member.  This model keeps the set of set bit positions
    instead, so the program's bit operations read as set operations:
      `a & b` is `a * b`,  `a | b` is `a + b`,  `a ^ b` is `Xor(a, b)`,
      `(a & b) == a` is `a <= b`,  `(a | b) == a` is `b <= a`,
      `1ULL << x` is `{x}`.
*/
module Masks {

  /** Number of bit positions of an `unsigned long long`. */
  const Universe: nat := 64

  /** MAX_NUMBER: the capacity of the `sets` and `sequences` arrays. */
  const MaxNumber: nat := 1000

  /** Length of the histogram array `numbers_of_subsets` (sizes 0..64). */
  const HistogramLength: nat := Universe + 1

  type Mask = set<nat>

  /** Bitwise exclusive or. */
  function Xor(a: Mask, b: Mask): Mask {
    (a - b) + (b - a)
  }

  /** The elements of a listing, forgetting their order. */
  function Elems(xs: seq<nat>): set<nat> {
    set x | x in xs
  }

  predicate Distinct(xs: seq<nat>) {
    forall i, j :: 0 <= i < j < |xs| ==> xs[i] != xs[j]
  }

  /** What the program silently assumes of one input line: its elements are
      distinct bit positions. */
  predicate ValidListing(xs: seq<nat>) {
    && Distinct(xs)
    && forall i :: 0 <= i < |xs| ==> xs[i] < Universe
  }

  /** What the program silently assumes of the whole input. */
  predicate ValidInput(listings: seq<seq<nat>>) {
    && |listings| <= MaxNumber
    && forall i :: 0 <= i < |listings| ==> ValidListing(listings[i])
  }

  function Pow2(n: nat): (r: nat)
    ensures r >= 1
  {
    if n == 0 then 1 else 2 * Pow2(n - 1)
  }

  /** A distinct listing has as many elements as entries. */
  lemma {:induction false} DistinctElemsCard(xs: seq<nat>)
    requires Distinct(xs)
    ensures |Elems(xs)| == |xs|
  {
    if xs != [] {
      DistinctElemsCard(xs[1..]);
      assert Elems(xs) == {xs[0]} + Elems(xs[1..]);
      assert xs[0] !in Elems(xs[1..]);
    }
  }

  /** A prefix of a distinct listing is distinct and has as many elements as
      entries. */
  lemma PrefixDistinct(xs: seq<nat>, t: nat)
    requires Distinct(xs) && t <= |xs|
    ensures Distinct(xs[..t])
    ensures |Elems(xs[..t])| == t
  {
    var p := xs[..t];
    forall i, j | 0 <= i < j < |p| ensures p[i] != p[j] {
      assert p[i] == xs[i] && p[j] == xs[j];
    }
    DistinctElemsCard(p);
  }

  /** The positions {0,...,n-1}. */
  function Range(n: nat): (r: set<nat>)
    ensures forall x: nat :: x in r <==> x < n
    ensures |r| == n
  {
    if n == 0 then {} else Range(n - 1) + {n - 1}
  }

  lemma SubsetCard(a: set<nat>, b: set<nat>)
    requires a <= b
    ensures |a| <= |b|
  {
    assert b == a + (b - a);
  }

  /** A valid line fits in one row of the `sequences` array (at most 64
      entries), which is why the program never writes past its end. */
  lemma ListingFitsRow(xs: seq<nat>)
    requires ValidListing(xs)
    ensures |xs| <= Universe
  {
    DistinctElemsCard(xs);
    SubsetCard(Elems(xs), Range(Universe));
  }
}
