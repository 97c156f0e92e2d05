/** The worked example from the program's header comment: the lines
    1,3,5,6 / 2,4,5,16,20 / 0,2,5 give the output 1, 9, 18, 15, 6, 1. */
module Example {
  import opened Masks
  import opened Coverage
  import opened Output

  const A1: Mask := {1, 3, 5, 6}
  const A2: Mask := {2, 4, 5, 16, 20}
  const A3: Mask := {0, 2, 5}

  /** |X + Y + Z| by inclusion and exclusion. */
  lemma InclusionExclusion3<T>(x: set<T>, y: set<T>, z: set<T>)
    ensures |x + y + z|
         == |x| + |y| + |z| - |x * y| - |x * z| - |y * z| + |x * y * z|
  {
    assert (x + y) * z == (x * z) + (y * z);
    assert (x * z) * (y * z) == x * y * z;
  }

  /** Two downward closures meet in the downward closure of the intersection. */
  lemma OfSizeMeet(a: Mask, b: Mask, k: nat)
    ensures OfSize(Powerset(a), k) * OfSize(Powerset(b), k) == OfSize(Powerset(a * b), k)
  {
  }

  lemma ThreeClosures(a: Mask, b: Mask, c: Mask, k: nat)
    ensures OfSize(Closure([a, b, c]), k)
         == OfSize(Powerset(a), k) + OfSize(Powerset(b), k) + OfSize(Powerset(c), k)
  {
    forall s ensures s in Closure([a, b, c]) <==> s <= a || s <= b || s <= c {
      if s <= a { assert [a, b, c][0] == a; }
      if s <= b { assert [a, b, c][1] == b; }
      if s <= c { assert [a, b, c][2] == c; }
    }
  }

  /** The histogram of three base sets by inclusion and exclusion over the
      binomial rows of the sets and their intersections. */
  lemma ThreeBases(a: Mask, b: Mask, c: Mask, k: nat)
    ensures CoverCount([a, b, c], k)
         == Binomial(|a|, k) + Binomial(|b|, k) + Binomial(|c|, k)
          - Binomial(|a * b|, k) - Binomial(|a * c|, k) - Binomial(|b * c|, k)
          + Binomial(|a * b * c|, k)
  {
    var x, y, z := OfSize(Powerset(a), k), OfSize(Powerset(b), k), OfSize(Powerset(c), k);
    ThreeClosures(a, b, c, k);
    InclusionExclusion3(x, y, z);
    OfSizeMeet(a, b, k);
    OfSizeMeet(a, c, k);
    OfSizeMeet(b, c, k);
    OfSizeMeet(a * b, c, k);
    assert |x * y * z| == |OfSize(Powerset(a * b * c), k)|;
    PowersetOfSizeCard(a, k);
    PowersetOfSizeCard(b, k);
    PowersetOfSizeCard(c, k);
    PowersetOfSizeCard(a * b, k);
    PowersetOfSizeCard(a * c, k);
    PowersetOfSizeCard(b * c, k);
    PowersetOfSizeCard(a * b * c, k);
  }

  lemma ExampleSizes()
    ensures |A1| == 4 && |A2| == 5 && |A3| == 3
    ensures |A1 * A2| == 1 && |A1 * A3| == 1 && |A2 * A3| == 2 && |A1 * A2 * A3| == 1
  {
    assert A1 * A2 == {5} && A1 * A3 == {5} && A2 * A3 == {2, 5} && A1 * A2 * A3 == {5};
  }

  /** The inclusion-exclusion sum for the example's set sizes. */
  function ExampleSum(k: nat): int {
    Binomial(4, k) + Binomial(5, k) + Binomial(3, k)
      - Binomial(1, k) - Binomial(1, k) - Binomial(2, k) + Binomial(1, k)
  }

  /** The sum evaluated at the sizes 0 to 5. */
  lemma SmallBinomials(k: nat)
    requires k < 6
    ensures ExampleSum(k) == [1, 9, 18, 15, 6, 1][k]
  {
    LowSums();
    HighSums();
  }

  lemma LowSums()
    ensures ExampleSum(0) == 1 && ExampleSum(1) == 9 && ExampleSum(2) == 18
  {
  }

  lemma HighSums()
    ensures ExampleSum(3) == 15 && ExampleSum(4) == 6 && ExampleSum(5) == 1
  {
  }

  /** The counts of the worked example, and zero beyond size 5. */
  lemma WorkedExample(k: nat)
    ensures CoverCount([A1, A2, A3], k) == if k < 6 then [1, 9, 18, 15, 6, 1][k] else 0
  {
    ExampleSizes();
    if k < 6 {
      ThreeBases(A1, A2, A3, k);
      SmallBinomials(k);
    } else {
      CoverCountAboveLargest([A1, A2, A3], k);
    }
  }

  /** The output file of the worked example. */
  lemma WorkedExampleOutput(counts: seq<nat>)
    requires |counts| == HistogramLength
    requires forall k :: 0 <= k < HistogramLength ==> counts[k] == CoverCount([A1, A2, A3], k)
    ensures Emitted(counts) == [1, 9, 18, 15, 6, 1]
  {
    forall k | 0 <= k < HistogramLength ensures counts[k] == if k < 6 then [1, 9, 18, 15, 6, 1][k] else 0 {
      WorkedExample(k);
    }
    NothingDropped([A1, A2, A3], counts);
    assert counts[5] != 0 && counts[6] == 0;
    assert |Emitted(counts)| == 6;
    assert counts[..6] == [1, 9, 18, 15, 6, 1];
  }
}
