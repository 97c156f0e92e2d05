/** Compute_numbers: for every base set A_i in input order, walk all subsets
    of A_i from the empty set up to A_i with the jump-sequence successor step,
    and count each visited subset by size unless an earlier base set already
    contains it. */
module Counter {
  import opened Masks
  import opened Ranks
  import opened Jumps
  import opened Coverage

  /** The containment scan: is x a subset of one of the first i base sets?
      The test `(x & sets[j]) == x` is `x * sets[j] == x`. */
  method Contained(x: Mask, sets: seq<Mask>, i: nat) returns (contained: bool)
    requires i <= |sets|
    ensures contained <==> Covered(sets[..i], x)
  {
    contained := false;
    var j := 0;
    while j < i
      invariant 0 <= j <= i
      invariant !contained
      invariant forall l :: 0 <= l < j ==> !(x <= sets[l])
    {
      AndUnchanged(x, sets[j]);
      if x * sets[j] == x {
        contained := true;
        assert x <= sets[..i][j];
        break;
      }
      j := j + 1;
    }
  }

  /** The successor step: find the first jump-sequence entry not contained in
      `subset` (the test `(subset | seq[index]) == subset` is
      `subset + jumps[index] == subset`), xor it in, and correct the size by
      1 - index.  Read in binary, the subset goes up by exactly one.  The
      index the search stopped at is returned as well. */
  method Successor(jumps: seq<Mask>, subset: Mask, size: int, ghost xs: seq<nat>)
    returns (next: Mask, nextSize: int, index: nat)
    requires Distinct(xs)
    requires jumps == Prefixes(xs)
    requires subset <= Elems(xs) && subset != Elems(xs)
    requires size == |subset|
    ensures index < |xs|
    ensures forall j :: 0 <= j < index ==> xs[j] in subset
    ensures xs[index] !in subset
    ensures next == (subset - Elems(xs[..index])) + {xs[index]}
    ensures next <= Elems(xs)
    ensures nextSize == |next|
    ensures Rank(xs, next) == Rank(xs, subset) + 1
  {
    ProperSubsetMisses(subset, Elems(xs));
    ghost var missing :| missing in Elems(xs) - subset;
    ghost var t :| 0 <= t < |xs| && xs[t] == missing;
    index := 0;
    while subset + jumps[index] == subset
      invariant 0 <= index <= t
      invariant forall j :: 0 <= j < index ==> xs[j] in subset
      decreases t - index
    {
      OrUnchanged(subset, jumps[index]);
      PrefixContained(xs, subset, index);
      index := index + 1;
    }
    OrUnchanged(subset, jumps[index]);
    PrefixContained(xs, subset, index);
    next := Xor(subset, jumps[index]);
    nextSize := size - (index - 1);
    SuccessorStep(xs, subset, index);
  }

  /** What one successor step does when the search stops at entry t. */
  lemma SuccessorStep(xs: seq<nat>, x: Mask, t: nat)
    requires Distinct(xs)
    requires x <= Elems(xs)
    requires t < |xs|
    requires forall j :: 0 <= j < t ==> xs[j] in x
    requires xs[t] !in x
    ensures Xor(x, Prefixes(xs)[t]) == (x - Elems(xs[..t])) + {xs[t]}
    ensures Xor(x, Prefixes(xs)[t]) <= Elems(xs)
    ensures |Xor(x, Prefixes(xs)[t])| == |x| - t + 1
    ensures Rank(xs, Xor(x, Prefixes(xs)[t])) == Rank(xs, x) + 1
  {
    StepEffect(xs, x, t);
    RankIncrement(xs, x, t);
    assert xs[t] in Elems(xs);
  }

  lemma ProperSubsetMisses(a: Mask, b: Mask)
    requires a <= b && a != b
    ensures b - a != {}
  {
    assert b == a + (b - a);
  }

  /** `(a | b) == a` tests whether b is contained in a. */
  lemma OrUnchanged(a: Mask, b: Mask)
    ensures a + b == a <==> b <= a
  {
    if b <= a {
      assert a + b == a;
    }
  }

  /** `(a & b) == a` tests whether a is contained in b. */
  lemma AndUnchanged(a: Mask, b: Mask)
    ensures a * b == a <==> a <= b
  {
    if a <= b {
      assert a * b == a;
    }
  }

  /** Xor with entry t removes the first t listed elements (all present) and
      adds xs[t] (absent), which changes the size by 1 - t. */
  lemma StepEffect(xs: seq<nat>, x: Mask, t: nat)
    requires Distinct(xs)
    requires t < |xs|
    requires forall j :: 0 <= j < t ==> xs[j] in x
    requires xs[t] !in x
    ensures Elems(xs[..t]) <= x
    ensures Xor(x, Prefixes(xs)[t]) == (x - Elems(xs[..t])) + {xs[t]}
    ensures |Xor(x, Prefixes(xs)[t])| == |x| - t + 1
  {
    var before := Elems(xs[..t]);
    forall e | e in before ensures e in x {
      var j :| 0 <= j < t && xs[..t][j] == e;
    }
    assert xs[..t + 1] == xs[..t] + [xs[t]];
    assert Prefixes(xs)[t] == before + {xs[t]};
    PrefixDistinct(xs, t);
    XorAddsOne(x, before, xs[t]);
  }

  /** Xor with a subset of x plus one element outside x. */
  lemma XorAddsOne(x: Mask, before: Mask, e: nat)
    requires before <= x
    requires e !in x
    ensures Xor(x, before + {e}) == (x - before) + {e}
    ensures |Xor(x, before + {e})| == |x| - |before| + 1
  {
    assert x == (x - before) + before;
  }

  /** The subsets of the base set listed as xs that the walk has already
      passed when it stands at rank r. */
  ghost function Visited(xs: seq<nat>, r: nat): set<Mask> {
    set y | y in Powerset(Elems(xs)) && Rank(xs, y) < r
  }

  /** Stepping past x adds exactly x to the visited subsets, and x was not
      visited before: no subset is visited twice. */
  lemma VisitedStep(xs: seq<nat>, x: Mask)
    requires x <= Elems(xs)
    ensures x !in Visited(xs, Rank(xs, x))
    ensures Visited(xs, Rank(xs, x) + 1) == Visited(xs, Rank(xs, x)) + {x}
  {
    forall y | y in Visited(xs, Rank(xs, x) + 1) && y !in Visited(xs, Rank(xs, x))
      ensures y == x
    {
      RankInjective(xs, x, y);
    }
  }

  /** The walk starts with nothing visited and, once past the whole base set,
      has visited every subset of it. */
  lemma VisitedEnds(xs: seq<nat>)
    ensures Visited(xs, 0) == {}
    ensures Visited(xs, Pow2(|xs|)) == Powerset(Elems(xs))
  {
  }

  /** The walk stands at the whole base set only after every other subset of
      it has been visited. */
  lemma WalkComplete(xs: seq<nat>)
    ensures Elems(xs) !in Visited(xs, Rank(xs, Elems(xs)))
    ensures Visited(xs, Rank(xs, Elems(xs))) + {Elems(xs)} == Powerset(Elems(xs))
  {
    RankFull(xs);
    VisitedStep(xs, Elems(xs));
    VisitedEnds(xs);
  }

  /** Counting one more, previously unvisited, subset. */
  lemma FreshAdd(s: set<Mask>, x: Mask, earlier: seq<Mask>, k: nat)
    requires x !in s
    ensures |Fresh(s + {x}, earlier, k)|
         == |Fresh(s, earlier, k)| + (if !Covered(earlier, x) && |x| == k then 1 else 0)
  {
    if !Covered(earlier, x) && |x| == k {
      assert Fresh(s + {x}, earlier, k) == Fresh(s, earlier, k) + {x};
    } else {
      assert Fresh(s + {x}, earlier, k) == Fresh(s, earlier, k);
    }
  }

  /** Adds one to histogram entry `size` when `counted`. */
  function Bump(counts: seq<nat>, size: nat, counted: bool): (r: seq<nat>)
    requires size < |counts|
    ensures |r| == |counts|
    ensures forall k :: 0 <= k < |r| ==> r[k] == counts[k] + (if counted && k == size then 1 else 0)
  {
    if counted then counts[size := counts[size] + 1] else counts
  }

  /** One iteration of the outer loop: walk every subset of base set i and
      count, by size, those that no earlier base set contains. */
  method CountBase(sets: seq<Mask>, i: nat, jumps: seq<Mask>, counts: seq<nat>, ghost xs: seq<nat>)
    returns (counts': seq<nat>)
    requires i < |sets|
    requires ValidListing(xs)
    requires sets[i] == Elems(xs) && jumps == Prefixes(xs)
    requires |counts| == HistogramLength
    ensures |counts'| == HistogramLength
    ensures forall k :: 0 <= k < HistogramLength ==>
      counts'[k] == counts[k] + |Fresh(Powerset(sets[i]), sets[..i], k)|
  {
    ghost var earlier := sets[..i];
    var base := sets[i];
    var subset: Mask := {};
    var size := 0;
    counts' := counts;
    ListingFitsRow(xs);
    DistinctElemsCard(xs);
    RankEmpty(xs);
    VisitedEnds(xs);
    while subset != base
      invariant subset <= base
      invariant size == |subset|
      invariant |counts'| == HistogramLength
      invariant forall k :: 0 <= k < HistogramLength ==>
        counts'[k] == counts[k] + |Fresh(Visited(xs, Rank(xs, subset)), earlier, k)|
      decreases Pow2(|xs|) - Rank(xs, subset)
    {
      SubsetCard(subset, base);
      var contained := Contained(subset, sets, i);
      VisitedStep(xs, subset);
      forall k | 0 <= k < HistogramLength {
        FreshAdd(Visited(xs, Rank(xs, subset)), subset, earlier, k);
      }
      counts' := Bump(counts', size, !contained);
      var index;
      subset, size, index := Successor(jumps, subset, size, xs);
    }
    var contained := Contained(base, sets, i);
    ghost var last := Visited(xs, Rank(xs, base));
    WalkComplete(xs);
    forall k | 0 <= k < HistogramLength {
      FreshAdd(last, base, earlier, k);
    }
    counts' := Bump(counts', size, !contained);
  }

  /** The whole computation: entry k of the result is the number of k-element
      sets covered by at least one base set. */
  method ComputeNumbers(sets: seq<Mask>, sequences: seq<seq<Mask>>, ghost listings: seq<seq<nat>>)
    returns (counts: seq<nat>)
    requires ValidInput(listings)
    requires Loaded(listings, sets, sequences)
    ensures |counts| == HistogramLength
    ensures forall k :: 0 <= k < HistogramLength ==> counts[k] == CoverCount(sets, k)
  {
    counts := seq(HistogramLength, _ => 0);
    forall k: nat ensures CoverCount(sets[..0], k) == 0 {
      NoBaseSets(k);
    }
    var i := 0;
    while i < |sets|
      invariant 0 <= i <= |sets|
      invariant |counts| == HistogramLength
      invariant forall k :: 0 <= k < HistogramLength ==> counts[k] == CoverCount(sets[..i], k)
    {
      forall k: nat ensures CoverCount(sets[..i + 1], k)
        == CoverCount(sets[..i], k) + |Fresh(Powerset(sets[i]), sets[..i], k)|
      {
        CoverCountStep(sets, i, k);
      }
      counts := CountBase(sets, i, sequences[i], counts, listings[i]);
      i := i + 1;
    }
    assert sets[..i] == sets;
  }
}
