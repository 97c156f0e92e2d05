/** The load phase: each input line becomes a base-set mask and its jump
    sequence, the chain of prefix unions in the order the elements were
    listed (for the line 1,5,2,0 the chain is {1}, {1,5}, {1,5,2}, {1,5,2,0}). */
module Jumps {
  import opened Masks

  /** Entry k of the jump sequence is the union of the first k+1 listed
      elements. */
  function Prefixes(xs: seq<nat>): seq<Mask> {
    seq(|xs|, k requires 0 <= k < |xs| => Elems(xs[..k + 1]))
  }

  /** What the reader must have produced from the listings: masks in the
      `sets` array and jump sequences in the `sequences` array. */
  predicate Loaded(listings: seq<seq<nat>>, sets: seq<Mask>, sequences: seq<seq<Mask>>) {
    && |sets| == |listings|
    && |sequences| == |listings|
    && forall i :: 0 <= i < |listings| ==>
         sets[i] == Elems(listings[i]) && sequences[i] == Prefixes(listings[i])
  }

  /** What the source does to build one base set: OR each listed element into
      the running mask and record the mask after every element. */
  method BuildBase(xs: seq<nat>) returns (mask: Mask, jumps: seq<Mask>)
    requires |xs| <= Universe
    requires forall k :: 0 <= k < |xs| ==> xs[k] < Universe
    ensures mask == Elems(xs)
    ensures jumps == Prefixes(xs)
  {
    mask := {};
    jumps := [];
    var index := 0;
    while index < |xs|
      invariant 0 <= index <= |xs|
      invariant mask == Elems(xs[..index])
      invariant |jumps| == index
      invariant forall k :: 0 <= k < index ==> jumps[k] == Elems(xs[..k + 1])
    {
      assert xs[..index + 1] == xs[..index] + [xs[index]];
      mask := mask + {xs[index]};
      jumps := jumps + [mask];
      index := index + 1;
    }
    assert xs[..index] == xs;
  }

  /** The whole load phase over all lines, in input order. */
  method Load(listings: seq<seq<nat>>) returns (sets: seq<Mask>, sequences: seq<seq<Mask>>)
    requires ValidInput(listings)
    ensures Loaded(listings, sets, sequences)
  {
    sets := [];
    sequences := [];
    var number := 0;
    while number < |listings|
      invariant 0 <= number <= |listings|
      invariant Loaded(listings[..number], sets, sequences)
    {
      ListingFitsRow(listings[number]);
      var mask, jumps := BuildBase(listings[number]);
      sets := sets + [mask];
      sequences := sequences + [jumps];
      number := number + 1;
    }
    assert listings[..number] == listings;
  }

  /** The jump sequence is a chain under inclusion. */
  lemma PrefixesChain(xs: seq<nat>, j: nat, k: nat)
    requires j <= k < |xs|
    ensures Prefixes(xs)[j] <= Prefixes(xs)[k]
  {
    forall e | e in Prefixes(xs)[j] ensures e in Prefixes(xs)[k] {
      var i :| 0 <= i < j + 1 && xs[..j + 1][i] == e;
      assert xs[..k + 1][i] == e;
    }
  }

  /** Each entry adds exactly the next listed element to the one before it,
      and with distinct elements that element is new. */
  lemma PrefixesStep(xs: seq<nat>, k: nat)
    requires 0 < k < |xs|
    ensures Prefixes(xs)[k] == Prefixes(xs)[k - 1] + {xs[k]}
    ensures Distinct(xs) ==> xs[k] !in Prefixes(xs)[k - 1]
  {
    assert xs[..k + 1] == xs[..k] + [xs[k]];
  }

  /** The last entry is the base set itself, and a distinct listing gives
      entries of strictly growing size. */
  lemma PrefixesEnds(xs: seq<nat>)
    requires |xs| > 0
    ensures Prefixes(xs)[0] == {xs[0]}
    ensures Prefixes(xs)[|xs| - 1] == Elems(xs)
    ensures Distinct(xs) ==> forall k :: 0 <= k < |xs| ==> |Prefixes(xs)[k]| == k + 1
  {
    assert xs[..1] == [xs[0]];
    assert xs[..|xs|] == xs;
    if Distinct(xs) {
      forall k | 0 <= k < |xs| ensures |Prefixes(xs)[k]| == k + 1 {
        PrefixDistinct(xs, k + 1);
      }
    }
  }

  /** Entry k is contained in x exactly when the first k+1 listed elements all
      are: this is what the successor search tests with `(x | seq[k]) == x`. */
  lemma PrefixContained(xs: seq<nat>, x: Mask, k: nat)
    requires k < |xs|
    ensures Prefixes(xs)[k] <= x <==> forall j :: 0 <= j <= k ==> xs[j] in x
  {
    if forall j :: 0 <= j <= k ==> xs[j] in x {
      forall e | e in Prefixes(xs)[k] ensures e in x {
        var j :| 0 <= j < k + 1 && xs[..k + 1][j] == e;
      }
    }
    if Prefixes(xs)[k] <= x {
      forall j | 0 <= j <= k ensures xs[j] in x {
        assert xs[..k + 1][j] == xs[j];
      }
    }
  }
}
