/** The program without its console and file handling: load the lines,
    compute the histogram, and produce the numbers written to the output. */
module Facets {
  import opened Masks
  import opened Jumps
  import opened Coverage
  import opened Counter
  import opened Output

  /** The base sets the lines describe. */
  function Bases(listings: seq<seq<nat>>): (bases: seq<Mask>)
    ensures |bases| == |listings|
    ensures forall i :: 0 <= i < |listings| ==> bases[i] == Elems(listings[i])
  {
    seq(|listings|, i requires 0 <= i < |listings| => Elems(listings[i]))
  }

  /** Read_input, Compute_numbers and Write_output in sequence: the output
      lists, for k = 0, 1, ..., the number of k-element sets covered by some
      base set, and it stops exactly at the first size nothing covers. */
  method Run(listings: seq<seq<nat>>) returns (out: seq<nat>)
    requires ValidInput(listings)
    ensures |out| <= HistogramLength
    ensures forall k :: 0 <= k < |out| ==> out[k] == CoverCount(Bases(listings), k)
    ensures forall k :: 0 <= k < HistogramLength ==>
      (k < |out| <==> CoverCount(Bases(listings), k) != 0)
  {
    var sets, sequences := Load(listings);
    assert sets == Bases(listings);
    var counts := ComputeNumbers(sets, sequences, listings);
    NothingDropped(sets, counts);
    out := Emitted(counts);
  }
}
