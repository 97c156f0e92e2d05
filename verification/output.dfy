/** Write_output's rule for which histogram entries are written: entries
    k = 0, 1, 2, ... up to, and not including, the first zero entry. */
module Output {
  import opened Masks
  import opened Coverage

  /** The entries written to the output file, in order. */
  function Emitted(counts: seq<nat>): (out: seq<nat>)
    ensures |out| <= |counts|
    ensures out == counts[..|out|]
    ensures forall k :: 0 <= k < |out| ==> out[k] != 0
    ensures |out| < |counts| ==> counts[|out|] == 0
  {
    if counts == [] || counts[0] == 0 then []
    else [counts[0]] + Emitted(counts[1..])
  }

  /** Stopping at the first zero loses nothing for a computed histogram:
      since the nonzero entries form a prefix, exactly the nonzero entries
      are written. */
  lemma NothingDropped(sets: seq<Mask>, counts: seq<nat>)
    requires |counts| == HistogramLength
    requires forall k :: 0 <= k < HistogramLength ==> counts[k] == CoverCount(sets, k)
    ensures forall k :: 0 <= k < HistogramLength ==> (k < |Emitted(counts)| <==> counts[k] != 0)
  {
    var out := Emitted(counts);
    forall k | 0 <= k < HistogramLength && counts[k] != 0 ensures k < |out| {
      SupportIsPrefix(sets, k);
      SupportIsPrefix(sets, |out|);
    }
    forall k | 0 <= k < |out| ensures counts[k] != 0 {
      assert out[k] == counts[k];
    }
  }
}
