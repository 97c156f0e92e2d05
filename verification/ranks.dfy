/** The binary-counter reading of the enumeration order.

    For a base set listed as xs = [e_0, ..., e_{m-1}], a subset X of the base
    set is read as the m-digit binary number whose digit k is 1 exactly when
    e_k is in X.  The successor step of the counter adds exactly one to this
    number, so the walk from the empty set (0) to the whole set (2^m - 1)
    visits every subset once. */
module Ranks {
  import opened Masks

  /** The number whose binary digit k records whether xs[k] is in x. */
  function Rank(xs: seq<nat>, x: Mask): (r: nat)
    ensures r < Pow2(|xs|)
  {
    if xs == [] then 0
    else (if xs[0] in x then 1 else 0) + 2 * Rank(xs[1..], x)
  }

  /** The subset whose binary reading is v (digits beyond |xs| ignored). */
  function Unrank(xs: seq<nat>, v: nat): (x: Mask)
    ensures x <= Elems(xs)
  {
    if xs == [] then {}
    else (if v % 2 == 1 then {xs[0]} else {}) + Unrank(xs[1..], v / 2)
  }

  /** Rank only looks at the listed elements. */
  lemma {:induction false} RankLocal(xs: seq<nat>, x: Mask, y: Mask)
    requires forall e :: e in xs ==> (e in x <==> e in y)
    ensures Rank(xs, x) == Rank(xs, y)
  {
    if xs != [] {
      RankLocal(xs[1..], x, y);
    }
  }

  /** Every subset of the base set is recovered from its rank. */
  lemma {:induction false} UnrankRank(xs: seq<nat>, x: Mask)
    requires x <= Elems(xs)
    ensures Unrank(xs, Rank(xs, x)) == x
  {
    if xs != [] {
      var tail := xs[1..];
      var x' := x * Elems(tail);
      RankLocal(tail, x, x');
      UnrankRank(tail, x');
      var r := Rank(xs, x);
      assert r % 2 == (if xs[0] in x then 1 else 0);
      assert r / 2 == Rank(tail, x);
      assert Elems(xs) == {xs[0]} + Elems(tail);
    }
  }

  /** Every number below 2^|xs| is the rank of its subset (this direction
      needs the listed elements to be distinct). */
  lemma {:induction false} RankUnrank(xs: seq<nat>, v: nat)
    requires Distinct(xs)
    requires v < Pow2(|xs|)
    ensures Rank(xs, Unrank(xs, v)) == v
  {
    if xs != [] {
      var tail := xs[1..];
      var low: Mask := if v % 2 == 1 then {xs[0]} else {};
      var u := Unrank(tail, v / 2);
      assert xs[0] !in Elems(tail) by {
        forall k | 0 <= k < |tail| ensures tail[k] != xs[0] {
          assert tail[k] == xs[k + 1];
        }
      }
      assert Distinct(tail) by {
        forall i, j | 0 <= i < j < |tail| ensures tail[i] != tail[j] {
          assert tail[i] == xs[i + 1] && tail[j] == xs[j + 1];
        }
      }
      RankLocal(tail, low + u, u);
      RankUnrank(tail, v / 2);
    }
  }

  /** Distinct ranks mean distinct subsets and vice versa. */
  lemma RankInjective(xs: seq<nat>, x: Mask, y: Mask)
    requires x <= Elems(xs) && y <= Elems(xs)
    requires Rank(xs, x) == Rank(xs, y)
    ensures x == y
  {
    UnrankRank(xs, x);
    UnrankRank(xs, y);
  }

  /** The empty set is the first subset of the walk. */
  lemma {:induction false} RankEmpty(xs: seq<nat>)
    ensures Rank(xs, {}) == 0
  {
    if xs != [] {
      RankEmpty(xs[1..]);
    }
  }

  /** The whole base set is the last subset of the walk. */
  lemma {:induction false} RankFull(xs: seq<nat>)
    ensures Rank(xs, Elems(xs)) == Pow2(|xs|) - 1
  {
    if xs != [] {
      var tail := xs[1..];
      RankLocal(tail, Elems(xs), Elems(tail));
      RankFull(tail);
    }
  }

  /** The successor step read as binary increment: when xs[0..t-1] are in x
      and xs[t] is not, removing xs[0..t-1] and adding xs[t] adds one to the
      rank (the carry ripples through the t trailing ones). */
  lemma {:induction false} RankIncrement(xs: seq<nat>, x: Mask, t: nat)
    requires Distinct(xs)
    requires t < |xs|
    requires forall j :: 0 <= j < t ==> xs[j] in x
    requires xs[t] !in x
    ensures Rank(xs, (x - Elems(xs[..t])) + {xs[t]}) == Rank(xs, x) + 1
  {
    var tail := xs[1..];
    var y := (x - Elems(xs[..t])) + {xs[t]};
    assert xs[0] !in tail by {
      forall k | 0 <= k < |tail| ensures tail[k] != xs[0] {
        assert tail[k] == xs[k + 1];
      }
    }
    assert Distinct(tail) by {
      forall i, j | 0 <= i < j < |tail| ensures tail[i] != tail[j] {
        assert tail[i] == xs[i + 1] && tail[j] == xs[j + 1];
      }
    }
    if t == 0 {
      assert y == x + {xs[0]};
      RankLocal(tail, y, x);
    } else {
      var y' := (x - Elems(tail[..t - 1])) + {tail[t - 1]};
      assert xs[..t] == [xs[0]] + tail[..t - 1];
      assert Elems(xs[..t]) == {xs[0]} + Elems(tail[..t - 1]);
      assert xs[0] !in y by {
        assert xs[0] != xs[t];
      }
      forall e | e in tail ensures e in y <==> e in y' {
        assert e != xs[0];
      }
      RankLocal(tail, y, y');
      RankIncrement(tail, x, t - 1);
    }
  }
}
