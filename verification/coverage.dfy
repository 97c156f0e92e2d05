/** What the histogram means: entry k counts the k-element sets X that are
    subsets of at least one base set, i.e. the k-element members of the union
    of the base sets' downward closures. */
module Coverage {
  import opened Masks

  /** All subsets of a. */
  ghost function Powerset(a: Mask): set<Mask> {
    set x: Mask | x <= a
  }

  /** X is covered when some base set contains it. */
  ghost predicate Covered(bases: seq<Mask>, x: Mask) {
    exists i :: 0 <= i < |bases| && x <= bases[i]
  }

  /** The union of the downward closures of the base sets. */
  ghost function Closure(bases: seq<Mask>): (c: set<Mask>)
    ensures forall x :: x in c <==> Covered(bases, x)
  {
    if bases == [] then {}
    else
      var init := bases[..|bases| - 1];
      var c := Closure(init) + Powerset(bases[|bases| - 1]);
      assert forall x :: x in c <==> Covered(bases, x) by {
        forall x ensures x in c <==> Covered(bases, x) {
          if Covered(init, x) {
            var i :| 0 <= i < |init| && x <= init[i];
            assert bases[i] == init[i];
          }
          if Covered(bases, x) && x !in Powerset(bases[|bases| - 1]) {
            var i :| 0 <= i < |bases| && x <= bases[i];
            assert init[i] == bases[i];
          }
        }
      }
      c
  }

  /** The k-element members of a family of sets. */
  ghost function OfSize(s: set<Mask>, k: nat): set<Mask> {
    set x | x in s && |x| == k
  }

  /** The specified entry k of the histogram. */
  ghost function CoverCount(bases: seq<Mask>, k: nat): nat {
    |OfSize(Closure(bases), k)|
  }

  /** The k-element members of s that no base set in `earlier` contains: the
      ones the counter adds to the histogram while walking s. */
  ghost function Fresh(s: set<Mask>, earlier: seq<Mask>, k: nat): set<Mask> {
    set x | x in s && !Covered(earlier, x) && |x| == k
  }

  /** Processing base set i adds exactly its subsets that no earlier base set
      contains. */
  lemma CoverCountStep(bases: seq<Mask>, i: nat, k: nat)
    requires i < |bases|
    ensures CoverCount(bases[..i + 1], k)
         == CoverCount(bases[..i], k) + |Fresh(Powerset(bases[i]), bases[..i], k)|
  {
    var prefix := bases[..i + 1];
    assert prefix[..|prefix| - 1] == bases[..i];
    assert prefix[|prefix| - 1] == bases[i];
    assert Closure(prefix) == Closure(bases[..i]) + Powerset(bases[i]);
    OfSizeAddFresh(Closure(bases[..i]), Powerset(bases[i]), bases[..i], k);
  }

  /** Growing a family closed under the earlier bases by s adds, at size k,
      exactly the fresh members of s. */
  lemma OfSizeAddFresh(c: set<Mask>, s: set<Mask>, earlier: seq<Mask>, k: nat)
    requires forall x :: x in c <==> Covered(earlier, x)
    ensures |OfSize(c + s, k)| == |OfSize(c, k)| + |Fresh(s, earlier, k)|
  {
    assert OfSize(c + s, k) == OfSize(c, k) + Fresh(s, earlier, k);
    assert OfSize(c, k) * Fresh(s, earlier, k) == {};
  }

  /** A base set contained in an earlier one adds nothing: all its subsets
      were counted before. */
  lemma RedundantBaseAddsNothing(bases: seq<Mask>, i: nat, j: nat, k: nat)
    requires j < i < |bases|
    requires bases[i] <= bases[j]
    ensures Fresh(Powerset(bases[i]), bases[..i], k) == {}
    ensures CoverCount(bases[..i + 1], k) == CoverCount(bases[..i], k)
  {
    forall x | x in Powerset(bases[i]) ensures Covered(bases[..i], x) {
      assert x <= bases[..i][j];
    }
    CoverCountStep(bases, i, k);
  }

  /** Entry 0 counts the empty set once as soon as there is a base set. */
  lemma EmptySetCountedOnce(bases: seq<Mask>)
    requires |bases| >= 1
    ensures CoverCount(bases, 0) == 1
  {
    assert Covered(bases, {}) by {
      assert {} <= bases[0];
    }
    assert OfSize(Closure(bases), 0) == {{}};
  }

  /** With no base set nothing is counted. */
  lemma NoBaseSets(k: nat)
    ensures CoverCount([], k) == 0
  {
    assert OfSize(Closure([]), k) == {};
  }

  /** No covered set is larger than every base set. */
  lemma CoverCountAboveLargest(bases: seq<Mask>, k: nat)
    requires forall i :: 0 <= i < |bases| ==> |bases[i]| < k
    ensures CoverCount(bases, k) == 0
  {
    forall x | x in Closure(bases) ensures |x| < k {
      var i :| 0 <= i < |bases| && x <= bases[i];
      SubsetCard(x, bases[i]);
    }
    assert OfSize(Closure(bases), k) == {};
  }

  /** A set with at least k elements has a k-element subset. */
  lemma {:induction false} SubsetOfSize(a: Mask, k: nat) returns (x: Mask)
    requires k <= |a|
    ensures x <= a && |x| == k
  {
    if k == 0 {
      x := {};
    } else {
      var e :| e in a;
      x := SubsetOfSize(a - {e}, k - 1);
      x := x + {e};
    }
  }

  /** Every size up to the largest base set is represented. */
  lemma CoverCountPositive(bases: seq<Mask>, i: nat, k: nat)
    requires i < |bases|
    requires k <= |bases[i]|
    ensures CoverCount(bases, k) >= 1
  {
    var x := SubsetOfSize(bases[i], k);
    assert x in OfSize(Closure(bases), k);
  }

  /** The histogram's support is the contiguous range of sizes 0..max |A_i|:
      entry k is nonzero exactly when some base set has at least k elements. */
  lemma SupportIsPrefix(bases: seq<Mask>, k: nat)
    ensures CoverCount(bases, k) > 0 <==> exists i :: 0 <= i < |bases| && k <= |bases[i]|
  {
    if exists i :: 0 <= i < |bases| && k <= |bases[i]| {
      var i :| 0 <= i < |bases| && k <= |bases[i]|;
      CoverCountPositive(bases, i, k);
    } else {
      CoverCountAboveLargest(bases, k);
    }
  }

  /** Covering depends only on which base sets there are, not on their order:
      any permutation of the input yields the same histogram. */
  lemma CoverCountOrderIndependent(bases: seq<Mask>, other: seq<Mask>, k: nat)
    requires multiset(bases) == multiset(other)
    ensures CoverCount(bases, k) == CoverCount(other, k)
  {
    forall x ensures Covered(bases, x) ==> Covered(other, x) {
      if Covered(bases, x) {
        var i :| 0 <= i < |bases| && x <= bases[i];
        assert bases[i] in multiset(other);
        var j :| 0 <= j < |other| && other[j] == bases[i];
      }
    }
    forall x ensures Covered(other, x) ==> Covered(bases, x) {
      if Covered(other, x) {
        var j :| 0 <= j < |other| && x <= other[j];
        assert other[j] in multiset(bases);
        var i :| 0 <= i < |bases| && bases[i] == other[j];
      }
    }
    assert Closure(bases) == Closure(other);
  }

  function Binomial(n: nat, k: nat): nat {
    if k == 0 then 1
    else if n == 0 then 0
    else Binomial(n - 1, k - 1) + Binomial(n - 1, k)
  }

  /** Every member of s with e added. */
  ghost function WithElement(s: set<Mask>, e: nat): set<Mask> {
    set y | y in s :: y + {e}
  }

  /** Adding an element that no member contains keeps members apart. */
  lemma {:induction false} AddElementCard(s: set<Mask>, e: nat)
    requires forall y :: y in s ==> e !in y
    ensures |WithElement(s, e)| == |s|
    decreases s
  {
    if s != {} {
      var y0 :| y0 in s;
      var rest := s - {y0};
      AddElementCard(rest, e);
      WithElementSplit(s, y0, e);
    }
  }

  /** Splitting one member off before adding e. */
  lemma WithElementSplit(s: set<Mask>, y0: Mask, e: nat)
    requires y0 in s
    requires forall y :: y in s ==> e !in y
    ensures WithElement(s, e) == WithElement(s - {y0}, e) + {y0 + {e}}
    ensures y0 + {e} !in WithElement(s - {y0}, e)
  {
    forall y | y in s - {y0} ensures y + {e} != y0 + {e} {
      AddElementInjective(y, y0, e);
    }
  }

  lemma AddElementInjective(y: Mask, z: Mask, e: nat)
    requires e !in y && e !in z
    ensures y + {e} == z + {e} ==> y == z
  {
    assert y == (y + {e}) - {e};
    assert z == (z + {e}) - {e};
  }

  /** There are C(|a|, k) subsets of a with k elements. */
  lemma {:induction false} PowersetOfSizeCard(a: Mask, k: nat)
    ensures |OfSize(Powerset(a), k)| == Binomial(|a|, k)
    decreases a
  {
    if k == 0 {
      OnlyEmptyOfSizeZero(a);
    } else if a == {} {
      OnlyEmptyOfSizeZero(a);
      assert OfSize(Powerset(a), k) == {};
    } else {
      var e :| e in a;
      var b := a - {e};
      PowersetOfSizeCard(b, k);
      PowersetOfSizeCard(b, k - 1);
      PascalStep(a, e, k);
      assert |b| == |a| - 1;
      PascalRule(|a|, k);
    }
  }

  lemma PascalRule(n: nat, k: nat)
    requires n > 0 && k > 0
    ensures Binomial(n, k) == Binomial(n - 1, k - 1) + Binomial(n - 1, k)
  {
  }

  /** Pascal's rule on subsets: the k-subsets of a are the k-subsets of
      a - {e} plus one for each (k-1)-subset of a - {e}. */
  lemma PascalStep(a: Mask, e: nat, k: nat)
    requires e in a && k > 0
    ensures |OfSize(Powerset(a), k)|
         == |OfSize(Powerset(a - {e}), k)| + |OfSize(Powerset(a - {e}), k - 1)|
  {
    var smaller := OfSize(Powerset(a - {e}), k - 1);
    assert forall y :: y in smaller ==> e !in y;
    AddElementCard(smaller, e);
    SplitOnElement(a, e, k);
  }

  /** The empty set is the only subset with no element. */
  lemma OnlyEmptyOfSizeZero(a: Mask)
    ensures OfSize(Powerset(a), 0) == {{}}
    ensures a == {} ==> Powerset(a) == {{}}
  {
    assert {} in Powerset(a);
  }

  /** The k-subsets of a split into those without e and those made by adding e
      to a (k-1)-subset of a - {e}. */
  lemma SplitOnElement(a: Mask, e: nat, k: nat)
    requires e in a && k > 0
    ensures |OfSize(Powerset(a), k)|
         == |OfSize(Powerset(a - {e}), k)| + |WithElement(OfSize(Powerset(a - {e}), k - 1), e)|
  {
    var without := OfSize(Powerset(a - {e}), k);
    var with := WithElement(OfSize(Powerset(a - {e}), k - 1), e);
    SplitSets(a, e, k);
    assert without * with == {} by {
      forall x | x in with ensures e in x {
      }
    }
  }

  lemma SplitSets(a: Mask, e: nat, k: nat)
    requires e in a && k > 0
    ensures OfSize(Powerset(a), k)
         == OfSize(Powerset(a - {e}), k) + WithElement(OfSize(Powerset(a - {e}), k - 1), e)
  {
    var all := OfSize(Powerset(a), k);
    var without := OfSize(Powerset(a - {e}), k);
    var with := WithElement(OfSize(Powerset(a - {e}), k - 1), e);
    SplitCovers(a, e, k);
    SplitWithin(a, e, k);
    assert all == without + with;
  }

  lemma SplitCovers(a: Mask, e: nat, k: nat)
    requires e in a && k > 0
    ensures forall x :: x in OfSize(Powerset(a), k) ==>
      x in OfSize(Powerset(a - {e}), k) || x in WithElement(OfSize(Powerset(a - {e}), k - 1), e)
  {
    forall x | x in OfSize(Powerset(a), k)
      ensures x in OfSize(Powerset(a - {e}), k) || x in WithElement(OfSize(Powerset(a - {e}), k - 1), e)
    {
      SplitOne(a, e, k, x);
    }
  }

  lemma SplitOne(a: Mask, e: nat, k: nat, x: Mask)
    requires e in a && k > 0
    requires x <= a && |x| == k
    ensures x in OfSize(Powerset(a - {e}), k) || x in WithElement(OfSize(Powerset(a - {e}), k - 1), e)
  {
    var b := a - {e};
    if e in x {
      var y := x - {e};
      assert y in OfSize(Powerset(b), k - 1);
      assert x == y + {e};
    } else {
      assert x in Powerset(b);
    }
  }

  lemma SplitWithin(a: Mask, e: nat, k: nat)
    requires e in a && k > 0
    ensures forall y :: y in OfSize(Powerset(a - {e}), k - 1) ==> y + {e} in OfSize(Powerset(a), k)
    ensures OfSize(Powerset(a - {e}), k) <= OfSize(Powerset(a), k)
  {
    forall y | y in OfSize(Powerset(a - {e}), k - 1) ensures y + {e} in OfSize(Powerset(a), k) {
      AddElementOfSize(a, e, k, y);
    }
  }

  lemma AddElementOfSize(a: Mask, e: nat, k: nat, y: Mask)
    requires e in a && k > 0
    requires y in OfSize(Powerset(a - {e}), k - 1)
    ensures y + {e} in OfSize(Powerset(a), k)
  {
    assert y <= a - {e};
    assert y + {e} <= a;
    assert y + {e} in Powerset(a);
    assert |y + {e}| == |y| + 1 by {
      assert e !in y;
    }
  }

  /** A single base set of m elements gives the binomial row C(m, k). */
  lemma SingleBaseIsBinomial(a: Mask, k: nat)
    ensures CoverCount([a], k) == Binomial(|a|, k)
  {
    assert Closure([a]) == Powerset(a) by {
      forall x ensures x in Closure([a]) <==> x <= a {
        if x <= a {
          assert [a][0] == a;
        }
      }
    }
    PowersetOfSizeCard(a, k);
  }
}
