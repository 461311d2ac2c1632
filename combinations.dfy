/**
 * `generate_efficient_combinations` of storage/validator/utils.py and the
 * two library functions it rests on: `math.comb` and
 * `itertools.combinations`. Like `itertools.combinations`, the model picks
 * elements by position, not by value: a combination is a strictly
 * increasing list of positions, and the elements at those positions.
 */
module Combinations {
  import opened Wrappers
  import opened PyMath

  /** `math.comb(n, k)`: the number of ways to choose `k` of `n` items. */
  function Comb(n: nat, k: nat): (c: nat)
    ensures k > n <==> c == 0
  {
    if k == 0 then 1
    else if n == 0 then 0
    else Comb(n - 1, k - 1) + Comb(n - 1, k)
  }

  /** The positions in `x` strictly increase. */
  predicate Increasing(x: seq<nat>)
  {
    forall i, j :: 0 <= i < j < |x| ==> x[i] < x[j]
  }

  /** `x` picks `k` positions out of `[lo, n)`, in increasing order. */
  predicate IsSelection(x: seq<nat>, lo: nat, n: nat, k: nat)
  {
    |x| == k && Increasing(x) && forall i :: 0 <= i < |x| ==> lo <= x[i] < n
  }

  /** Lexicographic order on lists of positions: `x` comes strictly before `y`. */
  predicate LexLess(x: seq<nat>, y: seq<nat>)
    decreases |x|
  {
    |x| > 0 && |y| > 0 && (x[0] < y[0] || (x[0] == y[0] && LexLess(x[1..], y[1..])))
  }

  /** Every list of `cs` with `x` put in front. */
  function WithHead<T>(x: T, cs: seq<seq<T>>): seq<seq<T>>
  {
    seq(|cs|, i requires 0 <= i < |cs| => [x] + cs[i])
  }

  /**
   * The position lists `itertools.combinations` goes through when choosing
   * `k` of the positions `[lo, n)`: those that use `lo` first, then those
   * that do not.
   */
  function Selections(lo: nat, n: nat, k: nat): (r: seq<seq<nat>>)
    requires lo <= n
    ensures |r| == Comb(n - lo, k)
    decreases n - lo
  {
    if k == 0 then [[]]
    else if lo == n then []
    else WithHead(lo, Selections(lo + 1, n, k - 1)) + Selections(lo + 1, n, k)
  }

  /** Putting `lo` in front of a selection from `[lo + 1, n)` gives a selection from `[lo, n)`. */
  lemma ConsSelection(y: seq<nat>, lo: nat, n: nat, k: nat)
    requires lo < n && IsSelection(y, lo + 1, n, k)
    ensures IsSelection([lo] + y, lo, n, k + 1)
  {
    var x := [lo] + y;
    forall i, j | 0 <= i < j < |x|
      ensures x[i] < x[j]
    {
      assert x[j] == y[j - 1];
      if i > 0 {
        assert x[i] == y[i - 1];
      }
    }
  }

  /** Every list of `Selections(lo, n, k)` picks `k` positions of `[lo, n)` in increasing order. */
  lemma {:induction false} SelectionsAreSelections(lo: nat, n: nat, k: nat)
    requires lo <= n
    ensures forall i :: 0 <= i < |Selections(lo, n, k)| ==> IsSelection(Selections(lo, n, k)[i], lo, n, k)
    decreases n - lo
  {
    var r := Selections(lo, n, k);
    if k == 0 {
      assert r == [[]];
    } else if lo < n {
      var a := Selections(lo + 1, n, k - 1);
      var b := Selections(lo + 1, n, k);
      SelectionsAreSelections(lo + 1, n, k - 1);
      SelectionsAreSelections(lo + 1, n, k);
      assert r == WithHead(lo, a) + b;
      forall i | 0 <= i < |r|
        ensures IsSelection(r[i], lo, n, k)
      {
        if i < |a| {
          ConsSelection(a[i], lo, n, k - 1);
        } else {
          assert r[i] == b[i - |a|];
        }
      }
    }
  }

  /** Every increasing choice of `k` positions of `[lo, n)` is one of `Selections(lo, n, k)`. */
  lemma {:induction false} SelectionsComplete(lo: nat, n: nat, k: nat, x: seq<nat>)
    requires lo <= n && IsSelection(x, lo, n, k)
    ensures x in Selections(lo, n, k)
    decreases n - lo
  {
    var r := Selections(lo, n, k);
    if k == 0 {
      assert x == [];
      assert r == [[]];
    } else {
      assert lo <= x[0] < n;
      var a := Selections(lo + 1, n, k - 1);
      var b := Selections(lo + 1, n, k);
      assert r == WithHead(lo, a) + b;
      if x[0] == lo {
        var y := x[1..];
        assert IsSelection(y, lo + 1, n, k - 1) by {
          forall i | 0 <= i < |y|
            ensures lo + 1 <= y[i] < n
          {
            assert y[i] == x[i + 1];
          }
        }
        SelectionsComplete(lo + 1, n, k - 1, y);
        var idx :| 0 <= idx < |a| && a[idx] == y;
        assert r[idx] == [lo] + y == x;
      } else {
        assert IsSelection(x, lo + 1, n, k) by {
          forall i | 0 <= i < |x|
            ensures lo + 1 <= x[i]
          {
            if i > 0 {
              assert x[0] < x[i];
            }
          }
        }
        SelectionsComplete(lo + 1, n, k, x);
        var idx :| 0 <= idx < |b| && b[idx] == x;
        assert r[|a| + idx] == x;
      }
    }
  }

  /** `Selections(lo, n, k)` lists its position lists in strictly increasing lexicographic order. */
  lemma {:induction false} SelectionsSorted(lo: nat, n: nat, k: nat)
    requires lo <= n
    ensures forall i, j :: 0 <= i < j < |Selections(lo, n, k)| ==>
      LexLess(Selections(lo, n, k)[i], Selections(lo, n, k)[j])
    decreases n - lo
  {
    var r := Selections(lo, n, k);
    if k > 0 && lo < n {
      var a := Selections(lo + 1, n, k - 1);
      var b := Selections(lo + 1, n, k);
      SelectionsSorted(lo + 1, n, k - 1);
      SelectionsSorted(lo + 1, n, k);
      SelectionsAreSelections(lo + 1, n, k);
      assert r == WithHead(lo, a) + b;
      forall i, j | 0 <= i < j < |r|
        ensures LexLess(r[i], r[j])
      {
        if j < |a| {
          assert r[i][1..] == a[i];
          assert r[j][1..] == a[j];
        } else if i < |a| {
          assert r[j] == b[j - |a|];
          assert IsSelection(b[j - |a|], lo + 1, n, k);
        } else {
          assert r[i] == b[i - |a|];
          assert r[j] == b[j - |a|];
        }
      }
    }
  }

  /** No list comes strictly before itself. */
  lemma {:induction false} LexLessIrreflexive(x: seq<nat>)
    ensures !LexLess(x, x)
    decreases |x|
  {
    if |x| > 0 {
      LexLessIrreflexive(x[1..]);
    }
  }

  /** Hence the lists of `Selections(lo, n, k)` are pairwise different. */
  lemma SelectionsDistinct(lo: nat, n: nat, k: nat)
    requires lo <= n
    ensures forall i, j :: 0 <= i < j < |Selections(lo, n, k)| ==> Selections(lo, n, k)[i] != Selections(lo, n, k)[j]
  {
    var r := Selections(lo, n, k);
    SelectionsSorted(lo, n, k);
    forall i, j | 0 <= i < j < |r|
      ensures r[i] != r[j]
    {
      LexLessIrreflexive(r[i]);
    }
  }

  /** The elements of `s` at the positions `x`. */
  function Pick<T>(s: seq<T>, x: seq<nat>): seq<T>
    requires forall i :: 0 <= i < |x| ==> x[i] < |s|
  {
    seq(|x|, i requires 0 <= i < |x| => s[x[i]])
  }

  /**
   * `itertools.combinations(s, k)`: the elements at each increasing choice
   * of `k` positions of `s`, in lexicographic order of the positions.
   */
  function Combinations<T>(s: seq<T>, k: nat): (r: seq<seq<T>>)
    ensures |r| == Comb(|s|, k)
    ensures forall i :: 0 <= i < |r| ==> |r[i]| == k
    ensures forall i :: 0 <= i < |r| ==>
      IsSelection(Selections(0, |s|, k)[i], 0, |s|, k) && r[i] == Pick(s, Selections(0, |s|, k)[i])
  {
    var sel := Selections(0, |s|, k);
    SelectionsAreSelections(0, |s|, k);
    seq(|sel|, i requires 0 <= i < |sel| => Pick(s, sel[i]))
  }

  /** Every way of picking `k` elements of `s` in input order is one of the combinations. */
  lemma CombinationsComplete<T>(s: seq<T>, k: nat, x: seq<nat>)
    requires IsSelection(x, 0, |s|, k)
    ensures Pick(s, x) in Combinations(s, k)
  {
    SelectionsComplete(0, |s|, k, x);
    var sel := Selections(0, |s|, k);
    var idx :| 0 <= idx < |sel| && sel[idx] == x;
    assert Combinations(s, k)[idx] == Pick(s, x);
  }

  /** Different position lists pick different elements when `s` has no repeated element. */
  lemma PickInjective<T>(s: seq<T>, x: seq<nat>, y: seq<nat>)
    requires forall p, q :: 0 <= p < q < |s| ==> s[p] != s[q]
    requires |x| == |y|
    requires forall i :: 0 <= i < |x| ==> x[i] < |s| && y[i] < |s|
    requires Pick(s, x) == Pick(s, y)
    ensures x == y
  {
    forall i | 0 <= i < |x|
      ensures x[i] == y[i]
    {
      assert Pick(s, x)[i] == Pick(s, y)[i];
    }
  }

  /** Over distinct elements (a list of uids), the combinations are pairwise different groups. */
  lemma CombinationsDistinct<T>(s: seq<T>, k: nat)
    requires forall p, q :: 0 <= p < q < |s| ==> s[p] != s[q]
    ensures forall i, j :: 0 <= i < j < |Combinations(s, k)| ==> Combinations(s, k)[i] != Combinations(s, k)[j]
  {
    var r := Combinations(s, k);
    var sel := Selections(0, |s|, k);
    SelectionsDistinct(0, |s|, k);
    forall i, j | 0 <= i < j < |r|
      ensures r[i] != r[j]
    {
      if r[i] == r[j] {
        PickInjective(s, sel[i], sel[j]);
        assert false;
      }
    }
  }

  /**
   * `generate_efficient_combinations(available_uids, R)`: ValueError when
   * `R` exceeds the number of uids (and, from `itertools.combinations`,
   * when `R` is negative); otherwise all comb(n, R) groups of `R` uids, each
   * in input order.
   */
  function GenerateEfficientCombinations<U>(availableUids: seq<U>, R: int): (r: Result<seq<seq<U>>, PyError>)
    ensures r.Failure? <==> (R > |availableUids| || R < 0)
    ensures r.Failure? ==> r.error == ValueError
    ensures r.Success? ==> 0 <= R && |r.value| == Comb(|availableUids|, R) && |r.value| > 0
    ensures r.Success? ==> r.value == Combinations(availableUids, R)
  {
    if R > |availableUids| then Failure(ValueError)
    else if R < 0 then Failure(ValueError)
    else Success(Combinations(availableUids, R))
  }

  /**
   * Every group of `R` distinct uids taken in input order is produced by
   * `generate_efficient_combinations`, and no group is produced twice.
   */
  lemma GenerateEfficientCombinationsAll<U>(availableUids: seq<U>, R: nat, x: seq<nat>)
    requires forall p, q :: 0 <= p < q < |availableUids| ==> availableUids[p] != availableUids[q]
    requires IsSelection(x, 0, |availableUids|, R)
    ensures GenerateEfficientCombinations(availableUids, R).Success?
    ensures Pick(availableUids, x) in GenerateEfficientCombinations(availableUids, R).value
    ensures var groups := GenerateEfficientCombinations(availableUids, R).value;
      forall i, j :: 0 <= i < j < |groups| ==> groups[i] != groups[j]
  {
    if R > |availableUids| {
      assert x[R - 1] < |availableUids|;
      IncreasingAtLeastIndex(x, R - 1);
      assert false;
    }
    CombinationsComplete(availableUids, R, x);
    CombinationsDistinct(availableUids, R);
  }

  /** The `i`-th of increasing positions is at least `i`. */
  lemma {:induction false} IncreasingAtLeastIndex(x: seq<nat>, i: nat)
    requires Increasing(x) && i < |x|
    ensures x[i] >= i
  {
    if i > 0 {
      IncreasingAtLeastIndex(x, i - 1);
      assert x[i - 1] < x[i];
    }
  }
}
