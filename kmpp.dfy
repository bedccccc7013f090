/**
 * `kmpp`: k-means++ seeding. Center 0 is `X[first]`; each later center is the
 * first dataset point whose cumulative share of the squared distances to the
 * nearest chosen center reaches the uniform draw `r` for that iteration.
 */
module KMeansPP {
  import opened Data
  import opened Sums
  import opened Distance

  /** `D2`: for every point, the squared distance to its nearest center in `cs`. */
  function D2(X: seq<Point>, cs: seq<Point>): (d: seq<real>)
    requires Rectangular(X) && |cs| > 0 && AllDim(cs, Dim(X))
    ensures |d| == |X| && NonNegative(d)
  {
    seq(|X|, x requires 0 <= x < |X| => MinSqDist(X[x], cs))
  }

  /** A point's `D2` entry is zero exactly when the point is one of the centers. */
  lemma D2ZeroAtCenters(X: seq<Point>, cs: seq<Point>, x: nat)
    requires Rectangular(X) && |cs| > 0 && AllDim(cs, Dim(X)) && x < |X|
    ensures D2(X, cs)[x] == 0.0 <==> X[x] in cs
    ensures forall j :: 0 <= j < |cs| ==> D2(X, cs)[x] <= SqDist(X[x], cs[j])
  {
    MinSqDistZeroIff(X[x], cs);
    MinSqDistIsNearest(X[x], cs);
  }

  /**
   * `np.where(c >= r)[0][0]`, searching from index `from`: the least index whose
   * entry reaches `r`, or None where numpy's empty match raises IndexError.
   */
  function IndexAtLeast(c: seq<real>, r: real, from: nat): (res: Option<nat>)
    requires from <= |c|
    ensures res.Some? ==> from <= res.value < |c| && c[res.value] >= r
    ensures res.Some? ==> forall j :: from <= j < res.value ==> c[j] < r
    ensures res.None? ==> forall j :: from <= j < |c| ==> c[j] < r
    decreases |c| - from
  {
    if from == |c| then None
    else if c[from] >= r then Some(from)
    else IndexAtLeast(c, r, from + 1)
  }

  /**
   * Lines 39-46 of one iteration: the index chosen for threshold `r` given the
   * centers `cs` chosen so far. When every `D2` entry is zero, `probs` is
   * 0/0 = NaN throughout, nothing compares `>= r`, and the lookup raises.
   */
  function Select(X: seq<Point>, cs: seq<Point>, r: real): (res: Option<nat>)
    requires Rectangular(X) && |cs| > 0 && AllDim(cs, Dim(X))
    ensures res.Some? ==> res.value < |X|
  {
    var dist := D2(X, cs);
    var total := Sum(dist);
    if total == 0.0 then None
    else IndexAtLeast(CumSum(ScaleShift(dist, total, 0.0)), r, 0)
  }

  /** With a positive total, the last cumulative share is exactly one. */
  lemma LastShareIsOne(dist: seq<real>)
    requires |dist| > 0 && Sum(dist) != 0.0
    ensures CumSum(ScaleShift(dist, Sum(dist), 0.0))[|dist| - 1] == 1.0
  {
    var total := Sum(dist);
    CumSumScaled(dist, total, |dist| - 1);
    assert dist[..|dist|] == dist;
    SelfQuotient(total);
  }

  lemma SelfQuotient(c: real)
    requires c != 0.0
    ensures c / c == 1.0
  {
  }

  /** Every cumulative share of non-negative distances is at most one. */
  lemma ShareAtMostOne(dist: seq<real>, j: nat)
    requires NonNegative(dist) && Sum(dist) > 0.0 && j < |dist|
    ensures CumSum(ScaleShift(dist, Sum(dist), 0.0))[j] <= 1.0
  {
    CumSumScaled(dist, Sum(dist), j);
    SumPrefixBounded(dist, j + 1);
    DivMonotone(Sum(dist[..j + 1]), Sum(dist));
  }

  /** A threshold finds an index exactly when some point is off the centers and r <= 1. */
  lemma SelectSomeIff(X: seq<Point>, cs: seq<Point>, r: real)
    requires Rectangular(X) && |cs| > 0 && AllDim(cs, Dim(X))
    ensures Select(X, cs, r).Some? <==> Sum(D2(X, cs)) > 0.0 && r <= 1.0
  {
    var dist := D2(X, cs);
    SumZeroIff(dist);
    if Sum(dist) > 0.0 {
      assert |dist| > 0;
      LastShareIsOne(dist);
      if Select(X, cs, r).Some? {
        ShareAtMostOne(dist, Select(X, cs, r).value);
      }
    }
  }

  lemma DivMonotone(a: real, c: real)
    requires 0.0 <= a <= c && c > 0.0
    ensures a / c <= 1.0
  {
  }

  /**
   * The chosen index is the inverse-CDF index: the first one whose prefix of
   * `D2` reaches the share `r` of the total.
   */
  lemma SelectIsFirstOverThreshold(X: seq<Point>, cs: seq<Point>, r: real)
    requires Rectangular(X) && |cs| > 0 && AllDim(cs, Dim(X))
    requires Select(X, cs, r).Some?
    ensures var dist, ind := D2(X, cs), Select(X, cs, r).value;
      && ind < |X|
      && Sum(dist[..ind + 1]) / Sum(dist) >= r
      && forall j :: 0 < j <= ind ==> Sum(dist[..j]) / Sum(dist) < r
  {
    var dist := D2(X, cs);
    var total := Sum(dist);
    var ind := Select(X, cs, r).value;
    CumSumScaled(dist, total, ind);
    forall j | 0 < j <= ind ensures Sum(dist[..j]) / total < r {
      CumSumScaled(dist, total, j - 1);
    }
  }

  /** For r > 0 the chosen point is at positive distance from every center, so it is new. */
  lemma SelectIsFresh(X: seq<Point>, cs: seq<Point>, r: real)
    requires Rectangular(X) && |cs| > 0 && AllDim(cs, Dim(X))
    requires r > 0.0 && Select(X, cs, r).Some?
    ensures var ind := Select(X, cs, r).value;
      ind < |X| && D2(X, cs)[ind] > 0.0 && X[ind] !in cs
  {
    var dist := D2(X, cs);
    var total := Sum(dist);
    var ind := Select(X, cs, r).value;
    SelectIsFirstOverThreshold(X, cs, r);
    SumStep(dist, ind);
    if ind == 0 {
      assert dist[..0] == [];
    }
    D2ZeroAtCenters(X, cs, ind);
  }

  /** The remaining iterations of the loop at lines 37-49, from the centers `cs` chosen so far. */
  function KmppFrom(X: seq<Point>, cs: seq<Point>, rs: seq<real>): (res: Result<seq<Point>>)
    requires Rectangular(X) && |cs| > 0 && AllDim(cs, Dim(X))
    ensures res.Success? ==> |res.value| == |cs| + |rs|
    ensures res.Failure? ==> res.error == NoThresholdIndex
    decreases |rs|
  {
    if |rs| == 0 then Success(cs)
    else
      match Select(X, cs, rs[0])
      case None => Failure(NoThresholdIndex)
      case Some(ind) => KmppFrom(X, cs + [X[ind]], rs[1..])
  }

  /** What `kmpp(X, k)` returns or raises when the draws are `first` and `rs`. */
  function KmppSpec(X: seq<Point>, k: int, first: nat, rs: seq<real>): (res: Result<seq<Point>>)
    requires Rectangular(X) && (|X| > 0 ==> first < |X|)
    ensures k < 1 || |X| == 0 ==> res.Failure?
    ensures res.Success? ==> |res.value| == |rs| + 1
  {
    match Preflight(X, k)
    case Some(e) => Failure(e)
    case None => KmppFrom(X, [X[first]], rs)
  }

  lemma {:induction false} KmppFromTrace(X: seq<Point>, cs: seq<Point>, rs: seq<real>)
    requires Rectangular(X) && |cs| > 0 && AllDim(cs, Dim(X))
    requires KmppFrom(X, cs, rs).Success?
    ensures var out := KmppFrom(X, cs, rs).value;
      && |out| == |cs| + |rs| && out[..|cs|] == cs && AllDim(out, Dim(X))
      && forall i :: |cs| <= i < |out| ==>
           Select(X, out[..i], rs[i - |cs|]).Some?
           && out[i] == X[Select(X, out[..i], rs[i - |cs|]).value]
    decreases |rs|
  {
    if |rs| > 0 {
      var ind := Select(X, cs, rs[0]).value;
      var cs' := cs + [X[ind]];
      KmppFromTrace(X, cs', rs[1..]);
      var out := KmppFrom(X, cs, rs).value;
      assert out == KmppFrom(X, cs', rs[1..]).value;
      assert out[..|cs|] == cs by {
        assert out[..|cs'|][..|cs|] == cs;
      }
      forall i | |cs| <= i < |out|
        ensures Select(X, out[..i], rs[i - |cs|]).Some?
        ensures out[i] == X[Select(X, out[..i], rs[i - |cs|]).value]
      {
        if i == |cs| {
          assert out[..i] == cs;
        } else {
          assert rs[i - |cs|] == rs[1..][i - |cs'|];
        }
      }
    }
  }

  /**
   * A returned array has k rows; row 0 is `X[first]`; every later row i is the
   * dataset point the threshold `rs[i - 1]` selects given rows 0..i-1, so every
   * row is a copy of a dataset row.
   */
  lemma KmppRows(X: seq<Point>, k: int, first: nat, rs: seq<real>)
    requires Rectangular(X) && (|X| > 0 ==> first < |X|) && |rs| == LoopCount(k)
    requires KmppSpec(X, k, first, rs).Success?
    ensures var cs := KmppSpec(X, k, first, rs).value;
      && |cs| == k && cs[0] == X[first] && AllDim(cs, Dim(X))
      && (forall i :: 0 <= i < k ==> cs[i] in X)
      && forall i :: 1 <= i < k ==>
           Select(X, cs[..i], rs[i - 1]).Some? && cs[i] == X[Select(X, cs[..i], rs[i - 1]).value]
  {
    KmppFromTrace(X, [X[first]], rs);
    var cs := KmppSpec(X, k, first, rs).value;
    assert cs[..1] == [X[first]];
    forall i | 0 <= i < k ensures cs[i] in X {
      if i > 0 {
        var ind := Select(X, cs[..i], rs[i - 1]).value;
        assert ind < |X|;
      }
    }
  }

  /** Extending distinct dataset rows by fresh selections keeps them distinct and never fails. */
  lemma {:induction false} KmppFromDistinct(X: seq<Point>, cs: seq<Point>, rs: seq<real>)
    requires Rectangular(X) && |cs| > 0 && AllDim(cs, Dim(X)) && Distinct(cs)
    requires |cs| + |rs| <= |RowSet(X)|
    requires forall j :: 0 <= j < |rs| ==> 0.0 < rs[j] <= 1.0
    ensures KmppFrom(X, cs, rs).Success? && Distinct(KmppFrom(X, cs, rs).value)
    decreases |rs|
  {
    if |rs| > 0 {
      var x := RowOutside(X, cs);
      D2ZeroAtCenters(X, cs, x);
      var dist := D2(X, cs);
      SumZeroIff(dist);
      SelectSomeIff(X, cs, rs[0]);
      SelectIsFresh(X, cs, rs[0]);
      var ind := Select(X, cs, rs[0]).value;
      var cs' := cs + [X[ind]];
      assert Distinct(cs') by {
        forall i, j | 0 <= i < j < |cs'| ensures cs'[i] != cs'[j] {
          if j == |cs| { assert cs[i] in cs; }
        }
      }
      KmppFromDistinct(X, cs', rs[1..]);
    }
  }

  /**
   * With at least k distinct points and every threshold in (0, 1], kmpp never
   * raises and returns k pairwise distinct centers.
   */
  lemma KmppDistinctCenters(X: seq<Point>, k: int, first: nat, rs: seq<real>)
    requires Rectangular(X) && |X| > 0 && first < |X| && |rs| == LoopCount(k)
    requires 1 <= k <= |RowSet(X)|
    requires forall j :: 0 <= j < |rs| ==> 0.0 < rs[j] <= 1.0
    ensures KmppSpec(X, k, first, rs).Success?
    ensures Distinct(KmppSpec(X, k, first, rs).value)
  {
    KmppFromDistinct(X, [X[first]], rs);
  }

  /**
   * `kmpp(X, k)`: fills a k-row `centers` array row by row (row 0 from the first
   * draw, row i in iteration i) and returns it, or raises.
   */
  method Kmpp(X: seq<Point>, k: int, first: nat, rs: seq<real>) returns (res: Result<seq<Point>>)
    requires Rectangular(X) && (|X| > 0 ==> first < |X|) && |rs| == LoopCount(k)
    ensures res == KmppSpec(X, k, first, rs)
  {
    var pre := Preflight(X, k);
    if pre.Some? {
      return Failure(pre.value);
    }
    var centers := new Point[k](_ => Zeros(Dim(X)));
    centers[0] := X[first];
    assert centers[..1] == [X[first]] && rs[0..] == rs;
    for i := 1 to k
      invariant AllDim(centers[..i], Dim(X))
      invariant KmppFrom(X, centers[..i], rs[i - 1..]) == KmppSpec(X, k, first, rs)
    {
      var dist := D2(X, centers[..i]);
      var total := Sum(dist);
      if total == 0.0 {
        return Failure(NoThresholdIndex);
      }
      var cumprobs := CumSum(ScaleShift(dist, total, 0.0));
      var ind := IndexAtLeast(cumprobs, rs[i - 1], 0);
      if ind.None? {
        return Failure(NoThresholdIndex);
      }
      ghost var chosen := centers[..i];
      centers[i] := X[ind.value];
      assert centers[..i + 1] == chosen + [X[ind.value]];
    }
    assert centers[..k] == centers[..];
    return Success(centers[..]);
  }
}
