/**
 * `kmc2`: k-MC^2 seeding. Center 0 is `X[first]`; each later center is where a
 * Markov chain over uniformly proposed points ends, its acceptance test being
 * `dy2/dx2 > u` on the squared distances to the nearest chosen center.
 */
module KMC2 {
  import opened Data
  import opened Distance
  import opened Chain

  /** What `kmc2(X, k, m)` returns or raises when the draws are `first` and `chains`. */
  function Kmc2Spec(X: seq<Point>, k: int, first: nat, chains: seq<ChainDraws>): (res: Result<seq<Point>>)
    requires Rectangular(X) && (|X| > 0 ==> first < |X| && ChainsFit(chains, |X|))
    ensures res.Failure? <==> k < 1 || |X| == 0
  {
    match Preflight(X, k)
    case Some(e) => Failure(e)
    case None => Success(McmcFrom(X, [X[first]], Uniform, chains))
  }

  /**
   * A returned array has k rows; row 0 is `X[first]`; every later row i is the
   * dataset point where chain i - 1 ends against rows 0..i-1.
   */
  lemma Kmc2Rows(X: seq<Point>, k: int, first: nat, chains: seq<ChainDraws>)
    requires Rectangular(X) && (|X| > 0 ==> first < |X| && ChainsFit(chains, |X|)) && |chains| == LoopCount(k)
    requires Kmc2Spec(X, k, first, chains).Success?
    ensures var cs := Kmc2Spec(X, k, first, chains).value;
      && |cs| == k && cs[0] == X[first] && AllDim(cs, Dim(X))
      && (forall i :: 0 <= i < k ==> cs[i] in X)
      && forall i :: 1 <= i < k ==>
           cs[i] == X[ChainFrom(X, cs[..i], Uniform, chains[i - 1].start, chains[i - 1].steps)]
  {
    McmcRows(X, X[first], Uniform, chains);
  }

  /**
   * Row i is a point not among rows 0..i-1 exactly when the start or one of the
   * candidates of chain i - 1 is not among them.
   */
  lemma Kmc2NewCenterIff(X: seq<Point>, k: int, first: nat, chains: seq<ChainDraws>, i: nat)
    requires Rectangular(X) && (|X| > 0 ==> first < |X| && ChainsFit(chains, |X|)) && |chains| == LoopCount(k)
    requires forall c :: 0 <= c < |chains| ==> UnitDraws(chains[c])
    requires Kmc2Spec(X, k, first, chains).Success? && 1 <= i < k
    ensures var cs, c := Kmc2Spec(X, k, first, chains).value, chains[i - 1];
      cs[i] !in cs[..i] <==> X[c.start] !in cs[..i] || exists j :: 0 <= j < |c.steps| && X[c.steps[j].y] !in cs[..i]
  {
    Kmc2Rows(X, k, first, chains);
    var cs, c := Kmc2Spec(X, k, first, chains).value, chains[i - 1];
    assert UnitDraws(c) && DrawsFit(c, |X|);
    ChainFromNew(X, cs[..i], Uniform, c.start, c.steps);
  }

  /** With m <= 1 the inner loop never runs and every later center is its chain's uniform start. */
  lemma Kmc2SingleCandidate(X: seq<Point>, k: int, m: int, first: nat, chains: seq<ChainDraws>)
    requires Rectangular(X) && (|X| > 0 ==> first < |X| && ChainsFit(chains, |X|)) && |chains| == LoopCount(k)
    requires ChainLengths(chains, m) && m <= 1
    requires Kmc2Spec(X, k, first, chains).Success?
    ensures var cs := Kmc2Spec(X, k, first, chains).value;
      forall i :: 1 <= i < k ==> cs[i] == X[chains[i - 1].start]
  {
    Kmc2Rows(X, k, first, chains);
    var cs := Kmc2Spec(X, k, first, chains).value;
    forall i | 1 <= i < k ensures cs[i] == X[chains[i - 1].start] {
      assert |chains[i - 1].steps| == 0;
    }
  }

  /**
   * `kmc2(X, k, m)`: fills a k-row `centers` array row by row, running one chain
   * of m proposals per row after the first, and returns it, or raises.
   */
  method Kmc2(X: seq<Point>, k: int, m: int, first: nat, chains: seq<ChainDraws>) returns (res: Result<seq<Point>>)
    requires Rectangular(X) && (|X| > 0 ==> first < |X| && ChainsFit(chains, |X|))
    requires |chains| == LoopCount(k) && ChainLengths(chains, m)
    ensures res == Kmc2Spec(X, k, first, chains)
  {
    var pre := Preflight(X, k);
    if pre.Some? {
      return Failure(pre.value);
    }
    var centers := new Point[k](_ => Zeros(Dim(X)));
    centers[0] := X[first];
    FillCenters(X, centers, Uniform, chains);
    return Success(centers[..]);
  }
}
