/**
 * `afkmc2`: assumption-free k-MC^2 seeding. Center 0 is `X[first]`; the
 * proposal `q` mixes the squared distances to that center with the uniform
 * distribution, and each later center is where a Markov chain over points
 * proposed from `q` ends, its acceptance test being `(dy2*q[x])/(dx2*q[y]) > u`.
 */
module AFKMC2 {
  import opened Data
  import opened Sums
  import opened Distance
  import opened Chain

  /** `d2` at lines 114-115: every point's squared distance to the first center. */
  function FirstCenterD2(X: seq<Point>, c0: Point): (d2: seq<real>)
    requires Rectangular(X) && |c0| == Dim(X)
    ensures |d2| == |X| && NonNegative(d2)
  {
    seq(|X|, i requires 0 <= i < |X| => SqDist(X[i], c0))
  }

  /** The distances to the first center sum to zero exactly when every point equals it. */
  lemma FirstCenterD2ZeroIff(X: seq<Point>, c0: Point)
    requires Rectangular(X) && |c0| == Dim(X)
    ensures Sum(FirstCenterD2(X, c0)) == 0.0 <==> forall i :: 0 <= i < |X| ==> X[i] == c0
  {
    var d2 := FirstCenterD2(X, c0);
    SumZeroIff(d2);
    forall i | 0 <= i < |X| ensures d2[i] == 0.0 <==> X[i] == c0 {
      SqDistZeroIff(X[i], c0);
    }
  }

  /** `q = d2/(2*np.sum(d2)) + 1/(2.0*n)` at line 116. */
  function Proposal(d2: seq<real>): (q: seq<real>)
    requires |d2| > 0 && Sum(d2) != 0.0
    ensures |q| == |d2|
  {
    ScaleShift(d2, 2.0 * Sum(d2), 1.0 / (2.0 * (|d2| as real)))
  }

  lemma HalfShare(s: real, c: real)
    requires s != 0.0 && c == 2.0 * s
    ensures s / c == 0.5
  {
  }

  lemma HalfCount(n: real, b: real)
    requires n > 0.0 && b == 1.0 / (2.0 * n)
    ensures n * b == 0.5
  {
  }

  lemma DivOrder(a: real, b: real, c: real)
    requires c > 0.0
    ensures a / c <= b / c <==> a <= b
  {
    assert a / c * c == a && b / c * c == b;
  }

  /** The proposal's weights sum to one: half from the distances, half from the uniform part. */
  lemma ProposalSumsToOne(d2: seq<real>)
    requires |d2| > 0 && Sum(d2) != 0.0
    ensures Sum(Proposal(d2)) == 1.0
  {
    MixtureSumsToOne(d2);
  }

  lemma MixtureSumsToOne(d2: seq<real>)
    requires |d2| > 0 && Sum(d2) != 0.0
    ensures Sum(ScaleShift(d2, 2.0 * Sum(d2), 1.0 / (2.0 * (|d2| as real)))) == 1.0
  {
    var s, n := Sum(d2), |d2| as real;
    SumScaleShift(d2, 2.0 * s, 1.0 / (2.0 * n));
    HalvesMakeOne(Sum(ScaleShift(d2, 2.0 * s, 1.0 / (2.0 * n))), s, 2.0 * s, n, 1.0 / (2.0 * n));
  }

  /** s/(2s) + n/(2n) is one. */
  lemma HalvesMakeOne(total: real, s: real, c: real, n: real, b: real)
    requires s != 0.0 && c == 2.0 * s && n > 0.0 && b == 1.0 / (2.0 * n)
    requires total == s / c + n * b
    ensures total == 1.0
  {
    HalfShare(s, c);
    HalfCount(n, b);
  }

  /** Every weight is at least the uniform floor 1/(2n). */
  lemma ProposalFloor(d2: seq<real>, i: nat)
    requires |d2| > 0 && NonNegative(d2) && Sum(d2) != 0.0 && i < |d2|
    ensures Proposal(d2)[i] >= 1.0 / (2.0 * (|d2| as real)) > 0.0
  {
    SumZeroIff(d2);
    DivOrder(0.0, d2[i], 2.0 * Sum(d2));
  }

  /** Weights are ordered as the distances to the first center are. */
  lemma ProposalOrder(d2: seq<real>, i: nat, j: nat)
    requires |d2| > 0 && NonNegative(d2) && Sum(d2) != 0.0 && i < |d2| && j < |d2|
    ensures Proposal(d2)[i] <= Proposal(d2)[j] <==> d2[i] <= d2[j]
  {
    SumZeroIff(d2);
    DivOrder(d2[i], d2[j], 2.0 * Sum(d2));
  }

  /**
   * The proposal is a probability distribution that puts weight at least 1/(2n)
   * on every point and ranks points as their distance to the first center does.
   */
  lemma ProposalIsDistribution(d2: seq<real>)
    requires |d2| > 0 && NonNegative(d2) && Sum(d2) != 0.0
    ensures var q, n := Proposal(d2), |d2| as real;
      && Sum(q) == 1.0
      && (forall i :: 0 <= i < |q| ==> q[i] >= 1.0 / (2.0 * n) > 0.0)
      && forall i, j :: 0 <= i < |q| && 0 <= j < |q| ==> (q[i] <= q[j] <==> d2[i] <= d2[j])
  {
    var q := Proposal(d2);
    ProposalSumsToOne(d2);
    forall i | 0 <= i < |q| ensures q[i] >= 1.0 / (2.0 * (|d2| as real)) > 0.0 {
      ProposalFloor(d2, i);
    }
    forall i, j | 0 <= i < |q| && 0 <= j < |q| ensures q[i] <= q[j] <==> d2[i] <= d2[j] {
      ProposalOrder(d2, i, j);
    }
  }

  /** The proposal as a chain kind: a mixture whose weights are all positive and fit the dataset. */
  lemma ProposalFits(X: seq<Point>, c0: Point)
    requires Rectangular(X) && |c0| == Dim(X) && |X| > 0 && Sum(FirstCenterD2(X, c0)) != 0.0
    ensures var kind := Mixture(Proposal(FirstCenterD2(X, c0)));
      KindFits(kind, |X|) && PositiveWeights(kind)
  {
    ProposalIsDistribution(FirstCenterD2(X, c0));
  }

  /**
   * What `afkmc2(X, k, m)` returns or raises when the draws are `first` and
   * `chains`. When every point equals the first center, `q` is 0/0 = NaN
   * throughout and the first proposal draw raises; with k = 1 it is never drawn.
   */
  function Afkmc2Spec(X: seq<Point>, k: int, first: nat, chains: seq<ChainDraws>): (res: Result<seq<Point>>)
    requires Rectangular(X) && (|X| > 0 ==> first < |X| && ChainsFit(chains, |X|))
    ensures res.Failure? <==> k < 1 || |X| == 0 || (k > 1 && Sum(FirstCenterD2(X, X[first])) == 0.0)
    ensures res.Success? && |chains| == LoopCount(k) ==> |res.value| == k
  {
    match Preflight(X, k)
    case Some(e) => Failure(e)
    case None =>
      var d2 := FirstCenterD2(X, X[first]);
      if Sum(d2) == 0.0 then
        if k > 1 then Failure(InvalidProposal) else Success([X[first]])
      else
        Success(McmcFrom(X, [X[first]], Mixture(Proposal(d2)), chains))
  }

  /**
   * The call raises because the proposal is undefined exactly when a chain must
   * be drawn (k > 1) and every point of a non-empty dataset equals the first center.
   */
  lemma Afkmc2InvalidIff(X: seq<Point>, k: int, first: nat, chains: seq<ChainDraws>)
    requires Rectangular(X) && (|X| > 0 ==> first < |X| && ChainsFit(chains, |X|))
    ensures Afkmc2Spec(X, k, first, chains) == Failure(InvalidProposal) <==>
      k > 1 && |X| > 0 && forall i :: 0 <= i < |X| ==> X[i] == X[first]
  {
    if |X| > 0 {
      FirstCenterD2ZeroIff(X, X[first]);
    }
  }

  /**
   * A returned array has k rows; row 0 is `X[first]`; when k > 1 the proposal
   * is defined and every later row i is the dataset point where chain i - 1,
   * proposing from it, ends against rows 0..i-1.
   */
  lemma Afkmc2Rows(X: seq<Point>, k: int, first: nat, chains: seq<ChainDraws>)
    requires Rectangular(X) && (|X| > 0 ==> first < |X| && ChainsFit(chains, |X|)) && |chains| == LoopCount(k)
    requires Afkmc2Spec(X, k, first, chains).Success?
    ensures var cs := Afkmc2Spec(X, k, first, chains).value;
      && |cs| == k && cs[0] == X[first] && AllDim(cs, Dim(X))
      && (forall i :: 0 <= i < k ==> cs[i] in X)
      && (k > 1 ==> Sum(FirstCenterD2(X, X[first])) > 0.0)
      && forall i :: 1 <= i < k ==>
           var kind := Mixture(Proposal(FirstCenterD2(X, X[first])));
           cs[i] == X[ChainFrom(X, cs[..i], kind, chains[i - 1].start, chains[i - 1].steps)]
  {
    var d2 := FirstCenterD2(X, X[first]);
    SumZeroIff(d2);
    if Sum(d2) != 0.0 {
      McmcRows(X, X[first], Mixture(Proposal(d2)), chains);
    }
  }

  /**
   * Row i is a point not among rows 0..i-1 exactly when the start or one of the
   * candidates of chain i - 1 is not among them.
   */
  lemma Afkmc2NewCenterIff(X: seq<Point>, k: int, first: nat, chains: seq<ChainDraws>, i: nat)
    requires Rectangular(X) && (|X| > 0 ==> first < |X| && ChainsFit(chains, |X|)) && |chains| == LoopCount(k)
    requires forall c :: 0 <= c < |chains| ==> UnitDraws(chains[c])
    requires Afkmc2Spec(X, k, first, chains).Success? && 1 <= i < k
    ensures var cs, c := Afkmc2Spec(X, k, first, chains).value, chains[i - 1];
      cs[i] !in cs[..i] <==> X[c.start] !in cs[..i] || exists j :: 0 <= j < |c.steps| && X[c.steps[j].y] !in cs[..i]
  {
    Afkmc2Rows(X, k, first, chains);
    var cs, c := Afkmc2Spec(X, k, first, chains).value, chains[i - 1];
    ProposalFits(X, X[first]);
    assert UnitDraws(c) && DrawsFit(c, |X|);
    ChainFromNew(X, cs[..i], Mixture(Proposal(FirstCenterD2(X, X[first]))), c.start, c.steps);
  }

  /** With m <= 1 the inner loop never runs and every later center is its chain's start, drawn from `q`. */
  lemma Afkmc2SingleCandidate(X: seq<Point>, k: int, m: int, first: nat, chains: seq<ChainDraws>)
    requires Rectangular(X) && (|X| > 0 ==> first < |X| && ChainsFit(chains, |X|)) && |chains| == LoopCount(k)
    requires ChainLengths(chains, m) && m <= 1
    requires Afkmc2Spec(X, k, first, chains).Success?
    ensures var cs := Afkmc2Spec(X, k, first, chains).value;
      forall i :: 1 <= i < k ==> cs[i] == X[chains[i - 1].start]
  {
    Afkmc2Rows(X, k, first, chains);
    var cs := Afkmc2Spec(X, k, first, chains).value;
    forall i | 1 <= i < k ensures cs[i] == X[chains[i - 1].start] {
      assert |chains[i - 1].steps| == 0;
    }
  }

  /**
   * `afkmc2(X, k, m)`: builds the proposal from the first center, then fills a
   * k-row `centers` array row by row, one chain of m proposals per row after
   * the first, and returns it, or raises.
   */
  method Afkmc2(X: seq<Point>, k: int, m: int, first: nat, chains: seq<ChainDraws>) returns (res: Result<seq<Point>>)
    requires Rectangular(X) && (|X| > 0 ==> first < |X| && ChainsFit(chains, |X|))
    requires |chains| == LoopCount(k) && ChainLengths(chains, m)
    ensures res == Afkmc2Spec(X, k, first, chains)
  {
    var pre := Preflight(X, k);
    if pre.Some? {
      return Failure(pre.value);
    }
    var centers := new Point[k](_ => Zeros(Dim(X)));
    centers[0] := X[first];
    var d2 := FirstCenterD2(X, X[first]);
    if Sum(d2) == 0.0 {
      if k > 1 {
        return Failure(InvalidProposal);
      }
      assert centers[..] == [X[first]];
      return Success(centers[..]);
    }
    var q := Proposal(d2);
    assert Afkmc2Spec(X, k, first, chains) == Success(McmcFrom(X, [X[first]], Mixture(q), chains));
    FillCenters(X, centers, Mixture(q), chains);
    return Success(centers[..]);
  }
}
