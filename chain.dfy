/**
 * The Metropolis-Hastings chain shared by `kmc2`, `afkmc2` and `afkmc2_mem`:
 * start at a proposed point, then for each of the m - 1 further proposals move
 * to it when the acceptance ratio exceeds a uniform draw. The point the chain
 * ends on becomes the next center (`centers[i] = X[x, :]`).
 */
module Chain {
  import opened Data
  import opened Distance

  /** One further candidate of a chain: the proposed index `y` and the uniform draw `u` its acceptance ratio is compared with. */
  datatype Step = Step(y: nat, u: real)

  /** The draws of one chain: the initial point and the m - 1 further candidates. */
  datatype ChainDraws = ChainDraws(start: nat, steps: seq<Step>)

  /**
   * How the acceptance ratio is formed: `kmc2` proposes uniformly and tests
   * `dy2/dx2`; `afkmc2` proposes from `q` and tests `(dy2*q[x])/(dx2*q[y])`.
   */
  datatype ProposalKind = Uniform | Mixture(q: seq<real>)

  /** A mixture proposal has one weight per dataset point. */
  predicate KindFits(kind: ProposalKind, n: nat)
  {
    kind.Mixture? ==> |kind.q| == n
  }

  /** Every weight of a mixture proposal is positive. */
  predicate PositiveWeights(kind: ProposalKind)
  {
    kind.Mixture? ==> forall i :: 0 <= i < |kind.q| ==> kind.q[i] > 0.0
  }

  /** Every index a chain's draws name is a row of an n-row dataset. */
  predicate DrawsFit(c: ChainDraws, n: nat)
  {
    c.start < n && StepsFit(c.steps, n)
  }

  predicate ChainsFit(chains: seq<ChainDraws>, n: nat)
  {
    forall i :: 0 <= i < |chains| ==> DrawsFit(chains[i], n)
  }

  /** Each chain draws the `len(range(1, m))` further candidates of the inner loop. */
  predicate ChainLengths(chains: seq<ChainDraws>, m: int)
  {
    forall i :: 0 <= i < |chains| ==> |chains[i].steps| == LoopCount(m)
  }

  /** Every acceptance draw lies in [0, 1), the range of `np.random.uniform()`. */
  predicate UnitDraws(c: ChainDraws)
  {
    forall j :: 0 <= j < |c.steps| ==> 0.0 <= c.steps[j].u < 1.0
  }

  /**
   * numpy's float64 test `num / den > u` with IEEE division: a positive
   * numerator over zero is +inf and passes, zero over zero is NaN and fails.
   */
  function Exceeds(num: real, den: real, u: real): (r: bool)
    ensures den == 0.0 ==> (r <==> num > 0.0)
  {
    if den == 0.0 then num > 0.0 else num / den > u
  }

  /** Over a positive denominator, the quotient test is the cross-multiplied comparison. */
  lemma ExceedsCrossMultiplied(num: real, den: real, u: real)
    requires den > 0.0
    ensures Exceeds(num, den, u) <==> num > u * den
  {
    assert num / den * den == num;
  }

  /** Whether the chain at `x` moves to the candidate `y` on draw `u`. */
  function Accepts(kind: ProposalKind, x: nat, y: nat, dx2: real, dy2: real, u: real): bool
    requires kind.Mixture? ==> x < |kind.q| && y < |kind.q|
  {
    match kind
    case Uniform => Exceeds(dy2, dx2, u)
    case Mixture(q) => Exceeds(Mul(dy2, q[x]), Mul(dx2, q[y]), u)
  }

  /**
   * With the current point off the centers, `kmc2` moves when dy2 > u·dx2 and
   * `afkmc2` when dy2·q[x] > u·dx2·q[y]: the Metropolis-Hastings ratio test.
   */
  lemma AcceptsCrossMultiplied(kind: ProposalKind, x: nat, y: nat, dx2: real, dy2: real, u: real)
    requires kind.Mixture? ==> x < |kind.q| && y < |kind.q|
    requires PositiveWeights(kind) && dx2 > 0.0
    ensures kind.Uniform? ==> (Accepts(kind, x, y, dx2, dy2, u) <==> dy2 > u * dx2)
    ensures kind.Mixture? ==>
      (Accepts(kind, x, y, dx2, dy2, u) <==> Mul(dy2, kind.q[x]) > u * Mul(dx2, kind.q[y]))
  {
    match kind
    case Uniform => ExceedsCrossMultiplied(dy2, dx2, u);
    case Mixture(q) =>
      assert q[y] > 0.0;
      ExceedsCrossMultiplied(Mul(dy2, q[x]), Mul(dx2, q[y]), u);
  }

  lemma ZeroQuotient(den: real)
    requires den != 0.0
    ensures 0.0 / den == 0.0
  {
  }

  /**
   * With non-negative distances, positive weights and u >= 0, a chain at a
   * point off the centers only moves to another point off the centers, and a
   * chain at a center moves exactly to candidates off the centers.
   */
  lemma AcceptsFresh(kind: ProposalKind, x: nat, y: nat, dx2: real, dy2: real, u: real)
    requires kind.Mixture? ==> x < |kind.q| && y < |kind.q|
    requires PositiveWeights(kind) && dx2 >= 0.0 && dy2 >= 0.0 && u >= 0.0
    ensures dx2 > 0.0 && Accepts(kind, x, y, dx2, dy2, u) ==> dy2 > 0.0
    ensures dx2 == 0.0 ==> (Accepts(kind, x, y, dx2, dy2, u) <==> dy2 > 0.0)
  {
    match kind
    case Uniform =>
      if dx2 > 0.0 && dy2 == 0.0 { ZeroQuotient(dx2); }
    case Mixture(q) =>
      assert q[x] > 0.0 && q[y] > 0.0;
      if dx2 > 0.0 && dy2 == 0.0 { ZeroQuotient(Mul(dx2, q[y])); }
  }

  /** Every candidate index of the chain names a dataset row. */
  predicate StepsFit(steps: seq<Step>, n: nat)
  {
    forall j :: 0 <= j < |steps| ==> steps[j].y < n
  }

  /**
   * The inner loop at kmc2 lines 79-87 (afkmc2 lines 126-134), from the current
   * point `x` over the remaining candidates `steps`: the index the chain ends on.
   * It is always the starting point or one of the candidates.
   */
  function ChainFrom(X: seq<Point>, cs: seq<Point>, kind: ProposalKind, x: nat, steps: seq<Step>): (r: nat)
    requires Rectangular(X) && |cs| > 0 && AllDim(cs, Dim(X)) && KindFits(kind, |X|)
    requires x < |X| && StepsFit(steps, |X|)
    ensures r < |X|
    ensures r == x || exists j :: 0 <= j < |steps| && r == steps[j].y
    decreases |steps|
  {
    if |steps| == 0 then x
    else
      var y := steps[0].y;
      var next := if Accepts(kind, x, y, MinSqDist(X[x], cs), MinSqDist(X[y], cs), steps[0].u) then y else x;
      var r := ChainFrom(X, cs, kind, next, steps[1..]);
      assert r != next ==> exists j :: 1 <= j < |steps| && r == steps[j].y by {
        if r != next {
          var j :| 0 <= j < |steps[1..]| && r == steps[1..][j].y;
          assert r == steps[j + 1].y;
        }
      }
      r
  }

  /**
   * A chain ends at positive distance from the centers exactly when its start
   * or one of its candidates is at positive distance from them.
   */
  lemma {:induction false} ChainFromFresh(X: seq<Point>, cs: seq<Point>, kind: ProposalKind, x: nat, steps: seq<Step>)
    requires Rectangular(X) && |cs| > 0 && AllDim(cs, Dim(X)) && KindFits(kind, |X|) && PositiveWeights(kind)
    requires x < |X| && StepsFit(steps, |X|)
    requires forall j :: 0 <= j < |steps| ==> steps[j].u >= 0.0
    ensures MinSqDist(X[ChainFrom(X, cs, kind, x, steps)], cs) > 0.0 <==>
      (MinSqDist(X[x], cs) > 0.0 || exists j :: 0 <= j < |steps| && MinSqDist(X[steps[j].y], cs) > 0.0)
    decreases |steps|
  {
    if |steps| > 0 {
      var y := steps[0].y;
      var dx2, dy2 := MinSqDist(X[x], cs), MinSqDist(X[y], cs);
      AcceptsFresh(kind, x, y, dx2, dy2, steps[0].u);
      var next := if Accepts(kind, x, y, dx2, dy2, steps[0].u) then y else x;
      var tail := steps[1..];
      ChainFromFresh(X, cs, kind, next, tail);
      assert MinSqDist(X[next], cs) > 0.0 <==> dx2 > 0.0 || dy2 > 0.0;
      assert (exists j :: 0 <= j < |steps| && MinSqDist(X[steps[j].y], cs) > 0.0) <==>
        dy2 > 0.0 || exists j :: 0 <= j < |tail| && MinSqDist(X[tail[j].y], cs) > 0.0
      by {
        forall j | 0 < j < |steps| ensures steps[j] == tail[j - 1] { }
      }
    }
  }

  /**
   * The same fact in terms of membership: the chain ends on a point that is not
   * yet a center exactly when its start or one of its candidates is not a center.
   */
  lemma ChainFromNew(X: seq<Point>, cs: seq<Point>, kind: ProposalKind, x: nat, steps: seq<Step>)
    requires Rectangular(X) && |cs| > 0 && AllDim(cs, Dim(X)) && KindFits(kind, |X|) && PositiveWeights(kind)
    requires x < |X| && StepsFit(steps, |X|)
    requires forall j :: 0 <= j < |steps| ==> steps[j].u >= 0.0
    ensures X[ChainFrom(X, cs, kind, x, steps)] !in cs <==>
      (X[x] !in cs || exists j :: 0 <= j < |steps| && X[steps[j].y] !in cs)
  {
    ChainFromFresh(X, cs, kind, x, steps);
    MinSqDistZeroIff(X[ChainFrom(X, cs, kind, x, steps)], cs);
    MinSqDistZeroIff(X[x], cs);
    forall j | 0 <= j < |steps| ensures MinSqDist(X[steps[j].y], cs) > 0.0 <==> X[steps[j].y] !in cs {
      MinSqDistZeroIff(X[steps[j].y], cs);
    }
  }

  /**
   * One chain as the loop runs it: `dx2` caches the nearest-center distance of
   * the current point and is replaced by `dy2` on every move.
   */
  method RunChain(X: seq<Point>, cs: seq<Point>, kind: ProposalKind, c: ChainDraws) returns (x: nat)
    requires Rectangular(X) && |cs| > 0 && AllDim(cs, Dim(X)) && KindFits(kind, |X|) && DrawsFit(c, |X|)
    ensures x == ChainFrom(X, cs, kind, c.start, c.steps)
  {
    x := c.start;
    var dx2 := MinSqDist(X[x], cs);
    for j := 0 to |c.steps|
      invariant x < |X| && dx2 == MinSqDist(X[x], cs)
      invariant ChainFrom(X, cs, kind, x, c.steps[j..]) == ChainFrom(X, cs, kind, c.start, c.steps)
    {
      var y := c.steps[j].y;
      var dy2 := MinSqDist(X[y], cs);
      assert c.steps[j..][1..] == c.steps[j + 1..];
      if Accepts(kind, x, y, dx2, dy2, c.steps[j].u) {
        x := y;
        dx2 := dy2;
      }
    }
  }

  /**
   * The outer loop (kmc2 lines 72-90, afkmc2 lines 119-137): one chain per new
   * center, each run against the centers chosen before it.
   */
  function McmcFrom(X: seq<Point>, cs: seq<Point>, kind: ProposalKind, chains: seq<ChainDraws>): (out: seq<Point>)
    requires Rectangular(X) && |cs| > 0 && AllDim(cs, Dim(X)) && KindFits(kind, |X|) && ChainsFit(chains, |X|)
    ensures |out| == |cs| + |chains|
    decreases |chains|
  {
    if |chains| == 0 then cs
    else
      var x := ChainFrom(X, cs, kind, chains[0].start, chains[0].steps);
      McmcFrom(X, cs + [X[x]], kind, chains[1..])
  }

  /**
   * The outer loop run in place: with row 0 of `centers` set, fills row i with
   * the point where chain i - 1 ends against rows 0..i-1.
   */
  method FillCenters(X: seq<Point>, centers: array<Point>, kind: ProposalKind, chains: seq<ChainDraws>)
    requires Rectangular(X) && KindFits(kind, |X|) && ChainsFit(chains, |X|)
    requires centers.Length == |chains| + 1 && |centers[0]| == Dim(X)
    modifies centers
    ensures centers[..] == McmcFrom(X, [old(centers[0])], kind, chains)
  {
    ghost var c0 := centers[0];
    assert centers[..1] == [c0] && chains[0..] == chains;
    for i := 1 to centers.Length
      invariant AllDim(centers[..i], Dim(X))
      invariant McmcFrom(X, centers[..i], kind, chains[i - 1..]) == McmcFrom(X, [c0], kind, chains)
    {
      assert DrawsFit(chains[i - 1], |X|);
      var x := RunChain(X, centers[..i], kind, chains[i - 1]);
      ghost var chosen := centers[..i];
      centers[i] := X[x];
      assert centers[..i + 1] == chosen + [X[x]];
      assert chains[i - 1..][1..] == chains[i..];
    }
    assert centers[..centers.Length] == centers[..];
  }

  /** The outer loop keeps the rows it starts from, and every row it adds has the dataset's width. */
  lemma {:induction false} McmcFromPrefix(X: seq<Point>, cs: seq<Point>, kind: ProposalKind, chains: seq<ChainDraws>)
    requires Rectangular(X) && |cs| > 0 && AllDim(cs, Dim(X)) && KindFits(kind, |X|) && ChainsFit(chains, |X|)
    ensures var out := McmcFrom(X, cs, kind, chains);
      out[..|cs|] == cs && AllDim(out, Dim(X))
    decreases |chains|
  {
    if |chains| > 0 {
      var x := ChainFrom(X, cs, kind, chains[0].start, chains[0].steps);
      var cs' := cs + [X[x]];
      McmcFromPrefix(X, cs', kind, chains[1..]);
      var out := McmcFrom(X, cs, kind, chains);
      assert out[..|cs'|][..|cs|] == out[..|cs|];
    } else {
      assert McmcFrom(X, cs, kind, chains) == cs;
    }
  }

  /** Row i of the result is where chain i - |cs| ends, given the rows before it. */
  lemma {:induction false} McmcFromTrace(X: seq<Point>, cs: seq<Point>, kind: ProposalKind, chains: seq<ChainDraws>)
    requires Rectangular(X) && |cs| > 0 && AllDim(cs, Dim(X)) && KindFits(kind, |X|) && ChainsFit(chains, |X|)
    ensures var out := McmcFrom(X, cs, kind, chains);
      && AllDim(out, Dim(X))
      && forall i :: |cs| <= i < |out| ==>
           out[i] == X[ChainFrom(X, out[..i], kind, chains[i - |cs|].start, chains[i - |cs|].steps)]
    decreases |chains|
  {
    McmcFromPrefix(X, cs, kind, chains);
    if |chains| > 0 {
      var x := ChainFrom(X, cs, kind, chains[0].start, chains[0].steps);
      var cs' := cs + [X[x]];
      McmcFromTrace(X, cs', kind, chains[1..]);
      McmcFromPrefix(X, cs', kind, chains[1..]);
      var out := McmcFrom(X, cs, kind, chains);
      assert out == McmcFrom(X, cs', kind, chains[1..]);
      forall i | |cs| <= i < |out|
        ensures out[i] == X[ChainFrom(X, out[..i], kind, chains[i - |cs|].start, chains[i - |cs|].steps)]
      {
        if i == |cs| {
          assert out[..i] == out[..|cs'|][..|cs|] == cs;
          assert out[i] == out[..|cs'|][|cs|];
        } else {
          assert chains[i - |cs|] == chains[1..][i - |cs'|];
        }
      }
    }
  }

  /**
   * Seeded with one dataset row c0, every row of the result is a dataset row,
   * and row i is where chain i - 1 ends against rows 0..i-1.
   */
  lemma McmcRows(X: seq<Point>, c0: Point, kind: ProposalKind, chains: seq<ChainDraws>)
    requires Rectangular(X) && c0 in X && KindFits(kind, |X|) && ChainsFit(chains, |X|)
    ensures var out := McmcFrom(X, [c0], kind, chains);
      && |out| == |chains| + 1 && out[0] == c0 && AllDim(out, Dim(X))
      && (forall i :: 0 <= i < |out| ==> out[i] in X)
      && forall i :: 1 <= i < |out| ==>
           out[i] == X[ChainFrom(X, out[..i], kind, chains[i - 1].start, chains[i - 1].steps)]
  {
    McmcFromPrefix(X, [c0], kind, chains);
    McmcFromTrace(X, [c0], kind, chains);
    var out := McmcFrom(X, [c0], kind, chains);
    assert out[0] == out[..1][0];
    forall i | 0 <= i < |out| ensures out[i] in X {
      if i > 0 {
        var x := ChainFrom(X, out[..i], kind, chains[i - 1].start, chains[i - 1].steps);
        assert x < |X|;
      }
    }
  }
}
