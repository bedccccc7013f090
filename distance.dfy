/**
 * Squared Euclidean distance (`np.linalg.norm(x - c)**2`, written out as a sum
 * of squared coordinate differences) and the distance to the nearest of several
 * centers (`min([... for j in range(i)])`).
 */
module Distance {
  import opened Data

  /**
   * The product of two reals. Its contract carries the sign facts the proofs
   * need, so that they never have to reason about a product term directly.
   */
  function Mul(a: real, b: real): (r: real)
    ensures (a > 0.0 && b > 0.0) || (a < 0.0 && b < 0.0) ==> r > 0.0
    ensures a == 0.0 || b == 0.0 ==> r == 0.0
  {
    a * b
  }

  /** The square of one coordinate difference: non-negative, and zero only for a zero difference. */
  function Square(t: real): (r: real)
    ensures r >= 0.0
    ensures r == 0.0 <==> t == 0.0
  {
    Mul(t, t)
  }

  /** `np.linalg.norm(a - b)**2` over the reals: the sum of squared coordinate differences. */
  function SqDist(a: Point, b: Point): (r: real)
    requires |a| == |b|
    ensures r >= 0.0
    decreases |a|
  {
    if |a| == 0 then 0.0
    else SqDist(a[..|a| - 1], b[..|b| - 1]) + Square(a[|a| - 1] - b[|b| - 1])
  }

  /** A squared distance is zero exactly between equal points. */
  lemma {:induction false} SqDistZeroIff(a: Point, b: Point)
    requires |a| == |b|
    ensures SqDist(a, b) == 0.0 <==> a == b
    decreases |a|
  {
    if |a| > 0 {
      var a', b' := a[..|a| - 1], b[..|b| - 1];
      SqDistZeroIff(a', b');
      assert a == a' + [a[|a| - 1]] && b == b' + [b[|b| - 1]];
    }
  }

  /** Python's two-argument `min`: the first argument unless the second is strictly smaller. */
  function Min(a: real, b: real): (r: real)
    ensures r <= a && r <= b && (r == a || r == b)
  {
    if b < a then b else a
  }

  /** `min([np.linalg.norm(p - cs[j])**2 for j in range(len(cs))])`, folded left to right. */
  function MinSqDist(p: Point, cs: seq<Point>): (r: real)
    requires |cs| > 0 && AllDim(cs, |p|)
    ensures r >= 0.0
    decreases |cs|
  {
    if |cs| == 1 then SqDist(p, cs[0])
    else Min(MinSqDist(p, cs[..|cs| - 1]), SqDist(p, cs[|cs| - 1]))
  }

  /** One more center: the new minimum is the old one or the distance to the new center. */
  lemma MinSqDistStep(p: Point, cs: seq<Point>, j: nat)
    requires 0 < j < |cs| && AllDim(cs, |p|)
    ensures MinSqDist(p, cs[..j + 1]) == Min(MinSqDist(p, cs[..j]), SqDist(p, cs[j]))
  {
    assert cs[..j + 1][..j] == cs[..j];
  }

  /** The minimum is a lower bound on the distance to every center and is attained by one. */
  lemma {:induction false} MinSqDistIsNearest(p: Point, cs: seq<Point>)
    requires |cs| > 0 && AllDim(cs, |p|)
    ensures forall j :: 0 <= j < |cs| ==> MinSqDist(p, cs) <= SqDist(p, cs[j])
    ensures exists j :: 0 <= j < |cs| && MinSqDist(p, cs) == SqDist(p, cs[j])
    decreases |cs|
  {
    if |cs| > 1 {
      var t := cs[..|cs| - 1];
      MinSqDistIsNearest(p, t);
      var j :| 0 <= j < |t| && MinSqDist(p, t) == SqDist(p, t[j]);
      if MinSqDist(p, cs) == SqDist(p, cs[|cs| - 1]) {
        assert 0 <= |cs| - 1 < |cs|;
      } else {
        assert MinSqDist(p, cs) == SqDist(p, cs[j]);
      }
      forall i | 0 <= i < |cs| ensures MinSqDist(p, cs) <= SqDist(p, cs[i]) {
        if i < |cs| - 1 { assert cs[i] == t[i]; }
      }
    } else {
      assert MinSqDist(p, cs) == SqDist(p, cs[0]);
    }
  }

  /** The nearest-center distance is zero exactly for a point that is itself one of the centers. */
  lemma MinSqDistZeroIff(p: Point, cs: seq<Point>)
    requires |cs| > 0 && AllDim(cs, |p|)
    ensures MinSqDist(p, cs) == 0.0 <==> p in cs
  {
    MinSqDistIsNearest(p, cs);
    if p in cs {
      var j :| 0 <= j < |cs| && cs[j] == p;
      SqDistZeroIff(p, cs[j]);
    }
    if MinSqDist(p, cs) == 0.0 {
      var j :| 0 <= j < |cs| && MinSqDist(p, cs) == SqDist(p, cs[j]);
      SqDistZeroIff(p, cs[j]);
    }
  }
}
