/**
 * `afkmc2_mem`: `afkmc2` with the squared distances between data points and
 * centers memoised in an n-by-k store, looked up through the nested
 * `distance(i, j)`. The source's lookup treats a zero cell as "not computed
 * yet" in a store created by `np.empty`; `Lookup` keeps that test, and the
 * procedure runs on a memo that flags computed cells explicitly.
 */
module Memo {
  import opened Data
  import opened Sums
  import opened Distance
  import opened Chain
  import opened AFKMC2

  /**
   * Lines 173-175 on one cell: the value `distance(i, j)` returns when the cell
   * holds `cell` and the true squared distance is `dist`. A zero cell is
   * recomputed; any other content is trusted.
   */
  function Lookup(cell: real, dist: real): (r: real)
    ensures cell == 0.0 || cell == dist ==> r == dist
    ensures cell != 0.0 ==> r == cell
  {
    if cell == 0.0 then dist else cell
  }

  /**
   * The store is created with `np.empty`, whose cells hold whatever the memory
   * held. A cell left at a non-zero value other than the true distance is
   * returned as the distance.
   */
  lemma GarbageCellReturned(cell: real, dist: real)
    requires cell != 0.0 && cell != dist
    ensures Lookup(cell, dist) != dist
  {
  }

  /**
   * A concrete instance: a point that is its own center, whose true squared
   * distance is 0, read through a cell that `np.empty` left at 5.0.
   */
  lemma GarbageCellExample()
    ensures SqDist([1.0], [1.0]) == 0.0 && Lookup(5.0, SqDist([1.0], [1.0])) == 5.0
  {
    SqDistZeroIff([1.0], [1.0]);
  }

  /**
   * The memo of `afkmc2_mem` with an explicit "unset" marker: beside the
   * uninitialised store (`np.empty`) a table of flags records which cells have
   * been computed, so no cell content is ever mistaken for a distance.
   */
  class DistanceMemo {
    /** The dataset whose rows the store measures. */
    const X: seq<Point>
    /** `d_store`: cell (i, j) is meaningful only once `known[i, j]` is set. */
    const store: array2<real>
    /** Whether cell (i, j) of the store has been computed. */
    const known: array2<bool>

    /**
     * Every computed cell holds the squared distance from its point to one of
     * the centers `cs` chosen so far.
     */
    predicate Valid(cs: seq<Point>)
      reads this, store, known
    {
      && Rectangular(X) && AllDim(cs, Dim(X))
      && store.Length0 == known.Length0 == |X| && |cs| <= store.Length1 == known.Length1
      && forall a, b :: 0 <= a < known.Length0 && 0 <= b < known.Length1 && known[a, b] ==>
           b < |cs| && store[a, b] == SqDist(X[a], cs[b])
    }

    /** An n-by-k store with arbitrary contents, as `np.empty` gives, and no cell computed. */
    constructor (X: seq<Point>, k: nat)
      ensures this.X == X && store.Length0 == known.Length0 == |X| && store.Length1 == known.Length1 == k
      ensures forall a, b :: 0 <= a < |X| && 0 <= b < k ==> !known[a, b]
      ensures fresh(store) && fresh(known)
    {
      this.X := X;
      store := new real[|X|, k];
      known := new bool[|X|, k]((_, _) => false);
    }

    /** A new center gets a column with no computed cell, so the memo stays valid. */
    lemma ValidExtends(cs: seq<Point>, c: Point)
      requires Valid(cs) && |cs| < store.Length1 && |c| == Dim(X)
      ensures Valid(cs + [c])
    {
      var cs' := cs + [c];
      forall a, b | 0 <= a < known.Length0 && 0 <= b < known.Length1 && known[a, b]
        ensures b < |cs'| && store[a, b] == SqDist(X[a], cs'[b])
      {
        assert cs'[b] == cs[b];
      }
    }

    /**
     * `distance(i, j)`: the squared distance from `X[i]` to center j, computed
     * and stored on the first request, read back afterwards.
     */
    method Distance(cs: seq<Point>, i: nat, j: nat) returns (d: real)
      requires Valid(cs) && i < |X| && j < |cs|
      modifies store, known
      ensures Valid(cs) && d == SqDist(X[i], cs[j])
      ensures forall a, b :: 0 <= a < known.Length0 && 0 <= b < known.Length1 ==>
        && store[a, b] == (if a == i && b == j then d else old(store[a, b]))
        && known[a, b] == ((a == i && b == j) || old(known[a, b]))
    {
      if !known[i, j] {
        store[i, j] := SqDist(X[i], cs[j]);
        known[i, j] := true;
      }
      d := store[i, j];
    }

    /**
     * `min([distance(x, j) for j in range(i)])`: the nearest-center distance of
     * `X[x]`, leaving row x computed for every chosen center.
     */
    method MinDistance(cs: seq<Point>, x: nat) returns (d: real)
      requires Valid(cs) && |cs| > 0 && x < |X|
      modifies store, known
      ensures Valid(cs) && d == MinSqDist(X[x], cs)
      ensures forall a, b :: 0 <= a < known.Length0 && 0 <= b < known.Length1 ==>
        && store[a, b] == (if a == x && b < |cs| then SqDist(X[x], cs[b]) else old(store[a, b]))
        && known[a, b] == ((a == x && b < |cs|) || old(known[a, b]))
    {
      d := Distance(cs, x, 0);
      for j := 1 to |cs|
        invariant Valid(cs) && d == MinSqDist(X[x], cs[..j])
        invariant forall a, b :: 0 <= a < known.Length0 && 0 <= b < known.Length1 ==>
          && store[a, b] == (if a == x && b < j then SqDist(X[x], cs[b]) else old(store[a, b]))
          && known[a, b] == ((a == x && b < j) || old(known[a, b]))
      {
        var e := Distance(cs, x, j);
        MinSqDistStep(X[x], cs, j);
        d := Min(d, e);
      }
      assert cs[..|cs|] == cs;
    }
  }

  /** The points a chain measures: its start and every candidate. */
  function Candidates(start: nat, steps: seq<Step>): (s: set<nat>)
    ensures start in s && forall j :: 0 <= j < |steps| ==> steps[j].y in s
  {
    {start} + set j | 0 <= j < |steps| :: steps[j].y
  }

  lemma CandidatesStep(start: nat, steps: seq<Step>, j: nat)
    requires j < |steps|
    ensures Candidates(start, steps[..j + 1]) == Candidates(start, steps[..j]) + {steps[j].y}
  {
    var s, t := steps[..j + 1], steps[..j];
    assert forall i :: 0 <= i < |t| ==> t[i] == s[i];
    assert s[j] == steps[j];
  }

  /**
   * The chain of lines 185-198 on the memo: it ends where `ChainFrom` says,
   * and fills in the rows of its start and of every candidate.
   */
  method RunChainMemo(memo: DistanceMemo, cs: seq<Point>, q: seq<real>, c: ChainDraws) returns (x: nat)
    requires memo.Valid(cs) && |cs| > 0 && |q| == |memo.X| && DrawsFit(c, |memo.X|)
    modifies memo.store, memo.known
    ensures memo.Valid(cs)
    ensures x == ChainFrom(memo.X, cs, Mixture(q), c.start, c.steps)
    ensures forall a, b :: 0 <= a < memo.known.Length0 && 0 <= b < memo.known.Length1 ==>
      var touched := a in Candidates(c.start, c.steps) && b < |cs|;
      && memo.store[a, b] == (if touched then SqDist(memo.X[a], cs[b]) else old(memo.store[a, b]))
      && memo.known[a, b] == (touched || old(memo.known[a, b]))
  {
    var X, kind := memo.X, Mixture(q);
    x := c.start;
    var dx2 := memo.MinDistance(cs, x);
    ghost var filled: set<nat> := {x};
    assert c.steps[..0] == [] && c.steps[0..] == c.steps;
    for j := 0 to |c.steps|
      invariant memo.Valid(cs) && x < |X| && dx2 == MinSqDist(X[x], cs)
      invariant ChainFrom(X, cs, kind, x, c.steps[j..]) == ChainFrom(X, cs, kind, c.start, c.steps)
      invariant filled == Candidates(c.start, c.steps[..j])
      invariant forall a, b :: 0 <= a < memo.known.Length0 && 0 <= b < memo.known.Length1 ==>
        var touched := a in filled && b < |cs|;
        && memo.store[a, b] == (if touched then SqDist(X[a], cs[b]) else old(memo.store[a, b]))
        && memo.known[a, b] == (touched || old(memo.known[a, b]))
    {
      var y := c.steps[j].y;
      var dy2 := memo.MinDistance(cs, y);
      CandidatesStep(c.start, c.steps, j);
      filled := filled + {y};
      assert c.steps[j..][1..] == c.steps[j + 1..];
      if Accepts(kind, x, y, dx2, dy2, c.steps[j].u) {
        x := y;
        dx2 := dy2;
      }
    }
    assert c.steps[..|c.steps|] == c.steps;
  }

  /**
   * The outer loop of lines 183-201 on the memo: with row 0 of `centers` set,
   * fills row i with the point where chain i - 1 ends, reading every distance
   * through the store, which stays valid for the centers placed so far.
   */
  method FillCentersMemo(memo: DistanceMemo, centers: array<Point>, q: seq<real>, chains: seq<ChainDraws>)
    requires centers.Length == |chains| + 1 == memo.known.Length1 && memo.Valid(centers[..1])
    requires |q| == |memo.X| && ChainsFit(chains, |memo.X|)
    modifies centers, memo.store, memo.known
    ensures memo.Valid(centers[..])
    ensures centers[..] == McmcFrom(memo.X, [old(centers[0])], Mixture(q), chains)
  {
    var X := memo.X;
    ghost var c0 := centers[0];
    assert centers[..1] == [c0] && chains[0..] == chains;
    for i := 1 to centers.Length
      invariant memo.Valid(centers[..i])
      invariant McmcFrom(X, centers[..i], Mixture(q), chains[i - 1..]) == McmcFrom(X, [c0], Mixture(q), chains)
    {
      assert DrawsFit(chains[i - 1], |X|);
      var x := RunChainMemo(memo, centers[..i], q, chains[i - 1]);
      ghost var chosen := centers[..i];
      centers[i] := X[x];
      assert centers[..i + 1] == chosen + [X[x]];
      assert chains[i - 1..][1..] == chains[i..];
      memo.ValidExtends(chosen, X[x]);
    }
    assert centers[..centers.Length] == centers[..];
  }

  /**
   * `d2 = [distance(i, 0) for i in range(n)]` at lines 178-179: the squared
   * distance of every point to the first center, leaving column 0 filled in.
   */
  method FirstDistances(memo: DistanceMemo, c0: seq<Point>) returns (d2: seq<real>)
    requires |c0| == 1 && memo.Valid(c0)
    modifies memo.store, memo.known
    ensures memo.Valid(c0) && d2 == FirstCenterD2(memo.X, c0[0])
    ensures forall a, b :: 0 <= a < memo.known.Length0 && 0 <= b < memo.known.Length1 ==>
      && memo.store[a, b] == (if b == 0 then SqDist(memo.X[a], c0[0]) else old(memo.store[a, b]))
      && memo.known[a, b] == (b == 0 || old(memo.known[a, b]))
  {
    var X := memo.X;
    d2 := [];
    for i := 0 to |X|
      invariant memo.Valid(c0) && d2 == FirstCenterD2(X, c0[0])[..i]
      invariant forall a, b :: 0 <= a < memo.known.Length0 && 0 <= b < memo.known.Length1 ==>
        && memo.store[a, b] == (if a < i && b == 0 then SqDist(X[a], c0[0]) else old(memo.store[a, b]))
        && memo.known[a, b] == ((a < i && b == 0) || old(memo.known[a, b]))
    {
      var d := memo.Distance(c0, i, 0);
      d2 := d2 + [d];
      assert FirstCenterD2(X, c0[0])[..i + 1] == FirstCenterD2(X, c0[0])[..i] + [d];
    }
  }

  /**
   * `afkmc2_mem(X, k, m)` with the flagged memo: on the same draws it
   * returns or raises exactly what `afkmc2` does.
   */
  method Afkmc2Mem(X: seq<Point>, k: int, m: int, first: nat, chains: seq<ChainDraws>) returns (res: Result<seq<Point>>)
    requires Rectangular(X) && (|X| > 0 ==> first < |X| && ChainsFit(chains, |X|))
    requires |chains| == LoopCount(k) && ChainLengths(chains, m)
    ensures res == Afkmc2Spec(X, k, first, chains)
  {
    var pre := Preflight(X, k);
    if pre.Some? {
      return Failure(pre.value);
    }
    var centers := new Point[k](_ => Zeros(Dim(X)));
    centers[0] := X[first];
    var memo := new DistanceMemo(X, k);
    assert memo.Valid(centers[..1]);
    var d2 := FirstDistances(memo, centers[..1]);
    if Sum(d2) == 0.0 {
      if k > 1 {
        return Failure(InvalidProposal);
      }
      assert centers[..] == [X[first]];
      return Success(centers[..]);
    }
    var q := Proposal(d2);
    assert Afkmc2Spec(X, k, first, chains) == Success(McmcFrom(X, [X[first]], Mixture(q), chains));
    FillCentersMemo(memo, centers, q, chains);
    return Success(centers[..]);
  }
}
