/** Shapes, errors and loop counts shared by the four seeding procedures of afkmc2.py. */
module Data {

  /** One row of the n-by-d dataset `X`, or one row of the k-by-d `centers` array. */
  type Point = seq<real>

  /** Why a seeding call raises instead of returning its centers. */
  datatype SeedError =
    | NegativeDimension   // np.zeros((k, d)) with k < 0 raises ValueError
    | EmptyDataset        // np.random.choice(0) raises ValueError
    | NoFirstRow          // centers[0, :] on a 0-by-d array raises IndexError
    | NoThresholdIndex    // kmpp: np.where(cumprobs >= r)[0][0] on an empty match raises IndexError
    | InvalidProposal     // afkmc2: np.random.choice(n, p=q) with a NaN-filled q raises ValueError

  /** A returned array of centers, or the exception the call raises. */
  datatype Result<T> = Success(value: T) | Failure(error: SeedError)

  datatype Option<T> = None | Some(value: T)

  /** `X.shape[1]`: the number of coordinates of every point. */
  function Dim(X: seq<Point>): nat
  {
    if |X| == 0 then 0 else |X[0]|
  }

  /** Every point of `s` has `d` coordinates. */
  predicate AllDim(s: seq<Point>, d: nat)
  {
    forall i :: 0 <= i < |s| ==> |s[i]| == d
  }

  /** `X` is a two-dimensional array: all its rows have the same length. */
  predicate Rectangular(X: seq<Point>)
  {
    AllDim(X, Dim(X))
  }

  /** A row of `np.zeros((k, d))`. */
  function Zeros(d: nat): (z: Point)
    ensures |z| == d && AllZero(z)
  {
    seq(d, _ => 0.0)
  }

  predicate AllZero(p: Point)
  {
    forall c :: 0 <= c < |p| ==> p[c] == 0.0
  }

  /** The number of iterations of `for i in range(1, n)`. */
  function LoopCount(n: int): (r: nat)
    ensures n >= 1 ==> r == n - 1
    ensures n <= 1 ==> r == 0
  {
    if n > 1 then n - 1 else 0
  }

  /** Python's `range(lo, hi)`: the integers from `lo` up to but excluding `hi`, in order. */
  function Range(lo: int, hi: int): (r: seq<int>)
    ensures forall i :: i in r <==> lo <= i < hi
    ensures forall a, b :: 0 <= a < b < |r| ==> r[a] < r[b]
    decreases hi - lo
  {
    if lo >= hi then []
    else
      var rest := Range(lo + 1, hi);
      assert forall b :: 0 <= b < |rest| ==> rest[b] in rest;
      [lo] + rest
  }

  /** `range(lo, hi)` has `hi - lo` elements when `lo < hi` and none otherwise. */
  lemma {:induction false} RangeSize(lo: int, hi: int)
    ensures |Range(lo, hi)| == if lo < hi then hi - lo else 0
    decreases hi - lo
  {
    if lo < hi {
      RangeSize(lo + 1, hi);
    }
  }

  /** The loop count is the number of indices `for i in range(1, n)` visits. */
  lemma LoopCountIsRangeSize(n: int)
    ensures LoopCount(n) == |Range(1, n)|
  {
    RangeSize(1, n);
  }

  /**
   * The exceptions every procedure can raise before its first sampling step,
   * in the order Python meets them: the allocation of `centers`, the first
   * `np.random.choice`, then the store into row 0.
   */
  function Preflight(X: seq<Point>, k: int): (e: Option<SeedError>)
    ensures e == None <==> (k >= 1 && |X| >= 1)
  {
    if k < 0 then Some(NegativeDimension)
    else if |X| == 0 then Some(EmptyDataset)
    else if k == 0 then Some(NoFirstRow)
    else None
  }

  /** The set of distinct rows of `X`. */
  function RowSet(X: seq<Point>): set<Point>
  {
    set p | p in X
  }

  /** No point occurs twice in `s`. */
  predicate Distinct(s: seq<Point>)
  {
    forall i, j :: 0 <= i < j < |s| ==> s[i] != s[j]
  }

  /** The set of elements of a sequence has at most as many members as the sequence. */
  lemma {:induction false} ElementsBounded(s: seq<Point>)
    ensures |set p | p in s| <= |s|
  {
    if |s| > 0 {
      var t := s[..|s| - 1];
      ElementsBounded(t);
      assert (set p | p in s) == (set p | p in t) + {s[|s| - 1]} by {
        assert s == t + [s[|s| - 1]];
      }
    }
  }

  lemma SubsetBounded(A: set<Point>, B: set<Point>)
    requires A <= B
    ensures |A| <= |B|
  {
    assert B == A + (B - A);
  }

  /** When `X` has more distinct rows than `s` has entries, some row of `X` is not in `s`. */
  lemma RowOutside(X: seq<Point>, s: seq<Point>) returns (x: nat)
    requires |s| < |RowSet(X)|
    ensures x < |X| && X[x] !in s
  {
    var S, R := (set p | p in s), RowSet(X);
    ElementsBounded(s);
    if R <= S {
      SubsetBounded(R, S);
      assert false;
    }
    var p :| p in R && p !in S;
    x :| 0 <= x < |X| && X[x] == p;
  }
}
