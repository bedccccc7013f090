/** Sums over real vectors: `np.sum`, `cumsum` and the broadcast `s / c + b`. */
module Sums {

  /**
   * The sum of `s` (`np.sum`), accumulated from the front; over the reals the
   * order of the additions does not matter.
   */
  function Sum(s: seq<real>): real
    decreases |s|
  {
    if |s| == 0 then 0.0 else Sum(s[..|s| - 1]) + s[|s| - 1]
  }

  predicate NonNegative(s: seq<real>)
  {
    forall i :: 0 <= i < |s| ==> 0.0 <= s[i]
  }

  /** Elementwise `s[i] / c + b`, numpy's broadcast of `s / c + b`. */
  function ScaleShift(s: seq<real>, c: real, b: real): (r: seq<real>)
    requires c != 0.0
    ensures |r| == |s|
  {
    seq(|s|, i requires 0 <= i < |s| => s[i] / c + b)
  }

  /** `cumsum`: entry i is the sum of the first i + 1 entries. */
  function CumSum(s: seq<real>): (r: seq<real>)
    ensures |r| == |s|
    ensures |s| > 0 ==> r[|s| - 1] == Sum(s)
  {
    assert s[..|s|] == s;
    seq(|s|, i requires 0 <= i < |s| => Sum(s[..i + 1]))
  }

  lemma SumStep(s: seq<real>, j: nat)
    requires j < |s|
    ensures Sum(s[..j + 1]) == Sum(s[..j]) + s[j]
  {
    assert s[..j + 1][..j] == s[..j];
  }

  /** A sum of non-negative terms is zero exactly when every term is zero. */
  lemma {:induction false} SumZeroIff(s: seq<real>)
    requires NonNegative(s)
    ensures Sum(s) >= 0.0
    ensures Sum(s) == 0.0 <==> forall i :: 0 <= i < |s| ==> s[i] == 0.0
  {
    if |s| > 0 {
      var t := s[..|s| - 1];
      SumZeroIff(t);
      if Sum(s) == 0.0 {
        forall i | 0 <= i < |s| ensures s[i] == 0.0 {
          if i < |s| - 1 { assert s[i] == t[i]; }
        }
      }
    }
  }

  /** With non-negative terms, every prefix sum lies between 0 and the total. */
  lemma {:induction false} SumPrefixBounded(s: seq<real>, j: nat)
    requires NonNegative(s) && j <= |s|
    ensures 0.0 <= Sum(s[..j]) <= Sum(s)
    decreases |s| - j
  {
    if j < |s| {
      SumStep(s, j);
      SumPrefixBounded(s, j + 1);
    } else {
      assert s[..j] == s;
    }
    SumZeroIff(s[..j]);
  }

  /** Summing `s / c + b` gives `Sum(s) / c + |s| * b`. */
  lemma {:induction false} SumScaleShift(s: seq<real>, c: real, b: real)
    requires c != 0.0
    ensures Sum(ScaleShift(s, c, b)) == Sum(s) / c + (|s| as real) * b
  {
    if |s| > 0 {
      var t, last := s[..|s| - 1], s[|s| - 1];
      assert ScaleShift(s, c, b)[..|s| - 1] == ScaleShift(t, c, b);
      SumScaleShift(t, c, b);
      DivAdd(Sum(t), last, c);
      assert Sum(ScaleShift(s, c, b)) == Sum(t) / c + (|t| as real) * b + (last / c + b);
    }
  }

  lemma DivAdd(x: real, y: real, c: real)
    requires c != 0.0
    ensures (x + y) / c == x / c + y / c
  {
  }

  /** Entry j of the cumulative sum of `s / c` is the prefix sum of `s` up to j, over c. */
  lemma CumSumScaled(s: seq<real>, c: real, j: nat)
    requires c != 0.0 && j < |s|
    ensures CumSum(ScaleShift(s, c, 0.0))[j] == Sum(s[..j + 1]) / c
  {
    assert ScaleShift(s, c, 0.0)[..j + 1] == ScaleShift(s[..j + 1], c, 0.0);
    SumScaleShift(s[..j + 1], c, 0.0);
  }
}
