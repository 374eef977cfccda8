/** Small shared vocabulary: optional values, degree pairs, sums over reals. */
module Basics {

  /** An optional value; `None` stands for Python's `None` (an absent list or index array). */
  datatype Option<T> = None | Some(value: T)

  /** A polynomial degree pair (p, q): degree p in the first coordinate, q in the second. */
  type Pair = (nat, nat)

  /** The sum of a sequence of reals, accumulated left to right. */
  function Sum(s: seq<real>): real
  {
    if s == [] then 0.0 else Sum(s[..|s| - 1]) + s[|s| - 1]
  }

  lemma {:induction false} SumAppend(a: seq<real>, b: seq<real>)
    ensures Sum(a + b) == Sum(a) + Sum(b)
  {
    if b != [] {
      assert (a + b)[..|a + b| - 1] == a + b[..|b| - 1];
      SumAppend(a, b[..|b| - 1]);
    } else {
      assert a + b == a;
    }
  }

  /** Every entry multiplied by `c` (numpy's `c * s`). */
  function Scaled(s: seq<real>, c: real): (r: seq<real>)
    ensures |r| == |s| && forall k {:trigger r[k]} | 0 <= k < |s| :: r[k] == c * s[k]
  {
    seq(|s|, k requires 0 <= k < |s| => c * s[k])
  }

  lemma {:induction false} SumScaled(s: seq<real>, c: real)
    ensures Sum(Scaled(s, c)) == c * Sum(s)
  {
    if s != [] {
      var init := s[..|s| - 1];
      assert forall k | 0 <= k < |init| :: Scaled(s, c)[..|s| - 1][k] == Scaled(init, c)[k];
      assert Scaled(s, c)[..|s| - 1] == Scaled(init, c);
      SumScaled(s[..|s| - 1], c);
    }
  }

  /** `count` consecutive column indices starting at `start` (numpy's `arange(start, start + count)`). */
  function Range(start: nat, count: nat): (r: seq<nat>)
    ensures |r| == count && forall k | 0 <= k < count :: r[k] == start + k
  {
    seq(count, k requires 0 <= k < count => start + k)
  }
}
