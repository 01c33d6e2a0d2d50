/** Lists of positions, in order. */
module Positions {

  /** Positions below n, each behind the one before. */
  predicate Rising(p: seq<int>, n: int) {
    && (forall k | 0 <= k < |p| :: 0 <= p[k] < n)
    && forall i, k | 0 <= i < k < |p| :: p[i] < p[k]
  }

  function Shifted(p: seq<int>, d: int): (r: seq<int>)
    ensures |r| == |p| && forall k | 0 <= k < |p| :: r[k] == p[k] + d
  {
    seq(|p|, k requires 0 <= k < |p| => p[k] + d)
  }

  lemma InShifted(p: seq<int>, d: int, j: int)
    ensures j in Shifted(p, d) <==> j - d in p
  {
    if j - d in p {
      var k :| 0 <= k < |p| && p[k] == j - d;
      assert Shifted(p, d)[k] == j;
    }
  }

  lemma RisingShifted(p: seq<int>, n: nat)
    requires Rising(p, n)
    ensures Rising(Shifted(p, 1), n + 1) && Rising([0] + Shifted(p, 1), n + 1)
  {
    var q := [0] + Shifted(p, 1);
    forall k | 0 <= k < |q| ensures 0 <= q[k] < n + 1 { assert k > 0 ==> q[k] == p[k - 1] + 1; }
    forall i, k | 0 <= i < k < |q| ensures q[i] < q[k] {
      assert q[k] == p[k - 1] + 1 && (i > 0 ==> q[i] == p[i - 1] + 1);
    }
  }

  lemma InFirst(p: seq<int>, j: int)
    ensures j in [0] + p <==> j == 0 || j in p
  {
    assert ([0] + p)[0] == 0;
  }

  lemma RisingMore(p: seq<int>, n: nat)
    requires Rising(p, n)
    ensures Rising(p, n + 1) && Rising(p + [n], n + 1)
  {}
}
