/** Uniform word choice by rejection sampling (crates/farewell_passphrase/src/lib.rs). */
module Sampling {
  import opened Bytes
  import opened Wrappers

  /** The largest multiple of n that fits in 32 bits; draws at or above it are rejected. */
  function Limit(n: U32): nat
    requires n > 0
  {
    U32_MAX / n * n
  }

  /** Takes draws until one is accepted; None if the draws run out first. */
  method UniformIndex(n: U32, draws: seq<U32>) returns (r: Option<U32>)
    requires n > 0
    ensures r.None? <==> forall i :: 0 <= i < |draws| ==> draws[i] >= Limit(n)
    ensures r.Some? ==> exists i :: (
                                      && 0 <= i < |draws| && draws[i] in Accepted(n, r.value)
                                      && forall j :: 0 <= j < i ==> draws[j] >= Limit(n))
  {
    for i := 0 to |draws|
      invariant forall j :: 0 <= j < i ==> draws[j] >= Limit(n)
    {
      if draws[i] < U32_MAX / n * n {
        assert draws[i] in Accepted(n, draws[i] % n);
        return Some(draws[i] % n);
      }
    }
    return None;
  }

  /** The 32-bit draws that yield the index k. */
  function Accepted(n: U32, k: nat): set<int>
    requires n > 0
  {
    set r | 0 <= r < Limit(n) && r % n == k
  }

  function Below(n: nat, k: nat, top: nat): set<int>
    requires n > 0
  {
    set r | 0 <= r < top && r % n == k
  }

  /** Every index is yielded by the same number of draws: there is no modulo bias. */
  lemma EveryIndexEquallyLikely(n: U32, k: nat)
    requires k < n
    ensures |Accepted(n, k)| == U32_MAX / n
  {
    CountBelow(n, k, U32_MAX / n);
    assert Accepted(n, k) == Below(n, k, U32_MAX / n * n);
  }

  lemma {:induction false} CountBelow(n: nat, k: nat, q: nat)
    requires k < n
    ensures |Below(n, k, q * n)| == q
  {
    if q > 0 {
      CountBelow(n, k, q - 1);
      OneMorePeriod(n, k, q - 1);
    } else {
      assert Below(n, k, 0) == {};
    }
  }

  /** Each period of n numbers holds exactly one with remainder k. */
  lemma OneMorePeriod(n: nat, k: nat, q: nat)
    requires k < n
    ensures Below(n, k, (q + 1) * n) == Below(n, k, q * n) + {q * n + k}
    ensures q * n + k !in Below(n, k, q * n)
  {
    var a, b := Below(n, k, (q + 1) * n), Below(n, k, q * n) + {q * n + k};
    assert (q + 1) * n == q * n + n;
    Remainder(n, q, k);
    forall r | r in a ensures r in b {
      if r >= q * n {
        Remainder(n, q, r - q * n);
      }
    }
  }

  lemma Remainder(n: nat, q: nat, r: nat)
    requires r < n
    ensures (q * n + r) % n == r
  {
    var x := q * n + r;
    var d := x / n - q;
    assert x == x / n * n + x % n;
    assert d * n == r - x % n;
    if d > 0 {
      AtLeastOnce(d, n);
    } else if d < 0 {
      AtLeastOnce(-d, n);
    }
  }

  lemma AtLeastOnce(d: int, n: nat)
    requires d >= 1
    ensures d * n >= n
  {}
}
