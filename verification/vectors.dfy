/** `to_vector`: the one-hot encoding of a class index. */
module Vectors {

  /** The one-hot vector of dimension `n`: 1.0 at index `x`, 0.0 elsewhere. */
  function OneHot(x: int, n: nat): seq<real>
  {
    seq(n, i => if i == x then 1.0 else 0.0)
  }

  /** How many entries of `s` are not 0.0. */
  function NonZeroCount(s: seq<real>): nat
  {
    if s == [] then 0
    else NonZeroCount(s[..|s| - 1]) + (if s[|s| - 1] != 0.0 then 1 else 0)
  }

  /** A prefix of length `m` holds a nonzero entry exactly when it reaches
      index `x`. */
  lemma {:induction false} NonZeroCountOneHotPrefix(x: int, n: nat, m: nat)
    requires 0 <= x && m <= n
    ensures NonZeroCount(OneHot(x, n)[..m]) == if x < m then 1 else 0
  {
    if m > 0 {
      var s := OneHot(x, n)[..m];
      assert s[..m - 1] == OneHot(x, n)[..m - 1];
      NonZeroCountOneHotPrefix(x, n, m - 1);
    }
  }

  /** For a valid index, the one-hot vector has length `n`, holds 1.0 at `x`
      and 0.0 everywhere else, so it has exactly one nonzero entry. */
  lemma OneHotIsOneHot(x: int, n: nat)
    requires 0 <= x < n
    ensures |OneHot(x, n)| == n
    ensures OneHot(x, n)[x] == 1.0
    ensures forall i :: 0 <= i < n && i != x ==> OneHot(x, n)[i] == 0.0
    ensures NonZeroCount(OneHot(x, n)) == 1
  {
    NonZeroCountOneHotPrefix(x, n, n);
    assert OneHot(x, n)[..n] == OneHot(x, n);
  }

  /** A fresh zero array of length `n` whose slot `x` is then overwritten
      with 1.0. */
  method ToVector(x: int, n: nat) returns (v: array<real>)
    requires 0 <= x < n
    ensures fresh(v)
    ensures v.Length == n
    ensures v[x] == 1.0
    ensures forall i :: 0 <= i < n && i != x ==> v[i] == 0.0
    ensures v[..] == OneHot(x, n)
  {
    v := new real[n](_ => 0.0);
    v[x] := 1.0;
  }
}
