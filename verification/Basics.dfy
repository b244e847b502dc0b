/** What several modules share: bytes, optional and failing results, and integer division. */
module Basics {

  type Byte = b: int | 0 <= b < 256

  datatype Option<+T> = None | Some(value: T)

  datatype Result<+T> = Ok(value: T) | Err

  const TWO_31 := 0x8000_0000
  const TWO_32 := 0x1_0000_0000
  const TWO_61 := 0x2000_0000_0000_0000
  const TWO_62 := 0x4000_0000_0000_0000
  const TWO_63 := 0x8000_0000_0000_0000
  const TWO_64 := 0x1_0000_0000_0000_0000

  /** Quotient and remainder are determined by their defining equation. */
  lemma DivUnique(N: int, x: int, q: int, r: int)
    requires N > 0 && 0 <= r < N && x == N * q + r
    ensures x / N == q && x % N == r
  {
    var d := x / N - q;
    assert x == N * (x / N) + x % N;
    assert N * d == r - x % N by { assert N * (x / N) - N * q == N * d; }
    assert d >= 1 ==> N * d >= N;
    assert d <= -1 ==> N * d <= -N;
  }

  lemma Associative<T>(a: seq<T>, b: seq<T>, c: seq<T>)
    ensures a + b + c == a + (b + c)
  {
  }

  lemma SameElements<T>(a: seq<T>, b: seq<T>)
    requires |a| == |b|
    ensures a == b <==> forall i :: 0 <= i < |b| ==> a[i] == b[i]
  {
  }

  lemma Distribute(a: int, b: int, c: int)
    ensures a * (b + c) == a * b + a * c
  {
  }

  lemma OneMoreTime(n: nat, r: int)
    requires n > 0
    ensures n * r == (n - 1) * r + r
  {
  }

  lemma Positive(a: nat, b: nat)
    requires a > 0 && b > 0
    ensures a * b > 0
  {
  }

  function CountTrue(b: seq<bool>): nat {
    if b == [] then 0 else (if b[0] then 1 else 0) + CountTrue(b[1..])
  }

  lemma {:induction false} CountTrueSet(b: seq<bool>, i: nat, v: bool)
    requires i < |b| && b[i] != v
    ensures CountTrue(b[i := v]) == CountTrue(b) + if v then 1 else -1
    decreases |b|
  {
    if i == 0 {
      assert b[i := v][1..] == b[1..];
    } else {
      CountTrueSet(b[1..], i - 1, v);
      assert b[i := v][1..] == b[1..][i - 1 := v];
    }
  }

  lemma {:induction false} CountTrueSame(b: seq<bool>, v: bool)
    requires forall i :: 0 <= i < |b| ==> b[i] == v
    ensures CountTrue(b) == if v then |b| else 0
    decreases |b|
  {
    if b != [] { CountTrueSame(b[1..], v); }
  }

  lemma {:induction false} CountTrueBound(b: seq<bool>)
    ensures CountTrue(b) <= |b|
    ensures CountTrue(b) == |b| <==> forall i :: 0 <= i < |b| ==> b[i]
    decreases |b|
  {
    if b != [] {
      CountTrueBound(b[1..]);
      assert (forall i :: 0 <= i < |b| ==> b[i]) <==> b[0] && forall i :: 0 <= i < |b[1..]| ==> b[1..][i] by {
        assert forall i :: 0 <= i < |b[1..]| ==> b[1..][i] == b[i + 1];
        assert forall i :: 1 <= i < |b| ==> b[i] == b[1..][i - 1];
      }
    }
  }
}
