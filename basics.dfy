/** Shared vocabulary: bytes as the values 0..255, optional values, results
    with an error, powers of two, and the few facts about integer division
    that the bit-level proofs need. */
module Basics {

  /** A byte as the Kotlin code uses it once masked with 0xFF. */
  type Byte = x: int | 0 <= x < 256

  /** A nullable value (Kotlin's `T?`). */
  datatype Option<+T> = None | Some(value: T)

  /** The outcome of an operation that can throw in the source. */
  datatype Result<+T, +E> = Success(value: T) | Failure(error: E) {
    predicate IsFailure() { Failure? }

    function PropagateFailure<U>(): Result<U, E>
      requires Failure?
    {
      Failure(error)
    }

    function Extract(): T
      requires Success?
    {
      value
    }
  }

  function Pow2(n: nat): (r: nat)
    ensures r >= 1
  {
    if n == 0 then 1 else 2 * Pow2(n - 1)
  }

  lemma Pow2Monotonic(m: nat, n: nat)
    requires m <= n
    ensures Pow2(m) <= Pow2(n)
  {
    if m < n {
      Pow2Monotonic(m, n - 1);
    }
  }

  lemma MulAtLeast(k: int, d: int)
    requires k >= 1 && d > 0
    ensures k * d >= d
  {
    assert k * d == (k - 1) * d + d;
    assert (k - 1) * d >= 0;
  }

  /** The smaller of two integers (Kotlin's `coerceAtMost`). */
  function Min(a: int, b: int): int
  {
    if a <= b then a else b
  }

  lemma MulMonotone(a: nat, b: nat, c: nat)
    requires a <= b
    ensures a * c <= b * c
  {
    assert b * c == a * c + (b - a) * c;
  }

  /** A prefix of a prefix is a prefix. */
  lemma PrefixOfPrefix<T>(s: seq<T>, n: nat, k: nat)
    requires k <= n <= |s|
    ensures s[..n][..k] == s[..k]
  {
  }

  /** Two adjacent slices from the start join into one. */
  lemma PrefixJoin<T>(s: seq<T>, k: nat, m: nat)
    requires k <= m <= |s|
    ensures s[..k] + s[k..m] == s[..m]
  {
  }

  /** A non-empty sequence is its front and its last element. */
  lemma FrontLast<T>(s: seq<T>)
    requires |s| > 0
    ensures s == s[..|s| - 1] + [s[|s| - 1]]
  {
  }

  /** Euclidean division is determined by quotient and remainder. */
  lemma DivUnique(x: int, d: int, q: int, r: int)
    requires d > 0 && 0 <= r < d && x == q * d + r
    ensures x / d == q && x % d == r
  {
    var q0, r0 := x / d, x % d;
    assert x == q0 * d + r0;
    if q0 > q {
      assert q0 * d - q * d == (q0 - q) * d;
      MulAtLeast(q0 - q, d);
    } else if q0 < q {
      assert q * d - q0 * d == (q - q0) * d;
      MulAtLeast(q - q0, d);
    }
  }

  /** Shifting a bit in at the bottom does not change the higher bits. */
  lemma DivStep(a: nat, b: nat, p: nat)
    requires b < 2 && p > 0
    ensures (2 * a + b) / (2 * p) == a / p
  {
    var q, r := a / p, a % p;
    assert 2 * a + b == q * (2 * p) + (2 * r + b);
    DivUnique(2 * a + b, 2 * p, q, 2 * r + b);
  }
}
