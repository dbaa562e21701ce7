/** The retry back-off of a dropped stream (domain/ReconnectPolicy.kt): an
    immutable policy whose delay doubles from a base up to a cap. */
module ReconnectPolicy {
  import opened Basics

  /** A `require` of the policy that failed (IllegalArgumentException). */
  datatype PolicyError = NegativeMaxAttempts | NonPositiveBaseDelay | MaxBelowBase | AttemptBelowOne

  datatype ReconnectPolicy = ReconnectPolicy(maxAttempts: int, baseDelayMs: int, maxDelayMs: int)

  /** The defaults of the data class: five attempts, 1 s base, 15 s cap. */
  const DEFAULT: ReconnectPolicy := ReconnectPolicy(5, 1000, 15000)

  /** The exponent stops growing from the 21st attempt on. */
  const MAX_SHIFT: nat := 20

  /** What the init block accepts. */
  predicate Valid(p: ReconnectPolicy)
  {
    p.maxAttempts >= 0 && p.baseDelayMs > 0 && p.maxDelayMs >= p.baseDelayMs
  }

  /** The constructor with its init checks, in their order. */
  function Make(maxAttempts: int, baseDelayMs: int, maxDelayMs: int): (r: Result<ReconnectPolicy, PolicyError>)
    ensures r.Success? <==> Valid(ReconnectPolicy(maxAttempts, baseDelayMs, maxDelayMs))
    ensures r.Success? ==> r.value == ReconnectPolicy(maxAttempts, baseDelayMs, maxDelayMs)
    ensures r.Failure? && maxAttempts < 0 ==> r.error == NegativeMaxAttempts
  {
    if maxAttempts < 0 then Failure(NegativeMaxAttempts)
    else if baseDelayMs <= 0 then Failure(NonPositiveBaseDelay)
    else if maxDelayMs < baseDelayMs then Failure(MaxBelowBase)
    else Success(ReconnectPolicy(maxAttempts, baseDelayMs, maxDelayMs))
  }

  /** delayForAttempt: base * 2^min(attempt - 1, 20), capped at the maximum;
      an attempt below 1 is rejected. */
  function DelayForAttempt(p: ReconnectPolicy, attempt: int): Result<int, PolicyError>
  {
    if attempt < 1 then Failure(AttemptBelowOne)
    else Success(Min(p.baseDelayMs * Pow2(Min(attempt - 1, MAX_SHIFT)), p.maxDelayMs))
  }

  lemma DefaultIsValid()
    ensures Valid(DEFAULT) && Make(5, 1000, 15000) == Success(DEFAULT)
  {
  }

  /** Every accepted attempt has a delay between the base and the cap. */
  lemma DelayBounds(p: ReconnectPolicy, attempt: int)
    requires Valid(p)
    ensures DelayForAttempt(p, attempt).Failure? <==> attempt < 1
    ensures attempt >= 1 ==> p.baseDelayMs <= DelayForAttempt(p, attempt).value <= p.maxDelayMs
  {
    if attempt >= 1 {
      MulAtLeast(Pow2(Min(attempt - 1, MAX_SHIFT)), p.baseDelayMs);
    }
  }

  /** The uncapped delay doubles with each attempt up to the 21st. */
  lemma Doubling(p: ReconnectPolicy, attempt: int)
    requires Valid(p) && 1 <= attempt <= MAX_SHIFT
    ensures DelayForAttempt(p, attempt + 1).value == Min(2 * DelayForAttempt(p, attempt).value, p.maxDelayMs)
  {
    var k, b, m := attempt - 1, p.baseDelayMs, p.maxDelayMs;
    var x := Pow2(k);
    assert Min(k, MAX_SHIFT) == k && Min(attempt, MAX_SHIFT) == k + 1;
    assert Pow2(k + 1) == 2 * x;
    var d := b * x;
    TwiceProduct(b, x);
    assert DelayForAttempt(p, attempt).value == Min(d, m);
    assert DelayForAttempt(p, attempt + 1).value == Min(2 * d, m);
  }

  /** Moving the doubling out of the product: the one nonlinear step of
      Doubling, stated apart so that Doubling's proof stays linear. */
  lemma TwiceProduct(b: int, x: int)
    ensures b * (2 * x) == 2 * (b * x)
  {
  }

  /** A later attempt never waits less. */
  lemma {:induction false} DelayMonotonic(p: ReconnectPolicy, a: int, b: int)
    requires Valid(p) && 1 <= a <= b
    decreases b - a
    ensures DelayForAttempt(p, a).value <= DelayForAttempt(p, b).value
  {
    if a < b {
      DelayMonotonic(p, a, b - 1);
      if b - 1 <= MAX_SHIFT {
        Doubling(p, b - 1);
        DelayBounds(p, b - 1);
      }
    }
  }

  /** From the 21st attempt on the delay no longer changes. */
  lemma DelaySettles(p: ReconnectPolicy, a: int, b: int)
    requires MAX_SHIFT + 1 <= a && MAX_SHIFT + 1 <= b
    ensures DelayForAttempt(p, a) == DelayForAttempt(p, b)
  {
  }

  /** With base 1000 and cap 10000: 1000, 2000, 4000, 8000, then 10000. */
  lemma ExampleCapAt10000()
    ensures var p := ReconnectPolicy(8, 1000, 10000);
      && Valid(p)
      && DelayForAttempt(p, 1) == Success(1000) && DelayForAttempt(p, 2) == Success(2000)
      && DelayForAttempt(p, 3) == Success(4000) && DelayForAttempt(p, 4) == Success(8000)
      && DelayForAttempt(p, 5) == Success(10000) && DelayForAttempt(p, 6) == Success(10000)
  {
    assert Pow2(3) == 8 && Pow2(4) == 16 && Pow2(5) == 32;
  }

  /** With base 250 and cap 1000: 250, 500, 1000. */
  lemma ExampleSmallBase()
    ensures var p := ReconnectPolicy(3, 250, 1000);
      && Valid(p)
      && DelayForAttempt(p, 1) == Success(250) && DelayForAttempt(p, 2) == Success(500)
      && DelayForAttempt(p, 3) == Success(1000)
  {
    assert Pow2(2) == 4;
  }
}
