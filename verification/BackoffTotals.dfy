/** config.rs: what a whole schedule waits without jitter. */
module BackoffTotals {
  import opened Fractions
  import opened Backoff
  import opened BackoffValues

  /** A schedule without jitter that gives n retries. */
  predicate Retries(s: Strategy, n: nat) {
    !s.NoRetry? && s.jitter == NoJitter && n <= s.maxAttempts
  }

  /** All that next_delay gives for n retries. */
  function TotalDelay(s: Strategy, n: nat): nat
    requires Retries(s, n)
  {
    if n == 0 then 0 else TotalDelay(s, n - 1) + Delay(s, n - 1)
  }

  lemma LinearDelay(s: Strategy, a: nat)
    requires Waits(s, a) && s.Linear? && s.baseDelay >= 1 && s.maxDelay >= 1
    ensures Delay(s, a) == MinNat(s.baseDelay * (a + 1), s.maxDelay)
  {
    hide NextDelay, Delay;
    LinearValue(s, a, 0.0);
    AtLeastOnce(s.baseDelay, a + 1);
  }

  /** Twice a linear total: an arithmetic series up to the cap, and the cap after. */
  function LinearSeries(b: nat, m: nat, n: nat): int
    requires b >= 1
  {
    var c := MinNat(n, m / b);
    b * (c * (c + 1)) + 2 * ((n - c) * m)
  }

  lemma {:induction false} LinearTotals(s: Strategy, n: nat)
    requires Retries(s, n) && s.Linear? && s.baseDelay >= 1 && s.maxDelay >= 1
    ensures 2 * TotalDelay(s, n) == LinearSeries(s.baseDelay, s.maxDelay, n)
  {
    hide Delay, NextDelay, LinearSeries, MinNat;
    if n > 0 {
      LinearTotals(s, n - 1);
      LinearDelay(s, n - 1);
      LinearSeriesStep(s.baseDelay, s.maxDelay, n);
    } else {
      EmptyLinear(s.baseDelay, s.maxDelay);
    }
  }

  lemma LinearSeriesStep(b: nat, m: nat, n: nat)
    requires b >= 1 && n >= 1
    ensures LinearSeries(b, m, n) == LinearSeries(b, m, n - 1) + 2 * MinNat(b * n, m)
  {
    hide MinNat;
    LinearStep(b, m, n, m / b);
  }

  lemma EmptyLinear(b: nat, m: nat)
    requires b >= 1
    ensures LinearSeries(b, m, 0) == 0
  {
  }

  /** Linear backoff: an arithmetic series up to where the cap is reached, then the cap. */
  lemma LinearTotal(s: Strategy, n: nat)
    requires Retries(s, n) && s.Linear? && s.baseDelay >= 1 && s.maxDelay >= 1
    ensures var c := MinNat(n, s.maxDelay / s.baseDelay);
            2 * TotalDelay(s, n) == s.baseDelay * (c * (c + 1)) + 2 * ((n - c) * s.maxDelay)
  {
    hide TotalDelay, Retries;
    LinearTotals(s, n);
  }

  /** The closed form grows by the delay of the next retry. */
  lemma LinearStep(b: nat, m: nat, n: nat, c: nat)
    requires b >= 1 && n >= 1 && c == m / b
    ensures var c0, c1 := MinNat(n - 1, c), MinNat(n, c);
            b * (c1 * (c1 + 1)) + 2 * ((n - c1) * m) ==
            b * (c0 * (c0 + 1)) + 2 * ((n - 1 - c0) * m) + 2 * MinNat(b * n, m)
  {
    CapReached(b, m, n);
    if n <= c {
      assert n * (n + 1) == (n - 1) * n + 2 * n;
      assert b * (n * (n + 1)) == b * ((n - 1) * n) + 2 * (b * n);
    } else {
      assert (n - c) * m == (n - 1 - c) * m + m;
    }
  }

  lemma CapReached(b: nat, m: nat, n: nat)
    requires b >= 1
    ensures n <= m / b <==> b * n <= m
  {
    var c := m / b;
    assert b * c <= m < b * (c + 1);
    if n <= c {
      NatProduct(b, n, c);
    } else {
      NatProduct(b, c + 1, n);
    }
  }

  lemma NatProduct(b: nat, x: nat, y: nat)
    requires x <= y
    ensures b * x <= b * y
  {
  }

  /** A schedule without growth. */
  predicate Flat(s: Strategy) {
    && Rising(s)
    && (s.Fixed? || s.maxDelay <= 1 || (s.Linear? && s.baseDelay == 0) || (s.Exponential? && s.multiplier == 1.0))
  }

  function FlatSeconds(s: Strategy): nat
    requires Flat(s)
  {
    MaxNat(1, if s.Fixed? then s.baseDelay else MinNat(s.baseDelay, s.maxDelay))
  }

  /** A fixed delay, a cap of at most a second, a linear schedule with a zero base, or a multiplier of one: the one delay,
      as often as it is waited. */
  lemma {:induction false} FlatTotal(s: Strategy, n: nat)
    requires Flat(s) && Retries(s, n)
    ensures TotalDelay(s, n) == n * FlatSeconds(s)
  {
    hide Delay, NextDelay;
    if n > 0 {
      FlatTotal(s, n - 1);
      FlatDelay(s, n - 1);
      var d := FlatSeconds(s);
      assert n * d == (n - 1) * d + d;
    }
  }

  lemma FactorOfOneIsOne(e: int)
    ensures Factor(1.0, e) == 1.0
  {
    PowerOfOne(if e >= 0 then e else -e);
  }

  lemma FlatDelay(s: Strategy, a: nat)
    requires Flat(s) && Waits(s, a)
    ensures Delay(s, a) == FlatSeconds(s)
  {
    hide Whole, CappedPower;
    if s.Fixed? {
      WholeIsFloor(s.baseDelay as real);
      WholeFloor(s.baseDelay);
    } else if s.Exponential? {
      FlatExponential(s, a);
    } else {
      FlatLinear(s.baseDelay, a, s.maxDelay);
      WholeIsFloor(Capped(s, a));
      WholeFloor(MinNat(SaturatingMul(s.baseDelay, a + 1), s.maxDelay));
    }
  }

  lemma FlatLinear(b: Seconds, a: nat, m: Seconds)
    requires b == 0 || m <= 1
    ensures MaxNat(1, MinNat(SaturatingMul(b, a + 1), m)) == 1 == MaxNat(1, MinNat(b, m))
  {
  }

  lemma FlatExponential(s: Strategy, a: nat)
    requires Flat(s) && Waits(s, a) && s.Exponential?
    ensures Delay(s, a) == FlatSeconds(s)
  {
    hide CappedPower, Factor, Whole, Grown, FloatLimit;
    var e := ToI32(a);
    CappedFactor(s.baseDelay, s.multiplier, e, s.maxDelay);
    FactorPositive(s.multiplier, e);
    CappedAtRange(s.baseDelay, Factor(s.multiplier, e), s.maxDelay);
    WholeIsFloor(Capped(s, a));
    if s.multiplier == 1.0 {
      FactorOfOneIsOne(e);
      LimitIsLarge();
      GrownByOne(s.baseDelay);
      WholeFloor(MinNat(s.baseDelay, s.maxDelay));
    } else {
      SmallAreOne(Capped(s, a), 1.0);
      WholeFloor(1);
    }
  }

  lemma GrownByOne(b: nat)
    ensures Grown(b, 1.0) == b as real
  {
  }

  // ---------- the retries on the two sides of the wrap ----------

  /** Retries among the first n before the exponent wraps, and from there on. */
  function Before(n: nat): nat { MinNat(n, TWO31) }
  function Behind(n: nat): nat { n - Before(n) }

  lemma Sides(n: nat)
    requires 0 < n <= TWO32
    ensures n <= TWO31 ==> Before(n) == n && Behind(n) == 0 && ToI32(n - 1) == n - 1
    ensures n > TWO31 ==> Before(n) == TWO31 && Behind(n) == n - TWO31 && ToI32(n - 1) == n - 1 - TWO32
  {
  }

  /** How many of the k exponents from start on leave the base below the limit: for a multiplier of at least one, the
      first so many. */
  function Below(b: nat, x: real, limit: real, start: int, k: nat): (c: nat)
    requires x >= 1.0
    ensures c <= k
  {
    if k == 0 then 0
    else if Grown(b, Factor(x, start + k - 1)) < limit then k
    else Below(b, x, limit, start, k - 1)
  }

  lemma {:induction false} BelowIsPrefix(b: nat, x: real, limit: real, start: int, k: nat, i: nat)
    requires x >= 1.0 && i < k
    ensures i < Below(b, x, limit, start, k) <==> Grown(b, Factor(x, start + i)) < limit
  {
    hide Factor, Grown;
    if i < k - 1 {
      FactorMonotone(x, start + i, start + k - 1);
      GrownMonotone(b, Factor(x, start + i), Factor(x, start + k - 1));
      if Grown(b, Factor(x, start + k - 1)) >= limit {
        BelowIsPrefix(b, x, limit, start, k - 1, i);
      }
    }
  }

  lemma BelowSteps(b: nat, x: real, limit: real, start: int, k: nat)
    requires x >= 1.0 && k >= 1
    ensures Grown(b, Factor(x, start + k - 1)) < limit ==>
              Below(b, x, limit, start, k) == k && Below(b, x, limit, start, k - 1) == k - 1
    ensures Grown(b, Factor(x, start + k - 1)) >= limit ==>
              Below(b, x, limit, start, k) == Below(b, x, limit, start, k - 1)
  {
    hide Factor, Grown;
    if k > 1 && Grown(b, Factor(x, start + k - 1)) < limit {
      BelowIsPrefix(b, x, limit, start, k, k - 2);
      BelowFull(b, x, limit, start, k - 1);
    }
  }

  lemma BelowFull(b: nat, x: real, limit: real, start: int, k: nat)
    requires x >= 1.0 && k >= 1 && Grown(b, Factor(x, start + k - 1)) < limit
    ensures Below(b, x, limit, start, k) == k
  {
  }

  /** A higher limit leaves more below it. */
  lemma {:induction false} BelowMonotone(b: nat, x: real, low: real, high: real, start: int, k: nat)
    requires x >= 1.0 && low <= high
    ensures Below(b, x, low, start, k) <= Below(b, x, high, start, k)
  {
    hide Factor, Grown;
    if k > 0 {
      BelowMonotone(b, x, low, high, start, k - 1);
    }
  }

  // ---------- a base of zero ----------

  /** With a base of zero a retry waits a second, or the cap once the power is infinite, up to the wrap. */
  lemma {:induction false} ZeroBaseTotal(s: Strategy, n: nat)
    requires Rising(s) && s.Exponential? && s.baseDelay == 0 && n <= s.maxAttempts
    ensures var finite := Below(1, s.multiplier, FloatLimit(), 0, Before(n));
            TotalDelay(s, n) == n + (Before(n) - finite) * (MaxNat(1, s.maxDelay) - 1)
  {
    hide Delay, Factor, FloatLimit, CappedAt, MaxReal, Before, Behind, Grown, NextDelay;
    if n == 0 {
      NothingBefore();
    } else {
      ZeroBaseTotal(s, n - 1);
      Sides(n);
      var x, e, d := s.multiplier, ToI32(n - 1), MaxNat(1, s.maxDelay) - 1;
      ExponentialDelay(s, n - 1);
      ZeroBaseDelay(Factor(x, e), s.maxDelay);
      if n <= TWO31 {
        BeforeLess(n);
        BelowSteps(1, x, FloatLimit(), 0, n);
        GrownFromOne(Factor(x, e));
        var c := Below(1, x, FloatLimit(), 0, n - 1);
        assert (n - c) * d == (n - 1 - c) * d + d;
      } else {
        BeforeLess(n);
        FactorPositive(x, e);
        LimitIsLarge();
      }
    }
  }

  lemma NothingBefore()
    ensures Before(0) == 0 == Behind(0)
  {
  }

  lemma BeforeLess(n: nat)
    requires n > 0
    ensures n <= TWO31 ==> Before(n - 1) == n - 1 && Behind(n - 1) == 0
    ensures n > TWO31 ==> Before(n - 1) == TWO31 && Behind(n - 1) == n - 1 - TWO31
  {
  }

  lemma GrownFromOne(f: real)
    ensures Grown(1, f) == f
  {
  }

  // ---------- truncation ----------

  /** The delay before it is truncated to whole seconds. */
  function Lifted(s: Strategy, a: nat): real
    requires !s.NoRetry?
  {
    MaxReal(Capped(s, a), 1.0)
  }

  /** The total without truncation. */
  function TotalLifted(s: Strategy, n: nat): real
    requires !s.NoRetry?
  {
    if n == 0 then 0.0 else TotalLifted(s, n - 1) + Lifted(s, n - 1)
  }

  predicate IsWhole(x: real) { x.Floor as real == x }

  ghost predicate AllWhole(s: Strategy, n: nat)
    requires !s.NoRetry?
  {
    forall a: nat :: a < n ==> IsWhole(Lifted(s, a))
  }

  lemma DelayIsFloor(s: Strategy, a: nat)
    requires Waits(s, a)
    ensures Delay(s, a) == Lifted(s, a).Floor
  {
    hide Whole, Capped;
    CappedFits(s, a);
    WholeIsFloor(Capped(s, a));
  }

  /** Of any schedule: truncation only loses, and it loses nothing exactly if every delay is whole before it. */
  lemma {:induction false} TruncationLoses(s: Strategy, n: nat)
    requires Retries(s, n)
    ensures TotalDelay(s, n) as real <= TotalLifted(s, n)
    ensures TotalDelay(s, n) as real == TotalLifted(s, n) <==> AllWhole(s, n)
  {
    hide Lifted, Delay, NextDelay;
    if n > 0 {
      TruncationLoses(s, n - 1);
      DelayIsFloor(s, n - 1);
      assert TotalDelay(s, n) as real == TotalDelay(s, n - 1) as real + Lifted(s, n - 1).Floor as real;
      assert AllWhole(s, n) <==> AllWhole(s, n - 1) && IsWhole(Lifted(s, n - 1));
    }
  }

  // ---------- the geometric series ----------

  /** An exponential schedule without jitter, with a positive base and cap and a multiplier of at least one. */
  predicate Growing(s: Strategy) {
    Rising(s) && s.Exponential? && s.baseDelay >= 1 && s.maxDelay >= 1
  }

  /** One delay before truncation: not below a second, not above the cap. */
  function Term(b: nat, x: real, m: nat, e: int): real
    requires x >= 1.0
  {
    MaxReal(MinReal(Grown(b, Factor(x, e)), m as real), 1.0)
  }

  /** The terms of the k exponents from start on. */
  function Terms(b: nat, x: real, m: nat, start: int, k: nat): real
    requires x >= 1.0
  {
    if k == 0 then 0.0 else Terms(b, x, m, start, k - 1) + Term(b, x, m, start + k - 1)
  }

  /** x - 1 times: a second for the terms below it, a geometric series below the cap, the cap for the others. */
  function Series(b: nat, x: real, m: nat, start: int, k: nat): real
    requires x >= 1.0
  {
    var low, c := Below(b, x, 1.0, start, k), Below(b, x, m as real, start, k);
    (x - 1.0) * low as real + b as real * (Factor(x, start + c) - Factor(x, start + low))
    + (x - 1.0) * ((k - c) as real * m as real)
  }

  lemma TermCases(b: nat, x: real, m: nat, e: int)
    requires x >= 1.0 && m >= 1
    ensures var g := Grown(b, Factor(x, e));
            Term(b, x, m, e) == if g < 1.0 then 1.0 else if g < m as real then g else m as real
  {
    hide Grown, Factor;
  }

  lemma GrownIs(b: nat, f: real)
    ensures Grown(b, f) == b as real * f
  {
  }

  lemma LowTerm(x: real, k: real, rest: real)
    ensures (x - 1.0) * (k + 1.0) + rest == (x - 1.0) * k + rest + (x - 1.0) * 1.0
  {
  }

  lemma MiddleTerm(b: real, x: real, f: real, f2: real, f0: real)
    requires f2 == x * f
    ensures b * (f2 - f0) == b * (f - f0) + (x - 1.0) * (b * f)
  {
    var y := b * f;
    assert b * (x * f) == x * y;
    assert b * (f2 - f0) == b * f2 - b * f0 && b * (f - f0) == y - b * f0;
    assert (x - 1.0) * y == x * y - y;
  }

  lemma HighTerm(x: real, m: real, k: real)
    ensures (x - 1.0) * ((k + 1.0) * m) == (x - 1.0) * (k * m) + (x - 1.0) * m
  {
    assert (k + 1.0) * m == k * m + m;
    var y := k * m;
    assert (x - 1.0) * (y + m) == (x - 1.0) * y + (x - 1.0) * m;
  }

  lemma Distribute(x: real, s: real, t: real)
    ensures (x - 1.0) * (s + t) == (x - 1.0) * s + (x - 1.0) * t
  {
  }

  lemma SeriesStep(b: nat, x: real, m: nat, start: int, k: nat)
    requires x >= 1.0 && m >= 1 && k >= 1
    ensures Series(b, x, m, start, k) == Series(b, x, m, start, k - 1) + (x - 1.0) * Term(b, x, m, start + k - 1)
  {
    hide Term, Below, Factor, Grown;
    var e := start + k - 1;
    var g := Grown(b, Factor(x, e));
    TermCases(b, x, m, e);
    BelowSteps(b, x, 1.0, start, k);
    BelowSteps(b, x, m as real, start, k);
    var low, c := Below(b, x, 1.0, start, k - 1), Below(b, x, m as real, start, k - 1);
    if g < 1.0 {
      assert start + k == start + (k - 1) + 1;
      NoSpan(b as real, Factor(x, start + k), Factor(x, start + (k - 1)));
      LowTerm(x, (k - 1) as real, 0.0);
      NoHeight(x, m as real, (k - k) as real, (k - 1 - (k - 1)) as real);
    } else if g < m as real {
      FactorStep(x, e);
      GrownIs(b, Factor(x, e));
      MiddleTerm(b as real, x, Factor(x, e), Factor(x, e + 1), Factor(x, start + low));
      NoHeight(x, m as real, (k - k) as real, (k - 1 - (k - 1)) as real);
    } else {
      HighTerm(x, m as real, (k - 1 - c) as real);
    }
  }

  lemma NoSpan(b: real, f: real, g: real)
    ensures b * (f - f) == 0.0 == b * (g - g)
  {
  }

  lemma NoHeight(x: real, m: real, i: real, j: real)
    requires i == 0.0 == j
    ensures (x - 1.0) * (i * m) == 0.0 == (x - 1.0) * (j * m)
  {
  }

  lemma {:induction false} TermsClosed(b: nat, x: real, m: nat, start: int, k: nat)
    requires x >= 1.0 && m >= 1
    ensures (x - 1.0) * Terms(b, x, m, start, k) == Series(b, x, m, start, k)
  {
    hide Term, Series;
    if k == 0 {
      EmptySeries(b, x, m, start);
    } else {
      TermsClosed(b, x, m, start, k - 1);
      SeriesStep(b, x, m, start, k);
      Distribute(x, Terms(b, x, m, start, k - 1), Term(b, x, m, start + k - 1));
    }
  }

  lemma EmptySeries(b: nat, x: real, m: nat, start: int)
    requires x >= 1.0
    ensures Series(b, x, m, start, 0) == 0.0
  {
    hide Factor;
  }

  lemma LiftedIsTerm(s: Strategy, a: nat)
    requires Growing(s)
    ensures Lifted(s, a) == Term(s.baseDelay, s.multiplier, s.maxDelay, ToI32(a))
  {
    hide CappedPower, Factor, MaxReal, MinReal, Grown;
    CappedFactor(s.baseDelay, s.multiplier, ToI32(a), s.maxDelay);
  }

  lemma {:induction false} LiftedAreTerms(s: Strategy, n: nat)
    requires Growing(s) && n <= TWO32
    ensures var b, x, m := s.baseDelay, s.multiplier, s.maxDelay;
            TotalLifted(s, n) == Terms(b, x, m, 0, Before(n)) + Terms(b, x, m, I32_MIN, Behind(n))
  {
    hide Lifted, Term, Before, Behind, ToI32;
    if n == 0 {
      NothingBefore();
    } else {
      LiftedAreTerms(s, n - 1);
      LiftedIsTerm(s, n - 1);
      Sides(n);
      BeforeLess(n);
    }
  }

  /** The closed form of the total without truncation, for every multiplier from one up, before and behind the wrap. */
  lemma SeriesTotal(s: Strategy, n: nat)
    requires Growing(s) && n <= TWO32
    ensures (s.multiplier - 1.0) * TotalLifted(s, n) == ClosedForm(s, n)
  {
    hide TotalLifted, Terms, Series, Before, Behind;
    var b, x, m := s.baseDelay, s.multiplier, s.maxDelay;
    LiftedAreTerms(s, n);
    TermsClosed(b, x, m, 0, Before(n));
    TermsClosed(b, x, m, I32_MIN, Behind(n));
    Distribute(x, Terms(b, x, m, 0, Before(n)), Terms(b, x, m, I32_MIN, Behind(n)));
  }

  function ClosedForm(s: Strategy, n: nat): real
    requires Growing(s)
  {
    var b, x, m := s.baseDelay, s.multiplier, s.maxDelay;
    Series(b, x, m, 0, Before(n)) + Series(b, x, m, I32_MIN, Behind(n))
  }

  /** Before the wrap this is the geometric series of c terms and the cap for the others. */
  lemma PlainClosedForm(s: Strategy, n: nat)
    requires Growing(s) && n <= TWO31
    ensures var b, x, m := s.baseDelay, s.multiplier, s.maxDelay;
            var c := Below(b, x, m as real, 0, n);
            ClosedForm(s, n) == b as real * (Power(x, c) - 1.0) + (x - 1.0) * ((n - c) as real * m as real)
  {
    hide Power, Factor;
    var b, x, m := s.baseDelay, s.multiplier, s.maxDelay;
    assert Before(n) == n && Behind(n) == 0;
    NoneSunk(b, x, n);
    FactorIsPower(x, Below(b, x, m as real, 0, n));
    FactorIsPower(x, 0);
    PowerStarts(x);
    EmptySeries(b, x, m, I32_MIN);
  }

  /** No term before the wrap is below a second. */
  lemma NoneSunk(b: nat, x: real, k: nat)
    requires b >= 1 && x >= 1.0
    ensures Below(b, x, 1.0, 0, k) == 0
  {
    hide Factor, Power, Grown;
    if k > 0 {
      BelowIsPrefix(b, x, 1.0, 0, k, 0);
      FactorIsPower(x, 0);
      PowerStarts(x);
      GrownAtLeast(b, 1.0);
      assert 0 + 0 == 0;
    }
  }

  // ---------- when every delay is whole ----------

  /** The multiplier is p / q in lowest terms. */
  ghost predicate InLowestTerms(x: real, p: nat, q: nat) {
    p >= 1 && q >= 1 && Coprime(p, q) && x * q as real == p as real
  }

  /** What must divide the base for it to stay whole at this exponent. */
  function Divisor(p: nat, q: nat, e: int): (d: nat)
    requires p >= 1 && q >= 1
    ensures d >= 1
  {
    NatPowerPositive(q, if e >= 0 then e else 0);
    NatPowerPositive(p, if e >= 0 then 0 else -e);
    if e >= 0 then NatPower(q, e) else NatPower(p, -e)
  }

  lemma WholeQuotient(y: real, d: nat, n: nat)
    requires d >= 1 && y * d as real == n as real
    ensures IsWhole(y) <==> Divides(d, n)
  {
    hide Divides;
    if IsWhole(y) {
      assert (y.Floor * d) as real == y * d as real;
      DividesIntro(d, n, y.Floor);
    }
    if Divides(d, n) {
      var k := DividesElim(d, n);
      assert (k * d) as real == k as real * d as real;
      SameQuotient(y, k as real, d as real);
    }
  }

  lemma GrownTimes(b: nat, y: real, w: nat, z: nat)
    requires y * w as real == z as real
    ensures Grown(b, y) * w as real == (b * z) as real
  {
    assert b as real * y * w as real == b as real * (y * w as real);
    assert b as real * z as real == (b * z) as real;
  }

  lemma MultipleDivides(b: nat, w: nat, z: nat)
    requires w >= 1 && Divides(w, b)
    ensures Divides(w, b * z)
  {
    hide Divides;
    var k := DividesElim(w, b);
    assert k * w * z == k * z * w;
    DividesIntro(w, b * z, k * z);
  }

  /** b times (z / w) is whole exactly if w divides b, when w and z are like powers of coprime numbers. */
  lemma FractionOfBase(b: nat, y: real, p: nat, q: nat, a: nat)
    requires q >= 1 && Coprime(p, q) && NatPower(q, a) >= 1
    requires y * NatPower(q, a) as real == NatPower(p, a) as real
    ensures IsWhole(Grown(b, y)) <==> Divides(NatPower(q, a), b)
  {
    hide Divides, Coprime, IsWhole, NatPower, Grown;
    var w, z := NatPower(q, a), NatPower(p, a);
    GrownTimes(b, y, w, z);
    WholeQuotient(Grown(b, y), w, b * z);
    assert b * z == z * b;
    if Divides(w, b * z) {
      PowerDividesFactor(p, q, a, a, b);
    }
    if Divides(w, b) {
      MultipleDivides(b, w, z);
    }
  }

  lemma SwapCoprime(p: nat, q: nat)
    requires Coprime(p, q)
    ensures Coprime(q, p)
  {
  }

  lemma FactorTimesPower(x: real, e: int)
    requires x >= 1.0 && e < 0
    ensures Factor(x, e) * Power(x, -e) == 1.0
  {
    PowerMonotone(x, 0, -e);
    var y := Power(x, -e);
    assert 1.0 / y * y == 1.0;
  }

  /** The base times the power of this exponent is whole exactly if the divisor of the exponent divides it. */
  lemma TermIsWhole(b: nat, x: real, p: nat, q: nat, e: int)
    requires x >= 1.0 && InLowestTerms(x, p, q)
    ensures IsWhole(Grown(b, Factor(x, e))) <==> Divides(Divisor(p, q, e), b)
  {
    hide Divides, Coprime, IsWhole, Power, NatPower, Grown, Factor;
    if e >= 0 {
      var k: nat := e;
      DivisorIs(p, q, e);
      FactorIsPower(x, k);
      PowerOfFraction(x, p, q, k);
      FractionOfBase(b, Factor(x, e), p, q, k);
    } else {
      var k: nat := -e;
      DivisorIs(p, q, e);
      FactorTimesPower(x, e);
      PowerOfFraction(x, p, q, k);
      InverseOfFraction(Power(x, k), Factor(x, e), NatPower(q, k) as real, NatPower(p, k) as real);
      SwapCoprime(p, q);
      FractionOfBase(b, Factor(x, e), q, p, k);
    }
  }

  lemma DivisorIs(p: nat, q: nat, e: int)
    requires p >= 1 && q >= 1
    ensures Divisor(p, q, e) == if e >= 0 then NatPower(q, e) else NatPower(p, -e)
  {
  }

  /** Further from zero the divisor is a multiple. */
  lemma DivisorGrows(p: nat, q: nat, e: int, f: int)
    requires p >= 1 && q >= 1 && (0 <= e <= f || f <= e < 0)
    ensures Divides(Divisor(p, q, e), Divisor(p, q, f))
  {
    hide Divides, NatPower;
    DivisorIs(p, q, e);
    DivisorIs(p, q, f);
    if e >= 0 {
      NatPowerPositive(q, e);
      PowerDividesPower(q, e, f);
    } else {
      NatPowerPositive(p, -e);
      PowerDividesPower(p, -e, -f);
    }
  }

  lemma WholeNat(m: nat)
    ensures IsWhole(m as real)
  {
  }

  ghost predicate WholeTerms(b: nat, x: real, m: nat, start: int, k: nat)
    requires x >= 1.0
  {
    forall e :: start <= e < start + k ==> IsWhole(Term(b, x, m, e))
  }

  /** The exponent among the k from start on that is furthest from zero, of those with a term of a second or more and
      below the cap. */
  function Furthest(b: nat, x: real, m: nat, start: int, k: nat): int
    requires x >= 1.0
  {
    if start >= 0 then start + Below(b, x, m as real, start, k) - 1 else start + Below(b, x, 1.0, start, k)
  }

  ghost predicate FurthestDivides(b: nat, x: real, p: nat, q: nat, m: nat, start: int, k: nat)
    requires x >= 1.0 && p >= 1 && q >= 1
  {
    || Below(b, x, 1.0, start, k) == Below(b, x, m as real, start, k)
    || Divides(Divisor(p, q, Furthest(b, x, m, start, k)), b)
  }

  lemma TermWholeExactly(b: nat, x: real, p: nat, q: nat, m: nat, start: int, k: nat, i: nat)
    requires x >= 1.0 && m >= 1 && InLowestTerms(x, p, q) && i < k
    ensures IsWhole(Term(b, x, m, start + i)) <==>
            || i < Below(b, x, 1.0, start, k) || i >= Below(b, x, m as real, start, k)
            || Divides(Divisor(p, q, start + i), b)
  {
    hide Term, Below, Factor, Grown, IsWhole, Divides, Divisor, Coprime;
    TermCases(b, x, m, start + i);
    BelowIsPrefix(b, x, 1.0, start, k, i);
    BelowIsPrefix(b, x, m as real, start, k, i);
    TermIsWhole(b, x, p, q, start + i);
    WholeNat(1);
    WholeNat(m);
  }

  /** All terms on one side of the wrap are whole exactly if the one furthest from zero is. */
  lemma WholeTermsExactly(b: nat, x: real, p: nat, q: nat, m: nat, start: int, k: nat)
    requires x >= 1.0 && m >= 1 && InLowestTerms(x, p, q) && (start >= 0 || start + k <= 0)
    ensures WholeTerms(b, x, m, start, k) <==> FurthestDivides(b, x, p, q, m, start, k)
  {
    hide Term, Below, IsWhole, Divides, Divisor, Coprime;
    var low, c := Below(b, x, 1.0, start, k), Below(b, x, m as real, start, k);
    BelowMonotone(b, x, 1.0, m as real, start, k);
    var far := Furthest(b, x, m, start, k) - start;
    if low < c {
      TermWholeExactly(b, x, p, q, m, start, k, far);
    }
    if FurthestDivides(b, x, p, q, m, start, k) {
      forall e | start <= e < start + k
        ensures IsWhole(Term(b, x, m, e))
      {
        var i := e - start;
        TermWholeExactly(b, x, p, q, m, start, k, i);
        if low <= i < c {
          DivisorGrows(p, q, e, start + far);
          DividesChain(Divisor(p, q, e), Divisor(p, q, start + far), b);
        }
      }
    }
  }

  lemma ExponentOf(a: nat)
    requires a < TWO32
    ensures ToI32(a) == if a < TWO31 then a else a - TWO32
  {
  }

  /** The delays of a schedule are whole exactly if the terms on both sides of the wrap are. */
  lemma AllWholeSides(s: Strategy, n: nat)
    requires Growing(s) && n <= TWO32
    ensures var b, x, m := s.baseDelay, s.multiplier, s.maxDelay;
            AllWhole(s, n) <==> WholeTerms(b, x, m, 0, Before(n)) && WholeTerms(b, x, m, I32_MIN, Behind(n))
  {
    hide Lifted, Term, IsWhole, ToI32;
    var b, x, m := s.baseDelay, s.multiplier, s.maxDelay;
    if AllWhole(s, n) {
      forall e | 0 <= e < 0 + Before(n)
        ensures IsWhole(Term(b, x, m, e))
      {
        LiftedIsTerm(s, e);
        ExponentOf(e);
        assert IsWhole(Lifted(s, e));
      }
      forall e | I32_MIN <= e < I32_MIN + Behind(n)
        ensures IsWhole(Term(b, x, m, e))
      {
        var a := e + TWO32;
        LiftedIsTerm(s, a);
        ExponentOf(a);
        assert IsWhole(Lifted(s, a));
      }
    }
    if WholeTerms(b, x, m, 0, Before(n)) && WholeTerms(b, x, m, I32_MIN, Behind(n)) {
      forall a: nat | a < n
        ensures IsWhole(Lifted(s, a))
      {
        LiftedIsTerm(s, a);
        ExponentOf(a);
      }
    }
  }

  /** Truncation loses nothing: with the multiplier p / q in lowest terms, q^(c - 1) divides the base, c being the number
      of terms below the cap before the wrap; and behind it p^k does, where base / multiplier^k is the first term there of
      at least a second, if it is below the cap. */
  ghost predicate LosesNothing(s: Strategy, p: nat, q: nat, n: nat)
    requires Growing(s) && p >= 1 && q >= 1
  {
    var b, x, m := s.baseDelay, s.multiplier, s.maxDelay;
    FurthestDivides(b, x, p, q, m, 0, Before(n)) && FurthestDivides(b, x, p, q, m, I32_MIN, Behind(n))
  }

  lemma AllWholeExactly(s: Strategy, p: nat, q: nat, n: nat)
    requires Growing(s) && n <= TWO32 && InLowestTerms(s.multiplier, p, q)
    ensures AllWhole(s, n) <==> LosesNothing(s, p, q, n)
  {
    hide AllWhole, WholeTerms, FurthestDivides, Coprime;
    var b, x, m := s.baseDelay, s.multiplier, s.maxDelay;
    AllWholeSides(s, n);
    WholeTermsExactly(b, x, p, q, m, 0, Before(n));
    WholeTermsExactly(b, x, p, q, m, I32_MIN, Behind(n));
  }

  /** In numbers, before the wrap. */
  lemma LosesNothingBefore(s: Strategy, p: nat, q: nat, n: nat)
    requires Growing(s) && p >= 1 && q >= 1 && n <= TWO31
    ensures var c := Below(s.baseDelay, s.multiplier, s.maxDelay as real, 0, n);
            && (c > 0 ==> NatPower(q, c - 1) >= 1)
            && (LosesNothing(s, p, q, n) <==> c == 0 || Divides(NatPower(q, c - 1), s.baseDelay))
  {
    hide Divides, Factor, Grown;
    var b, x, m := s.baseDelay, s.multiplier, s.maxDelay;
    var c := Below(b, x, m as real, 0, n);
    assert Before(n) == n && Behind(n) == 0;
    NoneSunk(b, x, n);
    if c > 0 {
      DivisorIs(p, q, c - 1);
    }
  }

  /** The total of a schedule against the closed form: never more, and equal exactly if truncation loses nothing. */
  lemma ExponentialTotal(s: Strategy, p: nat, q: nat, n: nat)
    requires Growing(s) && n <= s.maxAttempts && InLowestTerms(s.multiplier, p, q)
    ensures var total := (s.multiplier - 1.0) * TotalDelay(s, n) as real;
            && total <= ClosedForm(s, n)
            && (total == ClosedForm(s, n) <==> s.multiplier == 1.0 || LosesNothing(s, p, q, n))
  {
    hide ClosedForm, TotalDelay, TotalLifted, AllWhole, LosesNothing, Coprime;
    TruncationLoses(s, n);
    SeriesTotal(s, n);
    AllWholeExactly(s, p, q, n);
    Scaled(s.multiplier - 1.0, TotalDelay(s, n) as real, TotalLifted(s, n));
  }

  lemma Scaled(f: real, t: real, u: real)
    requires f >= 0.0 && t <= u
    ensures f * t <= f * u
    ensures f * t == f * u <==> f == 0.0 || t == u
  {
    assert f * (u - t) == f * u - f * t;
  }

  /** A whole multiplier loses nothing before the wrap, so its total is the closed form exactly if nothing is lost behind
      it. */
  lemma WholeMultiplierTotal(s: Strategy, k: nat, n: nat)
    requires Growing(s) && s.multiplier == k as real && n <= s.maxAttempts
    ensures (s.multiplier - 1.0) * TotalDelay(s, n) as real == ClosedForm(s, n) <==>
            k == 1 || FurthestDivides(s.baseDelay, s.multiplier, k, 1, s.maxDelay, I32_MIN, Behind(n))
    ensures n <= TWO31 ==> (s.multiplier - 1.0) * TotalDelay(s, n) as real == ClosedForm(s, n)
  {
    hide ClosedForm, TotalDelay, Factor, FurthestDivides, Below;
    OneIsCoprime(k);
    ExponentialTotal(s, k, 1, n);
    WholeBefore(s.baseDelay, s.multiplier, k, s.maxDelay, Before(n));
    if n <= TWO31 {
      NothingFurther(s.baseDelay, s.multiplier, k, s.maxDelay, I32_MIN, Behind(n));
    }
  }

  lemma WholeBefore(b: nat, x: real, k: nat, m: nat, n: nat)
    requires x >= 1.0 && k >= 1 && b >= 1
    ensures FurthestDivides(b, x, k, 1, m, 0, n)
  {
    hide Factor, Below;
    var c := Below(b, x, m as real, 0, n);
    NoneSunk(b, x, n);
    if c > 0 {
      DivisorIs(k, 1, c - 1);
      NatPowerOfOne(c - 1);
    }
  }

  lemma NothingFurther(b: nat, x: real, k: nat, m: nat, start: int, n: nat)
    requires x >= 1.0 && k >= 1 && n == 0
    ensures FurthestDivides(b, x, k, 1, m, start, n)
  {
    hide Factor;
  }

  lemma OneIsCoprime(k: nat)
    ensures Coprime(k, 1)
  {
    forall d: nat | d >= 1 && Divides(d, 1)
      ensures d == 1
    {
    }
  }

  /** A multiplier that is not whole, from a base of one second, loses from the second retry on, if the cap allows it. */
  lemma OneSecondLoses(s: Strategy, p: nat, q: nat, n: nat)
    requires Growing(s) && n <= s.maxAttempts && InLowestTerms(s.multiplier, p, q) && q >= 2 && s.baseDelay == 1
    requires Below(1, s.multiplier, s.maxDelay as real, 0, Before(n)) >= 2
    ensures TotalDelay(s, n) as real < TotalLifted(s, n)
  {
    hide TotalDelay, TotalLifted, AllWhole, Below, Factor, Coprime;
    var c := Below(1, s.multiplier, s.maxDelay as real, 0, Before(n));
    TruncationLoses(s, n);
    AllWholeExactly(s, p, q, n);
    NoneSunk(1, s.multiplier, Before(n));
    NatPowerPositive(q, c - 2);
    AtLeastOnce(NatPower(q, c - 2), q);
    assert NatPower(q, c - 1) >= 2;
  }
}
