/** config.rs: retry schedules and polling delays. f64 is modelled by real, so rounding does not arise; the truncating
    and wrapping integer conversions are written out. */
module Backoff {
  import opened Options

  const U64_MAX: nat := 0xFFFF_FFFF_FFFF_FFFF
  const TWO31: nat := 0x8000_0000
  const TWO32: nat := 0x1_0000_0000
  const I32_MIN: int := -0x8000_0000

  type U32 = n: nat | n < TWO32

  /** A Duration in seconds. */
  type Seconds = n: nat | n <= U64_MAX

  datatype JitterStrategy = NoJitter | Full | Half

  function MinReal(a: real, b: real): real { if a < b then a else b }
  function MaxReal(a: real, b: real): real { if a < b then b else a }
  function MinNat(a: nat, b: nat): nat { if a < b then a else b }
  function MaxNat(a: nat, b: nat): nat { if a < b then b else a }

  /** deterministic_random_factor of the attempt: some number from 0 to 1. One is included, since the division of u64
      values can round up to it. */
  type Noise = u: real | 0.0 <= u <= 1.0

  /** Full jitter stays within the delay, half jitter in its upper half. */
  function Apply(jitter: JitterStrategy, delay: real, noise: Noise): (r: real)
    ensures jitter == NoJitter ==> r == delay
    ensures delay >= 0.0 ==> (if jitter == Half then delay / 2.0 else 0.0) <= r <= delay
    ensures delay < 0.0 ==> r <= 0.0
  {
    match jitter
    case NoJitter => delay
    case Full => Scale(noise, delay); noise * delay
    case Half =>
      var half := delay / 2.0;
      Scale(noise, half);
      half + noise * half
  }

  lemma Scale(u: Noise, d: real)
    ensures d >= 0.0 ==> 0.0 <= u * d <= d
    ensures d < 0.0 ==> u * d <= 0.0
  {
    if d >= 0.0 {
      assert (1.0 - u) * d >= 0.0;
    }
  }

  /** The conversion from f64 to u64: toward zero, saturating. */
  function Truncate(x: real): Seconds {
    if x < 0.0 then 0 else MinNat(x.Floor, U64_MAX)
  }

  /** The common end of the schedules: jitter, at least one second, whole seconds. */
  function Whole(jitter: JitterStrategy, capped: real, noise: Noise): Seconds {
    Truncate(MaxReal(Apply(jitter, capped, noise), 1.0))
  }

  /** The conversion of an unsigned number to i32: the low 32 bits, read as two's complement. */
  function ToI32(n: int): int {
    var low := n % TWO32;
    if low < TWO31 then low else low - TWO32
  }

  function Power(x: real, n: nat): real {
    if n == 0 then 1.0 else x * Power(x, n - 1)
  }

  /** The delay before the cap. */
  function Grown(base: nat, factor: real): real { base as real * factor }

  /** 2^1024. Rounding aside, f64 is infinite from here on. */
  function FloatLimit(): real {
    var two128 := 340282366920938463463374607431768211456.0;
    var two256 := two128 * two128;
    var two512 := two256 * two256;
    two512 * two512
  }

  /** x.powi(e) is infinite. */
  predicate Infinite(x: real, e: int) {
    if e >= 0 then AtLimit(Power(x, e)) else Power(x, -e) == 0.0 || AtLimit(1.0 / Power(x, -e))
  }

  predicate AtLimit(f: real) { f >= FloatLimit() || f <= -FloatLimit() }

  /** min(base * x.powi(e), cap). A base of zero times an infinite power is NaN, and the minimum of NaN and the cap is the
      cap. For other bases the cap hides that a power is infinite (InfinityIsInvisible), so that its exact value stands
      here, but for the power of zero, which has none. */
  function CappedPower(base: Seconds, x: real, e: int, cap: Seconds): real {
    if base == 0 && Infinite(x, e) then cap as real
    else if e >= 0 then MinReal(Grown(base, Power(x, e)), cap as real)
    else if Power(x, -e) == 0.0 then cap as real
    else MinReal(Grown(base, 1.0 / Power(x, -e)), cap as real)
  }

  // ---------- the strategies ----------

  datatype Strategy =
    | Exponential(maxAttempts: U32, baseDelay: Seconds, maxDelay: Seconds, multiplier: real, jitter: JitterStrategy)
    | Linear(maxAttempts: U32, baseDelay: Seconds, maxDelay: Seconds, jitter: JitterStrategy)
    | Fixed(maxAttempts: U32, baseDelay: Seconds, jitter: JitterStrategy)
    | NoRetry

  function SaturatingMul(a: nat, b: nat): Seconds {
    MinNat(a * b, U64_MAX)
  }

  /** The delay before jitter. */
  function Capped(s: Strategy, attempt: nat): real
    requires !s.NoRetry?
  {
    match s
    case Exponential(_, base, cap, multiplier, _) => CappedPower(base, multiplier, ToI32(attempt), cap)
    case Linear(_, base, cap, _) => MinNat(SaturatingMul(base, attempt + 1), cap) as real
    case Fixed(_, base, _) => base as real
  }

  function NextDelay(s: Strategy, attempt: nat, noise: Noise): Option<Seconds> {
    if s.NoRetry? || attempt >= s.maxAttempts then None
    else Some(Whole(s.jitter, Capped(s, attempt), noise))
  }

  /** The most a strategy may wait. */
  function Ceiling(s: Strategy): nat
    requires !s.NoRetry?
  {
    MaxNat(1, if s.Fixed? then s.baseDelay else s.maxDelay)
  }

  // ---------- range ----------

  lemma WholeRange(jitter: JitterStrategy, capped: real, noise: Noise, top: Seconds)
    requires capped <= top as real
    ensures 1 <= Whole(jitter, capped, noise) <= MaxNat(1, top)
  {
    hide Apply;
    var x := MaxReal(Apply(jitter, capped, noise), 1.0);
    assert x <= MaxNat(1, top) as real;
    assert x.Floor <= MaxNat(1, top);
  }

  /** Every strategy, with any jitter and any multiplier: a delay for exactly the attempts below max_attempts, each of at
      least one second and at most the cap. */
  lemma DelaysInRange(s: Strategy, attempt: nat, noise: Noise)
    ensures NextDelay(s, attempt, noise).Some? <==> !s.NoRetry? && attempt < s.maxAttempts
    ensures NextDelay(s, attempt, noise).Some? ==> 1 <= NextDelay(s, attempt, noise).value <= Ceiling(s)
  {
    if !s.NoRetry? && attempt < s.maxAttempts {
      WholeRange(s.jitter, Capped(s, attempt), noise, if s.Fixed? then s.baseDelay else s.maxDelay);
    }
  }

  /** The saturation of the multiplication cannot be seen behind the cap. */
  lemma SaturationIsInvisible(base: Seconds, attempt: nat, cap: Seconds)
    ensures MinNat(SaturatingMul(base, attempt + 1), cap) == MinNat(base * (attempt + 1), cap)
  {
  }

  lemma LimitIsLarge()
    ensures FloatLimit() > U64_MAX as real
  {
  }

  lemma Outgrows(b: nat, f: real, limit: real)
    requires b >= 1 && limit >= 0.0
    ensures f >= limit ==> Grown(b, f) >= limit
    ensures f <= -limit ==> Grown(b, f) <= -limit
  {
    assert b as real * f == f + (b - 1) as real * f;
    if f >= limit {
      assert (b - 1) as real * f >= 0.0;
    } else if f <= -limit {
      assert (b - 1) as real * (-f) >= 0.0;
    }
  }

  /** Behind the cap an infinite power is the cap, or, to the negative side, below every delay: just like its exact
      value. Only a base of zero makes it visible. */
  lemma InfinityIsInvisible(base: Seconds, x: real, e: int, cap: Seconds)
    requires base >= 1 && Infinite(x, e)
    ensures CappedPower(base, x, e, cap) == cap as real || CappedPower(base, x, e, cap) < 0.0
  {
    hide FloatLimit, Power, Grown;
    LimitIsLarge();
    Outgrows(base, if e >= 0 then Power(x, e) else if Power(x, -e) == 0.0 then 0.0 else 1.0 / Power(x, -e), FloatLimit());
  }

  // ---------- order ----------

  lemma WholeMonotone(a: real, b: real)
    requires a <= b
    ensures Whole(NoJitter, a, 0.0) <= Whole(NoJitter, b, 0.0)
  {
    assert MaxReal(a, 1.0).Floor <= MaxReal(b, 1.0).Floor;
  }

  lemma {:induction false} PowerMonotone(x: real, n: nat, m: nat)
    requires x >= 1.0 && n <= m
    ensures 1.0 <= Power(x, n) <= Power(x, m)
    decreases m
  {
    if n < m {
      PowerMonotone(x, n, m - 1);
      GrowsBy(x, Power(x, m - 1));
    } else if n > 0 {
      PowerMonotone(x, n - 1, m - 1);
      GrowsBy(x, Power(x, n - 1));
    }
  }

  lemma GrowsBy(x: real, y: real)
    requires x >= 1.0 && y >= 1.0
    ensures x * y >= y
  {
    assert (x - 1.0) * y >= 0.0;
  }

  lemma Product(b: real, x: real, y: real)
    requires b >= 0.0 && x <= y
    ensures b * x <= b * y
  {
    assert b * (y - x) >= 0.0;
  }

  lemma Positive(a: real, b: real)
    requires b > 0.0 && a * b >= 0.0
    ensures a >= 0.0
  {
  }

  lemma Inverse(x: real, y: real)
    requires 1.0 <= x <= y
    ensures 0.0 <= 1.0 / y <= 1.0 / x <= 1.0
  {
    var p, q := 1.0 / x, 1.0 / y;
    assert p * x == 1.0 && q * y == 1.0;
    GrowsBy(x, y);
    assert (p - q) * (x * y) == p * x * y - q * y * x == y - x;
    Positive(p - q, x * y);
    Positive(q, y);
    assert (1.0 - p) * x == x - 1.0;
    Positive(1.0 - p, x);
  }

  /** The factor that the base is multiplied with, for a multiplier of at least one. */
  function Factor(x: real, e: int): real
    requires x >= 1.0
  {
    PowerMonotone(x, 0, if e >= 0 then e else -e);
    if e >= 0 then Power(x, e) else 1.0 / Power(x, -e)
  }

  /** The delay for a factor of at least zero. */
  function CappedAt(base: Seconds, factor: real, cap: Seconds): real {
    if base == 0 && factor >= FloatLimit() then cap as real else MinReal(Grown(base, factor), cap as real)
  }

  lemma FactorPositive(x: real, e: int)
    requires x >= 1.0
    ensures Factor(x, e) > 0.0
    ensures e < 0 ==> Power(x, -e) >= 1.0 && Factor(x, e) <= 1.0
  {
    PowerMonotone(x, 0, if e >= 0 then e else -e);
    if e < 0 {
      Inverse(1.0, Power(x, -e));
      assert Factor(x, e) * Power(x, -e) == 1.0;
    }
  }

  lemma CappedFactor(base: Seconds, x: real, e: int, cap: Seconds)
    requires x >= 1.0
    ensures CappedPower(base, x, e, cap) == CappedAt(base, Factor(x, e), cap)
  {
    hide FloatLimit, MinReal, Grown;
    LimitIsLarge();
    FactorPositive(x, e);
  }

  lemma CappedAtRange(base: Seconds, f: real, cap: Seconds)
    requires f >= 0.0
    ensures 0.0 <= CappedAt(base, f, cap) <= cap as real
  {
    hide FloatLimit;
    Product(base as real, 0.0, f);
  }

  /** The factor rises with the exponent, through zero. */
  lemma FactorMonotone(x: real, e: int, f: int)
    requires x >= 1.0 && e <= f
    ensures Factor(x, e) <= Factor(x, f)
  {
    if e >= 0 {
      PowerMonotone(x, e, f);
    } else if f < 0 {
      PowerMonotone(x, 0, -f);
      PowerMonotone(x, -f, -e);
      Inverse(Power(x, -f), Power(x, -e));
    } else {
      PowerMonotone(x, 0, -e);
      PowerMonotone(x, 0, f);
      Inverse(1.0, Power(x, -e));
    }
  }

  lemma CappedPowerMonotone(base: Seconds, x: real, e: int, f: int, cap: Seconds)
    requires x >= 1.0 && e <= f
    ensures CappedPower(base, x, e, cap) <= CappedPower(base, x, f, cap)
  {
    hide CappedPower, Factor, CappedAt;
    CappedFactor(base, x, e, cap);
    CappedFactor(base, x, f, cap);
    FactorPositive(x, e);
    FactorMonotone(x, e, f);
    CappedAtMonotone(base, Factor(x, e), Factor(x, f), cap);
  }

  lemma CappedAtMonotone(base: Seconds, f: real, g: real, cap: Seconds)
    requires 0.0 <= f <= g
    ensures CappedAt(base, f, cap) <= CappedAt(base, g, cap)
  {
    hide FloatLimit, Grown, MinReal;
    GrownMonotone(base, f, g);
    MinMonotone(Grown(base, f), Grown(base, g), cap as real);
    if base == 0 {
      NothingGrows(f, cap);
    }
  }

  lemma NothingGrows(f: real, m: nat)
    ensures MinReal(Grown(0, f), m as real) == 0.0
  {
  }

  lemma GrownMonotone(b: nat, f: real, g: real)
    requires f <= g
    ensures Grown(b, f) <= Grown(b, g)
  {
    Product(b as real, f, g);
  }

  lemma MinMonotone(a: real, b: real, cap: real)
    requires a <= b
    ensures MinReal(a, cap) <= MinReal(b, cap)
  {
  }

  predicate Rising(s: Strategy) {
    !s.NoRetry? && s.jitter == NoJitter && (s.Exponential? ==> s.multiplier >= 1.0)
  }

  /** A schedule without jitter that gives this attempt. */
  predicate Waits(s: Strategy, attempt: nat) {
    !s.NoRetry? && s.jitter == NoJitter && attempt < s.maxAttempts
  }

  /** What next_delay gives it. */
  function Delay(s: Strategy, attempt: nat): (d: Seconds)
    requires Waits(s, attempt)
    ensures NextDelay(s, attempt, 0.0) == Some(d)
  {
    NextDelay(s, attempt, 0.0).value
  }

  /** Without jitter no delay is shorter than an earlier one, on either side of the wrap of the exponent. */
  lemma DelaysRise(s: Strategy, a: nat, b: nat)
    requires Rising(s) && a <= b < s.maxAttempts
    requires s.Exponential? ==> (a < TWO31 <==> b < TWO31)
    ensures Delay(s, a) <= Delay(s, b)
  {
    hide CappedPower, Whole;
    if s.Exponential? {
      CappedPowerMonotone(s.baseDelay, s.multiplier, ToI32(a), ToI32(b), s.maxDelay);
    } else if s.Linear? {
      assert s.baseDelay * (a + 1) <= s.baseDelay * (b + 1) by { assert s.baseDelay * (b - a) >= 0; }
    }
    WholeMonotone(Capped(s, a), Capped(s, b));
  }

  /** The delay stays level over the wrap of the exponent. */
  predicate LevelAtWrap(base: Seconds, cap: Seconds, x: real) {
    || x == 1.0 || cap <= 1
    || (base == 0 && Power(x, TWO31 - 1) < FloatLimit())
    || cap as real * Power(x, TWO31) <= base as real
    || (base == 1 && Power(x, TWO31 - 1) < 2.0)
  }

  lemma WholeIsFloor(x: real)
    requires x <= U64_MAX as real
    ensures Whole(NoJitter, x, 0.0) == MaxReal(x, 1.0).Floor
  {
  }

  lemma QuotientCompares(b: real, m: real, q: real, d: real)
    requires q > 0.0 && d * q == b
    ensures m * q <= b <==> m <= d
  {
    assert (d - m) * q == b - m * q;
    if m * q <= b {
      Positive(d - m, q);
    } else if m <= d {
      NotNegative(d - m, q);
    }
  }

  lemma NotNegative(a: real, b: real)
    requires a >= 0.0 && b >= 0.0
    ensures a * b >= 0.0
  {
  }

  lemma FloorBelow(x: real, k: int)
    ensures x < k as real <==> x.Floor < k
  {
  }

  /** The floors of two numbers, one at least b and one below it, both capped at m. */
  lemma FloorsMeet(b: nat, m: nat, u: real, d: real)
    requires b >= 1 && m >= 2 && d < b as real <= u
    ensures MaxReal(MinReal(u, m as real), 1.0).Floor == MaxReal(MinReal(d, m as real), 1.0).Floor <==>
            m as real <= d || (b == 1 && u < 2.0)
  {
    var high, low := MaxReal(MinReal(u, m as real), 1.0), MaxReal(MinReal(d, m as real), 1.0);
    if m as real <= d {
      assert high == low == m as real;
    } else {
      var k := if b == 1 then 2 else MinNat(b, m);
      FloorBelow(low, k);
      FloorBelow(high, k);
      FloorBelow(low, 1);
      FloorBelow(high, 1);
    }
  }

  lemma AtLeast(b: real, p: real)
    requires b >= 0.0 && p >= 1.0
    ensures b <= b * p
  {
    Product(b, 1.0, p);
  }

  lemma GrownAtLeast(b: nat, f: real)
    requires f >= 1.0
    ensures Grown(b, f) >= b as real
    ensures b == 1 ==> Grown(b, f) == f
  {
    AtLeast(b as real, f);
  }

  lemma QuotientBelow(b: real, q: real, d: real)
    requires b > 0.0 && q > 1.0 && d * q == b
    ensures d < b
  {
    var gap, more := d - b, q - 1.0;
    assert gap * q == d * q - b * q;
    assert b * q == b + b * more && b * more > 0.0;
    if gap >= 0.0 {
      NotNegative(gap, q);
    }
  }

  lemma FloorsAtWrap(b: nat, m: nat, p: real, q: real, d: real)
    requires b >= 1 && m >= 2 && 1.0 <= p < q && d * q == b as real
    ensures MaxReal(MinReal(Grown(b, p), m as real), 1.0).Floor == MaxReal(MinReal(d, m as real), 1.0).Floor <==>
            m as real * q <= b as real || (b == 1 && p < 2.0)
  {
    hide MinReal, MaxReal, Grown;
    GrownAtLeast(b, p);
    QuotientBelow(b as real, q, d);
    QuotientCompares(b as real, m as real, q, d);
    FloorsMeet(b, m, Grown(b, p), d);
  }

  lemma FactorsAtWrap(x: real, n: nat)
    requires x >= 1.0 && n == TWO31
    ensures Factor(x, n - 1) == Power(x, n - 1) >= 1.0
    ensures Power(x, n) == x * Power(x, n - 1) && 0.0 <= Factor(x, 0 - n) <= 1.0
    ensures Factor(x, 0 - n) * Power(x, n) == 1.0
  {
    var e := 0 - n;
    assert -e == n;
    var q := Power(x, -e);
    PowerMonotone(x, 0, n - 1);
    PowerMonotone(x, 0, n);
    Inverse(1.0, q);
    assert Factor(x, e) == 1.0 / q && 1.0 / q * q == 1.0;
  }

  lemma CappedAtWrap(s: Strategy, n: nat)
    requires s.Exponential? && s.multiplier >= 1.0 && n == TWO31
    ensures Capped(s, n - 1) == CappedAt(s.baseDelay, Factor(s.multiplier, n - 1), s.maxDelay)
    ensures Capped(s, n) == CappedAt(s.baseDelay, Factor(s.multiplier, 0 - n), s.maxDelay)
  {
    hide Factor, CappedPower, CappedAt;
    assert ToI32(n) == 0 - n && ToI32(n - 1) == n - 1;
    CappedFactor(s.baseDelay, s.multiplier, n - 1, s.maxDelay);
    CappedFactor(s.baseDelay, s.multiplier, 0 - n, s.maxDelay);
  }

  lemma Unit(b: nat, f: real, q: real)
    requires f * q == 1.0
    ensures Grown(b, f) * q == b as real
  {
    assert b as real * f * q == b as real * (f * q);
  }

  lemma LevelIs(base: Seconds, cap: Seconds, x: real, n: nat)
    requires n == TWO31
    ensures LevelAtWrap(base, cap, x) <==>
            || x == 1.0 || cap <= 1
            || (base == 0 && Power(x, n - 1) < FloatLimit())
            || cap as real * Power(x, n) <= base as real
            || (base == 1 && Power(x, n - 1) < 2.0)
  {
    hide Power, FloatLimit;
  }

  lemma FactorOfOne(p: real, q: real, f: real)
    requires q == 1.0 * p && f * q == 1.0 && p == 1.0
    ensures f == p
  {
  }

  lemma SmallAreOne(a: real, c: real)
    requires a <= 1.0 && c <= 1.0
    ensures MaxReal(a, 1.0).Floor == MaxReal(c, 1.0).Floor
  {
  }

  lemma WholeFloor(m: nat)
    ensures MaxReal(m as real, 1.0).Floor == MaxNat(1, m)
  {
  }

  lemma PositiveBase(b: Seconds, f: real, m: Seconds)
    requires b >= 1
    ensures CappedAt(b, f, m) == MinReal(Grown(b, f), m as real)
  {
  }

  /** The delay of a zero base: nothing, or the cap where the power is infinite. */
  lemma ZeroBaseDelay(f: real, m: Seconds)
    ensures MaxReal(CappedAt(0, f, m), 1.0).Floor == if f >= FloatLimit() then MaxNat(1, m) else 1
  {
    hide FloatLimit;
    WholeFloor(m);
    NothingGrows(f, m);
    WholeFloor(0);
  }

  lemma NeverSmallProduct(m: nat, q: real)
    requires m >= 1 && q > 0.0
    ensures m as real * q > 0.0
  {
  }

  /** The same for the numbers alone: f is 1 / q. */
  lemma FloorsEqual(b: Seconds, m: Seconds, x: real, p: real, q: real, f: real)
    requires x >= 1.0 && p >= 1.0 && q == x * p && f * q == 1.0 && 0.0 <= f <= 1.0
    requires x == 1.0 ==> p == 1.0
    ensures MaxReal(CappedAt(b, p, m), 1.0).Floor == MaxReal(CappedAt(b, f, m), 1.0).Floor <==>
            || x == 1.0 || m <= 1
            || (b == 0 && p < FloatLimit())
            || m as real * q <= b as real
            || (b == 1 && p < 2.0)
  {
    hide MinReal, MaxReal, Grown, CappedAt, FloatLimit;
    if x == 1.0 {
      FactorOfOne(p, q, f);
    } else if m <= 1 {
      CappedAtRange(b, p, m);
      CappedAtRange(b, f, m);
      SmallAreOne(CappedAt(b, p, m), CappedAt(b, f, m));
    } else {
      Grows(x, p);
      if b == 0 {
        LimitIsLarge();
        ZeroBaseDelay(p, m);
        ZeroBaseDelay(f, m);
        NeverSmallProduct(m, q);
      } else {
        PositiveBase(b, p, m);
        PositiveBase(b, f, m);
        Unit(b, f, q);
        FloorsAtWrap(b, m, p, q, Grown(b, f));
      }
    }
  }

  lemma WrapLevel(s: Strategy, n: nat)
    requires Rising(s) && s.Exponential? && n == TWO31 < s.maxAttempts
    ensures Delay(s, n - 1) == Delay(s, n) <==> LevelAtWrap(s.baseDelay, s.maxDelay, s.multiplier)
  {
    hide Whole, Power, Factor, Capped, CappedAt, MaxReal, LevelAtWrap, FloatLimit;
    var x := s.multiplier;
    LevelIs(s.baseDelay, s.maxDelay, x, n);
    FactorsAtWrap(x, n);
    CappedAtWrap(s, n);
    CappedAtRange(s.baseDelay, Factor(x, n - 1), s.maxDelay);
    CappedAtRange(s.baseDelay, Factor(x, 0 - n), s.maxDelay);
    WholeIsFloor(Capped(s, n - 1));
    WholeIsFloor(Capped(s, n));
    if x == 1.0 {
      PowerOfOne(n - 1);
    }
    FloorsEqual(s.baseDelay, s.maxDelay, x, Factor(x, n - 1), Power(x, n), Factor(x, 0 - n));
  }

  lemma Grows(x: real, p: real)
    requires x > 1.0 && p >= 1.0
    ensures p < x * p == p * x
  {
    assert (x - 1.0) * p > 0.0;
  }

  lemma {:induction false} PowerOfOne(n: nat)
    ensures Power(1.0, n) == 1.0
  {
    if n > 0 {
      PowerOfOne(n - 1);
    }
  }

  /** A whole exponential schedule is non-decreasing exactly if it is too short for the exponent to wrap to negative, or
      it does not grow at all before the wrap, or the base is zero and the power stays finite, or the base is so long and
      the growth so slow that the cap outlasts the wrap, or the base is a second and the growth does not reach two. */
  lemma RisesExactly(s: Strategy)
    requires Rising(s) && s.Exponential?
    ensures (forall a: nat, b: nat :: a <= b < s.maxAttempts ==> Delay(s, a) <= Delay(s, b)) <==>
            s.maxAttempts <= TWO31 || LevelAtWrap(s.baseDelay, s.maxDelay, s.multiplier)
  {
    hide Delay, LevelAtWrap, NextDelay;
    if s.maxAttempts > TWO31 {
      WrapFalls(s);
      WrapLevel(s, TWO31);
    }
    if s.maxAttempts <= TWO31 || LevelAtWrap(s.baseDelay, s.maxDelay, s.multiplier) {
      forall a: nat, b: nat | a <= b < s.maxAttempts
        ensures Delay(s, a) <= Delay(s, b)
      {
        if a < TWO31 <= b {
          DelaysRise(s, a, TWO31 - 1);
          DelaysRise(s, TWO31, b);
        } else {
          DelaysRise(s, a, b);
        }
      }
    }
  }

  lemma WrapFalls(s: Strategy)
    requires Rising(s) && s.Exponential? && s.maxAttempts > TWO31
    ensures Delay(s, TWO31) <= Delay(s, TWO31 - 1)
  {
    CappedPowerMonotone(s.baseDelay, s.multiplier, ToI32(TWO31), ToI32(TWO31 - 1), s.maxDelay);
    WholeMonotone(Capped(s, TWO31), Capped(s, TWO31 - 1));
  }

  lemma {:induction false} PowerTwice(x: real, n: nat, m: nat)
    requires m == 2 * n
    ensures Power(x, m) == Power(x, n) * Power(x, n)
  {
    if n > 0 {
      PowerTwice(x, n - 1, m - 2);
      NextPower(x, n);
      NextPower(x, m);
      NextPower(x, m - 1);
      hide Power;
      SquareStep(x, Power(x, n - 1), Power(x, n), Power(x, m - 2), Power(x, m - 1), Power(x, m));
    }
  }

  lemma SquareStep(x: real, y: real, y2: real, z: real, z2: real, z3: real)
    requires y2 == x * y && z == y * y && z2 == x * z && z3 == x * z2
    ensures z3 == y2 * y2
  {
    assert x * (x * (y * y)) == x * y * (x * y);
  }

  lemma PowerOfTwo128(n: nat)
    requires n == 128
    ensures Power(2.0, n) == 340282366920938463463374607431768211456.0
  {
    var k: nat := 1;
    assert Power(2.0, k) == 2.0 * Power(2.0, k - 1) == 2.0;
    hide Power;
    PowerTwice(2.0, k, 2);
    PowerTwice(2.0, 2, 4);
    PowerTwice(2.0, 4, 8);
    PowerTwice(2.0, 8, 16);
    PowerTwice(2.0, 16, 32);
    PowerTwice(2.0, 32, 64);
    PowerTwice(2.0, 64, 128);
  }

  /** The limit is the 1024th power of two. */
  lemma LimitIsPower(n: nat)
    requires n == 1024
    ensures Power(2.0, n) == FloatLimit()
  {
    hide Power;
    PowerOfTwo128(128);
    PowerTwice(2.0, 128, 256);
    PowerTwice(2.0, 256, 512);
    PowerTwice(2.0, 512, 1024);
  }

  lemma ExponentialDelay(s: Strategy, a: nat)
    requires Rising(s) && s.Exponential? && a < s.maxAttempts
    ensures Delay(s, a) == MaxReal(CappedAt(s.baseDelay, Factor(s.multiplier, ToI32(a)), s.maxDelay), 1.0).Floor
  {
    hide CappedAt, CappedPower, Factor, Whole, MaxReal;
    var e := ToI32(a);
    CappedFactor(s.baseDelay, s.multiplier, e, s.maxDelay);
    FactorPositive(s.multiplier, e);
    CappedAtRange(s.baseDelay, Factor(s.multiplier, e), s.maxDelay);
    WholeIsFloor(Capped(s, a));
  }

  lemma DelayAtFloor(b: Seconds, f: real, m: Seconds)
    requires b >= 1 && m >= 1
    ensures b as real * f >= m as real ==> MaxReal(CappedAt(b, f, m), 1.0).Floor == m
    ensures b as real * f <= 1.0 ==> MaxReal(CappedAt(b, f, m), 1.0).Floor == 1
  {
    hide FloatLimit;
    WholeFloor(m);
    WholeFloor(1);
  }

  /** Powers of two on both sides of the wrap: past any limit up to 2^31, and nothing from there on. */
  lemma PowersAtWrap(n: nat)
    requires n == TWO31
    ensures Factor(2.0, n - 1) >= n as real && Factor(2.0, n - 1) >= FloatLimit()
    ensures 0.0 <= 10.0 * Factor(2.0, 0 - n) <= 1.0 && Factor(2.0, 0 - n) < FloatLimit()
  {
    hide Factor, Power, FloatLimit;
    FactorsAtWrap(2.0, n);
    PowersOfTwo(n - 1);
    LimitIsPower(1024);
    LimitIsLarge();
    PowerMonotone(2.0, 1024, n - 1);
    var f, q := Factor(2.0, 0 - n), Power(2.0, n);
    assert (0.1 - f) * q == 0.1 * q - f * q;
    Positive(0.1 - f, q);
  }

  /** The wrap shows: doubling from 10 seconds up to an hour, attempt 2^31 waits one second again. */
  lemma WrapExample(n: nat)
    requires n == TWO31
    ensures var s := Exponential(n + 1, 10, 3600, 2.0, NoJitter);
            Delay(s, n - 1) == 3600 && Delay(s, n) == 1
  {
    hide Factor, CappedAt, Delay, NextDelay;
    var s := Exponential(n + 1, 10, 3600, 2.0, NoJitter);
    assert ToI32(n) == 0 - n && ToI32(n - 1) == n - 1;
    PowersAtWrap(n);
    ExponentialDelay(s, n - 1);
    ExponentialDelay(s, n);
    DelayAtFloor(10, Factor(2.0, n - 1), 3600);
    DelayAtFloor(10, Factor(2.0, 0 - n), 3600);
  }

  /** A zero base shows the infinite power: doubling from 0 seconds up to an hour waits one second up to attempt 1023, an
      hour from attempt 1024, and one second again from attempt 2^31. */
  lemma ZeroBaseExample(k: nat, n: nat)
    requires k == 1024 && n == TWO31
    ensures var s := Exponential(n + 1, 0, 3600, 2.0, NoJitter);
            Delay(s, k - 1) == 1 && Delay(s, k) == 3600 && Delay(s, n - 1) == 3600 && Delay(s, n) == 1
  {
    hide Factor, CappedAt, Delay, FloatLimit, Power, MaxReal, NextDelay;
    var s := Exponential(n + 1, 0, 3600, 2.0, NoJitter);
    assert ToI32(n) == 0 - n && ToI32(n - 1) == n - 1 && ToI32(k) == k && ToI32(k - 1) == k - 1;
    PowersAtWrap(n);
    LimitIsPower(k);
    LimitIsLarge();
    FactorIsPower(2.0, k);
    FactorIsPower(2.0, k - 1);
    FactorStep(2.0, k - 1);
    ExponentialDelay(s, k - 1);
    ExponentialDelay(s, k);
    ExponentialDelay(s, n - 1);
    ExponentialDelay(s, n);
    ZeroBaseDelay(Factor(2.0, k - 1), 3600);
    ZeroBaseDelay(Factor(2.0, k), 3600);
    ZeroBaseDelay(Factor(2.0, n - 1), 3600);
    ZeroBaseDelay(Factor(2.0, 0 - n), 3600);
  }

  lemma FactorIsPower(x: real, n: nat)
    requires x >= 1.0
    ensures Factor(x, n) == Power(x, n)
  {
    hide Power;
  }

  lemma NextPower(x: real, n: nat)
    requires n > 0
    ensures Power(x, n) == x * Power(x, n - 1)
  {
  }

  /** The factor multiplies with each step, through zero. */
  lemma FactorStep(x: real, e: int)
    requires x >= 1.0
    ensures Factor(x, e + 1) == x * Factor(x, e)
  {
    if e >= 0 {
      NextPower(x, e + 1);
    } else {
      var k: nat := -e;
      NextPower(x, k);
      PowerMonotone(x, 0, k - 1);
      var y, z := Power(x, k - 1), Power(x, k);
      assert 1.0 / z * z == 1.0 && 1.0 / y * y == 1.0;
      StepBelowZero(x, y, z, 1.0 / y, 1.0 / z);
      assert e == -1 ==> Factor(x, e + 1) == 1.0 && y == 1.0;
    }
  }

  lemma StepBelowZero(x: real, y: real, z: real, u: real, v: real)
    requires y >= 1.0 && z == x * y && u * y == 1.0 && v * z == 1.0
    ensures u == x * v
  {
    assert x * v * y == v * (x * y) == 1.0;
    assert (u - x * v) * y == u * y - x * v * y == 0.0;
  }

  lemma {:induction false} PowersOfTwo(n: nat)
    ensures Power(2.0, n) >= (n + 1) as real
  {
    if n > 0 {
      PowersOfTwo(n - 1);
    }
  }

  // ---------- create_wait_strategy ----------

  datatype WaitDecision = Continue(delay: Seconds) | Done

  /** f64::round: halves go up, for the positive numbers that come here. */
  function Round(x: real): Seconds
    requires x >= 0.0
  {
    MinNat((x + 0.5).Floor, U64_MAX)
  }

  /** keepPolling is what the predicate says of the state; maxAttempts defaults to 60. */
  function WaitStrategy(maxAttempts: Option<nat>, initial: Seconds, cap: Seconds, rate: real, jitter: JitterStrategy,
                        keepPolling: bool, attempts: nat, noise: Noise): WaitDecision
  {
    if !keepPolling then Done
    else if attempts >= maxAttempts.GetOr(60) then Done
    else
      var exponent := if attempts > 0 then ToI32(ToI32(attempts) - 1) else 0;
      Continue(Round(MaxReal(Apply(jitter, CappedPower(initial, rate, exponent, cap), noise), 1.0)))
  }

  /** Polling goes on exactly while the state asks for it and attempts remain: running out of attempts gives Done, not
      the panic that the documentation announces. Every delay is from one second to the cap. */
  lemma WaitDecisions(maxAttempts: Option<nat>, initial: Seconds, cap: Seconds, rate: real, jitter: JitterStrategy,
                      keepPolling: bool, attempts: nat, noise: Noise)
    ensures var d := WaitStrategy(maxAttempts, initial, cap, rate, jitter, keepPolling, attempts, noise);
            && (d.Continue? <==> keepPolling && attempts < maxAttempts.GetOr(60))
            && (d.Continue? ==> 1 <= d.delay <= MaxNat(1, cap))
  {
    hide Apply;
    var exponent := if attempts > 0 then ToI32(ToI32(attempts) - 1) else 0;
    var x := MaxReal(Apply(jitter, CappedPower(initial, rate, exponent, cap), noise), 1.0);
    assert 1.0 <= x <= MaxNat(1, cap) as real;
    assert 1 <= (x + 0.5).Floor <= MaxNat(1, cap);
  }
}
