/** config.rs: the delays themselves, in whole numbers. A finite f64 is a fraction p / q. */
module BackoffValues {
  import opened Options
  import opened Fractions
  import opened Bytes
  import opened OperationIds
  import opened Backoff

  // ---------- linear and fixed ----------

  /** base * (attempt + 1) up to the cap, at least a second. */
  lemma LinearValue(s: Strategy, a: nat, noise: Noise)
    requires Waits(s, a) && s.Linear?
    ensures NextDelay(s, a, noise) == Some(MaxNat(1, MinNat(s.baseDelay * (a + 1), s.maxDelay)))
  {
    hide Whole;
    var d := MinNat(s.baseDelay * (a + 1), s.maxDelay);
    SaturationIsInvisible(s.baseDelay, a, s.maxDelay);
    WholeForAnyNoise(Capped(s, a), noise);
    WholeIsFloor(d as real);
    WholeFloor(d);
  }

  lemma FixedValue(s: Strategy, a: nat, noise: Noise)
    requires Waits(s, a) && s.Fixed?
    ensures NextDelay(s, a, noise) == Some(MaxNat(1, s.baseDelay))
  {
    hide Whole;
    WholeForAnyNoise(Capped(s, a), noise);
    WholeIsFloor(s.baseDelay as real);
    WholeFloor(s.baseDelay);
  }

  lemma WholeForAnyNoise(capped: real, noise: Noise)
    ensures Whole(NoJitter, capped, noise) == Whole(NoJitter, capped, 0.0)
  {
  }

  // ---------- exponential ----------

  lemma PowerStarts(x: real)
    ensures Power(x, 0) == 1.0
  {
  }

  lemma SameQuotient(y: real, z: real, d: real)
    requires d > 0.0 && y * d == z * d
    ensures y == z
  {
    assert (y - z) * d == 0.0;
  }


  /** The multiplier is p / q, not necessarily in lowest terms. */
  predicate IsFraction(x: real, p: nat, q: nat) {
    q >= 1 && x * q as real == p as real
  }

  lemma {:induction false} PowerOfFraction(x: real, p: nat, q: nat, a: nat)
    requires x * q as real == p as real
    ensures Power(x, a) * NatPower(q, a) as real == NatPower(p, a) as real
  {
    if a > 0 {
      NextPower(x, a);
      NextNatPower(p, a);
      NextNatPower(q, a);
      PowerOfFraction(x, p, q, a - 1);
      hide Power, NatPower;
      FractionStep(x, Power(x, a - 1), p, q, NatPower(q, a - 1), NatPower(p, a - 1), Power(x, a), NatPower(q, a),
                   NatPower(p, a));
    } else {
      StartOfFraction(x, p, q, a);
    }
  }

  lemma StartOfFraction(x: real, p: nat, q: nat, a: nat)
    requires a == 0
    ensures Power(x, a) * NatPower(q, a) as real == NatPower(p, a) as real
  {
  }

  lemma NextNatPower(k: nat, n: nat)
    requires n > 0
    ensures NatPower(k, n) == k * NatPower(k, n - 1)
  {
  }

  lemma FractionStep(x: real, y: real, p: nat, q: nat, w: nat, z: nat, y2: real, w2: nat, z2: nat)
    requires x * q as real == p as real && y * w as real == z as real
    requires y2 == x * y && w2 == q * w && z2 == p * z
    ensures y2 * w2 as real == z2 as real
  {
    var r, u := q as real, w as real;
    assert w2 as real == r * u && z2 as real == p as real * z as real;
    assert x * y * (r * u) == x * r * (y * u);
  }

  lemma InverseOfFraction(y: real, f: real, w: real, z: real)
    requires y * w == z && f * y == 1.0
    ensures f * z == w
  {
    assert f * (y * w) == f * y * w;
  }

  /** The power of p / q at this exponent is Numerator / Denominator. */
  function Numerator(p: nat, q: nat, e: int): nat {
    if e >= 0 then NatPower(p, e) else NatPower(q, -e)
  }

  function Denominator(p: nat, q: nat, e: int): (d: nat)
    requires q >= 1 && (e < 0 ==> p >= 1)
    ensures d >= 1
  {
    if e >= 0 then NatPowerPositive(q, e); NatPower(q, e) else NatPowerPositive(p, -e); NatPower(p, -e)
  }

  /** The power is infinite. */
  predicate InfiniteFraction(n: nat, d: nat) { n as real >= FloatLimit() * d as real }

  lemma {:induction false} PowerOfZero(n: nat)
    requires n >= 1
    ensures NatPower(0, n) == 0 && Power(0.0, n) == 0.0
  {
  }

  /** The factor as the code computes it. */
  function Powi(x: real, e: int): real
    requires e < 0 ==> Power(x, -e) != 0.0
  {
    if e >= 0 then Power(x, e) else 1.0 / Power(x, -e)
  }

  lemma PowiIsFraction(x: real, p: nat, q: nat, e: int)
    requires IsFraction(x, p, q) && (e < 0 ==> p >= 1)
    ensures e < 0 ==> Power(x, -e) != 0.0
    ensures Powi(x, e) * Denominator(p, q, e) as real == Numerator(p, q, e) as real && Powi(x, e) >= 0.0
  {
    hide Power, NatPower;
    var n, d := Numerator(p, q, e), Denominator(p, q, e);
    if e >= 0 {
      PowerOfFraction(x, p, q, e);
      QuotientNotNegative(Power(x, e), d, n);
    } else {
      var k: nat := -e;
      PowerOfFraction(x, p, q, k);
      var y := Power(x, k);
      NotZero(y, n, d);
      assert 1.0 / y * y == 1.0;
      InverseOfFraction(y, 1.0 / y, n as real, d as real);
      QuotientNotNegative(1.0 / y, d, n);
    }
  }

  lemma NotZero(y: real, n: nat, d: nat)
    requires y * n as real == d as real && d >= 1
    ensures y != 0.0
  {
  }

  lemma QuotientNotNegative(y: real, d: nat, n: nat)
    requires d >= 1 && y * d as real == n as real
    ensures y >= 0.0
  {
    Positive(y, d as real);
  }

  /** What the code caps: the exact value, but for a zero base and an infinite power. */
  lemma CappedIsPowi(base: Seconds, x: real, e: int, cap: Seconds)
    requires (e < 0 ==> Power(x, -e) != 0.0) && Powi(x, e) >= 0.0
    ensures CappedPower(base, x, e, cap) == CappedAt(base, Powi(x, e), cap)
  {
    hide FloatLimit, MinReal, Grown, Power;
    LimitIsLarge();
  }

  lemma SameProducts(y: real, d: nat, n: nat, limit: real)
    requires d >= 1 && y * d as real == n as real
    ensures y >= limit <==> n as real >= limit * d as real
  {
    var f := d as real;
    assert (y - limit) * f == y * f - limit * f;
    if y >= limit {
      NotNegative(y - limit, f);
    } else {
      Product(f, 0.0, limit - y);
      assert f * (limit - y) > 0.0;
    }
  }

  /** The floor of a fraction is the quotient. */
  lemma FloorOfFraction(z: real, n: nat, d: nat)
    requires d >= 1 && z * d as real == n as real
    ensures z.Floor == n / d
  {
    var k, r := n / d, n % d;
    assert n == k * d + r;
    var f, g := d as real, k as real;
    assert (k * d) as real == g * f;
    assert (z - g) * f == r as real;
    Positive(z - g, f);
    assert (g + 1.0 - z) * f == f - r as real > 0.0;
    PositiveFactor(g + 1.0 - z, f);
  }

  lemma PositiveFactor(a: real, b: real)
    requires b > 0.0 && a * b > 0.0
    ensures a > 0.0
  {
  }

  lemma GrownFraction(b: nat, y: real, d: nat, n: nat)
    requires y * d as real == n as real
    ensures Grown(b, y) * d as real == (b * n) as real
  {
    assert b as real * y * d as real == b as real * (y * d as real);
    assert b as real * n as real == (b * n) as real;
  }

  lemma FloorOfCapped(z: real, m: nat)
    requires z >= 0.0
    ensures MaxReal(MinReal(z, m as real), 1.0).Floor == MaxNat(1, MinNat(z.Floor, m))
  {
  }

  lemma GrownNotNegative(b: nat, y: real)
    requires y >= 0.0
    ensures Grown(b, y) >= 0.0
  {
    Product(b as real, 0.0, y);
  }

  /** base * n / d */
  function Portion(base: nat, n: nat, d: nat): nat
    requires d >= 1
  {
    base * n / d
  }

  /** The delay at exponent e in whole numbers: base * n / d up to the cap and at least a second, where n / d is the power.
      A zero base is a second, or the cap where the power is infinite; and zero to a negative power is infinite. */
  function ExactDelay(base: nat, p: nat, q: nat, e: int, cap: nat): nat
    requires q >= 1
  {
    if e < 0 && p == 0 then MaxNat(1, cap)
    else
      var n, d := Numerator(p, q, e), Denominator(p, q, e);
      if base == 0 then if InfiniteFraction(n, d) then MaxNat(1, cap) else 1
      else MaxNat(1, MinNat(Portion(base, n, d), cap))
  }

  lemma FloorOfZeroBase(y: real, n: nat, d: nat, cap: Seconds)
    requires d >= 1 && y * d as real == n as real
    ensures MaxReal(CappedAt(0, y, cap), 1.0).Floor == if InfiniteFraction(n, d) then MaxNat(1, cap) else 1
  {
    hide FloatLimit, MaxReal, CappedAt;
    SameProducts(y, d, n, FloatLimit());
    ZeroBaseDelay(y, cap);
  }

  lemma FloorOfPositiveBase(base: Seconds, y: real, n: nat, d: nat, cap: Seconds)
    requires base >= 1 && d >= 1 && y * d as real == n as real && y >= 0.0
    ensures MaxReal(CappedAt(base, y, cap), 1.0).Floor == MaxNat(1, MinNat(Portion(base, n, d), cap))
  {
    hide FloatLimit, MinReal, MaxReal, Grown, CappedAt, MaxNat, MinNat;
    PositiveBase(base, y, cap);
    GrownFraction(base, y, d, n);
    GrownNotNegative(base, y);
    FloorOfFraction(Grown(base, y), base * n, d);
    FloorOfCapped(Grown(base, y), cap);
  }

  lemma ZeroPower(base: Seconds, x: real, p: nat, q: nat, e: int, cap: Seconds)
    requires IsFraction(x, p, q) && p == 0 && e < 0
    ensures CappedPower(base, x, e, cap) == cap as real
  {
    hide Grown, FloatLimit;
    ZeroFraction(x, q);
    PowerOfZero(-e);
  }

  lemma ZeroFraction(x: real, q: nat)
    requires q >= 1 && x * q as real == 0.0
    ensures x == 0.0
  {
  }

  lemma CappedValue(base: Seconds, x: real, p: nat, q: nat, e: int, cap: Seconds)
    requires IsFraction(x, p, q)
    ensures 0.0 <= CappedPower(base, x, e, cap) <= cap as real
    ensures MaxReal(CappedPower(base, x, e, cap), 1.0).Floor == ExactDelay(base, p, q, e, cap)
  {
    hide CappedPower, CappedAt, MaxReal, Powi, FloatLimit, Power, Numerator, Denominator, InfiniteFraction;
    if e < 0 && p == 0 {
      ZeroPower(base, x, p, q, e, cap);
      WholeFloor(cap);
    } else {
      var n, d := Numerator(p, q, e), Denominator(p, q, e);
      PowiIsFraction(x, p, q, e);
      CappedIsPowi(base, x, e, cap);
      CappedAtRange(base, Powi(x, e), cap);
      if base == 0 {
        FloorOfZeroBase(Powi(x, e), n, d, cap);
      } else {
        FloorOfPositiveBase(base, Powi(x, e), n, d, cap);
      }
    }
  }

  /** Exponential backoff with any fraction for a multiplier, before and behind the wrap of the exponent. */
  lemma ExponentialValue(s: Strategy, p: nat, q: nat, a: nat, noise: Noise)
    requires Waits(s, a) && s.Exponential? && IsFraction(s.multiplier, p, q)
    ensures NextDelay(s, a, noise) ==
            Some(ExactDelay(s.baseDelay, p, q, if a < TWO31 then a else a - TWO32, s.maxDelay))
  {
    hide Whole, CappedPower, MaxReal, ExactDelay;
    var e := if a < TWO31 then a else a - TWO32;
    assert ToI32(a) == e;
    CappedValue(s.baseDelay, s.multiplier, p, q, e, s.maxDelay);
    WholeForAnyNoise(Capped(s, a), noise);
    WholeIsFloor(Capped(s, a));
  }

  /** In short, for a whole multiplier and a positive base before the wrap: base * k^attempt. */
  lemma WholeMultiplierValue(s: Strategy, k: nat, a: nat, noise: Noise)
    requires Waits(s, a) && s.Exponential? && s.multiplier == k as real && s.baseDelay >= 1 && a < TWO31
    ensures NextDelay(s, a, noise) == Some(MaxNat(1, MinNat(s.baseDelay * NatPower(k, a), s.maxDelay)))
  {
    hide NatPower, FloatLimit;
    ExponentialValue(s, k, 1, a, noise);
    NatPowerOfOne(a);
    assert Numerator(k, 1, a) == NatPower(k, a) && Denominator(k, 1, a) == 1;
    assert s.baseDelay * NatPower(k, a) / 1 == s.baseDelay * NatPower(k, a);
  }

  // ---------- jitter ----------

  /** Jitter is linear in the factor: full jitter from nothing, half jitter from half the delay, up to the delay. */
  lemma JitterIsLinear(jitter: JitterStrategy, delay: real, noise: Noise)
    ensures Apply(jitter, delay, 1.0) == delay
    ensures Apply(Full, delay, 0.0) == 0.0 && Apply(Half, delay, 0.0) == delay / 2.0 && Apply(NoJitter, delay, 0.0) == delay
    ensures Apply(jitter, delay, noise) ==
            Apply(jitter, delay, 0.0) + noise * (Apply(jitter, delay, 1.0) - Apply(jitter, delay, 0.0))
  {
    var half := delay / 2.0;
    assert delay == half + half;
    assert noise * (delay - half) == noise * half;
  }

  function Unjittered(s: Strategy): Strategy
    requires !s.NoRetry?
  {
    s.(jitter := NoJitter)
  }

  lemma WholeOf(jitter: JitterStrategy, capped: real, noise: Noise)
    requires capped <= U64_MAX as real
    ensures Whole(jitter, capped, noise) == MaxReal(Apply(jitter, capped, noise), 1.0).Floor
  {
    hide Apply;
    assert Apply(jitter, capped, noise) <= MaxReal(capped, 0.0);
  }

  lemma FloorsOrdered(r: real, c: real)
    ensures r <= c ==> MaxReal(r, 1.0).Floor <= MaxReal(c, 1.0).Floor
    ensures c / 2.0 <= r ==> MaxReal(c, 1.0).Floor <= 2 * MaxReal(r, 1.0).Floor + 1
    ensures r <= 0.0 ==> MaxReal(r, 1.0).Floor == 1
  {
  }

  lemma CappedFits(s: Strategy, a: nat)
    requires !s.NoRetry?
    ensures Capped(s, a) <= U64_MAX as real
  {
    hide Grown, Power, FloatLimit;
  }

  /** Jitter only shortens the delay of the same attempt, half jitter by no more than half, and the factor 1 by nothing. */
  lemma JitterShortens(s: Strategy, a: nat, noise: Noise)
    requires !s.NoRetry? && a < s.maxAttempts
    ensures var d, plain := NextDelay(s, a, noise).value, NextDelay(Unjittered(s), a, 0.0).value;
            && d <= plain
            && (s.jitter == Half ==> plain <= 2 * d + 1)
            && (noise == 1.0 || s.jitter == NoJitter ==> d == plain)
            && (s.jitter == Full && noise == 0.0 ==> d == 1)
  {
    hide Whole, Capped, Apply, MaxReal;
    var c := Capped(s, a);
    assert Capped(Unjittered(s), a) == c by { SameCapped(s, a); }
    CappedFits(s, a);
    WholeOf(s.jitter, c, noise);
    WholeOf(NoJitter, c, 0.0);
    JitterIsLinear(s.jitter, c, noise);
    var r := Apply(s.jitter, c, noise);
    FloorsOrdered(r, c);
    FloorsOrdered(c, c);
  }

  lemma SameCapped(s: Strategy, a: nat)
    requires !s.NoRetry?
    ensures Capped(Unjittered(s), a) == Capped(s, a)
  {
    hide CappedPower;
  }

  /** c is the delay at exponent e before jitter: base * n / d, or the cap if that is more; nothing or the cap for a zero
      base, as in ExactDelay. */
  predicate Uncut(base: nat, p: nat, q: nat, e: int, cap: nat, c: real)
    requires q >= 1
  {
    if e < 0 && p == 0 then c == cap as real
    else
      var n, d := Numerator(p, q, e), Denominator(p, q, e);
      if base == 0 then c == if InfiniteFraction(n, d) then cap as real else 0.0
      else if base * n >= cap * d then c == cap as real
      else c * d as real == (base * n) as real
  }

  lemma CompareFractions(z: real, n: nat, d: nat, m: nat)
    requires d >= 1 && z * d as real == n as real
    ensures n >= m * d <==> z >= m as real
  {
    SameProducts(z, d, n, m as real);
    assert (m * d) as real == m as real * d as real;
  }

  lemma PositiveBaseUncut(base: Seconds, y: real, n: nat, d: nat, cap: Seconds, c: real)
    requires base >= 1 && d >= 1 && y * d as real == n as real
    requires if base * n >= cap * d then c == cap as real else c * d as real == (base * n) as real
    ensures CappedAt(base, y, cap) == c
  {
    hide FloatLimit, Grown, CappedAt;
    PositiveBase(base, y, cap);
    GrownFraction(base, y, d, n);
    CompareFractions(Grown(base, y), base * n, d, cap);
    if base * n < cap * d {
      SameQuotient(Grown(base, y), c, d as real);
    }
  }

  lemma ZeroBaseUncut(y: real, n: nat, d: nat, cap: Seconds)
    requires d >= 1 && y * d as real == n as real
    ensures CappedAt(0, y, cap) == if InfiniteFraction(n, d) then cap as real else 0.0
  {
    hide FloatLimit;
    SameProducts(y, d, n, FloatLimit());
    NothingGrows(y, cap);
  }

  lemma CappedIsUncut(base: Seconds, x: real, p: nat, q: nat, e: int, cap: Seconds, c: real)
    requires IsFraction(x, p, q) && Uncut(base, p, q, e, cap, c)
    ensures CappedPower(base, x, e, cap) == c
  {
    hide CappedPower, CappedAt, Powi, FloatLimit, Power, Numerator, Denominator, InfiniteFraction;
    if e < 0 && p == 0 {
      ZeroPower(base, x, p, q, e, cap);
    } else {
      var n, d := Numerator(p, q, e), Denominator(p, q, e);
      PowiIsFraction(x, p, q, e);
      CappedIsPowi(base, x, e, cap);
      if base == 0 {
        ZeroBaseUncut(Powi(x, e), n, d, cap);
      } else {
        PositiveBaseUncut(base, Powi(x, e), n, d, cap, c);
      }
    }
  }

  /** The delay before jitter, of any strategy. */
  predicate BeforeJitter(s: Strategy, a: nat, p: nat, q: nat, c: real)
    requires q >= 1
  {
    match s
    case Exponential(_, base, cap, x, _) =>
      IsFraction(x, p, q) && Uncut(base, p, q, if a < TWO31 then a else a - TWO32, cap, c)
    case Linear(_, base, cap, _) => c == MinNat(base * (a + 1), cap) as real
    case Fixed(_, base, _) => c == base as real
    case NoRetry => false
  }

  lemma CappedIsBeforeJitter(s: Strategy, a: nat, p: nat, q: nat, c: real)
    requires q >= 1 && !s.NoRetry? && a < s.maxAttempts && BeforeJitter(s, a, p, q, c)
    ensures Capped(s, a) == c
  {
    hide CappedPower, Uncut;
    match s
    case Exponential(_, base, cap, x, _) =>
      var e := if a < TWO31 then a else a - TWO32;
      assert ToI32(a) == e;
      CappedIsUncut(base, x, p, q, e, cap, c);
    case Linear(_, base, cap, _) => SaturationIsInvisible(base, a, cap);
    case _ =>
  }

  /** The delay with jitter: all of c, the fraction noise of it, or half of it and the fraction noise of the other half, in
      whole seconds and at least one. */
  lemma JitteredValue(s: Strategy, a: nat, p: nat, q: nat, c: real, noise: Noise)
    requires q >= 1 && !s.NoRetry? && a < s.maxAttempts && BeforeJitter(s, a, p, q, c)
    ensures s.jitter == NoJitter ==> NextDelay(s, a, noise) == Some(WholeSeconds(c))
    ensures s.jitter == Full ==> NextDelay(s, a, noise) == Some(WholeSeconds(noise * c))
    ensures s.jitter == Half ==> NextDelay(s, a, noise) == Some(WholeSeconds(c / 2.0 + noise * (c / 2.0)))
  {
    hide Whole, Capped, BeforeJitter;
    CappedIsBeforeJitter(s, a, p, q, c);
    CappedFits(s, a);
    WholeOf(s.jitter, c, noise);
    FloorAtLeastOne(Apply(s.jitter, c, noise));
  }

  function WholeSeconds(x: real): nat {
    if x < 1.0 then 1 else x.Floor
  }

  lemma FloorAtLeastOne(x: real)
    ensures MaxReal(x, 1.0).Floor == WholeSeconds(x)
  {
  }

  /** "jitter" */
  const JITTER: Text := [106, 105, 116, 116, 101, 114]

  lemma JitterIsAscii()
    ensures |JITTER| == 6 && forall k :: 0 <= k < 6 ==> JITTER[k] == "jitter"[k] as int
  {
  }

  predicate AllOnes(b: seq<Byte>) { forall k :: 0 <= k < |b| ==> b[k] == 255 }

  lemma {:induction false} ValueBound(b: seq<Byte>)
    ensures ValueOf(b) < Power256(|b|)
    ensures ValueOf(b) == Power256(|b|) - 1 <==> AllOnes(b)
  {
    if b != [] {
      ValueBound(b[1..]);
      assert forall k :: 1 <= k < |b| ==> b[k] == b[1..][k - 1];
    }
  }

  /** deterministic_random_factor: the first eight bytes of the digest as a fraction of the largest u64. */
  function RandomFactor(hash: Hash, attempt: U32): (u: Noise)
    ensures u * U64_MAX as real == ValueOf(hash(JITTER + LittleEndian(attempt, 4))[..8]) as real
  {
    var bytes := hash(JITTER + LittleEndian(attempt, 4))[..8];
    ValueBound(bytes);
    Power256Of8();
    FractionInUnit(ValueOf(bytes), U64_MAX);
    ValueOf(bytes) as real / U64_MAX as real
  }

  lemma FractionInUnit(n: nat, d: nat)
    requires n <= d && d >= 1
    ensures 0.0 <= n as real / d as real <= 1.0 && n as real / d as real * d as real == n as real
    ensures n as real / d as real == 1.0 <==> n == d
  {
    var y := n as real / d as real;
    assert y * d as real == n as real;
    Positive(y, d as real);
    assert (1.0 - y) * d as real == d as real - n as real;
    Positive(1.0 - y, d as real);
  }

  /** The factor is below 1, as documented, unless the eight bytes are all ones (or rounding makes it 1). */
  lemma FactorBelowOne(hash: Hash, attempt: U32)
    ensures RandomFactor(hash, attempt) == 1.0 <==> AllOnes(hash(JITTER + LittleEndian(attempt, 4))[..8])
  {
    var bytes := hash(JITTER + LittleEndian(attempt, 4))[..8];
    Power256Of8();
    ValueBound(bytes);
    var u, v := RandomFactor(hash, attempt), ValueOf(bytes);
    hide RandomFactor, ValueOf, Power256, AllOnes;
    assert u * U64_MAX as real == v as real;
    OneExactly(u, v, U64_MAX);
  }

  lemma OneExactly(u: real, n: nat, d: nat)
    requires d >= 1 && u * d as real == n as real
    ensures u == 1.0 <==> n == d
  {
    if n == d {
      SameQuotient(u, 1.0, d as real);
    }
  }

  // ---------- create_wait_strategy ----------

  /** The whole number nearest to n / d, halves up. */
  function RoundedQuotient(n: nat, d: nat): nat
    requires d >= 1
  {
    (2 * n + d) / (2 * d)
  }

  lemma FloorOfHalfMore(z: real, n: nat, d: nat)
    requires d >= 1 && z * d as real == n as real
    ensures (z + 0.5).Floor == RoundedQuotient(n, d)
  {
    var y, f := z + 0.5, d as real;
    assert y * (2.0 * f) == 2.0 * (z * f) + f;
    assert (2 * d) as real == 2.0 * f && (2 * n + d) as real == 2.0 * n as real + f;
    FloorOfFraction(y, 2 * n + d, 2 * d);
  }

  lemma RoundOfCapped(z: real, m: Seconds)
    requires z >= 0.0
    ensures Round(MaxReal(MinReal(z, m as real), 1.0)) == MaxNat(1, MinNat((z + 0.5).Floor, m))
  {
    assert (m as real + 0.5).Floor == m && (1.0 + 0.5).Floor == 1;
  }

  lemma RoundWhole(m: Seconds)
    ensures Round(MaxReal(m as real, 1.0)) == MaxNat(1, m)
  {
  }

  /** As ExactDelay, rounded to the nearest second where that is cut off. */
  function ExactWait(base: nat, p: nat, q: nat, e: int, cap: nat): nat
    requires q >= 1
  {
    if e < 0 && p == 0 then MaxNat(1, cap)
    else
      var n, d := Numerator(p, q, e), Denominator(p, q, e);
      if base == 0 then if InfiniteFraction(n, d) then MaxNat(1, cap) else 1
      else MaxNat(1, MinNat(RoundedQuotient(base * n, d), cap))
  }

  lemma RoundOfZeroBase(y: real, n: nat, d: nat, cap: Seconds)
    requires d >= 1 && y * d as real == n as real
    ensures Round(MaxReal(CappedAt(0, y, cap), 1.0)) == if InfiniteFraction(n, d) then MaxNat(1, cap) else 1
  {
    hide FloatLimit, MinReal, MaxReal, Grown, Round;
    SameProducts(y, d, n, FloatLimit());
    NothingGrows(y, cap);
    RoundWhole(cap);
    RoundWhole(0);
  }

  lemma RoundOfPositiveBase(base: Seconds, y: real, n: nat, d: nat, cap: Seconds)
    requires base >= 1 && d >= 1 && y * d as real == n as real && y >= 0.0
    ensures Round(MaxReal(CappedAt(base, y, cap), 1.0)) == MaxNat(1, MinNat(RoundedQuotient(base * n, d), cap))
  {
    hide FloatLimit, MinReal, MaxReal, Grown, CappedAt, Round, MaxNat, MinNat, RoundedQuotient;
    PositiveBase(base, y, cap);
    GrownFraction(base, y, d, n);
    GrownNotNegative(base, y);
    FloorOfHalfMore(Grown(base, y), base * n, d);
    RoundOfCapped(Grown(base, y), cap);
  }

  lemma RoundedValue(base: Seconds, x: real, p: nat, q: nat, e: int, cap: Seconds)
    requires IsFraction(x, p, q)
    ensures Round(MaxReal(CappedPower(base, x, e, cap), 1.0)) == ExactWait(base, p, q, e, cap)
  {
    hide CappedPower, CappedAt, MaxReal, Powi, FloatLimit, Power, Numerator, Denominator, InfiniteFraction, Round, RoundedQuotient;
    if e < 0 && p == 0 {
      ZeroPower(base, x, p, q, e, cap);
      RoundWhole(cap);
    } else {
      var n, d := Numerator(p, q, e), Denominator(p, q, e);
      PowiIsFraction(x, p, q, e);
      CappedIsPowi(base, x, e, cap);
      if base == 0 {
        RoundOfZeroBase(Powi(x, e), n, d, cap);
      } else {
        RoundOfPositiveBase(base, Powi(x, e), n, d, cap);
      }
    }
  }

  /** The exponent of a poll: one less than the attempts made, as an i32. */
  predicate PollExponent(attempts: nat, e: int) {
    I32_MIN <= e < TWO31 && if attempts == 0 then e == 0 else (attempts - 1 - e) % TWO32 == 0
  }

  lemma ExponentIs(attempts: nat, e: int)
    requires PollExponent(attempts, e)
    ensures e == if attempts > 0 then ToI32(ToI32(attempts) - 1) else 0
  {
  }

  /** Polling without jitter, with any fraction for a rate: the delay in whole numbers. */
  lemma WaitValue(maxAttempts: Option<nat>, initial: Seconds, cap: Seconds, rate: real, p: nat, q: nat, attempts: nat,
                  e: int, noise: Noise)
    requires IsFraction(rate, p, q) && PollExponent(attempts, e) && attempts < maxAttempts.GetOr(60)
    ensures WaitStrategy(maxAttempts, initial, cap, rate, NoJitter, true, attempts, noise) ==
            Continue(ExactWait(initial, p, q, e, cap))
  {
    hide CappedPower, MaxReal, Round, ToI32, ExactWait;
    ExponentIs(attempts, e);
    RoundedValue(initial, rate, p, q, e, cap);
  }

  /** Polling with jitter: as JitteredValue, rounded to the nearest second. */
  lemma JitteredWait(maxAttempts: Option<nat>, initial: Seconds, cap: Seconds, rate: real, jitter: JitterStrategy, p: nat,
                     q: nat, attempts: nat, e: int, c: real, noise: Noise)
    requires IsFraction(rate, p, q) && PollExponent(attempts, e) && attempts < maxAttempts.GetOr(60)
    requires Uncut(initial, p, q, e, cap, c)
    ensures var r := WaitStrategy(maxAttempts, initial, cap, rate, jitter, true, attempts, noise);
            && r.Continue?
            && (jitter == NoJitter ==> r.delay == NearestSecond(c))
            && (jitter == Full ==> r.delay == NearestSecond(noise * c))
            && (jitter == Half ==> r.delay == NearestSecond(c / 2.0 + noise * (c / 2.0)))
  {
    hide CappedPower, MaxReal, Round, ToI32, Uncut;
    ExponentIs(attempts, e);
    CappedIsUncut(initial, rate, p, q, e, cap, c);
    AtMostCap(initial, rate, e, cap);
    NearestIs(Apply(jitter, c, noise), cap, c);
  }

  function NearestSecond(x: real): nat {
    if x < 1.0 then 1 else (x + 0.5).Floor
  }

  lemma NearestIs(x: real, cap: Seconds, c: real)
    requires c <= cap as real && (x <= c || x <= 0.0)
    ensures MaxReal(x, 1.0) >= 0.0 && Round(MaxReal(x, 1.0)) == NearestSecond(x)
  {
    assert (1.0 + 0.5).Floor == 1;
    if x >= 1.0 {
      assert (x + 0.5).Floor <= cap;
    }
  }

  /** In short, for a whole rate and a positive initial delay: initial * k^(attempts - 1). */
  lemma WholeRateValue(maxAttempts: Option<nat>, initial: Seconds, cap: Seconds, rate: real, k: nat, attempts: nat,
                       noise: Noise)
    requires rate == k as real && initial >= 1 && 1 <= attempts <= TWO31 && attempts < maxAttempts.GetOr(60)
    ensures WaitStrategy(maxAttempts, initial, cap, rate, NoJitter, true, attempts, noise) ==
            Continue(MaxNat(1, MinNat(initial * NatPower(k, attempts - 1), cap)))
  {
    hide NatPower, WaitStrategy, FloatLimit;
    WaitValue(maxAttempts, initial, cap, rate, k, 1, attempts, attempts - 1, noise);
    NatPowerOfOne(attempts - 1);
    assert Numerator(k, 1, attempts - 1) == NatPower(k, attempts - 1) && Denominator(k, 1, attempts - 1) == 1;
    WholeQuotientRounds(initial * NatPower(k, attempts - 1));
  }

  lemma WholeQuotientRounds(n: nat)
    ensures RoundedQuotient(n, 1) == n
  {
  }

  // ---------- multipliers up to one ----------

  /** A schedule with a multiplier from zero to one. */
  predicate Shrinking(s: Strategy) {
    s.Exponential? && s.jitter == NoJitter && 0.0 <= s.multiplier <= 1.0
  }

  lemma {:induction false} PowerInUnit(x: real, n: nat)
    requires 0.0 <= x <= 1.0
    ensures 0.0 <= Power(x, n) <= 1.0
  {
    if n > 0 {
      PowerInUnit(x, n - 1);
      PowerStep(x, n);
    }
  }

  lemma PowerStep(x: real, n: nat)
    requires 0.0 <= x <= 1.0 && n > 0 && Power(x, n - 1) >= 0.0
    ensures 0.0 <= Power(x, n) <= Power(x, n - 1)
  {
    NextPower(x, n);
    hide Power;
    ProductShrinks(x, Power(x, n - 1));
  }

  lemma {:induction false} PowerShrinks(x: real, n: nat, m: nat)
    requires 0.0 <= x <= 1.0 && n <= m
    ensures 0.0 <= Power(x, m) <= Power(x, n) <= 1.0
    decreases m
  {
    hide Power;
    PowerInUnit(x, n);
    if n < m {
      PowerShrinks(x, n, m - 1);
      PowerStep(x, m);
    }
  }

  lemma ProductShrinks(x: real, y: real)
    requires 0.0 <= x <= 1.0 && y >= 0.0
    ensures 0.0 <= x * y <= y
  {
    assert (1.0 - x) * y >= 0.0;
  }

  lemma InverseShrinks(x: real, y: real)
    requires 0.0 < x <= y
    ensures 0.0 < 1.0 / y <= 1.0 / x
  {
    var u, v := 1.0 / x, 1.0 / y;
    assert u * x == 1.0 && v * y == 1.0;
    PositiveFactor(v, y);
    PositiveFactor(u, x);
    assert (u - v) * y == u * y - 1.0 && u * y == u * x + u * (y - x);
    NotNegative(u, y - x);
    Positive(u - v, y);
  }

  /** The power falls with the exponent; what is zero to a negative power stays at the cap. */
  lemma CappedPowerFalls(base: Seconds, x: real, e: int, f: int, cap: Seconds)
    requires 0.0 <= x <= 1.0 && e <= f && (e >= 0 || f < 0)
    ensures CappedPower(base, x, e, cap) >= CappedPower(base, x, f, cap)
  {
    hide CappedPower, CappedAt, Power, Powi, FloatLimit;
    if e >= 0 {
      PowerShrinks(x, e, f);
      PowiUp(x, e);
      PowiUp(x, f);
      CappedIsPowi(base, x, e, cap);
      CappedIsPowi(base, x, f, cap);
      CappedAtMonotone(base, Powi(x, f), Powi(x, e), cap);
    } else {
      PowerShrinks(x, -f, -e);
      if Power(x, -e) == 0.0 {
        InfiniteIsCap(base, x, e, cap);
        AtMostCap(base, x, f, cap);
      } else {
        InverseShrinks(Power(x, -e), Power(x, -f));
        PowiDown(x, e);
        PowiDown(x, f);
        CappedIsPowi(base, x, e, cap);
        CappedIsPowi(base, x, f, cap);
        CappedAtMonotone(base, Powi(x, f), Powi(x, e), cap);
      }
    }
  }

  lemma PowiUp(x: real, e: int)
    requires e >= 0
    ensures Powi(x, e) == Power(x, e)
  {
  }

  lemma PowiDown(x: real, e: int)
    requires e < 0 && Power(x, -e) != 0.0
    ensures Powi(x, e) == 1.0 / Power(x, -e)
  {
  }

  lemma InfiniteIsCap(base: Seconds, x: real, e: int, cap: Seconds)
    requires e < 0 && Power(x, -e) == 0.0
    ensures CappedPower(base, x, e, cap) == cap as real
  {
  }

  lemma AtMostCap(base: Seconds, x: real, e: int, cap: Seconds)
    ensures CappedPower(base, x, e, cap) <= cap as real
  {
    hide Grown, FloatLimit, Power;
  }

  /** With a multiplier up to one no delay is longer than an earlier one, on either side of the wrap of the exponent. */
  lemma DelaysFall(s: Strategy, a: nat, b: nat)
    requires Shrinking(s) && a <= b < s.maxAttempts && (a < TWO31 <==> b < TWO31)
    ensures Delay(s, a) >= Delay(s, b)
  {
    hide CappedPower, Whole;
    CappedPowerFalls(s.baseDelay, s.multiplier, ToI32(a), ToI32(b), s.maxDelay);
    WholeMonotone(Capped(s, b), Capped(s, a));
  }

  predicate OverOne(limit: real, q: real) { 1.0 < limit * q }

  /** The delay stays level over the wrap although the exponent jumps from large to large negative. */
  predicate LevelAtJump(base: Seconds, cap: Seconds, x: real) {
    || x == 1.0 || cap <= 1
    || (x > 0.0 && ((base == 0 && OverOne(FloatLimit(), Power(x, TWO31)))
                    || cap as real <= Grown(base, Power(x, TWO31 - 1))
                    || (base == 1 && OverOne(2.0, Power(x, TWO31)))))
  }

  lemma JumpIs(base: Seconds, cap: Seconds, x: real, n: nat)
    requires n == TWO31
    ensures LevelAtJump(base, cap, x) <==>
            || x == 1.0 || cap <= 1
            || (x > 0.0 && ((base == 0 && OverOne(FloatLimit(), Power(x, n)))
                            || cap as real <= Grown(base, Power(x, n - 1))
                            || (base == 1 && OverOne(2.0, Power(x, n)))))
  {
    hide Power, FloatLimit, Grown, OverOne;
  }

  lemma {:induction false} PowerInside(x: real, n: nat)
    requires 0.0 < x < 1.0
    ensures 0.0 < Power(x, n) <= 1.0
    ensures n >= 1 ==> Power(x, n) < 1.0
  {
    if n > 0 {
      PowerInside(x, n - 1);
      NextPower(x, n);
      hide Power;
      ProductInside(x, Power(x, n - 1));
    }
  }

  lemma ProductInside(x: real, y: real)
    requires 0.0 < x < 1.0 && 0.0 < y <= 1.0
    ensures 0.0 < x * y < 1.0
  {
    assert x * y > 0.0;
    assert (1.0 - y) * x >= 0.0;
  }

  lemma InverseAtLeast(f: real, q: real, limit: real)
    requires q > 0.0 && f * q == 1.0
    ensures f >= limit <==> !OverOne(limit, q)
  {
    var g, l := f - limit, limit * q;
    assert g * q == f * q - l;
    if g >= 0.0 {
      NotNegative(g, q);
    } else {
      PositiveProduct(-g, q);
      assert -g * q == l - 1.0;
    }
  }

  lemma PositiveProduct(a: real, b: real)
    requires a > 0.0 && b > 0.0
    ensures a * b > 0.0
  {
  }

  lemma InverseOfInside(q: real)
    requires 0.0 < q <= 1.0
    ensures 1.0 / q * q == 1.0 && 1.0 / q >= 1.0
  {
    InverseShrinks(q, 1.0);
  }

  lemma GrownBelow(b: nat, p: real)
    requires b >= 1 && p < 1.0
    ensures Grown(b, p) < b as real
  {
    assert b as real * (1.0 - p) > 0.0;
  }

  /** For the numbers alone: f is 1 / q. */
  lemma FloorsAtJump(b: Seconds, m: Seconds, p: real, q: real, f: real)
    requires 0.0 < p < 1.0 && 0.0 < q <= 1.0 && f * q == 1.0 && f >= 1.0
    ensures MaxReal(CappedAt(b, p, m), 1.0).Floor == MaxReal(CappedAt(b, f, m), 1.0).Floor <==>
            m <= 1 || (b == 0 && OverOne(FloatLimit(), q)) || m as real <= Grown(b, p) || (b == 1 && OverOne(2.0, q))
  {
    hide MinReal, MaxReal, Grown, CappedAt, FloatLimit, OverOne;
    LimitIsLarge();
    InverseAtLeast(f, q, FloatLimit());
    InverseAtLeast(f, q, 2.0);
    if m <= 1 {
      CappedAtRange(b, p, m);
      CappedAtRange(b, f, m);
      SmallAreOne(CappedAt(b, p, m), CappedAt(b, f, m));
    } else if b == 0 {
      ZeroBaseDelay(p, m);
      ZeroBaseDelay(f, m);
      GrownIsNothing(p);
    } else {
      PositiveBase(b, p, m);
      PositiveBase(b, f, m);
      GrownBelow(b, p);
      GrownAtLeast(b, f);
      FloorsMeet(b, m, Grown(b, f), Grown(b, p));
    }
  }

  lemma GrownIsNothing(f: real)
    ensures Grown(0, f) == 0.0
  {
  }

  /** The delay at exponent e, for a multiplier up to one. */
  function Floored(base: Seconds, x: real, e: int, cap: Seconds): int {
    MaxReal(CappedPower(base, x, e, cap), 1.0).Floor
  }

  lemma DelayIsFloored(s: Strategy, a: nat)
    requires Shrinking(s) && a < s.maxAttempts
    ensures Delay(s, a) == Floored(s.baseDelay, s.multiplier, ToI32(a), s.maxDelay)
  {
    hide Whole, CappedPower, MaxReal;
    AtMostCap(s.baseDelay, s.multiplier, ToI32(a), s.maxDelay);
    WholeIsFloor(Capped(s, a));
  }

  lemma JumpInside(b: Seconds, x: real, n: nat, e: int, m: Seconds)
    requires 0.0 < x < 1.0 && n >= 2 && e == 0 - n
    ensures Floored(b, x, n - 1, m) == Floored(b, x, e, m) <==>
            || m <= 1
            || (b == 0 && OverOne(FloatLimit(), Power(x, n)))
            || m as real <= Grown(b, Power(x, n - 1))
            || (b == 1 && OverOne(2.0, Power(x, n)))
  {
    hide Power, CappedPower, CappedAt, MaxReal, FloatLimit, Powi, Grown, OverOne;
    assert -e == n;
    PowerInside(x, n - 1);
    PowerInside(x, n);
    PowiUp(x, n - 1);
    PowiDown(x, e);
    var q := Power(x, n);
    InverseOfInside(q);
    CappedIsPowi(b, x, n - 1, m);
    CappedIsPowi(b, x, e, m);
    FloorsAtJump(b, m, Power(x, n - 1), q, 1.0 / q);
  }

  lemma SameAtOne(b: Seconds, n: nat, e: int, m: Seconds)
    requires n >= 2 && e == 0 - n
    ensures Floored(b, 1.0, n - 1, m) == Floored(b, 1.0, e, m)
  {
    hide FloatLimit, CappedPower, CappedAt, Power, MaxReal, Powi;
    PowerOfOne(n - 1);
    PowerOfOne(n);
    assert -e == n;
    PowiUp(1.0, n - 1);
    PowiDown(1.0, e);
    CappedIsPowi(b, 1.0, n - 1, m);
    CappedIsPowi(b, 1.0, e, m);
  }

  lemma ZeroJump(b: Seconds, m: Seconds, n: nat, e: int)
    requires n >= 2 && e == 0 - n
    ensures Floored(b, 0.0, n - 1, m) == 1 && Floored(b, 0.0, e, m) == MaxNat(1, m)
  {
    hide FloatLimit, CappedPower, Power, MaxReal;
    PowerOfZero(n - 1);
    PowerOfZero(n);
    assert -e == n;
    InfiniteIsCap(b, 0.0, e, m);
    WholeFloor(m);
    PowiUp(0.0, n - 1);
    CappedIsPowi(b, 0.0, n - 1, m);
    NothingAtZero(b, m);
    WholeFloor(0);
  }

  lemma NothingAtZero(b: Seconds, m: Seconds)
    ensures CappedAt(b, 0.0, m) == 0.0
  {
    hide FloatLimit;
    LimitIsLarge();
  }

  lemma FloorsLevel(b: Seconds, m: Seconds, x: real, n: nat, e: int)
    requires 0.0 <= x <= 1.0 && n == TWO31 && e == 0 - n
    ensures Floored(b, x, n - 1, m) == Floored(b, x, e, m) <==> LevelAtJump(b, m, x)
  {
    hide Floored, Power, LevelAtJump, FloatLimit, Grown, OverOne;
    JumpIs(b, m, x, n);
    if x == 1.0 {
      SameAtOne(b, n, e, m);
    } else if x == 0.0 {
      ZeroJump(b, m, n, e);
    } else {
      JumpInside(b, x, n, e, m);
    }
  }

  lemma JumpRises(s: Strategy)
    requires Shrinking(s) && s.maxAttempts > TWO31
    ensures Delay(s, TWO31 - 1) <= Delay(s, TWO31)
  {
    hide Whole, CappedPower;
    JumpCapped(s.baseDelay, s.multiplier, TWO31, s.maxDelay);
    WholeMonotone(Capped(s, TWO31 - 1), Capped(s, TWO31));
  }

  lemma JumpCapped(b: Seconds, x: real, n: nat, m: Seconds)
    requires 0.0 <= x <= 1.0 && n >= 1
    ensures CappedPower(b, x, n - 1, m) <= CappedPower(b, x, 0 - n, m)
  {
    hide CappedPower, CappedAt, Power, Powi, FloatLimit;
    var e := 0 - n;
    assert -e == n;
    PowerShrinks(x, n - 1, n);
    if Power(x, n) == 0.0 {
      InfiniteIsCap(b, x, e, m);
      AtMostCap(b, x, n - 1, m);
    } else {
      var q := Power(x, n);
      InverseOfInside(q);
      PowiUp(x, n - 1);
      PowiDown(x, e);
      CappedIsPowi(b, x, n - 1, m);
      CappedIsPowi(b, x, e, m);
      CappedAtMonotone(b, Power(x, n - 1), 1.0 / q, m);
    }
  }

  /** A whole schedule with a multiplier up to one is non-increasing exactly if it is too short for the exponent to wrap,
      or the jump of the power at the wrap cannot be seen. */
  lemma FallsExactly(s: Strategy)
    requires Shrinking(s)
    ensures (forall a: nat, b: nat :: a <= b < s.maxAttempts ==> Delay(s, a) >= Delay(s, b)) <==>
            s.maxAttempts <= TWO31 || LevelAtJump(s.baseDelay, s.maxDelay, s.multiplier)
  {
    hide Delay, LevelAtJump, NextDelay, Floored;
    if s.maxAttempts > TWO31 {
      JumpRises(s);
      DelayIsFloored(s, TWO31 - 1);
      DelayIsFloored(s, TWO31);
      FloorsLevel(s.baseDelay, s.maxDelay, s.multiplier, TWO31, I32_MIN);
    }
    if s.maxAttempts <= TWO31 || LevelAtJump(s.baseDelay, s.maxDelay, s.multiplier) {
      forall a: nat, b: nat | a <= b < s.maxAttempts
        ensures Delay(s, a) >= Delay(s, b)
      {
        if a < TWO31 <= b {
          DelaysFall(s, a, TWO31 - 1);
          DelaysFall(s, TWO31, b);
        } else {
          DelaysFall(s, a, b);
        }
      }
    }
  }
}
