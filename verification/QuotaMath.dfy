/** Converting computed prices to the 32-bit quota, with saturation. */
module QuotaMath {
  import opened Rounding

  /** A floating-point value, with its finite values taken as exact reals. */
  datatype Float = NaN | NegativeInfinity | PositiveInfinity | Finite(value: real)

  const MAX_QUOTA := 2147483647
  const MIN_QUOTA := -2147483648

  datatype Kind = Overflow | Underflow | NotANumber
  datatype Clamp = Unclamped | Clamped(kind: Kind, original: Float, to: int)
  datatype Quota = Quota(value: int, clamp: Clamp)

  predicate AtLeast(f: Float, n: int) {
    f.PositiveInfinity? || (f.Finite? && f.value >= n as real)
  }

  predicate AtMost(f: Float, n: int) {
    f.NegativeInfinity? || (f.Finite? && f.value <= n as real)
  }

  function Saturate(f: Float): Quota {
    if f.NaN? then Quota(0, Clamped(NotANumber, f, 0))
    else if AtLeast(f, MAX_QUOTA) then Quota(MAX_QUOTA, Clamped(Overflow, f, MAX_QUOTA))
    else if AtMost(f, MIN_QUOTA) then Quota(MIN_QUOTA, Clamped(Underflow, f, MIN_QUOTA))
    else Quota(Truncate(f.value), Unclamped)
  }

  function QuotaFromFloat(f: Float): Quota {
    Saturate(f)
  }

  function QuotaRound(f: Float): Quota {
    if f.Finite? then Saturate(Finite(RoundHalfAway(f.value) as real)) else Saturate(f)
  }

  function QuotaFromDecimal(x: real): Quota {
    if x >= MAX_QUOTA as real then Quota(MAX_QUOTA, Clamped(Overflow, Finite(x), MAX_QUOTA))
    else if x <= MIN_QUOTA as real then Quota(MIN_QUOTA, Clamped(Underflow, Finite(x), MIN_QUOTA))
    else Quota(RoundHalfAway(x), Unclamped)
  }

  /** The rounding conversions give the nearest integer of the range: round, then cut at both ends. */
  function NearestQuota(x: real): int {
    var q := RoundHalfAway(x);
    if q > MAX_QUOTA then MAX_QUOTA else if q < MIN_QUOTA then MIN_QUOTA else q
  }

  /** Both roundings agree on every number, also where only one of them records a clamp. */
  lemma RoundingsAgree(x: real)
    ensures QuotaRound(Finite(x)).value == QuotaFromDecimal(x).value == NearestQuota(x)
  {
    RoundIsNearest(x, RoundHalfAway(x));
    RoundInteger(RoundHalfAway(x));
  }

  /** Exactly the half unit inside each end is recorded as a clamp by one and not by the other. */
  lemma ClampRecordsDiffer(x: real)
    ensures QuotaRound(Finite(x)).clamp.Clamped? != QuotaFromDecimal(x).clamp.Clamped? <==>
      || MAX_QUOTA as real - 0.5 <= x < MAX_QUOTA as real
      || MIN_QUOTA as real < x <= MIN_QUOTA as real + 0.5
  {
    RoundIsNearest(x, RoundHalfAway(x));
  }

  predicate InRange(q: int) {
    MIN_QUOTA <= q <= MAX_QUOTA
  }

  lemma AllInRange(f: Float, x: real)
    ensures InRange(QuotaFromFloat(f).value) && InRange(QuotaRound(f).value) && InRange(QuotaFromDecimal(x).value)
    ensures forall q :: InRange(q) <==> -0x8000_0000 <= q < 0x8000_0000
  {
    RoundIsNearest(x, RoundHalfAway(x));
    if f.Finite? {
      RoundInteger(RoundHalfAway(f.value));
    }
  }

  /** The order of floating-point values other than NaN. */
  predicate Leq(a: Float, b: Float)
    requires !a.NaN? && !b.NaN?
  {
    a.NegativeInfinity? || b.PositiveInfinity? || (a.Finite? && b.Finite? && a.value <= b.value)
  }

  lemma AllMonotone(a: Float, b: Float, x: real, y: real)
    requires !a.NaN? && !b.NaN? && Leq(a, b) && x <= y
    ensures QuotaFromFloat(a).value <= QuotaFromFloat(b).value
    ensures QuotaRound(a).value <= QuotaRound(b).value
    ensures QuotaFromDecimal(x).value <= QuotaFromDecimal(y).value
  {
    RoundMonotone(x, y);
    RoundingsAgree(x);
    RoundingsAgree(y);
    AllInRange(a, x);
    AllInRange(b, y);
    if a.Finite? && b.Finite? {
      RoundMonotone(a.value, b.value);
      RoundingsAgree(a.value);
      RoundingsAgree(b.value);
    }
  }

  /** On inputs within the range, rounding is off by at most a half and truncation by less than one. */
  lemma CloseInRange(x: real)
    requires MIN_QUOTA as real <= x <= MAX_QUOTA as real
    ensures IsNearest(QuotaRound(Finite(x)).value, x) && IsNearest(QuotaFromDecimal(x).value, x)
    ensures
      var q := QuotaFromFloat(Finite(x)).value as real;
      if x >= 0.0 then x - 1.0 < q <= x && q >= 0.0 else x <= q < x + 1.0 && q <= 0.0
  {
    RoundingsAgree(x);
    RoundIsNearest(x, RoundHalfAway(x));
  }

  /** A value beyond the range is cut at its end and the cut recorded with its cause and the value; NaN counts as zero
      and is recorded; and what is within the range is never recorded. */
  lemma ClampsRecorded(f: Float)
    ensures
      var q := QuotaFromFloat(f);
      match f
      case NaN => q == Quota(0, Clamped(NotANumber, f, 0)) && QuotaRound(f) == q
      case PositiveInfinity => q == Quota(2147483647, Clamped(Overflow, f, 2147483647)) && QuotaRound(f) == q
      case NegativeInfinity => q == Quota(-2147483648, Clamped(Underflow, f, -2147483648)) && QuotaRound(f) == q
      case Finite(x) =>
        if x >= 2147483647.0 then q == Quota(2147483647, Clamped(Overflow, f, 2147483647))
        else if x <= -2147483648.0 then q == Quota(-2147483648, Clamped(Underflow, f, -2147483648))
        else q.clamp == Unclamped
  {
  }
}
