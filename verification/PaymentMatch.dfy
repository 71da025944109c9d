/** Matching the amount a payment gateway reports against the amount of a local order. */
module PaymentMatch {
  import opened Options
  import opened Decimals
  import opened Rounding
  import opened Text

  /** The order amount in millionths and then, from those, in hundredths. */
  function Millionths(amount: real): int {
    RoundHalfAway(amount * 1000000.0)
  }

  function Hundredths(amount: real): int {
    RoundHalfAway(Millionths(amount) as real / 10000.0)
  }

  /** `code` is the trimmed, upper-case currency code, empty when none is given. */
  predicate IsZeroDecimal(code: string) {
    code in {"IDR", "JPY", "KRW", "VND"}
  }

  const TEN_TO_16 := 10_000_000_000_000_000.0

  /** Decimal division by a hundred keeps sixteen digits after the point. */
  function Hundredth(x: real): real {
    RoundHalfAway(x / 100.0 * TEN_TO_16) as real / TEN_TO_16
  }

  /** The check of a gateway that reports an integer number of minor units. */
  predicate MinorUnitMatches(minor: int, code: string, expected: real) {
    var amount := if IsZeroDecimal(code) then minor as real else Hundredth(minor as real);
    RoundHalfAway(amount * 100.0) == Hundredths(expected)
  }

  /** The check of Stripe, which reports the number of minor units as text. */
  predicate StripeMatches(total: string, code: string, expected: real) {
    if TrimSpace(total) == "" then false
    else match ReadDecimal(TrimSpace(total))
      case None => false
      case Some(value) =>
        if IsZeroDecimal(code) then RoundHalfAway(value * 100.0) == Hundredths(expected)
        else RoundHalfAway(Hundredth(value) * 100.0) == Hundredths(expected)
  }

  /** In four currencies the minor unit is the unit itself, in all others a hundredth. */
  lemma MatchMeans(minor: int, code: string, expected: real)
    ensures MinorUnitMatches(minor, code, expected) <==>
      (if code == "IDR" || code == "JPY" || code == "KRW" || code == "VND" then 100 * minor else minor)
      == Hundredths(expected)
  {
    RoundInteger(if IsZeroDecimal(code) then 100 * minor else minor);
    if IsZeroDecimal(code) {
      assert minor as real * 100.0 == (100 * minor) as real;
    } else {
      HundredthExact(minor);
    }
  }

  lemma HundredthExact(minor: int)
    ensures Hundredth(minor as real) == minor as real / 100.0
  {
    var scaled := minor * 100_000_000_000_000;
    assert minor as real / 100.0 * TEN_TO_16 == scaled as real;
    RoundInteger(scaled);
  }

  /** No order is matched by two different minor-unit amounts, in any currency. */
  lemma AtMostOneAmount(a: int, b: int, code: string, expected: real)
    requires MinorUnitMatches(a, code, expected) && MinorUnitMatches(b, code, expected)
    ensures a == b
  {
    MatchMeans(a, code, expected);
    MatchMeans(b, code, expected);
  }

  /** In a two-decimal currency exactly one amount matches; in a zero-decimal one some amount matches if and only if
      the order comes to whole units. */
  lemma SomeAmount(code: string, expected: real)
    ensures (exists minor :: MinorUnitMatches(minor, code, expected)) <==>
      !IsZeroDecimal(code) || Hundredths(expected) % 100 == 0
  {
    var h := Hundredths(expected);
    if !IsZeroDecimal(code) {
      MatchMeans(h, code, expected);
      assert MinorUnitMatches(h, code, expected);
    } else if h % 100 == 0 {
      MatchMeans(h / 100, code, expected);
      assert MinorUnitMatches(h / 100, code, expected);
    } else {
      forall minor ensures !MinorUnitMatches(minor, code, expected) {
        MatchMeans(minor, code, expected);
      }
    }
  }

  /** Whatever text reads as an integer is checked as that number of minor units: with or without padding, sign,
      point or exponent. */
  lemma StripeReads(total: string, minor: int, code: string, expected: real)
    requires ReadDecimal(TrimSpace(total)) == Some(minor as real)
    ensures StripeMatches(total, code, expected) == MinorUnitMatches(minor, code, expected)
  {
    assert TrimSpace(total) == "" ==> ReadDecimal("") == None;
  }

  /** In particular the decimal text of an integer, padded or not, and no other integer's text can match. */
  lemma StripeAgrees(total: string, minor: int, code: string, expected: real)
    requires TrimSpace(total) == Itoa(minor)
    ensures StripeMatches(total, code, expected) == MinorUnitMatches(minor, code, expected)
    ensures StripeMatches(total, code, expected) <==>
      (if code == "IDR" || code == "JPY" || code == "KRW" || code == "VND" then 100 * minor else minor)
      == Hundredths(expected)
  {
    DecimalReadBack(minor);
    StripeReads(total, minor, code, expected);
    MatchMeans(minor, code, expected);
  }

  // ----- A Stripe quote and the total reported for it -----

  function Minor(total: real, code: string): int {
    RoundHalfAway(if IsZeroDecimal(code) then total else total * 100.0)
  }

  /** The price of one unit in minor units: the quotient, and one more when there is a remainder. */
  function UnitAmount(total: real, quantity: nat, code: string): int
    requires quantity >= 1
  {
    var minor := Minor(total, code);
    var quotient := if minor >= 0 then minor / quantity else -(-minor / quantity);
    if quotient * quantity != minor then quotient + 1 else quotient
  }

  /** The amount recorded for the order; nothing when the price is not positive. */
  function Pay(total: real, quantity: nat, code: string): real
    requires quantity >= 1
  {
    var unit := UnitAmount(total, quantity, code);
    if unit <= 0 then 0.0
    else
      var pay := (unit * quantity) as real;
      RoundHalfAway((if IsZeroDecimal(code) then pay else Hundredth(pay)) * 100.0) as real / 100.0
  }

  lemma HundredthsOfHundredths(n: int)
    ensures Hundredths(n as real / 100.0) == n
  {
    assert n as real / 100.0 * 1000000.0 == (n * 10000) as real;
    RoundInteger(n * 10000);
    assert (n * 10000) as real / 10000.0 == n as real;
    RoundInteger(n);
  }

  /** The recorded amount is exactly the price of the quantity. */
  lemma PayExact(total: real, quantity: nat, code: string)
    requires quantity >= 1 && UnitAmount(total, quantity, code) > 0
    ensures
      var minor := UnitAmount(total, quantity, code) * quantity;
      Hundredths(Pay(total, quantity, code)) == if IsZeroDecimal(code) then 100 * minor else minor
  {
    var minor := UnitAmount(total, quantity, code) * quantity;
    var hundredths := if IsZeroDecimal(code) then 100 * minor else minor;
    HundredthExact(minor);
    RoundInteger(hundredths);
    if IsZeroDecimal(code) {
      assert minor as real * 100.0 == (100 * minor) as real;
    } else {
      assert minor as real / 100.0 * 100.0 == minor as real;
    }
    assert Pay(total, quantity, code) == hundredths as real / 100.0;
    HundredthsOfHundredths(hundredths);
  }

  /** Stripe reports the unit price times the quantity sold. That total passes the check against the recorded amount if
      and only if the quantity sold is the one the quote was made for. */
  lemma QuoteMatchesExactly(total: real, quantity: nat, sold: int, code: string)
    requires quantity >= 1 && UnitAmount(total, quantity, code) > 0
    ensures StripeMatches(Itoa(UnitAmount(total, quantity, code) * sold), code, Pay(total, quantity, code)) <==>
      sold == quantity
  {
    var unit := UnitAmount(total, quantity, code);
    ItoaBare(unit * sold);
    StripeAgrees(Itoa(unit * sold), unit * sold, code, Pay(total, quantity, code));
    PayExact(total, quantity, code);
    if unit * sold == unit * quantity {
      SameFactor(unit, sold, quantity);
    }
  }

  lemma SameFactor(unit: int, a: int, b: int)
    requires unit > 0 && unit * a == unit * b
    ensures a == b
  {
    assert unit * (a - b) == 0;
  }

  lemma ItoaBare(n: int)
    ensures TrimSpace(Itoa(n)) == Itoa(n)
  {
    var s := Itoa(n);
    ItoaReadBack(n);
    assert s != "" && s[0] in s && s[|s| - 1] in s;
  }

  /** The quote is never under the amount due, rounded to minor units, and at most one minor unit less than the quantity
      over it. */
  lemma QuoteCovers(total: real, quantity: nat, code: string)
    requires quantity >= 1 && Minor(total, code) >= 0
    ensures 0 <= UnitAmount(total, quantity, code) * quantity - Minor(total, code) <= quantity - 1
    ensures
      var due := if code == "IDR" || code == "JPY" || code == "KRW" || code == "VND" then total else total * 100.0;
      -0.5 <= (UnitAmount(total, quantity, code) * quantity) as real - due <= quantity as real - 0.5
  {
    RoundIsNearest(if IsZeroDecimal(code) then total else total * 100.0, Minor(total, code));
    var minor := Minor(total, code);
    var quotient := minor / quantity;
    assert minor == quotient * quantity + minor % quantity;
    assert (quotient + 1) * quantity == quotient * quantity + quantity;
  }

  // ----- What the double rounding does -----

  /** Rounding to millionths first moves the amount by at most half a millionth, so the accepted amount is within
      that much more than half a cent of the order. */
  lemma CloseToOrder(expected: real)
    ensures -0.0050005 <= Hundredths(expected) as real / 100.0 - expected <= 0.0050005
  {
    var m := Millionths(expected);
    RoundIsNearest(expected * 1000000.0, m);
    RoundIsNearest(m as real / 10000.0, Hundredths(expected));
  }

  /** The amount in millionths, without its sign, and above the last whole hundredth. */
  function PastHundredth(amount: real): real {
    var micro := (if amount < 0.0 then -amount else amount) * 1000000.0;
    micro - 10000.0 * (micro / 10000.0).Floor as real
  }

  /** The amount lies at most half a millionth under half a hundredth. */
  predicate JustUnderTie(amount: real) {
    4999.5 <= PastHundredth(amount) < 5000.0
  }

  /** The hundredths nearest to the millionths are nearest to the amount itself, unless they were lifted to a tie. */
  lemma NearestTwice(micro: real, m: int, h: int)
    requires micro >= 0.0 && IsNearest(m, micro) && IsNearest(h, m as real / 10000.0)
    ensures m >= 0 && -5000 < 10000 * h - m <= 5000
    ensures IsNearest(h, micro / 10000.0) <==> !(10000 * h - m == 5000 && micro < m as real)
  {
  }

  lemma TieByRemainder(micro: real, m: int, h: int)
    requires micro >= 0.0 && IsNearest(m, micro) && -5000 < 10000 * h - m <= 5000
    ensures
      var k := (micro / 10000.0).Floor;
      10000 * h - m == 5000 && micro < m as real <==> 4999.5 <= micro - 10000.0 * k as real < 5000.0
  {
    var k := (micro / 10000.0).Floor;
    assert 10000.0 * k as real <= micro < 10000.0 * k as real + 10000.0;
    assert 10000 * h - m == 5000 && micro < m as real ==> k == h - 1;
    assert 4999.5 <= micro - 10000.0 * k as real < 5000.0 ==> m == 10000 * k + 5000;
  }

  lemma DoubleRoundingNonNegative(amount: real)
    requires amount >= 0.0
    ensures Hundredths(amount) != RoundHalfAway(amount * 100.0) <==> JustUnderTie(amount)
  {
    var micro, m, h := amount * 1000000.0, Millionths(amount), Hundredths(amount);
    RoundIsNearest(micro, m);
    RoundIsNearest(m as real / 10000.0, h);
    assert amount * 100.0 == micro / 10000.0;
    RoundIsNearest(micro / 10000.0, h);
    NearestTwice(micro, m, h);
    TieByRemainder(micro, m, h);
  }

  /** Rounding twice differs from rounding once exactly on the amounts just under half a hundredth. */
  lemma DoubleRoundingDiffers(amount: real)
    ensures Hundredths(amount) != RoundHalfAway(amount * 100.0) <==> JustUnderTie(amount)
  {
    if amount >= 0.0 {
      DoubleRoundingNonNegative(amount);
    } else {
      DoubleRoundingNonNegative(-amount);
      RoundOdd(amount * 1000000.0);
      RoundOdd(amount * 100.0);
      RoundOdd(Millionths(amount) as real / 10000.0);
      assert (-amount) * 1000000.0 == -(amount * 1000000.0);
      assert (-amount) * 100.0 == -(amount * 100.0);
      assert (-Millionths(amount)) as real / 10000.0 == -(Millionths(amount) as real / 10000.0);
    }
  }
}
