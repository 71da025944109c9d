/** Integers as decimal text, and reading integers and decimal numbers from text. */
module Decimals {
  import opened Options

  const DIGITS := "0123456789"

  function Digits(n: nat): string {
    if n < 10 then [DIGITS[n]] else Digits(n / 10) + [DIGITS[n % 10]]
  }

  function Itoa(n: int): string {
    if n < 0 then "-" + Digits(-n) else Digits(n)
  }

  function DigitValue(c: char): int {
    c as int - '0' as int
  }

  function Value(s: string): int {
    if s == "" then 0 else 10 * Value(s[..|s| - 1]) + DigitValue(s[|s| - 1])
  }

  predicate AllDigits(s: string) {
    s != "" && forall c | c in s :: '0' <= c <= '9'
  }

  /** An optional sign and at least one digit. */
  function ReadInt(s: string): Opt<int> {
    if s == "" then None
    else
      var body := if s[0] == '-' || s[0] == '+' then s[1..] else s;
      if !AllDigits(body) then None else Some(if s[0] == '-' then -Value(body) else Value(body))
  }

  lemma {:induction false} DigitsReadBack(n: nat)
    ensures Value(Digits(n)) == n && AllDigits(Digits(n))
  {
    assert forall d | 0 <= d < 10 :: DigitValue(DIGITS[d]) == d && '0' <= DIGITS[d] <= '9';
    if n < 10 {
      assert Digits(n)[..0] == "";
      assert Value("") == 0;
    } else {
      DigitsReadBack(n / 10);
      assert Digits(n)[..|Digits(n)| - 1] == Digits(n / 10);
    }
  }

  lemma DigitsReadAsInt(s: string)
    requires AllDigits(s)
    ensures ReadInt(s) == Some(Value(s)) && ReadInt("-" + s) == Some(-Value(s))
  {
    assert s[0] in s;
    assert ("-" + s)[1..] == s;
  }

  /** Every integer is read back from its text, which holds only digits and at most a minus sign. */
  lemma ItoaReadBack(n: int)
    ensures ReadInt(Itoa(n)) == Some(n)
    ensures forall c | c in Itoa(n) :: c == '-' || '0' <= c <= '9'
  {
    var size := if n < 0 then -n else n;
    DigitsReadBack(size);
    DigitsReadAsInt(Digits(size));
  }

  // ----- Decimal numbers: a mantissa with at most one point, and an optional exponent -----

  function IndexOf(s: string, wanted: char -> bool): (i: nat)
    ensures i <= |s| && (i < |s| ==> wanted(s[i])) && forall j | 0 <= j < i :: !wanted(s[j])
  {
    if s == "" || wanted(s[0]) then 0 else 1 + IndexOf(s[1..], wanted)
  }

  /** The decimal point moved by so many places. */
  function Shifted(x: real, places: int): real
    decreases if places < 0 then -places else places
  {
    if places == 0 then x
    else if places > 0 then 10.0 * Shifted(x, places - 1)
    else Shifted(x, places + 1) / 10.0
  }

  predicate FitsInt32(n: int) {
    -0x8000_0000 <= n < 0x8000_0000
  }

  /** The point is dropped from the mantissa and counted in the exponent. */
  function ReadMantissa(s: string, exponent: int): Opt<real> {
    var point := IndexOf(s, c => c == '.');
    var fraction := if point < |s| then s[point + 1..] else "";
    var digits := ReadInt(s[..point] + fraction);
    if '.' in fraction || digits.None? || !FitsInt32(exponent - |fraction|) then None
    else Some(Shifted(digits.value as real, exponent - |fraction|))
  }

  function ReadDecimal(s: string): Opt<real> {
    var e := IndexOf(s, c => c == 'e' || c == 'E');
    if e == |s| then ReadMantissa(s, 0)
    else
      var exponent := ReadInt(s[e + 1..]);
      if exponent.None? || !FitsInt32(exponent.value) then None else ReadMantissa(s[..e], exponent.value)
  }

  lemma {:induction false} ShiftedSum(x: real, y: real, places: int)
    ensures Shifted(x + y, places) == Shifted(x, places) + Shifted(y, places)
    decreases if places < 0 then -places else places
  {
    if places != 0 {
      ShiftedSum(x, y, if places > 0 then places - 1 else places + 1);
    }
  }

  lemma {:induction false} ShiftedNegated(x: real, places: int)
    ensures Shifted(-x, places) == -Shifted(x, places)
    decreases if places < 0 then -places else places
  {
    if places != 0 {
      ShiftedNegated(x, if places > 0 then places - 1 else places + 1);
    }
  }

  lemma ShiftedNext(x: real, places: int)
    ensures Shifted(x, places) == 10.0 * Shifted(x, places - 1)
  {
  }

  lemma {:induction false} ShiftedTwice(x: real, m: int, n: int)
    ensures Shifted(Shifted(x, m), n) == Shifted(x, m + n)
    decreases if n < 0 then -n else n
  {
    if n > 0 {
      ShiftedTwice(x, m, n - 1);
      ShiftedNext(x, m + n);
    } else if n < 0 {
      ShiftedTwice(x, m, n + 1);
      ShiftedNext(x, m + n + 1);
    }
  }

  lemma {:induction false} ValueConcat(a: string, b: string)
    ensures Value(a + b) as real == Shifted(Value(a) as real, |b|) + Value(b) as real
  {
    if b == "" {
      assert a + b == a;
    } else {
      var past := b[..|b| - 1];
      ValueConcat(a, past);
      assert (a + b)[..|a + b| - 1] == a + past;
    }
  }

  lemma FirstAt(a: string, c: char, b: string, wanted: char -> bool)
    requires wanted(c) && forall x | x in a :: !wanted(x)
    ensures IndexOf(a + [c] + b, wanted) == |a|
  {
    var s := a + [c] + b;
    assert s[|a|] == c;
    assert forall i | 0 <= i < |a| :: s[i] == a[i] && a[i] in a;
  }

  predicate IsSign(sign: string) {
    sign == "" || sign == "+" || sign == "-"
  }

  lemma SignedRead(sign: string, digits: string)
    requires IsSign(sign) && AllDigits(digits)
    ensures ReadInt(sign + digits) == Some(if sign == "-" then -Value(digits) else Value(digits))
  {
    assert digits[0] in digits;
    if sign == "" {
      assert sign + digits == digits;
    } else {
      assert (sign + digits)[1..] == digits;
    }
  }

  lemma MantissaParts(before: string, fraction: string, exponent: int, n: int, x: real)
    requires '.' !in before && '.' !in fraction && FitsInt32(exponent - |fraction|)
    requires ReadInt(before + fraction) == Some(n) && x == Shifted(n as real, exponent - |fraction|)
    ensures ReadMantissa(before + "." + fraction, exponent) == Some(x)
  {
    var s := before + "." + fraction;
    FirstAt(before, '.', fraction, c => c == '.');
    assert s == before + ['.'] + fraction;
    assert s[..|before|] == before && s[|before| + 1..] == fraction;
  }

  lemma MantissaRead(sign: string, whole: string, fraction: string, exponent: int)
    requires IsSign(sign) && AllDigits(whole) && (fraction == "" || AllDigits(fraction))
    requires FitsInt32(exponent - |fraction|)
    ensures
      var size := Shifted(Value(whole) as real + Shifted(Value(fraction) as real, -|fraction|), exponent);
      ReadMantissa(sign + whole + "." + fraction, exponent) == Some(if sign == "-" then -size else size)
  {
    var digits := whole + fraction;
    assert (sign + whole) + fraction == sign + digits;
    SignedRead(sign, digits);
    ScaledValue(whole, fraction, exponent);
    ShiftedNegated(Value(digits) as real, exponent - |fraction|);
    var size := Shifted(Value(whole) as real + Shifted(Value(fraction) as real, -|fraction|), exponent);
    if sign == "-" {
      MantissaParts(sign + whole, fraction, exponent, -Value(digits), -size);
    } else {
      MantissaParts(sign + whole, fraction, exponent, Value(digits), size);
    }
  }

  lemma ScaledValue(whole: string, fraction: string, exponent: int)
    ensures Shifted(Value(whole + fraction) as real, exponent - |fraction|) ==
      Shifted(Value(whole) as real + Shifted(Value(fraction) as real, -|fraction|), exponent)
  {
    var n, w, f, v := |fraction|, Value(whole) as real, Value(fraction) as real, Value(whole + fraction) as real;
    ValueConcat(whole, fraction);
    ShiftedSum(Shifted(w, n), f, -n);
    ShiftedTwice(w, n, -n);
    ShiftedTwice(v, -n, exponent);
  }

  /** A sign, digits, a point, digits and an exponent are read as the number they spell. */
  lemma DecimalMeans(sign: string, whole: string, fraction: string, mark: char, exponent: int)
    requires IsSign(sign) && AllDigits(whole) && (fraction == "" || AllDigits(fraction)) && (mark == 'e' || mark == 'E')
    requires FitsInt32(exponent) && FitsInt32(exponent - |fraction|)
    ensures
      var size := Shifted(Value(whole) as real + Shifted(Value(fraction) as real, -|fraction|), exponent);
      ReadDecimal(sign + whole + "." + fraction + [mark] + Itoa(exponent)) == Some(if sign == "-" then -size else size)
  {
    var before, after := sign + whole + "." + fraction, Itoa(exponent);
    var s := before + [mark] + after;
    FirstAt(before, mark, after, c => c == 'e' || c == 'E');
    assert s[..|before|] == before && s[|before| + 1..] == after;
    ItoaReadBack(exponent);
    MantissaRead(sign, whole, fraction, exponent);
  }

  lemma DecimalReadBack(n: int)
    ensures ReadDecimal(Itoa(n)) == Some(n as real)
  {
    var s := Itoa(n);
    ItoaReadBack(n);
    var e, point := IndexOf(s, c => c == 'e' || c == 'E'), IndexOf(s, c => c == '.');
    assert forall i | 0 <= i < |s| :: s[i] in s;
    assert e == |s| && point == |s|;
    assert s[..point] + "" == s;
  }
}
