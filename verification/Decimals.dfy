/** The decimal type of shopspring/decimal: coefficient * 10^exponent with a 32-bit exponent. */
module Decimals {
  import opened Bytes
  import opened Numerals

  datatype Decimal = Decimal(coefficient: int, exponent: int)

  const MIN_INT32 := -0x8000_0000
  const MAX_INT32 := 0x7FFF_FFFF

  predicate IsInt32(n: int) {
    MIN_INT32 <= n <= MAX_INT32
  }

  /** The number coefficient * 10^exponent. */
  function Value(d: Decimal): real
    decreases Abs(d.exponent)
  {
    if d.exponent == 0 then d.coefficient as real
    else if d.exponent > 0 then 10.0 * Value(Decimal(d.coefficient, d.exponent - 1))
    else Value(Decimal(d.coefficient, d.exponent + 1)) / 10.0
  }

  // ---- NewFromString ----

  /** Length of the part of text before the first of the given bytes. */
  function Before(text: Bytes, stops: set<Byte>): (n: nat)
    ensures n <= |text|
    ensures forall i :: 0 <= i < n ==> text[i] !in stops
    ensures n < |text| ==> text[n] in stops
  {
    if text == [] || text[0] in stops then 0 else 1 + Before(text[1..], stops)
  }

  function ParseExponent(text: Bytes): Option<int> {
    var e := Before(text, {'E', 'e'});
    if e == |text| then Some(0)
    else match ParseInteger(text[e + 1..])
      case Some(n) => if IsInt32(n) then Some(n) else None
      case None => None
  }

  function FromDigits(head: Bytes, fraction: Bytes, exponent: int): Option<Decimal> {
    match ParseInteger(head + fraction)
    case None => None
    case Some(coefficient) =>
      var e := exponent - |fraction|;
      if IsInt32(e) then Some(Decimal(coefficient, e)) else None
  }

  function FromMantissa(mantissa: Bytes, exponent: int): Option<Decimal> {
    var dot := Before(mantissa, {'.'});
    if dot == |mantissa| then FromDigits(mantissa, [], exponent)
    else if '.' in mantissa[dot + 1..] then None
    else FromDigits(mantissa[..dot], mantissa[dot + 1..], exponent)
  }

  function FromString(text: Bytes): Option<Decimal> {
    match ParseExponent(text)
    case None => None
    case Some(exponent) => FromMantissa(text[..Before(text, {'E', 'e'})], exponent)
  }

  // ---- String ----

  function Zeros(n: nat): (text: Bytes)
    ensures |text| == n && forall i :: 0 <= i < n ==> text[i] == '0'
  {
    if n == 0 then [] else ['0'] + Zeros(n - 1)
  }

  function TrimZeros(text: Bytes): (trimmed: Bytes)
    ensures trimmed <= text
    ensures forall i :: |trimmed| <= i < |text| ==> text[i] == '0'
  {
    if text != [] && text[|text| - 1] == '0' then TrimZeros(text[..|text| - 1]) else text
  }

  /** Digits before and after the point, for a negative exponent. */
  function IntegerPart(digits: Bytes, places: nat): Bytes {
    if |digits| > places then digits[..|digits| - places] else ['0']
  }

  function FractionPart(digits: Bytes, places: nat): Bytes {
    if |digits| > places then digits[|digits| - places..] else Zeros(places - |digits|) + digits
  }

  function Pointed(fraction: Bytes): Bytes {
    if fraction == [] then [] else ['.'] + fraction
  }

  function Unsigned(coefficient: nat, places: nat): Bytes {
    var digits := Numeral(coefficient);
    var fraction := TrimZeros(FractionPart(digits, places));
    IntegerPart(digits, places) + Pointed(fraction)
  }

  function String(d: Decimal): Bytes {
    if d.exponent >= 0 then IntText(Scaled(d.coefficient, d.exponent))
    else SignOf(d.coefficient) + Unsigned(Abs(d.coefficient), -d.exponent)
  }

  // ---- arithmetic used on amounts ----

  function Mul(d: Decimal, factor: int): Decimal {
    Decimal(d.coefficient * factor, d.exponent)
  }

  /** Strips k digits, all of which have to be zero. */
  predicate EndsInZeros(c: int, k: nat)
    decreases k
  {
    k == 0 || (c % 10 == 0 && EndsInZeros(c / 10, k - 1))
  }

  predicate IsInteger(d: Decimal) {
    d.exponent >= 0 || EndsInZeros(d.coefficient, -d.exponent)
  }

  function Cut(c: int, k: nat): int
    decreases k
  {
    if k == 0 then c else Cut(c / 10, k - 1)
  }

  /** StringFixed(0) of a non-negative decimal: cut to tenths, then round half up. */
  function StringFixed0(d: Decimal): Bytes
    requires d.coefficient >= 0
  {
    if d.exponent >= 0 then IntText(Scaled(d.coefficient, d.exponent))
    else IntText((Cut(d.coefficient, -d.exponent - 1) + 5) / 10)
  }

  // ---- reading back what String prints ----

  predicate Avoids(text: Bytes, stops: set<Byte>) {
    forall i :: 0 <= i < |text| ==> text[i] !in stops
  }

  lemma {:induction false} BeforeFirst(before: Bytes, rest: Bytes, stops: set<Byte>)
    requires Avoids(before, stops)
    requires rest == [] || rest[0] in stops
    ensures Before(before + rest, stops) == |before|
  {
    if before == [] {
      assert before + rest == rest;
    } else {
      assert (before + rest)[1..] == before[1..] + rest;
      BeforeFirst(before[1..], rest, stops);
    }
  }

  function Signed(sign: int, n: int): int {
    if sign < 0 then -n else n
  }

  lemma ReadSigned(sign: int, digits: Bytes)
    requires digits != [] && AllDigits(digits)
    ensures ParseInteger(SignOf(sign) + digits) == Some(Signed(sign, Denotes(digits)))
  {
    assert IsDigit(digits[0]);
    if sign < 0 {
      assert (SignOf(sign) + digits)[1..] == digits;
    } else {
      assert SignOf(sign) + digits == digits;
    }
  }

  lemma NoExponent(text: Bytes)
    requires Avoids(text, {'E', 'e'})
    ensures FromString(text) == FromMantissa(text, 0)
  {
    BeforeFirst(text, [], {'E', 'e'});
    assert text + [] == text;
    assert text[..|text|] == text;
  }

  lemma SplitAtPoint(head: Bytes, fraction: Bytes, exponent: int)
    requires Avoids(head, {'.'})
    requires AllDigits(fraction)
    ensures FromMantissa(head + Pointed(fraction), exponent) == FromDigits(head, fraction, exponent)
  {
    var text := head + Pointed(fraction);
    BeforeFirst(head, Pointed(fraction), {'.'});
    if fraction == [] {
      assert text == head;
    } else {
      assert text[..|head|] == head;
      assert text[|head| + 1..] == fraction;
    }
  }

  lemma PlainAvoids(sign: int, whole: Bytes, fraction: Bytes)
    requires AllDigits(whole) && AllDigits(fraction)
    ensures Avoids(SignOf(sign) + whole, {'.'})
    ensures Avoids((SignOf(sign) + whole) + Pointed(fraction), {'E', 'e'})
  {
  }

  /** Text of the shape sign? digits (. digits)? denotes its digits, scaled by the places after the point. */
  lemma ReadPlain(sign: int, whole: Bytes, fraction: Bytes)
    requires whole != [] && AllDigits(whole) && AllDigits(fraction) && AllDigits(whole + fraction)
    requires IsInt32(-|fraction|)
    ensures FromString((SignOf(sign) + whole) + Pointed(fraction)) ==
            Some(Decimal(Signed(sign, Denotes(whole + fraction)), -|fraction|))
  {
    PlainAvoids(sign, whole, fraction);
    NoExponent((SignOf(sign) + whole) + Pointed(fraction));
    SplitAtPoint(SignOf(sign) + whole, fraction, 0);
    ReadSigned(sign, whole + fraction);
    Assoc(SignOf(sign), whole, fraction);
  }

  /** The same with an exponent behind it: every text of the shape sign? digits (. digits)? e sign? digits. */
  lemma ReadScientific(sign: int, whole: Bytes, fraction: Bytes, e: Byte, x: int)
    requires whole != [] && AllDigits(whole) && AllDigits(fraction) && AllDigits(whole + fraction)
    requires e in {'E', 'e'} && IsInt32(x) && IsInt32(x - |fraction|)
    ensures FromString(((SignOf(sign) + whole) + Pointed(fraction)) + ([e] + IntText(x))) ==
            Some(Decimal(Signed(sign, Denotes(whole + fraction)), x - |fraction|))
  {
    hide FromString, FromMantissa, ParseInteger, AllDigits, Denotes, IntText;
    PlainAvoids(sign, whole, fraction);
    IntTextIsRead(x);
    CutExponent((SignOf(sign) + whole) + Pointed(fraction), e, IntText(x), x);
    SplitAtPoint(SignOf(sign) + whole, fraction, x);
    ReadSigned(sign, whole + fraction);
    Assoc(SignOf(sign), whole, fraction);
  }

  lemma CutExponent(mantissa: Bytes, e: Byte, tail: Bytes, x: int)
    requires Avoids(mantissa, {'E', 'e'}) && e in {'E', 'e'} && ParseInteger(tail) == Some(x) && IsInt32(x)
    ensures FromString(mantissa + ([e] + tail)) == FromMantissa(mantissa, x)
  {
    hide ParseInteger, FromMantissa;
    var text := mantissa + ([e] + tail);
    BeforeFirst(mantissa, [e] + tail, {'E', 'e'});
    assert text[..|mantissa|] == mantissa && text[|mantissa| + 1..] == tail;
  }

  lemma IntTextIsRead(n: int)
    ensures ParseInteger(IntText(n)) == Some(n)
  {
    ReadSigned(n, Numeral(Abs(n)));
    NumeralDenotes(Abs(n));
  }

  lemma PaddedDenotes(zeros: Bytes, digits: Bytes)
    requires AllDigits(digits) && forall i :: 0 <= i < |zeros| ==> zeros[i] == '0'
    ensures AllDigits(zeros + digits) && Denotes(zeros + digits) == Denotes(digits)
  {
    DenotesZeros(zeros);
    DenotesConcat(zeros, digits);
    ScaledZero(|digits|);
  }

  lemma PartsConcat(digits: Bytes, places: nat) returns (zeros: Bytes)
    ensures IntegerPart(digits, places) + FractionPart(digits, places) == zeros + digits
    ensures forall i :: 0 <= i < |zeros| ==> zeros[i] == '0'
  {
    if |digits| > places {
      zeros := [];
    } else {
      zeros := ['0'] + Zeros(places - |digits|);
      Assoc(['0'], Zeros(places - |digits|), digits);
    }
  }

  lemma PartsAreDigits(digits: Bytes, places: nat)
    requires AllDigits(digits)
    ensures IntegerPart(digits, places) != [] && AllDigits(IntegerPart(digits, places))
    ensures AllDigits(FractionPart(digits, places)) && |FractionPart(digits, places)| == places
  {
  }

  lemma TrimDenotes(whole: Bytes, fraction: Bytes)
    requires AllDigits(whole) && AllDigits(fraction)
    ensures var trimmed := TrimZeros(fraction);
            Denotes(whole + fraction) == Scaled(Denotes(whole + trimmed), |fraction| - |trimmed|)
  {
    var trimmed := TrimZeros(fraction);
    var zeros := fraction[|trimmed|..];
    assert whole + fraction == (whole + trimmed) + zeros;
    DenotesZeros(zeros);
    DenotesConcat(whole + trimmed, zeros);
  }

  lemma {:induction false} ValueTimesTen(m: int, e: int)
    ensures Value(Decimal(10 * m, e)) == 10.0 * Value(Decimal(m, e))
    decreases Abs(e)
  {
    if e > 0 {
      ValueTimesTen(m, e - 1);
    } else if e < 0 {
      ValueTimesTen(m, e + 1);
    }
  }

  lemma {:induction false} ValueShift(m: int, e: int, k: nat)
    ensures Value(Decimal(Scaled(m, k), e - k)) == Value(Decimal(m, e))
  {
    if k > 0 {
      ValueShift(m, e, k - 1);
      ValueTimesTen(Scaled(m, k - 1), e - k);
    }
  }

  lemma WholeRoundTrip(n: int)
    ensures FromString(IntText(n)) == Some(Decimal(n, 0))
  {
    var digits := Numeral(Abs(n));
    assert digits + [] == digits;
    ReadPlain(n, digits, []);
    NumeralDenotes(Abs(n));
    assert (SignOf(n) + digits) + Pointed([]) == IntText(n);
  }

  /** The digits that String keeps, and how many places of the coefficient they stand for. */
  lemma KeptDigits(digits: Bytes, places: nat)
    requires AllDigits(digits)
    ensures var whole, kept := IntegerPart(digits, places), TrimZeros(FractionPart(digits, places));
            && whole != [] && AllDigits(whole) && AllDigits(kept) && |kept| <= places && AllDigits(whole + kept)
            && Denotes(digits) == Scaled(Denotes(whole + kept), places - |kept|)
  {
    var zeros := PartsConcat(digits, places);
    PaddedDenotes(zeros, digits);
    PartsAreDigits(digits, places);
    TrimDenotes(IntegerPart(digits, places), FractionPart(digits, places));
  }

  lemma FractionText(c: int, e: int) returns (whole: Bytes, kept: Bytes)
    requires e < 0
    ensures String(Decimal(c, e)) == (SignOf(c) + whole) + Pointed(kept)
    ensures whole != [] && AllDigits(whole) && AllDigits(kept) && AllDigits(whole + kept) && |kept| <= -e
    ensures Abs(c) == Scaled(Denotes(whole + kept), -e - |kept|)
  {
    hide Denotes, AllDigits, IntegerPart, FractionPart, TrimZeros, Numeral, Pointed;
    var digits := Numeral(Abs(c));
    whole, kept := IntegerPart(digits, -e), TrimZeros(FractionPart(digits, -e));
    NumeralDenotes(Abs(c));
    KeptDigits(digits, -e);
    Assoc(SignOf(c), whole, Pointed(kept));
  }

  lemma {:induction false} TrimmedEnd(text: Bytes)
    ensures TrimZeros(text) == [] || TrimZeros(text)[|TrimZeros(text)| - 1] != '0'
  {
    if text != [] && text[|text| - 1] == '0' {
      TrimmedEnd(text[..|text| - 1]);
    }
  }

  /** String prints the shortest plain form: no zero in front except a single one, none behind the last digit of a
      fraction, and no point without a fraction. */
  lemma StringIsShortest(d: Decimal) returns (whole: Bytes, fraction: Bytes)
    ensures String(d) == (SignOf(d.coefficient) + whole) + Pointed(fraction)
    ensures whole != [] && AllDigits(whole) && AllDigits(fraction)
    ensures |whole| > 1 ==> whole[0] != '0'
    ensures fraction == [] || fraction[|fraction| - 1] != '0'
  {
    hide Denotes, TrimZeros, Scaled;
    if d.exponent >= 0 {
      whole, fraction := Numeral(Abs(Scaled(d.coefficient, d.exponent))), [];
      SameSignScaled(d.coefficient, d.exponent);
      NumeralStart(Abs(Scaled(d.coefficient, d.exponent)));
      assert (SignOf(d.coefficient) + whole) + [] == SignOf(d.coefficient) + whole;
    } else {
      var digits := Numeral(Abs(d.coefficient));
      var places := -d.exponent;
      whole, fraction := IntegerPart(digits, places), TrimZeros(FractionPart(digits, places));
      PartsAreDigits(digits, places);
      NumeralStart(Abs(d.coefficient));
      TrimmedEnd(FractionPart(digits, places));
      Assoc(SignOf(d.coefficient), whole, Pointed(fraction));
    }
  }

  lemma NumeralStart(n: nat)
    ensures |Numeral(n)| > 1 ==> Numeral(n)[0] != '0'
  {
  }

  lemma {:induction false} SameSignScaled(c: int, k: nat)
    ensures Scaled(c, k) < 0 <==> c < 0
  {
    if k > 0 {
      SameSignScaled(c, k - 1);
    }
  }

  lemma FractionRoundTrip(c: int, e: int) returns (m: int, dropped: nat)
    requires e < 0 && IsInt32(e)
    ensures c == Scaled(m, dropped)
    ensures FromString(String(Decimal(c, e))) == Some(Decimal(m, e + dropped))
  {
    hide String, Denotes, FromString, ParseInteger, AllDigits;
    var whole, kept := FractionText(c, e);
    ReadPlain(c, whole, kept);
    m, dropped := Signed(c, Denotes(whole + kept)), -e - |kept|;
    SignedScaled(c, Denotes(whole + kept), dropped);
  }

  lemma {:induction false} SignedScaled(sign: int, n: int, k: nat)
    ensures Scaled(Signed(sign, n), k) == Signed(sign, Scaled(n, k))
  {
    if k > 0 {
      SignedScaled(sign, n, k - 1);
    }
  }

  /** Printing and reading a decimal back loses nothing. */
  lemma StringRoundTrip(d: Decimal) returns (read: Decimal)
    requires IsInt32(d.exponent)
    ensures FromString(String(d)) == Some(read) && Value(read) == Value(d)
  {
    hide Value, FromString, IntText, Unsigned;
    if d.exponent >= 0 {
      WholeRoundTrip(Scaled(d.coefficient, d.exponent));
      read := Decimal(Scaled(d.coefficient, d.exponent), 0);
      ValueShift(d.coefficient, d.exponent, d.exponent);
    } else {
      var m, dropped := FractionRoundTrip(d.coefficient, d.exponent);
      read := Decimal(m, d.exponent + dropped);
      ValueShift(m, d.exponent + dropped, dropped);
    }
  }
}
