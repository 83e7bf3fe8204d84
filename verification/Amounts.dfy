/** parseDecimalAmount of the API and the balance text of the custody service. */
module Amounts {
  import opened Bytes
  import opened Numerals
  import opened Decimals

  datatype AmountResult = Amount(micro: Bytes) | Empty | Malformed | NotPositive | TooFine

  /** Bytes of the white-space character that text starts with; 0 when it starts with none. */
  function LeadingSpace(text: Bytes): (n: nat)
    ensures n <= |text|
  {
    if text == [] then 0
    else if text[0] in {'\t', '\n', '\U{0B}', '\U{0C}', '\r', ' '} then 1
    else if |text| >= 2 && text[0] == '\U{C2}' && text[1] in {'\U{85}', '\U{A0}'} then 2
    else if |text| >= 3 && IsWideSpace(text[0], text[1], text[2]) then 3
    else 0
  }

  function TrailingSpace(text: Bytes): (n: nat)
    ensures n <= |text|
  {
    var k := |text|;
    if k >= 1 && LeadingSpace(text[k - 1..]) == 1 then 1
    else if k >= 2 && LeadingSpace(text[k - 2..]) == 2 then 2
    else if k >= 3 && LeadingSpace(text[k - 3..]) == 3 then 3
    else 0
  }

  /** UTF-8 of U+1680, U+2000..U+200A, U+2028, U+2029, U+202F, U+205F and U+3000. */
  predicate IsWideSpace(a: Byte, b: Byte, c: Byte) {
    || (a == '\U{E1}' && b == '\U{9A}' && c == '\U{80}')
    || (a == '\U{E2}' && b == '\U{80}' && ('\U{80}' <= c <= '\U{8A}' || c in {'\U{A8}', '\U{A9}', '\U{AF}'}))
    || (a == '\U{E2}' && b == '\U{81}' && c == '\U{9F}')
    || (a == '\U{E3}' && b == '\U{80}' && c == '\U{80}')
  }

  /** strings.TrimSpace */
  function TrimSpace(text: Bytes): Bytes
    decreases |text|
  {
    if LeadingSpace(text) > 0 then TrimSpace(text[LeadingSpace(text)..])
    else if TrailingSpace(text) > 0 then TrimSpace(text[..|text| - TrailingSpace(text)])
    else text
  }

  // ---- white space, by code points ----

  type Rune = r: nat | r < 0x1_0000

  /** unicode.IsSpace below U+10000, where all of it is. */
  predicate IsWhite(rune: Rune) {
    || 0x9 <= rune <= 0xD || rune == 0x20 || rune == 0x85 || rune == 0xA0 || rune == 0x1680
    || 0x2000 <= rune <= 0x200A || rune == 0x2028 || rune == 0x2029 || rune == 0x202F || rune == 0x205F || rune == 0x3000
  }

  function Utf8(rune: Rune): (text: Bytes)
    ensures 1 <= |text| <= 3
  {
    if rune < 0x80 then [rune as char]
    else if rune < 0x800 then [(0xC0 + rune / 64) as char, (0x80 + rune % 64) as char]
    else [(0xE0 + rune / 4096) as char, (0x80 + rune / 64 % 64) as char, (0x80 + rune % 64) as char]
  }

  ghost predicate StartsWhite(text: Bytes) {
    exists rune: Rune :: IsWhite(rune) && Utf8(rune) <= text
  }

  ghost predicate EndsWhite(text: Bytes) {
    exists rune: Rune :: IsWhite(rune) && |Utf8(rune)| <= |text| && text[|text| - |Utf8(rune)|..] == Utf8(rune)
  }

  /** A run of white-space characters. */
  ghost predicate Blank(text: Bytes)
    decreases |text|
  {
    text == [] || exists rune: Rune :: IsWhite(rune) && Utf8(rune) <= text && Blank(text[|Utf8(rune)|..])
  }

  lemma WhiteRuneAt(text: Bytes) returns (rune: Rune)
    requires LeadingSpace(text) > 0
    ensures IsWhite(rune) && Utf8(rune) == text[..LeadingSpace(text)]
  {
    if LeadingSpace(text) == 1 {
      rune := text[0] as nat;
    } else if LeadingSpace(text) == 2 {
      rune := text[1] as nat;
      assert text[..2] == [text[0], text[1]];
    } else {
      rune := (text[0] as nat - 0xE0) * 4096 + (text[1] as nat - 0x80) * 64 + (text[2] as nat - 0x80);
      assert text[..3] == [text[0], text[1], text[2]];
      WideRune(text[0], text[1], text[2], rune);
    }
  }

  lemma WideRune(a: Byte, b: Byte, c: Byte, rune: Rune)
    requires IsWideSpace(a, b, c)
    requires rune == (a as int - 0xE0) * 4096 + (b as int - 0x80) * 64 + (c as int - 0x80)
    ensures IsWhite(rune) && Utf8(rune) == [a, b, c]
  {
  }

  lemma WhiteRuneLeads(text: Bytes, rune: Rune)
    requires IsWhite(rune) && Utf8(rune) <= text
    ensures LeadingSpace(text) == |Utf8(rune)|
  {
    if rune < 0x80 {
      assert text[0] == rune as char;
    } else if rune < 0x800 {
      assert text[0] == Utf8(rune)[0] && text[1] == Utf8(rune)[1];
    } else {
      assert text[0] == Utf8(rune)[0] && text[1] == Utf8(rune)[1] && text[2] == Utf8(rune)[2];
    }
  }

  lemma LeadingExactly(text: Bytes)
    ensures LeadingSpace(text) > 0 <==> StartsWhite(text)
  {
    hide LeadingSpace, Utf8;
    if LeadingSpace(text) > 0 {
      var rune := WhiteRuneAt(text);
    }
    if StartsWhite(text) {
      var rune: Rune :| IsWhite(rune) && Utf8(rune) <= text;
      WhiteRuneLeads(text, rune);
    }
  }

  lemma TrailingRune(text: Bytes) returns (rune: Rune)
    requires TrailingSpace(text) > 0
    ensures IsWhite(rune) && |Utf8(rune)| == TrailingSpace(text)
    ensures text[|text| - |Utf8(rune)|..] == Utf8(rune) && LeadingSpace(Utf8(rune)) == |Utf8(rune)|
  {
    hide LeadingSpace, Utf8, IsWhite;
    var end := text[|text| - TrailingSpace(text)..];
    rune := WhiteRuneAt(end);
    assert end[..|end|] == end;
  }

  lemma RuneTrails(text: Bytes, rune: Rune)
    requires IsWhite(rune) && |Utf8(rune)| <= |text| && text[|text| - |Utf8(rune)|..] == Utf8(rune)
    ensures TrailingSpace(text) > 0
  {
    hide LeadingSpace, Utf8, IsWhite;
    WhiteRuneLeads(Utf8(rune), rune);
  }

  lemma TrailingExactly(text: Bytes)
    ensures TrailingSpace(text) > 0 <==> EndsWhite(text)
  {
    hide TrailingSpace, Utf8, IsWhite;
    if TrailingSpace(text) > 0 {
      var rune := TrailingRune(text);
    }
    if EndsWhite(text) {
      var rune: Rune :| IsWhite(rune) && |Utf8(rune)| <= |text| && text[|text| - |Utf8(rune)|..] == Utf8(rune);
      RuneTrails(text, rune);
    }
  }

  lemma OneBlank(text: Bytes)
    requires text != [] && LeadingSpace(text) == |text|
    ensures Blank(text)
  {
    hide LeadingSpace, Utf8;
    var rune := WhiteRuneAt(text);
    assert text[..|text|] == text;
    assert Blank(text[|Utf8(rune)|..]);
  }

  lemma {:induction false} BlankConcat(a: Bytes, b: Bytes)
    requires Blank(a) && Blank(b)
    ensures Blank(a + b)
    decreases |a|
  {
    hide Utf8, IsWhite;
    if a == [] {
      assert a + b == b;
    } else {
      var rune: Rune :| IsWhite(rune) && Utf8(rune) <= a && Blank(a[|Utf8(rune)|..]);
      hide Blank;
      BlankConcat(a[|Utf8(rune)|..], b);
      BlankStep(rune, a, b);
    }
  }

  lemma BlankStep(rune: Rune, a: Bytes, b: Bytes)
    requires IsWhite(rune) && Utf8(rune) <= a && Blank(a[|Utf8(rune)|..] + b)
    ensures Blank(a + b)
  {
    hide Utf8, IsWhite;
    assert (a + b)[|Utf8(rune)|..] == a[|Utf8(rune)|..] + b;
  }

  /** TrimSpace takes white space off both ends, and all of it. */
  lemma {:induction false} TrimExactly(input: Bytes) returns (before: Bytes, behind: Bytes)
    ensures input == before + (TrimSpace(input) + behind) && Blank(before) && Blank(behind)
    ensures !StartsWhite(TrimSpace(input)) && !EndsWhite(TrimSpace(input))
    decreases |input|
  {
    hide LeadingSpace, TrailingSpace, StartsWhite, EndsWhite, Blank;
    LeadingExactly(input);
    TrailingExactly(input);
    NothingBlank();
    if LeadingSpace(input) > 0 {
      var n := LeadingSpace(input);
      before, behind := TrimExactly(input[n..]);
      LeadingOnly(input);
      OneBlank(input[..n]);
      BlankConcat(input[..n], before);
      assert input == input[..n] + input[n..];
      before := input[..n] + before;
    } else if TrailingSpace(input) > 0 {
      var n := |input| - TrailingSpace(input);
      before, behind := TrimExactly(input[..n]);
      var rune := TrailingRune(input);
      OneBlank(input[n..]);
      BlankConcat(behind, input[n..]);
      assert input == input[..n] + input[n..];
      behind := behind + input[n..];
    } else {
      before, behind := [], [];
    }
  }

  lemma NothingBlank()
    ensures Blank([])
  {
  }

  lemma LeadingOnly(text: Bytes)
    requires LeadingSpace(text) > 0
    ensures LeadingSpace(text[..LeadingSpace(text)]) == LeadingSpace(text)
  {
    hide LeadingSpace, Utf8;
    var rune := WhiteRuneAt(text);
    WhiteRuneLeads(text[..LeadingSpace(text)], rune);
  }

  function ParseDecimalAmount(input: Bytes): AmountResult {
    var text := TrimSpace(input);
    if text == [] then Empty
    else match FromString(text)
      case None => Malformed
      case Some(d) =>
        if d.coefficient <= 0 then NotPositive
        else
          var scaled := Mul(d, 1_000_000);
          if IsInteger(scaled) then Amount(StringFixed0(scaled)) else TooFine
  }

  /** The text of a ledger balance in whole USDC. */
  function BalanceText(micro: int): Bytes {
    String(Decimal(micro, -6))
  }

  // ---- exactness ----

  lemma {:induction false} ValueMillion(c: int, e: int)
    ensures Value(Decimal(c * 1_000_000, e)) == 1_000_000.0 * Value(Decimal(c, e))
    decreases Abs(e)
  {
    if e > 0 {
      ValueMillion(c, e - 1);
    } else if e < 0 {
      ValueMillion(c, e + 1);
    }
  }

  lemma {:induction false} ValueOrder(a: int, b: int, e: int)
    ensures a < b <==> Value(Decimal(a, e)) < Value(Decimal(b, e))
    decreases Abs(e)
  {
    if e > 0 {
      ValueOrder(a, b, e - 1);
    } else if e < 0 {
      ValueOrder(a, b, e + 1);
    }
  }

  lemma {:induction false} ZeroValue(e: int)
    ensures Value(Decimal(0, e)) == 0.0
    decreases Abs(e)
  {
    if e > 0 {
      ZeroValue(e - 1);
    } else if e < 0 {
      ZeroValue(e + 1);
    }
  }

  lemma {:induction false} EndsInZerosIsScaled(c: int, k: nat)
    ensures EndsInZeros(c, k) <==> c == Scaled(Cut(c, k), k)
    decreases k
  {
    if k > 0 {
      EndsInZerosIsScaled(c / 10, k - 1);
    }
  }

  lemma {:induction false} CutScaled(q: int, k: nat)
    ensures Cut(Scaled(q, k), k) == q
  {
    if k > 0 {
      assert Scaled(q, k) / 10 == Scaled(q, k - 1);
      CutScaled(q, k - 1);
    }
  }

  lemma {:induction false} ScaledTen(q: int, k: nat)
    ensures Scaled(10 * q, k) == 10 * Scaled(q, k)
  {
    if k > 0 {
      ScaledTen(q, k - 1);
    }
  }

  /** A decimal is the integer q exactly when the library says it is one and prints it as q. */
  lemma IntegerValue(d: Decimal, q: nat)
    requires d.coefficient >= 0
    ensures Value(d) == q as real <==> IsInteger(d) && StringFixed0(d) == Numeral(q)
  {
    if d.exponent >= 0 {
      WholeValue(d, q);
    } else {
      FractionValue(d, -d.exponent, q);
    }
  }

  lemma WholeValue(d: Decimal, q: nat)
    requires d.coefficient >= 0 && d.exponent >= 0
    ensures Value(d) == q as real <==> StringFixed0(d) == Numeral(q)
  {
    var n := Scaled(d.coefficient, d.exponent);
    ValueShift(d.coefficient, d.exponent, d.exponent);
    ScaledSign(d.coefficient, d.exponent);
    assert IntText(n) == Numeral(n);
    if Numeral(n) == Numeral(q) {
      NumeralIsInjective(n, q);
    }
  }

  lemma {:induction false} ScaledSign(c: int, k: nat)
    requires c >= 0
    ensures Scaled(c, k) >= 0
  {
    if k > 0 {
      ScaledSign(c, k - 1);
    }
  }

  lemma {:induction false} CutSign(c: int, k: nat)
    requires c >= 0
    ensures Cut(c, k) >= 0
    decreases k
  {
    if k > 0 {
      CutSign(c / 10, k - 1);
    }
  }

  lemma FractionValue(d: Decimal, k: int, q: nat)
    requires d.coefficient >= 0 && k > 0 && d.exponent == -k
    ensures Value(d) == q as real <==> EndsInZeros(d.coefficient, k) && StringFixed0(d) == Numeral(q)
  {
    hide Value, Numeral;
    var c := d.coefficient;
    var n := Cut(c, k);
    ScaledValue(q, k);
    ValueOrder(c, Scaled(q, k), -k);
    ValueOrder(Scaled(q, k), c, -k);
    CutScaled(q, k);
    EndsInZerosIsScaled(c, k);
    if EndsInZeros(c, k) {
      CutSign(c, k);
      RoundsToItself(n, k);
      assert IntText(n) == Numeral(n);
      if Numeral(n) == Numeral(q) {
        NumeralIsInjective(n, q);
      }
    }
  }

  lemma ScaledValue(q: int, k: nat)
    ensures Value(Decimal(Scaled(q, k), 0 - k)) == q as real
  {
    ValueShift(q, 0, k);
  }

  lemma RoundsToItself(n: int, k: nat)
    requires k > 0
    ensures (Cut(Scaled(n, k), k - 1) + 5) / 10 == n
  {
    ScaledTen(n, k - 1);
    CutScaled(10 * n, k - 1);
  }

  /** The amount a text stands for, in whole USDC; none when it is no numeral. */
  ghost function Reading(input: Bytes): Option<real> {
    match FromString(TrimSpace(input))
    case None => None
    case Some(d) => Some(Value(d))
  }

  /** The text stands for the positive amount n / 10^6. */
  ghost predicate StandsFor(input: Bytes, n: nat) {
    Reading(input).Some? && Reading(input).value > 0.0 && 1_000_000.0 * Reading(input).value == n as real
  }

  lemma PositiveCoefficient(d: Decimal)
    ensures d.coefficient > 0 <==> Value(d) > 0.0
  {
    ZeroValue(d.exponent);
    ValueOrder(0, d.coefficient, d.exponent);
  }

  lemma MillionTimes(d: Decimal)
    ensures Value(Mul(d, 1_000_000)) == 1_000_000.0 * Value(d)
  {
    ValueMillion(d.coefficient, d.exponent);
  }

  lemma EmptyIsNoNumeral()
    ensures FromString([]) == None
  {
    assert Before([], {'E', 'e'}) == 0;
    assert Before([], {'.'}) == 0;
    assert ParseInteger([] + []) == None;
  }

  /** n micro-units are accepted exactly when the text stands for the positive number n / 10^6. */
  lemma AmountIsExact(input: Bytes, n: nat)
    ensures ParseDecimalAmount(input) == Amount(Numeral(n)) <==> StandsFor(input, n)
  {
    hide FromString, Value, IsInteger, StringFixed0, Numeral, TrimSpace;
    EmptyIsNoNumeral();
    if FromString(TrimSpace(input)).Some? {
      var d := FromString(TrimSpace(input)).value;
      PositiveCoefficient(d);
      if d.coefficient > 0 {
        MillionTimes(d);
        IntegerValue(Mul(d, 1_000_000), n);
      }
    }
  }

  lemma AcceptedText(input: Bytes) returns (n: nat)
    requires ParseDecimalAmount(input).Amount?
    ensures ParseDecimalAmount(input) == Amount(Numeral(n))
  {
    hide FromString, TrimSpace, Numeral;
    var scaled := Mul(FromString(TrimSpace(input)).value, 1_000_000);
    if scaled.exponent >= 0 {
      ScaledSign(scaled.coefficient, scaled.exponent);
      n := Scaled(scaled.coefficient, scaled.exponent);
    } else {
      CutSign(scaled.coefficient, -scaled.exponent - 1);
      n := (Cut(scaled.coefficient, -scaled.exponent - 1) + 5) / 10;
    }
  }

  /** Each rejection has one cause. */
  lemma RejectionCauses(input: Bytes)
    ensures ParseDecimalAmount(input).Empty? || ParseDecimalAmount(input).Malformed? <==> Reading(input).None?
    ensures ParseDecimalAmount(input).Empty? <==> TrimSpace(input) == []
    ensures ParseDecimalAmount(input) == NotPositive <==> Reading(input).Some? && Reading(input).value <= 0.0
    ensures ParseDecimalAmount(input) == TooFine <==>
            && Reading(input).Some? && Reading(input).value > 0.0
            && forall n: nat :: !StandsFor(input, n)
  {
    hide FromString, Value, IsInteger, StringFixed0, TrimSpace;
    EmptyIsNoNumeral();
    if FromString(TrimSpace(input)).Some? {
      PositiveCoefficient(FromString(TrimSpace(input)).value);
    }
    forall n: nat ensures StandsFor(input, n) <==> ParseDecimalAmount(input) == Amount(Numeral(n)) {
      AmountIsExact(input, n);
    }
    if ParseDecimalAmount(input).Amount? {
      var n := AcceptedText(input);
      AmountIsExact(input, n);
    }
  }

  // ---- printed amounts are read back ----

  predicate IsPlain(text: Bytes) {
    forall i :: 0 <= i < |text| ==> IsDigit(text[i]) || text[i] == '.' || text[i] == '-'
  }

  lemma PlainIsNoSpace(text: Bytes)
    requires IsPlain(text)
    ensures LeadingSpace(text) == 0
  {
  }

  lemma PlainHasNoTrailingSpace(text: Bytes)
    requires IsPlain(text)
    ensures TrailingSpace(text) == 0
  {
    hide LeadingSpace;
    forall k | 0 <= k <= |text| ensures LeadingSpace(text[k..]) == 0 {
      PlainIsNoSpace(text[k..]);
    }
  }

  lemma PlainTextIsTrimmed(text: Bytes)
    requires IsPlain(text)
    ensures TrimSpace(text) == text
  {
    hide LeadingSpace, TrailingSpace, IsPlain;
    PlainIsNoSpace(text);
    PlainHasNoTrailingSpace(text);
  }

  lemma MicroValue(micro: int)
    ensures 1_000_000.0 * Value(Decimal(micro, -6)) == micro as real
  {
    assert Scaled(micro, 1) == 10 * micro;
    assert Scaled(micro, 2) == 100 * micro;
    assert Scaled(micro, 3) == 1_000 * micro;
    assert Scaled(micro, 4) == 10_000 * micro;
    assert Scaled(micro, 5) == 100_000 * micro;
    ValueShift(micro, 0, 6);
    ValueMillion(micro, -6);
  }

  lemma UnsignedIsPlain(coefficient: nat, places: nat)
    ensures IsPlain(Unsigned(coefficient, places))
  {
    hide IntegerPart, FractionPart, Numeral;
    PartsAreDigits(Numeral(coefficient), places);
  }

  lemma StringIsPlain(d: Decimal)
    ensures IsPlain(String(d))
  {
    hide Unsigned, Numeral, Scaled;
    if d.exponent < 0 {
      UnsignedIsPlain(Abs(d.coefficient), -d.exponent);
    }
  }

  lemma ReadingOfString(d: Decimal)
    requires IsInt32(d.exponent)
    ensures Reading(String(d)) == Some(Value(d)) && String(d) != []
  {
    hide String, FromString, Value;
    StringIsPlain(d);
    PlainTextIsTrimmed(String(d));
    var _ := StringRoundTrip(d);
    EmptyIsNoNumeral();
  }

  /** The amount parser undoes the balance text: every positive balance reads back as itself. */
  lemma BalanceRoundTrip(micro: int)
    ensures micro > 0 ==> ParseDecimalAmount(BalanceText(micro)) == Amount(Numeral(micro))
    ensures micro <= 0 ==> ParseDecimalAmount(BalanceText(micro)) == NotPositive
  {
    hide String, Numeral, ParseDecimalAmount, Value, Reading;
    var d := Decimal(micro, -6);
    MicroValue(micro);
    PositiveCoefficient(d);
    ReadingOfString(d);
    if micro > 0 {
      AmountIsExact(String(d), micro);
    }
    RejectionCauses(String(d));
  }
}
