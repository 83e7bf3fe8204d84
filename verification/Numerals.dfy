/** Decimal text of integers, as math/big and strconv print and read it. */
module Numerals {
  import opened Bytes

  predicate AllDigits(text: Bytes) {
    forall i :: 0 <= i < |text| ==> IsDigit(text[i])
  }

  /** m * 10^k */
  function Scaled(m: int, k: nat): int {
    if k == 0 then m else 10 * Scaled(m, k - 1)
  }

  /** The number a digit string denotes. */
  function Denotes(digits: Bytes): nat
    requires AllDigits(digits)
  {
    if digits == [] then 0
    else 10 * Denotes(digits[..|digits| - 1]) + DigitValue(digits[|digits| - 1])
  }

  /** Canonical numeral: no leading zero except for zero itself. */
  function Numeral(n: nat): (text: Bytes)
    ensures text != [] && AllDigits(text)
    ensures text[0] == '0' ==> n == 0
  {
    if n < 10 then [DigitChar(n)] else Numeral(n / 10) + [DigitChar(n % 10)]
  }

  function Abs(n: int): nat {
    if n < 0 then -n else n
  }

  function SignOf(n: int): Bytes {
    if n < 0 then ['-'] else []
  }

  function IntText(n: int): Bytes {
    SignOf(n) + Numeral(Abs(n))
  }

  /** strconv.ParseInt and big.Int.SetString in base 10: an optional sign, then digits only. */
  function ParseInteger(text: Bytes): Option<int> {
    var signed := text != [] && (text[0] == '+' || text[0] == '-');
    var digits := if signed then text[1..] else text;
    if digits == [] || !AllDigits(digits) then None
    else
      var n: int := Denotes(digits);
      Some(if text[0] == '-' then -n else n)
  }

  lemma {:induction false} NumeralDenotes(n: nat)
    ensures Denotes(Numeral(n)) == n
  {
    if n >= 10 {
      var init := Numeral(n / 10);
      assert (init + [DigitChar(n % 10)])[..|init|] == init;
      NumeralDenotes(n / 10);
    } else {
      assert [DigitChar(n)][..0] == [];
    }
  }

  lemma ParseNumeral(n: nat)
    ensures ParseInteger(Numeral(n)) == Some(n)
  {
    NumeralDenotes(n);
    assert IsDigit(Numeral(n)[0]);
  }

  lemma NumeralIsInjective(m: nat, n: nat)
    requires Numeral(m) == Numeral(n)
    ensures m == n
  {
    NumeralDenotes(m);
    NumeralDenotes(n);
  }

  lemma {:induction false} DenotesConcat(a: Bytes, b: Bytes)
    requires AllDigits(a) && AllDigits(b)
    ensures AllDigits(a + b) && Denotes(a + b) == Scaled(Denotes(a), |b|) + Denotes(b)
  {
    if b == [] {
      assert a + b == a;
    } else {
      var init, last := b[..|b| - 1], b[|b| - 1];
      assert (a + b)[..|a + b| - 1] == a + init;
      DenotesConcat(a, init);
    }
  }

  lemma {:induction false} ScaledZero(k: nat)
    ensures Scaled(0, k) == 0
  {
    if k > 0 {
      ScaledZero(k - 1);
    }
  }

  lemma {:induction false} DenotesZeros(zeros: Bytes)
    requires forall i :: 0 <= i < |zeros| ==> zeros[i] == '0'
    ensures AllDigits(zeros) && Denotes(zeros) == 0
  {
    if zeros != [] {
      DenotesZeros(zeros[..|zeros| - 1]);
    }
  }
}
