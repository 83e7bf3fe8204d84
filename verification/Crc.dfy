/** The checksum of services/custody/api/qr.go: CRC-16/CCITT-FALSE on a 16-bit shift register. */
module Crc {
  import opened Bytes
  import opened Polynomials

  const INITIAL: bv16 := 0xFFFF
  const POLYNOMIAL: bv16 := 0x1021

  // ---- the register ----

  function Wide(b: Byte): bv16 {
    (b as bv8) as bv16
  }

  function Step(crc: bv16): bv16 {
    if crc & 0x8000 != 0 then (crc << 1) ^ POLYNOMIAL else crc << 1
  }

  function Steps(crc: bv16, k: nat): bv16 {
    if k == 0 then crc else Step(Steps(crc, k - 1))
  }

  function Feed(crc: bv16, b: Byte): bv16 {
    Steps(crc ^ (Wide(b) << 8), 8)
  }

  function Register(crc: bv16, data: Bytes): bv16 {
    if data == [] then crc else Feed(Register(crc, data[..|data| - 1]), data[|data| - 1])
  }

  function HexDigit(d: bv4): (c: Byte)
    ensures IsDigit(c) || 'A' <= c <= 'F'
  {
    var n := d as int;
    if n < 10 then DigitChar(n) else (n - 10 + 'A' as int) as char
  }

  function Nibble(w: bv16, k: nat): bv4
    requires k <= 12
  {
    ((w >> k) & 0xF) as bv4
  }

  /** %04X */
  function Hex(w: bv16): Bytes {
    [HexDigit(Nibble(w, 12)), HexDigit(Nibble(w, 8)), HexDigit(Nibble(w, 4)), HexDigit(Nibble(w, 0))]
  }

  function Checksum(data: Bytes): Bytes {
    Hex(Register(INITIAL, data))
  }

  method CalculateCrc16(data: Bytes) returns (text: Bytes)
    ensures text == Checksum(data)
  {
    var crc := INITIAL;
    for i := 0 to |data|
      invariant crc == Register(INITIAL, data[..i])
    {
      assert data[..i + 1][..i] == data[..i];
      crc := crc ^ (((data[i] as bv8) as bv16) << 8);
      ghost var mixed := crc;
      for j := 0 to 8
        invariant crc == Steps(mixed, j)
      {
        if crc & 0x8000 != 0 {
          crc := (crc << 1) ^ POLYNOMIAL;
        } else {
          crc := crc << 1;
        }
      }
    }
    assert data[..|data|] == data;
    text := Hex(crc);
  }

  /** Checking can resume: the register after a concatenation continues from the first part's register. */
  lemma {:induction false} Incremental(crc: bv16, a: Bytes, b: Bytes)
    ensures Register(crc, a + b) == Register(Register(crc, a), b)
  {
    if b == [] {
      assert a + b == a;
    } else {
      var init := b[..|b| - 1];
      assert (a + b)[..|a + b| - 1] == a + init;
      Incremental(crc, a, init);
    }
  }

  // ---- bits of machine words ----

  function Mask(k: nat): bv16 {
    if k == 0 then 1 else Mask(k - 1) << 1
  }

  predicate Bit(w: bv16, k: nat) {
    k < 16 && w & Mask(k) != 0
  }

  lemma MaskValues()
    ensures Mask(0) == 0x1 && Mask(1) == 0x2 && Mask(2) == 0x4 && Mask(3) == 0x8
    ensures Mask(4) == 0x10 && Mask(5) == 0x20 && Mask(6) == 0x40 && Mask(7) == 0x80
    ensures Mask(8) == 0x100 && Mask(9) == 0x200 && Mask(10) == 0x400 && Mask(11) == 0x800
    ensures Mask(12) == 0x1000 && Mask(13) == 0x2000 && Mask(14) == 0x4000 && Mask(15) == 0x8000
  {
    assert Mask(1) == 0x2;
    assert Mask(3) == 0x8;
    assert Mask(5) == 0x20;
    assert Mask(7) == 0x80;
    assert Mask(9) == 0x200;
    assert Mask(11) == 0x800;
    assert Mask(13) == 0x2000;
  }

  lemma MaskHasOneBit(k: nat)
    requires k < 16
    ensures Mask(k) & (Mask(k) - 1) == 0
    ensures k < 15 ==> Mask(k) & 0x8000 == 0
    ensures k < 8 ==> Mask(k) & 0xFF00 == 0
  {
    MaskValues();
    if k > 0 {
      MaskHasOneBit(k - 1);
    }
  }

  lemma MaskUp(k: nat)
    ensures Mask(k + 8) == Mask(k) << 8
  {
    MaskValues();
    if k > 0 {
      MaskUp(k - 1);
    }
  }

  lemma AndXor(a: bv16, b: bv16, m: bv16)
    requires m & (m - 1) == 0
    ensures ((a ^ b) & m != 0) <==> ((a & m != 0) != (b & m != 0))
  {
  }

  lemma AndShiftOne(a: bv16, m: bv16)
    requires m & 0x8000 == 0
    ensures (a << 1) & (m << 1) != 0 <==> a & m != 0
  {
  }

  lemma AndShiftEight(a: bv16, m: bv16)
    requires m & 0xFF00 == 0
    ensures (a << 8) & (m << 8) != 0 <==> a & m != 0
    ensures (a << 8) & m == 0
  {
  }

  lemma BitXor(a: bv16, b: bv16, k: nat)
    ensures Bit(a ^ b, k) <==> Bit(a, k) != Bit(b, k)
  {
    if k < 16 {
      MaskHasOneBit(k);
      AndXor(a, b, Mask(k));
    }
  }

  lemma BitShiftOne(a: bv16, shifted: bv16, k: nat)
    requires shifted == a << 1 && k < 15
    ensures Bit(shifted, k + 1) <==> Bit(a, k)
  {
    MaskHasOneBit(k);
    AndShiftOne(a, Mask(k));
  }

  lemma BitShiftOneLow(a: bv16, shifted: bv16)
    requires shifted == a << 1
    ensures !Bit(shifted, 0)
  {
  }

  lemma BitShiftEight(a: bv16, shifted: bv16, k: nat)
    requires shifted == a << 8 && k < 8
    ensures Bit(shifted, k + 8) <==> Bit(a, k)
    ensures !Bit(shifted, k)
  {
    MaskHasOneBit(k);
    MaskUp(k);
    AndShiftEight(a, Mask(k));
  }

  lemma Successor(w: bv8)
    requires w < 255
    ensures (w + 1) as int == w as int + 1
  {
  }

  lemma {:induction false} WordOf(n: nat) returns (w: bv8)
    requires n < 256
    ensures w as int == n
  {
    if n == 0 {
      w := 0;
    } else {
      var previous := WordOf(n - 1);
      Successor(previous);
      w := previous + 1;
    }
  }

  lemma ByteBits(n: nat)
    requires n < 256
    ensures (n as bv8) as int == n
  {
    var w := WordOf(n);
    assert (w as int) as bv8 == w;
  }

  lemma WideIsInjective(a: Byte, b: Byte)
    requires Wide(a) == Wide(b)
    ensures a == b
  {
    ByteBits(a as int);
    ByteBits(b as int);
  }

  lemma NoBitsIsZero(w: bv16)
    requires forall k: nat :: k < 16 ==> !Bit(w, k)
    ensures w == 0
  {
    MaskValues();
    assert !Bit(w, 0) && !Bit(w, 1) && !Bit(w, 2) && !Bit(w, 3) && !Bit(w, 4) && !Bit(w, 5) && !Bit(w, 6) && !Bit(w, 7);
    assert !Bit(w, 8) && !Bit(w, 9) && !Bit(w, 10) && !Bit(w, 11);
    assert !Bit(w, 12) && !Bit(w, 13) && !Bit(w, 14) && !Bit(w, 15);
  }

  lemma XorIsZero(a: bv16, b: bv16)
    requires a ^ b == 0
    ensures a == b
  {
  }

  lemma SameBits(a: bv16, b: bv16)
    requires forall k: nat :: k < 16 ==> Bit(a, k) == Bit(b, k)
    ensures a == b
  {
    var x := a ^ b;
    forall k: nat | k < 16 ensures !Bit(x, k) {
      BitXor(a, b, k);
    }
    NoBitsIsZero(x);
    XorIsZero(a, b);
  }

  lemma HighBitsClear(w: bv8, k: nat)
    requires 8 <= k < 16
    ensures !Bit(w as bv16, k)
  {
    MaskValues();
  }

  // ---- the register as a polynomial ----

  function Bits(w: bv16): Poly {
    set k: nat | k < 16 && Bit(w, k)
  }

  /** The bit of data that is the coefficient of x^e: the last byte's lowest bit is x^0. */
  predicate Coefficient(data: Bytes, e: nat) {
    e < 8 * |data| && Bit(Wide(data[|data| - 1 - e / 8]), e % 8)
  }

  function Message(data: Bytes): Poly {
    set e: nat | e < 8 * |data| && Coefficient(data, e)
  }

  /** initial * x^(8n) + M(x) * x^16 */
  function Dividend(initial: bv16, data: Bytes): Poly {
    Sum(Shift(Bits(initial), 8 * |data|), Shift(Message(data), 16))
  }

  lemma BitsXor(a: bv16, b: bv16)
    ensures Bits(a ^ b) == Sum(Bits(a), Bits(b))
  {
    var x := a ^ b;
    forall e: nat ensures Has(Bits(x), e) == Has(Sum(Bits(a), Bits(b)), e) {
      BitXor(a, b, e);
      InSum(Bits(a), Bits(b), e);
    }
    SamePoly(Bits(x), Sum(Bits(a), Bits(b)));
  }

  lemma BitsAreInjective(a: bv16, b: bv16)
    requires Bits(a) == Bits(b)
    ensures a == b
  {
    forall k: nat | k < 16 ensures Bit(a, k) == Bit(b, k) {
      assert k in Bits(a) <==> k in Bits(b);
    }
    SameBits(a, b);
  }

  lemma ByteBitsShiftEight(b: Byte, shifted: bv16)
    requires shifted == Wide(b) << 8
    ensures Bits(shifted) == Shift(Bits(Wide(b)), 8)
  {
    var w := Wide(b);
    forall e: nat ensures Has(Bits(shifted), e) == Has(Shift(Bits(w), 8), e) {
      InShift(Bits(w), 8, e);
      if e < 8 {
        BitShiftEight(w, shifted, e);
      } else if e < 16 {
        BitShiftEight(w, shifted, e - 8);
      } else if e < 24 {
        HighBitsClear(b as bv8, e - 8);
      }
    }
    SamePoly(Bits(shifted), Shift(Bits(w), 8));
  }

  /** Doubling the register: x^16 appears exactly when the top bit was set. */
  lemma BitsShiftOne(a: bv16, shifted: bv16)
    requires shifted == a << 1
    ensures Shift(Bits(a), 1) == Sum(if Bit(a, 15) then {16} else {}, Bits(shifted))
  {
    var top: Poly := if Bit(a, 15) then {16} else {};
    forall e: nat ensures Has(Shift(Bits(a), 1), e) == Has(Sum(top, Bits(shifted)), e) {
      InShift(Bits(a), 1, e);
      InSum(top, Bits(shifted), e);
      if e == 0 {
        BitShiftOneLow(a, shifted);
      } else if e < 16 {
        BitShiftOne(a, shifted, e - 1);
      }
    }
    SamePoly(Shift(Bits(a), 1), Sum(top, Bits(shifted)));
  }

  lemma PolynomialBits()
    ensures Bits(POLYNOMIAL) == {12, 5, 0}
  {
    MaskValues();
  }

  /** x^16 equals the generator plus its lower terms. */
  lemma TakeGenerator(rest: Poly)
    ensures Sum({16}, rest) == Sum(TimesGenerator({0}), Sum(rest, {12, 5, 0}))
  {
    GeneratorIsTimesOne();
    var l, r := Sum({16}, rest), Sum(GENERATOR, Sum(rest, {12, 5, 0}));
    forall e: nat ensures Has(l, e) == Has(r, e) {
      InSum({16}, rest, e);
      InSum(GENERATOR, Sum(rest, {12, 5, 0}), e);
      InSum(rest, {12, 5, 0}, e);
    }
    SamePoly(l, r);
  }

  lemma TopBit(c: bv16)
    ensures Bit(c, 15) <==> c & 0x8000 != 0
  {
    MaskValues();
  }

  /** One register step multiplies by x and subtracts the generator when x^16 appears. */
  lemma BitsStep(c: bv16, next: bv16)
    requires next == Step(c)
    ensures Shift(Bits(c), 1) == Sum(TimesGenerator(if Bit(c, 15) then {0} else {}), Bits(next))
  {
    var doubled := c << 1;
    TopBit(c);
    BitsShiftOne(c, doubled);
    if Bit(c, 15) {
      BitsXor(doubled, POLYNOMIAL);
      PolynomialBits();
      TakeGenerator(Bits(doubled));
    }
  }

  lemma StepQuotient(q: Poly, c: bv16, next: bv16) returns (quotient: Poly)
    requires next == Step(c)
    ensures Shift(Sum(TimesGenerator(q), Bits(c)), 1) == Sum(TimesGenerator(quotient), Bits(next))
  {
    var taken: Poly := if Bit(c, 15) then {0} else {};
    BitsStep(c, next);
    ShiftSum(TimesGenerator(q), Bits(c), 1);
    ShiftTimesGenerator(q, 1);
    SumAssociative(TimesGenerator(Shift(q, 1)), TimesGenerator(taken), Bits(next));
    TimesGeneratorSum(Shift(q, 1), taken);
    quotient := Sum(Shift(q, 1), taken);
  }

  lemma {:induction false} StepsQuotient(q: Poly, c: bv16, k: nat) returns (quotient: Poly)
    ensures Shift(Sum(TimesGenerator(q), Bits(c)), k) == Sum(TimesGenerator(quotient), Bits(Steps(c, k)))
  {
    var p := Sum(TimesGenerator(q), Bits(c));
    if k == 0 {
      ShiftZero(p);
      quotient := q;
    } else {
      var previous := StepsQuotient(q, c, k - 1);
      quotient := StepQuotient(previous, Steps(c, k - 1), Steps(c, k));
      ShiftShift(p, k - 1, 1);
    }
  }

  lemma StepsRemainder(p: Poly, c: bv16, k: nat)
    requires IsRemainder(p, Bits(c))
    ensures IsRemainder(Shift(p, k), Bits(Steps(c, k)))
  {
    var q: Poly :| p == Sum(TimesGenerator(q), Bits(c));
    var _ := StepsQuotient(q, c, k);
  }

  lemma SmallIsItsOwnRemainder(p: Poly)
    requires DegreeBelow(p, 16)
    ensures IsRemainder(p, p)
  {
    assert p == Sum(TimesGenerator({}), p);
  }

  lemma MixRemainder(p: Poly, c: bv16, b: Byte, mixed: bv16)
    requires IsRemainder(p, Bits(c)) && mixed == c ^ (Wide(b) << 8)
    ensures IsRemainder(Sum(p, Shift(Bits(Wide(b)), 8)), Bits(mixed))
  {
    var high := Wide(b) << 8;
    ByteBitsShiftEight(b, high);
    SmallIsItsOwnRemainder(Bits(high));
    RemainderSum(p, Bits(c), Bits(high), Bits(high));
    BitsXor(c, high);
  }

  lemma ShiftMixed(p: Poly, b: Poly)
    ensures Shift(Sum(p, Shift(b, 8)), 8) == Sum(Shift(p, 8), Shift(b, 16))
  {
    ShiftSum(p, Shift(b, 8), 8);
    ShiftShift(b, 8, 8);
  }

  /** Feeding one byte: the dividend is multiplied by x^8 and the byte's polynomial joins it at x^16. */
  lemma FeedRemainder(p: Poly, c: bv16, b: Byte, next: bv16)
    requires IsRemainder(p, Bits(c)) && next == Feed(c, b)
    ensures IsRemainder(Sum(Shift(p, 8), Shift(Bits(Wide(b)), 16)), Bits(next))
  {
    var mixed := c ^ (Wide(b) << 8);
    MixRemainder(p, c, b, mixed);
    StepsRemainder(Sum(p, Shift(Bits(Wide(b)), 8)), mixed, 8);
    ShiftMixed(p, Bits(Wide(b)));
  }

  lemma CoefficientAppend(data: Bytes, b: Byte, e: nat)
    ensures Coefficient(data + [b], e) <==> if e < 8 then Bit(Wide(b), e) else Coefficient(data, e - 8)
  {
    var longer := data + [b];
    if 8 <= e < 8 * |longer| {
      assert (e - 8) / 8 == e / 8 - 1 && (e - 8) % 8 == e % 8;
      assert longer[|data| - e / 8] == data[|data| - 1 - (e - 8) / 8];
    }
  }

  /** Horner form of the message polynomial. */
  lemma MessageAppend(data: Bytes, b: Byte)
    ensures Message(data + [b]) == Sum(Shift(Message(data), 8), Bits(Wide(b)))
  {
    var l, r := Message(data + [b]), Sum(Shift(Message(data), 8), Bits(Wide(b)));
    forall e: nat ensures Has(l, e) == Has(r, e) {
      InSum(Shift(Message(data), 8), Bits(Wide(b)), e);
      InShift(Message(data), 8, e);
      CoefficientAppend(data, b, e);
      if 8 <= e < 16 { HighBitsClear(b as bv8, e); }
    }
    SamePoly(l, r);
  }

  lemma DividendAppend(initial: bv16, data: Bytes, b: Byte)
    ensures Dividend(initial, data + [b]) == Sum(Shift(Dividend(initial, data), 8), Shift(Bits(Wide(b)), 16))
  {
    var start, message, last := Bits(initial), Message(data), Bits(Wide(b));
    MessageAppend(data, b);
    ShiftSum(Shift(message, 8), last, 16);
    ShiftSwap(message, 8, 16);
    ShiftSum(Shift(start, 8 * |data|), Shift(message, 16), 8);
    ShiftShift(start, 8 * |data|, 8);
    SumAssociative(Shift(start, 8 * |data| + 8), Shift(Shift(message, 16), 8), Shift(last, 16));
  }

  /** The bitwise register computes the remainder of initial * x^(8n) + M(x) * x^16 by the generator. */
  lemma {:induction false} RegisterIsRemainder(initial: bv16, data: Bytes)
    ensures IsRemainder(Dividend(initial, data), Bits(Register(initial, data)))
  {
    if data == [] {
      ShiftZero(Bits(initial));
      assert Dividend(initial, data) == Bits(initial);
      SmallIsItsOwnRemainder(Bits(initial));
    } else {
      var init, last := data[..|data| - 1], data[|data| - 1];
      assert init + [last] == data;
      RegisterIsRemainder(initial, init);
      FeedRemainder(Dividend(initial, init), Register(initial, init), last, Register(initial, data));
      DividendAppend(initial, init, last);
    }
  }

  /** Being the remainder characterises the register: no other 16-bit value is one. */
  lemma RemainderIsRegister(initial: bv16, data: Bytes, w: bv16)
    ensures IsRemainder(Dividend(initial, data), Bits(w)) <==> w == Register(initial, data)
  {
    RegisterIsRemainder(initial, data);
    if IsRemainder(Dividend(initial, data), Bits(w)) {
      RemainderIsUnique(Dividend(initial, data), Bits(w), Bits(Register(initial, data)));
      BitsAreInjective(w, Register(initial, data));
    }
  }

  // ---- what the remainder detects ----

  /** a and b agree on every bit outside x^k .. x^(k+15). */
  ghost predicate AgreeOutsideWindow(a: Bytes, b: Bytes, k: nat) {
    forall e: nat :: e < k || k + 16 <= e ==> Coefficient(a, e) == Coefficient(b, e)
  }

  lemma DifferentCoefficient(a: Bytes, b: Bytes) returns (e: nat)
    requires |a| == |b| && a != b
    ensures Coefficient(a, e) != Coefficient(b, e)
  {
    var i :| 0 <= i < |a| && a[i] != b[i];
    if forall k: nat :: k < 8 ==> Bit(Wide(a[i]), k) == Bit(Wide(b[i]), k) {
      forall k: nat | k < 16 ensures Bit(Wide(a[i]), k) == Bit(Wide(b[i]), k) {
        if k >= 8 {
          HighBitsClear(a[i] as bv8, k);
          HighBitsClear(b[i] as bv8, k);
        }
      }
      SameBits(Wide(a[i]), Wide(b[i]));
      WideIsInjective(a[i], b[i]);
    }
    var k: nat :| k < 8 && Bit(Wide(a[i]), k) != Bit(Wide(b[i]), k);
    e := 8 * (|a| - 1 - i) + k;
    assert e / 8 == |a| - 1 - i && e % 8 == k;
  }

  lemma DividendDifference(initial: bv16, a: Bytes, b: Bytes)
    requires |a| == |b|
    ensures Sum(Dividend(initial, a), Dividend(initial, b)) == Shift(Sum(Message(a), Message(b)), 16)
  {
    var start := Shift(Bits(initial), 8 * |a|);
    SumSwap(start, Shift(Message(a), 16), start, Shift(Message(b), 16));
    SumSelf(start);
    ShiftSum(Message(a), Message(b), 16);
  }

  /** A change confined to sixteen consecutive bits always changes the register. */
  lemma BurstChangesRegister(initial: bv16, a: Bytes, b: Bytes, k: nat)
    requires |a| == |b| && a != b && AgreeOutsideWindow(a, b, k)
    ensures Register(initial, a) != Register(initial, b)
  {
    if Register(initial, a) == Register(initial, b) {
      SameRegisterDifference(initial, a, b);
      var e := DifferentCoefficient(a, b);
      InSum(Message(a), Message(b), e);
      var low, high := SpreadOfMultiple(Sum(Message(a), Message(b)), e);
      DifferenceInWindow(a, b, k, low);
      DifferenceInWindow(a, b, k, high);
    }
  }

  lemma SpreadOfMultiple(p: Poly, e: nat) returns (low: nat, high: nat)
    requires IsRemainder(Shift(p, 16), {}) && e in p
    ensures low in Shift(p, 16) && high in Shift(p, 16) && low + 16 <= high
  {
    var q: Poly :| Shift(p, 16) == Sum(TimesGenerator(q), {});
    assert Shift(p, 16) == TimesGenerator(q);
    InShift(p, 16, e + 16);
    low, high := MultiplesAreWide(q);
  }

  lemma SameRegisterDifference(initial: bv16, a: Bytes, b: Bytes)
    requires |a| == |b| && Register(initial, a) == Register(initial, b)
    ensures IsRemainder(Shift(Sum(Message(a), Message(b)), 16), {})
  {
    var r := Bits(Register(initial, a));
    RegisterIsRemainder(initial, a);
    RegisterIsRemainder(initial, b);
    RemainderSum(Dividend(initial, a), r, Dividend(initial, b), r);
    DividendDifference(initial, a, b);
    SumSelf(r);
  }

  lemma DifferenceInWindow(a: Bytes, b: Bytes, k: nat, e: nat)
    requires AgreeOutsideWindow(a, b, k)
    requires e in Shift(Sum(Message(a), Message(b)), 16)
    ensures k + 16 <= e < k + 32
  {
    InShift(Sum(Message(a), Message(b)), 16, e);
    InSum(Message(a), Message(b), e - 16);
    assert Coefficient(a, e - 16) != Coefficient(b, e - 16);
  }

  /** Every bit of d is the exclusive or of the bits of a, b and c at the same place. */
  ghost predicate IsXor(a: Bytes, b: Bytes, c: Bytes, d: Bytes) {
    && |a| == |b| == |c| == |d|
    && forall e: nat :: Coefficient(d, e) <==> ((Coefficient(a, e) != Coefficient(b, e)) != Coefficient(c, e))
  }

  lemma MessageXor(a: Bytes, b: Bytes, c: Bytes, d: Bytes)
    requires IsXor(a, b, c, d)
    ensures Message(d) == Sum(Sum(Message(a), Message(b)), Message(c))
  {
    var ab := Sum(Message(a), Message(b));
    forall e: nat ensures Has(Message(d), e) == Has(Sum(ab, Message(c)), e) {
      assert Coefficient(d, e) <==> ((Coefficient(a, e) != Coefficient(b, e)) != Coefficient(c, e));
      InSum(Message(a), Message(b), e);
      InSum(ab, Message(c), e);
    }
    SamePoly(Message(d), Sum(ab, Message(c)));
  }

  lemma XorRemainder(p: Poly, v: bv16, q: Poly, w: bv16, mixed: bv16)
    requires IsRemainder(p, Bits(v)) && IsRemainder(q, Bits(w)) && mixed == v ^ w
    ensures IsRemainder(Sum(p, q), Bits(mixed))
  {
    RemainderSum(p, Bits(v), q, Bits(w));
    BitsXor(v, w);
  }

  lemma DividendXor(initial: bv16, a: Bytes, b: Bytes, c: Bytes, d: Bytes)
    requires IsXor(a, b, c, d)
    ensures Dividend(initial, d) == Sum(Sum(Dividend(initial, a), Dividend(initial, b)), Dividend(initial, c))
  {
    var start := Shift(Bits(initial), 8 * |a|);
    var ab, m := Shift(Sum(Message(a), Message(b)), 16), Shift(Message(c), 16);
    MessageXor(a, b, c, d);
    DividendDifference(initial, a, b);
    ShiftSum(Sum(Message(a), Message(b)), Message(c), 16);
    SumAssociative(ab, start, m);
    SumCommutes(ab, start);
    SumAssociative(start, ab, m);
  }

  /** The checksum register is affine over exclusive or. */
  lemma RegisterIsAffine(initial: bv16, a: Bytes, b: Bytes, c: Bytes, d: Bytes)
    requires IsXor(a, b, c, d)
    ensures Register(initial, d) == Register(initial, a) ^ Register(initial, b) ^ Register(initial, c)
  {
    var ra, rb, rc := Register(initial, a), Register(initial, b), Register(initial, c);
    var mixed := ra ^ rb;
    RegisterIsRemainder(initial, a);
    RegisterIsRemainder(initial, b);
    RegisterIsRemainder(initial, c);
    XorRemainder(Dividend(initial, a), ra, Dividend(initial, b), rb, mixed);
    XorRemainder(Sum(Dividend(initial, a), Dividend(initial, b)), mixed, Dividend(initial, c), rc, mixed ^ rc);
    DividendXor(initial, a, b, c, d);
    RemainderIsRegister(initial, d, mixed ^ rc);
  }

  // ---- the printed form ----

  /** The value of a hexadecimal digit. */
  function HexValue(c: Byte): bv4
    requires IsDigit(c) || 'A' <= c <= 'F'
  {
    if IsDigit(c) then DigitValue(c) as bv4 else (c as int - 'A' as int + 10) as bv4
  }

  lemma HexValueOfDigit(d: bv4)
    ensures HexValue(HexDigit(d)) == d
  {
    assert (d as int) as bv4 == d;
  }

  lemma JoinNibbles(w: bv16)
    ensures (Nibble(w, 12) as bv16 << 12) | (Nibble(w, 8) as bv16 << 8) | (Nibble(w, 4) as bv16 << 4)
            | (Nibble(w, 0) as bv16) == w
  {
  }

  /** The four characters are the register's hexadecimal digits, most significant first. */
  lemma HexDenotes(w: bv16)
    ensures var t := Hex(w);
            (HexValue(t[0]) as bv16 << 12) | (HexValue(t[1]) as bv16 << 8) | (HexValue(t[2]) as bv16 << 4)
            | (HexValue(t[3]) as bv16) == w
  {
    hide HexDigit, HexValue, Nibble;
    HexValueOfDigit(Nibble(w, 12));
    HexValueOfDigit(Nibble(w, 8));
    HexValueOfDigit(Nibble(w, 4));
    HexValueOfDigit(Nibble(w, 0));
    JoinNibbles(w);
  }

  predicate IsHexText(t: Bytes) {
    |t| == 4 && forall i :: 0 <= i < 4 ==> IsDigit(t[i]) || 'A' <= t[i] <= 'F'
  }

  /** The number that four upper-case hexadecimal digits denote. */
  function HexWord(t: Bytes): bv16
    requires IsHexText(t)
  {
    (HexValue(t[0]) as bv16 << 12) | (HexValue(t[1]) as bv16 << 8) | (HexValue(t[2]) as bv16 << 4) | (HexValue(t[3]) as bv16)
  }

  /** x^15 + x^14 + ... + 1 */
  const ONES: Poly := {0, 1, 2, 3, 4, 5, 6, 7, 8, 9, 10, 11, 12, 13, 14, 15}

  lemma InitialIsOnes()
    ensures Bits(INITIAL) == ONES
  {
    MaskValues();
    forall e: nat ensures Has(Bits(INITIAL), e) == Has(ONES, e) {
      if e < 16 {
        assert Bit(INITIAL, e);
      }
    }
    SamePoly(Bits(INITIAL), ONES);
  }

  lemma HexTextOf(w: bv16)
    ensures IsHexText(Hex(w)) && HexWord(Hex(w)) == w
  {
    hide HexDigit, HexValue, Nibble;
    HexDenotes(w);
  }

  /** Section 4.7.3 of the EMVCo specification, on the printed text alone: four hexadecimal digits are the checksum
      of a text of n bytes if and only if the number they denote is the remainder of
      (x^15 + ... + 1) * x^(8n) + M(x) * x^16 by x^16 + x^12 + x^5 + 1. */
  lemma ChecksumExactly(data: Bytes, t: Bytes)
    ensures t == Checksum(data) <==>
            && IsHexText(t)
            && IsRemainder(Sum(Shift(ONES, 8 * |data|), Shift(Message(data), 16)), Bits(HexWord(t)))
  {
    hide Hex, Register, IsRemainder, HexWord;
    InitialIsOnes();
    HexTextOf(Register(INITIAL, data));
    if IsHexText(t) {
      RemainderIsRegister(INITIAL, data, HexWord(t));
      if HexWord(t) == Register(INITIAL, data) {
        HexWordIsInjective(t, Checksum(data));
      }
    }
  }

  lemma HexWordIsInjective(t: Bytes, u: Bytes)
    requires IsHexText(t) && IsHexText(u) && HexWord(t) == HexWord(u)
    ensures t == u
  {
    hide HexWord, HexValue;
    var a, b, c, d := HexWordParts(t, HexWord(t));
    var e, f, g, h := HexWordParts(u, HexWord(t));
    NibblesOfJoined(HexWord(t), a, b, c, d, e, f, g, h);
    HexValueIsInjective(t[0], u[0]);
    HexValueIsInjective(t[1], u[1]);
    HexValueIsInjective(t[2], u[2]);
    HexValueIsInjective(t[3], u[3]);
  }

  lemma HexWordParts(t: Bytes, w: bv16) returns (a: bv4, b: bv4, c: bv4, d: bv4)
    requires IsHexText(t) && HexWord(t) == w
    ensures a == HexValue(t[0]) && b == HexValue(t[1]) && c == HexValue(t[2]) && d == HexValue(t[3])
    ensures w == (a as bv16 << 12) | (b as bv16 << 8) | (c as bv16 << 4) | (d as bv16)
  {
    hide HexValue;
    a, b, c, d := HexValue(t[0]), HexValue(t[1]), HexValue(t[2]), HexValue(t[3]);
  }

  lemma NibblesOfJoined(w: bv16, a: bv4, b: bv4, c: bv4, d: bv4, e: bv4, f: bv4, g: bv4, h: bv4)
    requires w == (a as bv16 << 12) | (b as bv16 << 8) | (c as bv16 << 4) | (d as bv16)
    requires w == (e as bv16 << 12) | (f as bv16 << 8) | (g as bv16 << 4) | (h as bv16)
    ensures a == e && b == f && c == g && d == h
  {
  }

  lemma HexValueIsInjective(c: Byte, d: Byte)
    requires (IsDigit(c) || 'A' <= c <= 'F') && (IsDigit(d) || 'A' <= d <= 'F')
    requires HexValue(c) == HexValue(d)
    ensures c == d
  {
  }

  lemma EightSteps(c: bv16)
    ensures Steps(c, 8) == Step(Step(Step(Step(Step(Step(Step(Step(c))))))))
  {
    hide Step;
    assert Steps(c, 1) == Step(Steps(c, 0));
    assert Steps(c, 3) == Step(Step(Steps(c, 1)));
    assert Steps(c, 5) == Step(Step(Steps(c, 3)));
    assert Steps(c, 7) == Step(Step(Steps(c, 5)));
  }

  lemma FeedIs(c: bv16, b: Byte, w: bv16, next: bv16)
    requires w == Wide(b)
    requires Step(Step(Step(Step(Step(Step(Step(Step(c ^ (w << 8))))))))) == next
    ensures Feed(c, b) == next
  {
    hide Step;
    EightSteps(c ^ (w << 8));
  }

  lemma DigitWords()
    ensures Wide('1') == 0x31 && Wide('2') == 0x32 && Wide('3') == 0x33 && Wide('4') == 0x34 && Wide('5') == 0x35
    ensures Wide('6') == 0x36 && Wide('7') == 0x37 && Wide('8') == 0x38 && Wide('9') == 0x39
  {
  }

  lemma {:induction false} RegisterAppend(c: bv16, data: Bytes, b: Byte, longer: Bytes)
    requires longer == data + [b]
    ensures Register(c, longer) == Feed(Register(c, data), b)
  {
    hide Feed;
    assert longer[..|longer| - 1] == data;
  }

  /** The published check value of CRC-16/CCITT-FALSE. */
  lemma CheckValue()
    ensures Checksum("123456789") == "29B1"
  {
    hide Feed, Wide, Hex;
    DigitWords();
    FeedIs(0xFFFF, '1', 0x31, 0xC782);
    FeedIs(0xC782, '2', 0x32, 0x3DBA);
    FeedIs(0x3DBA, '3', 0x33, 0x5BCE);
    FeedIs(0x5BCE, '4', 0x34, 0x5349);
    FeedIs(0x5349, '5', 0x35, 0x4560);
    FeedIs(0x4560, '6', 0x36, 0x2EF4);
    FeedIs(0x2EF4, '7', 0x37, 0x7718);
    FeedIs(0x7718, '8', 0x38, 0xA12B);
    FeedIs(0xA12B, '9', 0x39, 0x29B1);
    RegisterAppend(INITIAL, [], '1', "1");
    RegisterAppend(INITIAL, "1", '2', "12");
    RegisterAppend(INITIAL, "12", '3', "123");
    RegisterAppend(INITIAL, "123", '4', "1234");
    RegisterAppend(INITIAL, "1234", '5', "12345");
    RegisterAppend(INITIAL, "12345", '6', "123456");
    RegisterAppend(INITIAL, "123456", '7', "1234567");
    RegisterAppend(INITIAL, "1234567", '8', "12345678");
    RegisterAppend(INITIAL, "12345678", '9', "123456789");
    assert Register(INITIAL, []) == 0xFFFF;
    assert Register(INITIAL, "123456789") == 0x29B1;
    CheckText();
  }

  lemma CheckText()
    ensures Hex(0x29B1) == "29B1"
  {
  }

  lemma HexDigitIsInjective(v: bv4, w: bv4)
    requires Lower(HexDigit(v)) == Lower(HexDigit(w))
    ensures v == w
  {
    assert v as int == w as int;
    assert (v as int) as bv4 == v;
    assert (w as int) as bv4 == w;
  }

  lemma NibblesDecide(v: bv16, w: bv16)
    requires Nibble(v, 12) == Nibble(w, 12) && Nibble(v, 8) == Nibble(w, 8)
    requires Nibble(v, 4) == Nibble(w, 4) && Nibble(v, 0) == Nibble(w, 0)
    ensures v == w
  {
  }

  lemma HexParts(w: bv16, text: Bytes)
    requires EqualFold(Hex(w), text)
    ensures |text| == 4
    ensures Lower(text[0]) == Lower(HexDigit(Nibble(w, 12))) && Lower(text[1]) == Lower(HexDigit(Nibble(w, 8)))
    ensures Lower(text[2]) == Lower(HexDigit(Nibble(w, 4))) && Lower(text[3]) == Lower(HexDigit(Nibble(w, 0)))
  {
    HexFold(Hex(w), text);
  }

  /** Two checksums that fold to the same four bytes come from the same register. */
  lemma HexIsInjective(v: bv16, w: bv16, text: Bytes)
    requires EqualFold(Hex(v), text) && EqualFold(Hex(w), text)
    ensures v == w
  {
    HexParts(v, text);
    HexParts(w, text);
    HexDigitIsInjective(Nibble(v, 12), Nibble(w, 12));
    HexDigitIsInjective(Nibble(v, 8), Nibble(w, 8));
    HexDigitIsInjective(Nibble(v, 4), Nibble(w, 4));
    HexDigitIsInjective(Nibble(v, 0), Nibble(w, 0));
    NibblesDecide(v, w);
  }

  lemma {:induction false} HexFold(word: Bytes, text: Bytes)
    requires forall c :: c in word ==> IsDigit(c) || 'A' <= c <= 'F'
    requires EqualFold(word, text)
    ensures |word| == |text| && forall i :: 0 <= i < |word| ==> Lower(word[i]) == Lower(text[i])
  {
    if word != [] {
      assert word[0] in word;
      HexFold(word[1..], text[1..]);
    }
  }
}
