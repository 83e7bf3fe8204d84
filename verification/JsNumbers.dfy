/** Numbers of the dashboard script: parseInt, parseFloat, rounding to a double, and toFixed(2). */
module JsNumbers {
  import opened Bytes
  import opened Numerals
  import opened Decimals

  // ---- reading ----

  /** White space, on ASCII text. */
  predicate IsSpace(c: Byte) {
    c in {'\t', '\n', '\U{0B}', '\U{0C}', '\r', ' '}
  }

  predicate IsSign(c: Byte) {
    c == '+' || c == '-'
  }

  function SkipSpace(text: Bytes): Bytes {
    if text != [] && IsSpace(text[0]) then SkipSpace(text[1..]) else text
  }

  function SkipSign(text: Bytes): Bytes {
    if text != [] && IsSign(text[0]) then text[1..] else text
  }

  /** n with the sign that text starts with, if any. */
  function WithSign(text: Bytes, n: nat): int {
    var m: int := n;
    if text != [] && text[0] == '-' then -m else m
  }

  /** The digits that text starts with. */
  function DigitRun(text: Bytes): (digits: Bytes)
    ensures digits <= text && AllDigits(digits)
    ensures |digits| < |text| ==> !IsDigit(text[|digits|])
  {
    if text != [] && IsDigit(text[0]) then [text[0]] + DigitRun(text[1..]) else []
  }

  /** The integer that text starts with; none when it starts with no integer. */
  function SignedRun(text: Bytes): Option<int> {
    var digits := DigitRun(SkipSign(text));
    if digits == [] then None else Some(WithSign(text, Denotes(digits)))
  }

  /** parseInt(text, 10); none is NaN. */
  function ParseInt(text: Bytes): Option<int> {
    SignedRun(SkipSpace(text))
  }

  /** What the exponent behind a mantissa says; text that is none is ignored. */
  function ExponentRun(text: Bytes): int {
    if text != [] && text[0] in {'e', 'E'} && SignedRun(text[1..]).Some? then SignedRun(text[1..]).value else 0
  }

  /** The number that parseFloat rounds to a double: that of the longest decimal literal at the start of text,
      which is not Infinity; none is NaN. */
  function ParseFloat(text: Bytes): Option<Decimal> {
    Literal(SkipSpace(text))
  }

  function Literal(text: Bytes): Option<Decimal> {
    var body := SkipSign(text);
    var whole := DigitRun(body);
    AfterWhole(text, whole, body[|whole|..])
  }

  function AfterWhole(text: Bytes, whole: Bytes, rest: Bytes): Option<Decimal>
    requires AllDigits(whole)
  {
    if rest != [] && rest[0] == '.' then
      var fraction := DigitRun(rest[1..]);
      Number(text, whole + fraction, |fraction|, rest[1 + |fraction|..])
    else Number(text, whole, 0, rest)
  }

  function Number(text: Bytes, digits: Bytes, places: nat, behind: Bytes): Option<Decimal>
    requires AllDigits(digits)
  {
    if digits == [] then None else Some(Decimal(WithSign(text, Denotes(digits)), ExponentRun(behind) - places))
  }

  // ---- what the decimal library also reads ----

  lemma {:induction false} RunOfConcat(digits: Bytes, rest: Bytes)
    requires AllDigits(digits) && (rest == [] || !IsDigit(rest[0]))
    ensures DigitRun(digits + rest) == digits
  {
    if digits == [] {
      assert digits + rest == rest;
    } else {
      assert (digits + rest)[1..] == digits[1..] + rest;
      RunOfConcat(digits[1..], rest);
    }
  }

  /** A text that starts with a point and a sign: the library drops the point and reads a signed integer. */
  predicate SignBehindPoint(text: Bytes) {
    |text| >= 2 && text[0] == '.' && IsSign(text[1])
  }

  /** An integer the library reads is read as such in front of white space. */
  lemma SignedBefore(text: Bytes, rest: Bytes)
    requires ParseInteger(text).Some? && (rest == [] || !IsDigit(rest[0]))
    ensures SignedRun(text + rest) == ParseInteger(text)
  {
    hide ParseInteger, Denotes, DigitRun, WithSign, SkipSign;
    var digits := SkipSign(text);
    IntegerDigits(text);
    IntegerFirst(text);
    SameSign(text, rest, Denotes(digits));
    RunOfConcat(digits, rest);
  }

  lemma ExponentBefore(text: Bytes, e: nat, rest: Bytes)
    requires e == Before(text, {'E', 'e'}) && ParseExponent(text).Some?
    requires rest == [] || IsSpace(rest[0])
    ensures ExponentRun(text[e..] + rest) == ParseExponent(text).value
  {
    hide SignedRun, ParseInteger;
    if e < |text| {
      assert (text[e..] + rest)[1..] == text[e + 1..] + rest;
      SignedBefore(text[e + 1..], rest);
    } else {
      assert text[e..] + rest == rest;
    }
  }

  /** The pieces of a mantissa the library reads: a sign and digits before the point, or a sign behind it. */
  lemma MantissaParts(head: Bytes, fraction: Bytes)
    requires ParseInteger(head + fraction).Some?
    requires head == [] ==> fraction == [] || !IsSign(fraction[0])
    ensures var whole := SkipSign(head);
            && AllDigits(whole) && AllDigits(fraction) && AllDigits(whole + fraction) && whole + fraction != []
            && ParseInteger(head + fraction) == Some(WithSign(head, Denotes(whole + fraction)))
  {
    hide ParseInteger, Denotes, AllDigits, SkipSign, WithSign;
    var whole := SkipSign(head);
    IntegerDigits(head + fraction);
    var digits := SkipSign(head + fraction);
    SameSign(head, fraction, Denotes(digits));
    DigitParts(whole, fraction);
    assert digits == whole + fraction;
  }

  lemma SameSign(head: Bytes, fraction: Bytes, n: nat)
    requires head == [] ==> fraction == [] || !IsSign(fraction[0])
    ensures SkipSign(head + fraction) == SkipSign(head) + fraction
    ensures WithSign(head + fraction, n) == WithSign(head, n)
  {
    if head == [] {
      assert head + fraction == fraction && SkipSign(head) + fraction == fraction;
    } else {
      assert (head + fraction)[1..] == head[1..] + fraction;
    }
  }

  lemma IntegerDigits(text: Bytes)
    requires ParseInteger(text).Some?
    ensures var digits := SkipSign(text);
            digits != [] && AllDigits(digits) && ParseInteger(text) == Some(WithSign(text, Denotes(digits)))
  {
    hide Denotes;
  }

  lemma DigitParts(a: Bytes, b: Bytes)
    requires AllDigits(a + b)
    ensures AllDigits(a) && AllDigits(b)
  {
    forall i | 0 <= i < |a| ensures IsDigit(a[i]) {
      assert a[i] == (a + b)[i];
    }
    forall i | 0 <= i < |b| ensures IsDigit(b[i]) {
      assert b[i] == (a + b)[|a| + i];
    }
  }

  /** The reading of a literal in pieces: what comes before the point, what comes behind it, and the exponent. */
  lemma LiteralParts(head: Bytes, pointed: bool, fraction: Bytes, tail: Bytes, after: Bytes)
    requires AllDigits(SkipSign(head)) && AllDigits(fraction) && AllDigits(SkipSign(head) + fraction)
    requires SkipSign(head) + fraction != [] && (!pointed ==> fraction == [])
    requires tail == [] || (!IsDigit(tail[0]) && tail[0] != '.')
    requires after == (if pointed then ['.'] + fraction else []) + tail
    ensures Literal(head + after) == Number(head, SkipSign(head) + fraction, |fraction|, tail)
  {
    hide *;
    var whole, text := SkipSign(head), head + after;
    AfterHead(head, pointed, fraction, tail);
    SameSign(head, after, Denotes(whole + fraction));
    LiteralBody(text, whole, after);
    NumberParts(text, whole, pointed, fraction, tail, after);
    SameNumber(text, head, whole + fraction, |fraction|, tail);
  }

  lemma SameNumber(a: Bytes, b: Bytes, digits: Bytes, places: nat, behind: Bytes)
    requires AllDigits(digits) && WithSign(a, Denotes(digits)) == WithSign(b, Denotes(digits))
    ensures Number(a, digits, places, behind) == Number(b, digits, places, behind)
  {
    hide WithSign, Denotes, ExponentRun;
  }

  lemma LiteralBody(text: Bytes, whole: Bytes, rest: Bytes)
    requires SkipSign(text) == whole + rest && AllDigits(whole) && (rest == [] || !IsDigit(rest[0]))
    ensures Literal(text) == AfterWhole(text, whole, rest)
  {
    hide SkipSign, DigitRun, AfterWhole;
    RunOfConcat(whole, rest);
    assert (whole + rest)[|whole|..] == rest;
  }

  lemma NumberParts(text: Bytes, whole: Bytes, pointed: bool, fraction: Bytes, tail: Bytes, after: Bytes)
    requires AllDigits(whole) && AllDigits(fraction) && AllDigits(whole + fraction) && (!pointed ==> fraction == [])
    requires tail == [] || (!IsDigit(tail[0]) && tail[0] != '.')
    requires after == (if pointed then ['.'] + fraction else []) + tail
    ensures AfterWhole(text, whole, after) == Number(text, whole + fraction, |fraction|, tail)
  {
    hide DigitRun, Number, AllDigits;
    BehindPoint(pointed, fraction, tail);
    if !pointed {
      assert whole + fraction == whole;
    }
  }

  lemma AfterHead(head: Bytes, pointed: bool, fraction: Bytes, tail: Bytes)
    requires SkipSign(head) + fraction != [] && (!pointed ==> fraction == [])
    requires tail == [] || (!IsDigit(tail[0]) && tail[0] != '.')
    ensures var after := (if pointed then ['.'] + fraction else []) + tail;
            (after == [] || !IsDigit(after[0])) && (head == [] ==> after == [] || !IsSign(after[0]))
  {
  }

  lemma BehindPoint(pointed: bool, fraction: Bytes, tail: Bytes)
    requires AllDigits(fraction) && (!pointed ==> fraction == [])
    requires tail == [] || (!IsDigit(tail[0]) && tail[0] != '.')
    ensures var after := (if pointed then ['.'] + fraction else []) + tail;
            && (after != [] && after[0] == '.' <==> pointed)
            && (pointed ==> DigitRun(after[1..]) == fraction && after[1 + |fraction|..] == tail)
            && (!pointed ==> after == tail)
  {
    hide DigitRun;
    if pointed {
      var after := (['.'] + fraction) + tail;
      assert after[1..] == fraction + tail;
      RunOfConcat(fraction, tail);
      assert after[1 + |fraction|..] == tail;
    } else {
      assert [] + tail == tail;
    }
  }

  lemma NoLiteral(rest: Bytes)
    requires |rest| >= 2 && rest[0] == '.' && IsSign(rest[1])
    ensures Literal(rest) == None
  {
    assert DigitRun(rest) == [] && rest[0..] == rest && DigitRun(rest[1..]) == [];
  }

  /** Where the library cuts a text it reads. */
  lemma TextParts(text: Bytes) returns (head: Bytes, pointed: bool, fraction: Bytes, tail: Bytes)
    requires FromString(text).Some?
    ensures text == head + ((if pointed then ['.'] + fraction else []) + tail)
    ensures !pointed ==> fraction == []
    ensures tail == [] || tail[0] in {'E', 'e'}
    ensures Before(text, {'E', 'e'}) == |text| - |tail| && tail == text[|text| - |tail|..]
    ensures ParseExponent(text).Some?
    ensures FromString(text) == FromDigits(head, fraction, ParseExponent(text).value)
    ensures !pointed ==> head != []
  {
    hide ParseExponent, FromMantissa, Before;
    var e := Before(text, {'E', 'e'});
    var mantissa := text[..e];
    tail := text[e..];
    assert text == mantissa + tail;
    head, pointed, fraction := MantissaCut(mantissa, ParseExponent(text).value);
    Assoc(head, if pointed then ['.'] + fraction else [], tail);
  }

  lemma MantissaCut(mantissa: Bytes, exponent: int) returns (head: Bytes, pointed: bool, fraction: Bytes)
    requires FromMantissa(mantissa, exponent).Some?
    ensures mantissa == head + (if pointed then ['.'] + fraction else [])
    ensures !pointed ==> fraction == [] && head != []
    ensures FromMantissa(mantissa, exponent) == FromDigits(head, fraction, exponent)
  {
    hide ParseInteger, Before;
    var dot := Before(mantissa, {'.'});
    pointed := dot < |mantissa|;
    if pointed {
      head, fraction := mantissa[..dot], mantissa[dot + 1..];
    } else {
      head, fraction := mantissa, [];
      EmptyIsNoInteger(head);
    }
  }

  lemma EmptyIsNoInteger(head: Bytes)
    ensures head == [] ==> ParseInteger(head + []) == None
  {
  }

  /** On a text that the library reads parseFloat reads the same number, also in front of white space, unless the
      text starts with a point and a sign: then it reads none. */
  lemma LibraryLiteral(text: Bytes, rest: Bytes)
    requires FromString(text).Some? && (rest == [] || IsSpace(rest[0]))
    ensures Literal(text + rest) == if SignBehindPoint(text) then None else FromString(text)
  {
    hide Literal, FromString, ParseInteger, ParseExponent, ExponentRun, Denotes, SkipSign, WithSign, AllDigits;
    var head, pointed, fraction, tail := TextParts(text);
    var middle := if pointed then ['.'] + fraction else [];
    assert text + rest == head + (middle + (tail + rest));
    if SignBehindPoint(text) {
      NoLiteral(text + rest);
    } else {
      PointFirst(text, head, pointed, fraction, tail);
      ExponentBefore(text, |text| - |tail|, rest);
      MantissaParts(head, fraction);
      LiteralParts(head, pointed, fraction, tail + rest, middle + (tail + rest));
    }
  }

  lemma PointFirst(text: Bytes, head: Bytes, pointed: bool, fraction: Bytes, tail: Bytes)
    requires text == head + ((if pointed then ['.'] + fraction else []) + tail) && !SignBehindPoint(text)
    requires !pointed ==> head != []
    ensures head == [] ==> fraction == [] || !IsSign(fraction[0])
  {
    if head == [] && fraction != [] {
      assert text[0] == '.' && text[1] == fraction[0];
    }
  }

  lemma FirstIsNoSpace(text: Bytes)
    requires FromString(text).Some?
    ensures text != [] && !IsSpace(text[0])
  {
    hide FromString, ParseExponent, ParseInteger, Denotes;
    var head, pointed, fraction, tail := TextParts(text);
    if head == [] {
      assert text[0] == '.';
    } else {
      IntegerFirst(head + fraction);
      assert text[0] == (head + fraction)[0];
    }
  }

  lemma IntegerFirst(text: Bytes)
    requires ParseInteger(text).Some?
    ensures text != [] && (IsSign(text[0]) || IsDigit(text[0]))
  {
  }

  lemma {:induction false} SkipsSpace(space: Bytes, text: Bytes)
    requires forall i :: 0 <= i < |space| ==> IsSpace(space[i])
    requires text != [] && !IsSpace(text[0])
    ensures SkipSpace(space + text) == text
  {
    if space == [] {
      assert space + text == text;
    } else {
      assert (space + text)[1..] == space[1..] + text;
      SkipsSpace(space[1..], text);
    }
  }

  /** The same between white space. */
  lemma LibraryFloat(before: Bytes, text: Bytes, behind: Bytes)
    requires FromString(text).Some?
    requires forall i :: 0 <= i < |before| ==> IsSpace(before[i])
    requires forall i :: 0 <= i < |behind| ==> IsSpace(behind[i])
    ensures ParseFloat(before + (text + behind)) == if SignBehindPoint(text) then None else FromString(text)
  {
    hide FromString, Literal, SkipSpace;
    FirstIsNoSpace(text);
    SkipsSpace(before, text + behind);
    LibraryLiteral(text, behind);
  }
}
