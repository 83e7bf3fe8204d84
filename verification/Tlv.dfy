/** Tag-Length-Value fields of an EMVCo payload, as a printer and as the list a reader meets. */
module Tlv {
  import opened Bytes
  import opened Numerals

  datatype Field = Field(tag: Bytes, value: Bytes)

  /** Why reading stopped: no further header, an unreadable length, a value past the end, or a slice
      with a negative length. */
  datatype End = Done | BadLength(text: Bytes) | Truncated(tag: Bytes) | OutOfRange

  datatype Scan = Scan(fields: seq<Field>, end: End)

  // ---- printing ----

  /** %02d of a length */
  function Pad2(n: nat): Bytes {
    if n < 10 then ['0'] + Numeral(n) else Numeral(n)
  }

  function Format(f: Field): Bytes {
    f.tag + Pad2(|f.value|) + f.value
  }

  function Encode(fields: seq<Field>): Bytes {
    if fields == [] then [] else Format(fields[0]) + Encode(fields[1..])
  }

  lemma {:induction false} EncodeConcat(a: seq<Field>, b: seq<Field>)
    ensures Encode(a + b) == Encode(a) + Encode(b)
  {
    hide Format;
    if a == [] {
      assert a + b == b;
    } else {
      assert (a + b)[1..] == a[1..] + b;
      EncodeConcat(a[1..], b);
    }
  }

  /** A field is printed as its tag, the two decimal digits of its length, and its value. */
  lemma FormatText(f: Field)
    requires |f.value| <= 99
    ensures var s, k := Format(f), |f.tag|;
            && |s| == k + 2 + |f.value|
            && s[..k] == f.tag && s[k + 2..] == f.value
            && IsDigit(s[k]) && IsDigit(s[k + 1]) && 10 * DigitValue(s[k]) + DigitValue(s[k + 1]) == |f.value|
  {
    TwoDigitText(|f.value|);
    var pad := Pad2(|f.value|);
    assert Format(f) == (f.tag + pad) + f.value;
  }

  lemma TwoDigitText(n: nat)
    requires n <= 99
    ensures var pad := Pad2(n);
            |pad| == 2 && IsDigit(pad[0]) && IsDigit(pad[1]) && 10 * DigitValue(pad[0]) + DigitValue(pad[1]) == n
  {
    if n >= 10 {
      assert Numeral(n) == Numeral(n / 10) + [DigitChar(n % 10)];
    }
  }

  // ---- reading ----

  /** fmt.Sscanf("%d") on a two-byte string: one leading blank or sign, then at least one digit;
      what follows the digits is ignored. */
  function ScanInt(a: Byte, b: Byte): (n: Option<int>)
    ensures n.Some? ==> -9 <= n.value <= 99
    ensures n.Some? && n.value < 0 ==> a == '-'
    ensures IsDigit(a) && IsDigit(b) ==> n == Some(10 * DigitValue(a) + DigitValue(b))
  {
    if IsDigit(a) then
      var d: int := DigitValue(a);
      Some(if IsDigit(b) then 10 * d + DigitValue(b) else d)
    else if !IsDigit(b) then None
    else
      var d: int := DigitValue(b);
      if a == '-' then Some(-d)
      else if a in {'+', '\t', '\U{0B}', '\U{0C}', '\r', ' '} then Some(d)
      else None
  }

  function Lex(s: Bytes): Scan
    decreases |s|
  {
    if |s| < 4 then Scan([], Done)
    else match ScanInt(s[2], s[3])
      case None => Scan([], BadLength(s[2..4]))
      case Some(n) =>
        if 4 + n > |s| then Scan([], Truncated(s[..2]))
        else if n < 0 then Scan([], OutOfRange)
        else
          var rest := Lex(s[4 + n..]);
          Scan([Field(s[..2], s[4..4 + n])] + rest.fields, rest.end)
  }

  /** Lex at an index, the way a loop over the text advances. */
  lemma LexAt(s: Bytes, i: nat)
    requires i <= |s|
    ensures i + 4 > |s| ==> Lex(s[i..]) == Scan([], Done)
    ensures i + 4 <= |s| ==>
              var scanned := ScanInt(s[i + 2], s[i + 3]);
              && (scanned.None? ==> Lex(s[i..]) == Scan([], BadLength(s[i + 2..i + 4])))
              && (scanned.Some? ==>
                    var end := i + 4 + scanned.value;
                    && (end > |s| ==> Lex(s[i..]) == Scan([], Truncated(s[i..i + 2])))
                    && (end <= |s| && scanned.value < 0 ==> Lex(s[i..]) == Scan([], OutOfRange))
                    && (end <= |s| && scanned.value >= 0 ==>
                          Lex(s[i..]) ==
                          Scan([Field(s[i..i + 2], s[i + 4..end])] + Lex(s[end..]).fields, Lex(s[end..]).end)))
  {
    hide ScanInt;
    var rest := s[i..];
    if i + 4 <= |s| {
      assert rest[..2] == s[i..i + 2] && rest[2..4] == s[i + 2..i + 4];
      var scanned := ScanInt(s[i + 2], s[i + 3]);
      if scanned.Some? && 0 <= scanned.value <= |s| - i - 4 {
        assert rest[4..4 + scanned.value] == s[i + 4..i + 4 + scanned.value];
        assert rest[4 + scanned.value..] == s[i + 4 + scanned.value..];
      }
    }
  }

  // ---- the reader sees what the printer wrote ----

  predicate Fits(f: Field) {
    |f.tag| == 2 && |f.value| <= 99
  }

  lemma PadIsScanned(n: nat)
    requires n <= 99
    ensures |Pad2(n)| == 2 && ScanInt(Pad2(n)[0], Pad2(n)[1]) == Some(n)
  {
    if n >= 10 {
      assert Numeral(n) == Numeral(n / 10) + [DigitChar(n % 10)];
    }
  }

  lemma LexFormat(f: Field, rest: Bytes)
    requires Fits(f)
    ensures Lex(Format(f) + rest) == Scan([f] + Lex(rest).fields, Lex(rest).end)
  {
    hide Numeral, ScanInt, Pad2;
    var n := |f.value|;
    var s := Format(f) + rest;
    PadIsScanned(n);
    assert s[..2] == f.tag;
    assert s[2] == Pad2(n)[0] && s[3] == Pad2(n)[1];
    assert s[4..4 + n] == f.value;
    assert s[4 + n..] == rest;
  }

  lemma {:induction false} LexEncode(fields: seq<Field>, rest: Bytes)
    requires forall f :: f in fields ==> Fits(f)
    ensures Lex(Encode(fields) + rest) == Scan(fields + Lex(rest).fields, Lex(rest).end)
  {
    hide Lex, Format, Fits;
    if fields == [] {
      assert Encode(fields) + rest == rest;
      assert fields + Lex(rest).fields == Lex(rest).fields;
    } else {
      var tail := fields[1..];
      Assoc(Format(fields[0]), Encode(tail), rest);
      LexFormat(fields[0], Encode(tail) + rest);
      LexEncode(tail, rest);
      assert [fields[0]] + (tail + Lex(rest).fields) == fields + Lex(rest).fields;
    }
  }

  /** Whatever the text, each field read has a two-byte tag and a value shorter than 100 bytes
      that fits behind its four-byte header. */
  lemma {:induction false} LexedFields(s: Bytes)
    ensures forall f :: f in Lex(s).fields ==> Fits(f) && 4 + |f.value| <= |s|
    decreases |s|
  {
    if |s| >= 4 && ScanInt(s[2], s[3]).Some? {
      var n := ScanInt(s[2], s[3]).value;
      if 0 <= n <= |s| - 4 {
        LexedFields(s[4 + n..]);
      }
    }
  }

  /** Fields are read back exactly when every printed length has two digits. */
  lemma ReadBack(fields: seq<Field>)
    requires forall f :: f in fields ==> |f.tag| == 2
    ensures Lex(Encode(fields)) == Scan(fields, Done) <==> forall f :: f in fields ==> |f.value| <= 99
  {
    if forall f :: f in fields ==> |f.value| <= 99 {
      LexEncode(fields, []);
      assert Encode(fields) + [] == Encode(fields);
      assert fields + [] == fields;
    }
    LexedFields(Encode(fields));
  }

  // ---- where reading stops ----

  /** Bytes taken by the fields read, each behind a four-byte header. */
  function Span(fields: seq<Field>): nat {
    if fields == [] then 0 else 4 + |fields[0].value| + Span(fields[1..])
  }

  /** Behind the fields read nothing more can be read, for the reason given. */
  lemma {:induction false} StopsAtSpan(s: Bytes)
    ensures Span(Lex(s).fields) <= |s|
    ensures Lex(s[Span(Lex(s).fields)..]) == Scan([], Lex(s).end)
    decreases |s|
  {
    var fields := Lex(s).fields;
    if fields == [] {
      assert s[0..] == s;
    } else {
      var n := 4 + |fields[0].value|;
      StopsAtSpan(s[n..]);
      assert fields[1..] == Lex(s[n..]).fields;
      assert s[n..][Span(fields[1..])..] == s[Span(fields)..];
    }
  }

  /** The header behind the fields read has a minus sign and a non-zero digit for its length. */
  predicate StopsAtMinus(s: Bytes) {
    var k := Span(Lex(s).fields);
    k + 4 <= |s| && s[k + 2] == '-' && '1' <= s[k + 3] <= '9'
  }

  /** A slice gets a negative length exactly when the reader arrives at such a header. */
  lemma {:induction false} OutOfRangeExactly(s: Bytes)
    ensures Lex(s).end == OutOfRange <==> StopsAtMinus(s)
  {
    hide Lex, Span;
    StopsAtSpan(s);
    LexAt(s, Span(Lex(s).fields));
  }

  /** In particular a text without a minus sign never gives a negative length. */
  lemma {:induction false} NoMinusNoRange(s: Bytes)
    requires '-' !in s
    ensures Lex(s).end != OutOfRange
  {
    hide Lex, Span;
    OutOfRangeExactly(s);
  }
}
