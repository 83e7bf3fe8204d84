/** What building and parsing a payment code undo, what the checksum notices and when the parser fails. */
module QrRoundTrip {
  import opened Bytes
  import opened Numerals
  import opened Crc
  import opened Tlv
  import opened QrCodec

  lemma OneField(f: Field)
    ensures Encode([f]) == Format(f)
  {
    assert Encode([]) == [];
  }

  lemma MerchantFieldsFit(r: Payment)
    requires |Merchant(r)| <= 99
    ensures forall f :: f in MerchantFields(r) ==> Fits(f)
  {
    hide Pad2;
    forall f | f in MerchantFields(r) ensures Fits(f) {
      ValueFitsInside(MerchantFields(r), f);
    }
  }

  lemma {:induction false} ValueFitsInside(fields: seq<Field>, f: Field)
    requires f in fields
    ensures |f.value| <= |Encode(fields)|
  {
    hide Pad2;
    if f != fields[0] {
      ValueFitsInside(fields[1..], f);
    }
  }

  lemma {:induction false} ApplyMerchantConcat(data: Payment, a: seq<Field>, b: seq<Field>)
    ensures ApplyMerchant(data, a + b) == ApplyMerchant(ApplyMerchant(data, a), b)
    decreases |a|
  {
    if a == [] {
      assert a + b == b;
    } else {
      assert (a + b)[1..] == a[1..] + b;
      ApplyMerchantConcat(MerchantStep(data, a[0]), a[1..], b);
    }
  }

  lemma ApplyMerchantOptional(data: Payment, tag: Bytes, value: Bytes)
    ensures ApplyMerchant(data, Optional(tag, value)) ==
            if value == [] then data else MerchantStep(data, Field(tag, value))
  {
    assert ApplyMerchant(MerchantStep(data, Field(tag, value)), []) == MerchantStep(data, Field(tag, value));
  }

  lemma MerchantIsRead(r: Payment)
    ensures ApplyMerchant(NO_PAYMENT, MerchantFields(r)) == Payment(r.address, [], r.currency, r.network, [])
  {
    hide ApplyMerchant, Optional;
    var gui: seq<Field> := [Field("00", "org.x9.payment")];
    var a, n, c := Optional("01", r.address), Optional("02", r.network), Optional("03", r.currency);
    ApplyMerchantConcat(NO_PAYMENT, gui + a + n, c);
    ApplyMerchantConcat(NO_PAYMENT, gui + a, n);
    ApplyMerchantConcat(NO_PAYMENT, gui, a);
    GuiIsIgnored(NO_PAYMENT);
    ApplyMerchantOptional(NO_PAYMENT, "01", r.address);
    ApplyMerchantOptional(NO_PAYMENT.(address := r.address), "02", r.network);
    ApplyMerchantOptional(NO_PAYMENT.(address := r.address, network := r.network), "03", r.currency);
  }

  lemma GuiIsIgnored(data: Payment)
    ensures ApplyMerchant(data, [Field("00", "org.x9.payment")]) == data
  {
    assert ApplyMerchant(data, []) == data;
  }

  lemma InterpretAt(data: Payment, fields: seq<Field>, k: nat, end: End)
    requires k < |fields|
    ensures Apply(data, fields[k]).None? ==> Interpret(data, fields[k..], end) == Panicked
    ensures Apply(data, fields[k]).Some? ==>
              Interpret(data, fields[k..], end) == Interpret(Apply(data, fields[k]).value, fields[k + 1..], end)
  {
    hide Apply;
    assert fields[k..][1..] == fields[k + 1..];
  }

  lemma OtherTag(data: Payment, f: Field)
    requires f.tag != "26" && f.tag != "54" && f.tag != "62"
    ensures Apply(data, f) == Some(data)
  {
  }

  lemma MerchantField(r: Payment)
    requires |Merchant(r)| <= 99
    ensures Apply(NO_PAYMENT, Field("26", Merchant(r))) == Some(Payment(r.address, [], r.currency, r.network, []))
  {
    hide Encode, ApplyMerchant, ApplyAdditional, Lex, MerchantFields, Fits;
    MerchantFieldsFit(r);
    ReadBackAll(MerchantFields(r));
    MerchantIsRead(r);
  }

  lemma ReadBackAll(fields: seq<Field>)
    requires forall f :: f in fields ==> Fits(f)
    ensures Lex(Encode(fields)) == Scan(fields, Done)
  {
    ReadBack(fields);
  }

  lemma MemoField(data: Payment, r: Payment)
    requires |r.memo| <= 95
    ensures Apply(data, Field("62", Additional(r))) == Some(data.(memo := r.memo))
  {
    hide Encode, ApplyMerchant, Lex, Format;
    var f := Field("05", r.memo);
    ReadBackAll([f]);
    AdditionalFold(data, f, []);
    assert [f] + [] == [f];
    assert ApplyAdditional(AdditionalStep(data, f), []) == AdditionalStep(data, f);
  }

  /** The lengths that %02d prints with two digits. */
  predicate WithinLimits(r: Payment) {
    |Merchant(r)| <= 99 && |r.amount| <= 99 && |r.memo| <= 95
  }

  lemma AdditionalLength(r: Payment)
    requires |r.memo| <= 95
    ensures |Additional(r)| == |r.memo| + 4
  {
    OneField(Field("05", r.memo));
    PadIsScanned(|r.memo|);
  }

  lemma FieldsFit(r: Payment)
    requires WithinLimits(r)
    ensures forall f :: f in Fields(r) ==> Fits(f)
  {
    hide Merchant, Additional;
    AdditionalLength(r);
  }

  lemma SealedHasChecksum(text: Bytes)
    ensures |Seal(text)| >= 4 && HasChecksum(Seal(text))
  {
    hide Checksum, EqualFold;
    var payload := Seal(text);
    ChecksumLength(text);
    assert payload[..|payload| - 4] == text;
    assert payload[|payload| - 4..] == Checksum(text);
    EqualFoldRefl(Checksum(text));
  }

  lemma ChecksumLength(text: Bytes)
    ensures |Checksum(text)| == 4
  {
    hide Register;
  }

  lemma LexChecksum(crc: Bytes)
    requires |crc| == 4
    ensures Lex("6304" + crc) == Scan([Field("63", crc)], Done)
  {
    var s: Bytes := "6304" + crc;
    assert s[..2] == "63" && s[2] == '0' && s[3] == '4';
    assert s[4..8] == crc && s[8..] == [];
    assert Lex([]) == Scan([], Done);
  }

  lemma LexBuild(r: Payment)
    requires WithinLimits(r)
    ensures Lex(Build(r)) == Scan(Fields(r) + [Field("63", Checksum(Encode(Fields(r)) + "6304"))], Done)
  {
    hide Lex, Checksum, Fields, Encode, Fits, WithinLimits;
    var crc := Checksum(Encode(Fields(r)) + "6304");
    FieldsFit(r);
    ChecksumLength(Encode(Fields(r)) + "6304");
    LexChecksum(crc);
    Assoc(Encode(Fields(r)), "6304", crc);
    LexEncode(Fields(r), "6304" + crc);
  }

  /** What a reader finds in a code within the limits, field by field: the payload format 01, the dynamic code 12,
      the merchant template, category 0000, currency 840, the amount, country, name and city, the memo template when
      there is a memo, and the checksum. */
  lemma CodeFields(r: Payment) returns (text: Bytes, merchant: Bytes, additional: Bytes)
    requires WithinLimits(r)
    ensures Build(r) == text + Checksum(text)
    ensures IsCode(Lex(Build(r)), r, merchant, additional, Checksum(text))
    ensures IsMerchant(Lex(merchant), r) && Lex(additional) == Scan([Field("05", r.memo)], Done)
  {
    hide Lex, Checksum, Encode, Fits, Format, Merchant, Additional;
    text, merchant, additional := Encode(Fields(r)) + "6304", Merchant(r), Additional(r);
    LexBuild(r);
    MerchantTemplate(r);
    MemoTemplate(r);
  }

  predicate IsCode(scan: Scan, r: Payment, merchant: Bytes, additional: Bytes, crc: Bytes) {
    scan == Scan([Field("00", "01"), Field("01", "12"), Field("26", merchant), Field("52", "0000"), Field("53", "840"),
                  Field("54", r.amount), Field("58", "US"), Field("59", "Custody API"), Field("60", "New York")]
                 + (if r.memo == [] then [] else [Field("62", additional)]) + [Field("63", crc)], Done)
  }

  lemma MerchantTemplate(r: Payment)
    requires |Merchant(r)| <= 99
    ensures IsMerchant(Lex(Merchant(r)), r)
  {
    hide Lex, Encode, Fits;
    MerchantFieldsFit(r);
    ReadBackAll(MerchantFields(r));
  }

  lemma MemoTemplate(r: Payment)
    requires |r.memo| <= 95
    ensures Lex(Additional(r)) == Scan([Field("05", r.memo)], Done)
  {
    hide Lex, Encode, Fits;
    MemoFits(r);
    ReadBackAll([Field("05", r.memo)]);
  }

  /** The sub-fields of the merchant template, with the three details as far as they are not empty. */
  predicate IsMerchant(scan: Scan, r: Payment) {
    scan == Scan([Field("00", "org.x9.payment")]
                 + (if r.address == [] then [] else [Field("01", r.address)])
                 + (if r.network == [] then [] else [Field("02", r.network)])
                 + (if r.currency == [] then [] else [Field("03", r.currency)]), Done)
  }

  lemma MemoFits(r: Payment)
    requires |r.memo| <= 95
    ensures forall f :: f in [Field("05", r.memo)] ==> Fits(f)
  {
  }

  /** The template fields before the memo set the address, network, currency and amount. */
  lemma InterpretFixed(r: Payment, tail: Field, end: End)
    requires |Merchant(r)| <= 99
    ensures Interpret(NO_PAYMENT, Fields(r) + [tail], end) ==
            Interpret(r.(memo := []), (Fields(r) + [tail])[9..], end)
  {
    hide Interpret, Apply, Merchant, Additional, Lex;
    var all := Fields(r) + [tail];
    assert all[0..] == all;
    OtherTag(NO_PAYMENT, all[0]);
    InterpretAt(NO_PAYMENT, all, 0, end);
    OtherTag(NO_PAYMENT, all[1]);
    InterpretAt(NO_PAYMENT, all, 1, end);
    MerchantField(r);
    InterpretAt(NO_PAYMENT, all, 2, end);
    var merchant := Payment(r.address, [], r.currency, r.network, []);
    OtherTag(merchant, all[3]);
    InterpretAt(merchant, all, 3, end);
    OtherTag(merchant, all[4]);
    InterpretAt(merchant, all, 4, end);
    AmountField(merchant, all[5]);
    InterpretAt(merchant, all, 5, end);
    var data := merchant.(amount := r.amount);
    OtherTag(data, all[6]);
    InterpretAt(data, all, 6, end);
    OtherTag(data, all[7]);
    InterpretAt(data, all, 7, end);
    OtherTag(data, all[8]);
    InterpretAt(data, all, 8, end);
  }

  lemma AmountField(data: Payment, f: Field)
    requires f.tag == "54"
    ensures Apply(data, f) == Some(data.(amount := f.value))
  {
  }

  lemma InterpretMemo(r: Payment, tail: Field)
    requires |r.memo| <= 95 && tail.tag == "63"
    ensures Interpret(r.(memo := []), (Fields(r) + [tail])[9..], Done) == Parsed(r)
  {
    hide Interpret, Apply, Merchant, Additional, Lex;
    var all := Fields(r) + [tail];
    var data := r.(memo := []);
    if r.memo != [] {
      MemoField(data, r);
      InterpretAt(data, all, 9, Done);
    }
    var k := |all| - 1;
    OtherTag(r, tail);
    InterpretAt(r, all, k, Done);
    InterpretNothing(r, all);
  }

  lemma InterpretNothing(data: Payment, fields: seq<Field>)
    ensures Interpret(data, fields[|fields|..], Done) == Parsed(data)
  {
  }

  /** Any payload the parser accepts, whoever wrote it, carries short values only. */
  lemma ParsedLengths(payload: Bytes)
    requires Parse(payload).Parsed?
    ensures var d := Parse(payload).data;
            |d.amount| <= 99 && |d.address| <= 95 && |d.network| <= 95 && |d.currency| <= 95 && |d.memo| <= 95
  {
    hide Lex, HasChecksum, Fits, Apply;
    LexedFields(payload);
    InterpretLengths(NO_PAYMENT, Lex(payload).fields, Lex(payload).end);
  }

  predicate Short(d: Payment) {
    |d.amount| <= 99 && |d.address| <= 95 && |d.network| <= 95 && |d.currency| <= 95 && |d.memo| <= 95
  }

  lemma {:induction false} InterpretLengths(data: Payment, fields: seq<Field>, end: End)
    requires Short(data) && forall f :: f in fields ==> Fits(f)
    requires Interpret(data, fields, end).Parsed?
    ensures Short(Interpret(data, fields, end).data)
    decreases |fields|
  {
    hide Lex, Fits, Apply;
    if fields != [] {
      assert fields[0] in fields;
      ApplyLengths(data, fields[0]);
      InterpretLengths(Apply(data, fields[0]).value, fields[1..], end);
    }
  }

  lemma ApplyLengths(data: Payment, f: Field)
    requires Short(data) && Fits(f) && Apply(data, f).Some?
    ensures Short(Apply(data, f).value)
  {
    hide Lex, ApplyMerchant, ApplyAdditional;
    LexedFields(f.value);
    MerchantLengths(data, Lex(f.value).fields);
    AdditionalLengths(data, Lex(f.value).fields);
  }

  lemma {:induction false} MerchantLengths(data: Payment, fields: seq<Field>)
    requires Short(data) && forall f :: f in fields ==> |f.value| <= 95
    ensures Short(ApplyMerchant(data, fields))
    decreases |fields|
  {
    if fields != [] {
      MerchantLengths(MerchantStep(data, fields[0]), fields[1..]);
    }
  }

  lemma {:induction false} AdditionalLengths(data: Payment, fields: seq<Field>)
    requires Short(data) && forall f :: f in fields ==> |f.value| <= 95
    ensures Short(ApplyAdditional(data, fields))
    decreases |fields|
  {
    if fields != [] {
      AdditionalLengths(AdditionalStep(data, fields[0]), fields[1..]);
    }
  }

  /** Parsing what was built returns the request exactly when amount and memo are short enough,
      given a merchant template of at most 99 bytes. */
  lemma RoundTrip(r: Payment)
    requires |Merchant(r)| <= 99
    ensures Parse(Build(r)) == Parsed(r) <==> |r.amount| <= 99 && |r.memo| <= 95
  {
    hide Lex, HasChecksum, Fields, Interpret, Seal, Merchant, Encode;
    if |r.amount| <= 99 && |r.memo| <= 95 {
      var tail := Field("63", Checksum(Encode(Fields(r)) + "6304"));
      SealedHasChecksum(Encode(Fields(r)) + "6304");
      LexBuild(r);
      InterpretFixed(r, tail, Done);
      InterpretMemo(r, tail);
    }
    if Parse(Build(r)) == Parsed(r) {
      ParsedLengths(Build(r));
    }
  }

  // ---- a merchant template too long for two digits ----

  /** A three-digit length below 170 is read as its first two digits, 10 to 16. */
  lemma ThreeDigits(n: nat)
    requires 100 <= n < 170
    ensures |Pad2(n)| == 3 && ScanInt(Pad2(n)[0], Pad2(n)[1]) == Some(n / 10)
  {
    var tens := n / 10;
    assert Numeral(tens / 10) == [DigitChar(tens / 10)];
    assert Numeral(tens) == [DigitChar(tens / 10), DigitChar(tens % 10)];
    assert Numeral(n) == Numeral(tens) + [DigitChar(n % 10)];
  }

  const GUI_FIELD: Bytes := "0014org.x9.payment"

  function Details(r: Payment): seq<Field> {
    Optional("01", r.address) + Optional("02", r.network) + Optional("03", r.currency)
  }

  lemma FormatGui()
    ensures Format(Field("00", "org.x9.payment")) == GUI_FIELD
  {
    hide Pad2;
    Fourteen();
    var name: Bytes := "org.x9.payment";
    assert |name| == 14;
    assert GUI_FIELD == ("00" + "14") + name;
  }

  lemma Fourteen()
    ensures Pad2(14) == "14"
  {
    assert Numeral(14) == Numeral(1) + [DigitChar(4)];
  }

  lemma MerchantParts(r: Payment)
    ensures Merchant(r) == GUI_FIELD + Encode(Details(r))
  {
    hide Format, Optional;
    FormatGui();
    assert MerchantFields(r)[0] == Field("00", "org.x9.payment") && MerchantFields(r)[1..] == Details(r);
  }

  lemma MerchantStartsWithGui(r: Payment)
    ensures GUI_FIELD <= Merchant(r)
  {
    hide Merchant, Details, Encode;
    MerchantParts(r);
  }

  /** Past the misread length the reader lands inside the identifier, where no length can be read. */
  lemma MisreadTail(text: Bytes, start: nat)
    requires 9 <= start <= 15 && |text| >= 4 && text[2] == GUI_FIELD[start + 2]
    ensures Lex(text) == Scan([], BadLength(text[2..4]))
  {
    assert GUI_FIELD[11..18] == "payment";
    assert text[2] == GUI_FIELD[11..18][start - 9];
  }

  /** The misread value itself starts with a one-byte field and an unreadable length. */
  lemma MisreadValue(value: Bytes)
    requires |value| >= 10
    requires value[2] == '0' && value[3] == '1' && value[7] == 'g'
    ensures Lex(value).end.BadLength?
  {
    hide Lex;
    assert value[0..] == value;
    LexAt(value, 0);
    LexAt(value, 5);
  }

  lemma MisreadPieces(pad: Bytes, t: Bytes, rest: Bytes, n: nat)
    requires |pad| == 3 && 10 <= n <= 16 && |t| >= 100
    ensures var s := ("26" + pad + t) + rest;
            && s[..2] == "26" && s[2] == pad[0] && s[3] == pad[1]
            && s[4..4 + n][2] == t[1] && s[4..4 + n][3] == t[2] && s[4..4 + n][7] == t[6]
            && s[4 + n..][2] == t[n + 1]
  {
  }

  lemma LexHead(s: Bytes, n: nat)
    requires 4 + n <= |s| && ScanInt(s[2], s[3]) == Some(n)
    ensures Lex(s) == Scan([Field(s[..2], s[4..4 + n])] + Lex(s[4 + n..]).fields, Lex(s[4 + n..]).end)
  {
    hide ScanInt;
  }

  lemma GuiBytes(t: Bytes)
    requires GUI_FIELD <= t
    ensures t[1] == '0' && t[2] == '1' && t[6] == 'g'
  {
  }

  lemma LexMisread(t: Bytes, rest: Bytes)
    requires 100 <= |t| < 170 && GUI_FIELD <= t
    ensures var lexed := Lex(Format(Field("26", t)) + rest);
            && lexed.end.BadLength? && |lexed.fields| == 1
            && lexed.fields[0].tag == "26" && Lex(lexed.fields[0].value).end.BadLength?
  {
    hide Pad2, Lex, ScanInt;
    var n := |t| / 10;
    var s := Format(Field("26", t)) + rest;
    ThreeDigits(|t|);
    MisreadPieces(Pad2(|t|), t, rest, n);
    LexHead(s, n);
    GuiBytes(t);
    MisreadValue(s[4..4 + n]);
    MisreadTail(s[4 + n..], n - 1);
  }

  lemma LexLongBuild(r: Payment) returns (misread: Field, end: End)
    requires 100 <= |Merchant(r)| < 170
    ensures Lex(Build(r)) == Scan([Field("00", "01"), Field("01", "12"), misread], end) && end.BadLength?
    ensures misread.tag == "26" && Lex(misread.value).end.BadLength?
  {
    hide Lex, Encode, Format, Merchant, Checksum;
    var head := [Field("00", "01"), Field("01", "12")];
    var merchant := Field("26", Merchant(r));
    var fields := Fields(r);
    var tail := fields[3..];
    assert fields == head + ([merchant] + tail);
    EncodeConcat(head, [merchant] + tail);
    EncodeConcat([merchant], tail);
    OneField(merchant);
    var crc := Checksum(Encode(fields) + "6304");
    var rest := Encode(tail) + ("6304" + crc);
    Assoc(Encode(fields), "6304", crc);
    Assoc(Encode(head), Format(merchant) + Encode(tail), "6304" + crc);
    Assoc(Format(merchant), Encode(tail), "6304" + crc);
    LexEncode(head, Format(merchant) + rest);
    MerchantStartsWithGui(r);
    LexMisread(Merchant(r), rest);
    var lexed := Lex(Format(merchant) + rest);
    misread, end := lexed.fields[0], lexed.end;
    assert lexed.fields == [misread];
    assert head + [misread] == [Field("00", "01"), Field("01", "12"), misread];
  }

  lemma InterpretMisread(misread: Field, end: End)
    requires misread.tag == "26" && Lex(misread.value).end.BadLength? && end.BadLength?
    ensures Interpret(NO_PAYMENT, [Field("00", "01"), Field("01", "12"), misread], end) == Rejected(end)
  {
    hide Interpret, Lex, ApplyMerchant;
    var fields := [Field("00", "01"), Field("01", "12"), misread];
    assert fields[0..] == fields;
    InterpretAt(NO_PAYMENT, fields, 0, end);
    InterpretAt(NO_PAYMENT, fields, 1, end);
    InterpretAt(NO_PAYMENT, fields, 2, end);
    assert fields[3..] == [];
    InterpretEnd(Apply(NO_PAYMENT, misread).value, end);
  }

  lemma InterpretEnd(data: Payment, end: End)
    requires end.BadLength?
    ensures Interpret(data, [], end) == Rejected(end)
  {
  }

  /** A merchant template of 100 to 169 bytes always makes the parser refuse the code. */
  lemma LongMerchantIsRejected(r: Payment)
    requires 100 <= |Merchant(r)| < 170
    ensures Parse(Build(r)).Rejected?
  {
    hide Lex, Interpret, HasChecksum, Encode, Fields, Merchant, Seal;
    SealedHasChecksum(Encode(Fields(r)) + "6304");
    var misread, end := LexLongBuild(r);
    InterpretMisread(misread, end);
  }

  lemma FormatLength(f: Field)
    requires |f.tag| == 2 && |f.value| <= 99
    ensures |Format(f)| == 4 + |f.value|
  {
    PadIsScanned(|f.value|);
  }

  lemma OptionalLength(tag: Bytes, value: Bytes)
    requires |tag| == 2 && |value| <= 99
    ensures |Encode(Optional(tag, value))| <= 4 + |value|
  {
    hide Format;
    if value != [] {
      OneField(Field(tag, value));
      FormatLength(Field(tag, value));
    }
  }

  lemma MerchantLength(r: Payment)
    requires |r.address| <= 95 && |r.network| <= 95 && |r.currency| <= 95
    ensures |Merchant(r)| <= 18 + (4 + |r.address|) + (4 + |r.network|) + (4 + |r.currency|)
  {
    hide Format, Encode, Optional;
    var gui: seq<Field> := [Field("00", "org.x9.payment")];
    var a, n, c := Optional("01", r.address), Optional("02", r.network), Optional("03", r.currency);
    EncodeConcat(gui + a + n, c);
    EncodeConcat(gui + a, n);
    EncodeConcat(gui, a);
    OneField(gui[0]);
    FormatLength(gui[0]);
    OptionalLength("01", r.address);
    OptionalLength("02", r.network);
    OptionalLength("03", r.currency);
  }

  /** Whatever is read, a field without these sub-tags changes none of the three details. */
  predicate Silent(f: Field) {
    f.tag == "26" ==> forall g :: g in Lex(f.value).fields ==> g.tag !in {"01", "02", "03"}
  }

  lemma {:induction false} SilentFields(data: Payment, fields: seq<Field>, end: End)
    requires Interpret(data, fields, end).Parsed? && forall f :: f in fields ==> Silent(f)
    ensures var d := Interpret(data, fields, end).data;
            d.address == data.address && d.network == data.network && d.currency == data.currency
    decreases |fields|
  {
    hide Lex, Apply, Silent;
    if fields != [] {
      assert fields[0] in fields;
      SilentField(data, fields[0]);
      SilentFields(Apply(data, fields[0]).value, fields[1..], end);
    }
  }

  lemma SilentField(data: Payment, f: Field)
    requires Silent(f) && Apply(data, f).Some?
    ensures var d := Apply(data, f).value;
            d.address == data.address && d.network == data.network && d.currency == data.currency
  {
    hide Lex, ApplyMerchant, ApplyAdditional;
    if f.tag == "26" {
      SilentMerchant(data, Lex(f.value).fields);
    } else if f.tag == "62" {
      SilentAdditional(data, Lex(f.value).fields);
    }
  }

  lemma {:induction false} SilentMerchant(data: Payment, fields: seq<Field>)
    requires forall g :: g in fields ==> g.tag !in {"01", "02", "03"}
    ensures ApplyMerchant(data, fields) == data
    decreases |fields|
  {
    if fields != [] {
      assert fields[0] in fields;
      SilentMerchant(data, fields[1..]);
    }
  }

  lemma {:induction false} SilentAdditional(data: Payment, fields: seq<Field>)
    ensures var d := ApplyAdditional(data, fields);
            d.address == data.address && d.network == data.network && d.currency == data.currency
    decreases |fields|
  {
    if fields != [] {
      SilentAdditional(AdditionalStep(data, fields[0]), fields[1..]);
    }
  }

  /** A length from 190 to 199 is read as 19, the length of its last digit and the identifier field. */
  lemma Nineteen(n: nat)
    requires 190 <= n < 200
    ensures |Pad2(n)| == 3 && ScanInt(Pad2(n)[0], Pad2(n)[1]) == Some(19) && IsDigit(Pad2(n)[2])
  {
    assert Numeral(1) == "1";
    assert Numeral(19) == Numeral(1) + [DigitChar(9)];
    assert Numeral(n) == Numeral(19) + [DigitChar(n % 10)];
  }

  lemma SilentValue(value: Bytes, digit: Byte)
    requires value == [digit] + GUI_FIELD && IsDigit(digit)
    ensures Silent(Field("26", value))
  {
    hide Lex;
    GuiBytes(GUI_FIELD);
    assert value[2] == '0' && value[3] == '1' && value[7] == 'g' && value[8] == '.';
    assert value[0..] == value;
    LexAt(value, 0);
    LexAt(value, 5);
    assert Lex(value).fields == [Field(value[0..2], value[4..5])];
    assert value[0..2][1] == '0';
  }

  lemma NineteenPieces(pad: Bytes, inner: Bytes, rest: Bytes)
    requires |pad| == 3
    ensures var s := ("26" + pad + (GUI_FIELD + inner)) + rest;
            && |s| >= 23 && s[..2] == "26" && s[2] == pad[0] && s[3] == pad[1]
            && s[4..23] == [pad[2]] + GUI_FIELD && s[23..] == inner + rest
  {
  }

  /** Then the reader resumes exactly behind the identifier: the details become top-level fields. */
  lemma LexNineteen(r: Payment, rest: Bytes) returns (misread: Field)
    requires 190 <= |Merchant(r)| < 200 && forall f :: f in Details(r) ==> Fits(f)
    ensures Silent(misread)
    ensures Lex(Format(Field("26", Merchant(r))) + rest)
            == Scan([misread] + (Details(r) + Lex(rest).fields), Lex(rest).end)
  {
    hide Lex, Pad2, ScanInt, Encode, Details, Merchant, Silent, Fits;
    var m := Merchant(r);
    var inner := Encode(Details(r));
    MerchantParts(r);
    Nineteen(|m|);
    NineteenPieces(Pad2(|m|), inner, rest);
    var s := Format(Field("26", m)) + rest;
    LexHead(s, 19);
    misread := Field("26", s[4..23]);
    SilentValue(s[4..23], Pad2(|m|)[2]);
    LexEncode(Details(r), rest);
  }

  lemma DetailsAreSilent(r: Payment)
    ensures forall f :: f in Details(r) ==> Silent(f)
    ensures forall f :: f in Fields(r)[3..] ==> Silent(f)
  {
    hide Merchant, Additional, Lex;
  }

  lemma DetailsFit(r: Payment)
    requires Short(r)
    ensures forall f :: f in Details(r) ==> Fits(f)
    ensures forall f :: f in Fields(r)[3..] ==> Fits(f)
  {
    hide Merchant, Additional;
    AdditionalLength(r);
  }

  lemma LexNineteenBuild(r: Payment) returns (fields: seq<Field>)
    requires 190 <= |Merchant(r)| < 200 && Short(r)
    ensures Lex(Build(r)) == Scan(fields, Done) && forall f :: f in fields ==> Silent(f)
  {
    hide Lex, Encode, Format, Merchant, Checksum, Details, Silent, Fits, Short;
    var head := [Field("00", "01"), Field("01", "12")];
    var merchant, all := Field("26", Merchant(r)), Fields(r);
    var details, tail := Details(r), all[3..];
    assert all == head + ([merchant] + tail);
    EncodeConcat(head, [merchant] + tail);
    EncodeConcat([merchant], tail);
    OneField(merchant);
    var crc := Checksum(Encode(all) + "6304");
    ChecksumLength(Encode(all) + "6304");
    LexChecksum(crc);
    var rest := Encode(tail) + ("6304" + crc);
    Assoc(Encode(all), "6304", crc);
    Assoc(Encode(head), Format(merchant) + Encode(tail), "6304" + crc);
    Assoc(Format(merchant), Encode(tail), "6304" + crc);
    HeadIsSilent();
    DetailsFit(r);
    DetailsAreSilent(r);
    LexEncode(head, Format(merchant) + rest);
    LexEncode(tail, "6304" + crc);
    var misread := LexNineteen(r, rest);
    fields := head + ([misread] + (details + (tail + [Field("63", crc)])));
    OthersAreSilent(Field("63", crc));
  }

  lemma HeadIsSilent()
    ensures forall f :: f in [Field("00", "01"), Field("01", "12")] ==> Silent(f) && Fits(f)
  {
    hide Lex;
  }

  lemma OthersAreSilent(f: Field)
    requires f.tag != "26"
    ensures Silent(f)
  {
  }

  /** So a code with a merchant template of 190 to 199 bytes is never read back: the details are lost. */
  lemma NineteenIsNotReadBack(r: Payment)
    requires 190 <= |Merchant(r)| < 200
    ensures Parse(Build(r)) != Parsed(r)
  {
    hide Lex, Interpret, Merchant, Build, Silent;
    if Parse(Build(r)) == Parsed(r) {
      ParsedLengths(Build(r));
      var fields := LexNineteenBuild(r);
      SilentFields(NO_PAYMENT, fields, Done);
      MerchantLength(r);
    }
  }

  /** The three two-digit limits decide the round trip, for merchant templates below 170 bytes, of 190 to 199, and
      above 315, which hold a detail of more than 95 bytes. */
  lemma RoundTripExact(r: Payment)
    requires var n := |Merchant(r)|; n < 170 || 190 <= n < 200 || n > 315
    ensures Parse(Build(r)) == Parsed(r) <==> WithinLimits(r)
  {
    hide Parse, Build, Merchant;
    if |Merchant(r)| <= 99 {
      RoundTrip(r);
    } else if |Merchant(r)| < 170 {
      LongMerchantIsRejected(r);
    } else if |Merchant(r)| < 200 {
      NineteenIsNotReadBack(r);
    } else if Parse(Build(r)) == Parsed(r) {
      ParsedLengths(Build(r));
      MerchantLength(r);
    }
  }

  // ---- a memo too long for two digits ----

  lemma {:induction false} InterpretSplit(data: Payment, a: seq<Field>, b: seq<Field>, end: End)
    ensures Interpret(data, a, Done).Parsed? ==>
              Interpret(data, a + b, end) == Interpret(Interpret(data, a, Done).data, b, end)
    ensures !Interpret(data, a, Done).Parsed? ==> Interpret(data, a + b, end) == Panicked
    decreases |a|
  {
    hide Apply;
    if a == [] {
      assert a + b == b;
    } else {
      assert (a + b)[1..] == a[1..] + b;
      if Apply(data, a[0]).Some? {
        InterpretSplit(Apply(data, a[0]).value, a[1..], b, end);
      }
    }
  }

  lemma InterpretFields(r: Payment)
    requires WithinLimits(r)
    ensures Interpret(NO_PAYMENT, Fields(r), Done) == Parsed(r)
  {
    hide Interpret, Fields, Merchant;
    var tail := Field("63", "0000");
    InterpretFixed(r, tail, Done);
    InterpretMemo(r, tail);
    InterpretSplit(NO_PAYMENT, Fields(r), [tail], Done);
    var data := Interpret(NO_PAYMENT, Fields(r), Done).data;
    assert [tail][0..] == [tail];
    OtherTag(data, tail);
    InterpretAt(data, [tail], 0, Done);
    InterpretNothing(data, [tail]);
  }

  /** Five bytes that complete a value of ten, then two fields. */
  function LongMemo(start: Bytes, fields: seq<Field>): Bytes {
    start + Encode(fields)
  }

  /** The template of a 96-byte memo is printed with the length 100, which is read as 10: the reader resumes
      behind five bytes of the memo. */
  lemma LexLongMemo(start: Bytes, fields: seq<Field>, crc: Bytes)
    requires |start| == 5 && |LongMemo(start, fields)| == 96 && |crc| == 4
    requires forall f :: f in fields ==> Fits(f)
    ensures Lex(Format(Field("62", Encode([Field("05", LongMemo(start, fields))]))) + ("6304" + crc))
            == Scan([Field("62", "00596" + start)] + (fields + [Field("63", crc)]), Done)
  {
    hide Lex, Encode, Pad2;
    var memo := LongMemo(start, fields);
    var rest := "6304" + crc;
    OneField(Field("05", memo));
    LongPads();
    var value := Format(Field("05", memo));
    assert value == "0596" + memo;
    var s := Format(Field("62", value)) + rest;
    LongPieces(start, Encode(fields), rest);
    LexHead(s, 10);
    LexEncode(fields, rest);
    LexChecksum(crc);
  }

  lemma LongPieces(start: Bytes, inner: Bytes, rest: Bytes)
    requires |start| == 5 && |start + inner| == 96
    ensures var s := ("62" + "100" + ("0596" + (start + inner))) + rest;
            && s[..2] == "62" && s[2] == '1' && s[3] == '0'
            && s[4..14] == "00596" + start && s[14..] == inner + rest
  {
  }

  lemma LongPads()
    ensures Pad2(96) == "96" && Pad2(100) == "100"
  {
    assert Numeral(9) == "9" && Numeral(1) == "1";
    assert Numeral(96) == Numeral(9) + [DigitChar(6)];
    assert Numeral(10) == Numeral(1) + [DigitChar(0)];
    assert Numeral(100) == Numeral(10) + [DigitChar(0)];
  }

  lemma MisreadTemplate(data: Payment, start: Bytes)
    requires |start| == 5
    ensures Apply(data, Field("62", "00596" + start)) == Some(data)
  {
    var s := "00596" + start;
    assert s[2] == '5' && s[3] == '9';
    assert Lex(s) == Scan([], Truncated(s[..2]));
  }

  lemma MerchantIgnoresMemo(r: Payment)
    ensures Merchant(r.(memo := [])) == Merchant(r)
  {
  }

  /** Beyond the limit a code can be accepted and misread: here fields inside a memo of 96 bytes are read at top
      level, and one of them is an amount. */
  lemma LongMemoIsMisread(r: Payment, start: Bytes, amount: Field, filler: Field)
    requires |Merchant(r)| <= 99 && |r.amount| <= 99
    requires |start| == 5 && r.memo == LongMemo(start, [amount, filler]) && |r.memo| == 96
    requires amount.tag == "54" && |amount.value| <= 99
    requires |filler.tag| == 2 && filler.tag !in {"26", "54", "62"} && |filler.value| <= 99
    ensures Parse(Build(r)) == Parsed(r.(amount := amount.value, memo := []))
  {
    hide Lex, Interpret, Encode, Format, Merchant, Checksum, LongMemo, Apply, HasChecksum;
    var short := r.(memo := []);
    var long := Field("62", Additional(r));
    MerchantIgnoresMemo(r);
    assert Fields(r) == Fields(short) + [long];
    EncodeConcat(Fields(short), [long]);
    OneField(long);
    var crc := Checksum(Encode(Fields(r)) + "6304");
    SealedHasChecksum(Encode(Fields(r)) + "6304");
    ChecksumLength(Encode(Fields(r)) + "6304");
    Assoc(Encode(Fields(r)), "6304", crc);
    Assoc(Encode(Fields(short)), Format(long), "6304" + crc);
    FieldsFit(short);
    LexLongMemo(start, [amount, filler], crc);
    LexEncode(Fields(short), Format(long) + ("6304" + crc));
    var behind := [Field("62", "00596" + start)] + ([amount, filler] + [Field("63", crc)]);
    assert Lex(Build(r)) == Scan(Fields(short) + behind, Done);
    InterpretFields(short);
    InterpretSplit(NO_PAYMENT, Fields(short), behind, Done);
    InterpretBehind(short, start, amount, filler, Field("63", crc));
  }

  lemma InterpretBehind(data: Payment, start: Bytes, amount: Field, filler: Field, tail: Field)
    requires |start| == 5 && amount.tag == "54" && filler.tag !in {"26", "54", "62"} && tail.tag == "63"
    ensures Interpret(data, [Field("62", "00596" + start)] + ([amount, filler] + [tail]), Done)
            == Parsed(data.(amount := amount.value))
  {
    hide Interpret, Apply;
    var fields := [Field("62", "00596" + start)] + ([amount, filler] + [tail]);
    var read := data.(amount := amount.value);
    assert fields[0..] == fields;
    MisreadTemplate(data, start);
    InterpretAt(data, fields, 0, Done);
    AmountField(data, amount);
    InterpretAt(data, fields, 1, Done);
    OtherTag(read, filler);
    InterpretAt(read, fields, 2, Done);
    OtherTag(read, tail);
    InterpretAt(read, fields, 3, Done);
    InterpretNothing(read, fields);
  }

  /** Building is injective on requests within the limits. */
  lemma BuildIsInjective(r: Payment, s: Payment)
    requires WithinLimits(r) && WithinLimits(s) && Build(r) == Build(s)
    ensures r == s
  {
    hide Parse, Build, Merchant;
    RoundTrip(r);
    RoundTrip(s);
  }

  // ---- damaged and malformed payloads ----

  /** The checksum test ignores the case of letters, and nothing else. */
  lemma HasChecksumExactly(payload: Bytes)
    ensures HasChecksum(payload) <==>
            && |payload| >= 4
            && var n, crc := |payload| - 4, Checksum(payload[..|payload| - 4]);
               |crc| == 4 && forall i :: 0 <= i < 4 ==> SameLetter(crc[i], payload[n + i])
  {
    hide Checksum, EqualFold;
    if |payload| >= 4 {
      var n := |payload| - 4;
      var crc := Checksum(payload[..n]);
      ChecksumLetters(payload[..n]);
      EqualFoldExactly(crc, payload[n..]);
      assert forall i :: 0 <= i < 4 ==> payload[n..][i] == payload[n + i];
    }
  }

  lemma ChecksumLetters(text: Bytes)
    ensures |Checksum(text)| == 4
    ensures forall i :: 0 <= i < 4 ==> Lower(Checksum(text)[i]) != 's' && Lower(Checksum(text)[i]) != 'k'
  {
    hide Register, Hex;
    HexTextOf(Register(INITIAL, text));
  }

  /** A change inside sixteen consecutive bits of an accepted payload's checked part is always noticed. */
  lemma BurstIsRejected(payload: Bytes, damaged: Bytes, k: nat)
    requires HasChecksum(payload) && |damaged| == |payload| && damaged != payload
    requires damaged[|damaged| - 4..] == payload[|payload| - 4..]
    requires AgreeOutsideWindow(payload[..|payload| - 4], damaged[..|damaged| - 4], k)
    ensures Parse(damaged) == BadChecksum
  {
    hide Lex, Interpret, Register, AgreeOutsideWindow, Hex;
    var n := |payload| - 4;
    var body, changed, text := payload[..n], damaged[..n], payload[n..];
    assert payload == body + text && damaged == changed + text;
    BurstChangesRegister(INITIAL, body, changed, k);
    if HasChecksum(damaged) {
      HexIsInjective(Register(INITIAL, body), Register(INITIAL, changed), text);
    }
  }

  predicate IsTemplate(f: Field) {
    f.tag == "26" || f.tag == "62"
  }

  /** The parser panics on a payload with a correct checksum exactly when reading it, or a template that is
      read in it, arrives at a header whose length is a minus sign and a digit other than zero. */
  lemma PanicsExactly(payload: Bytes)
    ensures Parse(payload) == Panicked <==>
            HasChecksum(payload)
            && (StopsAtMinus(payload) || exists f :: f in Lex(payload).fields && IsTemplate(f) && StopsAtMinus(f.value))
  {
    hide Lex, Checksum, EqualFold, StopsAtMinus, Interpret;
    OutOfRangeExactly(payload);
    InterpretPanics(NO_PAYMENT, Lex(payload).fields, Lex(payload).end);
  }

  lemma {:induction false} InterpretPanics(data: Payment, fields: seq<Field>, end: End)
    ensures Interpret(data, fields, end) == Panicked <==>
            end == OutOfRange || exists f :: f in fields && IsTemplate(f) && StopsAtMinus(f.value)
    decreases |fields|
  {
    hide Lex, ApplyMerchant, ApplyAdditional, StopsAtMinus;
    if fields != [] {
      var f := fields[0];
      assert f in fields && fields == [f] + fields[1..];
      OutOfRangeExactly(f.value);
      if Apply(data, f).Some? {
        InterpretPanics(Apply(data, f).value, fields[1..], end);
      }
    }
  }

  /** Every other outcome, by its cause: too short, a wrong checksum, text behind the last readable field, and
      otherwise accepted. */
  lemma ParseOutcomes(payload: Bytes)
    ensures Parse(payload) == TooShort <==> |payload| < 4
    ensures Parse(payload) == BadChecksum <==> |payload| >= 4 && !HasChecksum(payload)
    ensures HasChecksum(payload) && Parse(payload) != Panicked ==>
              && (Parse(payload).Parsed? <==> Lex(payload).end == Done)
              && (Parse(payload).Rejected? <==> Lex(payload).end.BadLength? || Lex(payload).end.Truncated?)
              && (Parse(payload).Rejected? ==> Parse(payload).why == Lex(payload).end)
  {
    hide Lex, Checksum, EqualFold, Interpret;
    if HasChecksum(payload) {
      InterpretOutcomes(NO_PAYMENT, Lex(payload).fields, Lex(payload).end);
    }
  }

  lemma {:induction false} InterpretOutcomes(data: Payment, fields: seq<Field>, end: End)
    ensures var r := Interpret(data, fields, end);
            && (r.Parsed? || r.Rejected? || r.Panicked?)
            && (r.Parsed? ==> end == Done)
            && (r.Rejected? ==> end != Done && end != OutOfRange && r.why == end)
    decreases |fields|
  {
    hide Apply;
    if fields != [] && Apply(data, fields[0]).Some? {
      InterpretOutcomes(Apply(data, fields[0]).value, fields[1..], end);
    }
  }

  /** So a payload without a minus sign never makes it panic. */
  lemma NoMinusNoPanic(payload: Bytes)
    requires '-' !in payload
    ensures Parse(payload) != Panicked
  {
    hide Lex, HasChecksum, Parse, Span;
    PanicsExactly(payload);
    LexedAreParts(payload);
  }

  lemma {:induction false} LexedAreParts(s: Bytes)
    ensures forall f, c :: f in Lex(s).fields && c in f.value ==> c in s
    decreases |s|
  {
    if |s| >= 4 && ScanInt(s[2], s[3]).Some? {
      var n := ScanInt(s[2], s[3]).value;
      if 0 <= n <= |s| - 4 {
        LexedAreParts(s[4 + n..]);
        assert forall c :: c in s[4..4 + n] ==> c in s;
        assert forall c :: c in s[4 + n..] ==> c in s;
      }
    }
  }

  /** With one it can: a length of minus one. */
  lemma MinusCanPanic()
    ensures Parse(Seal("00-1")) == Panicked
  {
    hide Checksum, HasChecksum;
    var payload := Seal("00-1");
    SealedHasChecksum("00-1");
    ChecksumLength("00-1");
    assert payload[2] == '-' && payload[3] == '1';
  }
}
