/** The validation paths of handleGeneratePaymentQR and handleTransferFromQR, down to the built payload
    and the transfer intent. */
module Payments {
  import opened Bytes
  import opened Numerals
  import opened Decimals
  import opened Amounts
  import opened Tlv
  import opened QrCodec
  import opened QrRoundTrip
  import opened JsNumbers
  import opened Doubles
  import Preview

  datatype GenerateResult = Generated(payload: Bytes) | MissingField | BadAddress | BadAmount

  datatype Intent = Intent(from: Bytes, to: Bytes, amount: Bytes, currency: Bytes)

  datatype TransferResult =
    | Submit(intent: Intent)
    | MissingInput
    | BadSender
    | BadPayload(why: ParseResult)
    | IncompletePayload
    | BadRecipient
    | UnsupportedCurrency
    | UnsupportedNetwork
    | BadPayloadAmount(cause: AmountResult)

  predicate IsHexDigit(c: Byte) {
    IsDigit(c) || 'a' <= c <= 'f' || 'A' <= c <= 'F'
  }

  /** ^0x[0-9a-fA-F]{40}$ */
  predicate IsEvmAddress(text: Bytes) {
    |text| == 42 && text[0] == '0' && text[1] == 'x' && forall i :: 2 <= i < 42 ==> IsHexDigit(text[i])
  }

  /** The requests that handleGeneratePaymentQR prints a code for; GeneratedExactly connects it to the handler. */
  predicate Acceptable(req: Payment) {
    && req.address != [] && req.amount != [] && req.currency != [] && req.network != []
    && IsEvmAddress(req.address)
    && FromString(req.amount).Some? && FromString(req.amount).value.coefficient > 0
  }

  function GeneratePaymentQr(req: Payment): GenerateResult {
    if req.address == [] || req.amount == [] || req.currency == [] || req.network == [] then MissingField
    else if !IsEvmAddress(req.address) then BadAddress
    else match FromString(req.amount)
      case None => BadAmount
      case Some(d) => if d.coefficient <= 0 then BadAmount else Generated(Build(req.(amount := String(d))))
  }

  function TransferFromQr(payload: Bytes, from: Bytes): TransferResult {
    if payload == [] || from == [] then MissingInput
    else if !IsEvmAddress(from) then BadSender
    else match Parse(payload)
      case Parsed(data) => TransferParsed(data, from)
      case failure => BadPayload(failure)
  }

  function TransferParsed(data: Payment, from: Bytes): TransferResult {
    if data.address == [] || data.amount == [] || data.currency == [] then IncompletePayload
    else if !IsEvmAddress(data.address) then BadRecipient
    else if !EqualFold("USDC", data.currency) then UnsupportedCurrency
    else if !EqualFold("ethereum", data.network) then UnsupportedNetwork
    else match ParseDecimalAmount(data.amount)
      case Amount(micro) => Submit(Intent(from, data.address, micro, data.currency))
      case failure => BadPayloadAmount(failure)
  }

  // ---- what is submitted, and why not ----

  /** This amount text stands for n > 0 micro-units, and n is what the intent carries. */
  ghost predicate CarriesAmount(intent: Intent, text: Bytes) {
    exists n: nat :: StandsFor(text, n) && intent.amount == Numeral(n)
  }

  /** Whatever the payload: a transfer is submitted if and only if sender and recipient are EVM addresses, the payload
      is accepted with that recipient and currency, currency and network are USDC and ethereum up to case, and its
      amount stands for the positive number of micro-units that the transfer carries. */
  lemma SubmitsExactly(payload: Bytes, from: Bytes, intent: Intent)
    ensures TransferFromQr(payload, from) == Submit(intent) <==>
            && intent.from == from && IsEvmAddress(from) && IsEvmAddress(intent.to)
            && Parse(payload).Parsed?
            && var d := Parse(payload).data;
               && d.address == intent.to && d.currency == intent.currency
               && EqualFold("USDC", d.currency) && EqualFold("ethereum", d.network)
               && CarriesAmount(intent, d.amount)
  {
    hide Parse, ParseDecimalAmount, StandsFor, Numeral, IsEvmAddress, EqualFold;
    LongAddress(from);
    if Parse(payload).Parsed? {
      var d := Parse(payload).data;
      ParsedIsLong(payload);
      LongAddress(d.address);
      LongWord(d.currency);
      CarriedAmount(intent, d.amount);
    }
  }

  lemma LongAddress(text: Bytes)
    ensures IsEvmAddress(text) ==> text != []
  {
  }

  lemma LongWord(text: Bytes)
    ensures EqualFold("USDC", text) ==> text != []
  {
  }

  lemma CarriedAmount(intent: Intent, text: Bytes)
    ensures CarriesAmount(intent, text) <==> ParseDecimalAmount(text) == Amount(intent.amount)
    ensures CarriesAmount(intent, text) ==> text != []
  {
    hide ParseDecimalAmount, StandsFor, Numeral;
    if ParseDecimalAmount(text) == Amount(intent.amount) {
      var n := AcceptedText(text);
      AmountIsExact(text, n);
    }
    if CarriesAmount(intent, text) {
      var n: nat :| StandsFor(text, n) && intent.amount == Numeral(n);
      AmountIsExact(text, n);
      EmptyIsRefused();
    }
  }

  lemma EmptyIsRefused()
    ensures ParseDecimalAmount([]) == Empty
  {
  }

  lemma ParsedIsLong(payload: Bytes)
    requires Parse(payload).Parsed?
    ensures |payload| >= 4
  {
    hide HasChecksum, Interpret, Lex;
  }

  /** Each refusal, by its cause; the earlier cause comes first. */
  lemma RefusalCauses(payload: Bytes, from: Bytes)
    ensures var r := TransferFromQr(payload, from);
            && (r == MissingInput <==> payload == [] || from == [])
            && (r == BadSender <==> payload != [] && from != [] && !IsEvmAddress(from))
            && (r.BadPayload? <==> payload != [] && IsEvmAddress(from) && !Parse(payload).Parsed?)
            && (r.BadPayload? ==> r.why == Parse(payload))
    ensures IsEvmAddress(from) && Parse(payload).Parsed? ==>
              var r, d := TransferFromQr(payload, from), Parse(payload).data;
              && (r == IncompletePayload <==> d.address == [] || d.amount == [] || d.currency == [])
              && (r == BadRecipient <==> d.address != [] && d.amount != [] && d.currency != [] && !IsEvmAddress(d.address))
              && (r == UnsupportedCurrency <==>
                    IsEvmAddress(d.address) && d.amount != [] && d.currency != [] && !EqualFold("USDC", d.currency))
              && (r == UnsupportedNetwork <==>
                    && IsEvmAddress(d.address) && d.amount != [] && EqualFold("USDC", d.currency)
                    && !EqualFold("ethereum", d.network))
              && (r.BadPayloadAmount? <==>
                    && IsEvmAddress(d.address) && d.amount != [] && EqualFold("USDC", d.currency)
                    && EqualFold("ethereum", d.network) && forall n: nat :: !StandsFor(d.amount, n))
  {
    hide Parse, ParseDecimalAmount, StandsFor, Numeral, IsEvmAddress, EqualFold;
    LongAddress(from);
    if Parse(payload).Parsed? {
      var d := Parse(payload).data;
      ParsedIsLong(payload);
      LongAddress(d.address);
      LongWord(d.currency);
      NoAmount(d.amount);
    }
  }

  lemma NoAmount(text: Bytes)
    ensures ParseDecimalAmount(text).Amount? <==> exists n: nat :: StandsFor(text, n)
  {
    hide ParseDecimalAmount, StandsFor, Numeral;
    if ParseDecimalAmount(text).Amount? {
      var n := AcceptedText(text);
      AmountIsExact(text, n);
    }
    if n: nat :| StandsFor(text, n) {
      AmountIsExact(text, n);
    }
  }

  /** The same for generating: a code carries the request with its amount in normal form, and each refusal has its
      cause. */
  lemma GenerateCauses(req: Payment)
    ensures var r := GeneratePaymentQr(req);
            && (r == MissingField <==> req.address == [] || req.amount == [] || req.currency == [] || req.network == [])
            && (r == BadAddress <==>
                  && req.address != [] && req.amount != [] && req.currency != [] && req.network != []
                  && !IsEvmAddress(req.address))
            && (r.Generated? || r == BadAmount <==>
                  IsEvmAddress(req.address) && req.amount != [] && req.currency != [] && req.network != [])
            && (r.Generated? ==> FromString(req.amount).Some? && Value(FromString(req.amount).value) > 0.0)
            && (r == BadAmount ==> FromString(req.amount).None? || Value(FromString(req.amount).value) <= 0.0)
  {
    hide FromString, String, Build, IsEvmAddress, Value;
    LongAddress(req.address);
    if FromString(req.amount).Some? {
      PositiveCoefficient(FromString(req.amount).value);
    }
  }

  // ---- lengths ----

  /** Extra bytes a fold of this word can take. */
  function Widening(word: Bytes): nat {
    if word == [] then 0
    else (if Lower(word[0]) == 's' then 1 else if Lower(word[0]) == 'k' then 2 else 0) + Widening(word[1..])
  }

  lemma {:induction false} FoldLength(word: Bytes, text: Bytes)
    requires EqualFold(word, text)
    ensures |text| <= |word| + Widening(word)
  {
    if word != [] {
      if text != [] && Lower(text[0]) == Lower(word[0]) {
        FoldLength(word[1..], text[1..]);
      } else if Lower(word[0]) == 's' {
        FoldLength(word[1..], text[2..]);
      } else {
        FoldLength(word[1..], text[3..]);
      }
    }
  }

  lemma {:induction false} NoWidening(word: Bytes)
    requires forall i :: 0 <= i < |word| ==> Lower(word[i]) != 's' && Lower(word[i]) != 'k'
    ensures Widening(word) == 0
  {
    if word != [] {
      NoWidening(word[1..]);
    }
  }

  lemma WordWidening()
    ensures Widening("USDC") == 1 && Widening("ethereum") == 0
  {
    NoWidening("ethereum");
    assert "USDC"[1..] == "SDC" && "SDC"[1..] == "DC";
    NoWidening("DC");
    assert Widening("SDC") == 1;
  }

  lemma ShortMerchant(r: Payment)
    requires |r.address| <= 42 && |r.network| <= 8 && |r.currency| <= 5
    ensures |Merchant(r)| <= 99
  {
    hide Merchant;
    MerchantLength(r);
  }

  // ---- end to end ----

  /** What both handlers support. */
  predicate Supported(req: Payment) {
    EqualFold("USDC", req.currency) && EqualFold("ethereum", req.network)
  }

  /** The request as it is printed: its amount normalised by the decimal library. */
  function Normalised(req: Payment): Payment
    requires Acceptable(req)
  {
    req.(amount := String(FromString(req.amount).value))
  }

  lemma GeneratedExactly(req: Payment)
    ensures GeneratePaymentQr(req).Generated? <==> Acceptable(req)
    ensures Acceptable(req) ==> GeneratePaymentQr(req) == Generated(Build(Normalised(req)))
  {
    hide FromString, String, Build, IsEvmAddress;
  }

  lemma SupportedMerchant(req: Payment)
    requires Acceptable(req) && Supported(req)
    ensures |Merchant(Normalised(req))| <= 99
  {
    hide FromString, String, Build, Merchant, EqualFold;
    WordWidening();
    FoldLength("USDC", req.currency);
    FoldLength("ethereum", req.network);
    ShortMerchant(Normalised(req));
  }

  /** A generated code for a supported request is read back exactly when the normalised amount has at most
      99 bytes and the memo at most 95. */
  lemma GeneratedIsReadBack(req: Payment)
    requires Acceptable(req) && Supported(req)
    ensures Parse(GeneratePaymentQr(req).payload) == Parsed(Normalised(req)) <==>
            |Normalised(req).amount| <= 99 && |req.memo| <= 95
  {
    hide FromString, String, Build, Merchant, Parse, Supported;
    SupportedMerchant(req);
    RoundTrip(Normalised(req));
  }

  lemma AcceptedExponent(text: Bytes)
    requires FromString(text).Some?
    ensures IsInt32(FromString(text).value.exponent)
  {
    hide ParseExponent, ParseInteger;
  }

  /** v USDC are n micro-units. */
  ghost predicate IsMicro(v: real, n: nat) {
    1_000_000.0 * v == n as real
  }

  /** The amount printed in a generated code denotes exactly the requested number. */
  lemma NormalisedReading(req: Payment)
    requires Acceptable(req)
    ensures GeneratePaymentQr(req) == Generated(Build(Normalised(req)))
    ensures var v := Value(FromString(req.amount).value);
            && Normalised(req).amount != []
            && Reading(Normalised(req).amount) == Some(v) && v > 0.0
  {
    hide FromString, String, Build, Value, IsEvmAddress, Reading;
    var d := FromString(req.amount).value;
    GeneratedExactly(req);
    AcceptedExponent(req.amount);
    ReadingOfString(d);
    PositiveCoefficient(d);
  }

  lemma ScannedCode(req: Payment, from: Bytes)
    requires Acceptable(req) && Supported(req) && IsEvmAddress(from)
    requires |Normalised(req).amount| <= 99 && |req.memo| <= 95
    ensures TransferFromQr(GeneratePaymentQr(req).payload, from) == TransferParsed(Normalised(req), from)
  {
    hide FromString, String, Merchant, Parse, TransferParsed, TransferFromQr, Build, Supported, IsEvmAddress;
    GeneratedIsReadBack(req);
    TransferRead(GeneratePaymentQr(req).payload, Normalised(req), from);
  }

  /** Scanning a generated code transfers to the requested address exactly 10^6 times the requested amount
      when that is a whole number of micro-units, and is refused as too fine otherwise. */
  lemma EndToEnd(req: Payment, from: Bytes, micro: nat)
    requires Acceptable(req) && Supported(req) && IsEvmAddress(from)
    requires |Normalised(req).amount| <= 99 && |req.memo| <= 95
    ensures var payload, v := GeneratePaymentQr(req).payload, Value(FromString(req.amount).value);
            && (TransferFromQr(payload, from) == Submit(Intent(from, req.address, Numeral(micro), req.currency)) <==>
                  IsMicro(v, micro))
            && (TransferFromQr(payload, from) == BadPayloadAmount(TooFine) <==> forall n: nat :: !IsMicro(v, n))
  {
    hide FromString, String, Build, Value, IsEvmAddress, Reading, TransferFromQr, ParseDecimalAmount, EqualFold, Numeral;
    ScannedCode(req, from);
    NormalisedReading(req);
    var text, v := Normalised(req).amount, Value(FromString(req.amount).value);
    forall n: nat ensures StandsFor(text, n) <==> IsMicro(v, n) {
    }
    AmountIsExact(text, micro);
    RejectionCauses(text);
  }

  /** So no other transfer than the requested one comes of it. */
  lemma OnlyTheRequested(req: Payment, from: Bytes, intent: Intent)
    requires Acceptable(req) && Supported(req) && IsEvmAddress(from)
    requires |Normalised(req).amount| <= 99 && |req.memo| <= 95
    requires TransferFromQr(GeneratePaymentQr(req).payload, from) == Submit(intent)
    ensures exists micro: nat :: IsMicro(Value(FromString(req.amount).value), micro)
                                 && intent == Intent(from, req.address, Numeral(micro), req.currency)
  {
    hide FromString, String, Build, Value, IsEvmAddress, Reading, TransferFromQr, ParseDecimalAmount, EqualFold, Numeral,
         IsMicro;
    ScannedCode(req, from);
    var micro := SubmittedAmount(Normalised(req), from, intent);
    EndToEnd(req, from, micro);
  }

  lemma SubmittedAmount(data: Payment, from: Bytes, intent: Intent) returns (micro: nat)
    requires TransferParsed(data, from) == Submit(intent)
    ensures intent == Intent(from, data.address, Numeral(micro), data.currency)
    ensures StandsFor(data.amount, micro)
  {
    hide ParseDecimalAmount, EqualFold, Numeral, StandsFor, IsEvmAddress;
    micro := AcceptedText(data.amount);
    AmountIsExact(data.amount, micro);
  }

  /** Five bytes, the field 54 with 999, and a field that fills the memo up to 96 bytes. */
  function LongestMemo(): Bytes {
    LongMemo("xxxxx", [Field("54", "999"), Field("99", Zeros(80))])
  }

  /** One byte more in the memo, and another amount can be transferred than the one requested. */
  lemma LongMemoTransfers(req: Payment, from: Bytes)
    requires Acceptable(req) && Supported(req) && IsEvmAddress(from)
    requires |Normalised(req).amount| <= 99 && req.memo == LongestMemo()
    ensures |req.memo| == 96
    ensures TransferFromQr(GeneratePaymentQr(req).payload, from)
            == Submit(Intent(from, req.address, Numeral(999_000_000), req.currency))
  {
    hide FromString, String, Build, Merchant, Parse, ParseDecimalAmount, EqualFold, Numeral, IsEvmAddress, LongMemo;
    var code := Normalised(req);
    SupportedMerchant(req);
    LongestMemoLength();
    LongMemoIsMisread(code, "xxxxx", Field("54", "999"), Field("99", Zeros(80)));
    TransferRead(Build(code), code.(amount := "999", memo := []), from);
    Amount999();
  }

  lemma TransferRead(payload: Bytes, data: Payment, from: Bytes)
    requires Parse(payload) == Parsed(data) && IsEvmAddress(from)
    ensures TransferFromQr(payload, from) == TransferParsed(data, from)
  {
    hide Parse, TransferParsed;
    ParsedIsLong(payload);
  }

  lemma LongestMemoLength()
    ensures |LongestMemo()| == 96
  {
    hide Format;
    var amount, filler := Field("54", "999"), Field("99", Zeros(80));
    assert [amount, filler] == [amount] + [filler];
    EncodeConcat([amount], [filler]);
    OneField(amount);
    OneField(filler);
    FormatLength(amount);
    FormatLength(filler);
  }

  lemma Amount999()
    ensures ParseDecimalAmount("999") == Amount(Numeral(999_000_000))
  {
    hide Reading, ParseDecimalAmount, FromString;
    assert Numeral(9) == "9";
    assert Numeral(99) == Numeral(9) + [DigitChar(9)];
    assert Numeral(999) == Numeral(99) + [DigitChar(9)];
    assert String(Decimal(999, 0)) == "999";
    ReadingOfString(Decimal(999, 0));
    AmountIsExact("999", 999_000_000);
  }

  /** For a code that is executed: what the dashboard's parser returns before sending is what the API read if and
      only if the preview is truthful, and the transfer has that address, currency and exact amount. */
  lemma PreviewedTransfer(payload: Bytes, from: Bytes, intent: Intent)
    requires Preview.IsAscii(payload)
    requires TransferFromQr(payload, from) == Submit(intent)
    ensures Parse(payload).Parsed?
    ensures var d := Parse(payload).data;
            && d.address == intent.to && d.currency == intent.currency
            && ParseDecimalAmount(d.amount) == Amount(intent.amount)
            && (Preview.PreviewOf(payload) == Preview.Shown(d) <==> Preview.Truthful(Lex(payload).fields, d))
  {
    hide Parse, ParseDecimalAmount, EqualFold, IsEvmAddress, Lex, Preview.PreviewOf, Preview.Truthful;
    Preview.PreviewAgreesExactly(payload);
  }

  // ---- the amount on the page ----

  /** previewAmount: toFixed(2) of the double nearest to what parseFloat reads. */
  ghost predicate PageShows(amount: Bytes, page: Page) {
    match ParseFloat(amount)
    case None => page == NotANumber
    case Some(d) => Shows(Value(d), page)
  }

  lemma {:induction false} TrimParts(input: Bytes) returns (before: Bytes, behind: Bytes)
    requires Preview.IsAscii(input)
    ensures input == before + (TrimSpace(input) + behind)
    ensures forall i :: 0 <= i < |before| ==> IsSpace(before[i])
    ensures forall i :: 0 <= i < |behind| ==> IsSpace(behind[i])
    decreases |input|
  {
    hide LeadingSpace, TrailingSpace, IsSpace;
    AsciiSpace(input);
    if LeadingSpace(input) > 0 {
      before, behind := TrimParts(input[1..]);
      assert input == [input[0]] + input[1..];
      before := [input[0]] + before;
    } else if TrailingSpace(input) > 0 {
      var last := |input| - 1;
      before, behind := TrimParts(input[..last]);
      assert input == input[..last] + [input[last]];
      behind := behind + [input[last]];
    } else {
      before, behind := [], [];
    }
  }

  lemma AsciiSpace(input: Bytes)
    requires Preview.IsAscii(input)
    ensures LeadingSpace(input) > 0 ==> LeadingSpace(input) == 1 && |input| >= 1 && IsSpace(input[0])
    ensures TrailingSpace(input) > 0 ==> TrailingSpace(input) == 1 && |input| >= 1 && IsSpace(input[|input| - 1])
  {
    if |input| >= 1 {
      assert input[|input| - 1..] == [input[|input| - 1]];
    }
    if |input| >= 2 {
      assert input[|input| - 2..][0] == input[|input| - 2];
    }
    if |input| >= 3 {
      assert input[|input| - 3..][0] == input[|input| - 3];
    }
  }

  /** On a text the API reads, parseFloat reads the same number, except after a point and a sign. */
  lemma PageReading(amount: Bytes)
    requires Preview.IsAscii(amount) && FromString(TrimSpace(amount)).Some?
    ensures ParseFloat(amount) ==
            if SignBehindPoint(TrimSpace(amount)) then None else FromString(TrimSpace(amount))
  {
    hide FromString, ParseFloat, TrimSpace;
    var before, behind := TrimParts(amount);
    LibraryFloat(before, TrimSpace(amount), behind);
  }

  lemma {:induction false} AmountIsPart(data: Payment, fields: seq<Field>, end: End)
    requires Interpret(data, fields, end).Parsed?
    ensures var amount := Interpret(data, fields, end).data.amount;
            amount == data.amount || exists f :: f in fields && f.value == amount
    decreases |fields|
  {
    hide Apply;
    if fields != [] {
      Preview.ApplyOf(data, fields[0], Preview.Memo);
      AmountIsPart(Apply(data, fields[0]).value, fields[1..], end);
      assert fields[0] in fields;
    }
  }

  lemma AsciiAmount(payload: Bytes)
    requires Preview.IsAscii(payload) && Parse(payload).Parsed?
    ensures Preview.IsAscii(Parse(payload).data.amount)
  {
    hide Lex, HasChecksum, Interpret;
    AmountIsPart(NO_PAYMENT, Lex(payload).fields, Lex(payload).end);
    LexedAreParts(payload);
    var amount := Parse(payload).data.amount;
    forall i | 0 <= i < |amount| ensures amount[i] < '\U{80}' {
      assert amount[i] in payload;
      var j :| 0 <= j < |payload| && payload[j] == amount[i];
    }
  }

  /** For a code that is executed: the page shows no number exactly when the amount has a sign behind a leading
      point. Otherwise, for amounts below about 4.5 * 10^13 USDC, what it shows is off by at most half a cent and one
      part in 2^53, and is the amount transferred if and only if that is a whole number of cents. */
  lemma ShownAmount(payload: Bytes, from: Bytes, intent: Intent, page: Page) returns (micro: nat)
    requires Preview.IsAscii(payload) && TransferFromQr(payload, from) == Submit(intent)
    requires Parse(payload).Parsed? && PageShows(Parse(payload).data.amount, page)
    ensures intent.amount == Numeral(micro) && micro > 0
    ensures page == NotANumber <==> SignBehindPoint(TrimSpace(Parse(payload).data.amount))
    ensures page != NotANumber && micro < 45_035_996_273_704_960_000 ==>
              && page.Cents?
              && -5_000.0 - micro as real / POW53 <= (page.cents * 10_000 - micro) as real <= 5_000.0 + micro as real / POW53
              && (page.cents * 10_000 == micro <==> micro % 10_000 == 0)
  {
    hide Parse, ParseDecimalAmount, EqualFold, IsEvmAddress, Numeral, FromString, TrimSpace, ParseFloat, Value, Shows;
    var amount := Parse(payload).data.amount;
    micro := SubmittedAmount(Parse(payload).data, from, intent);
    AsciiAmount(payload);
    PageReading(amount);
    if page != NotANumber && micro < 45_035_996_273_704_960_000 {
      var v := Reading(amount).value;
      SmallIsExact(v, micro, page);
    } else if page == NotANumber && ParseFloat(amount).Some? {
      ShowsANumber(Reading(amount).value, page);
    }
  }

  lemma ShowsANumber(v: real, page: Page)
    requires Shows(v, page)
    ensures page != NotANumber
  {
    hide IsDouble;
  }

  /** There is always something that the page shows. */
  lemma PageShowsSomething(amount: Bytes) returns (page: Page)
    requires Preview.IsAscii(amount) && ParseDecimalAmount(amount).Amount?
    ensures PageShows(amount, page)
  {
    hide FromString, TrimSpace, ParseFloat, Value, IsDouble, ParseDecimalAmount, Numeral;
    var micro := AcceptedText(amount);
    AmountIsExact(amount, micro);
    PageReading(amount);
    var v := Reading(amount).value;
    if ParseFloat(amount).None? {
      page := NotANumber;
    } else if v >= 1_000_000_000_000_000_000_000.0 {
      page := OtherForm;
    } else {
      var x := HasDouble(v);
      page := ToFixed(x);
    }
  }

  /** An amount of 17 nines is transferred as it is, and shown as one whole USDC more. */
  lemma LargeAmountIsMisshown(page: Page)
    requires PageShows(Numeral(99_999_999_999_999_999), page)
    ensures ParseDecimalAmount(Numeral(99_999_999_999_999_999)) == Amount(Numeral(99_999_999_999_999_999_000_000))
    ensures page == Cents(10_000_000_000_000_000_000)
  {
    hide Numeral, Reading, ParseDecimalAmount, FromString, ParseFloat, Shows, TrimSpace;
    var n := 99_999_999_999_999_999;
    var text := Numeral(n);
    WholeText(n);
    AmountIsExact(text, 99_999_999_999_999_999_000_000);
    LargeIsInexact(page);
  }

  lemma WholeText(n: nat)
    ensures Reading(Numeral(n)) == Some(n as real)
    ensures ParseFloat(Numeral(n)) == Some(Decimal(n, 0))
  {
    hide Numeral, FromString, Reading, ParseFloat;
    var text := Numeral(n);
    assert String(Decimal(n, 0)) == text;
    ReadingOfString(Decimal(n, 0));
    WholeRoundTrip(n);
    LibraryFloat([], text, []);
    assert [] + (text + []) == text;
  }

  /** A sign behind the point is read by the API only. */
  lemma SignBehindPointIsMisshown(page: Page)
    requires PageShows(".+5", page)
    ensures ParseDecimalAmount(".+5") == Amount(Numeral(50_000))
    ensures page == NotANumber
  {
    hide ParseDecimalAmount, Numeral, ParseFloat, FromString, TrimSpace, Reading, Value, Shows;
    var text: Bytes := ".+5";
    ReadingSignBehindPoint(text);
    AmountIsExact(text, 50_000);
    PageReading(text);
  }

  lemma ReadingSignBehindPoint(text: Bytes)
    requires text == ".+5"
    ensures Preview.IsAscii(text) && TrimSpace(text) == text && SignBehindPoint(text)
    ensures FromString(text) == Some(Decimal(5, -2)) && Reading(text) == Some(0.05)
  {
    hide FromString, Value;
    ReadSignBehindPoint(text);
    FiveHundredths();
    assert LeadingSpace(text) == 0 && TrailingSpace(text) == 0;
  }

  lemma FiveHundredths()
    ensures Value(Decimal(5, -2)) == 0.05
  {
    assert Value(Decimal(5, -1)) == 0.5;
  }

  lemma ReadSignBehindPoint(text: Bytes)
    requires text == ".+5"
    ensures FromString(text) == Some(Decimal(5, -2))
  {
    hide ParseInteger;
    assert Before(text, {'E', 'e'}) == 3 && text[..3] == text;
    assert Before(text, {'.'}) == 0;
    assert text[1..] == "+5" && [] + text[1..] == "+5";
    PlusFive(text[1..]);
  }

  lemma PlusFive(text: Bytes)
    requires text == "+5"
    ensures ParseInteger(text) == Some(5)
  {
    assert text[1..] == ['5'] && ['5'][..0] == [];
  }
}
