/** buildEMVCoQRContent and parseEMVCoTLV of the custody API. */
module QrCodec {
  import opened Bytes
  import opened Crc
  import opened Tlv

  /** The five details carried by a payment code: what is printed and what is parsed. */
  datatype Payment = Payment(address: Bytes, amount: Bytes, currency: Bytes, network: Bytes, memo: Bytes)

  const NO_PAYMENT := Payment([], [], [], [], [])

  datatype ParseResult =
    | Parsed(data: Payment)
    | TooShort
    | BadChecksum
    | Rejected(why: End)
    | Panicked

  // ---- building ----

  function Optional(tag: Bytes, value: Bytes): seq<Field> {
    if value == [] then [] else [Field(tag, value)]
  }

  function MerchantFields(r: Payment): seq<Field> {
    [Field("00", "org.x9.payment")]
    + Optional("01", r.address) + Optional("02", r.network) + Optional("03", r.currency)
  }

  function Merchant(r: Payment): Bytes {
    Encode(MerchantFields(r))
  }

  function Additional(r: Payment): Bytes {
    Encode([Field("05", r.memo)])
  }

  function Fields(r: Payment): seq<Field> {
    [Field("00", "01"), Field("01", "12"), Field("26", Merchant(r)), Field("52", "0000"), Field("53", "840"),
     Field("54", r.amount), Field("58", "US"), Field("59", "Custody API"), Field("60", "New York")]
    + (if r.memo == [] then [] else [Field("62", Additional(r))])
  }

  function Seal(text: Bytes): Bytes {
    text + Checksum(text)
  }

  function Build(r: Payment): Bytes {
    Seal(Encode(Fields(r)) + "6304")
  }

  /** strings.Join with an empty separator */
  function Join(parts: seq<Bytes>): Bytes {
    if parts == [] then [] else parts[0] + Join(parts[1..])
  }

  lemma {:induction false} JoinFormats(fields: seq<Field>, parts: seq<Bytes>)
    requires |parts| == |fields| && forall i :: 0 <= i < |parts| ==> parts[i] == Format(fields[i])
    ensures Join(parts) == Encode(fields)
  {
    if fields != [] {
      JoinFormats(fields[1..], parts[1..]);
    }
  }

  method BuildMerchant(r: Payment) returns (t26Value: Bytes)
    ensures t26Value == Merchant(r)
  {
    hide Format, Encode, Join;
    var t26Parts := [Format(Field("00", "org.x9.payment"))];
    if r.address != [] {
      t26Parts := t26Parts + [Format(Field("01", r.address))];
    }
    if r.network != [] {
      t26Parts := t26Parts + [Format(Field("02", r.network))];
    }
    if r.currency != [] {
      t26Parts := t26Parts + [Format(Field("03", r.currency))];
    }
    JoinFormats(MerchantFields(r), t26Parts);
    t26Value := Join(t26Parts);
  }

  method BuildEmvCoQrContent(r: Payment) returns (payload: Bytes)
    ensures payload == Build(r)
  {
    hide Format, Encode, Join, Checksum, Merchant;
    var parts := [];
    parts := parts + [Format(Field("00", "01"))];
    parts := parts + [Format(Field("01", "12"))];
    var t26Value := BuildMerchant(r);
    parts := parts + [Format(Field("26", t26Value))];
    parts := parts + [Format(Field("52", "0000"))];
    parts := parts + [Format(Field("53", "840"))];
    parts := parts + [Format(Field("54", r.amount))];
    parts := parts + [Format(Field("58", "US"))];
    parts := parts + [Format(Field("59", "Custody API"))];
    parts := parts + [Format(Field("60", "New York"))];
    if r.memo != [] {
      var t62Parts := [Format(Field("05", r.memo))];
      JoinFormats([Field("05", r.memo)], t62Parts);
      var t62Value := Join(t62Parts);
      parts := parts + [Format(Field("62", t62Value))];
    }
    JoinFormats(Fields(r), parts);
    var withoutCrc := Join(parts) + "6304";
    var crc := CalculateCrc16(withoutCrc);
    payload := withoutCrc + crc;
  }

  // ---- parsing ----

  function MerchantStep(data: Payment, f: Field): Payment {
    if f.tag == "01" then data.(address := f.value)
    else if f.tag == "02" then data.(network := f.value)
    else if f.tag == "03" then data.(currency := f.value)
    else data
  }

  function ApplyMerchant(data: Payment, fields: seq<Field>): Payment
    decreases |fields|
  {
    if fields == [] then data else ApplyMerchant(MerchantStep(data, fields[0]), fields[1..])
  }

  function AdditionalStep(data: Payment, f: Field): Payment {
    if f.tag == "05" then data.(memo := f.value) else data
  }

  function ApplyAdditional(data: Payment, fields: seq<Field>): Payment
    decreases |fields|
  {
    if fields == [] then data else ApplyAdditional(AdditionalStep(data, fields[0]), fields[1..])
  }

  /** What one top-level field does; none when a template inside it holds a negative length. */
  function Apply(data: Payment, f: Field): Option<Payment> {
    if f.tag == "26" || f.tag == "62" then
      var sub := Lex(f.value);
      if sub.end == OutOfRange then None
      else Some(if f.tag == "26" then ApplyMerchant(data, sub.fields) else ApplyAdditional(data, sub.fields))
    else Some(if f.tag == "54" then data.(amount := f.value) else data)
  }

  function Interpret(data: Payment, fields: seq<Field>, end: End): ParseResult
    decreases |fields|
  {
    if fields != [] then
      match Apply(data, fields[0])
      case None => Panicked
      case Some(next) => Interpret(next, fields[1..], end)
    else if end == Done then Parsed(data)
    else if end == OutOfRange then Panicked
    else Rejected(end)
  }

  predicate HasChecksum(payload: Bytes) {
    |payload| >= 4 && EqualFold(Checksum(payload[..|payload| - 4]), payload[|payload| - 4..])
  }

  function Parse(payload: Bytes): ParseResult {
    if |payload| < 4 then TooShort
    else if !HasChecksum(payload) then BadChecksum
    else Interpret(NO_PAYMENT, Lex(payload).fields, Lex(payload).end)
  }

  // ---- the loops ----

  lemma MerchantFold(data: Payment, f: Field, rest: seq<Field>)
    ensures ApplyMerchant(data, [f] + rest) == ApplyMerchant(MerchantStep(data, f), rest)
  {
    assert ([f] + rest)[1..] == rest;
  }

  lemma AdditionalFold(data: Payment, f: Field, rest: seq<Field>)
    ensures ApplyAdditional(data, [f] + rest) == ApplyAdditional(AdditionalStep(data, f), rest)
  {
    assert ([f] + rest)[1..] == rest;
  }

  /** Loop over the sub-fields of template 26. A negative length ends the loop like the slice panic it causes. */
  method ScanMerchant(value: Bytes, start: Payment) returns (data: Payment, panicked: bool)
    ensures panicked <==> Lex(value).end == OutOfRange
    ensures !panicked ==> data == ApplyMerchant(start, Lex(value).fields)
  {
    hide Lex, ScanInt;
    data, panicked := start, false;
    var subIdx := 0;
    assert value[0..] == value;
    while subIdx < |value|
      invariant 0 <= subIdx <= |value|
      invariant Lex(value[subIdx..]).end == Lex(value).end
      invariant ApplyMerchant(data, Lex(value[subIdx..]).fields) == ApplyMerchant(start, Lex(value).fields)
      decreases |value| - subIdx
    {
      hide ApplyMerchant;
      ghost var before := data;
      LexAt(value, subIdx);
      if subIdx + 4 > |value| { break; }
      var subTag := value[subIdx..subIdx + 2];
      var scanned := ScanInt(value[subIdx + 2], value[subIdx + 3]);
      if scanned.None? { break; }
      var subLen := scanned.value;
      subIdx := subIdx + 4;
      if subIdx + subLen > |value| { break; }
      if subLen < 0 { panicked := true; break; }
      var subVal := value[subIdx..subIdx + subLen];
      subIdx := subIdx + subLen;
      if subTag == "01" {
        data := data.(address := subVal);
      } else if subTag == "02" {
        data := data.(network := subVal);
      } else if subTag == "03" {
        data := data.(currency := subVal);
      }
      MerchantFold(before, Field(subTag, subVal), Lex(value[subIdx..]).fields);
    }
    if subIdx >= |value| {
      LexAt(value, subIdx);
    }
  }

  /** Loop over the sub-fields of template 62. */
  method ScanAdditional(value: Bytes, start: Payment) returns (data: Payment, panicked: bool)
    ensures panicked <==> Lex(value).end == OutOfRange
    ensures !panicked ==> data == ApplyAdditional(start, Lex(value).fields)
  {
    hide Lex, ScanInt;
    data, panicked := start, false;
    var subIdx := 0;
    assert value[0..] == value;
    while subIdx < |value|
      invariant 0 <= subIdx <= |value|
      invariant Lex(value[subIdx..]).end == Lex(value).end
      invariant ApplyAdditional(data, Lex(value[subIdx..]).fields) == ApplyAdditional(start, Lex(value).fields)
      decreases |value| - subIdx
    {
      hide ApplyAdditional;
      ghost var before := data;
      LexAt(value, subIdx);
      if subIdx + 4 > |value| { break; }
      var subTag := value[subIdx..subIdx + 2];
      var scanned := ScanInt(value[subIdx + 2], value[subIdx + 3]);
      if scanned.None? { break; }
      var subLen := scanned.value;
      subIdx := subIdx + 4;
      if subIdx + subLen > |value| { break; }
      if subLen < 0 { panicked := true; break; }
      var subVal := value[subIdx..subIdx + subLen];
      subIdx := subIdx + subLen;
      if subTag == "05" {
        data := data.(memo := subVal);
      }
      AdditionalFold(before, Field(subTag, subVal), Lex(value[subIdx..]).fields);
    }
    if subIdx >= |value| {
      LexAt(value, subIdx);
    }
  }

  /** The switch on the tag. */
  method ApplyField(data: Payment, f: Field) returns (next: Option<Payment>)
    ensures next == Apply(data, f)
  {
    hide Lex, ApplyMerchant, ApplyAdditional;
    var panicked := false;
    var result := data;
    if f.tag == "26" {
      result, panicked := ScanMerchant(f.value, data);
    } else if f.tag == "54" {
      result := data.(amount := f.value);
    } else if f.tag == "62" {
      result, panicked := ScanAdditional(f.value, data);
    }
    next := if panicked then None else Some(result);
  }

  method ParseEmvCoTlv(payload: Bytes) returns (r: ParseResult)
    ensures r == Parse(payload)
  {
    hide Lex, ScanInt, Apply, Checksum;
    if |payload| < 4 { return TooShort; }
    var calculated := CalculateCrc16(payload[..|payload| - 4]);
    if !EqualFold(calculated, payload[|payload| - 4..]) { return BadChecksum; }
    var data := NO_PAYMENT;
    var i := 0;
    assert payload[0..] == payload;
    while i < |payload|
      invariant 0 <= i <= |payload|
      invariant Parse(payload) == Interpret(data, Lex(payload[i..]).fields, Lex(payload[i..]).end)
      decreases |payload| - i
    {
      hide Parse;
      LexAt(payload, i);
      if i + 4 > |payload| { break; }
      var tag := payload[i..i + 2];
      var lengthStr := payload[i + 2..i + 4];
      var scanned := ScanInt(lengthStr[0], lengthStr[1]);
      if scanned.None? { return Rejected(BadLength(lengthStr)); }
      var length := scanned.value;
      i := i + 4;
      if i + length > |payload| { return Rejected(Truncated(tag)); }
      if length < 0 { return Panicked; }
      var value := payload[i..i + length];
      i := i + length;
      var next := ApplyField(data, Field(tag, value));
      if next.None? { return Panicked; }
      data := next.value;
    }
    if i >= |payload| {
      LexAt(payload, i);
    }
    return Parsed(data);
  }
}
