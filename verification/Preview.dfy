/** The second parser: the dashboard script that previews a payment code before it is sent to the API.
    It runs on ASCII text, where JavaScript lengths count bytes too. */
module Preview {
  import opened Bytes
  import opened Crc
  import opened Tlv
  import opened QrCodec
  import opened QrRoundTrip
  import opened Numerals
  import opened JsNumbers

  /** Hangs: the script never ends, because negative lengths keep moving its index back. */
  datatype PreviewResult = Shown(data: Payment) | Hidden | Hangs

  predicate IsAscii(text: Bytes) {
    forall i :: 0 <= i < |text| ==> text[i] < '\U{80}'
  }

  // ---- the script's text functions ----

  /** substring(a, b): bounds outside the text are moved to its ends, and swapped when out of order. */
  function Substring(s: Bytes, a: int, b: int): Bytes {
    var from, to := Clamp(a, |s|), Clamp(b, |s|);
    if from <= to then s[from..to] else s[to..from]
  }

  function Clamp(i: int, n: nat): (k: nat)
    ensures k <= n
  {
    if i < 0 then 0 else if i > n then n else i
  }

  /** On a length of two characters parseInt reads what Sscanf reads, and besides a newline before a digit, which
      it skips. */
  lemma ParseIntAgrees(a: Byte, b: Byte)
    ensures ParseInt([a, b]) == if a == '\n' && IsDigit(b) then Some(DigitValue(b)) else ScanInt(a, b)
  {
    hide Denotes, DigitRun;
    TwoDigits(a, b);
    RunOfTwo(a, b);
    assert [a, b][1..] == [b] && [b][1..] == [];
    NothingRun();
    if IsSpace(a) {
      assert SkipSpace([a, b]) == SkipSpace([b]);
    } else {
      assert SkipSpace([a, b]) == [a, b];
      assert SkipSign([a, b]) == if IsSign(a) then [b] else [a, b];
    }
  }

  lemma NothingRun()
    ensures DigitRun([]) == []
  {
  }

  lemma RunOfTwo(a: Byte, b: Byte)
    ensures DigitRun([b]) == if IsDigit(b) then [b] else []
    ensures DigitRun([a, b]) == if !IsDigit(a) then [] else if IsDigit(b) then [a, b] else [a]
  {
    assert [a, b][1..] == [b] && [b][1..] == [];
  }

  lemma OneDigit(d: Byte)
    requires IsDigit(d)
    ensures AllDigits([d]) && Denotes([d]) == DigitValue(d)
  {
    assert [d][..0] == [];
  }

  lemma TwoDigits(a: Byte, b: Byte)
    ensures IsDigit(a) ==> AllDigits([a]) && Denotes([a]) == DigitValue(a)
    ensures IsDigit(b) ==> AllDigits([b]) && Denotes([b]) == DigitValue(b)
    ensures IsDigit(a) && IsDigit(b) ==> AllDigits([a, b]) && Denotes([a, b]) == 10 * DigitValue(a) + DigitValue(b)
  {
    if IsDigit(a) {
      OneDigit(a);
    }
    if IsDigit(b) {
      OneDigit(b);
    }
    assert [a, b][..1] == [a];
  }

  // ---- one pass of a loop ----

  /** Leave: the loop ends. Final: a field is read and the loop ends, its index being NaN. Go: a field is read
      and the loop continues at next, which a negative length can move back, even before the text. */
  datatype Turn = Leave | Final(f: Field) | Go(f: Field, next: int)

  function TurnAt(s: Bytes, i: int): Turn {
    if i + 4 > |s| then Leave
    else
      var tag := Substring(s, i, i + 2);
      match ParseInt(Substring(s, i + 2, i + 4))
      case None => Final(Field(tag, Substring(s, i + 4, 0)))
      case Some(n) =>
        if i + 4 + n > |s| then Leave else Go(Field(tag, Substring(s, i + 4, i + 4 + n)), i + 4 + n)
  }

  function Prepend(fields: seq<Field>, rest: Option<seq<Field>>): Option<seq<Field>> {
    match rest
    case None => None
    case Some(more) => Some(fields + more)
  }

  /** The fields visited from index i when the loop ends within this many turns. */
  function Walk(s: Bytes, i: int, turns: nat): Option<seq<Field>>
    decreases turns
  {
    if turns == 0 then None
    else match TurnAt(s, i)
      case Leave => Some([])
      case Final(f) => Some([f])
      case Go(f, next) => Prepend([f], Walk(s, next, turns - 1))
  }

  /** The fields visited from index i; none when the loop never ends. */
  ghost function Visit(s: Bytes, i: int): Option<seq<Field>> {
    if exists turns: nat :: Walk(s, i, turns).Some? then
      var turns: nat :| Walk(s, i, turns).Some?;
      Walk(s, i, turns)
    else None
  }

  // ---- what the fields do ----

  function ApplyTemplate(tag: Bytes, data: Payment, fields: seq<Field>): Payment {
    if tag == "26" then ApplyMerchant(data, fields) else ApplyAdditional(data, fields)
  }

  /** What one top-level field does to the preview; none when its template's loop never ends. */
  ghost function Effect(data: Payment, f: Field): Option<Payment> {
    if IsTemplate(f) then
      match Visit(f.value, 0)
      case None => None
      case Some(fields) => Some(ApplyTemplate(f.tag, data, fields))
    else Some(if f.tag == "54" then data.(amount := f.value) else data)
  }

  ghost function Effects(data: Payment, fields: seq<Field>): Option<Payment>
    decreases |fields|
  {
    if fields == [] then Some(data)
    else
      match Effect(data, fields[0])
      case None => None
      case Some(next) => Effects(next, fields[1..])
  }

  /** The script shows these details unless address or amount is missing. */
  function Outcome(data: Payment): PreviewResult {
    if data.address != [] && data.amount != [] then Shown(data) else Hidden
  }

  ghost function PreviewOf(payload: Bytes): PreviewResult {
    if |payload| < 4 then Hidden
    else if Visit(payload, 0).None? || Effects(NO_PAYMENT, Visit(payload, 0).value).None? then Hangs
    else Outcome(Effects(NO_PAYMENT, Visit(payload, 0).value).value)
  }

  // ---- the script's loops ----

  lemma {:induction false} MoreTurns(s: Bytes, i: int, turns: nat, more: nat)
    requires turns <= more && Walk(s, i, turns).Some?
    ensures Walk(s, i, more) == Walk(s, i, turns)
    decreases turns
  {
    hide TurnAt;
    if TurnAt(s, i).Go? {
      MoreTurns(s, TurnAt(s, i).next, turns - 1, more - 1);
    }
  }

  lemma VisitIs(s: Bytes, i: int, turns: nat)
    requires Walk(s, i, turns).Some?
    ensures Visit(s, i) == Walk(s, i, turns)
  {
    hide Walk;
    var other: nat :| Walk(s, i, other).Some? && Visit(s, i) == Walk(s, i, other);
    if other <= turns {
      MoreTurns(s, i, other, turns);
    } else {
      MoreTurns(s, i, turns, other);
    }
  }

  /** The inner loops of templates 26 and 62, which differ only in the sub-tags they keep. */
  method VisitTemplate(value: Bytes, tag: Bytes, start: Payment) returns (data: Payment)
    requires tag == "26" || tag == "62"
    requires Visit(value, 0).Some?
    ensures data == ApplyTemplate(tag, start, Visit(value, 0).value)
  {
    hide ParseInt, Substring, ApplyMerchant, ApplyAdditional, ApplyTemplate;
    data := start;
    var subIdx := 0;
    ghost var turns: nat :| Walk(value, 0, turns).Some?;
    VisitIs(value, 0, turns);
    hide Visit;
    while subIdx < |value|
      invariant Walk(value, subIdx, turns).Some?
      invariant ApplyTemplate(tag, start, Visit(value, 0).value)
                == ApplyTemplate(tag, data, Walk(value, subIdx, turns).value)
      decreases turns
    {
      if subIdx + 4 > |value| { break; }
      var subTag := Substring(value, subIdx, subIdx + 2);
      var subLen := ParseInt(Substring(value, subIdx + 2, subIdx + 4));
      subIdx := subIdx + 4;
      if subLen.Some? && subIdx + subLen.value > |value| { break; }
      var subVal := Substring(value, subIdx, if subLen.Some? then subIdx + subLen.value else 0);
      var f := Field(subTag, subVal);
      assert [f] + [] == [f];
      ApplyStep(tag, data, f, if subLen.None? then [] else Walk(value, subIdx + subLen.value, turns - 1).value);
      data := if tag == "26" then MerchantStep(data, f) else AdditionalStep(data, f);
      if subLen.None? {
        break; // the index is NaN
      }
      subIdx := subIdx + subLen.value;
      turns := turns - 1;
    }
    ApplyNothing(tag, data);
  }

  lemma ApplyStep(tag: Bytes, data: Payment, f: Field, fields: seq<Field>)
    ensures ApplyTemplate(tag, data, [f] + fields) ==
            ApplyTemplate(tag, if tag == "26" then MerchantStep(data, f) else AdditionalStep(data, f), fields)
  {
    hide ApplyMerchant, ApplyAdditional;
    MerchantFold(data, f, fields);
    AdditionalFold(data, f, fields);
  }

  lemma ApplyNothing(tag: Bytes, data: Payment)
    ensures ApplyTemplate(tag, data, []) == data
  {
  }

  method VisitField(data: Payment, f: Field) returns (next: Payment)
    requires Effect(data, f).Some?
    ensures Effect(data, f) == Some(next)
  {
    hide Visit, ApplyMerchant, ApplyAdditional;
    if f.tag == "26" || f.tag == "62" {
      next := VisitTemplate(f.value, f.tag, data);
    } else {
      next := if f.tag == "54" then data.(amount := f.value) else data;
    }
  }

  /** On every text on which it ends, the script's loops compute the modelled preview. */
  method PreviewTlv(payload: Bytes) returns (r: PreviewResult)
    requires IsAscii(payload) && PreviewOf(payload) != Hangs
    ensures r == PreviewOf(payload)
  {
    hide ParseInt, Substring, Effect;
    if |payload| < 4 { return Hidden; }
    var data := NO_PAYMENT;
    var i := 0;
    ghost var turns: nat :| Walk(payload, 0, turns).Some?;
    VisitIs(payload, 0, turns);
    hide Visit;
    while i < |payload|
      invariant Walk(payload, i, turns).Some?
      invariant Effects(data, Walk(payload, i, turns).value).Some?
      invariant PreviewOf(payload) == Outcome(Effects(data, Walk(payload, i, turns).value).value)
      decreases turns
    {
      hide PreviewOf;
      if i + 4 > |payload| { break; }
      var tag := Substring(payload, i, i + 2);
      var length := ParseInt(Substring(payload, i + 2, i + 4));
      i := i + 4;
      if length.Some? && i + length.value > |payload| { break; }
      var value := Substring(payload, i, if length.Some? then i + length.value else 0);
      var f := Field(tag, value);
      assert [f] + [] == [f];
      EffectsStep(data, f, if length.None? then [] else Walk(payload, i + length.value, turns - 1).value);
      data := VisitField(data, f);
      if length.None? {
        break; // the index is NaN
      }
      i := i + length.value;
      turns := turns - 1;
    }
    NoEffects(data);
    r := if data.address != [] && data.amount != [] then Shown(data) else Hidden;
  }

  lemma EffectsStep(data: Payment, f: Field, fields: seq<Field>)
    ensures Effects(data, [f] + fields) ==
            if Effect(data, f).None? then None else Effects(Effect(data, f).value, fields)
  {
    hide Effect;
    assert ([f] + fields)[1..] == fields;
  }

  lemma NoEffects(data: Payment)
    ensures Effects(data, []) == Some(data)
  {
  }

  /** It need not end: here the index comes back to the same header for ever. */
  lemma MinusCanHang()
    ensures PreviewOf("00-4") == Hangs
  {
    hide Walk, TurnAt;
    var s: Bytes := "00-4";
    StepsBack(s);
    forall turns: nat ensures Walk(s, 0, turns).None? {
      SameHeader(s, turns);
    }
  }

  lemma StepsBack(s: Bytes)
    requires s == "00-4"
    ensures TurnAt(s, 0).Go? && TurnAt(s, 0).next == 0
  {
    hide ParseInt;
    assert Substring(s, 2, 4) == ['-', '4'];
    ParseIntAgrees('-', '4');
  }

  lemma {:induction false} SameHeader(s: Bytes, turns: nat)
    requires TurnAt(s, 0).Go? && TurnAt(s, 0).next == 0
    ensures Walk(s, 0, turns).None?
  {
    hide TurnAt;
    if turns > 0 {
      SameHeader(s, turns - 1);
    }
  }

  // ---- what the script visits beyond the API's parser ----

  /** Visited in the same text after everything the API reads in it. */
  ghost function Extra(s: Bytes): Option<seq<Field>> {
    Visit(s, Span(Lex(s).fields))
  }

  /** An unreadable length that parseInt does read: a newline and a digit. */
  predicate NewlineDigit(s: Bytes, k: nat) {
    k + 4 <= |s| && s[k + 2] == '\n' && IsDigit(s[k + 3])
  }

  lemma TurnAtHeader(s: Bytes, i: nat)
    requires i <= |s|
    ensures i + 4 > |s| ==> TurnAt(s, i) == Leave
    ensures i + 4 <= |s| ==>
              var n := ScanInt(s[i + 2], s[i + 3]);
              && (n.Some? && i + 4 + n.value > |s| ==> TurnAt(s, i) == Leave)
              && (n.Some? && 0 <= n.value <= |s| - i - 4 ==>
                    TurnAt(s, i) == Go(Field(s[i..i + 2], s[i + 4..i + 4 + n.value]), i + 4 + n.value))
              && (n.None? && !NewlineDigit(s, i) ==> TurnAt(s, i) == Final(Field(s[i..i + 2], s[..i + 4])))
  {
    hide ScanInt, ParseInt;
    if i + 4 <= |s| {
      assert Substring(s, i + 2, i + 4) == [s[i + 2], s[i + 3]];
      ParseIntAgrees(s[i + 2], s[i + 3]);
      UnreadBefore(s[i + 2], s[i + 3]);
    }
  }

  lemma UnreadBefore(a: Byte, b: Byte)
    ensures a == '\n' ==> ScanInt(a, b).None?
  {
  }

  lemma {:induction false} WalkThrough(s: Bytes, i: nat, turns: nat)
    requires i <= |s|
    ensures var fields := Lex(s[i..]).fields;
            Walk(s, i, turns + |fields|) == Prepend(fields, Walk(s, i + Span(fields), turns))
    decreases |s| - i
  {
    hide ScanInt, TurnAt, Lex;
    LexAt(s, i);
    TurnAtHeader(s, i);
    var fields := Lex(s[i..]).fields;
    if fields == [] {
      PrependNothing(Walk(s, i, turns));
    } else {
      var end := i + 4 + |fields[0].value|;
      WalkThrough(s, end, turns);
      assert fields == [fields[0]] + Lex(s[end..]).fields;
      PrependTwice([fields[0]], Lex(s[end..]).fields, Walk(s, i + Span(fields), turns));
    }
  }

  lemma PrependNothing(rest: Option<seq<Field>>)
    ensures Prepend([], rest) == rest
  {
    assert rest.Some? ==> [] + rest.value == rest.value;
  }

  lemma PrependTwice(a: seq<Field>, b: seq<Field>, rest: Option<seq<Field>>)
    ensures Prepend(a, Prepend(b, rest)) == Prepend(a + b, rest)
  {
    assert rest.Some? ==> a + (b + rest.value) == (a + b) + rest.value;
  }

  /** The script visits the fields the API reads, and then the extra ones. */
  lemma VisitThrough(s: Bytes)
    ensures Visit(s, 0) == Prepend(Lex(s).fields, Extra(s))
  {
    hide Lex, Walk, Span;
    var fields := Lex(s).fields;
    assert s[0..] == s;
    if Extra(s).Some? {
      var turns: nat :| Walk(s, Span(fields), turns).Some?;
      VisitIs(s, Span(fields), turns);
      WalkThrough(s, 0, turns);
      VisitIs(s, 0, turns + |fields|);
    } else {
      forall turns: nat ensures Walk(s, 0, turns).None? {
        if Walk(s, 0, turns).Some? {
          MoreTurns(s, 0, turns, turns + |fields|);
          WalkThrough(s, 0, turns);
        }
      }
    }
  }

  /** Without a newline before a digit there is at most one extra field, at an unreadable length: its value is
      all of the text up to and including that header. */
  lemma ExtraFields(s: Bytes)
    requires Lex(s).end != OutOfRange
    requires Lex(s).end.BadLength? ==> !NewlineDigit(s, Span(Lex(s).fields))
    ensures var k := Span(Lex(s).fields);
            && (Lex(s).end.BadLength? ==> k + 4 <= |s| && Extra(s) == Some([Field(s[k..k + 2], s[..k + 4])]))
            && (!Lex(s).end.BadLength? ==> Extra(s) == Some([]))
  {
    hide Lex, Span, TurnAt, ScanInt;
    var k := Span(Lex(s).fields);
    StopsAtSpan(s);
    LexAt(s, k);
    TurnAtHeader(s, k);
    assert Walk(s, k, 1).Some?;
    VisitIs(s, k, 1);
  }

  // ---- agreement with the API parser ----

  datatype Detail = Address | Network | Currency | Memo

  function TemplateOf(x: Detail): Bytes {
    if x.Memo? then "62" else "26"
  }

  function SubTagOf(x: Detail): Bytes {
    match x
    case Address => "01"
    case Network => "02"
    case Currency => "03"
    case Memo => "05"
  }

  function Of(d: Payment, x: Detail): Bytes {
    match x
    case Address => d.address
    case Network => d.network
    case Currency => d.currency
    case Memo => d.memo
  }

  /** The value of the last field with this tag. */
  function LastOf(fields: seq<Field>, tag: Bytes): Option<Bytes> {
    if fields == [] then None
    else if LastOf(fields[1..], tag).Some? then LastOf(fields[1..], tag)
    else if fields[0].tag == tag then Some(fields[0].value) else None
  }

  lemma {:induction false} LastOfConcat(a: seq<Field>, b: seq<Field>, tag: Bytes)
    ensures LastOf(a + b, tag) == if LastOf(b, tag).Some? then LastOf(b, tag) else LastOf(a, tag)
  {
    if a == [] {
      assert a + b == b;
    } else {
      assert (a + b)[1..] == a[1..] + b;
      LastOfConcat(a[1..], b, tag);
    }
  }

  lemma {:induction false} ApplyLast(tag: Bytes, data: Payment, fields: seq<Field>, x: Detail)
    requires tag == "26" || tag == "62"
    ensures ApplyTemplate(tag, data, fields).amount == data.amount
    ensures Of(ApplyTemplate(tag, data, fields), x) ==
            if tag == TemplateOf(x) && LastOf(fields, SubTagOf(x)).Some? then LastOf(fields, SubTagOf(x)).value
            else Of(data, x)
    decreases |fields|
  {
    hide ApplyMerchant, ApplyAdditional, ApplyTemplate;
    if fields == [] {
      ApplyNothing(tag, data);
    } else {
      assert fields == [fields[0]] + fields[1..];
      ApplyStep(tag, data, fields[0], fields[1..]);
      ApplyLast(tag, if tag == "26" then MerchantStep(data, fields[0]) else AdditionalStep(data, fields[0]), fields[1..], x);
    }
  }

  /** The script gets through every template. */
  ghost predicate Ends(fields: seq<Field>) {
    forall f :: f in fields && IsTemplate(f) ==> Extra(f.value).Some?
  }

  /** Some template among these sets the detail in both parsers. */
  predicate Sets(fields: seq<Field>, x: Detail) {
    exists f :: f in fields && f.tag == TemplateOf(x) && LastOf(Lex(f.value).fields, SubTagOf(x)).Some?
  }

  /** The extra value that the script keeps for a detail: one that nothing sets again later. */
  ghost function Stray(fields: seq<Field>, x: Detail): Option<Bytes>
    requires Ends(fields)
  {
    if fields == [] then None
    else
      var f, rest := fields[0], fields[1..];
      if Stray(rest, x).Some? || Sets(rest, x) then Stray(rest, x)
      else if f.tag == TemplateOf(x) then (assert f in fields; LastOf(Extra(f.value).value, SubTagOf(x)))
      else None
  }

  lemma ApplyOf(data: Payment, f: Field, x: Detail)
    requires Apply(data, f).Some?
    ensures var last := LastOf(Lex(f.value).fields, SubTagOf(x));
            Of(Apply(data, f).value, x) == if f.tag == TemplateOf(x) && last.Some? then last.value else Of(data, x)
    ensures Apply(data, f).value.amount == if f.tag == "54" then f.value else data.amount
  {
    hide Lex, LastOf, ApplyMerchant, ApplyAdditional;
    if IsTemplate(f) {
      ApplyLast(f.tag, data, Lex(f.value).fields, x);
    }
  }

  lemma EffectOf(data: Payment, f: Field, x: Detail)
    ensures Effect(data, f).None? <==> IsTemplate(f) && Extra(f.value).None?
    ensures Effect(data, f).Some? ==>
              var next := Effect(data, f).value;
              && next.amount == (if f.tag == "54" then f.value else data.amount)
              && (f.tag != TemplateOf(x) ==> Of(next, x) == Of(data, x))
              && (f.tag == TemplateOf(x) ==>
                    var read, extra := LastOf(Lex(f.value).fields, SubTagOf(x)), LastOf(Extra(f.value).value, SubTagOf(x));
                    Of(next, x) == if extra.Some? then extra.value else if read.Some? then read.value else Of(data, x))
  {
    hide Lex, LastOf, ApplyTemplate, Extra, Visit;
    if IsTemplate(f) {
      VisitThrough(f.value);
      if Extra(f.value).Some? {
        ApplyLast(f.tag, data, Lex(f.value).fields + Extra(f.value).value, x);
        LastOfConcat(Lex(f.value).fields, Extra(f.value).value, SubTagOf(x));
      }
    }
  }

  lemma {:induction false} EffectsEnd(data: Payment, fields: seq<Field>)
    ensures Effects(data, fields).Some? <==> Ends(fields)
    decreases |fields|
  {
    hide Effect, Extra;
    if fields != [] {
      assert fields[0] in fields && fields == [fields[0]] + fields[1..];
      EffectOf(data, fields[0], Memo);
      if Effect(data, fields[0]).Some? {
        EffectsEnd(Effect(data, fields[0]).value, fields[1..]);
      }
    }
  }

  /** Both parsers over the same fields, from details that may already differ. */
  lemma {:induction false} Drift(api: Payment, script: Payment, fields: seq<Field>, x: Detail)
    requires Ends(fields) && Interpret(api, fields, Done).Parsed?
    ensures Effects(script, fields).Some?
    ensures var d, shown := Interpret(api, fields, Done).data, Effects(script, fields).value;
            && (api.amount == script.amount ==> shown.amount == d.amount)
            && (!Sets(fields, x) ==> Of(d, x) == Of(api, x))
            && Of(shown, x) == if Stray(fields, x).Some? then Stray(fields, x).value
                               else if Sets(fields, x) then Of(d, x) else Of(script, x)
    decreases |fields|
  {
    hide Apply, Effect, Extra, Lex, LastOf;
    if fields != [] {
      var f, rest := fields[0], fields[1..];
      assert f in fields && fields == [f] + rest;
      ApplyOf(api, f, x);
      EffectOf(script, f, x);
      Drift(Apply(api, f).value, Effect(script, f).value, rest, x);
    }
  }

  /** What the script shows for a detail is the API's, or no stray value differs from it. */
  ghost predicate Kept(fields: seq<Field>, d: Payment, x: Detail)
    requires Ends(fields)
  {
    Stray(fields, x).None? || Stray(fields, x).value == Of(d, x)
  }

  /** The preview tells the truth: every template ends, and unless there is no amount no stray value makes an
      address appear or changes a detail shown. */
  ghost predicate Truthful(fields: seq<Field>, d: Payment) {
    Ends(fields)
    && (d.amount == [] || (Kept(fields, d, Address) && (d.address == [] || forall x :: Kept(fields, d, x))))
  }

  lemma ScriptDetails(fields: seq<Field>, d: Payment, x: Detail)
    requires Ends(fields) && Interpret(NO_PAYMENT, fields, Done) == Parsed(d)
    ensures Effects(NO_PAYMENT, fields).Some?
    ensures var shown := Effects(NO_PAYMENT, fields).value;
            shown.amount == d.amount && (Of(shown, x) == Of(d, x) <==> Kept(fields, d, x))
  {
    hide Interpret, Effects, Stray, Sets;
    Drift(NO_PAYMENT, NO_PAYMENT, fields, x);
  }

  /** For every code the API accepts: the preview shows exactly what would be executed, and nothing when address
      or amount is missing, if and only if it is truthful. */
  lemma PreviewAgreesExactly(payload: Bytes)
    requires IsAscii(payload) && Parse(payload).Parsed?
    ensures PreviewOf(payload) == Outcome(Parse(payload).data) <==> Truthful(Lex(payload).fields, Parse(payload).data)
  {
    hide Lex, Visit, Effects, HasChecksum, Interpret, Kept;
    var fields, d := Lex(payload).fields, Parse(payload).data;
    AcceptedFields(payload);
    EffectsEnd(NO_PAYMENT, fields);
    if Ends(fields) {
      forall x ensures var shown := Effects(NO_PAYMENT, fields).value;
                       shown.amount == d.amount && (Of(shown, x) == Of(d, x) <==> Kept(fields, d, x)) {
        ScriptDetails(fields, d, x);
      }
      SamePayment(Effects(NO_PAYMENT, fields).value, d);
    }
  }

  lemma SamePayment(a: Payment, b: Payment)
    ensures a == b <==> a.amount == b.amount && forall x :: Of(a, x) == Of(b, x)
  {
    assert Of(a, Address) == a.address && Of(a, Network) == a.network && Of(a, Currency) == a.currency && Of(a, Memo) == a.memo;
  }

  /** At top level the script visits exactly the fields of an accepted code. */
  lemma AcceptedFields(payload: Bytes)
    requires Parse(payload).Parsed?
    ensures |payload| >= 4 && Visit(payload, 0) == Some(Lex(payload).fields)
    ensures Interpret(NO_PAYMENT, Lex(payload).fields, Done) == Parse(payload)
  {
    hide Lex, Visit, Checksum, EqualFold, Span, Interpret;
    var fields := Lex(payload).fields;
    AcceptedIsDone(NO_PAYMENT, fields, Lex(payload).end);
    StopsAtSpan(payload);
    LexAt(payload, Span(fields));
    ExtraFields(payload);
    VisitThrough(payload);
    assert fields + [] == fields;
  }

  lemma {:induction false} AcceptedIsDone(data: Payment, fields: seq<Field>, end: End)
    requires Interpret(data, fields, end).Parsed?
    ensures end == Done
    decreases |fields|
  {
    hide Apply;
    if fields != [] {
      AcceptedIsDone(Apply(data, fields[0]).value, fields[1..], end);
    }
  }

  // ---- readable templates ----

  /** Reading this text meets no unreadable and no negative length. */
  predicate Readable(s: Bytes) {
    Lex(s).end.Done? || Lex(s).end.Truncated?
  }

  predicate TemplatesReadable(fields: seq<Field>) {
    forall f :: f in fields && IsTemplate(f) ==> Readable(f.value)
  }

  lemma {:induction false} NothingStray(fields: seq<Field>, x: Detail)
    requires TemplatesReadable(fields)
    ensures Ends(fields) && Stray(fields, x).None?
  {
    hide Lex, Extra;
    forall f | f in fields && IsTemplate(f) ensures Extra(f.value) == Some([]) {
      ExtraFields(f.value);
    }
    if fields != [] {
      NothingStray(fields[1..], x);
    }
  }

  /** In particular the preview agrees on an accepted code with readable templates. */
  lemma PreviewAgrees(payload: Bytes)
    requires IsAscii(payload) && Parse(payload).Parsed? && TemplatesReadable(Lex(payload).fields)
    ensures PreviewOf(payload) == Outcome(Parse(payload).data)
  {
    hide Lex, Parse, PreviewOf, TemplatesReadable, Stray;
    var fields := Lex(payload).fields;
    NothingStray(fields, Address);
    forall x ensures Stray(fields, x).None? {
      NothingStray(fields, x);
    }
    PreviewAgreesExactly(payload);
  }

  // ---- codes that carry each template at most once ----

  predicate Once(fields: seq<Field>, tag: Bytes) {
    forall i, j :: 0 <= i < j < |fields| && fields[i].tag == tag ==> fields[j].tag != tag
  }

  predicate NoNewlineDigits(fields: seq<Field>) {
    forall f :: f in fields && IsTemplate(f) ==> !NewlineDigit(f.value, Span(Lex(f.value).fields))
  }

  /** Reading this text stops at an unreadable length behind this tag. */
  predicate StuckAt(s: Bytes, tag: Bytes) {
    var k := Span(Lex(s).fields);
    Lex(s).end.BadLength? && k + 4 <= |s| && s[k..k + 2] == tag
  }

  predicate Stuck(fields: seq<Field>, x: Detail) {
    exists f :: f in fields && f.tag == TemplateOf(x) && StuckAt(f.value, SubTagOf(x))
  }

  lemma ReadTemplates(api: Payment, fields: seq<Field>, f: Field)
    requires Interpret(api, fields, Done).Parsed? && f in fields && IsTemplate(f)
    ensures Lex(f.value).end != OutOfRange
  {
    hide Lex, Interpret, StopsAtMinus;
    InterpretPanics(api, fields, Done);
    OutOfRangeExactly(f.value);
  }

  /** Without that template a detail stays as it is in both parsers. */
  lemma {:induction false} Untouched(fields: seq<Field>, x: Detail)
    requires Ends(fields) && forall f :: f in fields ==> f.tag != TemplateOf(x)
    ensures Stray(fields, x).None? && !Sets(fields, x) && !Stuck(fields, x)
  {
    if fields != [] {
      Untouched(fields[1..], x);
    }
  }

  /** What the API reads in a template is shorter than the extra value, so the two differ. */
  lemma StrayIsLonger(f: Field, x: Detail)
    requires Lex(f.value).end != OutOfRange && !NewlineDigit(f.value, Span(Lex(f.value).fields))
    ensures var read, extra := LastOf(Lex(f.value).fields, SubTagOf(x)), Extra(f.value);
            && extra.Some?
            && (StuckAt(f.value, SubTagOf(x)) <==> LastOf(extra.value, SubTagOf(x)).Some?)
            && (StuckAt(f.value, SubTagOf(x)) ==>
                  |LastOf(extra.value, SubTagOf(x)).value| >= 4
                  && (read.Some? ==> |read.value| < |LastOf(extra.value, SubTagOf(x)).value|))
  {
    hide Lex, Extra, NewlineDigit;
    ExtraFields(f.value);
    LastFits(Lex(f.value).fields, SubTagOf(x));
    var k := Span(Lex(f.value).fields);
    if Lex(f.value).end.BadLength? {
      OneLast(Field(f.value[k..k + 2], f.value[..k + 4]), SubTagOf(x));
    }
  }

  lemma OneLast(f: Field, tag: Bytes)
    ensures LastOf([f], tag) == if f.tag == tag then Some(f.value) else None
  {
  }

  lemma {:induction false} LastFits(fields: seq<Field>, tag: Bytes)
    ensures LastOf(fields, tag).Some? ==> |LastOf(fields, tag).value| <= Span(fields)
  {
    if fields != [] {
      LastFits(fields[1..], tag);
    }
  }

  lemma {:induction false} KeptOnce(api: Payment, fields: seq<Field>, x: Detail)
    requires Of(api, x) == [] && Interpret(api, fields, Done).Parsed?
    requires NoNewlineDigits(fields) && Once(fields, TemplateOf(x))
    ensures Ends(fields)
    ensures Kept(fields, Interpret(api, fields, Done).data, x) <==> !Stuck(fields, x)
    decreases |fields|
  {
    hide Apply, Lex, LastOf, Extra, StuckAt, Sets, NewlineDigit;
    forall f | f in fields && IsTemplate(f) ensures Extra(f.value).Some? {
      ReadTemplates(api, fields, f);
      StrayIsLonger(f, x);
    }
    if fields != [] {
      var f, rest := fields[0], fields[1..];
      assert f in fields && fields == [f] + rest;
      ApplyOf(api, f, x);
      if f.tag == TemplateOf(x) {
        ReadTemplates(api, fields, f);
        StrayIsLonger(f, x);
        Untouched(rest, x);
        Drift(Apply(api, f).value, Apply(api, f).value, rest, x);
      } else {
        KeptOnce(Apply(api, f).value, rest, x);
        NotSet(fields, x);
      }
    }
  }

  lemma NotSet(fields: seq<Field>, x: Detail)
    requires fields != [] && Ends(fields) && fields[0].tag != TemplateOf(x)
    ensures Stray(fields, x) == Stray(fields[1..], x)
  {
    hide Lex, Extra, LastOf;
  }

  /** With each template at most once and no length of a newline and a digit in them: the preview agrees if and
      only if there is no amount, or no template stops at an unreadable length behind a sub-tag that would make an
      address appear or change a detail shown. */
  lemma PreviewAgreesOnce(payload: Bytes)
    requires IsAscii(payload) && Parse(payload).Parsed?
    requires var fields := Lex(payload).fields; Once(fields, "26") && Once(fields, "62") && NoNewlineDigits(fields)
    ensures var fields, d := Lex(payload).fields, Parse(payload).data;
            PreviewOf(payload) == Outcome(d) <==>
            d.amount == [] || (!Stuck(fields, Address) && (d.address == [] || forall x :: !Stuck(fields, x)))
  {
    hide Lex, PreviewOf, Stuck, Kept, Ends, NoNewlineDigits, Once, Interpret, HasChecksum;
    var fields := Lex(payload).fields;
    AcceptedFields(payload);
    KeptOnce(NO_PAYMENT, fields, Address);
    forall x ensures Kept(fields, Parse(payload).data, x) <==> !Stuck(fields, x) {
      KeptOnce(NO_PAYMENT, fields, x);
    }
    PreviewAgreesExactly(payload);
  }

  // ---- codes on which the two parsers differ ----

  /** The API stops at this length of the template, the script takes what is before it for the address. */
  lemma UnreadableTemplateDiffers() returns (payload: Bytes)
    ensures Parse(payload).Parsed? && Parse(payload).data.address == []
    ensures PreviewOf(payload).Shown? && PreviewOf(payload).data.address == "01xx"
  {
    var s: Bytes := "01xx";
    assert ScanInt(s[2], s[3]) == None && s[0..2] == "01" && s[..4] == "01xx";
    TurnAtHeader(s, 0);
    assert Walk(s, 0, 1) == Some([Field("01", "01xx")]);
    VisitIs(s, 0, 1);
    payload := TemplateDiffers(s, "01xx");
  }

  /** Only the script reads this length, a newline and a digit. */
  lemma NewlineDiffers() returns (payload: Bytes)
    ensures Parse(payload).Parsed? && Parse(payload).data.address == []
    ensures PreviewOf(payload).Shown? && PreviewOf(payload).data.address == "ab"
  {
    hide TurnAt, Lex, Visit, Parse, PreviewOf;
    var s: Bytes := "01\n2ab";
    NewlineTurn(s);
    NewlineUnread(s);
    assert Walk(s, 0, 2) == Some([Field("01", "ab")]) by {
      assert Walk(s, 6, 1) == Some([]);
      assert [Field("01", "ab")] + [] == [Field("01", "ab")];
    }
    VisitIs(s, 0, 2);
    payload := TemplateDiffers(s, "ab");
  }

  lemma NewlineUnread(s: Bytes)
    requires s == "01\n2ab"
    ensures Lex(s) == Scan([], BadLength(s[2..4]))
  {
    assert s[2] == '\n';
  }

  lemma NewlineTurn(s: Bytes)
    requires s == "01\n2ab"
    ensures TurnAt(s, 0) == Go(Field("01", "ab"), 6) && TurnAt(s, 6) == Leave
  {
    hide ParseInt;
    assert Substring(s, 2, 4) == ['\n', '2'];
    ParseIntAgrees('\n', '2');
    assert Substring(s, 0, 2) == "01" && Substring(s, 4, 6) == "ab";
  }

  lemma TemplateDiffers(value: Bytes, address: Bytes) returns (payload: Bytes)
    requires |value| <= 99 && address != []
    requires Lex(value).fields == [] && Lex(value).end != OutOfRange
    requires Visit(value, 0) == Some([Field("01", address)])
    ensures Parse(payload).Parsed? && Parse(payload).data.address == []
    ensures PreviewOf(payload).Shown? && PreviewOf(payload).data.address == address
  {
    hide Lex, Visit, Checksum, Interpret, Effects, Encode, EqualFold;
    var template, amount := Field("26", value), Field("54", "1");
    var text := Encode([template, amount]) + "6304";
    var tail := Field("63", Checksum(text));
    payload := Seal(text);
    WitnessFields(template, amount, text, Checksum(text));
    WitnessParsed(template, amount, tail);
    WitnessShown(template, amount, tail, address);
    SealedHasChecksum(text);
    AcceptedFields(payload);
  }

  lemma WitnessFields(template: Field, amount: Field, text: Bytes, crc: Bytes)
    requires Fits(template) && Fits(amount)
    requires text == Encode([template, amount]) + "6304" && crc == Checksum(text)
    ensures Lex(Seal(text)) == Scan([template, amount, Field("63", crc)], Done)
  {
    hide Lex, Checksum, Encode, Format, Fits;
    ChecksumLength(text);
    LexChecksum(crc);
    Assoc(Encode([template, amount]), "6304", crc);
    LexEncode([template, amount], "6304" + crc);
    assert [template, amount] + [Field("63", crc)] == [template, amount, Field("63", crc)];
  }

  lemma WitnessParsed(template: Field, amount: Field, tail: Field)
    requires template.tag == "26" && Lex(template.value).fields == [] && Lex(template.value).end != OutOfRange
    requires amount == Field("54", "1") && tail.tag == "63"
    ensures Interpret(NO_PAYMENT, [template, amount, tail], Done) == Parsed(NO_PAYMENT.(amount := "1"))
  {
    hide Interpret, Lex;
    var fields := [template, amount, tail];
    assert fields[0..] == fields;
    InterpretAt(NO_PAYMENT, fields, 0, Done);
    InterpretAt(NO_PAYMENT, fields, 1, Done);
    InterpretAt(NO_PAYMENT.(amount := "1"), fields, 2, Done);
    InterpretNothing(NO_PAYMENT.(amount := "1"), fields);
  }

  lemma WitnessShown(template: Field, amount: Field, tail: Field, address: Bytes)
    requires template.tag == "26" && Visit(template.value, 0) == Some([Field("01", address)])
    requires amount == Field("54", "1") && tail.tag == "63"
    ensures Effects(NO_PAYMENT, [template, amount, tail]) == Some(NO_PAYMENT.(address := address, amount := "1"))
  {
    hide Effects, Visit, ApplyMerchant, ApplyAdditional;
    MerchantFold(NO_PAYMENT, Field("01", address), []);
    assert [Field("01", address)] + [] == [Field("01", address)];
    ApplyNothing("26", NO_PAYMENT.(address := address));
    EffectsStep(NO_PAYMENT, template, [amount, tail]);
    assert [template] + [amount, tail] == [template, amount, tail];
    EffectsStep(NO_PAYMENT.(address := address), amount, [tail]);
    assert [amount] + [tail] == [amount, tail];
    EffectsStep(NO_PAYMENT.(address := address, amount := "1"), tail, []);
    assert [tail] + [] == [tail];
    NoEffects(NO_PAYMENT.(address := address, amount := "1"));
  }
}
