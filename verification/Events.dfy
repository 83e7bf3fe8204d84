/** From receipts to the events a block publishes: mapping of logs, and filtering by custodied address. */
module Events {
  import opened Bytes
  import opened Numerals
  import opened Token
  import opened Chain

  datatype BlockchainEvent =
    BlockchainEvent(id: Bytes, txHash: Uint256, token: Address, from: Address, to: Address, amount: Bytes)

  datatype Mapping = Ignored | Mapped(event: BlockchainEvent) | MapFailed | MapPanicked

  datatype Fetch = Fetched(events: seq<BlockchainEvent>) | Failed | Panicked

  // ---- idempotency ids ----

  function HexDigit(d: nat): (c: Byte)
    requires d < 16
  {
    if d < 10 then DigitChar(d) else (d - 10 + 'a' as int) as char
  }

  /** The last width hex digits of n. */
  function HexText(n: nat, width: nat): (text: Bytes)
    ensures |text| == width
  {
    if width == 0 then [] else HexText(n / 16, width - 1) + [HexDigit(n % 16)]
  }

  function EventId(hash: Uint256, logIndex: nat): Bytes {
    (("0x" + HexText(hash, 64)) + ":LogIndex:") + Numeral(logIndex)
  }

  // ---- mapping ----

  /** common.HexToAddress keeps the low 20 bytes. */
  function TopicAddress(topic: Uint256): Address {
    topic % ADDRESS_LIMIT
  }

  /** getEventMapper followed by transferMapper. */
  function MapLog(log: Log, i: nat): Mapping {
    if |log.topics| == 0 then MapPanicked
    else if log.topics[0] != TRANSFER_TOPIC then Ignored
    else if log.words == [] then MapFailed
    else if |log.topics| < 3 then MapPanicked
    else Mapped(BlockchainEvent(EventId(log.txHash, i), log.txHash, log.address,
                                TopicAddress(log.topics[1]), TopicAddress(log.topics[2]), Numeral(log.words[0])))
  }

  function Extend(before: Fetch, mapping: Mapping): Fetch {
    if !before.Fetched? then before
    else match mapping
      case Ignored => before
      case Mapped(event) => Fetched(before.events + [event])
      case MapFailed => Failed
      case MapPanicked => Panicked
  }

  function MapLogs(before: Fetch, logs: seq<Log>): Fetch {
    if logs == [] then before
    else Extend(MapLogs(before, logs[..|logs| - 1]), MapLog(logs[|logs| - 1], |logs| - 1))
  }

  function MapReceipts(receipts: seq<Receipt>): Fetch {
    if receipts == [] then Fetched([])
    else
      var before := MapReceipts(receipts[..|receipts| - 1]);
      var receipt := receipts[|receipts| - 1];
      if receipt.success then MapLogs(before, receipt.logs) else before
  }

  // ---- filtering ----

  predicate Touches(e: BlockchainEvent, custody: set<Address>) {
    e.from in custody || e.to in custody
  }

  function Relevant(events: seq<BlockchainEvent>, custody: set<Address>): seq<BlockchainEvent> {
    if events == [] then []
    else
      var init, last := Relevant(events[..|events| - 1], custody), events[|events| - 1];
      if Touches(last, custody) then init + [last] else init
  }

  function FetchBlock(receipts: seq<Receipt>, custody: set<Address>): Fetch {
    match MapReceipts(receipts)
    case Fetched(events) => Fetched(Relevant(events, custody))
    case failure => failure
  }

  /** The address service: which of the asked addresses are custodied, or all of them when none is asked. */
  class AddressRepository {
    const custody: set<Address>

    constructor (custody: set<Address>)
      ensures this.custody == custody
    {
      this.custody := custody;
    }

    method GetCustodyAddresses(addresses: seq<Address>) returns (result: seq<Address>)
      ensures addresses == [] ==> multiset(result) == multiset(custody)
      ensures addresses != [] ==> result == Members(addresses, custody)
    {
      result := [];
      if |addresses| == 0 {
        var left := custody;
        while left != {}
          invariant left <= custody && multiset(result) + multiset(left) == multiset(custody)
          decreases left
        {
          var addr :| addr in left;
          assert multiset(left) == multiset(left - {addr}) + multiset{addr};
          left := left - {addr};
          result := result + [addr];
        }
        return;
      }
      for i := 0 to |addresses|
        invariant result == Members(addresses[..i], custody)
      {
        assert addresses[..i + 1][..i] == addresses[..i];
        if addresses[i] in custody {
          result := result + [addresses[i]];
        }
      }
      assert addresses[..|addresses|] == addresses;
    }
  }

  function Members(addresses: seq<Address>, custody: set<Address>): seq<Address> {
    if addresses == [] then []
    else
      var init, last := Members(addresses[..|addresses| - 1], custody), addresses[|addresses| - 1];
      if last in custody then init + [last] else init
  }

  lemma {:induction false} InMembers(addresses: seq<Address>, custody: set<Address>, a: Address)
    ensures a in Members(addresses, custody) <==> a in addresses && a in custody
  {
    if addresses != [] {
      InMembers(addresses[..|addresses| - 1], custody, a);
      assert addresses == addresses[..|addresses| - 1] + [addresses[|addresses| - 1]];
    }
  }

  /** Builds the query in whatever order the set of addresses is walked. */
  method AddressesOf(events: seq<BlockchainEvent>) returns (list: seq<Address>)
    ensures forall e :: e in events ==> e.from in list && e.to in list
    ensures events == [] ==> list == []
  {
    var addressSet: set<Address> := {};
    for i := 0 to |events|
      invariant forall j :: 0 <= j < i ==> events[j].from in addressSet && events[j].to in addressSet
      invariant i == 0 ==> addressSet == {}
    {
      addressSet := addressSet + {events[i].from, events[i].to};
    }
    list := [];
    var left := addressSet;
    while left != {}
      invariant forall a :: a in addressSet ==> a in left || a in list
      invariant left <= addressSet && (addressSet == {} ==> list == [])
      decreases left
    {
      var a :| a in left;
      left := left - {a};
      list := list + [a];
    }
  }

  method FilterRelevantEvents(service: AddressRepository, events: seq<BlockchainEvent>)
    returns (filtered: seq<BlockchainEvent>)
    ensures filtered == Relevant(events, service.custody)
  {
    var addressList := AddressesOf(events);
    var relevant := service.GetCustodyAddresses(addressList);
    var relevantSet := set a | a in relevant;
    forall e | e in events
      ensures (e.from in relevantSet <==> e.from in service.custody) && (e.to in relevantSet <==> e.to in service.custody)
    {
      InMembers(addressList, service.custody, e.from);
      InMembers(addressList, service.custody, e.to);
    }
    filtered := [];
    for i := 0 to |events|
      invariant filtered == Relevant(events[..i], service.custody)
    {
      assert events[..i + 1][..i] == events[..i];
      assert events[i] in events;
      if events[i].from in relevantSet {
        filtered := filtered + [events[i]];
      } else if events[i].to in relevantSet {
        filtered := filtered + [events[i]];
      }
    }
    assert events[..|events|] == events;
  }

  lemma {:induction false} LogFailureSticks(before: Fetch, logs: seq<Log>, n: nat)
    requires n <= |logs| && !MapLogs(before, logs[..n]).Fetched?
    ensures MapLogs(before, logs) == MapLogs(before, logs[..n])
  {
    hide MapLog;
    if n == |logs| {
      assert logs[..n] == logs;
    } else {
      assert logs[..|logs| - 1][..n] == logs[..n];
      LogFailureSticks(before, logs[..|logs| - 1], n);
    }
  }

  lemma {:induction false} FailureSticks(receipts: seq<Receipt>, n: nat)
    requires n <= |receipts| && !MapReceipts(receipts[..n]).Fetched?
    ensures MapReceipts(receipts) == MapReceipts(receipts[..n])
  {
    hide MapLog;
    if n == |receipts| {
      assert receipts[..n] == receipts;
    } else {
      var init, last := receipts[..|receipts| - 1], receipts[|receipts| - 1];
      assert init[..n] == receipts[..n];
      FailureSticks(init, n);
      LogFailureSticks(MapReceipts(init), last.logs, 0);
    }
  }

  /** The loop over one receipt's logs. */
  method MapReceiptLogs(before: seq<BlockchainEvent>, logs: seq<Log>) returns (r: Fetch)
    ensures r == MapLogs(Fetched(before), logs)
  {
    hide MapLog;
    var events := before;
    for i := 0 to |logs|
      invariant MapLogs(Fetched(before), logs[..i]) == Fetched(events)
    {
      assert logs[..i + 1][..i] == logs[..i];
      var mapping := MapLog(logs[i], i);
      if mapping.Mapped? {
        events := events + [mapping.event];
      } else if !mapping.Ignored? {
        LogFailureSticks(Fetched(before), logs, i + 1);
        return if mapping.MapFailed? then Failed else Panicked;
      }
    }
    assert logs[..|logs|] == logs;
    return Fetched(events);
  }

  /** answer: the receipts the node returns for the block, if it does; header: whether it answers for the header,
      which is only asked for when there are no receipts. */
  method GetBlockEvents(service: AddressRepository, answer: Option<seq<Receipt>>, header: bool) returns (r: Fetch)
    ensures r == if answer.None? || (answer.value == [] && !header) then Failed
                 else FetchBlock(answer.value, service.custody)
  {
    hide MapLogs, Touches;
    if answer.None? { return Failed; }
    var receipts := answer.value;
    if |receipts| == 0 { return if header then Fetched([]) else Failed; }
    var events: seq<BlockchainEvent> := [];
    for k := 0 to |receipts|
      invariant MapReceipts(receipts[..k]) == Fetched(events)
    {
      assert receipts[..k + 1][..k] == receipts[..k];
      if receipts[k].success {
        var mapped := MapReceiptLogs(events, receipts[k].logs);
        if !mapped.Fetched? {
          FailureSticks(receipts, k + 1);
          return mapped;
        }
        events := mapped.events;
      }
    }
    assert receipts[..|receipts|] == receipts;
    events := FilterRelevantEvents(service, events);
    return Fetched(events);
  }

  // ---- which blocks can be fetched ----

  /** The mapper of a transfer log needs both addresses and a data word; every log needs a topic. */
  predicate Mappable(log: Log) {
    log.topics != [] && (log.topics[0] == TRANSFER_TOPIC ==> |log.topics| >= 3 && log.words != [])
  }

  predicate AllMappable(receipts: seq<Receipt>) {
    forall r, log :: r in receipts && r.success && log in r.logs ==> Mappable(log)
  }

  lemma {:induction false} LogsAreMapped(before: Fetch, logs: seq<Log>)
    ensures MapLogs(before, logs).Fetched? <==> before.Fetched? && forall log :: log in logs ==> Mappable(log)
  {
    hide Mappable, MapLog;
    if logs != [] {
      var init, last := logs[..|logs| - 1], logs[|logs| - 1];
      assert logs == init + [last];
      LogsAreMapped(before, init);
      OneLog(last, |logs| - 1);
    }
  }

  lemma OneLog(log: Log, i: nat)
    ensures MapLog(log, i).Mapped? || MapLog(log, i).Ignored? <==> Mappable(log)
  {
    hide EventId;
  }

  lemma {:induction false} ReceiptsAreMapped(receipts: seq<Receipt>)
    ensures MapReceipts(receipts).Fetched? <==> AllMappable(receipts)
  {
    hide Mappable, MapLogs;
    if receipts != [] {
      var init, last := receipts[..|receipts| - 1], receipts[|receipts| - 1];
      assert receipts == init + [last];
      ReceiptsAreMapped(init);
      LogsAreMapped(MapReceipts(init), last.logs);
    }
  }

  /** A block's events can be fetched if and only if every log of its successful receipts has a topic and, if that
      says Transfer, two more and a data word. */
  lemma FetchedExactly(receipts: seq<Receipt>, custody: set<Address>)
    ensures FetchBlock(receipts, custody).Fetched? <==> AllMappable(receipts)
  {
    hide AllMappable, MapReceipts, Relevant;
    ReceiptsAreMapped(receipts);
  }

  // ---- what filtering keeps ----

  /** Position in the full list of each kept event. */
  function Kept(events: seq<BlockchainEvent>, custody: set<Address>): (positions: seq<nat>)
    ensures |positions| == |Relevant(events, custody)|
  {
    if events == [] then []
    else
      var init := Kept(events[..|events| - 1], custody);
      if Touches(events[|events| - 1], custody) then init + [|events| - 1] else init
  }

  lemma {:induction false} KeptEvents(events: seq<BlockchainEvent>, custody: set<Address>)
    ensures forall i :: 0 <= i < |Kept(events, custody)| ==>
              Kept(events, custody)[i] < |events| && Relevant(events, custody)[i] == events[Kept(events, custody)[i]]
    ensures forall i, j :: 0 <= i < j < |Kept(events, custody)| ==> Kept(events, custody)[i] < Kept(events, custody)[j]
  {
    hide Touches;
    if events != [] {
      KeptEvents(events[..|events| - 1], custody);
    }
  }

  lemma {:induction false} KeptTouches(events: seq<BlockchainEvent>, custody: set<Address>, k: nat)
    requires k < |events|
    ensures k in Kept(events, custody) <==> Touches(events[k], custody)
  {
    hide Touches;
    var init := events[..|events| - 1];
    KeptEvents(init, custody);
    if k < |init| {
      KeptTouches(init, custody, k);
    }
  }

  /** Filtering keeps exactly the events that touch a custodied address, in their original order. */
  lemma {:induction false} RelevantIsExact(events: seq<BlockchainEvent>, custody: set<Address>)
    ensures var positions := Kept(events, custody);
            && (forall i, j :: 0 <= i < j < |positions| ==> positions[i] < positions[j])
            && (forall i :: 0 <= i < |positions| ==>
                  positions[i] < |events| && Relevant(events, custody)[i] == events[positions[i]])
            && (forall k: nat :: k < |events| ==> (k in positions <==> Touches(events[k], custody)))
  {
    hide Touches, Kept, Relevant;
    KeptEvents(events, custody);
    forall k: nat | k < |events| ensures k in Kept(events, custody) <==> Touches(events[k], custody) {
      KeptTouches(events, custody, k);
    }
  }

  // ---- what the events say about USDC ----

  /** The USDC movement an event reports; none for another token or an amount that is no word. */
  function EventMove(e: BlockchainEvent): seq<Move> {
    if e.token != USDC_ADDRESS then []
    else match ParseInteger(e.amount)
      case Some(v) => if 0 <= v < UINT_LIMIT then [Move(e.from, e.to, v)] else []
      case None => []
  }

  function MovesOf(events: seq<BlockchainEvent>): seq<Move> {
    if events == [] then []
    else MovesOf(events[..|events| - 1]) + EventMove(events[|events| - 1])
  }

  lemma MovesOfAppend(events: seq<BlockchainEvent>, e: BlockchainEvent)
    ensures MovesOf(events + [e]) == MovesOf(events) + EventMove(e)
  {
    assert (events + [e])[..|events|] == events;
  }

  lemma MapUsdcLog(e: Event, hash: Uint256, i: nat)
    ensures e.Approved? ==> MapLog(EventLog(e, hash), i) == Ignored
    ensures e.Moved? ==> MapLog(EventLog(e, hash), i).Mapped? && EventMove(MapLog(EventLog(e, hash), i).event) == [e.move]
  {
    hide EventId, Numeral, ParseInteger;
    if e.Moved? {
      ParseNumeral(e.move.value);
    }
  }

  /** The log of a Transfer event of any token, mapped: every field of the event. */
  lemma MapTransferLog(token: Address, from: Address, to: Address, value: Uint256, hash: Uint256, i: nat)
    ensures var mapping := MapLog(Log(token, [TRANSFER_TOPIC, from, to], [value], hash), i);
            && mapping.Mapped?
            && mapping.event.token == token && mapping.event.txHash == hash
            && mapping.event.from == from && mapping.event.to == to
            && ParseInteger(mapping.event.amount) == Some(value)
            && mapping.event.id == EventId(hash, i)
  {
    hide EventId, Numeral, ParseInteger;
    ParseNumeral(value);
  }

  /** Indexed topics are cut to their low 160 bits, and data behind the first word is ignored. */
  lemma MapWideLog(log: Log, i: nat)
    requires |log.topics| >= 3 && log.topics[0] == TRANSFER_TOPIC && log.words != []
    ensures MapLog(log, i) ==
            MapLog(Log(log.address, [TRANSFER_TOPIC, log.topics[1] % 0x1_0000000000_0000000000_0000000000_0000000000,
                                     log.topics[2] % 0x1_0000000000_0000000000_0000000000_0000000000],
                       [log.words[0]], log.txHash), i)
  {
    hide EventId, Numeral;
  }

  /** Other logs are ignored. */
  lemma OtherLogsAreIgnored(log: Log, i: nat)
    ensures MapLog(log, i) == Ignored <==> log.topics != [] && log.topics[0] != TRANSFER_TOPIC
  {
    hide EventId, Numeral;
  }

  lemma MapOneAction(before: Fetch, s: State, action: Action, hash: Uint256, i: nat)
    requires WellFormedAction(action)
    ensures var logs := RunAction(s, action, hash).logs;
            var after := if logs == [] then before else Extend(before, MapLog(logs[0], i));
            |logs| <= 1 &&
            (after.Fetched? ==> before.Fetched? && MovesOf(after.events) == MovesOf(before.events) + RunAction(s, action, hash).moves)
  {
    hide MapLog, MovesOf, EventMove, Execute;
    match action
    case Emit(address, topics, words) =>
      var mapping := MapLog(Log(address, topics, words, hash), i);
      ForeignLog(Log(address, topics, words, hash), i);
      if before.Fetched? && mapping.Mapped? {
        MovesOfAppend(before.events, mapping.event);
      }
    case UsdcCall(sender, call) =>
      if Execute(s, sender, call).Returned? {
        var e := Execute(s, sender, call).event;
        MapUsdcLog(e, hash, i);
        if before.Fetched? && e.Moved? {
          MovesOfAppend(before.events, MapLog(EventLog(e, hash), i).event);
        }
      }
  }

  lemma ForeignLog(log: Log, i: nat)
    requires log.address != USDC_ADDRESS
    ensures MapLog(log, i).Mapped? ==> EventMove(MapLog(log, i).event) == []
  {
    hide EventId;
  }

  lemma MapLogsSplit(before: Fetch, logs: seq<Log>, more: seq<Log>)
    requires |more| <= 1
    ensures MapLogs(before, logs + more) ==
            if more == [] then MapLogs(before, logs) else Extend(MapLogs(before, logs), MapLog(more[0], |logs|))
  {
    hide MapLog;
    if more == [] {
      assert logs + more == logs;
    } else {
      assert (logs + more)[..|logs|] == logs;
    }
  }

  lemma {:induction false} MapActions(before: Fetch, s: State, actions: seq<Action>, hash: Uint256)
    requires forall action :: action in actions ==> WellFormedAction(action)
    ensures var run := RunActions(s, actions, hash);
            var after := MapLogs(before, run.logs);
            after.Fetched? ==> before.Fetched? && MovesOf(after.events) == MovesOf(before.events) + run.moves
  {
    hide RunAction, MapLog, Extend, MovesOf, WellFormedAction;
    if actions != [] {
      var init := RunActions(s, actions[..|actions| - 1], hash);
      var action := actions[|actions| - 1];
      MapActions(before, s, actions[..|actions| - 1], hash);
      MapOneAction(MapLogs(before, init.logs), init.state, action, hash, |init.logs|);
      MapLogsSplit(before, init.logs, RunAction(init.state, action, hash).logs);
    }
  }

  /** The events mapped from a block's receipts report exactly the USDC moves the block made, in order. */
  lemma {:induction false} MapBlock(s: State, block: Block)
    requires WellFormedBlock(block)
    ensures var mapped := MapReceipts(RunBlock(s, block).receipts);
            mapped.Fetched? ==> MovesOf(mapped.events) == RunBlock(s, block).moves
  {
    hide RunActions, MapLogs, WellFormedAction;
    if block != [] {
      var init := RunBlock(s, block[..|block| - 1]);
      var tx := block[|block| - 1];
      MapBlock(s, block[..|block| - 1]);
      var receipts := RunBlock(s, block).receipts;
      assert receipts[..|receipts| - 1] == init.receipts;
      MapActions(MapReceipts(init.receipts), init.state, tx.actions, tx.hash);
    }
  }

  // ---- replaying the filtered list ----

  lemma RelevantStep(events: seq<BlockchainEvent>, custody: set<Address>)
    requires events != []
    ensures var init, last := events[..|events| - 1], events[|events| - 1];
            MovesOf(Relevant(events, custody)) ==
            MovesOf(Relevant(init, custody)) + (if Touches(last, custody) then EventMove(last) else [])
  {
    hide MovesOf, EventMove, Touches;
    var init, last := events[..|events| - 1], events[|events| - 1];
    if Touches(last, custody) {
      MovesOfAppend(Relevant(init, custody), last);
    }
  }

  lemma UntouchedMove(b: int, moves: seq<Move>, e: BlockchainEvent, a: Address)
    requires e.from != a && e.to != a
    ensures Net(moves + EventMove(e), a) == Net(moves, a)
    ensures Covered(b, moves + EventMove(e), a) <==> Covered(b, moves, a)
  {
    hide ParseInteger;
    NetConcat(moves, EventMove(e), a);
    CoveredConcat(b, moves, EventMove(e), a);
    if EventMove(e) != [] {
      assert EventMove(e)[..0] == [];
    }
  }

  /** For a custodied address the filtered list replays like the full one, debit by debit. */
  lemma {:induction false} RelevantReplay(events: seq<BlockchainEvent>, custody: set<Address>, b: int, a: Address)
    requires a in custody
    ensures Net(MovesOf(Relevant(events, custody)), a) == Net(MovesOf(events), a)
    ensures Covered(b, MovesOf(Relevant(events, custody)), a) <==> Covered(b, MovesOf(events), a)
  {
    hide EventMove, Net, Covered, Relevant;
    if events == [] {
      assert Relevant(events, custody) == [] by { RelevantOfNone(custody); }
    } else {
      var init, last := events[..|events| - 1], events[|events| - 1];
      var kept, all := MovesOf(Relevant(init, custody)), MovesOf(init);
      RelevantReplay(init, custody, b, a);
      RelevantStep(events, custody);
      if Touches(last, custody) {
        NetConcat(kept, EventMove(last), a);
        NetConcat(all, EventMove(last), a);
        CoveredConcat(b, kept, EventMove(last), a);
        CoveredConcat(b, all, EventMove(last), a);
      } else {
        assert kept + [] == kept;
        UntouchedMove(b, all, last, a);
      }
    }
  }

  lemma RelevantOfNone(custody: set<Address>)
    ensures Relevant([], custody) == []
  {
  }

  // ---- ids ----

  function Pow16(n: nat): nat {
    if n == 0 then 1 else 16 * Pow16(n - 1)
  }

  lemma {:induction false} HexTextIsInjective(m: nat, n: nat, width: nat)
    requires m < Pow16(width) && n < Pow16(width) && HexText(m, width) == HexText(n, width)
    ensures m == n
  {
    if width > 0 {
      var p, q := HexText(m / 16, width - 1), HexText(n / 16, width - 1);
      assert HexText(m, width)[..width - 1] == p && HexText(n, width)[..width - 1] == q;
      assert HexText(m, width)[width - 1] == HexDigit(m % 16) && HexText(n, width)[width - 1] == HexDigit(n % 16);
      HexTextIsInjective(m / 16, n / 16, width - 1);
      HexDigitIsInjective(m % 16, n % 16);
    }
  }

  lemma HexDigitIsInjective(m: nat, n: nat)
    requires m < 16 && n < 16 && HexDigit(m) == HexDigit(n)
    ensures m == n
  {
  }

  lemma EightDigits(n: nat)
    ensures Pow16(n + 8) == 0x1_0000_0000 * Pow16(n)
  {
    assert Pow16(n + 2) == 0x100 * Pow16(n);
    assert Pow16(n + 4) == 0x1_0000 * Pow16(n);
    assert Pow16(n + 6) == 0x100_0000 * Pow16(n);
  }

  lemma WordsHave64Digits()
    ensures Pow16(64) == UINT_LIMIT
  {
    EightDigits(0);
    EightDigits(8);
    EightDigits(16);
    EightDigits(24);
    EightDigits(32);
    EightDigits(40);
    EightDigits(48);
    EightDigits(56);
  }

  /** Fixed-width hash text and a decimal index: the id determines both. */
  lemma EventIdIsInjective(hash: Uint256, i: nat, other: Uint256, j: nat)
    requires EventId(hash, i) == EventId(other, j)
    ensures hash == other && i == j
  {
    hide HexText, Numeral, Pow16;
    var s, t := EventId(hash, i), EventId(other, j);
    assert s[2..66] == HexText(hash, 64) && t[2..66] == HexText(other, 64);
    assert s[76..] == Numeral(i) && t[76..] == Numeral(j);
    WordsHave64Digits();
    HexTextIsInjective(hash, other, 64);
    NumeralIsInjective(i, j);
  }

  /** The value of a lower-case hexadecimal digit. */
  function HexDigitValue(c: Byte): nat {
    if IsDigit(c) then DigitValue(c) else if 'a' <= c <= 'f' then (c as int) - ('a' as int) + 10 else 0
  }

  function HexDenoted(text: Bytes): nat {
    if text == [] then 0 else 16 * HexDenoted(text[..|text| - 1]) + HexDigitValue(text[|text| - 1])
  }

  lemma {:induction false} HexTextDenotes(n: nat, width: nat)
    requires n < Pow16(width)
    ensures HexDenoted(HexText(n, width)) == n
  {
    if width > 0 {
      var init := HexText(n / 16, width - 1);
      assert HexText(n, width)[..width - 1] == init && HexText(n, width)[width - 1] == HexDigit(n % 16);
      HexTextDenotes(n / 16, width - 1);
    }
  }

  /** The id reads: 0x, the hash in 64 hexadecimal digits, :LogIndex:, and the index in decimal. */
  lemma EventIdDenotes(hash: Uint256, i: nat)
    ensures var id := EventId(hash, i);
            && |id| > 76
            && id[..2] == "0x" && HexDenoted(id[2..66]) == hash
            && id[66..76] == ":LogIndex:" && ParseInteger(id[76..]) == Some(i)
  {
    hide HexText, Numeral, Pow16, HexDenoted, ParseInteger;
    var id := EventId(hash, i);
    WordsHave64Digits();
    HexTextDenotes(hash, 64);
    ParseNumeral(i);
    assert id[2..66] == HexText(hash, 64);
    assert id[76..] == Numeral(i);
  }

  predicate DistinctHashes(chain: seq<Block>) {
    forall g, t, h, u | 0 <= g < |chain| && 0 <= t < |chain[g]| && 0 <= h < |chain| && 0 <= u < |chain[h]| ::
      chain[g][t].hash == chain[h][u].hash ==> g == h && t == u
  }

  lemma {:induction false} ActionLogHashes(s: State, actions: seq<Action>, hash: Uint256)
    ensures forall log :: log in RunActions(s, actions, hash).logs ==> log.txHash == hash
  {
    hide Execute;
    if actions != [] {
      ActionLogHashes(s, actions[..|actions| - 1], hash);
    }
  }

  lemma {:induction false} BlockLogHashes(s: State, block: Block)
    ensures |RunBlock(s, block).receipts| == |block|
    ensures forall t, log :: 0 <= t < |block| && log in RunBlock(s, block).receipts[t].logs ==> log.txHash == block[t].hash
  {
    hide RunActions;
    if block != [] {
      var init := RunBlock(s, block[..|block| - 1]);
      var tx := block[|block| - 1];
      BlockLogHashes(s, block[..|block| - 1]);
      ActionLogHashes(init.state, tx.actions, tx.hash);
    }
  }

  /** No two events of a chain with distinct transaction hashes share an idempotency id. */
  lemma IdsAreDistinct(chain: seq<Block>, g: nat, t: nat, i: nat, h: nat, u: nat, j: nat)
    requires DistinctHashes(chain) && g < |chain| && h < |chain|
    requires t < |RunAt(chain, g).receipts| && i < |RunAt(chain, g).receipts[t].logs|
    requires u < |RunAt(chain, h).receipts| && j < |RunAt(chain, h).receipts[u].logs|
    requires (g, t, i) != (h, u, j)
    ensures var m, n := MapLog(RunAt(chain, g).receipts[t].logs[i], i), MapLog(RunAt(chain, h).receipts[u].logs[j], j);
            m.Mapped? && n.Mapped? ==> m.event.id != n.event.id
  {
    hide RunBlock, EventId, StateAfter;
    BlockLogHashes(StateAfter(chain[..g]), chain[g]);
    BlockLogHashes(StateAfter(chain[..h]), chain[h]);
    var p, q := RunAt(chain, g).receipts[t].logs[i], RunAt(chain, h).receipts[u].logs[j];
    if EventId(p.txHash, i) == EventId(q.txHash, j) {
      EventIdIsInjective(p.txHash, i, q.txHash, j);
    }
  }
}
