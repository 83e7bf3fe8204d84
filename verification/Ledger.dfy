/** The custody ledger: a locked map of balances, the consumer that updates it and its initial snapshot. */
module Ledger {
  import opened Bytes
  import opened Numerals
  import opened Amounts
  import opened Token
  import opened Chain
  import opened Events

  type Balances = map<Address, int>

  datatype Update = Update(address: Address, amount: int)

  function Balance(l: Balances, a: Address): int {
    if a in l then l[a] else 0
  }

  function Apply(l: Balances, u: Update): Balances {
    l[u.address := Balance(l, u.address) + u.amount]
  }

  function ApplyAll(l: Balances, updates: seq<Update>): Balances {
    if updates == [] then l else Apply(ApplyAll(l, updates[..|updates| - 1]), updates[|updates| - 1])
  }

  /** What these updates add to an address. */
  function Sum(updates: seq<Update>, a: Address): int {
    if updates == [] then 0
    else
      var last := updates[|updates| - 1];
      Sum(updates[..|updates| - 1], a) + (if last.address == a then last.amount else 0)
  }

  lemma {:induction false} BalanceIsSum(l: Balances, updates: seq<Update>, a: Address)
    ensures Balance(ApplyAll(l, updates), a) == Balance(l, a) + Sum(updates, a)
  {
    if updates != [] {
      BalanceIsSum(l, updates[..|updates| - 1], a);
    }
  }

  lemma {:induction false} SumConcat(p: seq<Update>, q: seq<Update>, a: Address)
    ensures Sum(p + q, a) == Sum(p, a) + Sum(q, a)
  {
    if q == [] {
      assert p + q == p;
    } else {
      assert (p + q)[..|p + q| - 1] == p + q[..|q| - 1];
      SumConcat(p, q[..|q| - 1], a);
    }
  }

  lemma SumWithout(q: seq<Update>, k: nat, a: Address)
    requires k < |q|
    ensures Sum(q, a) == Sum(q[..k] + q[k + 1..], a) + Sum([q[k]], a)
    ensures multiset(q) == multiset(q[..k] + q[k + 1..]) + multiset{q[k]}
  {
    hide Sum;
    var before, after := q[..k], q[k + 1..];
    assert q == before + [q[k]] + after;
    SumConcat(before + [q[k]], after, a);
    SumConcat(before, [q[k]], a);
    SumConcat(before, after, a);
  }

  lemma {:induction false} SumOfPermutation(p: seq<Update>, q: seq<Update>, a: Address)
    requires multiset(p) == multiset(q)
    ensures Sum(p, a) == Sum(q, a)
    decreases |p|
  {
    hide Sum;
    if p == [] {
      assert |multiset(q)| == 0;
      assert q == [];
    } else {
      assert p[0] in multiset(p);
      assert p[0] in q;
      var k :| 0 <= k < |q| && q[k] == p[0];
      SumWithout(p, 0, a);
      SumWithout(q, k, a);
      var fewer, others := p[..0] + p[1..], q[..k] + q[k + 1..];
      assert multiset(fewer) == multiset(p) - multiset{p[0]};
      assert multiset(others) == multiset(q) - multiset{p[0]};
      SumOfPermutation(fewer, others, a);
    }
  }

  lemma {:induction false} LedgerKeys(l: Balances, updates: seq<Update>, a: Address)
    ensures a in ApplyAll(l, updates) <==> a in l || exists u :: u in updates && u.address == a
  {
    if updates != [] {
      var init, last := updates[..|updates| - 1], updates[|updates| - 1];
      LedgerKeys(l, init, a);
      assert updates == init + [last];
    }
  }

  /** In whatever order the locked updates interleave, the ledger ends the same. */
  lemma UpdatesCommute(l: Balances, p: seq<Update>, q: seq<Update>)
    requires multiset(p) == multiset(q)
    ensures ApplyAll(l, p) == ApplyAll(l, q)
  {
    hide ApplyAll, Sum;
    var m, n := ApplyAll(l, p), ApplyAll(l, q);
    forall a: Address ensures (a in m <==> a in n) && Balance(m, a) == Balance(n, a) {
      LedgerKeys(l, p, a);
      LedgerKeys(l, q, a);
      SameMembers(p, q);
      BalanceIsSum(l, p, a);
      BalanceIsSum(l, q, a);
      SumOfPermutation(p, q, a);
    }
  }

  lemma SameMembers(p: seq<Update>, q: seq<Update>)
    requires multiset(p) == multiset(q)
    ensures forall u :: u in p <==> u in q
  {
    forall u ensures u in p <==> u in q {
      assert u in p <==> u in multiset(p);
      assert u in q <==> u in multiset(q);
    }
  }

  // ---- from events to updates ----

  /** processEvent: debit a custodied sender, then credit a custodied receiver. */
  function UpdatesOf(e: BlockchainEvent, custody: set<Address>): seq<Update> {
    if e.token != USDC_ADDRESS then []
    else match ParseInteger(e.amount)
      case None => []
      case Some(v) =>
        (if e.from in custody then [Update(e.from, -v)] else []) + (if e.to in custody then [Update(e.to, v)] else [])
  }

  function AllUpdates(events: seq<BlockchainEvent>, custody: set<Address>): seq<Update> {
    if events == [] then []
    else AllUpdates(events[..|events| - 1], custody) + UpdatesOf(events[|events| - 1], custody)
  }

  /** Only custodied addresses are ever updated. */
  lemma {:induction false} OnlyCustodied(events: seq<BlockchainEvent>, custody: set<Address>)
    ensures forall u :: u in AllUpdates(events, custody) ==> u.address in custody
  {
    hide ParseInteger;
    if events != [] {
      OnlyCustodied(events[..|events| - 1], custody);
    }
  }

  lemma {:induction false} AllUpdatesConcat(p: seq<BlockchainEvent>, q: seq<BlockchainEvent>, custody: set<Address>)
    ensures AllUpdates(p + q, custody) == AllUpdates(p, custody) + AllUpdates(q, custody)
  {
    hide UpdatesOf;
    if q == [] {
      assert p + q == p;
    } else {
      assert (p + q)[..|p + q| - 1] == p + q[..|q| - 1];
      AllUpdatesConcat(p, q[..|q| - 1], custody);
    }
  }

  lemma {:induction false} ApplyAllConcat(l: Balances, p: seq<Update>, q: seq<Update>)
    ensures ApplyAll(l, p + q) == ApplyAll(ApplyAll(l, p), q)
  {
    if q == [] {
      assert p + q == p;
    } else {
      assert (p + q)[..|p + q| - 1] == p + q[..|q| - 1];
      ApplyAllConcat(l, p, q[..|q| - 1]);
    }
  }

  // ---- updates follow the balances of the chain ----

  /** From balance b, every single update leaves a at or above zero. */
  predicate Solvent(b: int, updates: seq<Update>, a: Address) {
    if updates == [] then b >= 0
    else Solvent(b, updates[..|updates| - 1], a) && b + Sum(updates, a) >= 0
  }

  lemma {:induction false} SolventConcat(b: int, p: seq<Update>, q: seq<Update>, a: Address)
    ensures Solvent(b, p + q, a) <==> Solvent(b, p, a) && Solvent(b + Sum(p, a), q, a)
  {
    hide Sum;
    if q == [] {
      assert p + q == p;
      if Solvent(b, p, a) {
        SolventNow(b, p, a);
      }
    } else {
      var init := q[..|q| - 1];
      assert (p + q)[..|p + q| - 1] == p + init;
      SolventConcat(b, p, init, a);
      SumConcat(p, q, a);
    }
  }

  lemma SolventNow(b: int, updates: seq<Update>, a: Address)
    requires Solvent(b, updates, a)
    ensures b + Sum(updates, a) >= 0
  {
  }

  predicate WordAmount(e: BlockchainEvent) {
    match ParseInteger(e.amount)
    case None => false
    case Some(v) => 0 <= v < UINT_LIMIT
  }

  lemma TwoUpdates(u: Update, v: Update, a: Address)
    ensures Sum([u], a) == if u.address == a then u.amount else 0
    ensures Sum([u, v], a) == Sum([u], a) + Sum([v], a)
    ensures forall b :: Solvent(b, [u], a) <==> b >= 0 && b + Sum([u], a) >= 0
    ensures forall b :: Solvent(b, [u, v], a) <==> Solvent(b, [u], a) && b + Sum([u, v], a) >= 0
  {
    assert [u][..0] == [] && [u, v] == [u] + [v] && [u, v][..1] == [u];
    SumConcat([u], [v], a);
  }

  /** One event: its updates add up to its move and, when the debit is covered, keep the balance solvent. */
  lemma EventUpdates(b: int, e: BlockchainEvent, custody: set<Address>, a: Address)
    requires a in custody && WordAmount(e)
    ensures Sum(UpdatesOf(e, custody), a) == Net(EventMove(e), a)
    ensures b >= 0 && Covered(b, EventMove(e), a) ==> Solvent(b, UpdatesOf(e, custody), a)
  {
    hide ParseInteger;
    var v := ParseInteger(e.amount).value;
    var debit, credit := Update(e.from, -v), Update(e.to, v);
    TwoUpdates(debit, credit, a);
    TwoUpdates(credit, credit, a);
    if e.token == USDC_ADDRESS {
      OneMove(Moved(Move(e.from, e.to, v)), b, a);
      assert EventMoves(Moved(Move(e.from, e.to, v))) == EventMove(e);
      assert [debit] + [credit] == [debit, credit];
    }
  }

  lemma {:induction false} EventListUpdates(b: int, events: seq<BlockchainEvent>, custody: set<Address>, a: Address)
    requires a in custody && forall e :: e in events ==> WordAmount(e)
    ensures Sum(AllUpdates(events, custody), a) == Net(MovesOf(events), a)
    ensures b >= 0 && Covered(b, MovesOf(events), a) ==> Solvent(b, AllUpdates(events, custody), a)
  {
    hide UpdatesOf, EventMove, Sum, Net, Covered, Solvent, WordAmount;
    if events == [] {
      NothingDone(b, a);
    } else {
      var init, last := events[..|events| - 1], events[|events| - 1];
      var before, moves := AllUpdates(init, custody), MovesOf(init);
      EventListUpdates(b, init, custody, a);
      SumConcat(before, UpdatesOf(last, custody), a);
      NetConcat(moves, EventMove(last), a);
      CoveredConcat(b, moves, EventMove(last), a);
      SolventConcat(b, before, UpdatesOf(last, custody), a);
      if b >= 0 && Covered(b, MovesOf(events), a) {
        SolventNow(b, before, a);
      }
      EventUpdates(b + Sum(before, a), last, custody, a);
    }
  }

  lemma NothingDone(b: int, a: Address)
    ensures Sum([], a) == 0 && Net([], a) == 0 && (b >= 0 ==> Solvent(b, [], a))
  {
  }

  lemma MappedAmount(log: Log, i: nat)
    ensures MapLog(log, i).Mapped? ==> WordAmount(MapLog(log, i).event)
  {
    hide EventId, Numeral, ParseInteger;
    if log.words != [] {
      ParseNumeral(log.words[0]);
    }
  }

  lemma {:induction false} MappedLogAmounts(before: Fetch, logs: seq<Log>)
    requires before.Fetched? ==> forall e :: e in before.events ==> WordAmount(e)
    ensures MapLogs(before, logs).Fetched? ==> forall e :: e in MapLogs(before, logs).events ==> WordAmount(e)
  {
    hide MapLog, WordAmount;
    if logs != [] {
      MappedLogAmounts(before, logs[..|logs| - 1]);
      MappedAmount(logs[|logs| - 1], |logs| - 1);
    }
  }

  lemma {:induction false} MappedAmounts(receipts: seq<Receipt>)
    ensures MapReceipts(receipts).Fetched? ==> forall e :: e in MapReceipts(receipts).events ==> WordAmount(e)
  {
    hide MapLogs, WordAmount;
    if receipts != [] {
      MappedAmounts(receipts[..|receipts| - 1]);
      MappedLogAmounts(MapReceipts(receipts[..|receipts| - 1]), receipts[|receipts| - 1].logs);
    }
  }

  lemma {:induction false} RelevantAreEvents(events: seq<BlockchainEvent>, custody: set<Address>)
    ensures forall e :: e in Relevant(events, custody) ==> e in events
  {
    hide Touches;
    if events != [] {
      RelevantAreEvents(events[..|events| - 1], custody);
    }
  }

  /** The updates caused by one block move each custodied balance exactly as the contract did, never below zero. */
  lemma BlockUpdates(s: State, block: Block, custody: set<Address>, a: Address)
    requires WellFormedBlock(block) && a in custody && a != ZERO
    requires FetchBlock(RunBlock(s, block).receipts, custody).Fetched?
    ensures var updates := AllUpdates(FetchBlock(RunBlock(s, block).receipts, custody).events, custody);
            && Get(RunBlock(s, block).state.balances, a) == Get(s.balances, a) + Sum(updates, a)
            && Solvent(Get(s.balances, a), updates, a)
  {
    hide RunBlock, MapReceipts, Relevant, AllUpdates, MovesOf, Net, Covered, Solvent, Sum, WordAmount, WellFormedBlock;
    var run := RunBlock(s, block);
    var all := MapReceipts(run.receipts).events;
    var kept := Relevant(all, custody);
    BlockReplay(s, block, a);
    MapBlock(s, block);
    RelevantReplay(all, custody, Get(s.balances, a), a);
    MappedAmounts(run.receipts);
    RelevantAreEvents(all, custody);
    EventListUpdates(Get(s.balances, a), kept, custody, a);
  }

  // ---- the repository ----

  class BigInt {
    var value: int

    constructor (value: int)
      ensures this.value == value
    {
      this.value := value;
    }
  }

  class InMemoryRepository {
    var balance: map<Address, BigInt>

    constructor ()
      ensures balance == map[]
    {
      balance := map[];
    }

    ghost function Contents(): Balances
      reads this, balance.Values
    {
      map a | a in balance :: balance[a].value
    }

    /** Stores a fresh number; numbers handed out before keep their value, since only the map changes. */
    method UpdateBalance(amount: int, address: Address, currency: string) returns (ok: bool)
      modifies this
      ensures ok <==> currency == "USDC"
      ensures ok ==> Contents() == Apply(old(Contents()), Update(address, amount))
      ensures ok ==> address in balance && fresh(balance[address]) && balance == old(balance)[address := balance[address]]
      ensures !ok ==> balance == old(balance)
    {
      if currency != "USDC" { return false; }
      var oldBalance := 0;
      if address in balance {
        oldBalance := balance[address].value;
      }
      var newBalance := new BigInt(oldBalance + amount);
      balance := balance[address := newBalance];
      return true;
    }

    /** Hands out the stored number itself, or a new zero for an unknown address. */
    method GetBalance(address: Address, currency: string) returns (r: BigInt?)
      ensures r == null <==> currency != "USDC"
      ensures r != null ==> r.value == Balance(Contents(), address)
      ensures r != null && address in balance ==> r == balance[address]
      ensures r != null && address !in balance ==> fresh(r)
    {
      if currency != "USDC" { return null; }
      if address !in balance {
        r := new BigInt(0);
        return;
      }
      return balance[address];
    }
  }

  class EventConsumer {
    const service: AddressRepository
    const repo: InMemoryRepository

    constructor (service: AddressRepository, repo: InMemoryRepository)
      ensures this.service == service && this.repo == repo
    {
      this.service := service;
      this.repo := repo;
    }

    method ProcessEvent(e: BlockchainEvent)
      modifies repo
      ensures repo.Contents() == ApplyAll(old(repo.Contents()), UpdatesOf(e, service.custody))
    {
      ghost var before := repo.Contents();
      if e.token != USDC_ADDRESS { return; }
      var amount := ParseInteger(e.amount);
      if amount.None? { return; }
      var custodied := service.GetCustodyAddresses([e.from, e.to]);
      var custodiedSet := set a | a in custodied;
      InMembers([e.from, e.to], service.custody, e.from);
      InMembers([e.from, e.to], service.custody, e.to);
      ApplyTwo(before, e, amount.value, service.custody);
      if e.from in custodiedSet {
        var _ := repo.UpdateBalance(-amount.value, e.from, "USDC");
      }
      if e.to in custodiedSet {
        var _ := repo.UpdateBalance(amount.value, e.to, "USDC");
      }
    }

    /** The body of the subscription: every event of one message, in order. */
    method HandleMessage(events: seq<BlockchainEvent>)
      modifies repo
      ensures repo.Contents() == ApplyAll(old(repo.Contents()), AllUpdates(events, service.custody))
    {
      ghost var before := repo.Contents();
      for i := 0 to |events|
        invariant repo.Contents() == ApplyAll(before, AllUpdates(events[..i], service.custody))
      {
        assert events[..i + 1][..i] == events[..i];
        ApplyAllConcat(before, AllUpdates(events[..i], service.custody), UpdatesOf(events[i], service.custody));
        ProcessEvent(events[i]);
      }
      assert events[..|events|] == events;
    }
  }

  lemma ApplyTwo(l: Balances, e: BlockchainEvent, v: int, custody: set<Address>)
    requires e.token == USDC_ADDRESS && ParseInteger(e.amount) == Some(v)
    ensures var debited := if e.from in custody then Apply(l, Update(e.from, -v)) else l;
            ApplyAll(l, UpdatesOf(e, custody)) == if e.to in custody then Apply(debited, Update(e.to, v)) else debited
  {
    hide Apply, ParseInteger;
    ApplyOne(l, Update(e.from, -v));
    ApplyOne(l, Update(e.to, v));
    ApplyOne(Apply(l, Update(e.from, -v)), Update(e.to, v));
    ApplyAllConcat(l, [Update(e.from, -v)], [Update(e.to, v)]);
    assert ApplyAll(l, []) == l;
  }

  lemma ApplyOne(l: Balances, u: Update)
    ensures ApplyAll(l, [u]) == Apply(l, u)
  {
    assert [u][..0] == [];
  }

  // ---- the initial snapshot ----

  /** The number in a node's balance answer; none when the call or the parse failed. */
  function Answer(text: Option<Bytes>): Option<int> {
    match text
    case None => None
    case Some(t) => ParseInteger(t)
  }

  lemma NoDuplicates(list: seq<Address>, custody: set<Address>, i: nat)
    requires multiset(list) == multiset(custody) && i < |list|
    ensures list[i] in custody && list[i] !in list[..i]
  {
    var x, before, after := list[i], list[..i], list[i + 1..];
    assert x in multiset(list);
    assert list == before + [x] + after;
    assert multiset(list)[x] == multiset(before)[x] + 1 + multiset(after)[x];
    assert x in before <==> x in multiset(before);
  }

  /** The node's answers for these addresses. */
  function SnapshotOf(addresses: seq<Address>, ask: Address -> Option<Bytes>): Balances {
    map a | a in addresses && Answer(ask(a)).Some? :: Answer(ask(a)).value
  }

  lemma SnapshotStep(addresses: seq<Address>, i: nat, ask: Address -> Option<Bytes>)
    requires i < |addresses| && addresses[i] !in addresses[..i] && Answer(ask(addresses[i])).Some?
    ensures SnapshotOf(addresses[..i + 1], ask) ==
            Apply(SnapshotOf(addresses[..i], ask), Update(addresses[i], Answer(ask(addresses[i])).value))
  {
    hide Answer;
    assert addresses[..i + 1] == addresses[..i] + [addresses[i]];
  }

  /** NewCustodyService: asks the node for every custodied balance; null stands for the fatal exit. */
  method NewCustodyLedger(service: AddressRepository, ask: Address -> Option<Bytes>)
    returns (repo: InMemoryRepository?)
    ensures repo == null <==> exists a :: a in service.custody && Answer(ask(a)).None?
    ensures repo != null ==> fresh(repo)
    ensures repo != null ==>
              repo.Contents() == map a | a in service.custody && Answer(ask(a)).Some? :: Answer(ask(a)).value
  {
    hide Answer, Apply;
    var ledger := new InMemoryRepository();
    var custodyAddresses := service.GetCustodyAddresses([]);
    SameElements(custodyAddresses, service.custody);
    for i := 0 to |custodyAddresses|
      invariant fresh(ledger)
      invariant ledger.Contents() == SnapshotOf(custodyAddresses[..i], ask)
      invariant forall j :: 0 <= j < i ==> Answer(ask(custodyAddresses[j])).Some?
    {
      hide SnapshotOf;
      var addr := custodyAddresses[i];
      NoDuplicates(custodyAddresses, service.custody, i);
      var balance := Answer(ask(addr));
      if balance.None? { return null; }
      SnapshotStep(custodyAddresses, i, ask);
      var _ := ledger.UpdateBalance(balance.value, addr, "USDC");
    }
    assert custodyAddresses[..|custodyAddresses|] == custodyAddresses;
    repo := ledger;
  }

  lemma SameElements(list: seq<Address>, custody: set<Address>)
    requires multiset(list) == multiset(custody)
    ensures forall a :: a in list <==> a in custody
  {
    forall a ensures a in list <==> a in custody {
      assert a in list <==> a in multiset(list);
    }
  }

  /** CustodyService.GetBalance: the stored number as text in whole USDC; none for another currency. */
  method GetBalanceText(repo: InMemoryRepository, address: Address, currency: string) returns (text: Option<Bytes>)
    ensures text.None? <==> currency != "USDC"
    ensures text.Some? ==> text.value == BalanceText(Balance(repo.Contents(), address))
    ensures text.Some? && Balance(repo.Contents(), address) > 0 ==>
              ParseDecimalAmount(text.value) == Amount(Numeral(Balance(repo.Contents(), address)))
  {
    hide BalanceText, ParseDecimalAmount, Numeral;
    var stored := repo.GetBalance(address, currency);
    if stored == null { return None; }
    BalanceRoundTrip(stored.value);
    return Some(BalanceText(stored.value));
  }
}
