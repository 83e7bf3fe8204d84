/** The whole pipeline as one step system: chain, indexer, lossless first-in-first-out channel, consumer
    and ledger. */
module Custody {
  import opened Bytes
  import opened Token
  import opened Chain
  import opened Events
  import opened Ledger
  import opened Indexing

  /** taken: messages the consumer has taken from the channel; pending: updates it still has to make;
      applied: every UpdateBalance call made since the snapshot. */
  datatype System = System(
    chain: seq<Block>,
    custody: set<Address>,
    snapshot: Balances,
    indexer: Progress,
    taken: nat,
    pending: seq<Update>,
    applied: seq<Update>,
    ledger: Balances)

  datatype Act =
    | Mine(block: Block)
    | TipAnswers(first: Answer, second: Answer)
    | PublishBlock(answered: bool, sends: bool)
    | SaveBlock
    | StopIndexer
    | Take
    | UpdateOne

  /** What the protocol service answers for a height. */
  function FetchAt(chain: seq<Block>, custody: set<Address>, h: nat): Fetch {
    if h < |chain| then FetchBlock(RunAt(chain, h).receipts, custody) else Failed
  }

  function Start(chain: seq<Block>, custody: set<Address>, snapshot: Balances, startingBlock: nat): System {
    System(chain, custody, snapshot, Initial(startingBlock), 0, [], [], snapshot)
  }

  /** A tip answer is the height of some existing block. */
  predicate Exists(answer: Answer, chain: seq<Block>) {
    answer.Height? ==> answer.block < |chain|
  }

  /** The indexer's part in a step, if it has one. */
  function IndexerStep(x: System, act: Act): Option<Step> {
    match act
    case TipAnswers(first, second) =>
      if Exists(first, x.chain) && Exists(second, x.chain) then Some(Tick(first, second)) else None
    case PublishBlock(answered, sends) =>
      if x.indexer.at.Scanning?
      then Some(Publish(if answered then FetchAt(x.chain, x.custody, x.indexer.at.next) else Failed, sends))
      else None
    case SaveBlock => Some(Save)
    case StopIndexer => Some(Stop)
    case _ => None
  }

  /** One step; a step that is not due changes nothing. */
  function Next(x: System, act: Act): System {
    match act
    case Mine(block) => if WellFormedBlock(block) then x.(chain := x.chain + [block]) else x
    case Take =>
      if x.pending == [] && x.taken < |x.indexer.sent|
      then x.(taken := x.taken + 1, pending := AllUpdates(x.indexer.sent[x.taken].events, x.custody))
      else x
    case UpdateOne =>
      if x.pending == [] then x
      else x.(ledger := Apply(x.ledger, x.pending[0]), applied := x.applied + [x.pending[0]], pending := x.pending[1..])
    case _ =>
      match IndexerStep(x, act)
      case None => x
      case Some(step) => x.(indexer := Indexing.Next(x.indexer, step))
  }

  function After(x: System, acts: seq<Act>): System {
    if acts == [] then x else Next(After(x, acts[..|acts| - 1]), acts[|acts| - 1])
  }

  // ---- what every step keeps ----

  /** The updates that a list of messages stands for. */
  function MessageUpdates(messages: seq<Message>, custody: set<Address>): seq<Update> {
    if messages == [] then []
    else MessageUpdates(messages[..|messages| - 1], custody) + AllUpdates(messages[|messages| - 1].events, custody)
  }

  /** Each height was handed on with the events of the block that has this height. */
  ghost predicate FromChain(messages: seq<Message>, chain: seq<Block>, custody: set<Address>) {
    forall m :: m in messages ==> m.height < |chain| && FetchAt(chain, custody, m.height) == Fetched(m.events)
  }

  ghost predicate Consistent(x: System) {
    && WellFormedChain(x.chain)
    && GapFree(x.indexer)
    && FromChain(x.indexer.handed, x.chain, x.custody)
    && (x.indexer.at.Scanning? || x.indexer.at.Saving? ==> x.indexer.at.tip < |x.chain|)
    && x.taken <= |x.indexer.sent|
    && x.applied + x.pending == MessageUpdates(x.indexer.sent[..x.taken], x.custody)
    && x.ledger == ApplyAll(x.snapshot, x.applied)
  }

  lemma StartIsConsistent(chain: seq<Block>, custody: set<Address>, snapshot: Balances, startingBlock: nat)
    requires WellFormedChain(chain)
    ensures Consistent(Start(chain, custody, snapshot, startingBlock))
  {
  }

  lemma MineKeeps(x: System, block: Block)
    requires Consistent(x) && WellFormedBlock(block)
    ensures Consistent(x.(chain := x.chain + [block]))
  {
    hide WellFormedBlock, GapFree, MessageUpdates, ApplyAll, FetchBlock, RunAt;
    var longer := x.chain + [block];
    forall m | m in x.indexer.handed
      ensures FetchAt(longer, x.custody, m.height) == Fetched(m.events)
    {
      assert longer[..m.height] == x.chain[..m.height];
      SameRun(longer, x.chain, m.height);
    }
  }

  lemma SameRun(longer: seq<Block>, chain: seq<Block>, h: nat)
    requires h < |chain| && chain <= longer
    ensures RunAt(longer, h) == RunAt(chain, h)
  {
    hide RunBlock, StateAfter;
    assert longer[..h] == chain[..h];
  }

  lemma IndexKeeps(x: System, step: Step)
    requires Consistent(x)
    requires step.Publish? && x.indexer.at.Scanning? && step.answer.Fetched? ==>
               step.answer == FetchAt(x.chain, x.custody, x.indexer.at.next)
    requires step.Tick? ==> Exists(step.first, x.chain) && Exists(step.second, x.chain)
    ensures Consistent(x.(indexer := Indexing.Next(x.indexer, step)))
  {
    hide MessageUpdates, ApplyAll, FetchAt, WellFormedChain, NonEmpty;
    GapFreeStep(x.indexer, step);
    Grows(x.indexer, step);
    var next := Indexing.Next(x.indexer, step);
    assert next.sent[..x.taken] == x.indexer.sent[..x.taken];
  }

  lemma MessageUpdatesAppend(messages: seq<Message>, m: Message, custody: set<Address>)
    ensures MessageUpdates(messages + [m], custody) == MessageUpdates(messages, custody) + AllUpdates(m.events, custody)
  {
    assert (messages + [m])[..|messages|] == messages;
  }

  lemma TakeKeeps(x: System)
    requires Consistent(x)
    ensures Consistent(Next(x, Take))
  {
    hide MessageUpdates, ApplyAll, FromChain, WellFormedChain, GapFree, AllUpdates;
    if x.pending == [] && x.taken < |x.indexer.sent| {
      var sent := x.indexer.sent;
      assert sent[..x.taken + 1] == sent[..x.taken] + [sent[x.taken]];
      assert x.applied + [] == x.applied;
      MessageUpdatesAppend(sent[..x.taken], sent[x.taken], x.custody);
    }
  }

  lemma UpdateKeeps(x: System)
    requires Consistent(x)
    ensures Consistent(Next(x, UpdateOne))
  {
    hide MessageUpdates, Apply, FromChain, WellFormedChain, GapFree;
    if x.pending != [] {
      var u := x.pending[0];
      assert (x.applied + [u]) + x.pending[1..] == x.applied + x.pending;
      assert (x.applied + [u])[..|x.applied|] == x.applied;
    }
  }

  lemma StepKeeps(x: System, act: Act)
    requires Consistent(x)
    ensures Consistent(Next(x, act))
  {
    hide Consistent, FetchAt, WellFormedBlock, AllUpdates, Apply, Exists, Indexing.Next;
    match act
    case Mine(block) => if WellFormedBlock(block) { MineKeeps(x, block); }
    case Take => TakeKeeps(x);
    case UpdateOne => UpdateKeeps(x);
    case _ => if IndexerStep(x, act).Some? { IndexKeeps(x, IndexerStep(x, act).value); }
  }

  /** Every run, however its steps interleave, stays consistent. */
  lemma {:induction false} RunsAreConsistent(x: System, acts: seq<Act>)
    requires Consistent(x)
    ensures Consistent(After(x, acts))
    ensures After(x, acts).snapshot == x.snapshot && After(x, acts).custody == x.custody
  {
    hide Consistent, FetchAt, WellFormedBlock, AllUpdates, Apply, Indexing.Next;
    if acts != [] {
      RunsAreConsistent(x, acts[..|acts| - 1]);
      StepKeeps(After(x, acts[..|acts| - 1]), acts[|acts| - 1]);
    }
  }

  // ---- the ledger and the chain ----

  /** Skipping messages without events changes no updates. */
  lemma {:induction false} EmptyMessages(messages: seq<Message>, custody: set<Address>)
    ensures MessageUpdates(NonEmpty(messages), custody) == MessageUpdates(messages, custody)
  {
    hide AllUpdates;
    if messages != [] {
      var init, last := messages[..|messages| - 1], messages[|messages| - 1];
      EmptyMessages(init, custody);
      if last.events == [] {
        NoUpdates(custody);
        assert NonEmpty(init) + [] == NonEmpty(init);
        assert MessageUpdates(init, custody) + [] == MessageUpdates(init, custody);
      } else {
        MessageUpdatesAppend(NonEmpty(init), last, custody);
      }
    }
  }

  lemma NoUpdates(custody: set<Address>)
    ensures AllUpdates([], custody) == []
  {
  }

  /** One block's updates move a custodied balance as the contract did between the two heights. */
  lemma HeightUpdates(chain: seq<Block>, custody: set<Address>, h: nat, a: Address)
    requires WellFormedChain(chain) && 1 <= h < |chain| && a in custody && a != ZERO
    requires FetchAt(chain, custody, h).Fetched?
    ensures var updates := AllUpdates(FetchAt(chain, custody, h).events, custody);
            && BalanceAt(chain, h, a) == BalanceAt(chain, h - 1, a) + Sum(updates, a)
            && Solvent(BalanceAt(chain, h - 1, a), updates, a)
  {
    hide RunBlock, FetchBlock, AllUpdates, Sum, Solvent, WellFormedBlock;
    assert chain[h] in chain;
    assert chain[..h + 1][..h] == chain[..h];
    BlockUpdates(StateAfter(chain[..h]), chain[h], custody, a);
  }

  /** The updates of k consecutive heights after base. */
  lemma {:induction false} RangeUpdates(chain: seq<Block>, custody: set<Address>, messages: seq<Message>, base: nat, a: Address)
    requires WellFormedChain(chain) && base + |messages| < |chain| && a in custody && a != ZERO
    requires forall k :: 0 <= k < |messages| ==>
               messages[k].height == base + 1 + k && FetchAt(chain, custody, base + 1 + k) == Fetched(messages[k].events)
    ensures var updates := MessageUpdates(messages, custody);
            && BalanceAt(chain, base + |messages|, a) == BalanceAt(chain, base, a) + Sum(updates, a)
            && Solvent(BalanceAt(chain, base, a), updates, a)
  {
    hide BalanceAt, FetchAt, AllUpdates, Sum, Solvent, WellFormedChain;
    var b := BalanceAt(chain, base, a);
    if messages == [] {
      NothingDone(b, a);
    } else {
      var init, last := messages[..|messages| - 1], messages[|messages| - 1];
      RangeUpdates(chain, custody, init, base, a);
      HeightUpdates(chain, custody, base + |messages|, a);
      SumConcat(MessageUpdates(init, custody), AllUpdates(last.events, custody), a);
      SolventConcat(b, MessageUpdates(init, custody), AllUpdates(last.events, custody), a);
    }
  }

  lemma {:induction false} MessageUpdatesConcat(p: seq<Message>, q: seq<Message>, custody: set<Address>)
    ensures MessageUpdates(p + q, custody) == MessageUpdates(p, custody) + MessageUpdates(q, custody)
  {
    hide AllUpdates;
    if q == [] {
      assert p + q == p;
      assert MessageUpdates(p, custody) + [] == MessageUpdates(p, custody);
    } else {
      var init, last := q[..|q| - 1], q[|q| - 1];
      assert (p + q)[..|p + q| - 1] == p + init;
      MessageUpdatesConcat(p, init, custody);
    }
  }

  /** The consumer has made every update the indexer has sent. */
  predicate Drained(x: System) {
    x.pending == [] && x.taken == |x.indexer.sent|
  }

  /** The blocks the indexer started after and has reached exist. */
  predicate Started(x: System) {
    0 <= Base(x.indexer) && Reached(x.indexer) < |x.chain|
  }

  lemma IndexedBlocksExist(x: System)
    requires Consistent(x) && x.indexer.last < |x.chain|
    ensures Started(x)
  {
    hide FetchAt, WellFormedChain, ApplyAll, MessageUpdates;
    var handed := x.indexer.handed;
    if handed != [] {
      assert handed[|handed| - 1] in handed;
    }
  }

  /** The updates behind everything handed on so far follow the chain from the base to the last height reached. */
  lemma HandedUpdates(x: System, a: Address)
    requires Consistent(x) && Started(x) && a in x.custody && a != ZERO
    ensures var updates := MessageUpdates(x.indexer.sent, x.custody);
            && BalanceAt(x.chain, Reached(x.indexer), a) == BalanceAt(x.chain, Base(x.indexer), a) + Sum(updates, a)
            && Solvent(BalanceAt(x.chain, Base(x.indexer), a), updates, a)
  {
    hide BalanceAt, FetchAt, WellFormedChain, ApplyAll, MessageUpdates, Sum, Solvent, NonEmpty;
    var handed := x.indexer.handed;
    forall k | 0 <= k < |handed|
      ensures handed[k].height == Base(x.indexer) + 1 + k
              && FetchAt(x.chain, x.custody, Base(x.indexer) + 1 + k) == Fetched(handed[k].events)
    {
      assert handed[k] in handed;
    }
    RangeUpdates(x.chain, x.custody, handed, Base(x.indexer), a);
    EmptyMessages(handed, x.custody);
  }

  /** What has been applied is a prefix of what was sent. */
  lemma AppliedPrefix(x: System) returns (rest: seq<Update>)
    requires Consistent(x)
    ensures x.applied + rest == MessageUpdates(x.indexer.sent, x.custody)
    ensures Drained(x) ==> rest == []
  {
    hide FromChain, WellFormedChain, ApplyAll, MessageUpdates, GapFree;
    var sent := x.indexer.sent;
    assert sent == sent[..x.taken] + sent[x.taken..];
    MessageUpdatesConcat(sent[..x.taken], sent[x.taken..], x.custody);
    rest := x.pending + MessageUpdates(sent[x.taken..], x.custody);
    NoMessages(x.custody);
  }

  lemma NoMessages(custody: set<Address>)
    ensures MessageUpdates([], custody) == []
  {
  }

  // ---- where a run starts ----

  /** The indexer's steps in a run. */
  function IndexerRun(x: System, acts: seq<Act>): seq<Step> {
    if acts == [] then []
    else
      var init := acts[..|acts| - 1];
      var step := IndexerStep(After(x, init), acts[|acts| - 1]);
      IndexerRun(x, init) + (if step.Some? then [step.value] else [])
  }

  lemma {:induction false} IndexerFollows(x: System, acts: seq<Act>)
    ensures After(x, acts).indexer == Indexing.After(x.indexer, IndexerRun(x, acts))
  {
    hide Indexing.Next, IndexerStep, Apply, AllUpdates, WellFormedBlock;
    if acts != [] {
      var init := acts[..|acts| - 1];
      var steps, step := IndexerRun(x, init), IndexerStep(After(x, init), acts[|acts| - 1]);
      IndexerFollows(x, init);
      OtherActs(After(x, init), acts[|acts| - 1]);
      if step.Some? {
        assert (steps + [step.value])[..|steps|] == steps;
      } else {
        assert steps + [] == steps;
      }
    }
  }

  lemma OtherActs(x: System, act: Act)
    ensures Next(x, act).indexer ==
            if IndexerStep(x, act).Some? then Indexing.Next(x.indexer, IndexerStep(x, act).value) else x.indexer
    ensures x.chain <= Next(x, act).chain
  {
    hide Indexing.Next, FetchAt, Apply, AllUpdates, WellFormedBlock;
  }

  /** The height after which a run scans: the starting block, or the tip found while that is zero. */
  function StartOf(x: System, startingBlock: nat, acts: seq<Act>): nat {
    StartHeight(startingBlock, IndexerRun(x, acts))
  }

  /** The chain only grows, and the last indexed block exists unless it is still the starting block. */
  lemma {:induction false} ChainGrows(x: System, acts: seq<Act>)
    requires Consistent(x)
    ensures var y := After(x, acts);
            && x.chain <= y.chain
            && (y.indexer.last == x.indexer.last || y.indexer.last < |y.chain|)
  {
    hide Consistent, Indexing.Next, IndexerStep, Apply, AllUpdates, WellFormedBlock;
    if acts != [] {
      var init := acts[..|acts| - 1];
      var y := After(x, init);
      ChainGrows(x, init);
      RunsAreConsistent(x, init);
      OtherActs(y, acts[|acts| - 1]);
      if IndexerStep(y, acts[|acts| - 1]).Some? {
        LastExists(y, acts[|acts| - 1]);
      }
    }
  }

  lemma LastExists(x: System, act: Act)
    requires Consistent(x) && IndexerStep(x, act).Some?
    ensures var last := Indexing.Next(x.indexer, IndexerStep(x, act).value).last;
            last == x.indexer.last || last < |x.chain|
  {
    hide FetchAt, WellFormedChain, ApplyAll, MessageUpdates, FromChain, NonEmpty;
  }

  /** Balances at a height do not change once the block is mined. */
  lemma PastIsFixed(longer: seq<Block>, chain: seq<Block>, h: nat, a: Address)
    requires h < |chain| && chain <= longer
    ensures BalanceAt(longer, h, a) == BalanceAt(chain, h, a)
  {
    hide StateAfter;
    assert longer[..h + 1] == chain[..h + 1];
  }

  /** What a run from the start keeps: the heights scanned begin behind start, exist, and the ledger holds the
      snapshot plus a prefix of their updates. */
  lemma RunFacts(chain: seq<Block>, custody: set<Address>, snapshot: Balances, startingBlock: nat, acts: seq<Act>,
                 a: Address) returns (rest: seq<Update>)
    requires WellFormedChain(chain) && a in custody && a != ZERO
    ensures var first := Start(chain, custody, snapshot, startingBlock);
            var x, start := After(first, acts), StartOf(first, startingBlock, acts);
            var reached := start + |x.indexer.handed|;
            startingBlock < |x.chain| ==>
              && reached < |x.chain|
              && x.indexer.last <= reached <= x.indexer.last + 1
              && (x.indexer.at == Waiting ==> reached == x.indexer.last)
              && (Drained(x) ==> rest == [])
              && Balance(x.ledger, a) == Balance(snapshot, a) + Sum(x.applied, a)
              && BalanceAt(x.chain, reached, a) == BalanceAt(x.chain, start, a) + Sum(x.applied + rest, a)
              && Solvent(BalanceAt(x.chain, start, a), x.applied + rest, a)
  {
    hide Next, After, WellFormedChain, BalanceAt, Sum, Solvent, MessageUpdates, FromChain, NonEmpty, ApplyAll, IndexerRun,
         StartHeight;
    var first := Start(chain, custody, snapshot, startingBlock);
    var x := After(first, acts);
    StartIsConsistent(chain, custody, snapshot, startingBlock);
    RunsAreConsistent(first, acts);
    IndexerFollows(first, acts);
    BaseIsStart(startingBlock, IndexerRun(first, acts));
    ChainGrows(first, acts);
    rest := AppliedPrefix(x);
    BalanceIsSum(snapshot, x.applied, a);
    if startingBlock < |x.chain| {
      IndexedBlocksExist(x);
      HandedUpdates(x, a);
    }
  }

  /** In every run, once the consumer has drained the channel, the ledger is off by exactly as much as the
      snapshot was at the height the run scans after: it equals the contract at the last height handed on if
      and only if the snapshot equalled the contract at that start. */
  lemma LedgerDrift(chain: seq<Block>, custody: set<Address>, snapshot: Balances, startingBlock: nat, acts: seq<Act>,
                    a: Address)
    requires WellFormedChain(chain) && a in custody && a != ZERO
    ensures var first := Start(chain, custody, snapshot, startingBlock);
            var x, start := After(first, acts), StartOf(first, startingBlock, acts);
            var reached := start + |x.indexer.handed|;
            Drained(x) && startingBlock < |x.chain| ==>
              && reached < |x.chain|
              && x.indexer.last <= reached <= x.indexer.last + 1
              && (x.indexer.at == Waiting ==> reached == x.indexer.last)
              && Balance(x.ledger, a) - BalanceAt(x.chain, reached, a)
                 == Balance(snapshot, a) - BalanceAt(x.chain, start, a)
              && (Balance(x.ledger, a) == BalanceAt(x.chain, reached, a) <==>
                  Balance(snapshot, a) == BalanceAt(x.chain, start, a))
  {
    hide Next, After, WellFormedChain, BalanceAt, Sum, Solvent, StartOf, ApplyAll;
    var first := Start(chain, custody, snapshot, startingBlock);
    var rest := RunFacts(chain, custody, snapshot, startingBlock, acts, a);
    assert After(first, acts).applied + [] == After(first, acts).applied;
  }

  /** With a starting block that is mined before the run: whenever the indexer waits and the channel is drained,
      the ledger equals the contract at the last indexed block if and only if the snapshot did at the starting
      block. */
  lemma LedgerMirrorsChain(chain: seq<Block>, custody: set<Address>, snapshot: Balances, startingBlock: nat,
                           acts: seq<Act>, a: Address)
    requires WellFormedChain(chain) && a in custody && a != ZERO
    requires 0 < startingBlock < |chain|
    ensures var x := After(Start(chain, custody, snapshot, startingBlock), acts);
            && startingBlock <= x.indexer.last < |x.chain|
            && (Drained(x) && x.indexer.at == Waiting ==>
                  (Balance(x.ledger, a) == BalanceAt(x.chain, x.indexer.last, a) <==>
                   Balance(snapshot, a) == BalanceAt(chain, startingBlock, a)))
  {
    hide Next, After, WellFormedChain, BalanceAt, Sum, Solvent, ApplyAll, IndexerRun;
    var first := Start(chain, custody, snapshot, startingBlock);
    var x := After(first, acts);
    LedgerDrift(chain, custody, snapshot, startingBlock, acts, a);
    StartIsConsistent(chain, custody, snapshot, startingBlock);
    ChainGrows(first, acts);
    IndexerFollows(first, acts);
    IndexingIsGapFree(startingBlock, IndexerRun(first, acts));
    PastIsFixed(x.chain, chain, startingBlock, a);
  }

  /** With a snapshot taken at the start, every single update of every run leaves every custodied balance at
      or above zero. */
  lemma NoNegativeLedger(chain: seq<Block>, custody: set<Address>, snapshot: Balances, startingBlock: nat,
                         acts: seq<Act>, a: Address)
    requires WellFormedChain(chain) && a in custody && a != ZERO
    ensures var first := Start(chain, custody, snapshot, startingBlock);
            var x, start := After(first, acts), StartOf(first, startingBlock, acts);
            && (startingBlock < |x.chain| ==>
                  start < |x.chain| && (Balance(snapshot, a) == BalanceAt(x.chain, start, a) ==> Balance(x.ledger, a) >= 0))
            && (0 < startingBlock < |chain| && Balance(snapshot, a) == BalanceAt(chain, startingBlock, a) ==>
                  Balance(x.ledger, a) >= 0)
  {
    hide Next, After, WellFormedChain, BalanceAt, Sum, Solvent, ApplyAll, IndexerRun;
    var first := Start(chain, custody, snapshot, startingBlock);
    var x, start := After(first, acts), StartOf(first, startingBlock, acts);
    var rest := RunFacts(chain, custody, snapshot, startingBlock, acts, a);
    if startingBlock < |x.chain| {
      SolventConcat(BalanceAt(x.chain, start, a), x.applied, rest, a);
      SolventNow(BalanceAt(x.chain, start, a), x.applied, a);
    }
    if 0 < startingBlock < |chain| {
      StartIsConsistent(chain, custody, snapshot, startingBlock);
      ChainGrows(first, acts);
      PastIsFixed(x.chain, chain, startingBlock, a);
    }
  }

  // ---- how far a run can get ----

  /** No run gets past a block with a log that cannot be mapped. */
  lemma NoRunPasses(chain: seq<Block>, custody: set<Address>, snapshot: Balances, startingBlock: nat, acts: seq<Act>,
                    h: nat)
    requires WellFormedChain(chain) && h < |chain| && !AllMappable(RunAt(chain, h).receipts)
    ensures var first := Start(chain, custody, snapshot, startingBlock);
            var x, start := After(first, acts), StartOf(first, startingBlock, acts);
            start < h ==> start + |x.indexer.handed| < h && x.indexer.last < h
  {
    hide Next, After, WellFormedChain, FetchBlock, RunAt, AllMappable, IndexerRun, StartHeight, MessageUpdates, ApplyAll,
         NonEmpty;
    var first := Start(chain, custody, snapshot, startingBlock);
    var x, start := After(first, acts), StartOf(first, startingBlock, acts);
    StartIsConsistent(chain, custody, snapshot, startingBlock);
    RunsAreConsistent(first, acts);
    IndexerFollows(first, acts);
    IndexingIsGapFree(startingBlock, IndexerRun(first, acts));
    ChainGrows(first, acts);
    if start < h <= start + |x.indexer.handed| {
      var m := x.indexer.handed[h - start - 1];
      assert m in x.indexer.handed && m.height == h;
      SameRun(x.chain, chain, h);
      FetchedExactly(RunAt(chain, h).receipts, custody);
    }
  }

  lemma AfterTwo(x: System, acts: seq<Act>, a: Act, b: Act)
    ensures After(x, acts + [a, b]) == Next(Next(After(x, acts), a), b)
  {
    hide Next;
    assert (acts + [a, b])[..|acts| + 1] == acts + [a] && (acts + [a])[..|acts|] == acts;
  }

  /** One height: published, and saved. */
  lemma OneHeight(x: System)
    requires x.indexer.at.Scanning? && x.indexer.at.next <= x.indexer.at.tip < |x.chain|
    requires AllMappable(RunAt(x.chain, x.indexer.at.next).receipts)
    ensures var y := Next(Next(x, PublishBlock(true, true)), SaveBlock);
            var h, tip := x.indexer.at.next, x.indexer.at.tip;
            && y == x.(indexer := y.indexer) && y.indexer.last == h
            && y.indexer.at == if h < tip then Scanning(h + 1, tip) else Waiting
  {
    hide FetchBlock, RunAt, AllMappable, NonEmpty;
    FetchedExactly(RunAt(x.chain, x.indexer.at.next).receipts, x.custody);
  }

  lemma {:induction false} ScanReaches(x: System, acts: seq<Act>, tip: nat) returns (longer: seq<Act>)
    requires var y := After(x, acts);
             && y.indexer.at.Scanning? && y.indexer.at.tip == tip && y.indexer.at.next <= tip < |y.chain|
             && forall h :: y.indexer.at.next <= h <= tip ==> AllMappable(RunAt(y.chain, h).receipts)
    ensures var y, z := After(x, acts), After(x, longer);
            z.indexer.last == tip && z.indexer.at == Waiting && z == y.(indexer := z.indexer)
    decreases tip - After(x, acts).indexer.at.next
  {
    hide Next, After, AllMappable, RunAt;
    var y := After(x, acts);
    AfterTwo(x, acts, PublishBlock(true, true), SaveBlock);
    OneHeight(y);
    longer := acts + [PublishBlock(true, true), SaveBlock];
    if y.indexer.at.next < tip {
      longer := ScanReaches(x, longer, tip);
    }
  }

  /** If all blocks up to a later tip can be mapped, a waiting indexer reaches that tip. */
  lemma RunReaches(x: System, tip: nat) returns (acts: seq<Act>)
    requires x.indexer.at == Waiting && 0 < x.indexer.last < tip < |x.chain|
    requires forall h :: x.indexer.last < h <= tip ==> AllMappable(RunAt(x.chain, h).receipts)
    ensures var y := After(x, acts);
            y.indexer.last == tip && y.indexer.at == Waiting && y == x.(indexer := y.indexer)
  {
    hide AllMappable, RunAt;
    acts := [TipAnswers(Height(tip), Height(tip))];
    assert acts[..0] == [] && After(x, acts) == Next(x, acts[0]);
    acts := ScanReaches(x, acts, tip);
  }

  // ---- the pipeline delivers ----

  lemma AfterOne(x: System, acts: seq<Act>, act: Act)
    ensures After(x, acts + [act]) == Next(After(x, acts), act)
  {
    hide Next;
    assert (acts + [act])[..|acts|] == acts;
  }

  lemma {:induction false} AfterConcat(x: System, p: seq<Act>, q: seq<Act>)
    ensures After(x, p + q) == After(After(x, p), q)
  {
    hide Next;
    if q == [] {
      assert p + q == p;
    } else {
      assert (p + q)[..|p + q| - 1] == p + q[..|q| - 1];
      AfterConcat(x, p, q[..|q| - 1]);
    }
  }

  /** The consumer's turn always gets it further: one update less to make, or one message less to take. */
  lemma ConsumerTurn(x: System)
    requires x.taken <= |x.indexer.sent| && !Drained(x)
    ensures var y := Next(x, if x.pending == [] then Take else UpdateOne);
            && y == x.(taken := y.taken, pending := y.pending, applied := y.applied, ledger := y.ledger)
            && (if x.pending == [] then y.taken == x.taken + 1 else y.taken == x.taken && |y.pending| == |x.pending| - 1)
  {
    hide Apply, AllUpdates;
  }

  /** From every consistent state the consumer can drain the channel, with indexer and chain at rest. */
  lemma {:induction false} Drains(x: System, acts: seq<Act>) returns (longer: seq<Act>)
    requires Consistent(x)
    ensures var y, z := After(x, acts), After(x, longer);
            Drained(z) && z == y.(taken := z.taken, pending := z.pending, applied := z.applied, ledger := z.ledger)
    decreases |After(x, acts).indexer.sent| - After(x, acts).taken, |After(x, acts).pending|
  {
    hide Next, After, WellFormedChain, FromChain, GapFree, ApplyAll, MessageUpdates;
    RunsAreConsistent(x, acts);
    var y := After(x, acts);
    longer := acts;
    if !Drained(y) {
      var turn := if y.pending == [] then Take else UpdateOne;
      ConsumerTurn(y);
      AfterOne(x, acts, turn);
      RunsAreConsistent(x, acts + [turn]);
      longer := Drains(x, acts + [turn]);
    }
  }

  /** Every well-formed longer chain can be mined. */
  lemma {:induction false} Mines(x: System, more: seq<Block>) returns (acts: seq<Act>)
    requires forall block :: block in more ==> WellFormedBlock(block)
    ensures After(x, acts) == x.(chain := x.chain + more)
  {
    hide Next, WellFormedBlock;
    if more == [] {
      acts := [];
      assert x.chain + [] == x.chain;
    } else {
      var init, last := more[..|more| - 1], more[|more| - 1];
      acts := Mines(x, init);
      AfterOne(x, acts, Mine(last));
      assert last in more;
      MineOne(After(x, acts), last);
      assert (x.chain + init) + [last] == x.chain + more;
      acts := acts + [Mine(last)];
    }
  }

  lemma MineOne(x: System, block: Block)
    requires WellFormedBlock(block)
    ensures Next(x, Mine(block)) == x.(chain := x.chain + [block])
  {
    hide WellFormedBlock;
  }

  /** The whole pipeline delivers: whatever blocks are mined after the start, if they can be mapped, some run ends
      with all of them indexed, the channel drained, and the ledger equal to the contract at the tip for every
      custodied address whose snapshot was right at the starting block. */
  lemma PipelineDelivers(chain: seq<Block>, more: seq<Block>, custody: set<Address>, snapshot: Balances,
                         startingBlock: nat) returns (acts: seq<Act>)
    requires WellFormedChain(chain) && 0 < startingBlock < |chain| && startingBlock < |chain + more| - 1
    requires forall block :: block in more ==> WellFormedBlock(block)
    requires forall h :: startingBlock < h < |chain + more| ==> AllMappable(RunAt(chain + more, h).receipts)
    ensures var x := After(Start(chain, custody, snapshot, startingBlock), acts);
            var tip := |chain + more| - 1;
            && x.chain == chain + more && x.indexer.at == Waiting && x.indexer.last == tip && Drained(x)
            && forall a :: a in custody && a != ZERO && Balance(snapshot, a) == BalanceAt(chain, startingBlock, a) ==>
                 Balance(x.ledger, a) == BalanceAt(chain + more, tip, a)
  {
    hide Next, After, WellFormedChain, WellFormedBlock, AllMappable, RunAt, BalanceAt, ApplyAll;
    var first := Start(chain, custody, snapshot, startingBlock);
    var tip := |chain + more| - 1;
    StartIsConsistent(chain, custody, snapshot, startingBlock);
    var mines := Mines(first, more);
    var mined := After(first, mines);
    var scans := RunReaches(mined, tip);
    AfterConcat(first, mines, scans);
    acts := Drains(first, mines + scans);
    var x := After(first, acts);
    forall a | a in custody && a != ZERO && Balance(snapshot, a) == BalanceAt(chain, startingBlock, a)
      ensures Balance(x.ledger, a) == BalanceAt(chain + more, tip, a)
    {
      LedgerMirrorsChain(chain, custody, snapshot, startingBlock, acts, a);
    }
  }
}
