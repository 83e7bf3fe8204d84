/** An append-only chain whose blocks run calls of the USDC contract among other contracts' logs. */
module Chain {
  import opened Token

  const USDC_ADDRESS: Address := 0x5FbDB2315678afecb367f032d93F642f64180aa3

  /** Keccak-256 of the two event signatures. */
  const TRANSFER_TOPIC: Uint256 := 0xddf252ad1be2c89b69c2b068fc378daa952ba7f163c4a11628f55a4df523b3ef
  const APPROVAL_TOPIC: Uint256 := 0x8c5be1e5ebec7d5bd14f71427d1e84f3dd0314c0f7b2291e5b200ac8c7c3b925

  /** words: the whole 32-byte words of the log data. */
  datatype Log = Log(address: Address, topics: seq<Uint256>, words: seq<Uint256>, txHash: Uint256)

  datatype Receipt = Receipt(success: bool, logs: seq<Log>)

  datatype Action =
    | UsdcCall(sender: Address, call: Call)
    | Emit(address: Address, topics: seq<Uint256>, words: seq<Uint256>)

  /** A transaction that fails reverts everything it did and leaves no logs. */
  datatype Tx = Tx(hash: Uint256, actions: seq<Action>, fails: bool)

  type Block = seq<Tx>

  datatype Run = Run(state: State, logs: seq<Log>, moves: seq<Move>)

  datatype BlockRun = BlockRun(state: State, receipts: seq<Receipt>, moves: seq<Move>)

  function EventLog(e: Event, hash: Uint256): Log {
    match e
    case Moved(m) => Log(USDC_ADDRESS, [TRANSFER_TOPIC, m.from, m.to], [m.value], hash)
    case Approved(owner, spender, value) => Log(USDC_ADDRESS, [APPROVAL_TOPIC, owner, spender], [value], hash)
  }

  function EventMoves(e: Event): seq<Move> {
    if e.Moved? then [e.move] else []
  }

  /** A reverted inner call whose caller goes on leaves state and logs alone. */
  function RunAction(s: State, action: Action, hash: Uint256): Run {
    match action
    case Emit(address, topics, words) => Run(s, [Log(address, topics, words, hash)], [])
    case UsdcCall(sender, call) =>
      match Execute(s, sender, call)
      case Reverted => Run(s, [], [])
      case Returned(t, e) => Run(t, [EventLog(e, hash)], EventMoves(e))
  }

  function RunActions(s: State, actions: seq<Action>, hash: Uint256): Run {
    if actions == [] then Run(s, [], [])
    else
      var init := RunActions(s, actions[..|actions| - 1], hash);
      var last := RunAction(init.state, actions[|actions| - 1], hash);
      Run(last.state, init.logs + last.logs, init.moves + last.moves)
  }

  function RunTx(s: State, tx: Tx): Run {
    if tx.fails then Run(s, [], []) else RunActions(s, tx.actions, tx.hash)
  }

  function RunBlock(s: State, block: Block): BlockRun {
    if block == [] then BlockRun(s, [], [])
    else
      var init := RunBlock(s, block[..|block| - 1]);
      var tx := block[|block| - 1];
      var run := RunTx(init.state, tx);
      BlockRun(run.state, init.receipts + [Receipt(!tx.fails, run.logs)], init.moves + run.moves)
  }

  function StateAfter(chain: seq<Block>): State {
    if chain == [] then EMPTY else RunBlock(StateAfter(chain[..|chain| - 1]), chain[|chain| - 1]).state
  }

  /** What block h did, given the chain before it. */
  function RunAt(chain: seq<Block>, h: nat): BlockRun
    requires h < |chain|
  {
    RunBlock(StateAfter(chain[..h]), chain[h])
  }

  /** balanceOf[a] after block h. */
  function BalanceAt(chain: seq<Block>, h: nat, a: Address): nat
    requires h < |chain|
  {
    Get(StateAfter(chain[..h + 1]).balances, a)
  }

  // ---- a block is the run of its calls ----

  /** The contract calls of some actions, in order. */
  function CallsOf(actions: seq<Action>): seq<(Address, Call)> {
    if actions == [] then []
    else
      var last := actions[|actions| - 1];
      CallsOf(actions[..|actions| - 1]) + (if last.UsdcCall? then [(last.sender, last.call)] else [])
  }

  /** The contract calls of a block's transactions that do not fail. */
  function BlockCalls(block: Block): seq<(Address, Call)> {
    if block == [] then []
    else
      var last := block[|block| - 1];
      BlockCalls(block[..|block| - 1]) + (if last.fails then [] else CallsOf(last.actions))
  }

  function ChainCalls(chain: seq<Block>): seq<(Address, Call)> {
    if chain == [] then [] else ChainCalls(chain[..|chain| - 1]) + BlockCalls(chain[|chain| - 1])
  }

  /** The transfers that calls made one after the other emit. */
  function EmittedMoves(s: State, calls: seq<(Address, Call)>): seq<Move> {
    if calls == [] then []
    else
      var init, last := calls[..|calls| - 1], calls[|calls| - 1];
      var outcome := Execute(AfterCalls(s, init), last.0, last.1);
      EmittedMoves(s, init) + (if outcome.Returned? && outcome.event.Moved? then [outcome.event.move] else [])
  }

  lemma {:induction false} CallsConcat(s: State, p: seq<(Address, Call)>, q: seq<(Address, Call)>)
    ensures AfterCalls(s, p + q) == AfterCalls(AfterCalls(s, p), q)
    ensures EmittedMoves(s, p + q) == EmittedMoves(s, p) + EmittedMoves(AfterCalls(s, p), q)
  {
    hide Execute;
    if q == [] {
      assert p + q == p;
      assert EmittedMoves(s, p) + [] == EmittedMoves(s, p);
    } else {
      var init := q[..|q| - 1];
      assert (p + q)[..|p + q| - 1] == p + init;
      CallsConcat(s, p, init);
    }
  }

  lemma OneCall(s: State, c: (Address, Call))
    ensures var outcome := Execute(s, c.0, c.1);
            && AfterCalls(s, [c]) == (if outcome.Returned? then outcome.state else s)
            && EmittedMoves(s, [c]) == if outcome.Returned? then EventMoves(outcome.event) else []
  {
    hide Execute;
    assert [c][..0] == [];
  }

  lemma NoCalls(s: State)
    ensures AfterCalls(s, []) == s && EmittedMoves(s, []) == []
  {
  }

  lemma {:induction false} ActionsAreCalls(s: State, actions: seq<Action>, hash: Uint256)
    ensures RunActions(s, actions, hash).state == AfterCalls(s, CallsOf(actions))
    ensures RunActions(s, actions, hash).moves == EmittedMoves(s, CallsOf(actions))
  {
    hide Execute, AfterCalls, EmittedMoves;
    if actions == [] {
      NoCalls(s);
    } else {
      var init, last := actions[..|actions| - 1], actions[|actions| - 1];
      ActionsAreCalls(s, init, hash);
      if last.UsdcCall? {
        CallsConcat(s, CallsOf(init), [(last.sender, last.call)]);
        OneCall(AfterCalls(s, CallsOf(init)), (last.sender, last.call));
      } else {
        assert CallsOf(init) + [] == CallsOf(init);
        assert EmittedMoves(s, CallsOf(init)) + [] == EmittedMoves(s, CallsOf(init));
      }
    }
  }

  /** A block does to the contract exactly what the calls of its transactions that do not fail do, in order. */
  lemma {:induction false} BlockIsItsCalls(s: State, block: Block)
    ensures RunBlock(s, block).state == AfterCalls(s, BlockCalls(block))
    ensures RunBlock(s, block).moves == EmittedMoves(s, BlockCalls(block))
  {
    hide AfterCalls, EmittedMoves, RunActions, CallsOf;
    if block == [] {
      NoCalls(s);
    } else {
      var init, tx := block[..|block| - 1], block[|block| - 1];
      BlockIsItsCalls(s, init);
      var calls := if tx.fails then [] else CallsOf(tx.actions);
      CallsConcat(s, BlockCalls(init), calls);
      NoCalls(AfterCalls(s, BlockCalls(init)));
      if !tx.fails {
        ActionsAreCalls(AfterCalls(s, BlockCalls(init)), tx.actions, tx.hash);
      }
    }
  }

  lemma {:induction false} ChainIsItsCalls(chain: seq<Block>)
    ensures StateAfter(chain) == AfterCalls(EMPTY, ChainCalls(chain))
  {
    hide AfterCalls, BlockCalls, RunBlock;
    if chain == [] {
      NoCalls(EMPTY);
    } else {
      var init := chain[..|chain| - 1];
      ChainIsItsCalls(init);
      BlockIsItsCalls(StateAfter(init), chain[|chain| - 1]);
      CallsConcat(EMPTY, ChainCalls(init), BlockCalls(chain[|chain| - 1]));
    }
  }

  /** Each transaction has a receipt that says whether it failed; after a failure there are no logs. */
  lemma {:induction false} ReceiptsTell(s: State, block: Block)
    ensures var receipts := RunBlock(s, block).receipts;
            && |receipts| == |block|
            && forall i :: 0 <= i < |block| ==>
                 receipts[i].success == !block[i].fails && (block[i].fails ==> receipts[i].logs == [])
  {
    hide RunActions;
    if block != [] {
      ReceiptsTell(s, block[..|block| - 1]);
    }
  }

  /** Another contract's event leaves its log. */
  lemma {:induction false} EmitLeavesLog(s: State, actions: seq<Action>, hash: Uint256, i: nat)
    requires i < |actions| && actions[i].Emit?
    ensures Log(actions[i].address, actions[i].topics, actions[i].words, hash) in RunActions(s, actions, hash).logs
  {
    hide Execute;
    if i < |actions| - 1 {
      EmitLeavesLog(s, actions[..|actions| - 1], hash, i);
    }
  }

  // ---- replaying transfer events ----

  function Net(moves: seq<Move>, a: Address): int {
    if moves == [] then 0 else Net(moves[..|moves| - 1], a) + Delta(moves[|moves| - 1], a)
  }

  /** Starting from balance b, no debit of a in these moves exceeds what a holds at that point. */
  predicate Covered(b: int, moves: seq<Move>, a: Address) {
    moves == []
    || var init, last := moves[..|moves| - 1], moves[|moves| - 1];
       Covered(b, init, a) && (last.from == a ==> last.value <= b + Net(init, a))
  }

  lemma {:induction false} NetConcat(p: seq<Move>, q: seq<Move>, a: Address)
    ensures Net(p + q, a) == Net(p, a) + Net(q, a)
  {
    if q == [] {
      assert p + q == p;
    } else {
      assert (p + q)[..|p + q| - 1] == p + q[..|q| - 1];
      NetConcat(p, q[..|q| - 1], a);
    }
  }

  lemma {:induction false} CoveredConcat(b: int, p: seq<Move>, q: seq<Move>, a: Address)
    ensures Covered(b, p + q, a) <==> Covered(b, p, a) && Covered(b + Net(p, a), q, a)
  {
    if q == [] {
      assert p + q == p;
    } else {
      var init := q[..|q| - 1];
      assert (p + q)[..|p + q| - 1] == p + init;
      CoveredConcat(b, p, init, a);
      NetConcat(p, init, a);
    }
  }

  /** These moves explain the change from s to t, and their debits are covered. */
  ghost predicate Explains(s: State, moves: seq<Move>, t: State, a: Address) {
    Get(t.balances, a) == Get(s.balances, a) + Net(moves, a) && Covered(Get(s.balances, a), moves, a)
  }

  lemma ExplainsConcat(s: State, p: seq<Move>, t: State, q: seq<Move>, u: State, a: Address)
    requires Explains(s, p, t, a) && Explains(t, q, u, a)
    ensures Explains(s, p + q, u, a)
  {
    hide Net, Covered;
    NetConcat(p, q, a);
    CoveredConcat(Get(s.balances, a), p, q, a);
  }

  lemma NothingExplains(s: State, a: Address)
    ensures Explains(s, [], s, a)
  {
  }

  lemma ActionReplay(s: State, action: Action, hash: Uint256, a: Address)
    requires a != ZERO
    ensures Explains(s, RunAction(s, action, hash).moves, RunAction(s, action, hash).state, a)
  {
    hide Execute;
    if action.UsdcCall? && Execute(s, action.sender, action.call).Returned? {
      EventMatchesBalances(s, action.sender, action.call, a);
      OneMove(Execute(s, action.sender, action.call).event, Get(s.balances, a), a);
    }
  }

  lemma OneMove(e: Event, b: int, a: Address)
    ensures Net(EventMoves(e), a) == if e.Moved? then Delta(e.move, a) else 0
    ensures Covered(b, EventMoves(e), a) <==> (e.Moved? && e.move.from == a ==> e.move.value <= b)
  {
    if e.Moved? {
      assert [e.move][..0] == [];
    }
  }

  lemma {:induction false} ActionsReplay(s: State, actions: seq<Action>, hash: Uint256, a: Address)
    requires a != ZERO
    ensures Explains(s, RunActions(s, actions, hash).moves, RunActions(s, actions, hash).state, a)
  {
    hide RunAction, Explains;
    if actions == [] {
      NothingExplains(s, a);
    } else {
      var init := RunActions(s, actions[..|actions| - 1], hash);
      var last := RunAction(init.state, actions[|actions| - 1], hash);
      ActionsReplay(s, actions[..|actions| - 1], hash, a);
      ActionReplay(init.state, actions[|actions| - 1], hash, a);
      ExplainsConcat(s, init.moves, init.state, last.moves, last.state, a);
    }
  }

  lemma {:induction false} BlockReplay(s: State, block: Block, a: Address)
    requires a != ZERO
    ensures Explains(s, RunBlock(s, block).moves, RunBlock(s, block).state, a)
  {
    hide RunActions, Explains;
    if block == [] {
      NothingExplains(s, a);
    } else {
      var init := RunBlock(s, block[..|block| - 1]);
      var tx := block[|block| - 1];
      BlockReplay(s, block[..|block| - 1], a);
      if tx.fails {
        NothingExplains(init.state, a);
      } else {
        ActionsReplay(init.state, tx.actions, tx.hash, a);
      }
      var run := RunTx(init.state, tx);
      ExplainsConcat(s, init.moves, init.state, run.moves, run.state, a);
    }
  }

  /** All transfer events of blocks from .. to - 1. */
  function MovesBetween(chain: seq<Block>, from: nat, to: nat): seq<Move>
    requires from <= to <= |chain|
  {
    if from == to then [] else MovesBetween(chain, from, to - 1) + RunAt(chain, to - 1).moves
  }

  lemma {:induction false} RangeReplay(chain: seq<Block>, from: nat, to: nat, a: Address)
    requires from <= to <= |chain| && a != ZERO
    ensures Explains(StateAfter(chain[..from]), MovesBetween(chain, from, to), StateAfter(chain[..to]), a)
  {
    hide Explains, RunBlock;
    var s := StateAfter(chain[..from]);
    if from == to {
      NothingExplains(s, a);
    } else {
      var t := StateAfter(chain[..to - 1]);
      RangeReplay(chain, from, to - 1, a);
      BlockReplay(t, chain[to - 1], a);
      assert chain[..to][..to - 1] == chain[..to - 1];
      ExplainsConcat(s, MovesBetween(chain, from, to - 1), t, RunAt(chain, to - 1).moves, StateAfter(chain[..to]), a);
    }
  }

  /** In every state a chain can reach, a non-zero balance is what the emitted transfers brought in
      less what they took out. */
  lemma EventReplay(chain: seq<Block>, a: Address)
    requires a != ZERO
    ensures Get(StateAfter(chain).balances, a) == Net(MovesBetween(chain, 0, |chain|), a)
  {
    hide Net, RunBlock, MovesBetween;
    RangeReplay(chain, 0, |chain|, a);
    assert chain[..0] == [] && chain[..|chain|] == chain;
  }

  // ---- conservation in every reachable state ----

  /** Calls come from real accounts and no other contract logs under the USDC address. */
  predicate WellFormedAction(action: Action) {
    match action
    case UsdcCall(sender, _) => sender != ZERO
    case Emit(address, _, _) => address != USDC_ADDRESS
  }

  predicate WellFormedBlock(block: Block) {
    forall tx, action :: tx in block && action in tx.actions ==> WellFormedAction(action)
  }

  predicate WellFormedChain(chain: seq<Block>) {
    forall block :: block in chain ==> WellFormedBlock(block)
  }

  /** Sum of the events that leave the zero address. */
  function Minted(moves: seq<Move>): nat {
    if moves == [] then 0
    else
      var last := moves[|moves| - 1];
      Minted(moves[..|moves| - 1]) + (if last.from == ZERO then last.value else 0)
  }

  lemma {:induction false} MintedConcat(p: seq<Move>, q: seq<Move>)
    ensures Minted(p + q) == Minted(p) + Minted(q)
  {
    if q == [] {
      assert p + q == p;
    } else {
      assert (p + q)[..|p + q| - 1] == p + q[..|q| - 1];
      MintedConcat(p, q[..|q| - 1]);
    }
  }

  ghost predicate Sound(s: State, moves: seq<Move>, t: State) {
    Valid(s) ==> Valid(t) && t.totalSupply == s.totalSupply + Minted(moves)
  }

  lemma SoundConcat(s: State, p: seq<Move>, t: State, q: seq<Move>, u: State)
    requires Sound(s, p, t) && Sound(t, q, u)
    ensures Sound(s, p + q, u)
  {
    hide Minted, Valid;
    MintedConcat(p, q);
  }

  lemma ActionIsSound(s: State, action: Action, hash: Uint256)
    requires WellFormedAction(action)
    ensures Sound(s, RunAction(s, action, hash).moves, RunAction(s, action, hash).state)
  {
    hide Execute, Valid;
    if Valid(s) && action.UsdcCall? && Execute(s, action.sender, action.call).Returned? {
      ValidPreserved(s, action.sender, action.call);
      EventMatchesSupply(s, action.sender, action.call);
      MintedOne(Execute(s, action.sender, action.call).event);
    }
  }

  lemma MintedOne(e: Event)
    ensures Minted(EventMoves(e)) == if e.Moved? && e.move.from == ZERO then e.move.value else 0
  {
    if e.Moved? {
      assert [e.move][..0] == [];
    }
  }

  lemma {:induction false} ActionsAreSound(s: State, actions: seq<Action>, hash: Uint256)
    requires forall action :: action in actions ==> WellFormedAction(action)
    ensures Sound(s, RunActions(s, actions, hash).moves, RunActions(s, actions, hash).state)
  {
    hide RunAction, Valid, WellFormedAction;
    if actions != [] {
      var init := RunActions(s, actions[..|actions| - 1], hash);
      var last := RunAction(init.state, actions[|actions| - 1], hash);
      ActionsAreSound(s, actions[..|actions| - 1], hash);
      ActionIsSound(init.state, actions[|actions| - 1], hash);
      SoundConcat(s, init.moves, init.state, last.moves, last.state);
    }
  }

  lemma {:induction false} BlockIsSound(s: State, block: Block)
    requires WellFormedBlock(block)
    ensures Sound(s, RunBlock(s, block).moves, RunBlock(s, block).state)
  {
    hide RunActions, Valid, WellFormedAction;
    if block != [] {
      var init := RunBlock(s, block[..|block| - 1]);
      var tx := block[|block| - 1];
      BlockIsSound(s, block[..|block| - 1]);
      ActionsAreSound(init.state, tx.actions, tx.hash);
      var run := RunTx(init.state, tx);
      assert run.moves == [] && run.state == init.state ==> Sound(init.state, run.moves, run.state);
      SoundConcat(s, init.moves, init.state, run.moves, run.state);
    }
  }

  /** Whatever the chain, balances add up to the supply, the supply fits a word, and the supply is the sum
      of the transfer events from the zero address. */
  lemma {:induction false} Conservation(chain: seq<Block>)
    requires WellFormedChain(chain)
    ensures Valid(StateAfter(chain))
    ensures StateAfter(chain).totalSupply == Minted(MovesBetween(chain, 0, |chain|))
  {
    hide Valid, RunBlock, WellFormedBlock;
    if chain == [] {
      EmptyIsValid();
    } else {
      var n := |chain|;
      var init, last := chain[..n - 1], chain[n - 1];
      Conservation(init);
      BlockIsSound(StateAfter(init), last);
      SamePrefix(chain, init, 0, n - 1);
      MintedConcat(MovesBetween(init, 0, n - 1), RunAt(chain, n - 1).moves);
    }
  }

  /** Earlier blocks do not depend on later ones. */
  lemma {:induction false} SamePrefix(chain: seq<Block>, prefix: seq<Block>, from: nat, to: nat)
    requires from <= to <= |prefix| && prefix <= chain
    ensures MovesBetween(chain, from, to) == MovesBetween(prefix, from, to)
  {
    hide RunBlock, StateAfter;
    if from < to {
      SamePrefix(chain, prefix, from, to - 1);
      assert chain[..to - 1] == prefix[..to - 1];
    }
  }
}
