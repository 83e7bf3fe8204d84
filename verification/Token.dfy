/** The USDC contract: its storage, its four operations and the events they emit. */
module Token {
  const ADDRESS_LIMIT: nat := 0x1_0000000000_0000000000_0000000000_0000000000
  const UINT_LIMIT: nat := 0x1_0000000000000000_0000000000000000_0000000000000000_0000000000000000

  type Address = a: nat | a < ADDRESS_LIMIT
  type Uint256 = n: nat | n < UINT_LIMIT

  const ZERO: Address := 0

  datatype Call =
    | Transfer(to: Address, value: Uint256)
    | Approve(spender: Address, value: Uint256)
    | TransferFrom(from: Address, to: Address, value: Uint256)
    | Mint(to: Address, value: Uint256)

  datatype Move = Move(from: Address, to: Address, value: Uint256)

  datatype Event = Moved(move: Move) | Approved(owner: Address, spender: Address, value: Uint256)

  datatype State = State(totalSupply: nat, balances: map<Address, nat>, allowances: map<(Address, Address), nat>)

  datatype Outcome = Reverted | Returned(state: State, event: Event)

  const EMPTY := State(0, map[], map[])

  /** A Solidity mapping reads zero where nothing was written. */
  function Get<K>(m: map<K, nat>, k: K): nat {
    if k in m then m[k] else 0
  }

  /** balanceOf[from] -= value; balanceOf[to] += value, both checked. */
  function Shift(balances: map<Address, nat>, m: Move): map<Address, nat>
    requires Get(balances, m.from) >= m.value
  {
    var debited := balances[m.from := Get(balances, m.from) - m.value];
    debited[m.to := Get(debited, m.to) + m.value]
  }

  function Execute(s: State, sender: Address, call: Call): Outcome {
    match call
    case Transfer(to, value) =>
      ExecuteMove(s, s.allowances, Move(sender, to, value))
    case Approve(spender, value) =>
      Returned(s.(allowances := s.allowances[(sender, spender) := value]), Approved(sender, spender, value))
    case TransferFrom(from, to, value) =>
      var allowed := Get(s.allowances, (from, sender));
      if allowed < value then Reverted
      else ExecuteMove(s, s.allowances[(from, sender) := allowed - value], Move(from, to, value))
    case Mint(to, value) =>
      if s.totalSupply + value >= UINT_LIMIT || Get(s.balances, to) + value >= UINT_LIMIT then Reverted
      else Returned(State(s.totalSupply + value, s.balances[to := Get(s.balances, to) + value], s.allowances),
                    Moved(Move(ZERO, to, value)))
  }

  function ExecuteMove(s: State, allowances: map<(Address, Address), nat>, m: Move): Outcome {
    if Get(s.balances, m.from) < m.value then Reverted
    else if Get(Shift(s.balances, m), m.to) >= UINT_LIMIT then Reverted
    else Returned(State(s.totalSupply, Shift(s.balances, m), allowances), Moved(m))
  }

  // ---- conservation ----

  ghost function Total(balances: map<Address, nat>): nat {
    if balances == map[] then 0
    else
      var a :| a in balances;
      balances[a] + Total(balances - {a})
  }

  lemma {:induction false} TotalWithout(balances: map<Address, nat>, a: Address)
    ensures Total(balances) == Get(balances, a) + Total(balances - {a})
  {
    if a !in balances {
      assert balances - {a} == balances;
    } else {
      var b :| b in balances && Total(balances) == balances[b] + Total(balances - {b});
      if a != b {
        TotalWithout(balances - {b}, a);
        TotalWithout(balances - {a}, b);
        assert (balances - {a}) - {b} == (balances - {b}) - {a};
      }
    }
  }

  lemma TotalUpdate(balances: map<Address, nat>, a: Address, n: nat)
    ensures Total(balances[a := n]) == Total(balances) - Get(balances, a) + n
  {
    TotalWithout(balances, a);
    TotalWithout(balances[a := n], a);
    assert balances[a := n] - {a} == balances - {a};
  }

  /** No balance exceeds the supply, the supply fits a word, and the zero address allows nothing. */
  ghost predicate Valid(s: State) {
    && Total(s.balances) == s.totalSupply < UINT_LIMIT
    && forall spender: Address :: Get(s.allowances, (ZERO, spender)) == 0
  }

  lemma BalanceBelowTotal(balances: map<Address, nat>, a: Address)
    ensures Get(balances, a) <= Total(balances)
  {
    TotalWithout(balances, a);
  }

  lemma ShiftKeepsTotal(balances: map<Address, nat>, m: Move)
    requires Get(balances, m.from) >= m.value
    ensures Total(Shift(balances, m)) == Total(balances)
  {
    hide Total;
    var debited := balances[m.from := Get(balances, m.from) - m.value];
    TotalUpdate(balances, m.from, Get(balances, m.from) - m.value);
    TotalUpdate(debited, m.to, Get(debited, m.to) + m.value);
  }

  lemma MoveRevertsOnlyOnBalance(s: State, allowances: map<(Address, Address), nat>, m: Move)
    requires Valid(s)
    ensures ExecuteMove(s, allowances, m) == Reverted <==> Get(s.balances, m.from) < m.value
    ensures ExecuteMove(s, allowances, m).Returned? ==>
              Total(ExecuteMove(s, allowances, m).state.balances) == s.totalSupply
  {
    hide Total, Shift;
    if Get(s.balances, m.from) >= m.value {
      ShiftKeepsTotal(s.balances, m);
      BalanceBelowTotal(Shift(s.balances, m), m.to);
    }
  }

  /** Once the preceding checks have passed no checked addition to a balance overflows: each call reverts
      exactly for the reason its own check names. */
  lemma RevertCauses(s: State, sender: Address, call: Call)
    requires Valid(s)
    ensures Execute(s, sender, call) == Reverted <==>
            match call
            case Transfer(to, value) => Get(s.balances, sender) < value
            case Approve(_, _) => false
            case TransferFrom(from, to, value) =>
              Get(s.balances, from) < value || Get(s.allowances, (from, sender)) < value
            case Mint(to, value) => s.totalSupply + value >= UINT_LIMIT
  {
    hide Total, Shift, ExecuteMove;
    match call
    case Transfer(to, value) =>
      MoveRevertsOnlyOnBalance(s, s.allowances, Move(sender, to, value));
    case Approve(_, _) =>
    case TransferFrom(from, to, value) =>
      var allowed := Get(s.allowances, (from, sender));
      if allowed >= value {
        MoveRevertsOnlyOnBalance(s, s.allowances[(from, sender) := allowed - value], Move(from, to, value));
      }
    case Mint(to, value) =>
      BalanceBelowTotal(s.balances, to);
  }

  /** Every call by a real account keeps conservation and the silence of the zero address. */
  lemma ValidPreserved(s: State, sender: Address, call: Call)
    requires Valid(s) && sender != ZERO && Execute(s, sender, call).Returned?
    ensures Valid(Execute(s, sender, call).state)
  {
    hide Total, Shift, ExecuteMove;
    match call
    case Transfer(to, value) =>
      MoveReturns(s, s.allowances, Move(sender, to, value));
    case Approve(_, _) =>
    case TransferFrom(from, to, value) =>
      var allowed := Get(s.allowances, (from, sender));
      MoveReturns(s, s.allowances[(from, sender) := allowed - value], Move(from, to, value));
    case Mint(to, value) =>
      TotalUpdate(s.balances, to, Get(s.balances, to) + value);
  }

  lemma MoveReturns(s: State, allowances: map<(Address, Address), nat>, m: Move)
    requires Valid(s) && ExecuteMove(s, allowances, m).Returned?
    ensures var t := ExecuteMove(s, allowances, m).state;
            t.totalSupply == s.totalSupply && t.allowances == allowances && Total(t.balances) == s.totalSupply
  {
    hide Total, Shift;
    MoveRevertsOnlyOnBalance(s, allowances, m);
  }

  // ---- what each call does ----

  /** The event of a call that returns, in terms of its own arguments. */
  lemma ReturnedEvent(s: State, sender: Address, call: Call)
    requires Execute(s, sender, call).Returned?
    ensures Execute(s, sender, call).event ==
            match call
            case Transfer(to, value) => Moved(Move(sender, to, value))
            case Approve(spender, value) => Approved(sender, spender, value)
            case TransferFrom(from, to, value) => Moved(Move(from, to, value))
            case Mint(to, value) => Moved(Move(ZERO, to, value))
  {
    hide Shift;
  }

  /** Every balance after a call that returns: the recipient's rises and the debited account's falls by the value;
      to and from the same account it stays. */
  lemma ReturnedBalances(s: State, sender: Address, call: Call, a: Address)
    requires Execute(s, sender, call).Returned?
    ensures Get(Execute(s, sender, call).state.balances, a) - Get(s.balances, a) ==
            match call
            case Transfer(to, value) => (if a == to then value else 0) - (if a == sender then value else 0)
            case Approve(_, _) => 0
            case TransferFrom(from, to, value) => (if a == to then value else 0) - (if a == from then value else 0)
            case Mint(to, value) => if a == to then value else 0
  {
    hide Shift;
    match call
    case Transfer(to, value) => ShiftDelta(s.balances, Move(sender, to, value), a);
    case Approve(_, _) =>
    case TransferFrom(from, to, value) => ShiftDelta(s.balances, Move(from, to, value), a);
    case Mint(to, value) =>
  }

  /** Every allowance and the supply after a call that returns. */
  lemma ReturnedAllowances(s: State, sender: Address, call: Call, owner: Address, spender: Address)
    requires Execute(s, sender, call).Returned?
    ensures var t := Execute(s, sender, call).state;
            match call
            case Approve(approved, value) =>
              && t.totalSupply == s.totalSupply
              && Get(t.allowances, (owner, spender)) ==
                 if owner == sender && spender == approved then value else Get(s.allowances, (owner, spender))
            case TransferFrom(from, _, value) =>
              && t.totalSupply == s.totalSupply
              && Get(t.allowances, (owner, spender)) ==
                 Get(s.allowances, (owner, spender)) - (if owner == from && spender == sender then value else 0)
            case Transfer(_, _) => t.totalSupply == s.totalSupply && t.allowances == s.allowances
            case Mint(_, value) => t.totalSupply == s.totalSupply + value && t.allowances == s.allowances
  {
    hide Shift;
  }

  // ---- events tell the balances ----

  /** What one transfer event adds to an address. */
  function Delta(m: Move, a: Address): int {
    (if m.to == a then m.value else 0) - (if m.from == a then m.value else 0)
  }

  lemma ShiftDelta(balances: map<Address, nat>, m: Move, a: Address)
    requires Get(balances, m.from) >= m.value
    ensures Get(Shift(balances, m), a) == Get(balances, a) + Delta(m, a)
  {
  }

  /** A call that returns moves every non-zero balance by what its event says, and covers the debit. */
  lemma EventMatchesBalances(s: State, sender: Address, call: Call, a: Address)
    requires a != ZERO && Execute(s, sender, call).Returned?
    ensures var t, e := Execute(s, sender, call).state, Execute(s, sender, call).event;
            && (e.Moved? ==> Get(t.balances, a) == Get(s.balances, a) + Delta(e.move, a))
            && (e.Moved? && e.move.from == a ==> e.move.value <= Get(s.balances, a))
            && (e.Approved? ==> t.balances == s.balances)
  {
    hide Shift;
    match call
    case Transfer(to, value) =>
      ShiftDelta(s.balances, Move(sender, to, value), a);
    case Approve(_, _) =>
    case TransferFrom(from, to, value) =>
      ShiftDelta(s.balances, Move(from, to, value), a);
    case Mint(to, value) =>
  }

  /** Supply changes exactly by the events that come from the zero address. */
  lemma EventMatchesSupply(s: State, sender: Address, call: Call)
    requires Valid(s) && sender != ZERO && Execute(s, sender, call).Returned?
    ensures var t, e := Execute(s, sender, call).state, Execute(s, sender, call).event;
            t.totalSupply == s.totalSupply + (if e.Moved? && e.move.from == ZERO then e.move.value else 0)
  {
    hide Shift, Total;
  }

  // ---- allowances over a run of calls ----

  /** State after calls by the given senders; a reverted call changes nothing. */
  function AfterCalls(s: State, calls: seq<(Address, Call)>): State {
    if calls == [] then s
    else
      var before := AfterCalls(s, calls[..|calls| - 1]);
      var outcome := Execute(before, calls[|calls| - 1].0, calls[|calls| - 1].1);
      if outcome.Returned? then outcome.state else before
  }

  /** What spender has moved out of owner's balance by transferFrom in these calls. */
  function Spent(s: State, calls: seq<(Address, Call)>, owner: Address, spender: Address): nat {
    if calls == [] then 0
    else
      var init, last := calls[..|calls| - 1], calls[|calls| - 1];
      Spent(s, init, owner, spender)
      + (if last.0 == spender && last.1.TransferFrom? && last.1.from == owner
            && Execute(AfterCalls(s, init), last.0, last.1).Returned? then last.1.value else 0)
  }

  predicate Renews(c: (Address, Call), owner: Address, spender: Address) {
    c.0 == owner && c.1.Approve? && c.1.spender == spender
  }

  /** Until the owner approves anew, a spender's allowance is the old one less what it spent, so it never
      spends more than was approved. */
  lemma {:induction false} AllowanceIsSpent(s: State, calls: seq<(Address, Call)>, owner: Address, spender: Address)
    requires forall c :: c in calls ==> !Renews(c, owner, spender)
    ensures Get(AfterCalls(s, calls).allowances, (owner, spender)) + Spent(s, calls, owner, spender)
            == Get(s.allowances, (owner, spender))
  {
    hide Execute;
    if calls != [] {
      var init, last := calls[..|calls| - 1], calls[|calls| - 1];
      AllowanceIsSpent(s, init, owner, spender);
      assert last in calls;
      if Execute(AfterCalls(s, init), last.0, last.1).Returned? {
        AllowanceStep(AfterCalls(s, init), last.0, last.1, owner, spender);
      }
    }
  }

  lemma AllowanceStep(s: State, sender: Address, call: Call, owner: Address, spender: Address)
    requires Execute(s, sender, call).Returned?
    ensures Get(Execute(s, sender, call).state.allowances, (owner, spender)) ==
            if Renews((sender, call), owner, spender) then call.value
            else if sender == spender && call.TransferFrom? && call.from == owner
            then Get(s.allowances, (owner, spender)) - call.value
            else Get(s.allowances, (owner, spender))
  {
    hide Shift;
  }

  // ---- the contract object ----

  class Usdc {
    var totalSupply: nat
    var balanceOf: map<Address, nat>
    var allowance: map<(Address, Address), nat>

    function Storage(): State
      reads this
    {
      State(totalSupply, balanceOf, allowance)
    }

    /** constructor(initialSupply): mints to the deployer. */
    constructor (deployer: Address, initialSupply: Uint256)
      ensures Execute(EMPTY, deployer, Mint(deployer, initialSupply)).Returned?
      ensures Storage() == Execute(EMPTY, deployer, Mint(deployer, initialSupply)).state
      ensures Valid(Storage())
    {
      totalSupply := initialSupply;
      balanceOf := map[deployer := initialSupply];
      allowance := map[];
      new;
      EmptyIsValid();
      TotalUpdate(map[], deployer, initialSupply);
      assert map[][deployer := initialSupply] == balanceOf;
    }

    /** None is a revert, which leaves the storage as it was. */
    method TransferTokens(sender: Address, to: Address, value: Uint256) returns (ok: bool)
      requires Valid(Storage()) && sender != ZERO
      modifies this
      ensures ok <==> Execute(old(Storage()), sender, Transfer(to, value)).Returned?
      ensures Storage() == if ok then Execute(old(Storage()), sender, Transfer(to, value)).state else old(Storage())
      ensures Valid(Storage())
    {
      hide Total, Shift;
      RevertCauses(Storage(), sender, Transfer(to, value));
      if Get(balanceOf, sender) < value { return false; }
      ValidPreserved(Storage(), sender, Transfer(to, value));
      MoveInPlace(Move(sender, to, value));
      return true;
    }

    method ApproveSpender(sender: Address, spender: Address, value: Uint256)
      requires Valid(Storage()) && sender != ZERO
      modifies this`allowance
      ensures Storage() == Execute(old(Storage()), sender, Approve(spender, value)).state
      ensures Valid(Storage())
    {
      hide Total;
      ValidPreserved(Storage(), sender, Approve(spender, value));
      allowance := allowance[(sender, spender) := value];
    }

    method TransferTokensFrom(sender: Address, from: Address, to: Address, value: Uint256) returns (ok: bool)
      requires Valid(Storage()) && sender != ZERO
      modifies this
      ensures ok <==> Execute(old(Storage()), sender, TransferFrom(from, to, value)).Returned?
      ensures Storage() == if ok then Execute(old(Storage()), sender, TransferFrom(from, to, value)).state
                           else old(Storage())
      ensures Valid(Storage())
    {
      hide Total, Shift;
      RevertCauses(Storage(), sender, TransferFrom(from, to, value));
      if Get(balanceOf, from) < value { return false; }
      if Get(allowance, (from, sender)) < value { return false; }
      ValidPreserved(Storage(), sender, TransferFrom(from, to, value));
      MoveInPlace(Move(from, to, value));
      allowance := allowance[(from, sender) := Get(allowance, (from, sender)) - value];
      return true;
    }

    method MintTokens(sender: Address, to: Address, value: Uint256) returns (ok: bool)
      requires Valid(Storage()) && sender != ZERO
      modifies this`totalSupply, this`balanceOf
      ensures ok <==> Execute(old(Storage()), sender, Mint(to, value)).Returned?
      ensures Storage() == if ok then Execute(old(Storage()), sender, Mint(to, value)).state else old(Storage())
      ensures Valid(Storage())
    {
      hide Total;
      RevertCauses(Storage(), sender, Mint(to, value));
      if totalSupply + value >= UINT_LIMIT { return false; }
      ValidPreserved(Storage(), sender, Mint(to, value));
      totalSupply := totalSupply + value;
      BalanceBelowTotal(balanceOf, to);
      balanceOf := balanceOf[to := Get(balanceOf, to) + value];
      return true;
    }

    /** The debit and the credit, in this order; the checked addition cannot overflow. */
    method MoveInPlace(m: Move)
      requires Valid(Storage()) && Get(balanceOf, m.from) >= m.value
      modifies this`balanceOf
      ensures balanceOf == Shift(old(balanceOf), m)
    {
      hide Total;
      ShiftKeepsTotal(balanceOf, m);
      BalanceBelowTotal(Shift(balanceOf, m), m.to);
      balanceOf := balanceOf[m.from := Get(balanceOf, m.from) - m.value];
      assert Get(balanceOf, m.to) + m.value < UINT_LIMIT;
      balanceOf := balanceOf[m.to := Get(balanceOf, m.to) + m.value];
    }
  }

  lemma EmptyIsValid()
    ensures Valid(EMPTY)
  {
  }
}
