/** The fee cap of prepared transactions against the base-fee rule of EIP-1559 (section Specification). */
module Fees {
  import opened Bytes

  datatype Fees = Fees(cap: nat, tip: nat)

  /** getFees from the node's three answers; none stands for a failed call, an inner none for a header
      without a base fee. */
  method GetFees(tip: Option<nat>, header: Option<Option<nat>>, gasPrice: Option<nat>) returns (r: Option<Fees>)
    ensures r.Some? <==> tip.Some? && header.Some? && (header.value.None? ==> gasPrice.Some?)
    ensures r.Some? ==> r.value.tip == tip.value
    ensures r.Some? && header.value.None? ==> r.value.cap == gasPrice.value
    ensures r.Some? && header.value.Some? ==> r.value.cap == 2 * header.value.value + tip.value == Cap(header.value.value, tip.value)
  {
    if tip.None? || header.None? { return None; }
    if header.value.None? {
      if gasPrice.None? { return None; }
      return Some(Fees(gasPrice.value, tip.value));
    }
    var maxFeePerGas := header.value.value * 2;
    maxFeePerGas := maxFeePerGas + tip.value;
    return Some(Fees(maxFeePerGas, tip.value));
  }

  function Cap(baseFee: nat, tip: nat): nat {
    2 * baseFee + tip
  }

  /** Gas used and gas target of a block; at most twice the target can be used. */
  datatype Gas = Gas(used: nat, target: nat)

  predicate Possible(g: Gas) {
    0 < g.target && g.used <= 2 * g.target
  }

  /** The base fee after a block, with BASE_FEE_MAX_CHANGE_DENOMINATOR 8. */
  function NextBaseFee(baseFee: nat, g: Gas): int
    requires Possible(g)
  {
    if g.used == g.target then baseFee
    else if g.used > g.target then
      var delta := baseFee * (g.used - g.target) / g.target / 8;
      baseFee + (if delta > 1 then delta else 1)
    else baseFee - baseFee * (g.target - g.used) / g.target / 8
  }

  lemma TimesMonotone(a: nat, b: nat, c: nat)
    requires a <= b
    ensures a * c <= b * c && c * a <= c * b
  {
  }

  lemma ShareOf(b: nat, part: nat, whole: nat)
    requires 0 < whole && part <= whole
    ensures 0 <= b * part / whole <= b
  {
    var product := b * part;
    var share := product / whole;
    TimesMonotone(part, whole, b);
    assert share * whole <= product;
    assert (b + 1) * whole == b * whole + whole;
    if share > b {
      TimesMonotone(b + 1, share, whole);
    }
  }

  /** One block raises the base fee by at most an eighth, and by one when an eighth is less. */
  function Raised(b: nat): nat {
    b + (if b / 8 > 1 then b / 8 else 1)
  }

  lemma NextIsBounded(b: nat, g: Gas)
    requires Possible(g)
    ensures 0 <= NextBaseFee(b, g) <= Raised(b)
  {
    if g.used > g.target {
      ShareOf(b, g.used - g.target, g.target);
    } else if g.used < g.target {
      ShareOf(b, g.target - g.used, g.target);
    }
  }

  /** Base fee after each of the given blocks in turn. */
  function FeeAfter(b: nat, blocks: seq<Gas>): nat
    requires forall g :: g in blocks ==> Possible(g)
  {
    if blocks == [] then b
    else
      var before := FeeAfter(b, blocks[..|blocks| - 1]);
      NextIsBounded(before, blocks[|blocks| - 1]);
      NextBaseFee(before, blocks[|blocks| - 1])
  }

  function RaisedTimes(b: nat, n: nat): nat {
    if n == 0 then b else Raised(RaisedTimes(b, n - 1))
  }

  lemma RaisedIsMonotone(a: nat, b: nat)
    requires a <= b
    ensures Raised(a) <= Raised(b)
  {
  }

  lemma {:induction false} FeeIsBounded(b: nat, blocks: seq<Gas>)
    requires forall g :: g in blocks ==> Possible(g)
    ensures FeeAfter(b, blocks) <= RaisedTimes(b, |blocks|)
  {
    hide NextBaseFee, Raised;
    if blocks != [] {
      var before := FeeAfter(b, blocks[..|blocks| - 1]);
      FeeIsBounded(b, blocks[..|blocks| - 1]);
      NextIsBounded(before, blocks[|blocks| - 1]);
      RaisedIsMonotone(before, RaisedTimes(b, |blocks| - 1));
    }
  }

  lemma FiveRaises(b: nat, n: nat)
    requires b >= 5 && n <= 5
    ensures RaisedTimes(b, n) <= 2 * b
  {
    var b1, b2, b3, b4 := Raised(b), Raised(Raised(b)), Raised(Raised(Raised(b))), Raised(Raised(Raised(Raised(b))));
    assert RaisedTimes(b, 1) == b1;
    assert RaisedTimes(b, 2) == b2;
    assert RaisedTimes(b, 3) == b3;
    assert RaisedTimes(b, 4) == b4;
    assert RaisedTimes(b, 5) == Raised(b4);
  }

  /** n blocks that use twice their target. */
  function FullBlocks(n: nat): (blocks: seq<Gas>)
    ensures |blocks| == n && forall g :: g in blocks ==> Possible(g)
  {
    if n == 0 then [] else FullBlocks(n - 1) + [Gas(2, 1)]
  }

  lemma {:induction false} SmallFeeGrows(b: nat, n: nat)
    requires b + n <= 15
    ensures FeeAfter(b, FullBlocks(n)) == b + n
  {
    if n > 0 {
      assert FullBlocks(n)[..n - 1] == FullBlocks(n - 1);
      SmallFeeGrows(b, n - 1);
    }
  }

  ghost predicate Covers(b: nat, tip: nat, blocks: seq<Gas>) {
    (forall g :: g in blocks ==> Possible(g)) ==> FeeAfter(b, blocks) + tip <= Cap(b, tip)
  }

  /** The cap covers base fee and tip in each of the next five blocks, however full they are, exactly when
      the base fee is at least 5 wei. */
  lemma CapCoversFiveBlocks(b: nat, tip: nat)
    ensures (forall blocks: seq<Gas> :: |blocks| <= 5 ==> Covers(b, tip, blocks)) <==> b >= 5
  {
    if b >= 5 {
      forall blocks: seq<Gas> | |blocks| <= 5 ensures Covers(b, tip, blocks) {
        if forall g :: g in blocks ==> Possible(g) {
          FeeIsBounded(b, blocks);
          FiveRaises(b, |blocks|);
        }
      }
    } else {
      SmallFeeGrows(b, 5);
      assert !Covers(b, tip, FullBlocks(5));
    }
  }
}
