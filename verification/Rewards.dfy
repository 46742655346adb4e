/** Block rewards (`mermai_reward_calculator`, src/consensus/mermai_consensus.cpp). */
module Rewards {
  import opened Bytes
  import opened Folds
  import opened Types
  import opened Padding

  const INITIAL_REWARD: u64 := 50000000
  const HALVING_PERIOD: u32 := 210000

  /** The reward after `halvings` integer halvings. */
  function Halved(halvings: nat): (r: nat)
    ensures r <= INITIAL_REWARD
  {
    if halvings == 0 then INITIAL_REWARD else Halved(halvings - 1) / 2
  }

  function BaseReward(height: nat): nat
  {
    Halved(height / HALVING_PERIOD)
  }

  method GetBaseReward(height: u32) returns (reward: u64)
    ensures reward == BaseReward(height)
  {
    reward := INITIAL_REWARD;
    var halvings := height / HALVING_PERIOD;
    var i := 0;
    while i < halvings && reward > 0
      invariant 0 <= i <= halvings && reward == Halved(i)
    {
      reward := reward / 2;
      i := i + 1;
    }
    StaysZero(i, halvings);
  }

  lemma {:induction false} StaysZero(i: nat, n: nat)
    requires i <= n
    ensures Halved(i) == 0 ==> Halved(n) == 0
    decreases n
  {
    if i < n {
      StaysZero(i, n - 1);
    }
  }

  lemma HalvedTwice(start: nat, power: nat, rest: nat)
    requires power > 0 && rest * power <= start < (rest + 1) * power
    ensures rest / 2 * (2 * power) <= start < (rest / 2 + 1) * (2 * power)
  {
    ghost var h := rest / 2;
    assert h * (2 * power) == (2 * h) * power && (h + 1) * (2 * power) == (2 * h + 2) * power;
    ScaledProduct(power, 2 * h, rest);
    ScaledProduct(power, rest + 1, 2 * h + 2);
  }

  /** The reward at a height is 50000000 over two to the power of the whole periods before it, rounded down. */
  lemma RewardExactly(height: nat)
    ensures BaseReward(height) * Power(height / 210000) <= 50000000
    ensures 50000000 < (BaseReward(height) + 1) * Power(height / 210000)
  {
    HalvedExactly(height / 210000);
  }

  lemma {:induction false} HalvedExactly(n: nat)
    ensures Halved(n) * Power(n) <= INITIAL_REWARD < (Halved(n) + 1) * Power(n)
  {
    if n > 0 {
      HalvedExactly(n - 1);
      HalvedTwice(INITIAL_REWARD, Power(n - 1), Halved(n - 1));
    }
  }

  /** What the first `blocks` heights issue together. */
  function Issued(blocks: nat): nat
  {
    if blocks == 0 then 0 else Issued(blocks - 1) + BaseReward(blocks - 1)
  }

  lemma ScaledUp(m: nat, p: nat, r: nat)
    requires m <= p
    ensures m * r <= p * r
    ensures (m + 1) * r == m * r + r
  {
    assert (p - m) * r >= 0;
    assert (p - m) * r == p * r - m * r;
  }

  /** The budget of `b` that `p` heights at rewards below `r` can still spend, one height further. */
  lemma BudgetStep(p: nat, b: nat, issued: nat, m: nat, r: nat)
    requires m < p && issued + 2 * (p * r) <= b + m * r
    ensures issued + r + 2 * (p * r) <= b + (m + 1) * r
    ensures m + 1 == p ==> issued + r + 2 * (p * (r / 2)) <= b
  {
    ScaledUp(m, p, r);
    if m + 1 == p {
      ghost var h := r / 2;
      assert 2 * (p * h) == p * (2 * h);
      ScaledProduct(p, 2 * h, r);
    }
  }

  lemma ScaledProduct(p: nat, x: nat, y: nat)
    requires x <= y
    ensures p * x <= p * y
  {
    assert p * (y - x) >= 0;
    assert p * (y - x) == p * y - p * x;
  }

  /** Each whole period issues at most twice what the reward drops by. */
  lemma {:induction false} IssuedWithin(blocks: nat)
    ensures var r := BaseReward(blocks);
            Issued(blocks) + 2 * (HALVING_PERIOD * r)
              <= 2 * HALVING_PERIOD * INITIAL_REWARD + (blocks % HALVING_PERIOD) * r
  {
    if blocks > 0 {
      var n, m := blocks - 1, (blocks - 1) % HALVING_PERIOD;
      var r, k := BaseReward(n), n / HALVING_PERIOD;
      IssuedWithin(n);
      BudgetStep(HALVING_PERIOD, 2 * HALVING_PERIOD * INITIAL_REWARD, Issued(n), m, r);
      if m + 1 < HALVING_PERIOD {
        DivModUnique(blocks, HALVING_PERIOD, k, m + 1);
      } else {
        DivModUnique(blocks, HALVING_PERIOD, k + 1, 0);
      }
    }
  }

  /** Emission is capped: however long the chain, block rewards stay within two initial periods' worth. */
  lemma EmissionCap(blocks: nat)
    ensures Issued(blocks) <= 2 * HALVING_PERIOD * INITIAL_REWARD
  {
    IssuedWithin(blocks);
    ScaledUp(blocks % HALVING_PERIOD, HALVING_PERIOD, BaseReward(blocks));
  }

  // ---------- fees ----------

  datatype Reward = Reward(recipient: Text, amount: u64, isFee: bool)

  function Fee(tx: Transaction): nat
  {
    tx.fee
  }

  function SumFees(txs: seq<Transaction>): nat
  {
    Sum(Fee, txs)
  }

  function Capped(n: nat): u64
  {
    if n > U64_MAX then U64_MAX else n
  }

  /** The proposer receives all fees, the sum saturating at the largest 64-bit value. */
  method DistributeFees(txs: seq<Transaction>, proposer: Text) returns (rewards: seq<Reward>)
    ensures rewards == if SumFees(txs) == 0 then [] else [Reward(proposer, Capped(SumFees(txs)), true)]
  {
    var total: u64 := 0;
    assert txs[..0] == [];
    for i := 0 to |txs|
      invariant total == Capped(SumFees(txs[..i]))
    {
      assert txs[..i + 1][..i] == txs[..i];
      if U64_MAX - total < txs[i].fee {
        total := U64_MAX;
      } else {
        total := total + txs[i].fee;
      }
    }
    assert txs[..|txs|] == txs;
    rewards := if total > 0 then [Reward(proposer, total, true)] else [];
  }
}
