/** How often one transaction can be applied: as often as the outputs it spends come into being. */
module Replay {
  import opened Types
  import opened Folds
  import opened Ledger
  import opened SpendOnce

  lemma InputsSpend(ins: seq<TxInput>, i: nat)
    requires i < |ins|
    ensures multiset(Flat(InputMoves, ins))[Spent(KeyOf(ins[i]))] >= 1
  {
    assert ins[i] in multiset(ins);
    FlatCounts(InputMoves, ins, ins[i], Spent(KeyOf(ins[i])));
  }

  lemma SpendsCounted(c: Crypto, txs: seq<Transaction>, t: Transaction, i: nat)
    requires i < |t.inputs|
    ensures multiset(txs)[t] <= multiset(Flat(TxMoves(c), txs))[Spent(KeyOf(t.inputs[i]))]
  {
    InputsSpend(t.inputs, i);
    FlatCounts(TxMoves(c), txs, t, Spent(KeyOf(t.inputs[i])));
  }

  /** How often an output came into being. */
  function Births(keys: set<Key>, moves: seq<Move>, k: Key): int
  {
    Held(keys, k) + multiset(moves)[Created(k)]
  }

  /** A transaction is applied at most as often as any output it spends came into being. */
  lemma AppliedAtMost(c: Crypto, keys: set<Key>, txs: seq<Transaction>, t: Transaction, i: nat)
    requires Fold(Play, keys, Flat(TxMoves(c), txs)).Some? && i < |t.inputs|
    ensures multiset(txs)[t] <= Births(keys, Flat(TxMoves(c), txs), KeyOf(t.inputs[i]))
  {
    SpendsCounted(c, txs, t, i);
    NetIsMembership(keys, Flat(TxMoves(c), txs), KeyOf(t.inputs[i]));
  }
}
