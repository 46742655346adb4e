/** The `mermai_db` object (src/db/mermai_db.cpp): the steps of applying a block, proved against `Ledger`. */
module Database {
  import opened Bytes
  import opened Types
  import opened Codec
  import opened Consensus
  import opened Chain
  import opened Folds
  import opened Ledger
  import opened Serializer

  class Store {
    const crypto: Crypto
    var utxos: Utxos
    var blocks: map<u32, BlockRow>
    var transactions: map<Text, TxRow>
    var mempool: map<Text, Text>
    /** What a rollback restores, while a transaction is open. */
    var journal: Option<Tables>

    function Now(): Tables
      reads this
    {
      Tables(utxos, blocks, transactions, mempool)
    }

    constructor (crypto: Crypto)
      ensures this.crypto == crypto && journal == None && Now() == Tables(map[], map[], map[], map[])
    {
      this.crypto := crypto;
      utxos, blocks, transactions, mempool, journal := map[], map[], map[], map[], None;
    }

    method Begin() returns (ok: bool)
      modifies `journal
      ensures ok == old(journal).None?
      ensures journal == if ok then Some(Now()) else old(journal)
    {
      if journal.Some? { return false; }
      journal := Some(Now());
      ok := true;
    }

    method Commit()
      modifies `journal
      ensures journal == None
    {
      journal := None;
    }

    method Rollback()
      requires journal.Some?
      modifies this
      ensures journal == None && Now() == old(journal).value
    {
      var t := journal.value;
      utxos, blocks, transactions, mempool := t.utxos, t.blocks, t.transactions, t.mempool;
      journal := None;
    }

    // ---------- single rows ----------

    method SaveUnspentOutput(txId: Text, index: u32, o: TxOutput) returns (ok: bool)
      modifies `utxos
      ensures ok == Save(old(utxos), txId, index, o).Some?
      ensures utxos == if ok then Save(old(utxos), txId, index, o).value else old(utxos)
    {
      if txId == [] || o.address == [] || o.amount == 0 { return false; }
      var key := (Stored(txId), index);
      if key in utxos || o.amount >= AMOUNT_LIMIT { return false; }
      utxos := utxos[key := Coin(Stored(o.address), o.amount)];
      ok := true;
    }

    method SpendUnspentOutput(txId: Text, index: u32) returns (ok: bool)
      modifies `utxos
      ensures ok == Spend(old(utxos), (Stored(txId), index)).Some?
      ensures utxos == if ok then Spend(old(utxos), (Stored(txId), index)).value else old(utxos)
    {
      var key := (Stored(txId), index);
      if key !in utxos { return false; }
      utxos := utxos - {key};
      ok := true;
    }

    method RemoveFromMempool(txId: Text)
      modifies `mempool
      ensures mempool == old(mempool) - {Stored(txId)}
    {
      mempool := mempool - {Stored(txId)};
    }

    // ---------- transactions ----------

    /** The outputs and the fee, unless their sum does not fit. */
    method SumOut(tx: Transaction) returns (total: Option<u64>)
      ensures var sum := tx.fee + SumOutputs(tx.outputs); total == if sum <= U64_MAX then Some(sum) else None
    {
      var sum: u64 := tx.fee;
      for i := 0 to |tx.outputs|
        invariant sum == tx.fee + SumOutputs(tx.outputs[..i])
      {
        assert tx.outputs[..i + 1][..i] == tx.outputs[..i];
        if tx.outputs[i].amount > U64_MAX - sum {
          SumOfPrefix(AmountOf, tx.outputs, i + 1);
          return None;
        }
        sum := sum + tx.outputs[i].amount;
      }
      assert tx.outputs[..|tx.outputs|] == tx.outputs;
      total := Some(sum);
    }

    ghost predicate AllRedeem(ins: seq<TxInput>)
      reads this
    {
      forall i | 0 <= i < |ins| :: Redeems(crypto, utxos, ins[i])
    }

    /** What the inputs are worth, unless one of them is not the signer's or their sum does not fit. */
    method SumIn(ins: seq<TxInput>) returns (total: Option<u64>)
      ensures var worth := Sum(Worth(utxos), ins);
              total == if AllRedeem(ins) && worth <= U64_MAX then Some(worth) else None
    {
      var sum: u64 := 0;
      for i := 0 to |ins|
        invariant sum == Sum(Worth(utxos), ins[..i]) && AllRedeem(ins[..i])
      {
        assert ins[..i + 1] == ins[..i] + [ins[i]];
        SumSnoc(Worth(utxos), ins[..i], ins[i]);
        var key := KeyOf(ins[i]);
        if key !in utxos || utxos[key].address == [] || AddressOf(crypto, ins[i].publicKey) != utxos[key].address {
          assert !Redeems(crypto, utxos, ins[i]);
          return None;
        }
        if utxos[key].amount > U64_MAX - sum {
          SumOfPrefix(Worth(utxos), ins, i + 1);
          return None;
        }
        sum := sum + utxos[key].amount;
      }
      assert ins[..|ins|] == ins;
      total := Some(sum);
    }

    method ValidateTransactionInputs(tx: Transaction, now: u64) returns (ok: bool)
      ensures ok == ValidInputs(crypto, utxos, tx, now)
    {
      ok := VerifyTransaction(crypto, tx, now);
      if !ok { return; }
      var outputs := SumOut(tx);
      if outputs.None? { return false; }
      var inputs := SumIn(tx.inputs);
      if inputs.None? { return false; }
      ok := inputs.value == outputs.value;
    }

    method SpendInputs(ins: seq<TxInput>) returns (ok: bool)
      modifies `utxos
      ensures ok == Fold(SpendInput(), old(utxos), ins).Some?
      ensures ok ==> utxos == Fold(SpendInput(), old(utxos), ins).value
    {
      for i := 0 to |ins|
        invariant Fold(SpendInput(), old(utxos), ins[..i]) == Some(utxos)
      {
        FoldSnoc(SpendInput(), old(utxos), ins, i);
        ok := SpendUnspentOutput(ins[i].prevTxHash, ins[i].prevOutputIdx);
        if !ok {
          FoldFails(SpendInput(), old(utxos), ins, i + 1);
          return;
        }
      }
      assert ins[..|ins|] == ins;
      ok := true;
    }

    method SaveOutputs(txId: Text, outs: seq<TxOutput>) returns (ok: bool)
      modifies `utxos
      ensures ok == SaveFirst(old(utxos), txId, outs, |outs|).Some?
      ensures ok ==> utxos == SaveFirst(old(utxos), txId, outs, |outs|).value
    {
      for i := 0 to |outs|
        invariant SaveFirst(old(utxos), txId, outs, i) == Some(utxos)
      {
        ok := SaveUnspentOutput(txId, i % U32_SIZE, outs[i]);
        if !ok {
          SavingFails(old(utxos), txId, outs, i + 1, |outs|);
          return;
        }
      }
      ok := true;
    }

    method ApplyTransaction(tx: Transaction, now: u64) returns (ok: bool)
      modifies `utxos
      ensures ok == ApplyTx(crypto, old(utxos), tx, now).Some?
      ensures ok ==> utxos == ApplyTx(crypto, old(utxos), tx, now).value
    {
      if tx.inputs != [] {
        ok := ValidateTransactionInputs(tx, now);
        if !ok { return; }
        ok := SpendInputs(tx.inputs);
        if !ok { return; }
      }
      ok := SaveOutputs(TxId(crypto, tx), tx.outputs);
    }

    // ---------- blocks ----------

    /** `INSERT OR REPLACE`, which leaves the block hash null. */
    method SaveTransaction(tx: Transaction)
      modifies `transactions
      ensures transactions == old(transactions)[Stored(TxId(crypto, tx)) := TxRow(None, EncTx(tx), tx.timestamp)]
    {
      var serialized := SerializeTransaction(tx);
      transactions := transactions[Stored(TxId(crypto, tx)) := TxRow(None, serialized, tx.timestamp)];
    }

    method SaveInBlock(hash: Text, txs: seq<Transaction>)
      modifies `transactions
      ensures transactions == SaveTxs(crypto, old(transactions), hash, txs)
    {
      for i := 0 to |txs|
        invariant transactions == SaveTxs(crypto, old(transactions), hash, txs[..i])
      {
        SaveTransaction(txs[i]);
        var id := Stored(TxId(crypto, txs[i]));
        transactions := transactions[id := transactions[id].(blockHash := Some(hash))];
        assert txs[..i + 1][..i] == txs[..i];
      }
      assert txs[..|txs|] == txs;
    }

    method SaveBlock(b: Block)
      modifies `blocks, `transactions
      ensures blocks == InsertBlock(old(blocks), b.height, RowOf(crypto, b))
      ensures transactions == SaveTxs(crypto, old(transactions), BlockHash(crypto, b), b.transactions)
    {
      var serialized := SerializeBlock(b);
      var hash := BlockHash(crypto, b);
      blocks := InsertBlock(blocks, b.height, BlockRow(hash, Stored(b.prevBlockHash), b.timestamp, serialized));
      SaveInBlock(hash, b.transactions);
    }

    method ApplyTransactions(txs: seq<Transaction>, now: u64) returns (ok: bool)
      modifies `utxos, `mempool
      ensures ok == Fold(TxStep(crypto, now), old(utxos), txs).Some?
      ensures ok ==> utxos == Fold(TxStep(crypto, now), old(utxos), txs).value
      ensures ok ==> mempool == Forget(crypto, old(mempool), txs)
    {
      ghost var step := TxStep(crypto, now);
      for i := 0 to |txs|
        invariant Fold(step, old(utxos), txs[..i]) == Some(utxos)
        invariant mempool == Forget(crypto, old(mempool), txs[..i])
      {
        FoldSnoc(step, old(utxos), txs, i);
        assert txs[..i + 1][..i] == txs[..i];
        ok := ApplyTransaction(txs[i], now);
        if !ok {
          FoldFails(step, old(utxos), txs, i + 1);
          return;
        }
        RemoveFromMempool(TxId(crypto, txs[i]));
      }
      assert txs[..|txs|] == txs;
      ok := true;
    }

    /** A block is applied in full or leaves every table as it was; there are no nested transactions. */
    method ApplyBlockOf(b: Block, now: u64) returns (ok: bool)
      modifies this
      ensures journal == old(journal)
      ensures ok == (old(journal).None? && ApplyBlock(crypto, old(Now()), b, now).Some?)
      ensures Now() == if ok then ApplyBlock(crypto, old(Now()), b, now).value else old(Now())
    {
      ok := Begin();
      if !ok { return; }
      ok := ApplyTransactions(b.transactions, now);
      if ok {
        SaveBlock(b);
        Commit();
      } else {
        Rollback();
      }
    }
  }

  lemma {:induction false} SavingFails(u: Utxos, txId: Text, outs: seq<TxOutput>, i: nat, n: nat)
    requires i <= n <= |outs| && SaveFirst(u, txId, outs, i).None?
    ensures SaveFirst(u, txId, outs, n).None?
    decreases n
  {
    if i < n {
      SavingFails(u, txId, outs, i, n - 1);
    }
  }
}
