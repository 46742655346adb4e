/** An unspent output leaves the ledger only by a transaction that its owner signed. */
module Ownership {
  import opened Bytes
  import opened Types
  import opened Codec
  import opened Chain
  import opened Folds
  import opened Ledger

  predicate Holds(u: Utxos, k: Key, coin: Coin)
  {
    k in u && u[k] == coin
  }

  predicate OwnerSigned(c: Crypto, tx: Transaction, i: TxInput, k: Key, address: Text)
  {
    && KeyOf(i) == k && i.publicKey != [] && AddressOf(c, i.publicKey) == address
    && i.signature != [] && c.validSig(i.publicKey, EncTx(Unsigned(tx)), i.signature)
  }

  /** Some input of the transaction names the output and carries a signature by a key with its address. */
  predicate Releases(c: Crypto, tx: Transaction, k: Key, address: Text)
  {
    exists i | 0 <= i < |tx.inputs| :: OwnerSigned(c, tx, tx.inputs[i], k, address)
  }

  lemma {:induction false} UnnamedStays(u: Utxos, ins: seq<TxInput>, k: Key, coin: Coin)
    requires Holds(u, k, coin) && Fold(SpendInput(), u, ins).Some?
    requires forall i | 0 <= i < |ins| :: KeyOf(ins[i]) != k
    ensures Holds(Fold(SpendInput(), u, ins).value, k, coin)
  {
    if ins != [] {
      var n := |ins| - 1;
      UnnamedStays(u, ins[..n], k, coin);
    }
  }

  lemma {:induction false} SavingKeeps(u: Utxos, txId: Text, outs: seq<TxOutput>, n: nat, k: Key, coin: Coin)
    requires n <= |outs| && Holds(u, k, coin) && SaveFirst(u, txId, outs, n).Some?
    ensures Holds(SaveFirst(u, txId, outs, n).value, k, coin)
  {
    if n > 0 {
      SavingKeeps(u, txId, outs, n - 1, k, coin);
    }
  }

  lemma TxReleases(c: Crypto, u: Utxos, tx: Transaction, now: u64, k: Key, coin: Coin)
    requires Holds(u, k, coin) && ApplyTx(c, u, tx, now).Some?
    ensures Holds(ApplyTx(c, u, tx, now).value, k, coin) || Releases(c, tx, k, coin.address)
  {
    if i :| 0 <= i < |tx.inputs| && KeyOf(tx.inputs[i]) == k {
      assert Redeems(c, u, tx.inputs[i]) && Signed(c, EncTx(Unsigned(tx)), tx.inputs[i]);
      assert OwnerSigned(c, tx, tx.inputs[i], k, coin.address);
    } else {
      UnnamedStays(u, tx.inputs, k, coin);
      SavingKeeps(Fold(SpendInput(), u, tx.inputs).value, TxId(c, tx), tx.outputs, |tx.outputs|, k, coin);
    }
  }

  /** After a block every output is still there as it was, or a transaction of the block released it. */
  lemma {:induction false} OnlyOwnersSpend(c: Crypto, u: Utxos, txs: seq<Transaction>, now: u64, k: Key, coin: Coin)
    requires Holds(u, k, coin) && Fold(TxStep(c, now), u, txs).Some?
    ensures Holds(Fold(TxStep(c, now), u, txs).value, k, coin)
         || exists j | 0 <= j < |txs| :: Releases(c, txs[j], k, coin.address)
  {
    if txs != [] {
      var n := |txs| - 1;
      OnlyOwnersSpend(c, u, txs[..n], now, k, coin);
      var w := Fold(TxStep(c, now), u, txs[..n]).value;
      if Holds(w, k, coin) {
        TxReleases(c, w, txs[n], now, k, coin);
      } else {
        var j :| 0 <= j < |txs[..n]| && Releases(c, txs[..n][j], k, coin.address);
        assert txs[j] == txs[..n][j];
      }
    }
  }

  /** Some transaction of the blocks released the output. */
  predicate Released(c: Crypto, blocks: seq<Block>, k: Key, address: Text)
  {
    exists b | b in blocks :: ReleasedIn(c, b, k, address)
  }

  predicate ReleasedIn(c: Crypto, b: Block, k: Key, address: Text)
  {
    exists j | 0 <= j < |b.transactions| :: Releases(c, b.transactions[j], k, address)
  }

  /** Every output of `start` is still there, or was released. */
  ghost predicate Guarded(c: Crypto, start: Utxos, blocks: seq<Block>, now: Utxos)
  {
    forall k | k in start :: Holds(now, k, start[k]) || Released(c, blocks, k, start[k].address)
  }

  lemma GuardedExtends(c: Crypto, start: Utxos, blocks: seq<Block>, t: Tables, b: Block, now: u64)
    requires Guarded(c, start, blocks, t.utxos) && ApplyBlock(c, t, b, now).Some?
    ensures Guarded(c, start, blocks + [b], ApplyBlock(c, t, b, now).value.utxos)
  {
    var after := ApplyBlock(c, t, b, now).value.utxos;
    forall k | k in start ensures Holds(after, k, start[k]) || Released(c, blocks + [b], k, start[k].address) {
      if Released(c, blocks, k, start[k].address) {
        var d :| d in blocks && ReleasedIn(c, d, k, start[k].address);
        assert d in blocks + [b];
      } else {
        OnlyOwnersSpend(c, t.utxos, b.transactions, now, k, start[k]);
        assert b in blocks + [b];
      }
    }
  }
}
