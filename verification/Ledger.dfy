/**
 The unspent outputs and the atomic application of a block (src/db/mermai_db.cpp). Tables are maps;
 SQLite is taken to honour transactions, primary keys and checks, and not to fail otherwise.
 */
module Ledger {
  import opened Bytes
  import opened Types
  import opened Codec
  import opened BlockCodec
  import opened Consensus
  import opened BlockRoot
  import opened Chain
  import opened Folds
  import opened MapSums

  /** `bind_text` passes C strings, so a text is stored up to its first zero byte. */
  function Stored(s: Text): (t: Text)
    ensures |t| <= |s|
    ensures (forall i | 0 <= i < |s| :: s[i] != 0) ==> t == s
  {
    if s == [] || s[0] == 0 then [] else [s[0]] + Stored(s[1..])
  }

  type Key = (Text, u32)

  datatype Coin = Coin(address: Text, amount: u64)

  type Utxos = map<Key, Coin>

  /** The amount column is a signed 64-bit integer checked to be positive. */
  const AMOUNT_LIMIT: u64 := 0x8000_0000_0000_0000

  function Amount(c: Coin): nat
  {
    c.amount
  }

  function KeyOf(i: TxInput): Key
  {
    (Stored(i.prevTxHash), i.prevOutputIdx)
  }

  function TxId(c: Crypto, tx: Transaction): Text
  {
    if tx.id == [] then TxHash(c.sha, tx) else tx.id
  }

  const ADDRESS_PREFIX: Text := [109, 114, 109, 49]  // "mrm1"

  /** Empty for a key that does not parse as a whole. */
  function AddressOf(c: Crypto, key: Text): Text
  {
    if key == [] || !c.wholeKey(key) then [] else ADDRESS_PREFIX + Hex(c.sha(key)[..20])
  }

  // ---------- single rows ----------

  function Save(u: Utxos, txId: Text, index: u32, o: TxOutput): Option<Utxos>
  {
    var key := (Stored(txId), index);
    if txId == [] || o.address == [] || o.amount == 0 || key in u || o.amount >= AMOUNT_LIMIT then None
    else Some(u[key := Coin(Stored(o.address), o.amount)])
  }

  function Spend(u: Utxos, key: Key): Option<Utxos>
  {
    if key in u then Some(u - {key}) else None
  }

  // ---------- one transaction ----------

  function SpendInput(): (Utxos, TxInput) -> Option<Utxos>
  {
    (u: Utxos, i: TxInput) => Spend(u, KeyOf(i))
  }

  /** After saving the first `n` outputs; positions are 32-bit. */
  function SaveFirst(u: Utxos, txId: Text, outs: seq<TxOutput>, n: nat): Option<Utxos>
    requires n <= |outs|
  {
    if n == 0 then Some(u)
    else match SaveFirst(u, txId, outs, n - 1)
         case None => None
         case Some(w) => Save(w, txId, (n - 1) % U32_SIZE, outs[n - 1])
  }

  /** What an input is worth. */
  function Worth(u: Utxos): TxInput -> nat
  {
    i => Weight(u, Amount, KeyOf(i))
  }

  predicate Redeems(c: Crypto, u: Utxos, i: TxInput)
  {
    && KeyOf(i) in u
    && u[KeyOf(i)].address != [] && AddressOf(c, i.publicKey) == u[KeyOf(i)].address
  }

  /** `validate_transaction_inputs`: the inputs are the signer's and worth exactly the outputs and the fee. */
  ghost predicate ValidInputs(c: Crypto, u: Utxos, tx: Transaction, now: u64)
  {
    && VerifyTx(c, tx, now)
    && tx.fee + SumOutputs(tx.outputs) <= U64_MAX
    && (forall i | 0 <= i < |tx.inputs| :: Redeems(c, u, tx.inputs[i]))
    && Sum(Worth(u), tx.inputs) == tx.fee + SumOutputs(tx.outputs)
  }

  /** A transaction without inputs is not validated. */
  ghost function ApplyTx(c: Crypto, u: Utxos, tx: Transaction, now: u64): Option<Utxos>
  {
    if tx.inputs != [] && !ValidInputs(c, u, tx, now) then None
    else match Fold(SpendInput(), u, tx.inputs)
         case None => None
         case Some(w) => SaveFirst(w, TxId(c, tx), tx.outputs, |tx.outputs|)
  }

  ghost function TxStep(c: Crypto, now: u64): (Utxos, Transaction) -> Option<Utxos>
  {
    (u: Utxos, tx: Transaction) => ApplyTx(c, u, tx, now)
  }

  // ---------- whole blocks ----------

  datatype BlockRow = BlockRow(hash: Text, previous: Text, timestamp: u64, serialized: Text)

  /** `blockHash` is null until the row is tied to a block. */
  datatype TxRow = TxRow(blockHash: Option<Text>, serialized: Text, timestamp: u64)

  datatype Tables = Tables(
    utxos: Utxos, blocks: map<u32, BlockRow>, transactions: map<Text, TxRow>, mempool: map<Text, Text>)

  function RowOf(c: Crypto, b: Block): BlockRow
  {
    BlockRow(BlockHash(c, b), Stored(b.prevBlockHash), b.timestamp, EncBlock(b))
  }

  /** `INSERT OR REPLACE` into a table where hash and height are both unique. */
  function InsertBlock(blocks: map<u32, BlockRow>, height: u32, row: BlockRow): map<u32, BlockRow>
  {
    (map h | h in blocks && blocks[h].hash != row.hash :: blocks[h])[height := row]
  }

  function SaveTxs(c: Crypto, rows: map<Text, TxRow>, hash: Text, txs: seq<Transaction>): map<Text, TxRow>
  {
    if txs == [] then rows
    else var n := |txs| - 1;
         SaveTxs(c, rows, hash, txs[..n])[Stored(TxId(c, txs[n])) := TxRow(Some(hash), EncTx(txs[n]), txs[n].timestamp)]
  }

  function Forget(c: Crypto, pool: map<Text, Text>, txs: seq<Transaction>): map<Text, Text>
  {
    if txs == [] then pool
    else var n := |txs| - 1; Forget(c, pool, txs[..n]) - {Stored(TxId(c, txs[n]))}
  }

  ghost function ApplyBlock(c: Crypto, t: Tables, b: Block, now: u64): Option<Tables>
  {
    match Fold(TxStep(c, now), t.utxos, b.transactions)
    case None => None
    case Some(u) =>
      Some(Tables(u, InsertBlock(t.blocks, b.height, RowOf(c, b)),
                  SaveTxs(c, t.transactions, BlockHash(c, b), b.transactions), Forget(c, t.mempool, b.transactions)))
  }

  // ---------- the records of a block ----------

  ghost predicate Names(c: Crypto, txs: seq<Transaction>, id: Text)
  {
    exists i | 0 <= i < |txs| :: Stored(TxId(c, txs[i])) == id
  }

  lemma NamesLast(c: Crypto, txs: seq<Transaction>, id: Text)
    requires txs != []
    ensures Names(c, txs, id)
       <==> Names(c, txs[..|txs| - 1], id) || Stored(TxId(c, txs[|txs| - 1])) == id
  {
    var n := |txs| - 1;
    if i :| 0 <= i < |txs| && Stored(TxId(c, txs[i])) == id {
      assert i == n || txs[..n][i] == txs[i];
    }
    if i :| 0 <= i < n && Stored(TxId(c, txs[..n][i])) == id {
      assert txs[i] == txs[..n][i];
    }
  }

  /** Rows are written for the transactions of the block, tied to it, and for no others. */
  lemma {:induction false} RowsFiled(c: Crypto, rows: map<Text, TxRow>, hash: Text, txs: seq<Transaction>, id: Text)
    ensures var r := SaveTxs(c, rows, hash, txs);
            if Names(c, txs, id) then id in r && r[id].blockHash == Some(hash)
            else (id in r <==> id in rows) && (id in rows ==> r[id] == rows[id])
  {
    if txs != [] {
      RowsFiled(c, rows, hash, txs[..|txs| - 1], id);
      NamesLast(c, txs, id);
    }
  }

  /** Exactly the transactions of the block leave the stored pool. */
  lemma {:induction false} PoolForgets(c: Crypto, pool: map<Text, Text>, txs: seq<Transaction>, id: Text)
    ensures var p := Forget(c, pool, txs);
            (id in p <==> id in pool && !Names(c, txs, id)) && (id in p ==> p[id] == pool[id])
  {
    if txs != [] {
      PoolForgets(c, pool, txs[..|txs| - 1], id);
      NamesLast(c, txs, id);
    }
  }

  // ---------- conservation ----------

  /** The value of all unspent outputs. */
  ghost function Value(u: Utxos): nat
  {
    Total(u, Amount)
  }

  ghost predicate Within(w: Utxos, u: Utxos)
  {
    forall k | k in w :: k in u && w[k] == u[k]
  }

  /** Spending takes exactly what validation counted, even where two inputs name one stored row. */
  lemma {:induction false} SpendTakes(u: Utxos, ins: seq<TxInput>)
    requires Fold(SpendInput(), u, ins).Some?
    ensures var w := Fold(SpendInput(), u, ins).value;
            Within(w, u) && Value(w) + Sum(Worth(u), ins) == Value(u)
  {
    if ins != [] {
      var n := |ins| - 1;
      SpendTakes(u, ins[..n]);
      TotalRemove(Fold(SpendInput(), u, ins[..n]).value, Amount, KeyOf(ins[n]));
    }
  }

  lemma {:induction false} SaveGives(u: Utxos, txId: Text, outs: seq<TxOutput>, n: nat)
    requires n <= |outs| && SaveFirst(u, txId, outs, n).Some?
    ensures Value(SaveFirst(u, txId, outs, n).value) == Value(u) + SumOutputs(outs[..n])
  {
    if n > 0 {
      SaveGives(u, txId, outs, n - 1);
      assert outs[..n][..n - 1] == outs[..n - 1];
      var key := (Stored(txId), ((n - 1) % U32_SIZE) as u32);
      var coin := Coin(Stored(outs[n - 1].address), outs[n - 1].amount);
      TotalInsert(SaveFirst(u, txId, outs, n - 1).value, Amount, key, coin);
    }
  }

  /** What a transaction takes out of circulation: the fee, if it has inputs. */
  function FeeOf(tx: Transaction): nat
  {
    if tx.inputs == [] then 0 else tx.fee
  }

  /** What a transaction brings into circulation: its outputs, if it has no inputs. */
  function IssueOf(tx: Transaction): nat
  {
    if tx.inputs == [] then SumOutputs(tx.outputs) else 0
  }

  lemma TxConserves(c: Crypto, u: Utxos, tx: Transaction, now: u64)
    requires ApplyTx(c, u, tx, now).Some?
    ensures Value(ApplyTx(c, u, tx, now).value) + FeeOf(tx) == Value(u) + IssueOf(tx)
  {
    SpendTakes(u, tx.inputs);
    SaveGives(Fold(SpendInput(), u, tx.inputs).value, TxId(c, tx), tx.outputs, |tx.outputs|);
    assert tx.outputs[..|tx.outputs|] == tx.outputs;
  }

  /**
   Conservation: a block changes the value in circulation by what its input-less transactions issue,
   less the fees of the others.
   */
  lemma BlockConserves(c: Crypto, t: Tables, b: Block, now: u64)
    requires ApplyBlock(c, t, b, now).Some?
    ensures Value(ApplyBlock(c, t, b, now).value.utxos) + Sum(FeeOf, b.transactions)
         == Value(t.utxos) + Sum(IssueOf, b.transactions)
  {
    var step := TxStep(c, now);
    forall u, tx | step(u, tx).Some?
      ensures Value(step(u, tx).value) + FeeOf(tx) == Value(u) + IssueOf(tx)
    {
      TxConserves(c, u, tx, now);
    }
    FoldBalances(step, Value, IssueOf, FeeOf, t.utxos, b.transactions);
  }
}
