/**
 What the table of unspent outputs holds (src/db/mermai_db.cpp): which rows an applied transaction leaves, and
 where every row and every missing row of any run comes from.
 */
module Outputs {
  import opened Bytes
  import opened Types
  import opened BlockRoot
  import opened Admission
  import opened Folds
  import opened Ledger
  import opened Ownership

  // ---------- the rows of one transaction ----------

  /** The key under which output `i` of a transaction is stored. */
  function Place(c: Crypto, tx: Transaction, i: nat): Key
  {
    (Stored(if tx.id == [] then TxHash(c.sha, tx) else tx.id), i % U32_SIZE)
  }

  /** The row of an output. */
  function RowFor(o: TxOutput): Coin
  {
    Coin(Stored(o.address), o.amount)
  }

  /** Output `i` of the transaction is this row under this key. */
  predicate CreatesAt(c: Crypto, tx: Transaction, i: nat, k: Key, coin: Coin)
  {
    i < |tx.outputs| && k == Place(c, tx, i) && coin == RowFor(tx.outputs[i])
  }

  predicate Places(c: Crypto, tx: Transaction, n: nat, k: Key)
  {
    exists i | 0 <= i < n :: k == Place(c, tx, i)
  }

  /** Output `i` is where it belongs. */
  lemma {:induction false} SavedAt(c: Crypto, u: Utxos, tx: Transaction, n: nat, i: nat)
    requires i < n <= |tx.outputs| && SaveFirst(u, TxId(c, tx), tx.outputs, n).Some?
    ensures Holds(SaveFirst(u, TxId(c, tx), tx.outputs, n).value, Place(c, tx, i), RowFor(tx.outputs[i]))
  {
    if i < n - 1 {
      SavedAt(c, u, tx, n - 1, i);
    }
  }

  /** Nothing else has changed, and what is new was not there before. */
  lemma {:induction false} SavedElse(c: Crypto, u: Utxos, tx: Transaction, n: nat, k: Key)
    requires n <= |tx.outputs| && SaveFirst(u, TxId(c, tx), tx.outputs, n).Some?
    ensures var w := SaveFirst(u, TxId(c, tx), tx.outputs, n).value;
            if Places(c, tx, n, k) then k in w && k !in u && exists i :: CreatesAt(c, tx, i, k, w[k])
            else (k in w <==> k in u) && (k in w ==> w[k] == u[k])
  {
    if n > 0 {
      SavedElse(c, u, tx, n - 1, k);
      var at := Place(c, tx, n - 1);
      var v, w := SaveFirst(u, TxId(c, tx), tx.outputs, n - 1).value, SaveFirst(u, TxId(c, tx), tx.outputs, n).value;
      assert w == v[at := RowFor(tx.outputs[n - 1])] && at !in v;
      assert Places(c, tx, n, k) <==> Places(c, tx, n - 1, k) || k == at;
      if k == at {
        assert CreatesAt(c, tx, n - 1, k, w[k]);
      }
    }
  }

  predicate NamedBy(ins: seq<TxInput>, k: Key)
  {
    exists i | 0 <= i < |ins| :: KeyOf(ins[i]) == k
  }

  lemma NamedLast(ins: seq<TxInput>, k: Key)
    requires ins != []
    ensures NamedBy(ins, k) <==> NamedBy(ins[..|ins| - 1], k) || KeyOf(ins[|ins| - 1]) == k
  {
    var n := |ins| - 1;
    if i :| 0 <= i < |ins| && KeyOf(ins[i]) == k {
      assert i == n || ins[..n][i] == ins[i];
    }
    if i :| 0 <= i < n && KeyOf(ins[..n][i]) == k {
      assert ins[i] == ins[..n][i];
    }
  }

  lemma {:induction false} SpentElse(u: Utxos, ins: seq<TxInput>, k: Key)
    requires Fold(SpendInput(), u, ins).Some?
    ensures var w := Fold(SpendInput(), u, ins).value;
            (k in w <==> k in u && !NamedBy(ins, k)) && (k in w ==> w[k] == u[k])
  {
    if ins != [] {
      SpentElse(u, ins[..|ins| - 1], k);
      NamedLast(ins, k);
    }
  }

  lemma Applied(c: Crypto, u: Utxos, tx: Transaction, now: u64) returns (v: Utxos)
    requires ApplyTx(c, u, tx, now).Some?
    ensures Fold(SpendInput(), u, tx.inputs) == Some(v)
    ensures SaveFirst(v, TxId(c, tx), tx.outputs, |tx.outputs|) == ApplyTx(c, u, tx, now)
  {
    v := Fold(SpendInput(), u, tx.inputs).value;
  }

  /** What a transaction leaves under a key: its own output there, or what was there and no input named. */
  ghost predicate RowExactly(c: Crypto, u: Utxos, tx: Transaction, w: Utxos, k: Key)
  {
    if Places(c, tx, |tx.outputs|, k) then k in w && exists i :: CreatesAt(c, tx, i, k, w[k])
    else (k in w <==> k in u && !NamedBy(tx.inputs, k)) && (k in w ==> w[k] == u[k])
  }

  /**
   The table after a transaction: at each of its places exactly address and amount of that output, and
   elsewhere what was there before, unless an input of the transaction named it.
   */
  lemma RowsExactly(c: Crypto, u: Utxos, tx: Transaction, now: u64)
    requires ApplyTx(c, u, tx, now).Some?
    ensures var w := ApplyTx(c, u, tx, now).value;
            && (forall i | 0 <= i < |tx.outputs| :: Holds(w, Place(c, tx, i), RowFor(tx.outputs[i])))
            && forall k :: RowExactly(c, u, tx, w, k)
  {
    var v := Applied(c, u, tx, now);
    var w := ApplyTx(c, u, tx, now).value;
    forall i | 0 <= i < |tx.outputs| ensures Holds(w, Place(c, tx, i), RowFor(tx.outputs[i])) {
      SavedAt(c, v, tx, |tx.outputs|, i);
    }
    forall k ensures RowExactly(c, u, tx, w, k) {
      SavedElse(c, v, tx, |tx.outputs|, k);
      SpentElse(u, tx.inputs, k);
    }
  }

  // ---------- which transactions apply ----------

  /** The inputs name different stored rows. */
  predicate NamesDifferent(u: Utxos, ins: seq<TxInput>)
  {
    && (forall i | 0 <= i < |ins| :: KeyOf(ins[i]) in u)
    && forall i, j | 0 <= i < j < |ins| :: KeyOf(ins[i]) != KeyOf(ins[j])
  }

  lemma DifferentLast(u: Utxos, ins: seq<TxInput>)
    requires ins != []
    ensures var n := |ins| - 1;
            NamesDifferent(u, ins)
            <==> NamesDifferent(u, ins[..n]) && KeyOf(ins[n]) in u && !NamedBy(ins[..n], KeyOf(ins[n]))
  {
    var n := |ins| - 1;
    assert forall i | 0 <= i < n :: ins[..n][i] == ins[i];
  }

  lemma {:induction false} SpendsExactly(u: Utxos, ins: seq<TxInput>)
    ensures Fold(SpendInput(), u, ins).Some? <==> NamesDifferent(u, ins)
  {
    if ins != [] {
      var n := |ins| - 1;
      SpendsExactly(u, ins[..n]);
      DifferentLast(u, ins);
      if Fold(SpendInput(), u, ins[..n]).Some? {
        SpentElse(u, ins[..n], KeyOf(ins[n]));
      }
    }
  }

  /** What the columns of the table take. */
  predicate Storable(o: TxOutput)
  {
    o.address != [] && 0 < o.amount < 0x8000_0000_0000_0000
  }

  /** The first `n` outputs can be stored, under different free places. */
  predicate Fits(c: Crypto, u: Utxos, tx: Transaction, n: nat)
    requires n <= |tx.outputs|
  {
    && (forall i | 0 <= i < n :: Storable(tx.outputs[i]) && Place(c, tx, i) !in u)
    && forall i, j | 0 <= i < j < n :: Place(c, tx, i) != Place(c, tx, j)
  }

  lemma FitsLast(c: Crypto, u: Utxos, tx: Transaction, n: nat)
    requires 0 < n <= |tx.outputs|
    ensures Fits(c, u, tx, n)
       <==> && Fits(c, u, tx, n - 1) && Storable(tx.outputs[n - 1]) && Place(c, tx, n - 1) !in u
            && !Places(c, tx, n - 1, Place(c, tx, n - 1))
  {
  }

  lemma {:induction false} SavesExactly(c: Crypto, u: Utxos, tx: Transaction, n: nat)
    requires n <= |tx.outputs|
    ensures SaveFirst(u, TxId(c, tx), tx.outputs, n).Some? <==> Fits(c, u, tx, n)
  {
    if n > 0 {
      SavesExactly(c, u, tx, n - 1);
      FitsLast(c, u, tx, n);
      if SaveFirst(u, TxId(c, tx), tx.outputs, n - 1).Some? {
        SavedElse(c, u, tx, n - 1, Place(c, tx, n - 1));
      }
    }
  }

  /** What the rows that inputs name are worth together. */
  function Brought(u: Utxos, ins: seq<TxInput>): nat
  {
    if ins == [] then 0 else (if KeyOf(ins[0]) in u then u[KeyOf(ins[0])].amount else 0) + Brought(u, ins[1..])
  }

  lemma {:induction false} BroughtSnoc(u: Utxos, ins: seq<TxInput>, i: TxInput)
    ensures Brought(u, ins + [i]) == Brought(u, ins) + if KeyOf(i) in u then u[KeyOf(i)].amount else 0
  {
    if ins == [] {
      assert ins + [i] == [i] && [i][1..] == [];
    } else {
      assert (ins + [i])[1..] == ins[1..] + [i];
      BroughtSnoc(u, ins[1..], i);
    }
  }

  lemma {:induction false} BroughtIsSum(u: Utxos, ins: seq<TxInput>)
    ensures Brought(u, ins) == Sum(Worth(u), ins)
  {
    if ins != [] {
      var n := |ins| - 1;
      BroughtIsSum(u, ins[..n]);
      BroughtSnoc(u, ins[..n], ins[n]);
      assert ins == ins[..n] + [ins[n]];
    }
  }

  const MRM1: Text := [109, 114, 109, 49]  // "mrm1"

  /** The input names a row of the address that its key hashes to. */
  predicate Owned(c: Crypto, u: Utxos, i: TxInput)
  {
    KeyOf(i) in u && i.publicKey != [] && c.wholeKey(i.publicKey)
    && u[KeyOf(i)].address == MRM1 + Hex(c.sha(i.publicKey)[..20])
  }

  /** Valid in itself, and its inputs are the signers' and worth exactly the outputs and the fee. */
  predicate Spendable(c: Crypto, u: Utxos, tx: Transaction, now: u64)
  {
    && Payable(c, tx, now)
    && (forall i | 0 <= i < |tx.inputs| :: Owned(c, u, tx.inputs[i]))
    && Brought(u, tx.inputs) == tx.fee + Paid(tx.outputs) < 0x1_0000_0000_0000_0000
  }

  lemma OwnedExactly(c: Crypto, u: Utxos, i: TxInput)
    ensures Redeems(c, u, i) <==> Owned(c, u, i)
  {
    assert MRM1 + Hex(c.sha(i.publicKey)[..20]) != [];
  }

  lemma SpendableExactly(c: Crypto, u: Utxos, tx: Transaction, now: u64)
    ensures ValidInputs(c, u, tx, now) <==> Spendable(c, u, tx, now)
  {
    VerifiesExactly(c, tx, now);
    BroughtIsSum(u, tx.inputs);
    PaidIsSum(tx.outputs);
    forall i | 0 <= i < |tx.inputs| ensures Redeems(c, u, tx.inputs[i]) <==> Owned(c, u, tx.inputs[i]) {
      OwnedExactly(c, u, tx.inputs[i]);
    }
  }

  /**
   Exactly when a transaction applies: unless it has no inputs it is spendable, its inputs name different
   rows, and its outputs can be stored under different places that are free once these rows are gone.
   */
  lemma AppliesExactly(c: Crypto, u: Utxos, tx: Transaction, now: u64)
    ensures ApplyTx(c, u, tx, now).Some?
       <==> && (tx.inputs == [] || Spendable(c, u, tx, now)) && NamesDifferent(u, tx.inputs)
            && (forall i | 0 <= i < |tx.outputs| ::
                  Storable(tx.outputs[i]) && (Place(c, tx, i) in u ==> NamedBy(tx.inputs, Place(c, tx, i))))
            && forall i, j | 0 <= i < j < |tx.outputs| :: Place(c, tx, i) != Place(c, tx, j)
  {
    SpendableExactly(c, u, tx, now);
    SpendsExactly(u, tx.inputs);
    if NamesDifferent(u, tx.inputs) {
      var v := Fold(SpendInput(), u, tx.inputs).value;
      SavesExactly(c, v, tx, |tx.outputs|);
      forall i | 0 <= i < |tx.outputs|
        ensures Place(c, tx, i) !in v <==> (Place(c, tx, i) in u ==> NamedBy(tx.inputs, Place(c, tx, i)))
      {
        SpentElse(u, tx.inputs, Place(c, tx, i));
      }
    }
  }

  // ---------- where rows come from and where they go ----------

  /** Some transaction of the list has this row as an output. */
  ghost predicate CreatedIn(c: Crypto, txs: seq<Transaction>, k: Key, coin: Coin)
  {
    exists j, i | 0 <= j < |txs| && 0 <= i < |txs[j].outputs| :: CreatesAt(c, txs[j], i, k, coin)
  }

  /** Some transaction from position `j` on names the output and is signed by its owner. */
  ghost predicate ReleasedFrom(c: Crypto, txs: seq<Transaction>, j: nat, k: Key, address: Text)
  {
    exists m | j <= m < |txs| :: Releases(c, txs[m], k, address)
  }

  /** A row that is still there, or was released by its owner from position `j` on. */
  ghost predicate Kept(c: Crypto, txs: seq<Transaction>, j: nat, u: Utxos, k: Key, coin: Coin)
  {
    Holds(u, k, coin) || ReleasedFrom(c, txs, j, k, coin.address)
  }

  /** Every row is an initial one or an output of the list; both kinds leave by their owners only. */
  ghost predicate Traced(c: Crypto, start: Utxos, txs: seq<Transaction>, u: Utxos)
  {
    && (forall k | k in u :: Holds(start, k, u[k]) || CreatedIn(c, txs, k, u[k]))
    && (forall k | k in start :: Kept(c, txs, 0, u, k, start[k]))
    && forall j, i | 0 <= j < |txs| && 0 <= i < |txs[j].outputs| ::
         Kept(c, txs, j + 1, u, Place(c, txs[j], i), RowFor(txs[j].outputs[i]))
  }

  lemma TracedAtStart(c: Crypto, start: Utxos)
    ensures Traced(c, start, [], start)
  {
  }

  lemma CreatedStays(c: Crypto, txs: seq<Transaction>, tx: Transaction, k: Key, coin: Coin)
    requires CreatedIn(c, txs, k, coin)
    ensures CreatedIn(c, txs + [tx], k, coin)
  {
    var j, i :| 0 <= j < |txs| && 0 <= i < |txs[j].outputs| && CreatesAt(c, txs[j], i, k, coin);
    assert CreatesAt(c, (txs + [tx])[j], i, k, coin);
  }

  lemma KeptStays(c: Crypto, txs: seq<Transaction>, j: nat, u: Utxos, tx: Transaction, now: u64, k: Key, coin: Coin)
    requires j <= |txs| && Kept(c, txs, j, u, k, coin) && ApplyTx(c, u, tx, now).Some?
    ensures Kept(c, txs + [tx], j, ApplyTx(c, u, tx, now).value, k, coin)
  {
    var all := txs + [tx];
    if Holds(u, k, coin) {
      TxReleases(c, u, tx, now, k, coin);
      if Releases(c, tx, k, coin.address) {
        assert Releases(c, all[|txs|], k, coin.address);
      }
    } else {
      var m :| j <= m < |txs| && Releases(c, txs[m], k, coin.address);
      assert Releases(c, all[m], k, coin.address);
    }
  }

  lemma RowFrom(c: Crypto, start: Utxos, txs: seq<Transaction>, u: Utxos, tx: Transaction, now: u64, k: Key)
    requires Traced(c, start, txs, u) && ApplyTx(c, u, tx, now).Some? && k in ApplyTx(c, u, tx, now).value
    ensures var w := ApplyTx(c, u, tx, now).value; Holds(start, k, w[k]) || CreatedIn(c, txs + [tx], k, w[k])
  {
    var w, all := ApplyTx(c, u, tx, now).value, txs + [tx];
    RowsExactly(c, u, tx, now);
    assert RowExactly(c, u, tx, w, k);
    if Places(c, tx, |tx.outputs|, k) {
      var i :| CreatesAt(c, tx, i, k, w[k]);
      assert CreatesAt(c, all[|txs|], i, k, w[k]);
    } else if !Holds(start, k, u[k]) {
      CreatedStays(c, txs, tx, k, u[k]);
    }
  }

  lemma TracedOn(c: Crypto, start: Utxos, txs: seq<Transaction>, u: Utxos, tx: Transaction, now: u64)
    requires Traced(c, start, txs, u) && ApplyTx(c, u, tx, now).Some?
    ensures Traced(c, start, txs + [tx], ApplyTx(c, u, tx, now).value)
  {
    var w, all := ApplyTx(c, u, tx, now).value, txs + [tx];
    forall k | k in w ensures Holds(start, k, w[k]) || CreatedIn(c, all, k, w[k]) {
      RowFrom(c, start, txs, u, tx, now, k);
    }
    forall k | k in start ensures Kept(c, all, 0, w, k, start[k]) {
      KeptStays(c, txs, 0, u, tx, now, k, start[k]);
    }
    forall j, i | 0 <= j < |all| && 0 <= i < |all[j].outputs|
      ensures Kept(c, all, j + 1, w, Place(c, all[j], i), RowFor(all[j].outputs[i]))
    {
      if j < |txs| {
        assert all[j] == txs[j];
        KeptStays(c, txs, j + 1, u, tx, now, Place(c, txs[j], i), RowFor(txs[j].outputs[i]));
      } else {
        RowsExactly(c, u, tx, now);
      }
    }
  }

  /** Over any transactions applied one after the other. */
  lemma {:induction false} TracedThrough(
    c: Crypto, start: Utxos, before: seq<Transaction>, u: Utxos, txs: seq<Transaction>, now: u64)
    requires Traced(c, start, before, u) && Fold(TxStep(c, now), u, txs).Some?
    ensures Traced(c, start, before + txs, Fold(TxStep(c, now), u, txs).value)
  {
    if txs == [] {
      assert before + txs == before;
    } else {
      var n := |txs| - 1;
      TracedThrough(c, start, before, u, txs[..n], now);
      TracedOn(c, start, before + txs[..n], Fold(TxStep(c, now), u, txs[..n]).value, txs[n], now);
      assert before + txs[..n] + [txs[n]] == before + txs;
    }
  }
}
