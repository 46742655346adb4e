/**
 Outputs are spent at most once per creation. The history of a ledger is read off the transactions
 alone, and replayed on a set of keys by a machine that refuses to create what exists and to spend
 what does not.
 */
module SpendOnce {
  import opened Bytes
  import opened Types
  import opened Folds
  import opened Ledger

  datatype Move = Created(key: Key) | Spent(key: Key)

  function Play(keys: set<Key>, m: Move): Option<set<Key>>
  {
    match m
    case Created(k) => if k in keys then None else Some(keys + {k})
    case Spent(k) => if k in keys then Some(keys - {k}) else None
  }

  // ---------- the history of a block ----------

  function InputMoves(i: TxInput): seq<Move>
  {
    [Spent(KeyOf(i))]
  }

  function OutputMoves(txId: Text, n: nat): (moves: seq<Move>)
    ensures |moves| == n
  {
    seq(n, i => Created((Stored(txId), i % U32_SIZE)))
  }

  function TxMoves(c: Crypto): Transaction -> seq<Move>
  {
    (tx: Transaction) => Flat(InputMoves, tx.inputs) + OutputMoves(TxId(c, tx), |tx.outputs|)
  }

  function BlockMoves(c: Crypto): Block -> seq<Move>
  {
    (b: Block) => Flat(TxMoves(c), b.transactions)
  }

  function Keys(u: Utxos): set<Key>
  {
    u.Keys
  }

  lemma SpendingPlays()
    ensures Simulates(SpendInput(), Keys, Play, InputMoves)
  {
    forall u, i | SpendInput()(u, i).Some?
      ensures Fold(Play, Keys(u), InputMoves(i)) == Some(Keys(SpendInput()(u, i).value))
    {
      assert InputMoves(i)[..0] == [];
      assert Fold(Play, Keys(u), []) == Some(Keys(u));
      assert (u - {KeyOf(i)}).Keys == u.Keys - {KeyOf(i)};
    }
  }

  lemma SaveAdds(u: Utxos, txId: Text, index: u32, o: TxOutput)
    requires Save(u, txId, index, o).Some?
    ensures Play(Keys(u), Created((Stored(txId), index))) == Some(Keys(Save(u, txId, index, o).value))
  {
    var key := (Stored(txId), index);
    assert Save(u, txId, index, o).value.Keys == u.Keys + {key};
  }

  lemma {:induction false} SavingPlays(u: Utxos, txId: Text, outs: seq<TxOutput>, n: nat)
    requires n <= |outs| && SaveFirst(u, txId, outs, n).Some?
    ensures Fold(Play, Keys(u), OutputMoves(txId, n)) == Some(Keys(SaveFirst(u, txId, outs, n).value))
  {
    if n > 0 {
      SavingPlays(u, txId, outs, n - 1);
      assert OutputMoves(txId, n)[..n - 1] == OutputMoves(txId, n - 1);
      SaveAdds(SaveFirst(u, txId, outs, n - 1).value, txId, (n - 1) % U32_SIZE, outs[n - 1]);
    }
  }

  lemma TxPlays(c: Crypto, u: Utxos, tx: Transaction, now: u64)
    requires ApplyTx(c, u, tx, now).Some?
    ensures Fold(Play, Keys(u), TxMoves(c)(tx)) == Some(Keys(ApplyTx(c, u, tx, now).value))
  {
    SpendingPlays();
    FoldSimulates(SpendInput(), Keys, Play, InputMoves, u, tx.inputs);
    SavingPlays(Fold(SpendInput(), u, tx.inputs).value, TxId(c, tx), tx.outputs, |tx.outputs|);
    FoldAppend(Play, Keys(u), Flat(InputMoves, tx.inputs), OutputMoves(TxId(c, tx), |tx.outputs|));
  }

  /** An applied block is a legal history, and leads to the keys that are left. */
  lemma BlockPlays(c: Crypto, t: Tables, b: Block, now: u64)
    requires ApplyBlock(c, t, b, now).Some?
    ensures Fold(Play, Keys(t.utxos), BlockMoves(c)(b)) == Some(Keys(ApplyBlock(c, t, b, now).value.utxos))
  {
    var step := TxStep(c, now);
    forall u, tx | step(u, tx).Some?
      ensures Fold(Play, Keys(u), TxMoves(c)(tx)) == Some(Keys(step(u, tx).value))
    {
      TxPlays(c, u, tx, now);
    }
    FoldSimulates(step, Keys, Play, TxMoves(c), t.utxos, b.transactions);
  }

  // ---------- what a legal history looks like ----------

  /** Creations less spends of a key. */
  function Net(moves: seq<Move>, k: Key): int
  {
    multiset(moves)[Created(k)] as int - multiset(moves)[Spent(k)]
  }

  function Held(keys: set<Key>, k: Key): int
  {
    if k in keys then 1 else 0
  }

  /** What a move does to the count of a key. */
  function Shift(m: Move, k: Key): int
  {
    if m == Created(k) then 1 else if m == Spent(k) then -1 else 0
  }

  lemma NetSnoc(moves: seq<Move>, m: Move, k: Key)
    ensures Net(moves + [m], k) == Net(moves, k) + Shift(m, k)
  {
  }

  lemma PlayShifts(keys: set<Key>, m: Move, k: Key)
    requires Play(keys, m).Some?
    ensures Held(Play(keys, m).value, k) == Held(keys, k) + Shift(m, k)
  {
  }

  /** Membership in the set of unspent keys is the number of creations less the number of spends. */
  lemma {:induction false} NetIsMembership(keys: set<Key>, moves: seq<Move>, k: Key)
    requires Fold(Play, keys, moves).Some?
    ensures Held(keys, k) + Net(moves, k) == Held(Fold(Play, keys, moves).value, k)
  {
    if moves != [] {
      var before, m := moves[..|moves| - 1], moves[|moves| - 1];
      assert moves == before + [m];
      NetIsMembership(keys, before, k);
      NetSnoc(before, m, k);
      PlayShifts(Fold(Play, keys, before).value, m, k);
    }
  }

  /** At every moment of a legal history that count is 0 or 1. */
  lemma NetStaysBinary(keys: set<Key>, moves: seq<Move>, i: nat, k: Key)
    requires i <= |moves| && Fold(Play, keys, moves).Some?
    ensures 0 <= Held(keys, k) + Net(moves[..i], k) <= 1
  {
    if Fold(Play, keys, moves[..i]).None? {
      FoldFails(Play, keys, moves, i);
    } else {
      NetIsMembership(keys, moves[..i], k);
    }
  }

  lemma {:induction false} NetWithin(moves: seq<Move>, i: nat, j: nat, k: Key)
    requires i <= j <= |moves|
    requires Net(moves[..j], k) > Net(moves[..i], k)
    ensures exists m | i <= m < j :: moves[m] == Created(k)
    decreases j
  {
    if i < j && moves[j - 1] != Created(k) {
      assert moves[..j] == moves[..j - 1] + [moves[j - 1]];
      NetSnoc(moves[..j - 1], moves[j - 1], k);
      NetWithin(moves, i, j - 1, k);
    }
  }

  /** Between two spends of one output lies a creation of it: nothing is spent twice. */
  lemma NoDoubleSpend(keys: set<Key>, moves: seq<Move>, i: nat, j: nat, k: Key)
    requires i < j < |moves| && Fold(Play, keys, moves).Some?
    requires moves[i] == Spent(k) && moves[j] == Spent(k)
    ensures exists m | i < m < j :: moves[m] == Created(k)
  {
    assert moves[..i + 1] == moves[..i] + [moves[i]] && moves[..j + 1] == moves[..j] + [moves[j]];
    NetSnoc(moves[..i], moves[i], k);
    NetSnoc(moves[..j], moves[j], k);
    NetStaysBinary(keys, moves, i, k);
    NetStaysBinary(keys, moves, i + 1, k);
    NetStaysBinary(keys, moves, j, k);
    NetStaysBinary(keys, moves, j + 1, k);
    NetWithin(moves, i + 1, j, k);
  }
}
