/**
 A replay. Ids are free text, so an output that was spent can be created again under its id, and then the
 signed transaction that spent it is accepted again as it is, in a later block.
 */
module Replayed {
  import opened Bytes
  import opened Types
  import opened Codec
  import opened Consensus
  import opened BlockRoot
  import opened Chain
  import opened Folds
  import opened Ledger
  import opened SpendOnce
  import opened Replay
  import opened NodeRuns

  const WORTH: u64 := 5

  /** A key, and its signatures under a transfer from output 1 to output 2 and under one back. */
  datatype Owner = Owner(key: Text, there: Text, back: Text)

  /** Moves the only output of `from` to an output of `to` for the same owner, for no fee. */
  function Mover(address: Text, from: byte, to: byte, key: Text, signature: Text): Transaction
  {
    Transaction([to], [TxInput([from], 0, signature, key)], [TxOutput(address, WORTH)], 0, 0)
  }

  function There(c: Crypto, o: Owner): Transaction
  {
    Mover(AddressOf(c, o.key), 1, 2, o.key, o.there)
  }

  function Back(c: Crypto, o: Owner): Transaction
  {
    Mover(AddressOf(c, o.key), 2, 1, o.key, o.back)
  }

  /** The key parses and the signatures are valid. */
  predicate HasSigned(c: Crypto, o: Owner)
  {
    && o.key != [] && c.wholeKey(o.key) && o.there != [] && o.back != []
    && c.validSig(o.key, EncTx(Unsigned(There(c, o))), o.there)
    && c.validSig(o.key, EncTx(Unsigned(Back(c, o))), o.back)
  }

  // ---------- the transfers ----------

  function Holding(address: Text, id: byte): Utxos
  {
    map[([id], 0) := Coin(address, WORTH)]
  }

  lemma OneByteStored(b: byte)
    requires b != 0
    ensures Stored([b]) == [b]
  {
  }

  predicate Owns(c: Crypto, key: Text, address: Text)
  {
    address != [] && Stored(address) == address && AddressOf(c, key) == address
  }

  lemma OwnerHasAddress(c: Crypto, key: Text)
    requires key != [] && c.wholeKey(key)
    ensures Owns(c, key, AddressOf(c, key))
  {
    HexDigitsOnly(c.sha(key)[..20]);
  }

  lemma MoverVerifies(c: Crypto, address: Text, from: byte, to: byte, key: Text, signature: Text, now: u64)
    requires address != [] && key != [] && signature != []
    requires c.validSig(key, EncTx(Unsigned(Mover(address, from, to, key, signature))), signature)
    ensures var t := Mover(address, from, to, key, signature); VerifyTx(c, t, now) && SumOutputs(t.outputs) == WORTH
  {
    SumOne(AmountOf, TxOutput(address, WORTH));
  }

  lemma MoverWorth(address: Text, from: byte, i: TxInput)
    requires from != 0 && KeyOf(i) == ([from], 0)
    ensures Sum(Worth(Holding(address, from)), [i]) == WORTH
  {
    SumOne(Worth(Holding(address, from)), i);
  }

  lemma MoverValid(c: Crypto, address: Text, from: byte, to: byte, key: Text, signature: Text, now: u64)
    requires from != 0 && Owns(c, key, address)
    requires VerifyTx(c, Mover(address, from, to, key, signature), now)
    requires SumOutputs(Mover(address, from, to, key, signature).outputs) == WORTH
    ensures ValidInputs(c, Holding(address, from), Mover(address, from, to, key, signature), now)
  {
    OneByteStored(from);
    MoverWorth(address, from, TxInput([from], 0, signature, key));
  }

  lemma MoverSpends(address: Text, from: byte, i: TxInput)
    requires from != 0 && KeyOf(i) == ([from], 0)
    ensures Fold(SpendInput(), Holding(address, from), [i]) == Some(map[])
  {
    var u, ins := Holding(address, from), [i];
    assert ins[..0] == [];
    assert Fold(SpendInput(), u, ins[..0]) == Some(u);
    assert u - {([from], 0)} == map[];
  }

  lemma MoverSaves(address: Text, to: byte)
    requires to != 0 && address != [] && Stored(address) == address
    ensures SaveFirst(map[], [to], [TxOutput(address, WORTH)], 1) == Some(Holding(address, to))
  {
    OneByteStored(to);
    assert SaveFirst(map[], [to], [TxOutput(address, WORTH)], 0) == Some(map[]);
  }

  /** A signed transfer is valid and moves the output. */
  lemma MoverApplies(c: Crypto, address: Text, from: byte, to: byte, key: Text, signature: Text, now: u64)
    requires from != 0 && to != 0 && key != [] && signature != [] && Owns(c, key, address)
    requires c.validSig(key, EncTx(Unsigned(Mover(address, from, to, key, signature))), signature)
    ensures var t := Mover(address, from, to, key, signature);
            VerifyTx(c, t, now) && ApplyTx(c, Holding(address, from), t, now) == Some(Holding(address, to))
  {
    MoverVerifies(c, address, from, to, key, signature, now);
    MoverValid(c, address, from, to, key, signature, now);
    OneByteStored(from);
    MoverSpends(address, from, TxInput([from], 0, signature, key));
    MoverSaves(address, to);
  }

  // ---------- blocks of one transaction ----------

  const PROPOSER: Text := [112]

  const REGISTRY: seq<Validator> := [Validator(PROPOSER, MIN_STAKE, U64_MAX, 0, [])]

  const NOON: Clock := Clock(GENESIS_TIME, GENESIS_TIME, GENESIS_TIME)

  /** One validator, who proposes every block. */
  function OneProposer(c: Crypto): Setup
  {
    Setup(Engine(c, (_, _) => PROPOSER, (_, _) => true, x => x), true)
  }

  function BlockWith(c: Crypto, chain: seq<Block>, tx: Transaction): Block
    requires 0 < |chain| < U32_SIZE
  {
    Block(1, |chain|, BlockHash(c, Tip(chain)), TreeHash(c.sha, [tx]), GENESIS_TIME, 0,
          PROPOSER, MIN_STAKE, 0, [], [], [tx])
  }

  /** A node at genesis time whose next height has not been proposed yet. */
  ghost predicate Ready(n: Node)
  {
    && 0 < |n.Chain()| < U32_SIZE && Tip(n.Chain()).timestamp == GENESIS_TIME
    && n.view.consensus.validators == REGISTRY
    && forall k | k in n.view.consensus.seen :: k.0 < |n.Chain()|
  }

  lemma ProposalPasses(c: Crypto, n: Node, tx: Transaction)
    requires Ready(n)
    ensures var b := BlockWith(c, n.Chain(), tx);
            var (ok, s) := Propose(OneProposer(c), n.view.consensus, b);
            ok && s.validators == REGISTRY && forall k | k in s.seen :: k.0 < |n.Chain()| + 1
  {
    assert Find(REGISTRY, PROPOSER) == 0;
  }

  lemma BodyPasses(c: Crypto, n: Node, tx: Transaction)
    requires Ready(n) && VerifyTx(c, tx, GENESIS_TIME)
    ensures BodyOk(c, BlockWith(c, n.Chain(), tx), GENESIS_TIME)
  {
  }

  lemma BlockApplies(c: Crypto, t: Tables, b: Block, w: Utxos)
    requires |b.transactions| == 1 && ApplyTx(c, t.utxos, b.transactions[0], GENESIS_TIME) == Some(w)
    ensures ApplyBlock(c, t, b, GENESIS_TIME).Some? && ApplyBlock(c, t, b, GENESIS_TIME).value.utxos == w
  {
    var txs, step := b.transactions, TxStep(c, GENESIS_TIME);
    assert txs[..0] == [] && txs[..1] == txs;
    FoldSnoc(step, t.utxos, txs, 0);
  }

  /** A ready node accepts a block with any transaction that verifies and applies, and is ready again. */
  lemma ReadyAccepts(c: Crypto, n: Node, tx: Transaction, w: Utxos)
    requires Ready(n) && |n.Chain()| < U32_SIZE - 1
    requires VerifyTx(c, tx, GENESIS_TIME) && ApplyTx(c, n.tables.utxos, tx, GENESIS_TIME) == Some(w)
    ensures var b := BlockWith(c, n.Chain(), tx);
            var (ok, m) := Accept(OneProposer(c), n, b, NOON);
            ok && m.Chain() == n.Chain() + [b] && m.tables.utxos == w && Ready(m)
  {
    var b := BlockWith(c, n.Chain(), tx);
    ProposalPasses(c, n, tx);
    BodyPasses(c, n, tx);
    BlockApplies(c, n.tables, b, w);
    AcceptIsAtomic(OneProposer(c), n, b, NOON);
  }

  // ---------- the replay ----------

  function Start(c: Crypto, o: Owner): Node
  {
    Node(View([GENESIS], State(map[], REGISTRY)), Tables(Holding(AddressOf(c, o.key), 1), map[], map[], map[]))
  }

  lemma RunNext(u: Setup, start: Node, steps: seq<Step>, b: Block)
    requires AllTimely(steps) && Run(u, start, steps).Chain() != []
    ensures AllTimely(steps + [Offered(b, NOON)])
    ensures Run(u, start, steps + [Offered(b, NOON)]) == Accept(u, Run(u, start, steps), b, NOON).1
  {
    var longer := steps + [Offered(b, NOON)];
    assert longer[..|steps|] == steps;
  }

  /** Having taken the steps the node is ready, with this chain and these unspent outputs. */
  ghost predicate Reached(c: Crypto, start: Node, steps: seq<Step>, chain: seq<Block>, w: Utxos)
  {
    var n := Run(OneProposer(c), start, steps);
    AllTimely(steps) && Ready(n) && n.Chain() == chain && n.tables.utxos == w
  }

  /** A transaction that is valid and leads from some unspent outputs to others. */
  ghost predicate Leads(c: Crypto, u: Utxos, tx: Transaction, w: Utxos)
  {
    VerifyTx(c, tx, GENESIS_TIME) && ApplyTx(c, u, tx, GENESIS_TIME) == Some(w)
  }

  /** Offers a ready node a block with the transaction. */
  lemma OfferNext(c: Crypto, start: Node, steps: seq<Step>, chain: seq<Block>, u: Utxos, tx: Transaction, w: Utxos)
    returns (longer: seq<Step>, b: Block)
    requires Reached(c, start, steps, chain, u) && |chain| < U32_SIZE - 1
    requires Leads(c, u, tx, w)
    ensures b.transactions == [tx] && Reached(c, start, longer, chain + [b], w)
  {
    var n := Run(OneProposer(c), start, steps);
    b := BlockWith(c, chain, tx);
    ReadyAccepts(c, n, tx, w);
    RunNext(OneProposer(c), start, steps, b);
    longer := steps + [Offered(b, NOON)];
  }

  /** Blocks with the transfer, the transfer back, and the transfer again. */
  ghost predicate Transfers(c: Crypto, o: Owner, added: seq<Block>)
  {
    && |added| == 3 && added[0].transactions == [There(c, o)]
    && added[1].transactions == [Back(c, o)] && added[2].transactions == [There(c, o)]
  }

  /** The output is where it was, or where the transfer takes it. */
  function Before(c: Crypto, o: Owner): Utxos
  {
    Holding(AddressOf(c, o.key), 1)
  }

  function Behind(c: Crypto, o: Owner): Utxos
  {
    Holding(AddressOf(c, o.key), 2)
  }

  lemma TransfersLead(c: Crypto, o: Owner)
    requires HasSigned(c, o)
    ensures Leads(c, Before(c, o), There(c, o), Behind(c, o)) && Leads(c, Behind(c, o), Back(c, o), Before(c, o))
  {
    OwnerHasAddress(c, o.key);
    MoverApplies(c, AddressOf(c, o.key), 1, 2, o.key, o.there, GENESIS_TIME);
    MoverApplies(c, AddressOf(c, o.key), 2, 1, o.key, o.back, GENESIS_TIME);
  }

  lemma StartReached(c: Crypto, o: Owner)
    ensures Reached(c, Start(c, o), [], [GENESIS], Before(c, o))
  {
  }

  /** A node takes three transactions that lead on from one another, block by block. */
  lemma ThreeReached(c: Crypto, start: Node, u: Utxos, t: Transaction, v: Utxos, b: Transaction)
    returns (steps: seq<Step>, added: seq<Block>)
    requires Reached(c, start, [], [GENESIS], u) && Leads(c, u, t, v) && Leads(c, v, b, u)
    ensures |added| == 3 && added[0].transactions == added[2].transactions == [t] && added[1].transactions == [b]
    ensures Reached(c, start, steps, [GENESIS] + added, v)
  {
    var first, x := OfferNext(c, start, [], [GENESIS], u, t, v);
    var second, y := OfferNext(c, start, first, [GENESIS] + [x], v, b, u);
    var third, z := OfferNext(c, start, second, [GENESIS] + [x] + [y], u, t, v);
    steps, added := third, [x, y, z];
    assert [GENESIS] + [x] + [y] + [z] == [GENESIS] + added;
  }

  lemma MoverMoves(c: Crypto, t: Transaction, from: byte, to: byte)
    requires from != 0 && to != 0 && t.id == [to] && |t.inputs| == |t.outputs| == 1
    requires t.inputs[0].prevTxHash == [from] && t.inputs[0].prevOutputIdx == 0
    ensures TxMoves(c)(t) == [Spent(([from], 0)), Created(([to], 0))]
  {
    OneByteStored(from);
    OneByteStored(to);
    assert t.inputs[..0] == [];
    assert Flat(InputMoves, t.inputs) == InputMoves(t.inputs[0]);
  }

  lemma TwiceAmong<E>(s: seq<E>, x: E, y: E)
    requires s == [x] + [y] + [x] && x != y
    ensures multiset(s)[x] == 2
  {
  }

  lemma OnceAmong<E>(s: seq<E>, x: E, t: seq<E>, u: seq<E>)
    requires s == t + u + t && x !in t && multiset(u)[x] == 1
    ensures multiset(s)[x] == 1
  {
    assert x !in multiset(t);
  }

  lemma TransfersCounted(c: Crypto, o: Owner, added: seq<Block>)
    requires Transfers(c, o, added)
    ensures multiset(Flat(TransactionsOf, added))[There(c, o)] == 2
  {
    FlatThree(TransactionsOf, added);
    assert There(c, o).id != Back(c, o).id;
    TwiceAmong(Flat(TransactionsOf, added), There(c, o), Back(c, o));
  }

  lemma BlockMovesOne(c: Crypto, b: Block, tx: Transaction)
    requires b.transactions == [tx]
    ensures BlockMoves(c)(b) == TxMoves(c)(tx)
  {
    assert [tx][..0] == [];
    assert Flat(TxMoves(c), [tx]) == [] + TxMoves(c)(tx);
  }

  lemma CreationsCounted(c: Crypto, o: Owner, added: seq<Block>)
    requires Transfers(c, o, added)
    ensures multiset(Flat(BlockMoves(c), added))[Created(([1], 0))] == 1
  {
    MoverMoves(c, There(c, o), 1, 2);
    MoverMoves(c, Back(c, o), 2, 1);
    BlockMovesOne(c, added[0], There(c, o));
    BlockMovesOne(c, added[1], Back(c, o));
    BlockMovesOne(c, added[2], There(c, o));
    FlatThree(BlockMoves(c), added);
    OnceAmong(Flat(BlockMoves(c), added), Created(([1], 0)), TxMoves(c)(There(c, o)), TxMoves(c)(Back(c, o)));
  }

  /**
   Whoever has signed the two transfers: there is a run in which one of them stands in two accepted blocks.
   The output it spends came into being twice, so the bound of `NodeRuns.RunsApplyAtMost` is reached.
   */
  lemma AppliedTwice(c: Crypto, o: Owner) returns (steps: seq<Step>, added: seq<Block>)
    requires HasSigned(c, o)
    ensures Good(OneProposer(c), Start(c, o)) && AllTimely(steps)
    ensures Run(OneProposer(c), Start(c, o), steps).Chain() == Start(c, o).Chain() + added
    ensures multiset(Flat(TransactionsOf, added))[There(c, o)] == 2
         == Births(Keys(Start(c, o).tables.utxos), Flat(BlockMoves(c), added), KeyOf(There(c, o).inputs[0]))
  {
    var start := Start(c, o);
    GenesisIsGood(OneProposer(c), start.view.consensus, start.tables);
    StartReached(c, o);
    TransfersLead(c, o);
    steps, added := ThreeReached(c, start, Before(c, o), There(c, o), Behind(c, o), Back(c, o));
    TransfersCounted(c, o, added);
    CreationsCounted(c, o, added);
    OneByteStored(1);
  }
}
