/** Transaction checks and the block chain of src/core/mermai_blockchain.cpp. */
module Chain {
  import opened Bytes
  import opened Types
  import opened Codec
  import opened BlockCodec
  import opened Consensus
  import opened BlockRoot
  import opened Folds
  import HashChain

  const CLOCK_SLACK := 120

  // ---------- transactions ----------

  function Unsign(i: TxInput): TxInput
  {
    i.(signature := [])
  }

  function Unsigned(tx: Transaction): Transaction
  {
    tx.(inputs := seq(|tx.inputs|, k requires 0 <= k < |tx.inputs| => Unsign(tx.inputs[k])))
  }

  function Outpoint(i: TxInput): (Text, u32)
  {
    (i.prevTxHash, i.prevOutputIdx)
  }

  function AmountOf(o: TxOutput): nat
  {
    o.amount
  }

  function SumOutputs(outs: seq<TxOutput>): nat
  {
    Sum(AmountOf, outs)
  }

  predicate InputsOk(ins: seq<TxInput>)
  {
    && (forall i | 0 <= i < |ins| :: ins[i].prevTxHash != [])
    && (forall i, j | 0 <= i < j < |ins| :: Outpoint(ins[i]) != Outpoint(ins[j]))
  }

  predicate OutputsOk(outs: seq<TxOutput>)
  {
    (forall i | 0 <= i < |outs| :: outs[i].address != [] && outs[i].amount > 0) && SumOutputs(outs) <= U64_MAX
  }

  predicate Signed(c: Crypto, payload: Text, i: TxInput)
  {
    i.signature != [] && i.publicKey != [] && c.validSig(i.publicKey, payload, i.signature)
  }

  /** `mermai_transaction::verify` at clock reading `now`. */
  predicate VerifyTx(c: Crypto, tx: Transaction, now: u64)
  {
    && tx.id != [] && tx.inputs != [] && tx.outputs != []
    && |tx.inputs| <= MAX_INPUTS && |tx.outputs| <= MAX_OUTPUTS
    && tx.timestamp <= now + CLOCK_SLACK
    && InputsOk(tx.inputs) && OutputsOk(tx.outputs)
    && forall i | 0 <= i < |tx.inputs| :: Signed(c, EncTx(Unsigned(tx)), tx.inputs[i])
  }

  lemma UnsignedFits(tx: Transaction)
    requires FitsTx(WIDEST, tx)
    ensures FitsTx(WIDEST, Unsigned(tx))
  {
    forall i | 0 <= i < |tx.inputs| ensures InputFits(WIDEST)(Unsigned(tx).inputs[i]) {
      assert InputFits(WIDEST)(tx.inputs[i]);
    }
  }

  /**
   A signature covers everything but the signatures: transactions with one signed text agree in id,
   outputs, fee and time, and input by input in the output spent and the key.
   */
  lemma SignatureCovers(a: Transaction, b: Transaction)
    requires FitsTx(WIDEST, a) && FitsTx(WIDEST, b) && EncTx(Unsigned(a)) == EncTx(Unsigned(b))
    ensures a.id == b.id && a.outputs == b.outputs && a.fee == b.fee && a.timestamp == b.timestamp
    ensures |a.inputs| == |b.inputs|
    ensures forall i | 0 <= i < |a.inputs| ::
              Outpoint(a.inputs[i]) == Outpoint(b.inputs[i]) && a.inputs[i].publicKey == b.inputs[i].publicKey
  {
    UnsignedFits(a);
    UnsignedFits(b);
    TxInjective(Unsigned(a), Unsigned(b));
    forall i | 0 <= i < |a.inputs|
      ensures Outpoint(a.inputs[i]) == Outpoint(b.inputs[i]) && a.inputs[i].publicKey == b.inputs[i].publicKey
    {
      assert Unsigned(a).inputs[i] == Unsign(a.inputs[i]) && Unsigned(b).inputs[i] == Unsign(b.inputs[i]);
    }
  }

  method CheckInputs(ins: seq<TxInput>) returns (ok: bool)
    ensures ok == InputsOk(ins)
  {
    var spent: set<(Text, u32)> := {};
    for i := 0 to |ins|
      invariant spent == set k | 0 <= k < i :: Outpoint(ins[k])
      invariant InputsOk(ins[..i])
    {
      if ins[i].prevTxHash == [] || Outpoint(ins[i]) in spent { return false; }
      spent := spent + {Outpoint(ins[i])};
    }
    assert ins[..|ins|] == ins;
    ok := true;
  }

  method CheckOutputs(outs: seq<TxOutput>) returns (ok: bool)
    ensures ok == OutputsOk(outs)
  {
    var total: u64 := 0;
    for i := 0 to |outs|
      invariant total == SumOutputs(outs[..i])
      invariant forall k | 0 <= k < i :: outs[k].address != [] && outs[k].amount > 0
    {
      assert outs[..i + 1][..i] == outs[..i];
      if outs[i].address == [] || outs[i].amount == 0 || outs[i].amount > U64_MAX - total {
        SumOfPrefix(AmountOf, outs, i + 1);
        return false;
      }
      total := total + outs[i].amount;
    }
    assert outs[..|outs|] == outs;
    ok := true;
  }

  method VerifyTransaction(c: Crypto, tx: Transaction, now: u64) returns (ok: bool)
    ensures ok == VerifyTx(c, tx, now)
  {
    if tx.id == [] || tx.inputs == [] || tx.outputs == [] { return false; }
    if |tx.inputs| > MAX_INPUTS || |tx.outputs| > MAX_OUTPUTS { return false; }
    if tx.timestamp > now + CLOCK_SLACK { return false; }
    ok := CheckInputs(tx.inputs);
    if !ok { return; }
    ok := CheckOutputs(tx.outputs);
    if !ok { return; }
    var payload := EncTx(Unsigned(tx));
    for i := 0 to |tx.inputs|
      invariant forall k | 0 <= k < i :: Signed(c, payload, tx.inputs[k])
    {
      if !Signed(c, payload, tx.inputs[i]) { return false; }
    }
  }

  // ---------- block bodies ----------

  predicate RootOk(c: Crypto, b: Block)
  {
    if b.transactions == [] then b.merkleRoot == [] else b.merkleRoot == TreeHash(c.sha, b.transactions)
  }

  ghost predicate TransactionsOk(c: Crypto, txs: seq<Transaction>, now: u64)
  {
    DistinctIds(txs) && forall i | 0 <= i < |txs| :: VerifyTx(c, txs[i], now)
  }

  /** The checks on the contents of a block at clock reading `now`. */
  ghost predicate BodyOk(c: Crypto, b: Block, now: u64)
  {
    |b.transactions| <= MAX_TRANSACTIONS && RootOk(c, b) && TransactionsOk(c, b.transactions, now)
  }

  /** As the clock advances a good body stays good: only an upper bound depends on it. */
  lemma BodyStaysOk(c: Crypto, b: Block, now: u64, later: u64)
    requires BodyOk(c, b, now) && now <= later
    ensures BodyOk(c, b, later)
  {
    forall i | 0 <= i < |b.transactions| ensures VerifyTx(c, b.transactions[i], later) {
      assert VerifyTx(c, b.transactions[i], now);
    }
  }

  method CheckTransactions(c: Crypto, txs: seq<Transaction>, now: u64) returns (ok: bool)
    ensures ok == TransactionsOk(c, txs, now)
  {
    var ids: set<Text> := {};
    for i := 0 to |txs|
      invariant ids == set k | 0 <= k < i :: txs[k].id
      invariant TransactionsOk(c, txs[..i], now)
    {
      var valid := VerifyTransaction(c, txs[i], now);
      if !valid { return false; }
      if txs[i].id in ids {
        var k :| 0 <= k < i && txs[k].id == txs[i].id;
        return false;
      }
      ids := ids + {txs[i].id};
    }
    assert txs[..|txs|] == txs;
    ok := true;
  }

  method CheckRoot(c: Crypto, b: Block) returns (ok: bool)
    ensures ok == RootOk(c, b)
  {
    if b.transactions == [] {
      return b.merkleRoot == [];
    }
    var root := CalculateTreeHash(c.sha, b.transactions);
    ok := b.merkleRoot == root;
  }

  // ---------- the chain ----------

  predicate HasStake(b: Block)
  {
    b.validatorAddress != [] && b.validatorStake > 0
  }

  const GENESIS_TIME: u64 := 1640000000

  const GENESIS: Block := Block(1, 0, ZERO_HASH, [], GENESIS_TIME, 0, [], 0, 0, [], [], [])

  /** A node's view: the chain, and the consensus state that validating a proposal may change. */
  datatype View = View(chain: seq<Block>, consensus: State)

  /** `enforced` is whether a consensus engine is attached. */
  datatype Setup = Setup(engine: Engine, enforced: bool)
  {
    function C(): Crypto { engine.crypto }
  }

  function Propose(u: Setup, s: State, b: Block): (bool, State)
  {
    if u.enforced then ValidateProposal(u.engine, s, b, b.timestamp) else (true, s)
  }

  /** The checks on how a block extends a chain, before the proposal check. */
  predicate ExtendsTip(u: Setup, chain: seq<Block>, b: Block, now: u64)
    requires chain != []
  {
    var tip := chain[|chain| - 1];
    && b.height == |chain|
    && b.prevBlockHash != [] && b.prevBlockHash == BlockHash(u.C(), tip)
    && tip.timestamp <= b.timestamp <= now + CLOCK_SLACK
    && HasStake(b)
  }

  ghost function CanAdd(u: Setup, v: View, b: Block, now: u64): (bool, State)
    requires v.chain != []
  {
    if !ExtendsTip(u, v.chain, b, now) then (false, v.consensus)
    else var (ok, s) := Propose(u, v.consensus, b); (ok && BodyOk(u.C(), b, now), s)
  }

  ghost function Add(u: Setup, v: View, b: Block, now: u64): (bool, View)
    requires v.chain != []
  {
    var (ok, s) := CanAdd(u, v, b, now);
    (ok, View(if ok then v.chain + [b] else v.chain, s))
  }

  /** Checks of `replace_chain_if_longer` on one block of a candidate, before the proposal check. */
  predicate LinkOk(u: Setup, candidate: seq<Block>, i: nat)
    requires i < |candidate|
  {
    var b := candidate[i];
    && b.height == i % U32_SIZE
    && (if i == 0 then b.prevBlockHash == ZERO_HASH
        else b.prevBlockHash == BlockHash(u.C(), candidate[i - 1]) && candidate[i - 1].timestamp <= b.timestamp)
    && (i != 0 ==> HasStake(b)) && |b.transactions| <= MAX_TRANSACTIONS
  }

  /** All checks on one block of a candidate, and the consensus state they leave. */
  ghost function CheckOne(u: Setup, candidate: seq<Block>, i: nat, s: State, now: u64): (bool, State)
    requires i < |candidate|
  {
    if !LinkOk(u, candidate, i) then (false, s)
    else var (ok, s1) := if i == 0 then (true, s) else Propose(u, s, candidate[i]);
         (ok && BodyOk(u.C(), candidate[i], now), s1)
  }

  ghost function Checker(u: Setup, candidate: seq<Block>, now: u64): (nat, State) -> (bool, State)
  {
    (i: nat, s: State) => if i < |candidate| then CheckOne(u, candidate, i, s, now) else (true, s)
  }

  ghost function Replace(u: Setup, v: View, candidate: seq<Block>, now: u64): (bool, View)
  {
    if |candidate| <= |v.chain| then (false, v)
    else var (ok, s) := Sweep(Checker(u, candidate, now), 0, |candidate|, v.consensus);
         (ok, View(if ok then candidate else v.chain, s))
  }

  // ---------- what every reachable chain satisfies ----------

  /** Heights are positions, every block carries the hash of the one before, and time does not go back. */
  ghost predicate WellLinked(u: Setup, chain: seq<Block>)
  {
    && chain != []
    && forall i | 0 <= i < |chain| :: LinkOk(u, chain, i)
  }

  datatype Event =
    | Offer(block: Block, now: u64)
    | Candidate(blocks: seq<Block>, now: u64)
    | Validators(validators: seq<Validator>)

  ghost function Happen(u: Setup, v: View, x: Event): View
    requires v.chain != []
  {
    match x
    case Offer(b, now) => Add(u, v, b, now).1
    case Candidate(bs, now) => Replace(u, v, bs, now).1
    case Validators(vs) => v.(consensus := v.consensus.(validators := vs))
  }

  ghost function After(u: Setup, v: View, events: seq<Event>): (r: View)
    requires v.chain != []
    ensures r.chain != []
  {
    if events == [] then v else Happen(u, After(u, v, events[..|events| - 1]), events[|events| - 1])
  }

  lemma SmallRemainder(n: nat, m: nat)
    requires n < m
    ensures n % m == n
  {
  }

  lemma LinkKept(u: Setup, chain: seq<Block>, b: Block, i: nat)
    requires i < |chain| && LinkOk(u, chain, i)
    ensures LinkOk(u, chain + [b], i)
  {
    assert (chain + [b])[i] == chain[i];
    if i > 0 {
      assert (chain + [b])[i - 1] == chain[i - 1];
    }
  }

  lemma CanAddMeans(u: Setup, v: View, b: Block, now: u64)
    requires v.chain != [] && CanAdd(u, v, b, now).0
    ensures ExtendsTip(u, v.chain, b, now) && BodyOk(u.C(), b, now)
  {
  }

  lemma LinkNew(u: Setup, chain: seq<Block>, b: Block, now: u64)
    requires chain != [] && ExtendsTip(u, chain, b, now) && |b.transactions| <= MAX_TRANSACTIONS
    ensures LinkOk(u, chain + [b], |chain|)
  {
    var longer := chain + [b];
    SmallRemainder(|chain|, U32_SIZE);
    assert longer[|chain|] == b && longer[|chain| - 1] == chain[|chain| - 1];
  }

  lemma LinkedGrows(u: Setup, chain: seq<Block>, b: Block)
    requires WellLinked(u, chain) && LinkOk(u, chain + [b], |chain|)
    ensures WellLinked(u, chain + [b])
  {
    forall i | 0 <= i < |chain| ensures LinkOk(u, chain + [b], i) {
      LinkKept(u, chain, b, i);
    }
  }

  lemma AddLinks(u: Setup, v: View, b: Block, now: u64)
    requires WellLinked(u, v.chain)
    ensures WellLinked(u, Add(u, v, b, now).1.chain)
  {
    if CanAdd(u, v, b, now).0 {
      CanAddMeans(u, v, b, now);
      LinkNew(u, v.chain, b, now);
      LinkedGrows(u, v.chain, b);
    }
  }

  lemma ReplaceLinks(u: Setup, v: View, candidate: seq<Block>, now: u64)
    requires Replace(u, v, candidate, now).0
    ensures WellLinked(u, candidate)
  {
    forall i | 0 <= i < |candidate| ensures LinkOk(u, candidate, i) {
      var t := SweepPasses(Checker(u, candidate, now), 0, |candidate|, v.consensus, i);
      assert CheckOne(u, candidate, i, t, now).0;
    }
  }

  lemma HappenLinks(u: Setup, v: View, x: Event)
    requires WellLinked(u, v.chain)
    ensures WellLinked(u, Happen(u, v, x).chain)
  {
    match x {
      case Offer(b, now) => AddLinks(u, v, b, now);
      case Candidate(bs, now) =>
        if Replace(u, v, bs, now).0 {
          ReplaceLinks(u, v, bs, now);
        }
      case Validators(_) =>
    }
  }

  /** Every chain reachable from genesis by any run of offers, candidate chains and validator changes is well linked. */
  lemma {:induction false} AlwaysLinked(u: Setup, s: State, events: seq<Event>)
    ensures WellLinked(u, After(u, View([GENESIS], s), events).chain)
  {
    if events != [] {
      var before := events[..|events| - 1];
      AlwaysLinked(u, s, before);
      HappenLinks(u, After(u, View([GENESIS], s), before), events[|events| - 1]);
    }
  }

  // ---------- the tip commits to the history ----------

  ghost function Serials(chain: seq<Block>): set<Text>
  {
    HashChain.Image(EncBlock, chain)
  }

  ghost predicate AllEncodable(chain: seq<Block>)
  {
    forall i | 0 <= i < |chain| :: FitsBlock(WIDEST, chain[i])
  }

  function Tip(chain: seq<Block>): Block
    requires chain != []
  {
    chain[|chain| - 1]
  }

  function PrevHash(b: Block): Text
  {
    b.prevBlockHash
  }

  function HashText(c: Crypto): Text -> Text
  {
    x => Hex(c.sha(x))
  }

  ghost function Encodable(): Block -> bool
  {
    b => FitsBlock(WIDEST, b)
  }

  lemma EncodingFaithful()
    ensures HashChain.Faithful(EncBlock, Encodable())
  {
    forall x, y | Encodable()(x) && Encodable()(y) && EncBlock(x) == EncBlock(y) ensures x == y {
      BlockInjective(x, y);
    }
  }

  lemma HashingClear(c: Crypto, inputs: set<Text>)
    requires !CollisionIn(c.sha, inputs)
    ensures HashChain.NoClash(HashText(c), inputs)
  {
    forall x, y | x in inputs && y in inputs && HashText(c)(x) == HashText(c)(y) ensures x == y {
      HexInjective(c.sha(x), c.sha(y));
    }
  }

  lemma ChainLinked(u: Setup, chain: seq<Block>)
    requires WellLinked(u, chain)
    ensures HashChain.Linked(EncBlock, PrevHash, HashText(u.C()), chain)
  {
    forall i | 0 < i < |chain| ensures HashChain.LinkedAt(EncBlock, PrevHash, HashText(u.C()), chain, i) {
      assert LinkOk(u, chain, i);
    }
  }

  lemma ChainCovered(chain: seq<Block>, inputs: set<Text>)
    requires AllEncodable(chain) && Serials(chain) <= inputs
    ensures HashChain.Covered(EncBlock, Encodable(), inputs, chain)
  {
    forall i | 0 <= i < |chain| ensures Encodable()(chain[i]) && EncBlock(chain[i]) in inputs {
      HashChain.ImageHas(EncBlock, chain, i);
    }
  }

  lemma SameHistory(u: Setup, a: seq<Block>, b: seq<Block>, inputs: set<Text>)
    requires WellLinked(u, a) && WellLinked(u, b) && AllEncodable(a) && AllEncodable(b)
    requires |a| == |b| && Tip(a) == Tip(b)
    requires Serials(a) <= inputs && Serials(b) <= inputs && !CollisionIn(u.C().sha, inputs)
    ensures a == b
  {
    EncodingFaithful();
    HashingClear(u.C(), inputs);
    ChainLinked(u, a);
    ChainLinked(u, b);
    ChainCovered(a, inputs);
    ChainCovered(b, inputs);
    HashChain.WholeAgree(EncBlock, PrevHash, HashText(u.C()), Encodable(), inputs, a, b);
  }

  lemma HeightAt(u: Setup, chain: seq<Block>, i: nat)
    requires WellLinked(u, chain) && i < |chain| && i < U32_SIZE
    ensures chain[i].height == i
  {
    assert LinkOk(u, chain, i);
    SmallRemainder(i, U32_SIZE);
  }

  lemma HeightIsPosition(u: Setup, chain: seq<Block>)
    requires WellLinked(u, chain) && |chain| <= U32_SIZE
    ensures Tip(chain).height == |chain| - 1
  {
    HeightAt(u, chain, |chain| - 1);
  }

  lemma SameTip(u: Setup, a: seq<Block>, b: seq<Block>)
    requires a != [] && b != [] && AllEncodable(a) && AllEncodable(b)
    requires BlockHash(u.C(), Tip(a)) == BlockHash(u.C(), Tip(b))
    requires !CollisionIn(u.C().sha, Serials(a) + Serials(b))
    ensures Tip(a) == Tip(b)
  {
    HashDecides(u.C(), Tip(a), Tip(b));
    HashChain.ImageHas(EncBlock, a, |a| - 1);
    HashChain.ImageHas(EncBlock, b, |b| - 1);
    assert {EncBlock(Tip(a)), EncBlock(Tip(b))} <= Serials(a) + Serials(b);
  }

  /**
   The hash of the tip commits to the whole history: two well-linked chains with one tip hash are
   equal block by block, or two of their serialized blocks collide under SHA-256.
   */
  lemma TipCommits(u: Setup, a: seq<Block>, b: seq<Block>)
    requires WellLinked(u, a) && WellLinked(u, b) && AllEncodable(a) && AllEncodable(b)
    requires |a| <= U32_SIZE && |b| <= U32_SIZE
    requires BlockHash(u.C(), Tip(a)) == BlockHash(u.C(), Tip(b))
    ensures a == b || CollisionIn(u.C().sha, Serials(a) + Serials(b))
  {
    if !CollisionIn(u.C().sha, Serials(a) + Serials(b)) {
      SameTip(u, a, b);
      HeightIsPosition(u, a);
      HeightIsPosition(u, b);
      SameHistory(u, a, b, Serials(a) + Serials(b));
    }
  }

  /** Whatever two nodes went through: with one tip hash they have one history, or blocks of theirs collide. */
  lemma ReachableTipsCommit(u: Setup, s: State, xs: seq<Event>, t: State, ys: seq<Event>)
    requires var a, b := After(u, View([GENESIS], s), xs).chain, After(u, View([GENESIS], t), ys).chain;
             && AllEncodable(a) && AllEncodable(b) && |a| <= U32_SIZE && |b| <= U32_SIZE
             && BlockHash(u.C(), Tip(a)) == BlockHash(u.C(), Tip(b))
    ensures var a, b := After(u, View([GENESIS], s), xs).chain, After(u, View([GENESIS], t), ys).chain;
            a == b || CollisionIn(u.C().sha, Serials(a) + Serials(b))
  {
    AlwaysLinked(u, s, xs);
    AlwaysLinked(u, t, ys);
    TipCommits(u, After(u, View([GENESIS], s), xs).chain, After(u, View([GENESIS], t), ys).chain);
  }
}
