/**
 A node as a state machine: the chain, the consensus state and the database move together in accept
 steps (src/mermai_main.cpp:212, src/network/mermai_network.cpp:428-466). An accept step is taken to
 be atomic; the clock may be read at three moments of it.
 */
module NodeRuns {
  import opened Bytes
  import opened Types
  import opened Codec
  import opened BlockCodec
  import opened Consensus
  import opened Chain
  import opened Folds
  import opened Ledger
  import opened Ownership
  import opened Replay
  import opened SpendOnce
  import HashChain

  datatype Node = Node(view: View, tables: Tables)
  {
    function Chain(): seq<Block> { view.chain }
  }

  /** The clock when a block is first checked, when it is applied and when it is checked again. */
  datatype Clock = Clock(checked: u64, applied: u64, added: u64)
  {
    predicate Ordered() { checked <= applied <= added }
  }

  /** `can_add_block && apply_block && add_block`. */
  ghost function Accept(u: Setup, n: Node, b: Block, k: Clock): (r: (bool, Node))
    requires n.Chain() != []
    ensures r.1.Chain() != []
  {
    var (ok, s) := CanAdd(u, n.view, b, k.checked);
    var v := View(n.Chain(), s);
    if !ok then (false, Node(v, n.tables))
    else match ApplyBlock(u.C(), n.tables, b, k.applied)
         case None => (false, Node(v, n.tables))
         case Some(t) => var (again, w) := Add(u, v, b, k.added); (again, Node(w, t))
  }

  // ---------- the second check ----------

  lemma ProposeAgain(u: Setup, s: State, b: Block)
    requires Propose(u, s, b).0
    ensures Propose(u, Propose(u, s, b).1, b) == (true, Propose(u, s, b).1)
  {
    if u.enforced {
      AcceptedAgain(u.engine, s, b, b.timestamp);
    }
  }

  /** A block that passed the check passes it again later, with no further effect on the consensus state. */
  lemma SecondCheckPasses(u: Setup, v: View, b: Block, now: u64, later: u64)
    requires v.chain != [] && now <= later && CanAdd(u, v, b, now).0
    ensures var s := CanAdd(u, v, b, now).1;
            Add(u, View(v.chain, s), b, later) == (true, View(v.chain + [b], s))
  {
    ProposeAgain(u, v.consensus, b);
    BodyStaysOk(u.C(), b, now, later);
  }

  /**
   After the database has committed, adding the block cannot fail: an accept step succeeds exactly
   when the block passes the first check and applies, and a step that fails leaves chain and
   database alone.
   */
  lemma AcceptIsAtomic(u: Setup, n: Node, b: Block, k: Clock)
    requires n.Chain() != [] && k.Ordered()
    ensures var (ok, m) := Accept(u, n, b, k);
            var (can, s) := CanAdd(u, n.view, b, k.checked);
            var applied := ApplyBlock(u.C(), n.tables, b, k.applied);
            && ok == (can && applied.Some?)
            && m.view.consensus == s
            && (ok ==> m.Chain() == n.Chain() + [b] && m.tables == applied.value)
            && (!ok ==> m.Chain() == n.Chain() && m.tables == n.tables)
  {
    if CanAdd(u, n.view, b, k.checked).0 {
      SecondCheckPasses(u, n.view, b, k.checked, k.added);
    }
  }

  // ---------- lockstep ----------

  function Rows(c: Crypto, chain: seq<Block>): (rows: seq<BlockRow>)
    ensures |rows| == |chain|
  {
    seq(|chain|, i requires 0 <= i < |chain| => RowOf(c, chain[i]))
  }

  lemma RowsSnoc(c: Crypto, chain: seq<Block>, b: Block)
    ensures Rows(c, chain + [b]) == Rows(c, chain) + [RowOf(c, b)]
  {
  }

  /** The table holds exactly the rows after the first, by position. */
  ghost predicate Tabulates(rows: seq<BlockRow>, blocks: map<u32, BlockRow>)
  {
    && (forall h | h in blocks :: 0 < h < |rows| && blocks[h] == rows[h])
    && (forall h: u32 | 0 < h < |rows| :: h in blocks)
  }

  /** The block table holds heights 1 up to the tip, each row being that block. */
  ghost predicate Lockstep(c: Crypto, chain: seq<Block>, blocks: map<u32, BlockRow>)
  {
    Tabulates(Rows(c, chain), blocks)
  }

  lemma HeightBytes(b: Block)
    ensures |EncBlock(b)| >= 2 * U32_BYTES && EncBlock(b)[U32_BYTES..2 * U32_BYTES] == Encode(U32_BYTES, b.height)
  {
    var width := U32_BYTES;
    var p := EncPreamble(PreambleOf(b));
    assert p[width..2 * width] == Encode(width, b.height);
    assert EncBlock(b)[..|p|] == p;
  }

  lemma SameHeight(a: Block, b: Block)
    requires EncBlock(a) == EncBlock(b)
    ensures a.height == b.height
  {
    HeightBytes(a);
    HeightBytes(b);
    PowValues();
    DecodeEncodeExact(U32_BYTES, a.height);
    DecodeEncodeExact(U32_BYTES, b.height);
  }

  /** Rows of different heights have different hashes, or their blocks collide. */
  lemma HashesDiffer(c: Crypto, a: Block, b: Block)
    requires a.height != b.height && BlockHash(c, a) == BlockHash(c, b)
    ensures CollisionIn(c.sha, {EncBlock(a), EncBlock(b)})
  {
    HexInjective(c.sha(EncBlock(a)), c.sha(EncBlock(b)));
    if EncBlock(a) == EncBlock(b) {
      SameHeight(a, b);
    }
    var inputs := {EncBlock(a), EncBlock(b)};
    assert EncBlock(a) in inputs && EncBlock(b) in inputs;
  }

  lemma CollisionGrows(c: Crypto, small: set<Text>, large: set<Text>)
    requires small <= large && CollisionIn(c.sha, small)
    ensures CollisionIn(c.sha, large)
  {
    var x, y :| x in small && y in small && x != y && c.sha(x) == c.sha(y);
    assert x in large && y in large;
  }

  lemma InsertTabulates(rows: seq<BlockRow>, blocks: map<u32, BlockRow>, row: BlockRow)
    requires 0 < |rows| < U32_SIZE && Tabulates(rows, blocks)
    requires forall h | h in blocks :: blocks[h].hash != row.hash
    ensures Tabulates(rows + [row], InsertBlock(blocks, |rows|, row))
  {
  }

  lemma ClashCollides(u: Setup, chain: seq<Block>, b: Block, h: u32)
    requires WellLinked(u, chain) && b.height == |chain|
    requires h < |chain| && BlockHash(u.C(), chain[h]) == BlockHash(u.C(), b)
    ensures CollisionIn(u.C().sha, Serials(chain + [b]))
  {
    HeightAt(u, chain, h);
    HashesDiffer(u.C(), chain[h], b);
    HashChain.ImageHas(EncBlock, chain, h);
    HashChain.ImageSnoc(EncBlock, chain, b);
    CollisionGrows(u.C(), {EncBlock(chain[h]), EncBlock(b)}, Serials(chain + [b]));
  }

  /** A row of the table with the hash of another block comes from a block with that hash. */
  lemma RowHash(c: Crypto, chain: seq<Block>, blocks: map<u32, BlockRow>, b: Block, h: u32)
    requires Lockstep(c, chain, blocks) && h in blocks && blocks[h].hash == RowOf(c, b).hash
    ensures h < |chain| && BlockHash(c, chain[h]) == BlockHash(c, b)
  {
    assert Rows(c, chain)[h] == RowOf(c, chain[h]);
  }

  /** `INSERT OR REPLACE` deletes a row of another height only on a hash collision. */
  lemma LockstepExtends(u: Setup, chain: seq<Block>, blocks: map<u32, BlockRow>, b: Block)
    requires WellLinked(u, chain) && Lockstep(u.C(), chain, blocks) && b.height == |chain|
    ensures Lockstep(u.C(), chain + [b], InsertBlock(blocks, b.height, RowOf(u.C(), b)))
         || CollisionIn(u.C().sha, Serials(chain + [b]))
  {
    var row := RowOf(u.C(), b);
    if h :| h in blocks && blocks[h].hash == row.hash {
      RowHash(u.C(), chain, blocks, b, h);
      ClashCollides(u, chain, b, h);
    } else {
      InsertTabulates(Rows(u.C(), chain), blocks, row);
      RowsSnoc(u.C(), chain, b);
    }
  }

  /** A stored row reads back as the block of its height. */
  lemma StoredBlockReadsBack(c: Crypto, chain: seq<Block>, blocks: map<u32, BlockRow>, h: u32)
    requires Lockstep(c, chain, blocks) && 0 < h < |chain| && FitsBlock(WIRE, chain[h])
    ensures h in blocks && DecodeBlock(WIRE, blocks[h].serialized) == Ok(chain[h])
  {
    assert Rows(c, chain)[h] == RowOf(c, chain[h]);
    BlockRoundTrip(WIRE, chain[h]);
  }

  // ---------- the invariant ----------

  function BlockFees(): Block -> nat
  {
    (b: Block) => Sum(FeeOf, b.transactions)
  }

  /** Fees taken and value left add up to the value at the start. */
  ghost predicate Conserved(start: Utxos, blocks: seq<Block>, now: Utxos)
  {
    Value(now) + Sum(BlockFees(), blocks) == Value(start)
  }

  /** The unspent outputs are what the history of the blocks leaves. */
  ghost predicate Replays(c: Crypto, start: Utxos, blocks: seq<Block>, now: Utxos)
  {
    Fold(Play, Keys(start), Flat(BlockMoves(c), blocks)) == Some(Keys(now))
  }

  /** Value, history and ownership of the unspent outputs all follow from the blocks added since the start. */
  ghost predicate Accounted(c: Crypto, start: Utxos, blocks: seq<Block>, now: Utxos)
  {
    Conserved(start, blocks, now) && Replays(c, start, blocks, now) && Guarded(c, start, blocks, now)
  }

  ghost predicate Agrees(c: Crypto, chain: seq<Block>, blocks: map<u32, BlockRow>)
  {
    Lockstep(c, chain, blocks) || CollisionIn(c.sha, Serials(chain))
  }

  /** What every run keeps, relative to where it started. */
  ghost predicate Sound(u: Setup, start: Node, chain: seq<Block>, t: Tables)
  {
    && WellLinked(u, chain)
    && start.Chain() <= chain
    && Agrees(u.C(), chain, t.blocks)
    && Accounted(u.C(), start.tables.utxos, chain[|start.Chain()|..], t.utxos)
  }

  ghost predicate Good(u: Setup, n: Node)
  {
    WellLinked(u, n.Chain()) && Lockstep(u.C(), n.Chain(), n.tables.blocks)
  }

  lemma GoodIsSound(u: Setup, n: Node)
    requires Good(u, n)
    ensures Sound(u, n, n.Chain(), n.tables)
  {
    assert n.Chain()[|n.Chain()|..] == [];
  }

  /** A new node: genesis alone, no blocks stored, any initial allocation. */
  lemma GenesisIsGood(u: Setup, s: State, t: Tables)
    requires t.blocks == map[]
    ensures Good(u, Node(View([GENESIS], s), t))
  {
  }

  lemma AgreesExtends(u: Setup, chain: seq<Block>, blocks: map<u32, BlockRow>, b: Block)
    requires WellLinked(u, chain) && Agrees(u.C(), chain, blocks) && b.height == |chain|
    ensures Agrees(u.C(), chain + [b], InsertBlock(blocks, b.height, RowOf(u.C(), b)))
  {
    if Lockstep(u.C(), chain, blocks) {
      LockstepExtends(u, chain, blocks, b);
    } else {
      HashChain.ImageSnoc(EncBlock, chain, b);
      CollisionGrows(u.C(), Serials(chain), Serials(chain + [b]));
    }
  }

  /** Accepted transactions have inputs, so a block issues nothing. */
  lemma NothingIssued(c: Crypto, b: Block, now: u64)
    requires BodyOk(c, b, now)
    ensures Sum(IssueOf, b.transactions) == 0
  {
    forall i | 0 <= i < |b.transactions| ensures IssueOf(b.transactions[i]) == 0 {
      assert VerifyTx(c, b.transactions[i], now);
    }
    SumIsZero(IssueOf, b.transactions);
  }

  lemma ConservedExtends(c: Crypto, start: Utxos, blocks: seq<Block>, t: Tables, b: Block, checked: u64, applied: u64)
    requires Conserved(start, blocks, t.utxos)
    requires BodyOk(c, b, checked) && ApplyBlock(c, t, b, applied).Some?
    ensures Conserved(start, blocks + [b], ApplyBlock(c, t, b, applied).value.utxos)
  {
    NothingIssued(c, b, checked);
    BlockConserves(c, t, b, applied);
    SumSnoc(BlockFees(), blocks, b);
  }

  lemma ReplaysExtends(c: Crypto, start: Utxos, blocks: seq<Block>, t: Tables, b: Block, applied: u64)
    requires Replays(c, start, blocks, t.utxos) && ApplyBlock(c, t, b, applied).Some?
    ensures Replays(c, start, blocks + [b], ApplyBlock(c, t, b, applied).value.utxos)
  {
    BlockPlays(c, t, b, applied);
    FlatSnoc(BlockMoves(c), blocks, b);
    FoldAppend(Play, Keys(start), Flat(BlockMoves(c), blocks), BlockMoves(c)(b));
  }

  lemma AccountedExtends(c: Crypto, start: Utxos, blocks: seq<Block>, t: Tables, b: Block, checked: u64, applied: u64)
    requires Accounted(c, start, blocks, t.utxos)
    requires BodyOk(c, b, checked) && ApplyBlock(c, t, b, applied).Some?
    ensures Accounted(c, start, blocks + [b], ApplyBlock(c, t, b, applied).value.utxos)
  {
    ConservedExtends(c, start, blocks, t, b, checked, applied);
    ReplaysExtends(c, start, blocks, t, b, applied);
    GuardedExtends(c, start, blocks, t, b, applied);
  }

  lemma Applied(c: Crypto, t: Tables, b: Block, now: u64)
    requires ApplyBlock(c, t, b, now).Some?
    ensures ApplyBlock(c, t, b, now).value.blocks == InsertBlock(t.blocks, b.height, RowOf(c, b))
  {
  }

  lemma SoundAfter(u: Setup, start: Node, chain: seq<Block>, b: Block, t: Tables)
    requires start.Chain() <= chain && WellLinked(u, chain + [b]) && Agrees(u.C(), chain + [b], t.blocks)
    requires Accounted(u.C(), start.tables.utxos, chain[|start.Chain()|..] + [b], t.utxos)
    ensures Sound(u, start, chain + [b], t)
  {
    var n := |start.Chain()|;
    assert (chain + [b])[n..] == chain[n..] + [b];
  }

  lemma ExtendKeeps(u: Setup, start: Node, chain: seq<Block>, t: Tables, b: Block, checked: u64, applied: u64)
    requires Sound(u, start, chain, t)
    requires b.height == |chain| && BodyOk(u.C(), b, checked) && WellLinked(u, chain + [b])
    requires ApplyBlock(u.C(), t, b, applied).Some?
    ensures Sound(u, start, chain + [b], ApplyBlock(u.C(), t, b, applied).value)
  {
    AgreesExtends(u, chain, t.blocks, b);
    Applied(u.C(), t, b, applied);
    AccountedExtends(u.C(), start.tables.utxos, chain[|start.Chain()|..], t, b, checked, applied);
    SoundAfter(u, start, chain, b, ApplyBlock(u.C(), t, b, applied).value);
  }

  lemma AcceptKeeps(u: Setup, start: Node, n: Node, b: Block, k: Clock)
    requires Sound(u, start, n.Chain(), n.tables) && k.Ordered()
    ensures var m := Accept(u, n, b, k).1; Sound(u, start, m.Chain(), m.tables) && n.Chain() <= m.Chain()
  {
    AcceptIsAtomic(u, n, b, k);
    if Accept(u, n, b, k).0 {
      CanAddMeans(u, n.view, b, k.checked);
      AddLinks(u, n.view, b, k.checked);
      ExtendKeeps(u, start, n.Chain(), n.tables, b, k.checked, k.applied);
    }
  }

  // ---------- longer chains from peers ----------

  /** The first `n` blocks have the same serializations. */
  predicate SamePrefix(chain: seq<Block>, candidate: seq<Block>, n: nat)
    requires n <= |chain| && n <= |candidate|
  {
    Alike(EncBlock, chain, candidate, n)
  }

  /** Accepting the blocks of a candidate one by one. */
  ghost function Accepting(u: Setup, candidate: seq<Block>, clock: nat -> Clock): (nat, Node) -> (bool, Node)
  {
    (i: nat, n: Node) =>
      if i < |candidate| && n.Chain() != [] then Accept(u, n, candidate[i], clock(i)) else (true, n)
  }

  /** `local_height + 1`, counted in 32 bits. */
  function Counted(chain: seq<Block>): nat
  {
    |chain| % U32_SIZE
  }

  /**
   What a BLOCKS message does to a node with a database; `false` costs the peer reputation. A count that
   has wrapped to zero lets no candidate pass the comparison.
   */
  ghost function Sync(u: Setup, n: Node, candidate: seq<Block>, clock: nat -> Clock): (bool, Node)
  {
    var m := Counted(n.Chain());
    if |candidate| <= m then (true, n)
    else if m == 0 || !SamePrefix(n.Chain(), candidate, m) then (false, n)
    else Sweep(Accepting(u, candidate, clock), m, |candidate|, n)
  }

  ghost predicate AllOrdered(clock: nat -> Clock)
  {
    forall i :: clock(i).Ordered()
  }

  /** Sound, and no shorter than `base`. */
  ghost function Growing(u: Setup, start: Node, base: seq<Block>): Node -> bool
  {
    (n: Node) => Sound(u, start, n.Chain(), n.tables) && base <= n.Chain()
  }

  lemma AcceptingKeeps(u: Setup, start: Node, base: seq<Block>, candidate: seq<Block>, clock: nat -> Clock)
    requires AllOrdered(clock)
    ensures Keeps(Accepting(u, candidate, clock), Growing(u, start, base))
  {
    var accepting, growing := Accepting(u, candidate, clock), Growing(u, start, base);
    forall i: nat, n | growing(n) ensures growing(accepting(i, n).1) {
      if i < |candidate| {
        AcceptKeeps(u, start, n, candidate[i], clock(i));
      }
    }
  }

  lemma SweepGrows(u: Setup, start: Node, n: Node, candidate: seq<Block>, clock: nat -> Clock, i: nat)
    requires Sound(u, start, n.Chain(), n.tables) && AllOrdered(clock) && i <= |candidate|
    ensures var m := Sweep(Accepting(u, candidate, clock), i, |candidate|, n).1;
            Sound(u, start, m.Chain(), m.tables) && n.Chain() <= m.Chain()
  {
    AcceptingKeeps(u, start, n.Chain(), candidate, clock);
    SweepKeeps(Accepting(u, candidate, clock), Growing(u, start, n.Chain()), i, |candidate|, n);
    assert Growing(u, start, n.Chain())(Sweep(Accepting(u, candidate, clock), i, |candidate|, n).1);
  }

  lemma SyncKeeps(u: Setup, start: Node, n: Node, candidate: seq<Block>, clock: nat -> Clock)
    requires Sound(u, start, n.Chain(), n.tables) && AllOrdered(clock)
    ensures var m := Sync(u, n, candidate, clock).1; Sound(u, start, m.Chain(), m.tables) && n.Chain() <= m.Chain()
  {
    var m := Counted(n.Chain());
    if |candidate| > m && m != 0 && SamePrefix(n.Chain(), candidate, m) {
      SweepGrows(u, start, n, candidate, clock, m);
    }
  }

  // ---------- runs ----------

  /** Between the steps that touch the ledger, anything may happen to the consensus state. */
  datatype Step =
    | Offered(block: Block, clock: Clock)
    | Candidate(blocks: seq<Block>, clocks: nat -> Clock)
    | Elsewhere(consensus: State)

  ghost predicate Timely(x: Step)
  {
    match x
    case Offered(_, k) => k.Ordered()
    case Candidate(_, clock) => AllOrdered(clock)
    case Elsewhere(_) => true
  }

  ghost function Take(u: Setup, n: Node, x: Step): Node
  {
    match x
    case Offered(b, k) => if n.Chain() == [] then n else Accept(u, n, b, k).1
    case Candidate(bs, clock) => Sync(u, n, bs, clock).1
    case Elsewhere(s) => n.(view := n.view.(consensus := s))
  }

  lemma TakeKeeps(u: Setup, start: Node, n: Node, x: Step)
    requires Sound(u, start, n.Chain(), n.tables) && Timely(x)
    ensures var m := Take(u, n, x); Sound(u, start, m.Chain(), m.tables) && n.Chain() <= m.Chain()
  {
    match x {
      case Offered(b, k) => AcceptKeeps(u, start, n, b, k);
      case Candidate(bs, clock) => SyncKeeps(u, start, n, bs, clock);
      case Elsewhere(_) =>
    }
  }

  ghost function Run(u: Setup, n: Node, steps: seq<Step>): Node
  {
    if steps == [] then n else Take(u, Run(u, n, steps[..|steps| - 1]), steps[|steps| - 1])
  }

  ghost predicate AllTimely(steps: seq<Step>)
  {
    forall i | 0 <= i < |steps| :: Timely(steps[i])
  }

  /**
   Over every run of a node: the chain is well linked and extends the one it started from; the block
   table is in step with the chain, or two serialized blocks of the chain collide under SHA-256;
   unspent value plus all fees is the initial value; the unspent outputs are those a legal history of
   the accepted blocks leaves; and every initial output is still unspent or its owner signed it away.
   */
  lemma {:induction false} RunsAreSound(u: Setup, start: Node, steps: seq<Step>)
    requires Good(u, start) && AllTimely(steps)
    ensures var n := Run(u, start, steps); Sound(u, start, n.Chain(), n.tables)
  {
    if steps == [] {
      GoodIsSound(u, start);
    } else {
      var last := |steps| - 1;
      RunsAreSound(u, start, steps[..last]);
      TakeKeeps(u, start, Run(u, start, steps[..last]), steps[last]);
    }
  }

  /** In every run an output is unspent exactly as often as it was created and not spent: once or never. */
  lemma RunsSpendOnce(u: Setup, start: Node, steps: seq<Step>, k: Key)
    requires Good(u, start) && AllTimely(steps)
    ensures var n := Run(u, start, steps);
            && start.Chain() <= n.Chain()
            && var keys, moves := Keys(start.tables.utxos), Flat(BlockMoves(u.C()), n.Chain()[|start.Chain()|..]);
            && Held(keys, k) + Net(moves, k) == Held(Keys(n.tables.utxos), k)
            && forall i | 0 <= i <= |moves| :: 0 <= Held(keys, k) + Net(moves[..i], k) <= 1
  {
    RunsAreSound(u, start, steps);
    var n := Run(u, start, steps);
    var keys, moves := Keys(start.tables.utxos), Flat(BlockMoves(u.C()), n.Chain()[|start.Chain()|..]);
    NetIsMembership(keys, moves, k);
    forall i | 0 <= i <= |moves| ensures 0 <= Held(keys, k) + Net(moves[..i], k) <= 1 {
      NetStaysBinary(keys, moves, i, k);
    }
  }

  function TransactionsOf(b: Block): seq<Transaction>
  {
    b.transactions
  }

  lemma MovesByTransaction(c: Crypto, blocks: seq<Block>)
    ensures Flat(BlockMoves(c), blocks) == Flat(TxMoves(c), Flat(TransactionsOf, blocks))
  {
    FlatFlat(TransactionsOf, TxMoves(c), BlockMoves(c), blocks);
  }

  /**
   In every run a transaction is applied at most as often as each output it spends came into being: once,
   where no output is created under the id of another.
   */
  lemma RunsApplyAtMost(u: Setup, start: Node, steps: seq<Step>, t: Transaction, i: nat)
    requires Good(u, start) && AllTimely(steps) && i < |t.inputs|
    ensures var n := Run(u, start, steps);
            && start.Chain() <= n.Chain()
            && var added := n.Chain()[|start.Chain()|..];
            multiset(Flat(TransactionsOf, added))[t]
            <= Births(Keys(start.tables.utxos), Flat(BlockMoves(u.C()), added), KeyOf(t.inputs[i]))
  {
    RunsAreSound(u, start, steps);
    var added := Run(u, start, steps).Chain()[|start.Chain()|..];
    MovesByTransaction(u.C(), added);
    AppliedAtMost(u.C(), Keys(start.tables.utxos), Flat(TransactionsOf, added), t, i);
  }
}
