/** The BLOCK and BLOCKS cases of `handle_message` (src/network/mermai_network.cpp), proved against `NodeRuns`. */
module Nodes {
  import opened Bytes
  import opened Types
  import opened Codec
  import opened BlockCodec
  import opened Serializer
  import opened Chain
  import opened Folds
  import opened Blockchains
  import opened Database
  import opened Network
  import opened NodeRuns

  /** An accept step of a node that has no database. */
  ghost function AcceptBare(u: Setup, v: View, b: Block, k: Clock): (bool, View)
    requires v.chain != []
  {
    var (ok, s) := CanAdd(u, v, b, k.checked);
    if ok then Add(u, View(v.chain, s), b, k.added) else (false, View(v.chain, s))
  }

  /** Without a database too, passing the first check is enough: the second, at a later time, changes nothing. */
  lemma AcceptBareExactly(u: Setup, v: View, b: Block, k: Clock)
    requires v.chain != [] && k.Ordered()
    ensures var (ok, w) := AcceptBare(u, v, b, k);
            && ok == CanAdd(u, v, b, k.checked).0
            && w == View(if ok then v.chain + [b] else v.chain, CanAdd(u, v, b, k.checked).1)
  {
    if CanAdd(u, v, b, k.checked).0 {
      SecondCheckPasses(u, v, b, k.checked, k.added);
    }
  }

  /** Some block of the candidate differs from the block of its height in the chain. */
  predicate Differs(chain: seq<Block>, candidate: seq<Block>)
  {
    var both := if |chain| < |candidate| then |chain| else |candidate|;
    !SamePrefix(chain, candidate, both)
  }

  /** `serial` is the serialization of blocks. */
  ghost predicate Serializes(serial: Block -> Text)
  {
    forall b {:trigger EncBlock(b)} :: serial(b) == EncBlock(b)
  }

  method CompareAt(ghost serial: Block -> Text, mine: Block, theirs: Block) returns (same: bool)
    requires Serializes(serial)
    ensures same == (serial(mine) == serial(theirs))
  {
    var x := SerializeBlock(mine);
    var y := SerializeBlock(theirs);
    same := x == y;
  }

  method CompareBlocks(ghost serial: Block -> Text, chain: seq<Block>, candidate: seq<Block>, count: nat)
    returns (same: bool)
    requires Serializes(serial) && count <= |chain|
    requires count <= |candidate| || !Alike(serial, chain, candidate, |candidate|)
    ensures same == (count <= |candidate| && Alike(serial, chain, candidate, count))
  {
    for height := 0 to count
      invariant height <= |candidate| && Alike(serial, chain, candidate, height)
    {
      same := CompareAt(serial, chain[height], candidate[height]);
      if !same {
        if count <= |candidate| && Alike(serial, chain, candidate, count) {
          AlikeBefore(serial, chain, candidate, height + 1, count);
        }
        return;
      }
    }
    same := true;
  }

  /** Compares the first `count` blocks of the chain; behind the candidate there is nothing to read. */
  method ComparePrefix(chain: seq<Block>, candidate: seq<Block>, count: nat) returns (same: bool)
    requires count <= |chain|
    requires count <= |candidate| || Differs(chain, candidate)
    ensures same == (count <= |candidate| && SamePrefix(chain, candidate, count))
  {
    same := CompareBlocks(EncBlock, chain, candidate, count);
  }

  class Handler {
    const blockchain: Blockchain
    const database: Store?

    constructor (blockchain: Blockchain, database: Store?)
      ensures this.blockchain == blockchain && this.database == database
    {
      this.blockchain, this.database := blockchain, database;
    }

    ghost predicate Valid()
      reads blockchain, database
    {
      && blockchain.chain != []
      && (database != null ==> database.journal == None && database.crypto == blockchain.consensus.engine.crypto)
    }

    ghost function Rules(): Setup
    {
      blockchain.Rules()
    }

    ghost function Now(): NodeRuns.Node
      requires database != null
      reads blockchain, blockchain.consensus, blockchain.consensus.record, database
    {
      NodeRuns.Node(blockchain.Now(), database.Now())
    }

    method AcceptBlock(b: Block, k: Clock) returns (ok: bool)
      requires Valid()
      modifies blockchain, blockchain.consensus, blockchain.consensus.record, database
      ensures database == null ==> (ok, blockchain.Now()) == AcceptBare(Rules(), old(blockchain.Now()), b, k)
      ensures database != null ==> (ok, Now()) == Accept(Rules(), old(Now()), b, k)
      ensures Valid()
    {
      ok := blockchain.CanAddBlock(b, k.checked);
      if !ok { return; }
      if database != null {
        ok := database.ApplyBlockOf(b, k.applied);
        if !ok { return; }
      }
      ok := blockchain.AddBlock(b, k.added);
    }

    /** A BLOCK message; the answer is whether the peer loses reputation. */
    method HandleBlock(payload: Text, k: Clock) returns (penalty: bool)
      requires Valid()
      modifies blockchain, blockchain.consensus, blockchain.consensus.record, database
      ensures var block := DecodeBlock(WIRE, payload);
              if block.Err? then penalty && blockchain.Now() == old(blockchain.Now())
              else database == null ==>
                     (!penalty, blockchain.Now()) == AcceptBare(Rules(), old(blockchain.Now()), block.value, k)
      ensures database != null ==>
                var block := DecodeBlock(WIRE, payload);
                if block.Err? then Now() == old(Now())
                else (!penalty, Now()) == Accept(Rules(), old(Now()), block.value, k)
    {
      var block := DeserializeBlock(WIRE, payload);
      if block.Err? { return true; }
      var ok := AcceptBlock(block.value, k);
      penalty := !ok;
    }

    /** `check` is the accept step. */
    ghost predicate Follows(check: (nat, NodeRuns.Node) -> (bool, NodeRuns.Node),
                            candidate: seq<Block>, clock: nat -> Clock)
    {
      forall i: nat, n: NodeRuns.Node :: At(check, i, n) == Accepting(Rules(), candidate, clock)(i, n)
    }

    /** One turn of the loop below; `outcome` is what the loop has left to reach from `node`. */
    method AcceptAt(candidate: seq<Block>, index: nat, clock: nat -> Clock,
                    ghost check: (nat, NodeRuns.Node) -> (bool, NodeRuns.Node),
                    ghost node: NodeRuns.Node, ghost outcome: (bool, NodeRuns.Node))
      returns (ok: bool, ghost after: NodeRuns.Node)
      requires Valid() && database != null && index < |candidate| && node == Now()
      requires Follows(check, candidate, clock)
      requires outcome == Sweep(check, index, |candidate|, node)
      modifies blockchain, blockchain.consensus, blockchain.consensus.record, database
      ensures Valid() && after == Now()
      ensures outcome == if ok then Sweep(check, index + 1, |candidate|, after) else (false, after)
    {
      ok := AcceptBlock(candidate[index], clock(index));
      after := Now();
      assert At(check, index, node) == (ok, after);
      SweepStep(check, index, |candidate|, node, ok, after);
    }

    method AcceptRest(candidate: seq<Block>, first: nat, clock: nat -> Clock,
                      ghost check: (nat, NodeRuns.Node) -> (bool, NodeRuns.Node), ghost outcome: (bool, NodeRuns.Node))
      returns (ok: bool)
      requires Valid() && database != null && first <= |candidate|
      requires Follows(check, candidate, clock)
      requires outcome == Sweep(check, first, |candidate|, Now())
      modifies blockchain, blockchain.consensus, blockchain.consensus.record, database
      ensures (ok, Now()) == outcome
    {
      ghost var node := Now();
      ok := true;
      var index := first;
      while ok && index < |candidate|
        invariant index <= |candidate| && Valid() && node == Now()
        invariant outcome == if ok then Sweep(check, index, |candidate|, node) else (false, node)
      {
        ok, node := AcceptAt(candidate, index, clock, check, node, outcome);
        index := index + 1;
      }
    }

    /**
     A BLOCKS message to a node with a database. Where the 32-bit count of the local chain has wrapped to
     zero the source reads on behind the candidate, unless it meets a difference first.
     */
    method SyncBlocks(candidate: seq<Block>, clock: nat -> Clock) returns (ok: bool)
      requires Valid() && database != null
      requires Counted(blockchain.chain) == 0 ==> Differs(blockchain.chain, candidate)
      modifies blockchain, blockchain.consensus, blockchain.consensus.record, database
      ensures (ok, Now()) == Sync(Rules(), old(Now()), candidate, clock)
    {
      var count := Counted(blockchain.chain);
      if |candidate| <= count { return true; }
      ok := ComparePrefix(blockchain.chain, candidate, if count == 0 then U32_SIZE else count);
      if !ok || count == 0 { return false; }
      ghost var check := Accepting(Rules(), candidate, clock);
      ok := AcceptRest(candidate, count, clock, check, Sweep(check, count, |candidate|, Now()));
    }

    /** A BLOCKS message; `now` is the clock where no database is attached. */
    method HandleBlocks(payload: Text, clock: nat -> Clock, now: u64) returns (penalty: bool)
      requires Valid()
      requires database != null && Counted(blockchain.chain) == 0 ==> Differs(blockchain.chain, DecodeChain(payload))
      modifies blockchain, blockchain.consensus, blockchain.consensus.record, database
      ensures var candidate := DecodeChain(payload);
              && (candidate == [] ==> penalty && blockchain.Now() == old(blockchain.Now()))
              && (candidate != [] && database == null ==>
                    (!penalty, blockchain.Now()) == Replace(Rules(), old(blockchain.Now()), candidate, now))
      ensures database != null ==>
                var candidate := DecodeChain(payload);
                if candidate == [] then Now() == old(Now())
                else (!penalty, Now()) == Sync(Rules(), old(Now()), candidate, clock)
    {
      var candidate := DecodeChainPayload(payload);
      ChainCanonical(payload);
      if candidate == [] { return true; }
      var ok: bool;
      if database != null {
        ok := SyncBlocks(candidate, clock);
      } else {
        ok := blockchain.ReplaceChainIfLonger(candidate, now);
      }
      penalty := !ok;
    }
  }
}
