/** The `mermai_blockchain` object (src/core/mermai_blockchain.cpp), proved against `Chain`. */
module Blockchains {
  import opened Bytes
  import opened Types
  import opened Codec
  import opened Consensus
  import opened BlockRoot
  import opened Chain
  import opened Folds

  /** What `is_chain_valid` looks at. */
  predicate LinkHolds(u: Setup, chain: seq<Block>, i: nat)
    requires 0 < i < |chain|
  {
    chain[i].prevBlockHash == BlockHash(u.C(), chain[i - 1]) && HasStake(chain[i])
  }

  ghost predicate LinksHold(u: Setup, chain: seq<Block>)
  {
    forall i | 0 < i < |chain| :: LinkHolds(u, chain, i)
  }

  /** Every reachable chain passes its own check. */
  lemma WellLinkedHolds(u: Setup, chain: seq<Block>)
    requires WellLinked(u, chain)
    ensures LinksHold(u, chain)
  {
    forall i | 0 < i < |chain| ensures LinkHolds(u, chain, i) {
      assert LinkOk(u, chain, i);
    }
  }

  lemma ReachableHolds(u: Setup, s: State, events: seq<Event>)
    ensures LinksHold(u, After(u, View([GENESIS], s), events).chain)
  {
    AlwaysLinked(u, s, events);
    WellLinkedHolds(u, After(u, View([GENESIS], s), events).chain);
  }

  method CheckBody(c: Crypto, b: Block, now: u64) returns (ok: bool)
    ensures ok == BodyOk(c, b, now)
  {
    if |b.transactions| > MAX_TRANSACTIONS { return false; }
    ok := CheckRoot(c, b);
    if !ok { return; }
    ok := CheckTransactions(c, b.transactions, now);
  }

  class Blockchain {
    const consensus: Validators
    const enforced: bool
    var chain: seq<Block>

    ghost function Rules(): Setup
    {
      Setup(consensus.engine, enforced)
    }

    ghost function Now(): View
      reads this, consensus, consensus.record
    {
      View(chain, consensus.View())
    }

    constructor (consensus: Validators, enforced: bool)
      ensures this.consensus == consensus && this.enforced == enforced && chain == [GENESIS]
    {
      this.consensus, this.enforced := consensus, enforced;
      chain := [GENESIS];
    }

    method ProposeBlock(b: Block) returns (ok: bool)
      modifies consensus, consensus.record
      ensures (ok, consensus.View()) == Propose(Rules(), old(consensus.View()), b)
    {
      if !enforced { return true; }
      ok := consensus.ValidateProposalOf(b, b.timestamp);
    }

    /** Checks whether a block extends the tip; the proposal check may record it or slash its validator. */
    method CanAddBlock(b: Block, now: u64) returns (ok: bool)
      requires chain != []
      modifies consensus, consensus.record
      ensures (ok, consensus.View()) == CanAdd(Rules(), old(Now()), b, now)
    {
      var tip := chain[|chain| - 1];
      if b.height != |chain| { return false; }
      if b.prevBlockHash == [] || b.prevBlockHash != BlockHash(consensus.engine.crypto, tip) { return false; }
      if b.timestamp < tip.timestamp || b.timestamp > now + CLOCK_SLACK { return false; }
      if !HasStake(b) { return false; }
      ok := ProposeBlock(b);
      if !ok { return; }
      ok := CheckBody(consensus.engine.crypto, b, now);
    }

    method AddBlock(b: Block, now: u64) returns (ok: bool)
      requires chain != []
      modifies this, consensus, consensus.record
      ensures (ok, Now()) == Add(Rules(), old(Now()), b, now)
    {
      ok := CanAddBlock(b, now);
      if ok {
        chain := chain + [b];
      }
    }

    method CheckCandidate(candidate: seq<Block>, index: nat, now: u64) returns (ok: bool)
      requires index < |candidate|
      modifies consensus, consensus.record
      ensures (ok, consensus.View()) == CheckOne(Rules(), candidate, index, old(consensus.View()), now)
    {
      var b := candidate[index];
      if b.height != index % U32_SIZE { return false; }
      if index == 0 {
        if b.prevBlockHash != ZERO_HASH { return false; }
      } else {
        var previous := candidate[index - 1];
        if b.prevBlockHash != BlockHash(consensus.engine.crypto, previous) { return false; }
        if b.timestamp < previous.timestamp { return false; }
      }
      if (index != 0 && !HasStake(b)) || |b.transactions| > MAX_TRANSACTIONS { return false; }
      ok := true;
      if index != 0 {
        ok := ProposeBlock(b);
      }
      if !ok { return; }
      ok := CheckBody(consensus.engine.crypto, b, now);
    }

    method CheckCandidates(candidate: seq<Block>, now: u64) returns (ok: bool)
      modifies consensus, consensus.record
      ensures (ok, consensus.View()) == Sweep(Checker(Rules(), candidate, now), 0, |candidate|, old(consensus.View()))
    {
      ghost var check, n := Checker(Rules(), candidate, now), |candidate|;
      ghost var outcome := Sweep(check, 0, n, consensus.View());
      for index := 0 to |candidate|
        invariant outcome == Sweep(check, index, n, consensus.View())
      {
        ghost var before := consensus.View();
        ok := CheckCandidate(candidate, index, now);
        SweepStep(check, index, n, before, ok, consensus.View());
        if !ok { return; }
      }
      ok := true;
    }

    /** Adopts a strictly longer candidate all of whose blocks pass; the genesis block is not compared. */
    method ReplaceChainIfLonger(candidate: seq<Block>, now: u64) returns (ok: bool)
      modifies this, consensus, consensus.record
      ensures (ok, Now()) == Replace(Rules(), old(Now()), candidate, now)
    {
      if |candidate| <= |chain| { return false; }
      ok := CheckCandidates(candidate, now);
      if ok {
        chain := candidate;
      }
    }

    method IsChainValid() returns (ok: bool)
      ensures ok == LinksHold(Rules(), chain)
    {
      var i := 1;
      while i < |chain|
        invariant 1 <= i && (i <= |chain| || |chain| < 2)
        invariant forall k | 0 < k < i && k < |chain| :: LinkHolds(Rules(), chain, k)
      {
        var current, previous := chain[i], chain[i - 1];
        if current.prevBlockHash != BlockHash(consensus.engine.crypto, previous) || !HasStake(current) {
          assert !LinkHolds(Rules(), chain, i);
          return false;
        }
        i := i + 1;
      }
      ok := true;
    }
  }
}
