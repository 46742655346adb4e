/**
 What a node makes of a chain that a peer sends (src/network/mermai_network.cpp:428-457): which of its blocks
 end up in the chain, and what every block that got in has shown.
 */
module Adoption {
  import opened Bytes
  import opened Types
  import opened BlockCodec
  import opened Consensus
  import opened Proposals
  import opened Chain
  import opened Folds
  import opened NodeRuns

  // ---------- offering the blocks of a candidate in turn ----------

  /** The node after accept steps for the blocks from `m` up to `k`. */
  ghost function Offering(u: Setup, n: Node, candidate: seq<Block>, clock: nat -> Clock, m: nat, k: nat): Node
  {
    Through(Accepting(u, candidate, clock), m, k, n)
  }

  /** An accept step takes block `i` when its turn comes. */
  ghost predicate TakenAt(u: Setup, n: Node, candidate: seq<Block>, clock: nat -> Clock, m: nat, i: nat)
    requires i < |candidate|
  {
    var x := Offering(u, n, candidate, clock, m, i); x.Chain() != [] && Accept(u, x, candidate[i], clock(i)).0
  }

  /** Each of the blocks from `m` up to `k` is taken when its turn comes. */
  ghost predicate AllTaken(u: Setup, n: Node, candidate: seq<Block>, clock: nat -> Clock, m: nat, k: nat)
    requires k <= |candidate|
  {
    forall i | m <= i < k :: TakenAt(u, n, candidate, clock, m, i)
  }

  function ChainOf(): Node -> seq<Block>
  {
    (n: Node) => n.Chain()
  }

  lemma AcceptingAppends(u: Setup, candidate: seq<Block>, clock: nat -> Clock)
    requires AllOrdered(clock)
    ensures Appends(Accepting(u, candidate, clock), ChainOf(), candidate)
  {
    var check, list := Accepting(u, candidate, clock), ChainOf();
    forall i: nat, x | i < |candidate| && list(x) != [] && check(i, x).0
      ensures list(check(i, x).1) == list(x) + [candidate[i]]
    {
      AcceptIsAtomic(u, x, candidate[i], clock(i));
    }
  }

  function HasChain(): Node -> bool
  {
    (n: Node) => n.Chain() != []
  }

  lemma OfferingGrows(u: Setup, n: Node, candidate: seq<Block>, clock: nat -> Clock, m: nat, k: nat)
    requires n.Chain() != []
    ensures Offering(u, n, candidate, clock, m, k).Chain() != []
  {
    var check, inv := Accepting(u, candidate, clock), HasChain();
    forall i: nat, x | inv(x) ensures inv(check(i, x).1) {
      if i < |candidate| {
        assert Accept(u, x, candidate[i], clock(i)).1.Chain() != [];
      }
    }
    ThroughKeeps(check, inv, m, k, n);
  }

  lemma TakenPasses(u: Setup, n: Node, candidate: seq<Block>, clock: nat -> Clock, m: nat, i: nat)
    requires i < |candidate| && n.Chain() != []
    ensures TakenAt(u, n, candidate, clock, m, i)
       <==> Accepting(u, candidate, clock)(i, Through(Accepting(u, candidate, clock), m, i, n)).0
  {
    OfferingGrows(u, n, candidate, clock, m, i);
  }

  lemma AllTakenPass(u: Setup, n: Node, candidate: seq<Block>, clock: nat -> Clock, m: nat, k: nat)
    requires k <= |candidate| && n.Chain() != []
    ensures AllTaken(u, n, candidate, clock, m, k) <==> AllPass(Accepting(u, candidate, clock), m, k, n)
  {
    forall i | m <= i < k
      ensures TakenAt(u, n, candidate, clock, m, i)
         <==> Accepting(u, candidate, clock)(i, Through(Accepting(u, candidate, clock), m, i, n)).0
    {
      TakenPasses(u, n, candidate, clock, m, i);
    }
  }

  lemma RefusedKeeps(u: Setup, candidate: seq<Block>, clock: nat -> Clock)
    requires AllOrdered(clock)
    ensures Retains(Accepting(u, candidate, clock), ChainOf())
  {
    var check, list := Accepting(u, candidate, clock), ChainOf();
    forall i: nat, x | list(x) != [] && !check(i, x).0 ensures list(check(i, x).1) == list(x) {
      AcceptIsAtomic(u, x, candidate[i], clock(i));
    }
  }

  /** A sweep appends the blocks up to the first that is refused. */
  lemma SweepJoins(u: Setup, n: Node, candidate: seq<Block>, clock: nat -> Clock, m: nat) returns (k: nat)
    requires n.Chain() != [] && m <= |candidate| && AllOrdered(clock)
    ensures var check := Accepting(u, candidate, clock);
            var (ok, r) := Sweep(check, m, |candidate|, n);
            && m <= k <= |candidate| && AllPass(check, m, k, n)
            && (k < |candidate| ==> !check(k, Through(check, m, k, n)).0)
            && ok == (k == |candidate|) && r.Chain() == n.Chain() + candidate[m..k]
  {
    AcceptingAppends(u, candidate, clock);
    RefusedKeeps(u, candidate, clock);
    k := SweepAppends(Accepting(u, candidate, clock), ChainOf(), candidate, m, n);
    assert forall x :: ChainOf()(x) == x.Chain();
  }

  // ---------- what a BLOCKS message does ----------

  /** The candidate begins with the blocks of the chain, as they are serialized. */
  ghost predicate BeginsLike(chain: seq<Block>, candidate: seq<Block>)
  {
    |chain| <= |candidate| && forall i | 0 <= i < |chain| :: EncBlock(chain[i]) == EncBlock(candidate[i])
  }

  lemma PrefixExactly(chain: seq<Block>, candidate: seq<Block>)
    requires |chain| <= |candidate|
    ensures SamePrefix(chain, candidate, |chain|) <==> BeginsLike(chain, candidate)
  {
    AlikeExactly(EncBlock, chain, candidate, |chain|);
  }

  lemma BeginsEqual(chain: seq<Block>, candidate: seq<Block>)
    requires BeginsLike(chain, candidate) && AllEncodable(chain) && AllEncodable(candidate)
    ensures chain + candidate[|chain|..] == candidate
  {
    forall i | 0 <= i < |chain| ensures chain[i] == candidate[i] {
      BlockInjective(chain[i], candidate[i]);
    }
    assert chain == candidate[..|chain|];
  }

  /** The rest of the candidate joins up to the first block that is refused, and the answer is whether none is. */
  ghost predicate Joins(u: Setup, n: Node, candidate: seq<Block>, clock: nat -> Clock,
                        k: nat, answer: bool, chain: seq<Block>)
    requires n.Chain() != [] && |n.Chain()| <= |candidate|
  {
    var m := |n.Chain()|;
    && m <= k <= |candidate| && AllTaken(u, n, candidate, clock, m, k)
    && (k < |candidate| ==> !TakenAt(u, n, candidate, clock, m, k))
    && (answer <==> k == |candidate|) && chain == n.Chain() + candidate[m..k]
  }

  lemma JoinedTo(u: Setup, n: Node, candidate: seq<Block>, clock: nat -> Clock) returns (k: nat)
    requires n.Chain() != [] && |n.Chain()| <= |candidate| && AllOrdered(clock)
    ensures var (ok, r) := Sweep(Accepting(u, candidate, clock), |n.Chain()|, |candidate|, n);
            Joins(u, n, candidate, clock, k, ok, r.Chain())
  {
    var m := |n.Chain()|;
    k := SweepJoins(u, n, candidate, clock, m);
    AllTakenPass(u, n, candidate, clock, m, k);
    if k < |candidate| {
      TakenPasses(u, n, candidate, clock, m, k);
    }
  }

  /**
   What a chain from a peer does to a node with fewer than 2^32 blocks. A candidate that is not longer changes
   nothing; one that is longer but begins differently costs the peer and changes nothing either; any other is
   taken over block by block up to the first that an accept step refuses.
   */
  lemma SyncAdopts(u: Setup, n: Node, candidate: seq<Block>, clock: nat -> Clock) returns (k: nat)
    requires 0 < |n.Chain()| < U32_SIZE && AllOrdered(clock)
    ensures var (ok, r) := Sync(u, n, candidate, clock);
            if |candidate| <= |n.Chain()| then ok && r == n
            else if !BeginsLike(n.Chain(), candidate) then !ok && r == n
            else Joins(u, n, candidate, clock, k, ok, r.Chain())
  {
    var m := |n.Chain()|;
    SmallRemainder(m, U32_SIZE);
    k := 0;
    if |candidate| > m {
      PrefixExactly(n.Chain(), candidate);
      if SamePrefix(n.Chain(), candidate, m) {
        k := JoinedTo(u, n, candidate, clock);
      }
    }
  }

  lemma JoinsAll(u: Setup, n: Node, candidate: seq<Block>, clock: nat -> Clock, k: nat, answer: bool, chain: seq<Block>)
    requires n.Chain() != [] && |n.Chain()| <= |candidate| && Joins(u, n, candidate, clock, k, answer, chain)
    requires AllTaken(u, n, candidate, clock, |n.Chain()|, |candidate|)
    ensures answer && chain == n.Chain() + candidate[|n.Chain()|..]
  {
    assert k == |candidate|;
  }

  /** So where every further block is taken in turn, the chain becomes the candidate. */
  lemma SyncCompletes(u: Setup, n: Node, candidate: seq<Block>, clock: nat -> Clock)
    requires 0 < |n.Chain()| < U32_SIZE && AllOrdered(clock)
    requires |candidate| > |n.Chain()| && BeginsLike(n.Chain(), candidate)
    requires AllEncodable(n.Chain()) && AllEncodable(candidate)
    requires AllTaken(u, n, candidate, clock, |n.Chain()|, |candidate|)
    ensures Sync(u, n, candidate, clock).0 && Sync(u, n, candidate, clock).1.Chain() == candidate
  {
    BeginsEqual(n.Chain(), candidate);
    var k := SyncAdopts(u, n, candidate, clock);
    var (ok, r) := Sync(u, n, candidate, clock);
    JoinsAll(u, n, candidate, clock, k, ok, r.Chain());
  }

  // ---------- what every block of a run has shown ----------

  /** The block names the proposer of its slot and is entitled to, as far as this registry goes. */
  ghost predicate Backed(u: Setup, vs: seq<Validator>, b: Block)
  {
    var slot := TenSeconds(b.timestamp);
    b.validatorAddress != [] && b.validatorAddress == u.engine.proposer(vs, slot) && Entitled(u.engine, vs, b, slot)
  }

  function Registry(): Node -> seq<Validator>
  {
    (n: Node) => n.view.consensus.validators
  }

  lemma CanAddBacked(u: Setup, v: View, b: Block, now: u64)
    requires u.enforced && v.chain != [] && CanAdd(u, v, b, now).0
    ensures Backed(u, v.consensus.validators, b) && CanAdd(u, v, b, now).1.validators == v.consensus.validators
  {
    AcceptedExactly(u.engine, v.consensus, b, b.timestamp);
  }

  lemma AcceptBacks(u: Setup, n: Node, b: Block, k: Clock)
    requires u.enforced && n.Chain() != [] && k.Ordered() && Accept(u, n, b, k).0
    ensures Backed(u, Registry()(n), b) && Registry()(Accept(u, n, b, k).1) == Registry()(n)
    ensures Accept(u, n, b, k).1.Chain() == n.Chain() + [b]
  {
    AcceptIsAtomic(u, n, b, k);
    CanAddBacked(u, n.view, b, k.checked);
  }

  lemma AcceptingSpares(u: Setup, candidate: seq<Block>, clock: nat -> Clock)
    requires u.enforced && AllOrdered(clock)
    ensures Spares(Accepting(u, candidate, clock), Registry())
  {
    var check, part := Accepting(u, candidate, clock), Registry();
    forall i: nat, x | check(i, x).0 ensures part(check(i, x).1) == part(x) {
      if i < |candidate| && x.Chain() != [] {
        AcceptBacks(u, x, candidate[i], clock(i));
      }
    }
  }

  lemma TakenBacked(u: Setup, n: Node, candidate: seq<Block>, clock: nat -> Clock, m: nat, k: nat, i: nat)
    requires u.enforced && n.Chain() != [] && AllOrdered(clock)
    requires m <= i < k <= |candidate| && AllPass(Accepting(u, candidate, clock), m, k, n)
    ensures Backed(u, Registry()(n), candidate[i])
  {
    var check := Accepting(u, candidate, clock);
    var x := Through(check, m, i, n);
    AcceptingSpares(u, candidate, clock);
    ThroughSpares(check, Registry(), m, i, n);
    OfferingGrows(u, n, candidate, clock, m, i);
    assert check(i, x).0;
    AcceptBacks(u, x, candidate[i], clock(i));
  }

  /** Every block from position `i` on is backed by the registry. */
  ghost predicate AllBacked(u: Setup, vs: seq<Validator>, chain: seq<Block>, i: nat)
  {
    forall j | i <= j < |chain| :: Backed(u, vs, chain[j])
  }

  lemma JoinedBacked(u: Setup, n: Node, candidate: seq<Block>, clock: nat -> Clock, m: nat, k: nat, chain: seq<Block>)
    requires u.enforced && n.Chain() != [] && AllOrdered(clock) && m <= k <= |candidate|
    requires AllPass(Accepting(u, candidate, clock), m, k, n) && chain == n.Chain() + candidate[m..k]
    ensures AllBacked(u, Registry()(n), chain, |n.Chain()|)
  {
    forall j | |n.Chain()| <= j < |chain| ensures Backed(u, Registry()(n), chain[j]) {
      TakenBacked(u, n, candidate, clock, m, k, m + j - |n.Chain()|);
    }
  }

  lemma SyncBacks(u: Setup, n: Node, candidate: seq<Block>, clock: nat -> Clock)
    requires u.enforced && n.Chain() != [] && AllOrdered(clock)
    ensures var r := Sync(u, n, candidate, clock).1;
            n.Chain() <= r.Chain() && AllBacked(u, Registry()(n), r.Chain(), |n.Chain()|)
  {
    var m := Counted(n.Chain());
    if |candidate| > m && m != 0 && SamePrefix(n.Chain(), candidate, m) {
      var k := SweepJoins(u, n, candidate, clock, m);
      JoinedBacked(u, n, candidate, clock, m, k, Sync(u, n, candidate, clock).1.Chain());
    }
  }

  lemma TakeBacks(u: Setup, n: Node, x: Step)
    requires u.enforced && n.Chain() != [] && Timely(x)
    ensures var r := Take(u, n, x);
            n.Chain() <= r.Chain() && AllBacked(u, Registry()(n), r.Chain(), |n.Chain()|)
  {
    match x {
      case Offered(b, k) =>
        AcceptIsAtomic(u, n, b, k);
        if Accept(u, n, b, k).0 {
          AcceptBacks(u, n, b, k);
        }
      case Candidate(bs, clock) => SyncBacks(u, n, bs, clock);
      case Elsewhere(_) =>
    }
  }

  /** At some moment of the run the registry backed the block. */
  ghost predicate BackedOnce(u: Setup, start: Node, steps: seq<Step>, b: Block)
  {
    exists j | 0 <= j < |steps| :: Backed(u, Registry()(Run(u, start, steps[..j])), b)
  }

  /**
   Over every run of a node with an engine: each block that joined the chain named the proposer of its slot,
   stated the stake and age of that validator and, where the validator has a key, carried a valid signature
   with it, all according to the registry of the moment it joined.
   */
  lemma {:induction false} RunsBacked(u: Setup, start: Node, steps: seq<Step>)
    requires u.enforced && start.Chain() != [] && AllTimely(steps)
    ensures var n := Run(u, start, steps);
            && start.Chain() <= n.Chain()
            && forall i | |start.Chain()| <= i < |n.Chain()| :: BackedOnce(u, start, steps, n.Chain()[i])
  {
    if steps != [] {
      var last := |steps| - 1;
      var before := steps[..last];
      RunsBacked(u, start, before);
      var m, n := Run(u, start, before), Run(u, start, steps);
      assert Timely(steps[last]);
      TakeBacks(u, m, steps[last]);
      forall i | |start.Chain()| <= i < |n.Chain()| ensures BackedOnce(u, start, steps, n.Chain()[i]) {
        if i < |m.Chain()| {
          var j :| 0 <= j < |before| && Backed(u, Registry()(Run(u, start, before[..j])), m.Chain()[i]);
          assert before[..j] == steps[..j];
        } else {
          assert Backed(u, Registry()(Run(u, start, steps[..last])), n.Chain()[i]);
        }
      }
    }
  }
}
