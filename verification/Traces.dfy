/** The unspent outputs of a node over whole runs: every row has an origin, and every loss an owner's signature. */
module Traces {
  import opened Bytes
  import opened Types
  import opened Chain
  import opened Folds
  import opened Ledger
  import opened Outputs
  import opened NodeRuns

  /** The chain extends that of the start, and the rows are traced by the transactions added since. */
  ghost predicate TracedNode(u: Setup, start: Node, n: Node)
  {
    && start.Chain() <= n.Chain()
    && Traced(u.C(), start.tables.utxos, Flat(TransactionsOf, n.Chain()[|start.Chain()|..]), n.tables.utxos)
  }

  lemma BlockTraced(u: Setup, start: Node, chain: seq<Block>, t: Tables, b: Block, now: u64)
    requires start.Chain() <= chain && ApplyBlock(u.C(), t, b, now).Some?
    requires Traced(u.C(), start.tables.utxos, Flat(TransactionsOf, chain[|start.Chain()|..]), t.utxos)
    ensures Traced(u.C(), start.tables.utxos, Flat(TransactionsOf, (chain + [b])[|start.Chain()|..]),
                   ApplyBlock(u.C(), t, b, now).value.utxos)
  {
    var i := |start.Chain()|;
    TracedThrough(u.C(), start.tables.utxos, Flat(TransactionsOf, chain[i..]), t.utxos, b.transactions, now);
    assert (chain + [b])[i..] == chain[i..] + [b];
    FlatSnoc(TransactionsOf, chain[i..], b);
  }

  lemma AcceptTraced(u: Setup, start: Node, n: Node, b: Block, k: Clock)
    requires n.Chain() != [] && TracedNode(u, start, n) && k.Ordered()
    ensures TracedNode(u, start, Accept(u, n, b, k).1)
  {
    AcceptIsAtomic(u, n, b, k);
    if Accept(u, n, b, k).0 {
      BlockTraced(u, start, n.Chain(), n.tables, b, k.applied);
    }
  }

  ghost function Tracing(u: Setup, start: Node): Node -> bool
  {
    (n: Node) => n.Chain() != [] && TracedNode(u, start, n)
  }

  lemma SyncTraced(u: Setup, start: Node, n: Node, candidate: seq<Block>, clock: nat -> Clock)
    requires Tracing(u, start)(n) && AllOrdered(clock)
    ensures Tracing(u, start)(Sync(u, n, candidate, clock).1)
  {
    var m := Counted(n.Chain());
    if |candidate| > m && m != 0 && SamePrefix(n.Chain(), candidate, m) {
      var check, inv := Accepting(u, candidate, clock), Tracing(u, start);
      forall i: nat, x | inv(x) ensures inv(check(i, x).1) {
        if i < |candidate| {
          AcceptTraced(u, start, x, candidate[i], clock(i));
        }
      }
      SweepKeeps(check, inv, m, |candidate|, n);
    }
  }

  /**
   Over every run, from any node with a chain: each unspent output is an initial one or carries address and
   amount of an output of a transaction in the added blocks, under the place of that output; and each initial
   output, and each output of such a transaction, is still unspent or was released by a later transaction with
   a valid signature by a key of its address.
   */
  lemma {:induction false} RunsTrace(u: Setup, start: Node, steps: seq<Step>)
    requires start.Chain() != [] && AllTimely(steps)
    ensures var n := Run(u, start, steps); n.Chain() != [] && TracedNode(u, start, n)
  {
    if steps == [] {
      assert start.Chain()[|start.Chain()|..] == [];
      TracedAtStart(u.C(), start.tables.utxos);
    } else {
      var last := |steps| - 1;
      RunsTrace(u, start, steps[..last]);
      var n := Run(u, start, steps[..last]);
      match steps[last] {
        case Offered(b, k) => AcceptTraced(u, start, n, b, k);
        case Candidate(bs, clock) =>
          assert Timely(steps[last]);
          SyncTraced(u, start, n, bs, clock);
        case Elsewhere(_) =>
      }
    }
  }
}
