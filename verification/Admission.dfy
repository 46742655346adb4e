/**
 Exactly which transactions, blocks and chains are taken (src/core/mermai_blockchain.cpp), in terms of what
 they contain, and what the chain is afterwards.
 */
module Admission {
  import opened Bytes
  import opened Types
  import opened Codec
  import opened BlockCodec
  import opened Consensus
  import opened Proposals
  import opened BlockRoot
  import opened Chain
  import opened Folds

  // ---------- transactions ----------

  /** The outputs that inputs name. */
  function Named(ins: seq<TxInput>): set<(Text, u32)>
  {
    set i | i in ins :: (i.prevTxHash, i.prevOutputIdx)
  }

  /** What outputs are worth together. */
  function Paid(outs: seq<TxOutput>): nat
  {
    if outs == [] then 0 else outs[0].amount + Paid(outs[1..])
  }

  /** A key that has signed a text. */
  predicate HasSigned(c: Crypto, i: TxInput, text: Text)
  {
    i.publicKey != [] && i.signature != [] && c.validSig(i.publicKey, text, i.signature)
  }

  /** A transaction that `verify` passes: as many named outputs as inputs, so that none is named twice. */
  predicate Payable(c: Crypto, tx: Transaction, now: u64)
  {
    && tx.id != [] && 1 <= |tx.inputs| <= 1000 && 1 <= |tx.outputs| <= 1000 && tx.timestamp <= now + 120
    && |Named(tx.inputs)| == |tx.inputs|
    && (forall i | i in tx.inputs :: i.prevTxHash != [] && HasSigned(c, i, EncTx(Unsigned(tx))))
    && (forall o | o in tx.outputs :: o.address != [] && o.amount > 0)
    && Paid(tx.outputs) < 0x1_0000_0000_0000_0000
  }

  lemma NamedLast(ins: seq<TxInput>)
    requires ins != []
    ensures var n := |ins| - 1; Named(ins) == Named(ins[..n]) + {Outpoint(ins[n])}
  {
    var n := |ins| - 1;
    assert ins == ins[..n] + [ins[n]];
  }

  lemma {:induction false} NamedBound(ins: seq<TxInput>)
    ensures |Named(ins)| <= |ins|
  {
    if ins != [] {
      NamedBound(ins[..|ins| - 1]);
      NamedLast(ins);
    }
  }

  predicate Repeats(ins: seq<TxInput>, last: TxInput)
  {
    exists i | 0 <= i < |ins| :: Outpoint(ins[i]) == Outpoint(last)
  }

  lemma NamedMember(ins: seq<TxInput>, last: TxInput)
    ensures Outpoint(last) in Named(ins) <==> Repeats(ins, last)
  {
    if Outpoint(last) in Named(ins) {
      var x :| x in ins && Outpoint(x) == Outpoint(last);
      var i :| 0 <= i < |ins| && ins[i] == x;
    }
    if i :| 0 <= i < |ins| && Outpoint(ins[i]) == Outpoint(last) {
      assert ins[i] in ins;
    }
  }

  predicate AllDiffer(ins: seq<TxInput>)
  {
    forall i, j | 0 <= i < j < |ins| :: Outpoint(ins[i]) != Outpoint(ins[j])
  }

  lemma DifferLast(ins: seq<TxInput>)
    requires ins != []
    ensures var n := |ins| - 1; AllDiffer(ins) <==> AllDiffer(ins[..n]) && !Repeats(ins[..n], ins[n])
  {
    var n := |ins| - 1;
    assert forall i | 0 <= i < n :: ins[..n][i] == ins[i];
  }

  /** There are as many named outputs as inputs exactly if no two inputs name one. */
  lemma {:induction false} NamedExactly(ins: seq<TxInput>)
    ensures |Named(ins)| == |ins| <==> AllDiffer(ins)
  {
    if ins != [] {
      var n := |ins| - 1;
      NamedExactly(ins[..n]);
      NamedBound(ins[..n]);
      NamedLast(ins);
      NamedMember(ins[..n], ins[n]);
      DifferLast(ins);
    }
  }

  lemma {:induction false} PaidSnoc(outs: seq<TxOutput>, o: TxOutput)
    ensures Paid(outs + [o]) == Paid(outs) + o.amount
  {
    if outs == [] {
      assert outs + [o] == [o] && [o][1..] == [];
    } else {
      assert (outs + [o])[1..] == outs[1..] + [o];
      PaidSnoc(outs[1..], o);
    }
  }

  lemma {:induction false} PaidIsSum(outs: seq<TxOutput>)
    ensures Paid(outs) == SumOutputs(outs)
  {
    if outs != [] {
      var n := |outs| - 1;
      PaidIsSum(outs[..n]);
      PaidSnoc(outs[..n], outs[n]);
      assert outs == outs[..n] + [outs[n]];
    }
  }

  lemma VerifiesExactly(c: Crypto, tx: Transaction, now: u64)
    ensures VerifyTx(c, tx, now) <==> Payable(c, tx, now)
  {
    NamedExactly(tx.inputs);
    PaidIsSum(tx.outputs);
  }

  /** What an input has to sign leaves the signatures out and nothing else. */
  lemma SignedTextExactly(a: Transaction, b: Transaction)
    requires FitsTx(WIDEST, a) && FitsTx(WIDEST, b)
    ensures EncTx(Unsigned(a)) == EncTx(Unsigned(b))
       <==> && a.id == b.id && a.outputs == b.outputs && a.fee == b.fee && a.timestamp == b.timestamp
            && |a.inputs| == |b.inputs|
            && forall i | 0 <= i < |a.inputs| ::
                 && a.inputs[i].prevTxHash == b.inputs[i].prevTxHash
                 && a.inputs[i].prevOutputIdx == b.inputs[i].prevOutputIdx
                 && a.inputs[i].publicKey == b.inputs[i].publicKey
  {
    if EncTx(Unsigned(a)) == EncTx(Unsigned(b)) {
      SignatureCovers(a, b);
    }
    if && a.id == b.id && a.outputs == b.outputs && a.fee == b.fee && a.timestamp == b.timestamp
       && |a.inputs| == |b.inputs|
       && forall i | 0 <= i < |a.inputs| :: Unsign(a.inputs[i]) == Unsign(b.inputs[i])
    {
      assert Unsigned(a).inputs == Unsigned(b).inputs;
    }
  }

  // ---------- blocks ----------

  /** Few enough transactions of different ids that all verify, under their root. */
  ghost predicate Acceptable(c: Crypto, b: Block, now: u64)
  {
    && |b.transactions| <= 10000
    && b.merkleRoot == (if b.transactions == [] then [] else TreeHash(c.sha, b.transactions))
    && (forall i, j | 0 <= i < j < |b.transactions| :: b.transactions[i].id != b.transactions[j].id)
    && forall tx | tx in b.transactions :: Payable(c, tx, now)
  }

  lemma BodyExactly(c: Crypto, b: Block, now: u64)
    ensures BodyOk(c, b, now) <==> Acceptable(c, b, now)
  {
    forall tx | tx in b.transactions ensures VerifyTx(c, tx, now) <==> Payable(c, tx, now) {
      VerifiesExactly(c, tx, now);
    }
    if Acceptable(c, b, now) {
      forall i | 0 <= i < |b.transactions| ensures VerifyTx(c, b.transactions[i], now) {
        assert b.transactions[i] in b.transactions;
      }
    }
  }

  function DigestOf(c: Crypto, b: Block): Text
  {
    Hex(c.sha(EncBlock(b)))
  }

  /** Where an engine is attached the block has to be proposable at its own time. */
  ghost predicate Proposed(u: Setup, s: State, b: Block)
  {
    u.enforced ==> Proposable(u.engine, s, b, b.timestamp)
  }

  /**
   Exactly when a block is added, and what the chain is then: the block follows the tip in height, hash and
   time, is not from the future, states a proposer with stake, is proposable and has a sound body.
   */
  lemma AddsExactly(u: Setup, v: View, b: Block, now: u64)
    requires v.chain != []
    ensures var (ok, w) := Add(u, v, b, now);
            var tip := v.chain[|v.chain| - 1];
            && (ok <==> && b.height == |v.chain| && b.prevBlockHash == DigestOf(u.C(), tip)
                        && tip.timestamp <= b.timestamp <= now + 120
                        && b.validatorAddress != [] && b.validatorStake > 0
                        && Proposed(u, v.consensus, b) && Acceptable(u.C(), b, now))
            && w.chain == (if ok then v.chain + [b] else v.chain)
  {
    BodyExactly(u.C(), b, now);
    ProposesExactly(u, v.consensus, b);
    FollowsTipExactly(u, v.chain, b, now);
  }

  lemma ProposesExactly(u: Setup, s: State, b: Block)
    ensures Propose(u, s, b).0 <==> Proposed(u, s, b)
  {
    AcceptedExactly(u.engine, s, b, b.timestamp);
  }

  lemma FollowsTipExactly(u: Setup, chain: seq<Block>, b: Block, now: u64)
    requires chain != []
    ensures ExtendsTip(u, chain, b, now)
       <==> var tip := chain[|chain| - 1];
            && b.height == |chain| && b.prevBlockHash == DigestOf(u.C(), tip)
            && tip.timestamp <= b.timestamp <= now + 120 && b.validatorAddress != [] && b.validatorStake > 0
  {
    assert DigestOf(u.C(), chain[|chain| - 1]) != [];
  }

  // ---------- longer chains ----------

  /** Two blocks of a candidate claim one height and slot with different hashes. */
  predicate Rivals(c: Crypto, a: Block, b: Block)
  {
    a.height == b.height && TenSeconds(a.timestamp) == TenSeconds(b.timestamp) && DigestOf(c, a) != DigestOf(c, b)
  }

  /** Block `i` names the proposer of its slot, is entitled to, and rivals nothing recorded or earlier. */
  ghost predicate ProposedIn(e: Engine, s: State, candidate: seq<Block>, i: nat)
    requires i < |candidate|
  {
    Proposable(e, s, candidate[i], candidate[i].timestamp)
    && forall j | 0 < j < i :: !Rivals(e.crypto, candidate[j], candidate[i])
  }

  /** Block `i` follows block `i - 1`; the first has nothing to follow. */
  predicate Follows(c: Crypto, candidate: seq<Block>, i: nat)
    requires i < |candidate|
  {
    var b := candidate[i];
    && b.height == i % 0x1_0000_0000
    && (if i == 0 then b.prevBlockHash == ZERO_HASH
        else && b.prevBlockHash == DigestOf(c, candidate[i - 1]) && candidate[i - 1].timestamp <= b.timestamp
             && b.validatorAddress != [] && b.validatorStake > 0)
  }

  /** Block `i` of a candidate is in order; the first is not proposed by anybody. */
  ghost predicate Passes(u: Setup, s: State, candidate: seq<Block>, i: nat, now: u64)
    requires i < |candidate|
  {
    && Follows(u.C(), candidate, i) && Acceptable(u.C(), candidate[i], now)
    && (i > 0 && u.enforced ==> ProposedIn(u.engine, s, candidate, i))
  }

  function SlotKey(b: Block): (u32, u64)
  {
    (b.height, TenSeconds(b.timestamp))
  }

  /** What the record holds after the blocks before `i` have passed. */
  ghost predicate Recorded(digest: Block -> Text, before: Seen, candidate: seq<Block>, i: nat, seen: Seen)
    requires i <= |candidate|
  {
    && (forall k | k in before :: k in seen && seen[k] == before[k])
    && (forall j | 0 < j < i :: SlotKey(candidate[j]) in seen && seen[SlotKey(candidate[j])] == digest(candidate[j]))
    && forall k | k in seen :: k in before || exists j | 0 < j < i :: SlotKey(candidate[j]) == k
  }

  function Digests(c: Crypto): Block -> Text
  {
    b => DigestOf(c, b)
  }

  /** The consensus state before block `i` is judged. */
  ghost predicate StateAt(u: Setup, s: State, candidate: seq<Block>, i: nat, t: State)
    requires i <= |candidate|
  {
    if u.enforced
    then t.validators == s.validators && Recorded(Digests(u.C()), s.seen, candidate, i, t.seen)
    else t == s
  }

  /** Against the record as it is by then a block is proposable exactly if it rivals nothing. */
  lemma ProposableThen(e: Engine, s: State, candidate: seq<Block>, i: nat, t: State)
    requires i < |candidate| && t.validators == s.validators
    requires Recorded(Digests(e.crypto), s.seen, candidate, i, t.seen)
    ensures Proposable(e, t, candidate[i], candidate[i].timestamp) <==> ProposedIn(e, s, candidate, i)
  {
    var b := candidate[i];
    if ProposedIn(e, s, candidate, i) && SlotKey(b) in t.seen && SlotKey(b) !in s.seen {
      var j :| 0 < j < i && SlotKey(candidate[j]) == SlotKey(b);
      assert !Rivals(e.crypto, candidate[j], b);
    }
  }

  lemma RecordedNext(digest: Block -> Text, before: Seen, candidate: seq<Block>, i: nat, seen: Seen)
    requires 0 < i < |candidate| && Recorded(digest, before, candidate, i, seen)
    requires SlotKey(candidate[i]) in seen ==> seen[SlotKey(candidate[i])] == digest(candidate[i])
    ensures Recorded(digest, before, candidate, i + 1, seen[SlotKey(candidate[i]) := digest(candidate[i])])
  {
    var after := seen[SlotKey(candidate[i]) := digest(candidate[i])];
    forall k | k in after ensures k in before || exists j | 0 < j < i + 1 :: SlotKey(candidate[j]) == k {
      if k in seen && k !in before {
        var j :| 0 < j < i && SlotKey(candidate[j]) == k;
      }
    }
  }

  lemma FollowsExactly(u: Setup, candidate: seq<Block>, i: nat)
    requires i < |candidate|
    ensures LinkOk(u, candidate, i) <==> Follows(u.C(), candidate, i) && |candidate[i].transactions| <= 10000
  {
  }

  lemma ChecksExactly(u: Setup, s: State, candidate: seq<Block>, i: nat, t: State, now: u64)
    requires i < |candidate| && StateAt(u, s, candidate, i, t)
    ensures var (ok, w) := CheckOne(u, candidate, i, t, now);
            (ok <==> Passes(u, s, candidate, i, now)) && (ok ==> StateAt(u, s, candidate, i + 1, w))
  {
    var b := candidate[i];
    FollowsExactly(u, candidate, i);
    BodyExactly(u.C(), b, now);
    if i > 0 && u.enforced {
      AcceptedExactly(u.engine, t, b, b.timestamp);
      ProposableThen(u.engine, s, candidate, i, t);
      if CheckOne(u, candidate, i, t, now).0 {
        RecordedNext(Digests(u.C()), s.seen, candidate, i, t.seen);
      }
    }
  }

  ghost function Standing(u: Setup, s: State, candidate: seq<Block>): (nat, State) -> bool
  {
    (i: nat, t: State) => i <= |candidate| && StateAt(u, s, candidate, i, t)
  }

  ghost function Passing(u: Setup, s: State, candidate: seq<Block>, now: u64): nat -> bool
  {
    (i: nat) => i < |candidate| && Passes(u, s, candidate, i, now)
  }

  ghost predicate DecidedAt(
    check: (nat, State) -> (bool, State), at: (nat, State) -> bool, passes: nat -> bool, i: nat, t: State)
  {
    (check(i, t).0 <==> passes(i)) && (check(i, t).0 ==> at(i + 1, check(i, t).1))
  }

  lemma CheckerApplied(u: Setup, s: State, candidate: seq<Block>, now: u64, i: nat, t: State)
    requires i < |candidate|
    ensures Checker(u, candidate, now)(i, t) == CheckOne(u, candidate, i, t, now)
    ensures Passing(u, s, candidate, now)(i) == Passes(u, s, candidate, i, now)
  {
  }

  lemma CheckerDecidesAt(u: Setup, s: State, candidate: seq<Block>, now: u64, i: nat, t: State)
    requires i < |candidate| && StateAt(u, s, candidate, i, t)
    ensures DecidedAt(Checker(u, candidate, now), Standing(u, s, candidate), Passing(u, s, candidate, now), i, t)
  {
    CheckerApplied(u, s, candidate, now, i, t);
    ChecksExactly(u, s, candidate, i, t, now);
  }

  lemma DecidedEverywhere(
    check: (nat, State) -> (bool, State), at: (nat, State) -> bool, passes: nat -> bool, n: nat)
    requires forall i: nat, t | i < n && at(i, t) :: DecidedAt(check, at, passes, i, t)
    ensures Decides(check, at, passes, n)
  {
  }

  lemma CheckerDecides(u: Setup, s: State, candidate: seq<Block>, now: u64)
    ensures Decides(Checker(u, candidate, now), Standing(u, s, candidate), Passing(u, s, candidate, now), |candidate|)
  {
    var check, at, passes := Checker(u, candidate, now), Standing(u, s, candidate), Passing(u, s, candidate, now);
    forall i: nat, t | i < |candidate| && at(i, t) ensures DecidedAt(check, at, passes, i, t) {
      CheckerDecidesAt(u, s, candidate, now, i, t);
    }
    DecidedEverywhere(check, at, passes, |candidate|);
  }

  /**
   Exactly when a candidate replaces the chain, and what the chain is then: it is longer and every block of it
   passes, against the registry as it is and the proposals recorded so far.
   */
  lemma ReplacesExactly(u: Setup, v: View, candidate: seq<Block>, now: u64)
    ensures var (ok, w) := Replace(u, v, candidate, now);
            && (ok <==> |candidate| > |v.chain|
                        && forall i | 0 <= i < |candidate| :: Passes(u, v.consensus, candidate, i, now))
            && w.chain == (if ok then candidate else v.chain)
  {
    var passes := Passing(u, v.consensus, candidate, now);
    CheckerDecides(u, v.consensus, candidate, now);
    assert Standing(u, v.consensus, candidate)(0, v.consensus);
    SweepDecides(Checker(u, candidate, now), Standing(u, v.consensus, candidate), passes, 0, |candidate|, v.consensus);
    assert forall i: nat | i < |candidate| :: passes(i) <==> Passes(u, v.consensus, candidate, i, now);
  }
}
