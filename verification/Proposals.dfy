/**
 Histories of proposal checks (`validate_proposal`, src/consensus/mermai_consensus.cpp). The record of
 first proposals is shared by all engines of a process; between two calls the validators may change in
 any way, but the record is not reset.
 */
module Proposals {
  import opened Bytes
  import opened Types
  import opened Codec
  import opened BlockCodec
  import opened Consensus

  datatype Call = Call(engine: Engine, validators: seq<Validator>, block: Block, time: u64)

  function Key(c: Call): (u32, u64)
  {
    (c.block.height, Slot(c.time))
  }

  function HashOf(c: Call): Text
  {
    BlockHash(c.engine.crypto, c.block)
  }

  function Expected(c: Call): Text
  {
    c.engine.proposer(c.validators, Slot(c.time))
  }

  /** The block is offered in the name of the expected proposer. */
  predicate Named(c: Call)
  {
    Expected(c) != [] && c.block.validatorAddress == Expected(c)
  }

  /** It states the proposer's stake and age and carries its seal. */
  predicate IsAuthorized(c: Call)
  {
    Authorized(c.engine, c.validators, c.block, Slot(c.time), Expected(c))
  }

  function Answer(seen: Seen, c: Call): (bool, Seen)
  {
    var (ok, s) := ValidateProposal(c.engine, State(seen, c.validators), c.block, c.time);
    (ok, s.seen)
  }

  /** The record of first proposals after a history of calls. */
  function SeenAfter(answer: (Seen, Call) -> (bool, Seen), seen: Seen, calls: seq<Call>): Seen
  {
    if calls == [] then seen
    else answer(SeenAfter(answer, seen, calls[..|calls| - 1]), calls[|calls| - 1]).1
  }

  predicate AcceptedAt(seen: Seen, calls: seq<Call>, i: nat)
    requires i < |calls|
  {
    Answer(SeenAfter(Answer, seen, calls[..i]), calls[i]).0
  }

  // ---------- which proposals are accepted ----------

  /** Entry `i` is the first of the registry with this address. */
  predicate FirstNamed(vs: seq<Validator>, i: nat, address: Text)
  {
    i < |vs| && vs[i].address == address && forall j | 0 <= j < i :: vs[j].address != address
  }

  /** The block carries the key and a valid signature by it under everything but the signature. */
  predicate SignedWith(c: Crypto, key: Text, b: Block)
  {
    && b.validatorPublicKey == key && key != [] && c.wholeKey(key) && b.validatorSignature != []
    && c.validSig(key, EncBlock(b.(validatorSignature := [])), b.validatorSignature)
  }

  /** The block states stake and age of the validator it names, and is signed with its key if there is one. */
  ghost predicate Entitled(e: Engine, vs: seq<Validator>, b: Block, slot: u64)
  {
    exists i | 0 <= i < |vs| ::
      && FirstNamed(vs, i, b.validatorAddress)
      && b.validatorStake == vs[i].amount
      && b.validatorAge == (if vs[i].lockTime <= slot then slot - vs[i].lockTime else 0)
      && e.hasWeight(vs[i], slot)
      && (vs[i].publicKey != [] ==> SignedWith(e.crypto, vs[i].publicKey, b))
  }

  /** The start of the ten seconds a time falls in. */
  function TenSeconds(time: u64): u64
  {
    time / 10 * 10
  }

  /** The block names the proposer of its slot and is entitled to, and no other block was first for its slot. */
  ghost predicate Proposable(e: Engine, s: State, b: Block, time: u64)
  {
    var slot := TenSeconds(time);
    && b.validatorAddress != [] && b.validatorAddress == e.proposer(s.validators, slot)
    && Entitled(e, s.validators, b, slot)
    && ((b.height, slot) in s.seen ==> s.seen[(b.height, slot)] == Hex(e.crypto.sha(EncBlock(b))))
  }

  lemma SlotIsTenSeconds(time: u64)
    ensures Slot(time) == TenSeconds(time)
  {
  }

  lemma FirstNamedIsFound(vs: seq<Validator>, i: nat, address: Text)
    requires i < |vs|
    ensures FirstNamed(vs, i, address) <==> i == Find(vs, address)
  {
  }

  lemma EntitledExactly(e: Engine, vs: seq<Validator>, b: Block, slot: u64)
    requires b.validatorAddress != []
    ensures Authorized(e, vs, b, slot, b.validatorAddress) <==> Entitled(e, vs, b, slot)
  {
    var n := Find(vs, b.validatorAddress);
    if n < |vs| {
      FirstNamedIsFound(vs, n, b.validatorAddress);
    }
    forall i | 0 <= i < |vs| && FirstNamed(vs, i, b.validatorAddress) ensures i == n {
      FirstNamedIsFound(vs, i, b.validatorAddress);
    }
  }

  /**
   Exactly when a proposal is accepted; it is then the one recorded for its height and slot, and the
   validators stay as they are.
   */
  lemma AcceptedExactly(e: Engine, s: State, b: Block, time: u64)
    ensures var (ok, t) := ValidateProposal(e, s, b, time);
            && (ok <==> Proposable(e, s, b, time))
            && (ok ==> t == State(s.seen[(b.height, TenSeconds(time)) := Hex(e.crypto.sha(EncBlock(b)))], s.validators))
  {
    SlotIsTenSeconds(time);
    if b.validatorAddress != [] {
      EntitledExactly(e, s.validators, b, Slot(time));
    }
  }

  // ---------- one block for a slot ----------

  /** Nothing recorded is changed, and what is accepted is what is recorded. */
  lemma AnswerKeeps(seen: Seen, c: Call)
    ensures var (ok, seen') := Answer(seen, c);
            && (forall k | k in seen :: k in seen' && seen'[k] == seen[k])
            && (ok ==> Key(c) in seen' && seen'[Key(c)] == HashOf(c))
  {
  }

  ghost predicate NeverForgets(answer: (Seen, Call) -> (bool, Seen))
  {
    forall seen, c, k | k in seen :: k in answer(seen, c).1 && answer(seen, c).1[k] == seen[k]
  }

  lemma AnswerNeverForgets()
    ensures NeverForgets(Answer)
  {
    forall seen, c, k | k in seen ensures k in Answer(seen, c).1 && Answer(seen, c).1[k] == seen[k] {
      AnswerKeeps(seen, c);
    }
  }

  lemma {:induction false} SeenKept(answer: (Seen, Call) -> (bool, Seen), seen: Seen, calls: seq<Call>,
                                    i: nat, j: nat, k: (u32, u64))
    requires NeverForgets(answer)
    requires i <= j <= |calls| && k in SeenAfter(answer, seen, calls[..i])
    ensures k in SeenAfter(answer, seen, calls[..j])
         && SeenAfter(answer, seen, calls[..j])[k] == SeenAfter(answer, seen, calls[..i])[k]
    decreases j
  {
    if i < j {
      SeenKept(answer, seen, calls, i, j - 1, k);
      assert calls[..j][..j - 1] == calls[..j - 1];
    }
  }

  lemma OneHashPerSlot(seen: Seen, calls: seq<Call>, i: nat, j: nat)
    requires i < j < |calls| && Key(calls[i]) == Key(calls[j])
    requires AcceptedAt(seen, calls, i) && AcceptedAt(seen, calls, j)
    ensures HashOf(calls[i]) == HashOf(calls[j])
  {
    assert calls[..i + 1][..i] == calls[..i];
    AnswerKeeps(SeenAfter(Answer, seen, calls[..i]), calls[i]);
    AnswerNeverForgets();
    SeenKept(Answer, seen, calls, i + 1, j, Key(calls[i]));
    AnswerKeeps(SeenAfter(Answer, seen, calls[..j]), calls[j]);
  }

  /**
   Over any history of calls without a reset, through any engines of the process and with validators
   joining, leaving and being slashed in between, at most one block is accepted for a height and slot:
   two accepted ones are equal or their serializations collide under SHA-256.
   */
  lemma OneBlockPerSlot(c: Crypto, seen: Seen, calls: seq<Call>, i: nat, j: nat)
    requires i < j < |calls| && Key(calls[i]) == Key(calls[j])
    requires AcceptedAt(seen, calls, i) && AcceptedAt(seen, calls, j)
    requires calls[i].engine.crypto == calls[j].engine.crypto == c
    ensures BlockHash(c, calls[i].block) == BlockHash(c, calls[j].block)
    ensures FitsBlock(WIDEST, calls[i].block) && FitsBlock(WIDEST, calls[j].block) ==>
              calls[i].block == calls[j].block
              || CollisionIn(c.sha, {EncBlock(calls[i].block), EncBlock(calls[j].block)})
  {
    OneHashPerSlot(seen, calls, i, j);
    HashDecides(c, calls[i].block, calls[j].block);
  }

  // ---------- double proposals ----------

  /** The call that slashes. */
  predicate DoubleProposal(seen: Seen, c: Call)
  {
    Named(c) && Key(c) in seen && seen[Key(c)] != HashOf(c)
  }

  /** A double proposal costs the expected proposer and nobody else, and nothing else costs anybody. */
  lemma SlashesExactly(seen: Seen, c: Call)
    ensures ValidateProposal(c.engine, State(seen, c.validators), c.block, c.time).1.validators
         == if DoubleProposal(seen, c) then SlashAt(c.engine, c.validators, Expected(c)) else c.validators
    ensures DoubleProposal(seen, c) ==> Answer(seen, c) == (false, seen)
  {
  }

  /** A call in the proposer's name is recorded if it is the first for its slot, authorized or not. */
  lemma AnswerRecords(seen: Seen, c: Call)
    ensures Answer(seen, c).1 == if Named(c) && Key(c) !in seen then seen[Key(c) := HashOf(c)] else seen
    ensures Named(c) && Key(c) !in seen ==> Answer(seen, c).0 == IsAuthorized(c)
  {
    if Key(c) in seen {
      assert seen[Key(c) := seen[Key(c)]] == seen;
    }
  }

  /** The first call in its proposer's name for a slot. */
  ghost predicate First(calls: seq<Call>, i: nat, k: (u32, u64))
  {
    && i < |calls| && Named(calls[i]) && Key(calls[i]) == k
    && forall j | 0 <= j < i :: !(Named(calls[j]) && Key(calls[j]) == k)
  }

  ghost predicate Claimed(calls: seq<Call>, k: (u32, u64))
  {
    exists i | 0 <= i < |calls| :: Named(calls[i]) && Key(calls[i]) == k
  }

  lemma ClaimedLast(calls: seq<Call>, k: (u32, u64))
    requires calls != []
    ensures var last := calls[|calls| - 1];
            Claimed(calls, k) <==> Claimed(calls[..|calls| - 1], k) || (Named(last) && Key(last) == k)
  {
    var n := |calls| - 1;
    assert calls == calls[..n] + [calls[n]];
    if i :| 0 <= i < |calls| && Named(calls[i]) && Key(calls[i]) == k {
      assert i == n || calls[..n][i] == calls[i];
    }
    if i :| 0 <= i < n && Named(calls[..n][i]) && Key(calls[..n][i]) == k {
      assert calls[i] == calls[..n][i];
    }
  }

  lemma FirstNotClaimed(calls: seq<Call>, i: nat, k: (u32, u64))
    requires First(calls, i, k)
    ensures !Claimed(calls[..i], k)
  {
  }

  /** The record knows exactly the slots that were claimed. */
  lemma {:induction false} RecordedExactly(calls: seq<Call>, k: (u32, u64))
    ensures k in SeenAfter(Answer, map[], calls) <==> Claimed(calls, k)
  {
    if calls != [] {
      var n := |calls| - 1;
      RecordedExactly(calls[..n], k);
      AnswerRecords(SeenAfter(Answer, map[], calls[..n]), calls[n]);
      ClaimedLast(calls, k);
    }
  }

  /** It holds, for each of them, the first block claimed. */
  lemma RecordedIsFirst(calls: seq<Call>, i: nat, k: (u32, u64))
    requires First(calls, i, k)
    ensures k in SeenAfter(Answer, map[], calls) && SeenAfter(Answer, map[], calls)[k] == HashOf(calls[i])
  {
    FirstNotClaimed(calls, i, k);
    RecordedExactly(calls[..i], k);
    AnswerRecords(SeenAfter(Answer, map[], calls[..i]), calls[i]);
    assert calls[..i + 1][..i] == calls[..i] && calls[..|calls|] == calls;
    AnswerNeverForgets();
    SeenKept(Answer, map[], calls, i + 1, |calls|, k);
  }

  lemma {:induction false} FirstExists(calls: seq<Call>, k: (u32, u64)) returns (i: nat)
    requires Claimed(calls, k)
    ensures First(calls, i, k)
  {
    var n := |calls| - 1;
    ClaimedLast(calls, k);
    if Claimed(calls[..n], k) {
      i := FirstExists(calls[..n], k);
      assert forall j | 0 <= j <= i :: calls[..n][j] == calls[j];
    } else {
      i := n;
      assert forall j | 0 <= j < n :: calls[..n][j] == calls[j];
    }
  }

  /**
   Exactly when a call slashes, over any history since the last reset: when another block was the first
   to be claimed for its slot in its proposer's name. Whether either block is authorized plays no part.
   */
  lemma SlashedExactly(calls: seq<Call>, c: Call)
    ensures DoubleProposal(SeenAfter(Answer, map[], calls), c)
       <==> Named(c) && exists i: nat :: First(calls, i, Key(c)) && HashOf(calls[i]) != HashOf(c)
  {
    RecordedExactly(calls, Key(c));
    if Claimed(calls, Key(c)) {
      var i := FirstExists(calls, Key(c));
      RecordedIsFirst(calls, i, Key(c));
      forall j: nat | First(calls, j, Key(c)) ensures HashOf(calls[j]) == HashOf(calls[i]) {
        RecordedIsFirst(calls, j, Key(c));
      }
    }
  }

  /**
   So a slash follows an accepted block for the same slot exactly when the block first claimed for it
   was authorized.
   */
  lemma SlashBackedExactly(calls: seq<Call>, i: nat, k: (u32, u64))
    requires First(calls, i, k)
    ensures AcceptedAt(map[], calls, i) <==> IsAuthorized(calls[i])
  {
    FirstNotClaimed(calls, i, k);
    RecordedExactly(calls[..i], k);
    AnswerRecords(SeenAfter(Answer, map[], calls[..i]), calls[i]);
  }

  /** Otherwise the proposer pays for a block it did not seal: its own block comes second. */
  lemma UnauthorizedClaimSlashes(seen: Seen, claim: Call, own: Call)
    requires Named(claim) && Named(own) && Key(claim) == Key(own) && HashOf(claim) != HashOf(own)
    requires Key(own) !in seen && !IsAuthorized(claim) && IsAuthorized(own)
    ensures !Answer(seen, claim).0 && DoubleProposal(Answer(seen, claim).1, own)
    ensures Answer(seen, own).0
  {
    AnswerRecords(seen, claim);
    AnswerRecords(seen, own);
  }
}
