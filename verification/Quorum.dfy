/** Quorum finality (`mermai_quorum_collector`, src/consensus/mermai_consensus.cpp). */
module Quorum {
  import opened Bytes
  import opened Decimals
  import opened Types
  import opened Consensus

  // ---------- stake ----------

  /** The stake of the validators whose address is in `who`. */
  function StakeOf(vs: seq<Validator>, who: set<Text>): nat
  {
    if vs == [] then 0 else (if vs[0].address in who then vs[0].amount else 0) + StakeOf(vs[1..], who)
  }

  function TotalStake(vs: seq<Validator>): nat
  {
    if vs == [] then 0 else vs[0].amount + TotalStake(vs[1..])
  }

  lemma {:induction false} InclusionExclusion(vs: seq<Validator>, a: set<Text>, b: set<Text>)
    ensures StakeOf(vs, a) + StakeOf(vs, b) == StakeOf(vs, a + b) + StakeOf(vs, a * b)
    ensures StakeOf(vs, a + b) <= TotalStake(vs)
  {
    if vs != [] {
      InclusionExclusion(vs[1..], a, b);
    }
  }

  lemma {:induction false} StakeBound(vs: seq<Validator>, a: set<Text>)
    ensures StakeOf(vs, a) <= TotalStake(vs)
  {
    if vs != [] {
      StakeBound(vs[1..], a);
    }
  }

  lemma {:induction false} StakeAbsent(vs: seq<Validator>, a: set<Text>, x: Text)
    requires Find(vs, x) == |vs|
    ensures StakeOf(vs, a + {x}) == StakeOf(vs, a)
  {
    if vs != [] {
      StakeAbsent(vs[1..], a, x);
    }
  }

  lemma NotAgain(vs: seq<Validator>)
    requires UniqueAddresses(vs) && vs != []
    ensures Find(vs[1..], vs[0].address) == |vs[1..]|
  {
    var rest := vs[1..];
    forall i | 0 <= i < |rest| ensures rest[i].address != vs[0].address {
      assert rest[i] == vs[i + 1];
    }
  }

  /** A registered address adds its own stake, once. */
  lemma {:induction false} StakeAdds(vs: seq<Validator>, a: set<Text>, x: Text)
    requires UniqueAddresses(vs) && x !in a && Find(vs, x) < |vs|
    ensures StakeOf(vs, a + {x}) == StakeOf(vs, a) + vs[Find(vs, x)].amount
  {
    if vs[0].address == x {
      NotAgain(vs);
      StakeAbsent(vs[1..], a, x);
    } else {
      StakeAdds(vs[1..], a, x);
    }
  }

  // ---------- the threshold ----------

  /** `stake * 3 >= total * 2` in 64-bit arithmetic. */
  predicate Passes(stake: u64, total: u64)
  {
    (stake * 3) % U64_SIZE >= (total * 2) % U64_SIZE
  }

  lemma PassesExactly(stake: u64, total: u64)
    requires stake <= total && total * 3 < U64_SIZE
    ensures Passes(stake, total) <==> 3 * stake >= 2 * total
  {
  }

  /**
   The multiplication decides two thirds correctly for every possible stake exactly when three times
   the total fits in 64 bits: beyond that some stake is judged wrongly, either way.
   */
  lemma ThresholdExact(total: u64)
    ensures (forall stake: u64 | stake <= total :: Passes(stake, total) <==> 3 * stake >= 2 * total)
        <==> 3 * total < U64_SIZE
  {
    if 3 * total < U64_SIZE {
      forall stake: u64 | stake <= total ensures Passes(stake, total) <==> 3 * stake >= 2 * total {
        PassesExactly(stake, total);
      }
    } else if 2 * total < U64_SIZE {
      var stake: u64 := (U64_SIZE + 2) / 3;
      assert stake <= total && 3 * stake >= 2 * total && !Passes(stake, total);
    } else {
      var stake: u64 := (2 * total - U64_SIZE + 2) / 3;
      assert stake <= total && 3 * stake < 2 * total && Passes(stake, total);
    }
  }

  // ---------- votes ----------

  /** `signing_payload`: address, hash, height and time, joined by colons. */
  function VotePayload(v: Vote): Text
  {
    v.validatorAddress + [COLON] + v.blockHash + [COLON] + Decimal(v.blockHeight) + [COLON] + Decimal(v.timestamp)
  }

  /** What is left of it without height and time. */
  function Ballot(v: Vote): Text
  {
    v.validatorAddress + [COLON] + v.blockHash
  }

  /** Two votes sign one text exactly if they agree in height, time and the joined text of address and hash. */
  lemma VotePayloadExactly(v: Vote, w: Vote)
    ensures VotePayload(v) == VotePayload(w)
       <==> v.blockHeight == w.blockHeight && v.timestamp == w.timestamp && Ballot(v) == Ballot(w)
  {
    if VotePayload(v) == VotePayload(w) {
      DecimalDigits(v.timestamp);
      DecimalDigits(w.timestamp);
      SplitAtLast(COLON, Ballot(v) + [COLON] + Decimal(v.blockHeight), Decimal(v.timestamp),
                  Ballot(w) + [COLON] + Decimal(w.blockHeight), Decimal(w.timestamp));
      DecimalDigits(v.blockHeight);
      DecimalDigits(w.blockHeight);
      SplitAtLast(COLON, Ballot(v), Decimal(v.blockHeight), Ballot(w), Decimal(w.blockHeight));
      DecimalInjective(v.timestamp, w.timestamp);
      DecimalInjective(v.blockHeight, w.blockHeight);
    }
  }

  /** What a validator signs determines the block hash it votes for, and height and time. */
  lemma VotePayloadBinds(v: Vote, w: Vote)
    requires v.validatorAddress == w.validatorAddress && VotePayload(v) == VotePayload(w)
    ensures v.blockHash == w.blockHash && v.blockHeight == w.blockHeight && v.timestamp == w.timestamp
  {
    VotePayloadExactly(v, w);
    var n := |v.validatorAddress| + 1;
    assert Ballot(v)[n..] == v.blockHash && Ballot(w)[n..] == w.blockHash;
  }

  /** The address is needed: colons in it move the boundary. */
  lemma VotePayloadConfused(height: u32, time: u64)
    ensures var v := Vote([97, COLON, 98], [99], height, time, [], []);
            var w := Vote([97], [98, COLON, 99], height, time, [], []);
            v.blockHash != w.blockHash && VotePayload(v) == VotePayload(w)
  {
    var v := Vote([97, COLON, 98], [99], height, time, [], []);
    var w := Vote([97], [98, COLON, 99], height, time, [], []);
    assert Ballot(v) == [97, COLON, 98, COLON, 99] == Ballot(w);
    VotePayloadExactly(v, w);
  }

  datatype Rules = Rules(crypto: Crypto, validators: seq<Validator>)

  /** A vote that counts: signed, by a registered validator with stake, under its key if it has one. */
  predicate Eligible(r: Rules, v: Vote)
  {
    var n := Find(r.validators, v.validatorAddress);
    && v.validatorPublicKey != [] && v.signature != []
    && r.crypto.validSig(v.validatorPublicKey, VotePayload(v), v.signature)
    && n < |r.validators| && r.validators[n].amount > 0
    && (r.validators[n].publicKey == [] || r.validators[n].publicKey == v.validatorPublicKey)
  }

  datatype Tally = Tally(votes: map<Text, seq<Vote>>, totals: map<Text, u64>, finalized: set<Text>)

  function VotesFor(t: Tally, hash: Text): seq<Vote>
  {
    if hash in t.votes then t.votes[hash] else []
  }

  function TotalFor(t: Tally, hash: Text): u64
  {
    if hash in t.totals then t.totals[hash] else 0
  }

  function Voters(votes: seq<Vote>): set<Text>
  {
    set i | 0 <= i < |votes| :: votes[i].validatorAddress
  }

  /** `get_total_active_stake`, which wraps at 64 bits. */
  function ActiveStake(vs: seq<Validator>): u64
  {
    TotalStake(vs) % U64_SIZE
  }

  function AddVote(r: Rules, t: Tally, v: Vote): (bool, Tally)
  {
    var h := v.blockHash;
    if !Eligible(r, v) then (false, t)
    else if v.validatorAddress in Voters(VotesFor(t, h)) then (true, t.(votes := t.votes[h := VotesFor(t, h)]))
    else (true, Record(t, v, (TotalFor(t, h) + r.validators[Find(r.validators, v.validatorAddress)].amount) % U64_SIZE,
                       ActiveStake(r.validators)))
  }

  /** A vote with the new total of its hash, which may make the hash final. */
  function Record(t: Tally, v: Vote, total: u64, active: u64): Tally
  {
    var h := v.blockHash;
    Tally(t.votes[h := VotesFor(t, h) + [v]], t.totals[h := total],
          if active > 0 && Passes(total, active) then t.finalized + {h} else t.finalized)
  }

  /** Every recorded vote counts, no validator twice, the totals are their stakes, and finality is two thirds. */
  ghost predicate Correct(r: Rules, t: Tally, h: Text)
  {
    var votes := VotesFor(t, h);
    var stake := StakeOf(r.validators, Voters(votes));
    && (forall i | 0 <= i < |votes| :: Eligible(r, votes[i]) && votes[i].blockHash == h)
    && (forall i, j | 0 <= i < j < |votes| :: votes[i].validatorAddress != votes[j].validatorAddress)
    && TotalFor(t, h) == stake
    && (h in t.finalized <==> votes != [] && 3 * stake >= 2 * TotalStake(r.validators))
  }

  ghost predicate Sound(r: Rules, t: Tally)
  {
    forall h :: Correct(r, t, h)
  }

  /** A fixed validator set whose tripled stake fits in 64 bits. */
  ghost predicate Proper(r: Rules)
  {
    UniqueAddresses(r.validators) && 3 * TotalStake(r.validators) < U64_SIZE
  }

  lemma {:induction false} PositiveTotal(vs: seq<Validator>, n: nat)
    requires n < |vs|
    ensures TotalStake(vs) >= vs[n].amount
  {
    if n > 0 {
      PositiveTotal(vs[1..], n - 1);
    }
  }

  lemma VotersGrow(votes: seq<Vote>, v: Vote)
    ensures Voters(votes + [v]) == Voters(votes) + {v.validatorAddress}
  {
    var all := votes + [v];
    forall a | a in Voters(votes) + {v.validatorAddress} ensures a in Voters(all) {
      if a == v.validatorAddress {
        assert all[|votes|] == v;
      } else {
        var i :| 0 <= i < |votes| && votes[i].validatorAddress == a;
        assert all[i].validatorAddress == a;
      }
    }
  }

  /** The stake after a new vote is that of all voters, and the 64-bit test on it is right. */
  lemma NewStake(r: Rules, t: Tally, v: Vote)
    requires Proper(r) && Correct(r, t, v.blockHash) && Eligible(r, v)
    requires v.validatorAddress !in Voters(VotesFor(t, v.blockHash))
    ensures var vs := r.validators;
            var stake := StakeOf(vs, Voters(VotesFor(t, v.blockHash)) + {v.validatorAddress});
            && (TotalFor(t, v.blockHash) + vs[Find(vs, v.validatorAddress)].amount) % U64_SIZE == stake < U64_SIZE
            && ActiveStake(vs) > 0 && (Passes(stake, ActiveStake(vs)) <==> 3 * stake >= 2 * TotalStake(vs))
            && stake >= StakeOf(vs, Voters(VotesFor(t, v.blockHash)))
  {
    var vs, voters := r.validators, Voters(VotesFor(t, v.blockHash));
    StakeAdds(vs, voters, v.validatorAddress);
    StakeBound(vs, voters + {v.validatorAddress});
    PositiveTotal(vs, Find(vs, v.validatorAddress));
    assert ActiveStake(vs) == TotalStake(vs);
    PassesExactly(StakeOf(vs, voters + {v.validatorAddress}), TotalStake(vs));
  }

  lemma RecordCorrect(r: Rules, t: Tally, v: Vote, total: u64, active: u64)
    requires Correct(r, t, v.blockHash) && Eligible(r, v) && active > 0
    requires v.validatorAddress !in Voters(VotesFor(t, v.blockHash))
    requires total == StakeOf(r.validators, Voters(VotesFor(t, v.blockHash)) + {v.validatorAddress})
    requires total >= StakeOf(r.validators, Voters(VotesFor(t, v.blockHash)))
    requires Passes(total, active) <==> 3 * total >= 2 * TotalStake(r.validators)
    ensures Correct(r, Record(t, v, total, active), v.blockHash)
  {
    var votes := VotesFor(t, v.blockHash);
    VotersGrow(votes, v);
    forall i | 0 <= i < |votes| ensures votes[i].validatorAddress != v.validatorAddress {
      assert votes[i].validatorAddress in Voters(votes);
    }
  }

  lemma NewVoteCorrect(r: Rules, t: Tally, v: Vote)
    requires Proper(r) && Correct(r, t, v.blockHash) && Eligible(r, v)
    requires v.validatorAddress !in Voters(VotesFor(t, v.blockHash))
    ensures Correct(r, AddVote(r, t, v).1, v.blockHash)
  {
    var stake := StakeOf(r.validators, Voters(VotesFor(t, v.blockHash)) + {v.validatorAddress});
    NewStake(r, t, v);
    RecordCorrect(r, t, v, stake, ActiveStake(r.validators));
  }

  lemma AddVoteElsewhere(r: Rules, t: Tally, v: Vote, h: Text)
    requires h != v.blockHash && Correct(r, t, h)
    ensures Correct(r, AddVote(r, t, v).1, h)
  {
    var t' := AddVote(r, t, v).1;
    assert VotesFor(t', h) == VotesFor(t, h) && TotalFor(t', h) == TotalFor(t, h);
  }

  /** Every vote, counted or not, keeps the tally sound. */
  lemma AddVoteSound(r: Rules, t: Tally, v: Vote)
    requires Proper(r) && Sound(r, t)
    ensures Sound(r, AddVote(r, t, v).1)
  {
    var t' := AddVote(r, t, v).1;
    forall h ensures Correct(r, t', h) {
      assert Correct(r, t, h);
      if h != v.blockHash {
        AddVoteElsewhere(r, t, v, h);
      } else if Eligible(r, v) && v.validatorAddress !in Voters(VotesFor(t, h)) {
        NewVoteCorrect(r, t, v);
      } else {
        assert VotesFor(t', h) == VotesFor(t, h);
      }
    }
  }

  const NO_VOTES: Tally := Tally(map[], map[], {})

  function Collect(r: Rules, votes: seq<Vote>): Tally
  {
    if votes == [] then NO_VOTES else AddVote(r, Collect(r, votes[..|votes| - 1]), votes[|votes| - 1]).1
  }

  /** After any sequence of votes: a hash is finalized iff the stake of its distinct voters reaches two thirds. */
  lemma {:induction false} CollectSound(r: Rules, votes: seq<Vote>)
    requires Proper(r)
    ensures Sound(r, Collect(r, votes))
  {
    if votes == [] {
      StakeNone(r.validators);
      forall h ensures Correct(r, NO_VOTES, h) {
        assert Voters(VotesFor(NO_VOTES, h)) == {};
      }
    } else {
      CollectSound(r, votes[..|votes| - 1]);
      AddVoteSound(r, Collect(r, votes[..|votes| - 1]), votes[|votes| - 1]);
    }
  }

  lemma {:induction false} StakeNone(vs: seq<Validator>)
    ensures StakeOf(vs, {}) == 0
  {
    if vs != [] {
      StakeNone(vs[1..]);
    }
  }

  /** The validators with a vote for `g` in one tally and a vote for `h` in another. */
  function Both(s: Tally, g: Text, t: Tally, h: Text): set<Text>
  {
    Voters(VotesFor(s, g)) * Voters(VotesFor(t, h))
  }

  ghost predicate CastFor(r: Rules, v: Vote, h: Text, a: Text)
  {
    v.validatorAddress == a && v.blockHash == h && Eligible(r, v)
  }

  /** Eligible votes of one validator, with signatures under different texts where the hashes differ. */
  ghost predicate Conflicting(r: Rules, v: Vote, g: Text, w: Vote, h: Text, a: Text)
  {
    CastFor(r, v, g, a) && CastFor(r, w, h, a) && (g != h ==> VotePayload(v) != VotePayload(w))
  }

  ghost predicate SignedBoth(r: Rules, s: Tally, g: Text, t: Tally, h: Text, a: Text)
  {
    exists v, w | v in VotesFor(s, g) && w in VotesFor(t, h) :: Conflicting(r, v, g, w, h, a)
  }

  /** Every voter of a sound tally has an eligible vote in it. */
  lemma VoteOf(r: Rules, t: Tally, h: Text, a: Text) returns (v: Vote)
    requires Correct(r, t, h) && a in Voters(VotesFor(t, h))
    ensures v in VotesFor(t, h) && CastFor(r, v, h, a)
  {
    var i :| 0 <= i < |VotesFor(t, h)| && VotesFor(t, h)[i].validatorAddress == a;
    v := VotesFor(t, h)[i];
  }

  /**
   Accountable safety across nodes: whatever votes two nodes have seen, a hash finalized by one and a
   hash finalized by the other share voters holding at least a third of the stake, and each of these
   has cast an eligible vote for either hash. Where the hashes differ it has signed two different texts.
   */
  lemma FinalizedIntersect(r: Rules, xs: seq<Vote>, g: Text, ys: seq<Vote>, h: Text)
    requires Proper(r)
    requires g in Collect(r, xs).finalized && h in Collect(r, ys).finalized
    ensures 3 * StakeOf(r.validators, Both(Collect(r, xs), g, Collect(r, ys), h)) >= TotalStake(r.validators)
    ensures forall a | a in Both(Collect(r, xs), g, Collect(r, ys), h) ::
              SignedBoth(r, Collect(r, xs), g, Collect(r, ys), h, a)
  {
    var s, t := Collect(r, xs), Collect(r, ys);
    CollectSound(r, xs);
    CollectSound(r, ys);
    assert Correct(r, s, g) && Correct(r, t, h);
    InclusionExclusion(r.validators, Voters(VotesFor(s, g)), Voters(VotesFor(t, h)));
    forall a | a in Both(s, g, t, h) ensures SignedBoth(r, s, g, t, h, a) {
      var v := VoteOf(r, s, g, a);
      var w := VoteOf(r, t, h, a);
      if g != h && VotePayload(v) == VotePayload(w) {
        VotePayloadBinds(v, w);
      }
      assert Conflicting(r, v, g, w, h, a);
    }
  }

  // ---------- the collector object ----------

  class Collector {
    const crypto: Crypto
    var blockVotes: map<Text, seq<Vote>>
    var voteStakeTotals: map<Text, u64>
    var finalizedBlocks: set<Text>

    ghost function View(): Tally
      reads this
    {
      Tally(blockVotes, voteStakeTotals, finalizedBlocks)
    }

    constructor (crypto: Crypto)
      ensures this.crypto == crypto && View() == NO_VOTES
    {
      this.crypto := crypto;
      blockVotes, voteStakeTotals, finalizedBlocks := map[], map[], {};
    }

    /** Looks the voter up: its stake, or zero if the vote does not count. */
    method VoterStake(v: Vote, validators: seq<Validator>) returns (found: bool, stake: u64)
      ensures found == Eligible(Rules(crypto, validators), v)
      ensures found ==> stake == validators[Find(validators, v.validatorAddress)].amount
    {
      stake := 0;
      if v.validatorPublicKey == [] || v.signature == []
         || !crypto.validSig(v.validatorPublicKey, VotePayload(v), v.signature) {
        return false, 0;
      }
      var i := 0;
      while i < |validators|
        invariant i <= Find(validators, v.validatorAddress)
      {
        var val := validators[i];
        if val.address == v.validatorAddress {
          if val.publicKey != [] && val.publicKey != v.validatorPublicKey { return false, 0; }
          return val.amount != 0, val.amount;
        }
        i := i + 1;
      }
      found := false;
    }

    method TotalActiveStake(validators: seq<Validator>) returns (total: u64)
      ensures total == ActiveStake(validators)
    {
      total := 0;
      for i := 0 to |validators|
        invariant total == ActiveStake(validators[..i])
      {
        assert validators[..i + 1] == validators[..i] + [validators[i]];
        TotalSnoc(validators[..i], validators[i]);
        total := (total + validators[i].amount) % U64_SIZE;
      }
      assert validators[..|validators|] == validators;
    }

    method HasVoted(votes: seq<Vote>, address: Text) returns (voted: bool)
      ensures voted == (address in Voters(votes))
    {
      for i := 0 to |votes|
        invariant forall j | 0 <= j < i :: votes[j].validatorAddress != address
      {
        if votes[i].validatorAddress == address { return true; }
      }
      voted := false;
    }

    /** Records a vote and tests the new total. */
    method Count(v: Vote, votes: seq<Vote>, stake: u64, active: u64)
      requires votes == VotesFor(View(), v.blockHash)
      modifies this
      ensures View() == Record(old(View()), v, (TotalFor(old(View()), v.blockHash) + stake) % U64_SIZE, active)
    {
      var h := v.blockHash;
      blockVotes := blockVotes[h := votes + [v]];
      var total := ((if h in voteStakeTotals then voteStakeTotals[h] else 0) + stake) % U64_SIZE;
      voteStakeTotals := voteStakeTotals[h := total];
      if active > 0 && (total * 3) % U64_SIZE >= (active * 2) % U64_SIZE {
        finalizedBlocks := finalizedBlocks + {h};
      }
    }

    method AddVoteTo(v: Vote, validators: seq<Validator>) returns (ok: bool)
      modifies this
      ensures (ok, View()) == AddVote(Rules(crypto, validators), old(View()), v)
    {
      var found, stake := VoterStake(v, validators);
      if !found { return false; }
      var h := v.blockHash;
      var votes := if h in blockVotes then blockVotes[h] else [];
      var voted := HasVoted(votes, v.validatorAddress);
      if voted {
        blockVotes := blockVotes[h := votes];
        return true;
      }
      var active := TotalActiveStake(validators);
      Count(v, votes, stake, active);
      ok := true;
    }
  }

  lemma {:induction false} TotalSnoc(vs: seq<Validator>, v: Validator)
    ensures TotalStake(vs + [v]) == TotalStake(vs) + v.amount
  {
    if vs == [] {
      assert vs + [v] == [v];
    } else {
      assert (vs + [v])[1..] == vs[1..] + [v];
      TotalSnoc(vs[1..], v);
    }
  }
}
