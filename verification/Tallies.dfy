/** Which votes a quorum collector counts (src/consensus/mermai_consensus.cpp), and that it counts all of them. */
module Tallies {
  import opened Bytes
  import opened Types
  import opened Consensus
  import opened Proposals
  import opened Quorum

  /**
   A vote that counts: signed by its key under its own text, in the name of a validator that is registered with
   stake and with this key or none.
   */
  ghost predicate Counts(r: Rules, v: Vote)
  {
    && v.validatorPublicKey != [] && v.signature != []
    && r.crypto.validSig(v.validatorPublicKey, VotePayload(v), v.signature)
    && exists i | 0 <= i < |r.validators| ::
         && FirstNamed(r.validators, i, v.validatorAddress) && r.validators[i].amount > 0
         && (r.validators[i].publicKey == [] || r.validators[i].publicKey == v.validatorPublicKey)
  }

  lemma CountsExactly(r: Rules, v: Vote)
    ensures Eligible(r, v) <==> Counts(r, v)
  {
    var n := Find(r.validators, v.validatorAddress);
    if n < |r.validators| {
      FirstNamedIsFound(r.validators, n, v.validatorAddress);
    }
    forall i | 0 <= i < |r.validators| && FirstNamed(r.validators, i, v.validatorAddress) ensures i == n {
      FirstNamedIsFound(r.validators, i, v.validatorAddress);
    }
  }

  /** The answer to a vote is whether it counts; votes for other hashes stay as they are. */
  lemma AnswersExactly(r: Rules, t: Tally, v: Vote, h: Text)
    ensures var (ok, n) := AddVote(r, t, v);
            && (ok <==> Counts(r, v))
            && (h != v.blockHash ==> VotesFor(n, h) == VotesFor(t, h) && TotalFor(n, h) == TotalFor(t, h)
                                     && (h in n.finalized <==> h in t.finalized))
  {
    CountsExactly(r, v);
  }

  /** Everybody with a vote for the hash that counts. */
  ghost function Casters(r: Rules, votes: seq<Vote>, h: Text): set<Text>
  {
    set v | v in votes && Counts(r, v) && v.blockHash == h :: v.validatorAddress
  }

  lemma CastersSnoc(r: Rules, votes: seq<Vote>, v: Vote, h: Text)
    ensures Casters(r, votes + [v], h)
         == Casters(r, votes, h) + if Counts(r, v) && v.blockHash == h then {v.validatorAddress} else {}
  {
    var more := Casters(r, votes + [v], h);
    forall a | a in Casters(r, votes, h) ensures a in more {
      var w :| w in votes && Counts(r, w) && w.blockHash == h && w.validatorAddress == a;
      assert w in votes + [v];
    }
    if Counts(r, v) && v.blockHash == h {
      assert v in votes + [v];
    }
  }

  lemma VotersNext(r: Rules, t: Tally, v: Vote, h: Text)
    ensures Voters(VotesFor(AddVote(r, t, v).1, h))
         == Voters(VotesFor(t, h)) + if Counts(r, v) && v.blockHash == h then {v.validatorAddress} else {}
  {
    CountsExactly(r, v);
    if Counts(r, v) && v.blockHash == h {
      VotersGrow(VotesFor(t, h), v);
    }
  }

  /** No vote that counts is lost: the voters of a hash are all who cast one. */
  lemma {:induction false} VotersExactly(r: Rules, votes: seq<Vote>, h: Text)
    ensures Voters(VotesFor(Collect(r, votes), h)) == Casters(r, votes, h)
  {
    if votes != [] {
      var n := |votes| - 1;
      VotersExactly(r, votes[..n], h);
      VotersNext(r, Collect(r, votes[..n]), votes[n], h);
      CastersSnoc(r, votes[..n], votes[n], h);
      assert votes == votes[..n] + [votes[n]];
    }
  }

  /**
   Finality, read off the votes themselves: a hash is final exactly if somebody cast a vote for it that counts
   and those who did hold two thirds of the stake; its total is their stake.
   */
  lemma FinalExactly(r: Rules, votes: seq<Vote>, h: Text)
    requires Proper(r)
    ensures var t, casters := Collect(r, votes), Casters(r, votes, h);
            && (h in t.finalized <==>
                  casters != {} && 3 * StakeOf(r.validators, casters) >= 2 * TotalStake(r.validators))
            && TotalFor(t, h) == StakeOf(r.validators, casters)
  {
    var t := Collect(r, votes);
    CollectSound(r, votes);
    VotersExactly(r, votes, h);
    assert Correct(r, t, h);
    if VotesFor(t, h) != [] {
      assert VotesFor(t, h)[0].validatorAddress in Voters(VotesFor(t, h));
    }
  }
}
