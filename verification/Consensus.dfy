/**
 The validator registry and the proposal check of src/consensus/mermai_consensus.cpp. Floating-point
 weights are left arbitrary: the proposer of a slot, the positivity of a weight and the stake that
 remains after a slash are functions of the engine.
 */
module Consensus {
  import opened Bytes
  import opened Types
  import opened Codec
  import opened BlockCodec

  datatype Validator = Validator(address: Text, amount: u64, lockTime: u64, lastProposal: u64, publicKey: Text)

  datatype Engine = Engine(
    crypto: Crypto,
    proposer: (seq<Validator>, u64) -> Text,
    hasWeight: (Validator, u64) -> bool,
    slashed: u64 -> u64)

  const MIN_STAKE: u64 := 1000000
  const SLOT_SECONDS: u64 := 10

  function BlockHash(c: Crypto, b: Block): Text
  {
    Hex(c.sha(EncBlock(b)))
  }

  /** `verify_validator_signature`: the signature covers the block without it. */
  predicate SealValid(c: Crypto, b: Block)
  {
    && b.validatorPublicKey != [] && b.validatorSignature != []
    && c.wholeKey(b.validatorPublicKey)
    && c.validSig(b.validatorPublicKey, EncBlock(b.(validatorSignature := [])), b.validatorSignature)
  }

  /** A seal covers everything but itself: blocks with one sealed text differ in the signature only. */
  lemma SealCovers(a: Block, b: Block)
    requires FitsBlock(WIDEST, a) && FitsBlock(WIDEST, b)
    requires EncBlock(a.(validatorSignature := [])) == EncBlock(b.(validatorSignature := []))
    ensures a == b.(validatorSignature := a.validatorSignature)
  {
    BlockInjective(a.(validatorSignature := []), b.(validatorSignature := []));
  }

  function Slot(time: u64): u64
  {
    time - time % SLOT_SECONDS
  }

  // ---------- the registry ----------

  ghost predicate UniqueAddresses(vs: seq<Validator>)
  {
    forall i, j | 0 <= i < j < |vs| :: vs[i].address != vs[j].address
  }

  /** The position of the first validator with an address, or the length. */
  function Find(vs: seq<Validator>, address: Text): (n: nat)
    ensures n <= |vs|
    ensures n < |vs| ==> vs[n].address == address
    ensures forall i | 0 <= i < n :: vs[i].address != address
  {
    if vs == [] || vs[0].address == address then 0 else 1 + Find(vs[1..], address)
  }

  function SlashAt(e: Engine, vs: seq<Validator>, address: Text): (r: seq<Validator>)
    ensures |r| == |vs| && forall i | 0 <= i < |vs| :: r[i].address == vs[i].address
  {
    var n := Find(vs, address);
    if n < |vs| then vs[n := vs[n].(amount := e.slashed(vs[n].amount))] else vs
  }

  /** What `remove_if` leaves. */
  function Without(vs: seq<Validator>, address: Text): seq<Validator>
  {
    if vs == [] then []
    else
      var n := |vs| - 1;
      Without(vs[..n], address) + if vs[n].address == address then [] else [vs[n]]
  }

  lemma {:induction false} WithoutAbsent(vs: seq<Validator>, address: Text)
    requires forall i | 0 <= i < |vs| :: vs[i].address != address
    ensures Without(vs, address) == vs
  {
    if vs != [] {
      var n := |vs| - 1;
      WithoutAbsent(vs[..n], address);
      assert vs == vs[..n] + [vs[n]];
    }
  }

  /** Where addresses are unique, removing an address takes out one validator. */
  lemma {:induction false} WithoutTakesOne(vs: seq<Validator>, n: nat)
    requires UniqueAddresses(vs) && n < |vs|
    ensures Without(vs, vs[n].address) == vs[..n] + vs[n + 1..]
  {
    var last := |vs| - 1;
    if n == last {
      WithoutAbsent(vs[..last], vs[n].address);
      assert vs[..last] + [] == vs[..n] + vs[n + 1..];
    } else {
      WithoutTakesOne(vs[..last], n);
      assert vs[..n] + vs[..last][n + 1..] + [vs[last]] == vs[..n] + vs[n + 1..];
    }
  }

  // ---------- proposals ----------

  type Seen = map<(u32, u64), Text>

  datatype State = State(seen: Seen, validators: seq<Validator>)

  /** The check after the double-proposal test: the block states the proposer's stake and age and is signed. */
  predicate Authorized(e: Engine, vs: seq<Validator>, b: Block, slot: u64, expected: Text)
  {
    var n := Find(vs, expected);
    && n < |vs|
    && b.validatorStake == vs[n].amount
    && b.validatorAge == (if slot >= vs[n].lockTime then slot - vs[n].lockTime else 0)
    && (vs[n].publicKey == [] || (b.validatorPublicKey == vs[n].publicKey && SealValid(e.crypto, b)))
    && e.hasWeight(vs[n], slot) && expected != []
  }

  /** The answer of `validate_proposal` and the state it leaves: it records first proposals and slashes second ones. */
  function ValidateProposal(e: Engine, s: State, b: Block, time: u64): (bool, State)
  {
    var slot := Slot(time);
    var expected := e.proposer(s.validators, slot);
    if expected == [] || b.validatorAddress != expected then (false, s)
    else
      var key, hash := (b.height, slot), BlockHash(e.crypto, b);
      if key in s.seen && s.seen[key] != hash then
        (false, s.(validators := SlashAt(e, s.validators, expected)))
      else
        (Authorized(e, s.validators, b, slot, expected), s.(seen := s.seen[key := hash]))
  }

  /** An accepted proposal leaves the validators alone and is accepted again. */
  lemma AcceptedAgain(e: Engine, s: State, b: Block, time: u64)
    requires ValidateProposal(e, s, b, time).0
    ensures var s' := ValidateProposal(e, s, b, time).1;
            s'.validators == s.validators && ValidateProposal(e, s', b, time) == (true, s')
  {
    var s' := ValidateProposal(e, s, b, time).1;
    var key := (b.height, Slot(time));
    assert s'.seen[key := s'.seen[key]] == s'.seen;
  }

  lemma HashDecides(c: Crypto, a: Block, b: Block)
    ensures BlockHash(c, a) == BlockHash(c, b) && FitsBlock(WIDEST, a) && FitsBlock(WIDEST, b) ==>
              a == b || CollisionIn(c.sha, {EncBlock(a), EncBlock(b)})
  {
    if BlockHash(c, a) == BlockHash(c, b) && FitsBlock(WIDEST, a) && FitsBlock(WIDEST, b) {
      var inputs := {EncBlock(a), EncBlock(b)};
      HexInjective(c.sha(EncBlock(a)), c.sha(EncBlock(b)));
      if EncBlock(a) == EncBlock(b) {
        BlockInjective(a, b);
      } else {
        assert EncBlock(a) in inputs && EncBlock(b) in inputs;
      }
    }
  }

  // ---------- the consensus object ----------

  /** `seen_proposals`, a static member: one record that all engines of a process share. */
  class ProposalRecord {
    var seen: Seen

    constructor ()
      ensures seen == map[]
    {
      seen := map[];
    }

    method ResetProposals()
      modifies this
      ensures seen == map[]
    {
      seen := map[];
    }
  }

  class Validators {
    const engine: Engine
    const record: ProposalRecord
    var active: seq<Validator>

    ghost function View(): State
      reads this, record
    {
      State(record.seen, active)
    }

    constructor (engine: Engine, record: ProposalRecord)
      ensures this.engine == engine && this.record == record && active == []
    {
      this.engine, this.record := engine, record;
      active := [];
    }

    /** `keyParses` is whether OpenSSL accepts the key; `now` becomes the lock time. */
    method RegisterValidator(address: Text, stake: u64, publicKey: Text, keyParses: bool, now: u64) returns (ok: bool)
      requires UniqueAddresses(active)
      modifies `active
      ensures UniqueAddresses(active)
      ensures ok == (stake >= MIN_STAKE && address != [] && (publicKey == [] || keyParses)
                     && Find(old(active), address) == |old(active)|)
      ensures active == if ok then old(active) + [Validator(address, stake, now, 0, publicKey)] else old(active)
    {
      if stake < MIN_STAKE || address == [] { return false; }
      if publicKey != [] && !keyParses { return false; }
      for i := 0 to |active|
        invariant Find(active, address) >= i
        invariant active == old(active)
      {
        if active[i].address == address { return false; }
      }
      active := active + [Validator(address, stake, now, 0, publicKey)];
      ok := true;
    }

    method RestoreValidator(stake: Validator) returns (ok: bool)
      requires UniqueAddresses(active)
      modifies `active
      ensures UniqueAddresses(active)
      ensures ok == (stake.address != [] && stake.amount >= MIN_STAKE && stake.lockTime != 0
                     && Find(old(active), stake.address) == |old(active)|)
      ensures active == if ok then old(active) + [stake] else old(active)
    {
      if stake.address == [] || stake.amount < MIN_STAKE || stake.lockTime == 0 { return false; }
      for i := 0 to |active|
        invariant Find(active, stake.address) >= i
        invariant active == old(active)
      {
        if active[i].address == stake.address { return false; }
      }
      active := active + [stake];
      ok := true;
    }

    /** Takes exactly the validator with the address out of the registry. */
    method UnregisterValidator(address: Text) returns (ok: bool)
      requires UniqueAddresses(active)
      modifies `active
      ensures UniqueAddresses(active)
      ensures var n := Find(old(active), address);
              && ok == (n < |old(active)|)
              && active == if ok then old(active)[..n] + old(active)[n + 1..] else old(active)
    {
      var known := IsRegistered(address);
      if !known { return false; }
      WithoutTakesOne(active, Find(active, address));
      RemoveAll(address);
      ok := true;
    }

    method IsRegistered(address: Text) returns (known: bool)
      ensures known == (Find(active, address) < |active|)
    {
      var i := 0;
      while i < |active| && active[i].address != address
        invariant i <= Find(active, address)
      {
        i := i + 1;
      }
      known := i < |active|;
    }

    /** `remove_if`. */
    method RemoveAll(address: Text)
      modifies `active
      ensures active == Without(old(active), address)
    {
      var kept: seq<Validator> := [];
      for k := 0 to |active|
        invariant active == old(active) && kept == Without(active[..k], address)
      {
        assert active[..k + 1][..k] == active[..k];
        if active[k].address != address {
          kept := kept + [active[k]];
        }
      }
      assert active[..|active|] == active;
      active := kept;
    }

    /** Cuts the stake of the first validator with the address. */
    method SlashValidator(address: Text)
      modifies `active
      ensures active == SlashAt(engine, old(active), address)
    {
      var i := 0;
      while i < |active|
        invariant i <= Find(active, address) && active == old(active)
      {
        if active[i].address == address {
          active := active[i := active[i].(amount := engine.slashed(active[i].amount))];
          return;
        }
        i := i + 1;
      }
    }

    method ValidateProposalOf(b: Block, time: u64) returns (ok: bool)
      modifies this, record
      ensures (ok, View()) == ValidateProposal(engine, old(View()), b, time)
    {
      var slot := Slot(time);
      var expected := engine.proposer(active, slot);
      if expected == [] || b.validatorAddress != expected { return false; }
      var key, hash := (b.height, slot), BlockHash(engine.crypto, b);
      if key in record.seen {
        if record.seen[key] != hash {
          SlashValidator(expected);
          return false;
        }
        assert record.seen[key := hash] == record.seen;
      } else {
        record.seen := record.seen[key := hash];
      }
      ok := Authorize(b, slot, expected);
    }

    method Authorize(b: Block, slot: u64, expected: Text) returns (ok: bool)
      requires expected != []
      ensures ok == Authorized(engine, active, b, slot, expected)
    {
      var i := 0;
      while i < |active|
        invariant i <= Find(active, expected)
      {
        var v := active[i];
        if v.address == expected {
          var age := if slot >= v.lockTime then slot - v.lockTime else 0;
          var signed := v.publicKey == []
                        || (b.validatorPublicKey == v.publicKey && SealValid(engine.crypto, b));
          return b.validatorStake == v.amount && b.validatorAge == age && signed && engine.hasWeight(v, slot);
        }
        i := i + 1;
      }
      ok := false;
    }
  }
}
