/**
 What the calls of the token (src/vm/mermai_token.cpp) do to its holders: who gains and who loses how much,
 who may cause it, and over whole runs by what a balance can fall.
 */
module TokenLaws {
  import opened Bytes
  import opened MapSums
  import opened Tokens

  function Has(t: Token, a: Text): u64
  {
    if a in t.balances then t.balances[a] else 0
  }

  function May(t: Token, owner: Text, spender: Text): u64
  {
    if owner in t.allowances && spender in t.allowances[owner] then t.allowances[owner][spender] else 0
  }

  /** No holder has gained or lost anything. */
  ghost predicate SameBalances(t: Token, n: Token)
  {
    forall a :: Has(n, a) == Has(t, a)
  }

  ghost predicate SameAllowances(t: Token, n: Token)
  {
    forall a, b :: May(n, a, b) == May(t, a, b)
  }

  /** A refused call changes nothing that anybody can ask for. */
  ghost predicate Refused(t: Token, n: Token)
  {
    SameBalances(t, n) && SameAllowances(t, n) && n.supply == t.supply && n.log == t.log && n.owner == t.owner
  }

  /** `from` has lost the amount to `to`, who may be the same; a sum beyond 64 bits wraps around. */
  ghost predicate Handed(t: Token, n: Token, from: Text, to: Text, amount: u64)
  {
    && (from != to ==> Has(n, from) == Has(t, from) - amount && Has(n, to) == (Has(t, to) + amount) % U64_SIZE)
    && (from == to ==> Has(n, from) == Has(t, from))
    && forall a | a != from && a != to :: Has(n, a) == Has(t, a)
  }

  lemma SameSum(v: u64, amount: u64)
    requires amount <= v
    ensures (v - amount + amount) % U64_SIZE == v
  {
  }

  /** A transfer succeeds exactly if both have names and the caller holds the amount, and hands it over. */
  lemma TransfersExactly(t: Token, caller: Text, to: Text, amount: u64)
    ensures var (ok, n) := Answer(t, Transferring(caller, to, amount));
            && (ok <==> caller != [] && to != [] && Has(t, caller) >= amount)
            && (!ok ==> Refused(t, n))
            && (ok ==> && Handed(t, n, caller, to, amount) && SameAllowances(t, n) && n.supply == t.supply
                       && n.owner == t.owner && n.log == t.log + [Event(Transferred, caller, to, amount)])
  {
    if Has(t, caller) >= amount {
      SameSum(Has(t, caller), amount);
    }
  }

  /** Two different holders together hold no more than all. */
  lemma TwoBound(b: Balances, x: Text, y: Text)
    requires x != y
    ensures BalanceOf(b, x) + BalanceOf(b, y) <= Held(b)
  {
    if x in b {
      var less := b - {x};
      TotalRemove(b, Itself, x);
      BalanceBound(less, y);
      assert BalanceOf(less, y) == BalanceOf(b, y);
    } else {
      BalanceBound(b, y);
    }
  }

  /** Where balances add up to 64 bits nothing wraps around: the recipient gains what the other loses. */
  lemma HandedInFull(t: Token, n: Token, from: Text, to: Text, amount: u64)
    requires Handed(t, n, from, to, amount) && Held(t.balances) <= U64_MAX && from != to && Has(t, from) >= amount
    ensures Has(n, from) == Has(t, from) - amount && Has(n, to) == Has(t, to) + amount
  {
    TwoBound(t.balances, from, to);
    RemainderOf(Has(t, to) + amount, U64_SIZE, 0, Has(t, to) + amount);
  }

  /** An approval sets the allowance of one spender, and nothing else. */
  lemma ApprovesExactly(t: Token, caller: Text, spender: Text, amount: u64)
    ensures var (ok, n) := Answer(t, Approving(caller, spender, amount));
            && (ok <==> caller != [] && spender != [])
            && (!ok ==> Refused(t, n))
            && (ok ==> && May(n, caller, spender) == amount
                       && (forall a, b | a != caller || b != spender :: May(n, a, b) == May(t, a, b))
                       && SameBalances(t, n) && n.supply == t.supply && n.owner == t.owner
                       && n.log == t.log + [Event(Approved, caller, spender, amount)])
  {
  }

  lemma DrawAnswers(t: Token, spender: Text, from: Text, to: Text, amount: u64)
    ensures var (ok, n) := Answer(t, Drawing(spender, from, to, amount));
            && (ok <==> && spender != [] && from != [] && to != []
                        && Has(t, from) >= amount && May(t, from, spender) >= amount)
            && (!ok ==> Refused(t, n))
  {
  }

  lemma DrawHands(t: Token, spender: Text, from: Text, to: Text, amount: u64)
    requires Answer(t, Drawing(spender, from, to, amount)).0 && Has(t, from) >= amount
    ensures Handed(t, Answer(t, Drawing(spender, from, to, amount)).1, from, to, amount)
  {
    SameSum(Has(t, from), amount);
  }

  lemma DrawTakes(t: Token, spender: Text, from: Text, to: Text, amount: u64)
    requires Answer(t, Drawing(spender, from, to, amount)).0
    ensures var n := Answer(t, Drawing(spender, from, to, amount)).1;
            && May(n, from, spender) == May(t, from, spender) - amount
            && forall a, b | a != from || b != spender :: May(n, a, b) == May(t, a, b)
  {
  }

  /** A draw needs balance and allowance, hands the amount over and takes it off the allowance. */
  lemma DrawsExactly(t: Token, spender: Text, from: Text, to: Text, amount: u64)
    ensures var (ok, n) := Answer(t, Drawing(spender, from, to, amount));
            && (ok <==> && spender != [] && from != [] && to != []
                        && Has(t, from) >= amount && May(t, from, spender) >= amount)
            && (!ok ==> Refused(t, n))
            && (ok ==> && Handed(t, n, from, to, amount) && n.supply == t.supply && n.owner == t.owner
                       && May(n, from, spender) == May(t, from, spender) - amount
                       && (forall a, b | a != from || b != spender :: May(n, a, b) == May(t, a, b))
                       && n.log == t.log + [Event(Transferred, from, to, amount)])
  {
    DrawAnswers(t, spender, from, to, amount);
    if Answer(t, Drawing(spender, from, to, amount)).0 {
      DrawHands(t, spender, from, to, amount);
      DrawTakes(t, spender, from, to, amount);
    }
  }

  /** Only the owner mints, and what is minted is new supply. */
  lemma MintsExactly(t: Token, caller: Text, to: Text, amount: u64)
    ensures var (ok, n) := Answer(t, Minting(caller, to, amount));
            && (ok <==> caller == t.owner && to != [])
            && (!ok ==> Refused(t, n))
            && (ok ==> && Has(n, to) == (Has(t, to) + amount) % U64_SIZE && n.supply == (t.supply + amount) % U64_SIZE
                       && (forall a | a != to :: Has(n, a) == Has(t, a))
                       && SameAllowances(t, n) && n.owner == t.owner
                       && n.log == t.log + [Event(Minted, [], to, amount)])
  {
  }

  /** Holders burn their own tokens, out of the supply. */
  lemma BurnsExactly(t: Token, caller: Text, amount: u64)
    ensures var (ok, n) := Answer(t, Burning(caller, amount));
            && (ok <==> Has(t, caller) >= amount)
            && (!ok ==> Refused(t, n))
            && (ok ==> && Has(n, caller) == Has(t, caller) - amount && n.supply == (t.supply - amount) % U64_SIZE
                       && (forall a | a != caller :: Has(n, a) == Has(t, a))
                       && SameAllowances(t, n) && n.owner == t.owner
                       && n.log == t.log + [Event(Burnt, caller, [], amount)])
  {
  }

  /** A new token: the owner holds the supply, if there is one, and nobody else holds anything. */
  lemma CreatesExactly(owner: Text, supply: u64)
    ensures var t := Create(owner, supply);
            && t.owner == owner && t.supply == supply
            && (forall a :: Has(t, a) == if a == owner && a != [] then supply else 0)
            && (forall a, b :: May(t, a, b) == 0)
            && t.log == if supply > 0 && owner != [] then [Event(Transferred, [], owner, supply)] else []
  {
  }

  // ---------- by what a balance can fall ----------

  /** The call moves or burns the holder's own tokens, or draws on what the holder has allowed. */
  predicate Lowers(t: Token, call: Call, a: Text)
  {
    match call
    case Transferring(caller, _, _) => caller == a
    case Burning(caller, _) => caller == a
    case Drawing(spender, from, _, amount) => from == a && amount <= May(t, a, spender)
    case _ => false
  }

  function AmountOf(call: Call): nat
  {
    match call
    case Transferring(_, _, amount) => amount
    case Approving(_, _, amount) => amount
    case Drawing(_, _, _, amount) => amount
    case Minting(_, _, amount) => amount
    case Burning(_, amount) => amount
    case Clearing => 0
  }

  lemma HandedFalls(t: Token, n: Token, from: Text, to: Text, amount: u64, a: Text)
    requires Handed(t, n, from, to, amount) && Held(t.balances) <= U64_MAX && Has(t, from) >= amount
    requires Has(n, a) < Has(t, a)
    ensures a == from && Has(t, a) - Has(n, a) == amount
  {
    if from != to {
      HandedInFull(t, n, from, to, amount);
    }
  }

  lemma AnswerFalls(t: Token, call: Call, a: Text)
    requires Solvent(t) && MintFits(t, call)
    requires Has(Answer(t, call).1, a) < Has(t, a)
    ensures Answer(t, call).0 && Lowers(t, call, a) && Has(t, a) - Has(Answer(t, call).1, a) == AmountOf(call)
  {
    var n := Answer(t, call).1;
    match call {
      case Transferring(caller, to, amount) =>
        TransfersExactly(t, caller, to, amount);
        HandedFalls(t, n, caller, to, amount, a);
      case Approving(caller, spender, amount) => ApprovesExactly(t, caller, spender, amount);
      case Drawing(spender, from, to, amount) =>
        DrawsExactly(t, spender, from, to, amount);
        HandedFalls(t, n, from, to, amount, a);
      case Minting(caller, to, amount) => MintRaises(t, caller, to, amount, a);
      case Burning(caller, amount) => BurnsExactly(t, caller, amount);
      case Clearing =>
    }
  }

  lemma MintRaises(t: Token, caller: Text, to: Text, amount: u64, a: Text)
    requires Solvent(t) && MintFits(t, Minting(caller, to, amount))
    ensures Has(Answer(t, Minting(caller, to, amount)).1, a) >= Has(t, a)
  {
    MintsExactly(t, caller, to, amount);
    BalanceBound(t.balances, to);
    if Answer(t, Minting(caller, to, amount)).0 {
      RemainderOf(Has(t, to) + amount, U64_SIZE, 0, Has(t, to) + amount);
    }
  }

  /**
   Over any run without an overflowing mint: where a call lowers a balance it succeeds, lowers it by its own
   amount, and is a transfer or burn of the holder or a draw within what the holder has allowed.
   */
  lemma FallsOnlyBy(t: Token, calls: seq<Call>, i: nat, a: Text)
    requires Solvent(t) && AllFit(t, calls) && i < |calls|
    requires Has(Run(t, calls[..i + 1]), a) < Has(Run(t, calls[..i]), a)
    ensures var before := Run(t, calls[..i]);
            && Answer(before, calls[i]).0 && Lowers(before, calls[i], a)
            && Has(before, a) - Has(Run(t, calls[..i + 1]), a) == AmountOf(calls[i])
  {
    var before := calls[..i];
    forall j | 0 <= j < |before| ensures MintFits(Run(t, before[..j]), before[j]) {
      assert before[..j] == calls[..j];
    }
    RunsSolvent(t, before);
    assert calls[..i + 1][..i] == before;
    AnswerFalls(Run(t, before), calls[i], a);
  }

  lemma NothingAllowed(t: Token, calls: seq<Call>, owner: Text, spender: Text)
    requires May(t, owner, spender) == 0
    ensures (exists j | 0 <= j < |calls| :: Reapproves(calls[j], owner, spender))
         || May(Run(t, calls), owner, spender) == 0
  {
    if forall j | 0 <= j < |calls| :: !Reapproves(calls[j], owner, spender) {
      AllowanceFalls(t, calls, owner, spender);
    }
  }

  /** What nobody has approved nobody can draw: a draw of more than nothing follows an approval by the holder. */
  lemma DrawsNeedApproval(t: Token, calls: seq<Call>, i: nat)
    requires forall a, b :: May(t, a, b) == 0
    requires i < |calls| && calls[i].Drawing? && calls[i].amount > 0 && Answer(Run(t, calls[..i]), calls[i]).0
    ensures exists j | 0 <= j < i :: Reapproves(calls[j], calls[i].from, calls[i].spender)
  {
    var call, before := calls[i], calls[..i];
    DrawsExactly(Run(t, before), call.spender, call.from, call.to, call.amount);
    NothingAllowed(t, before, call.from, call.spender);
    var j :| 0 <= j < |before| && Reapproves(before[j], call.from, call.spender);
    assert Reapproves(calls[j], call.from, call.spender);
  }
}
