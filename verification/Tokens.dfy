/** The MRM-20 token (src/vm/mermai_token.cpp): what calls do to it, and what every run of calls keeps. */
module Tokens {
  import opened Bytes
  import opened MapSums

  type Balances = map<Text, u64>

  type Allowances = map<Text, map<Text, u64>>

  datatype Kind = Transferred | Approved | Minted | Burnt

  datatype Event = Event(kind: Kind, from: Text, to: Text, value: u64)

  datatype Token = Token(owner: Text, supply: u64, balances: Balances, allowances: Allowances, log: seq<Event>)

  // ---------- map entries ----------

  function BalanceOf(b: Balances, a: Text): u64
  {
    if a in b then b[a] else 0
  }

  function Allowance(m: Allowances, owner: Text, spender: Text): u64
  {
    if owner in m && spender in m[owner] then m[owner][spender] else 0
  }

  /** `operator[]` inserts a zero where there is no entry. */
  function Touch(b: Balances, a: Text): (r: Balances)
    ensures a in r && forall k :: BalanceOf(r, k) == BalanceOf(b, k)
  {
    if a in b then b else b[a := 0]
  }

  function TouchPair(m: Allowances, owner: Text, spender: Text): (r: Allowances)
    ensures owner in r && spender in r[owner]
    ensures forall o, s :: Allowance(r, o, s) == Allowance(m, o, s)
  {
    var row: Balances := if owner in m then m[owner] else map[];
    m[owner := Touch(row, spender)]
  }

  function Put(m: Allowances, owner: Text, spender: Text, amount: u64): Allowances
  {
    var row: Balances := if owner in m then m[owner] else map[];
    m[owner := row[spender := amount]]
  }

  /** 64-bit addition. */
  function Plus(x: u64, y: u64): u64
  {
    (x + y) % U64_SIZE
  }

  function Credit(b: Balances, a: Text, amount: u64): Balances
  {
    var r := Touch(b, a);
    r[a := Plus(r[a], amount)]
  }

  function Move(b: Balances, from: Text, to: Text, amount: u64): Balances
    requires from in b && b[from] >= amount
  {
    Credit(b[from := b[from] - amount], to, amount)
  }

  // ---------- calls ----------

  function Create(owner: Text, supply: u64): Token
  {
    if supply > 0 && owner != [] then
      Token(owner, supply, map[owner := supply], map[], [Event(Transferred, [], owner, supply)])
    else Token(owner, supply, map[], map[], [])
  }

  function Transfer(t: Token, caller: Text, to: Text, amount: u64): (bool, Token)
  {
    if caller == [] || to == [] then (false, t)
    else
      var b := Touch(t.balances, caller);
      if b[caller] < amount then (false, t.(balances := b))
      else (true, t.(balances := Move(b, caller, to, amount), log := t.log + [Event(Transferred, caller, to, amount)]))
  }

  function Approve(t: Token, caller: Text, spender: Text, amount: u64): (bool, Token)
  {
    if caller == [] || spender == [] then (false, t)
    else (true, t.(allowances := Put(t.allowances, caller, spender, amount),
                   log := t.log + [Event(Approved, caller, spender, amount)]))
  }

  function TransferFrom(t: Token, spender: Text, from: Text, to: Text, amount: u64): (bool, Token)
  {
    if spender == [] || from == [] || to == [] then (false, t)
    else
      var b := Touch(t.balances, from);
      if b[from] < amount then (false, t.(balances := b))
      else
        var m := TouchPair(t.allowances, from, spender);
        if m[from][spender] < amount then (false, t.(balances := b, allowances := m))
        else (true, t.(balances := Move(b, from, to, amount),
                       allowances := Put(m, from, spender, m[from][spender] - amount),
                       log := t.log + [Event(Transferred, from, to, amount)]))
  }

  function Mint(t: Token, caller: Text, to: Text, amount: u64): (bool, Token)
  {
    if caller != t.owner || to == [] then (false, t)
    else (true, t.(supply := Plus(t.supply, amount), balances := Credit(t.balances, to, amount),
                   log := t.log + [Event(Minted, [], to, amount)]))
  }

  function Burn(t: Token, caller: Text, amount: u64): (bool, Token)
  {
    var b := Touch(t.balances, caller);
    if b[caller] < amount then (false, t.(balances := b))
    else (true, t.(supply := (t.supply - amount) % U64_SIZE, balances := b[caller := b[caller] - amount],
                   log := t.log + [Event(Burnt, caller, [], amount)]))
  }

  datatype Call =
    | Transferring(caller: Text, to: Text, amount: u64)
    | Approving(caller: Text, spender: Text, amount: u64)
    | Drawing(spender: Text, from: Text, to: Text, amount: u64)
    | Minting(caller: Text, to: Text, amount: u64)
    | Burning(caller: Text, amount: u64)
    | Clearing

  function Answer(t: Token, call: Call): (bool, Token)
  {
    match call
    case Transferring(caller, to, amount) => Transfer(t, caller, to, amount)
    case Approving(caller, spender, amount) => Approve(t, caller, spender, amount)
    case Drawing(spender, from, to, amount) => TransferFrom(t, spender, from, to, amount)
    case Minting(caller, to, amount) => Mint(t, caller, to, amount)
    case Burning(caller, amount) => Burn(t, caller, amount)
    case Clearing => (true, t.(log := []))
  }

  function Run(t: Token, calls: seq<Call>): Token
  {
    if calls == [] then t else Answer(Run(t, calls[..|calls| - 1]), calls[|calls| - 1]).1
  }

  // ---------- the supply ----------

  function Itself(v: u64): nat
  {
    v
  }

  ghost function Held(b: Balances): nat
  {
    Total(b, Itself)
  }

  /** Balances add up to the supply. */
  ghost predicate Solvent(t: Token)
  {
    Held(t.balances) == t.supply
  }

  lemma TouchHeld(b: Balances, a: Text)
    ensures Held(Touch(b, a)) == Held(b)
  {
    TotalInsert(b, Itself, a, 0);
  }

  lemma BalanceBound(b: Balances, a: Text)
    ensures BalanceOf(b, a) <= Held(b)
  {
    WeightBound(b, Itself, a);
  }

  lemma PlusSmall(x: u64, y: u64)
    ensures Plus(x, y) == if x + y < U64_SIZE then x + y else x + y - U64_SIZE
  {
  }

  lemma CreditHeld(b: Balances, a: Text, amount: u64)
    ensures Held(Credit(b, a, amount)) ==
            Held(b) + amount - if BalanceOf(b, a) + amount < U64_SIZE then 0 else U64_SIZE
  {
    var r := Touch(b, a);
    TouchHeld(b, a);
    PlusSmall(r[a], amount);
    TotalInsert(r, Itself, a, Plus(r[a], amount));
  }

  lemma DebitHeld(b: Balances, a: Text, amount: u64)
    requires a in b && b[a] >= amount
    ensures Held(b[a := b[a] - amount]) == Held(b) - amount
  {
    TotalInsert<Text, u64>(b, Itself, a, b[a] - amount);
  }

  /** Where balances add up to 64 bits, moving tokens cannot overflow and keeps the sum. */
  lemma MoveHeld(b: Balances, from: Text, to: Text, amount: u64)
    requires from in b && b[from] >= amount && Held(b) <= U64_MAX
    ensures Held(Move(b, from, to, amount)) == Held(b)
    ensures BalanceOf(b[from := b[from] - amount], to) + amount < U64_SIZE
  {
    var less := b[from := b[from] - amount];
    DebitHeld(b, from, amount);
    BalanceBound(less, to);
    CreditHeld(less, to, amount);
  }

  /** Minting keeps the balances in step with the supply unless only the supply wraps around. */
  lemma MintSolventExactly(t: Token, to: Text, amount: u64)
    requires Solvent(t) && to != []
    ensures Solvent(Mint(t, t.owner, to, amount).1)
       <==> t.supply + amount < U64_SIZE || BalanceOf(t.balances, to) + amount >= U64_SIZE
  {
    BalanceBound(t.balances, to);
    CreditHeld(t.balances, to, amount);
    PlusSmall(t.supply, amount);
  }

  /** A new token is solvent unless its supply went to nobody. */
  lemma CreateSolventExactly(owner: Text, supply: u64)
    ensures Solvent(Create(owner, supply)) <==> supply == 0 || owner != []
  {
    var none: Balances := map[];
    TotalInsert(none, Itself, owner, supply);
    assert none[owner := supply] == map[owner := supply];
  }

  /** A successful mint does not overflow the supply. */
  predicate MintFits(t: Token, call: Call)
  {
    call.Minting? && Answer(t, call).0 ==> t.supply + call.amount < U64_SIZE
  }

  lemma AnswerSolvent(t: Token, call: Call)
    requires Solvent(t) && MintFits(t, call)
    ensures Solvent(Answer(t, call).1)
  {
    match call {
      case Transferring(caller, to, amount) =>
        TouchHeld(t.balances, caller);
        if Answer(t, call).0 { MoveHeld(Touch(t.balances, caller), caller, to, amount); }
      case Drawing(spender, from, to, amount) =>
        TouchHeld(t.balances, from);
        if Answer(t, call).0 { MoveHeld(Touch(t.balances, from), from, to, amount); }
      case Minting(caller, to, amount) =>
        if Answer(t, call).0 { MintSolventExactly(t, to, amount); }
      case Burning(caller, amount) =>
        BurnSolvent(t, caller, amount);
      case _ =>
    }
  }

  lemma BurnSolvent(t: Token, caller: Text, amount: u64)
    requires Solvent(t)
    ensures Solvent(Burn(t, caller, amount).1)
    ensures Burn(t, caller, amount).0 ==> Burn(t, caller, amount).1.supply == t.supply - amount
  {
    var b := Touch(t.balances, caller);
    TouchHeld(t.balances, caller);
    if b[caller] >= amount {
      DebitHeld(b, caller, amount);
      BalanceBound(b, caller);
      RemainderOf(t.supply - amount, U64_SIZE, 0, t.supply - amount);
    }
  }

  ghost predicate AllFit(t: Token, calls: seq<Call>)
  {
    forall i | 0 <= i < |calls| :: MintFits(Run(t, calls[..i]), calls[i])
  }

  lemma AllFitPrefix(t: Token, calls: seq<Call>)
    requires calls != [] && AllFit(t, calls)
    ensures AllFit(t, calls[..|calls| - 1]) && MintFits(Run(t, calls[..|calls| - 1]), calls[|calls| - 1])
  {
    var before := calls[..|calls| - 1];
    forall i | 0 <= i < |before| ensures MintFits(Run(t, before[..i]), before[i]) {
      assert before[..i] == calls[..i];
    }
  }

  /** Over every run without an overflowing mint the balances add up to the supply. */
  lemma {:induction false} RunsSolvent(t: Token, calls: seq<Call>)
    requires Solvent(t) && AllFit(t, calls)
    ensures Solvent(Run(t, calls))
  {
    if calls != [] {
      AllFitPrefix(t, calls);
      RunsSolvent(t, calls[..|calls| - 1]);
      AnswerSolvent(Run(t, calls[..|calls| - 1]), calls[|calls| - 1]);
    }
  }

  // ---------- the journal ----------

  /** What an event says happened to the balance of `a`. */
  function Effect(a: Text): Event -> int
  {
    (e: Event) =>
      match e.kind
      case Transferred => (if e.to == a then e.value else 0) - (if e.from == a then e.value else 0)
      case Minted => if e.to == a then e.value else 0
      case Burnt => if e.from == a then -(e.value as int) else 0
      case Approved => 0
  }

  /** What an event says happened to the supply; the first transfer comes from nobody. */
  function SupplyEffect(): Event -> int
  {
    (e: Event) =>
      match e.kind
      case Transferred => if e.from == [] then e.value else 0
      case Minted => e.value
      case Burnt => -(e.value as int)
      case Approved => 0
  }

  function Tally(effect: Event -> int, log: seq<Event>): int
  {
    if log == [] then 0 else Tally(effect, log[..|log| - 1]) + effect(log[|log| - 1])
  }

  lemma TallySnoc(effect: Event -> int, log: seq<Event>, e: Event)
    ensures Tally(effect, log + [e]) == Tally(effect, log) + effect(e)
  {
    assert (log + [e])[..|log|] == log;
  }

  /** The log tells the balances and the supply exactly. */
  ghost predicate Journaled(t: Token)
  {
    && t.supply == Tally(SupplyEffect(), t.log)
    && forall a | a != [] :: BalanceOf(t.balances, a) == Tally(Effect(a), t.log)
  }

  /** One logged event accounts for what changed. */
  ghost predicate Explains(t: Token, n: Token, e: Event)
  {
    && n.log == t.log + [e] && n.supply == t.supply + SupplyEffect()(e)
    && forall a | a != [] :: BalanceOf(n.balances, a) == BalanceOf(t.balances, a) + Effect(a)(e)
  }

  ghost predicate Untouched(t: Token, n: Token)
  {
    n.log == t.log && n.supply == t.supply && forall a :: BalanceOf(n.balances, a) == BalanceOf(t.balances, a)
  }

  lemma CreditBalance(b: Balances, a: Text, amount: u64, k: Text)
    requires BalanceOf(b, a) + amount < U64_SIZE
    ensures BalanceOf(Credit(b, a, amount), k) == BalanceOf(b, k) + if k == a then amount else 0
  {
    PlusSmall(Touch(b, a)[a], amount);
  }

  lemma MoveBalance(b: Balances, from: Text, to: Text, amount: u64, k: Text)
    requires from in b && b[from] >= amount && Held(b) <= U64_MAX
    ensures BalanceOf(Move(b, from, to, amount), k)
         == BalanceOf(b, k) + (if k == to then amount else 0) - (if k == from then amount else 0)
  {
    MoveHeld(b, from, to, amount);
    CreditBalance(b[from := b[from] - amount], to, amount, k);
  }

  lemma MoveExplains(t: Token, n: Token, b: Balances, from: Text, to: Text, amount: u64)
    requires Solvent(t) && from != [] && b == Touch(t.balances, from) && b[from] >= amount
    requires n.balances == Move(b, from, to, amount) && n.supply == t.supply
    requires n.log == t.log + [Event(Transferred, from, to, amount)]
    ensures Explains(t, n, Event(Transferred, from, to, amount))
  {
    TouchHeld(t.balances, from);
    forall a | a != []
      ensures BalanceOf(n.balances, a) == BalanceOf(t.balances, a) + Effect(a)(Event(Transferred, from, to, amount))
    {
      MoveBalance(b, from, to, amount, a);
    }
  }

  lemma MintExplains(t: Token, caller: Text, to: Text, amount: u64)
    requires Solvent(t) && Mint(t, caller, to, amount).0 && t.supply + amount < U64_SIZE
    ensures Explains(t, Mint(t, caller, to, amount).1, Event(Minted, [], to, amount))
  {
    BalanceBound(t.balances, to);
    PlusSmall(t.supply, amount);
    var n, e := Mint(t, caller, to, amount).1, Event(Minted, [], to, amount);
    forall a | a != [] ensures BalanceOf(n.balances, a) == BalanceOf(t.balances, a) + Effect(a)(e) {
      CreditBalance(t.balances, to, amount, a);
    }
  }

  /** Without a clearing or an overflow, every call logs one event that explains what it changed, or changes nothing. */
  lemma AnswerExplained(t: Token, call: Call)
    requires Solvent(t) && MintFits(t, call) && !call.Clearing?
    ensures var (ok, n) := Answer(t, call);
            if ok then n.log != [] && Explains(t, n, n.log[|n.log| - 1]) else Untouched(t, n)
  {
    var (ok, n) := Answer(t, call);
    if ok {
      match call {
        case Transferring(caller, to, amount) => MoveExplains(t, n, Touch(t.balances, caller), caller, to, amount);
        case Drawing(spender, from, to, amount) => MoveExplains(t, n, Touch(t.balances, from), from, to, amount);
        case Minting(caller, to, amount) => MintExplains(t, caller, to, amount);
        case Burning(caller, amount) => BurnSolvent(t, caller, amount);
        case _ =>
      }
    }
  }

  lemma ExplainedStaysJournaled(t: Token, n: Token, e: Event)
    requires Journaled(t) && Explains(t, n, e)
    ensures Journaled(n)
  {
    TallySnoc(SupplyEffect(), t.log, e);
    forall a | a != [] ensures BalanceOf(n.balances, a) == Tally(Effect(a), n.log) {
      TallySnoc(Effect(a), t.log, e);
    }
  }

  ghost predicate NeverCleared(calls: seq<Call>)
  {
    forall i | 0 <= i < |calls| :: !calls[i].Clearing?
  }

  lemma {:induction false} RunsJournaled(t: Token, calls: seq<Call>)
    requires Solvent(t) && Journaled(t) && AllFit(t, calls) && NeverCleared(calls)
    ensures Journaled(Run(t, calls))
  {
    if calls != [] {
      var before, last := calls[..|calls| - 1], calls[|calls| - 1];
      AllFitPrefix(t, calls);
      RunsJournaled(t, before);
      RunsSolvent(t, before);
      var m := Run(t, before);
      AnswerExplained(m, last);
      if Answer(m, last).0 {
        ExplainedStaysJournaled(m, Run(t, calls), Run(t, calls).log[|Run(t, calls).log| - 1]);
      }
    }
  }

  lemma TallyOne(effect: Event -> int, e: Event)
    ensures Tally(effect, [e]) == effect(e)
  {
    assert [e][..0] == [];
  }

  lemma CreateJournaled(owner: Text, supply: u64)
    requires supply == 0 || owner != []
    ensures Journaled(Create(owner, supply))
  {
    if supply > 0 {
      var t, e := Create(owner, supply), Event(Transferred, [], owner, supply);
      TallyOne(SupplyEffect(), e);
      forall a | a != [] ensures BalanceOf(t.balances, a) == Tally(Effect(a), t.log) {
        TallyOne(Effect(a), e);
        assert Effect(a)(e) == if a == owner then supply else 0;
      }
    }
  }

  /**
   A token created for somebody, or with no supply: after any calls that neither clear the log nor
   overflow the supply, the balances add up to the supply and the log alone rebuilds both.
   */
  lemma LogRebuilds(owner: Text, supply: u64, calls: seq<Call>)
    requires supply == 0 || owner != []
    requires AllFit(Create(owner, supply), calls) && NeverCleared(calls)
    ensures Solvent(Run(Create(owner, supply), calls)) && Journaled(Run(Create(owner, supply), calls))
  {
    CreateSolventExactly(owner, supply);
    CreateJournaled(owner, supply);
    RunsSolvent(Create(owner, supply), calls);
    RunsJournaled(Create(owner, supply), calls);
  }

  // ---------- allowances ----------

  predicate Draws(call: Call, owner: Text, spender: Text)
  {
    call.Drawing? && call.from == owner && call.spender == spender
  }

  predicate Reapproves(call: Call, owner: Text, spender: Text)
  {
    call.Approving? && call.caller == owner && call.spender == spender
  }

  /** What a spender has successfully drawn from an owner over a run. */
  function Drawn(t: Token, calls: seq<Call>, owner: Text, spender: Text): nat
  {
    if calls == [] then 0
    else
      var n := |calls| - 1;
      Drawn(t, calls[..n], owner, spender)
        + if Draws(calls[n], owner, spender) && Answer(Run(t, calls[..n]), calls[n]).0 then calls[n].amount else 0
  }

  lemma AnswerAllowance(t: Token, call: Call, owner: Text, spender: Text)
    requires !Reapproves(call, owner, spender)
    ensures var (ok, n) := Answer(t, call);
            Allowance(n.allowances, owner, spender)
              + (if Draws(call, owner, spender) && ok then call.amount else 0)
            == Allowance(t.allowances, owner, spender)
  {
  }

  lemma {:induction false} AllowanceFalls(t: Token, calls: seq<Call>, owner: Text, spender: Text)
    requires forall i | 0 <= i < |calls| :: !Reapproves(calls[i], owner, spender)
    ensures Allowance(Run(t, calls).allowances, owner, spender) + Drawn(t, calls, owner, spender)
         == Allowance(t.allowances, owner, spender)
  {
    if calls != [] {
      var n := |calls| - 1;
      AllowanceFalls(t, calls[..n], owner, spender);
      AnswerAllowance(Run(t, calls[..n]), calls[n], owner, spender);
    }
  }

  /**
   An allowance is the amount last approved less what the spender has drawn since, so no more than
   that amount is ever drawn.
   */
  lemma AllowanceIsLastApproval(t: Token, owner: Text, spender: Text, amount: u64, since: seq<Call>)
    requires owner != [] && spender != []
    requires forall i | 0 <= i < |since| :: !Reapproves(since[i], owner, spender)
    ensures var approved := Approve(t, owner, spender, amount).1;
            && Drawn(approved, since, owner, spender) <= amount
            && Allowance(Run(approved, since).allowances, owner, spender)
               == amount - Drawn(approved, since, owner, spender)
  {
    AllowanceFalls(Approve(t, owner, spender, amount).1, since, owner, spender);
  }

  // ---------- the contract object ----------

  class TokenContract {
    const name: Text
    const symbol: Text
    const decimals: byte
    const owner: Text
    var supply: u64
    var balances: Balances
    var allowances: Allowances
    var log: seq<Event>

    function Now(): Token
      reads this
    {
      Token(owner, supply, balances, allowances, log)
    }

    constructor (name: Text, symbol: Text, decimals: byte, initialSupply: u64, owner: Text)
      ensures Now() == Create(owner, initialSupply)
      ensures this.name == name && this.symbol == symbol && this.decimals == decimals
    {
      this.name, this.symbol, this.decimals, this.owner := name, symbol, decimals, owner;
      supply := initialSupply;
      balances, allowances, log := map[], map[], [];
      new;
      if initialSupply > 0 && owner != [] {
        balances := balances[owner := initialSupply];
        log := log + [Event(Transferred, [], owner, initialSupply)];
      }
    }

    method BalanceAt(a: Text) returns (amount: u64)
      ensures amount == BalanceOf(balances, a)
    {
      amount := if a in balances then balances[a] else 0;
    }

    method AllowanceAt(owner: Text, spender: Text) returns (amount: u64)
      ensures amount == Allowance(allowances, owner, spender)
    {
      if owner !in allowances { return 0; }
      amount := if spender in allowances[owner] then allowances[owner][spender] else 0;
    }

    /** `balances[a]`, which inserts a zero where there is no entry. */
    method Slot(a: Text) returns (amount: u64)
      modifies `balances
      ensures balances == Touch(old(balances), a) && amount == balances[a]
    {
      if a !in balances {
        balances := balances[a := 0];
      }
      amount := balances[a];
    }

    method MoveTokens(from: Text, to: Text, amount: u64)
      requires from in balances && balances[from] >= amount
      modifies `balances
      ensures balances == Move(old(balances), from, to, amount)
    {
      balances := balances[from := balances[from] - amount];
      var held := Slot(to);
      balances := balances[to := Plus(held, amount)];
    }

    method TransferTokens(caller: Text, to: Text, amount: u64) returns (ok: bool)
      modifies this
      ensures (ok, Now()) == Transfer(old(Now()), caller, to, amount)
    {
      if caller == [] || to == [] { return false; }
      var held := Slot(caller);
      if held < amount { return false; }
      MoveTokens(caller, to, amount);
      log := log + [Event(Transferred, caller, to, amount)];
      ok := true;
    }

    method ApproveSpender(caller: Text, spender: Text, amount: u64) returns (ok: bool)
      modifies this
      ensures (ok, Now()) == Approve(old(Now()), caller, spender, amount)
    {
      if caller == [] || spender == [] { return false; }
      if caller !in allowances {
        allowances := allowances[caller := map[]];
      }
      var row: Balances := allowances[caller];
      allowances := allowances[caller := row[spender := amount]];
      assert allowances == Put(old(allowances), caller, spender, amount);
      log := log + [Event(Approved, caller, spender, amount)];
      ok := true;
    }

    /** `allowances[owner][spender]`, which inserts what is missing. */
    method AllowanceSlot(owner: Text, spender: Text) returns (amount: u64)
      modifies `allowances
      ensures allowances == TouchPair(old(allowances), owner, spender) && amount == allowances[owner][spender]
    {
      if owner !in allowances {
        allowances := allowances[owner := map[]];
      }
      if spender !in allowances[owner] {
        var row: Balances := allowances[owner];
        allowances := allowances[owner := row[spender := 0]];
      }
      amount := allowances[owner][spender];
      assert allowances == TouchPair(old(allowances), owner, spender);
    }

    method TransferTokensFrom(spender: Text, from: Text, to: Text, amount: u64) returns (ok: bool)
      modifies this
      ensures (ok, Now()) == TransferFrom(old(Now()), spender, from, to, amount)
    {
      if spender == [] || from == [] || to == [] { return false; }
      var held := Slot(from);
      if held < amount { return false; }
      var allowed := AllowanceSlot(from, spender);
      if allowed < amount { return false; }
      var row: Balances := allowances[from];
      allowances := allowances[from := row[spender := allowed - amount]];
      MoveTokens(from, to, amount);
      log := log + [Event(Transferred, from, to, amount)];
      ok := true;
    }

    method MintTokens(caller: Text, to: Text, amount: u64) returns (ok: bool)
      modifies this
      ensures (ok, Now()) == Mint(old(Now()), caller, to, amount)
    {
      if caller != owner || to == [] { return false; }
      supply := Plus(supply, amount);
      var held := Slot(to);
      balances := balances[to := Plus(held, amount)];
      log := log + [Event(Minted, [], to, amount)];
      ok := true;
    }

    method BurnTokens(caller: Text, amount: u64) returns (ok: bool)
      modifies this
      ensures (ok, Now()) == Burn(old(Now()), caller, amount)
    {
      var held := Slot(caller);
      if held < amount { return false; }
      balances := balances[caller := held - amount];
      supply := (supply - amount) % U64_SIZE;
      log := log + [Event(Burnt, caller, [], amount)];
      ok := true;
    }

    method ClearEvents()
      modifies `log
      ensures Now() == Answer(old(Now()), Clearing).1
    {
      log := [];
    }
  }
}
