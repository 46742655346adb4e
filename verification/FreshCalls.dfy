/**
 Which bytecode halts when it is called. The calls of src/rpc/mermai_rpc.cpp give the machine a new
 context: an empty stack, cleared memory, no storage and no gas used. A copy then needs a word to copy, and a
 jump an address to jump to, so fewer instructions can run for ever than from an arbitrary state.
 */
module FreshCalls {
  import opened Bytes
  import opened Words
  import opened Runs
  import opened Vm
  import opened Halting

  /** The state in which a call begins. */
  function Fresh(): State
  {
    State(0, [], Zeros(MEMORY_SIZE), map[], 0, false, NoReason)
  }

  // ---------- calls that never halt ----------

  /** An environment instruction needs nothing on the stack. */
  lemma EnvironmentSpins(c: Context, f: byte, j: byte, k: nat)
    requires EnvironmentOp(f) && JumpOp(j) && c.gasLimit > 0 && (j == JMPI ==> Lively(c, f))
    ensures !Halts(Turn(c, Spinner(f, j)), Fresh(), k)
  {
    FreePushSpins(c, f, j, Fresh(), k);
  }

  /** One push, and copies of what it pushed: the byte of DUP1, as an address inside the copies. */
  function Copier(p: byte, j: byte): Text
  {
    [p] + Spinner(DUP1, j)
  }

  predicate LongPush(op: byte)
  {
    op == PUSH1 || op == PUSH32
  }

  lemma EndsNonZero(w: Word)
    requires w[31] != 0
    ensures NonZero(w)
  {
    assert Decode(w) == Decode(w[..31]) * 256 + w[31];
  }

  lemma CopierPushes(c: Context, p: byte, j: byte, now: u64) returns (t: State)
    requires LongPush(p) && c.gas.push < c.gasLimit
    ensures Advance(c, Copier(p, j), Fresh(), now) == Running(t)
    ensures !t.halted && t.gasUsed == c.gas.push && 1 <= t.pc <= 33 && |t.stack| == 1 && t.stack[0][31] == DUP1
  {
    var code, s := Copier(p, j), Fresh().(pc := 1);
    AdvanceDispatches(c, code, Fresh(), now);
    assert Dispatch(c, code, p, s, now) == PushStep(c, code, p, s);
    t := PushStep(c, code, p, s).s;
  }

  /** A push with an operand and DUP1 are enough, with either jump. */
  lemma CopierSpins(c: Context, p: byte, j: byte, k: nat)
    requires LongPush(p) && JumpOp(j) && c.gas.push < c.gasLimit
    ensures !Halts(Turn(c, Copier(p, j)), Fresh(), k)
  {
    var turn := Turn(c, Copier(p, j));
    var t := CopierPushes(c, p, j, c.clock(k));
    EndsNonZero(t.stack[0]);
    SpinsOn(c, Copier(p, j), 1, DUP1, j, t, k + 1);
    SpinsAfterTurn(turn, Fresh(), k, t);
  }

  /** Without an operand the address has to be computed: comparing a word with its copy gives one. */
  function Equalizer(j: byte): Text
  {
    [PUSH0, DUP1, DUP1, DUP1, EQ, DUP1, j]
  }

  function One(): Word
  {
    WordOf(1)
  }

  lemma OneAims()
    ensures One()[31] == 1 && NonZero(One())
  {
    DecodeWordOf(1);
    assert Decode(One()) == Decode(One()[..31]) * 256 + One()[31];
  }

  /** The two words on top are equal. */
  predicate Paired(s: State)
  {
    |s.stack| >= 2 && Top(s, 0) == Top(s, 1)
  }

  ghost predicate Equalizing(c: Context, s: State)
  {
    && !s.halted && s.gasUsed < c.gasLimit && 1 <= s.pc <= 6
    && |s.stack| >= (if s.pc <= 4 then s.pc else if s.pc == 5 then 3 else 4)
    && (2 <= s.pc <= 4 || s.pc == 6 ==> Paired(s))
    && (s.pc >= 5 ==> Top(s, 0) == One())
  }

  lemma EqualRuns(c: Context, code: Text, s: State, now: u64)
    requires Paired(s)
    ensures Dispatch(c, code, EQ, s, now) == Running(Push(Drop(s, 2), One()))
  {
    assert Dispatch(c, code, EQ, s, now) == ArithStep(c, EQ, s);
  }

  lemma EqualizerCopies(c: Context, j: byte, s: State, now: u64)
    requires Equalizing(c, s) && (s.pc <= 3 || s.pc == 5)
    ensures var o := Advance(c, Equalizer(j), s, now); o.Running? && Equalizing(c, o.s)
  {
    AdvanceDispatches(c, Equalizer(j), s, now);
    CopyRuns(c, Equalizer(j), s.(pc := s.pc + 1), now);
  }

  lemma EqualizerCompares(c: Context, j: byte, s: State, now: u64)
    requires Equalizing(c, s) && s.pc == 4
    ensures var o := Advance(c, Equalizer(j), s, now); o.Running? && Equalizing(c, o.s)
  {
    AdvanceDispatches(c, Equalizer(j), s, now);
    EqualRuns(c, Equalizer(j), s.(pc := s.pc + 1), now);
  }

  lemma EqualizerJumps(c: Context, j: byte, s: State, now: u64)
    requires Equalizing(c, s) && s.pc == 6 && JumpOp(j)
    ensures var o := Advance(c, Equalizer(j), s, now); o.Running? && Equalizing(c, o.s)
  {
    OneAims();
    JumpAdvances(c, Equalizer(j), s, now);
  }

  lemma EqualizerPushes(c: Context, j: byte, now: u64) returns (t: State)
    requires c.gas.push < c.gasLimit
    ensures Advance(c, Equalizer(j), Fresh(), now) == Running(t) && Equalizing(c, t)
  {
    var code, s := Equalizer(j), Fresh().(pc := 1);
    AdvanceDispatches(c, code, Fresh(), now);
    assert Dispatch(c, code, PUSH0, s, now) == PushStep(c, code, PUSH0, s);
    t := PushStep(c, code, PUSH0, s).s;
  }

  ghost function EqualizingIn(c: Context): State -> bool
  {
    (s: State) => Equalizing(c, s)
  }

  /** PUSH0, DUP1 and EQ are enough, with either jump. */
  lemma EqualizerSpins(c: Context, j: byte, k: nat)
    requires JumpOp(j) && c.gas.push < c.gasLimit
    ensures !Halts(Turn(c, Equalizer(j)), Fresh(), k)
  {
    var turn, equalizing := Turn(c, Equalizer(j)), EqualizingIn(c);
    forall t, i: nat | equalizing(t) ensures turn(t, i).Running? && equalizing(turn(t, i).s) {
      if t.pc == 4 {
        EqualizerCompares(c, j, t, c.clock(i));
      } else if t.pc == 6 {
        EqualizerJumps(c, j, t, c.clock(i));
      } else {
        EqualizerCopies(c, j, t, c.clock(i));
      }
    }
    var t := EqualizerPushes(c, j, c.clock(k));
    NeverHalts(turn, equalizing, t, k + 1);
    SpinsAfterTurn(turn, Fresh(), k, t);
  }

  // ---------- calls that halt ----------

  /** On an empty stack only pushes and environment instructions do anything. */
  lemma NothingToWorkOn(c: Context, code: Text, op: byte, s: State, now: u64)
    requires s.stack == [] && !PushOp(op) && !EnvironmentOp(op) && Dispatch(c, code, op, s, now).Running?
    ensures Dispatch(c, code, op, s, now).s.halted
  {
  }

  /** A call of code that begins with anything else is over after one turn. */
  lemma UnstartedHalts(c: Context, code: Text, k: nat)
    requires code != [] ==> !PushOp(code[0]) && !EnvironmentOp(code[0])
    ensures Halts(Turn(c, code), Fresh(), k)
  {
    var turn := Turn(c, code);
    var o := turn(Fresh(), k);
    if o.Running? {
      AdvanceRuns(c, code, Fresh(), c.clock(k));
      NothingToWorkOn(c, code, code[0], Fresh().(pc := 1), c.clock(k));
      AdvanceEnds(c, code, o.s, c.clock(k + 1));
      HaltsAfterTurn(turn, o.s, k + 1);
    }
    HaltsAfterTurn(turn, Fresh(), k);
  }

  /** Stack, memory and storage hold nothing but zeros. */
  ghost predicate Blank(s: State)
  {
    && (forall i | 0 <= i < |s.stack| :: s.stack[i] == ZERO_WORD)
    && (forall i | 0 <= i < |s.memory| :: s.memory[i] == 0)
    && (forall w | w in s.storage :: s.storage[w] == ZERO_WORD)
  }

  /** Instructions that can put something else there. */
  predicate Colors(op: byte)
  {
    EnvironmentOp(op) || LongPush(op) || op == EQ
  }

  lemma ZeroWordValue()
    ensures Decode(ZERO_WORD) == 0 && WordOf(0) == ZERO_WORD
  {
    DecodeZeros(32);
    WordOfDecode(ZERO_WORD);
  }

  lemma ArithBlank(c: Context, op: byte, s: State)
    requires Blank(s) && ArithOp(op) && op != EQ && ArithStep(c, op, s).Running?
    ensures Blank(ArithStep(c, op, s).s)
  {
    ZeroWordValue();
    assert Top(s, 0) == ZERO_WORD && Top(s, 1) == ZERO_WORD;
    assert Arith(op, 0, 0) == Value(0);
  }

  lemma MemoryBlank(op: byte, s: State)
    requires Blank(s) && MemoryStep(op, s).Running?
    ensures Blank(MemoryStep(op, s).s)
  {
  }

  lemma StorageBlank(c: Context, op: byte, s: State)
    requires Blank(s) && StorageStep(c, op, s).Running?
    ensures Blank(StorageStep(c, op, s).s)
  {
  }

  lemma StackBlank(op: byte, s: State)
    requires Blank(s) && StackStep(op, s).Running?
    ensures Blank(StackStep(op, s).s)
  {
  }

  /** Zero is the only target, and no condition holds. */
  lemma JumpBlank(code: Text, op: byte, s: State)
    requires Blank(s) && JumpOp(op) && JumpStep(code, op, s).Running?
    ensures var t := JumpStep(code, op, s).s; Blank(t) && t.pc == if op == JMP then 0 else s.pc
  {
    ZeroWordValue();
  }

  lemma HaltBlank(op: byte, s: State)
    requires Blank(s) && HaltStep(op, s).Running?
    ensures Blank(HaltStep(op, s).s)
  {
  }

  lemma PushBlank(c: Context, code: Text, s: State)
    requires Blank(s)
    ensures PushStep(c, code, PUSH0, s).Running? && Blank(PushStep(c, code, PUSH0, s).s)
  {
  }

  lemma DispatchBlank(c: Context, code: Text, op: byte, s: State, now: u64)
    requires Blank(s) && !Colors(op) && Dispatch(c, code, op, s, now).Running?
    ensures var t := Dispatch(c, code, op, s, now).s;
            Blank(t) && (JumpOp(op) ==> t.pc == if op == JMP then 0 else s.pc)
  {
    if PushOp(op) {
      PushBlank(c, code, s);
    } else if ArithOp(op) {
      ArithBlank(c, op, s);
    } else if StackOp(op) {
      StackBlank(op, s);
    } else if MemoryOp(op) {
      MemoryBlank(op, s);
    } else if StorageOp(op) {
      StorageBlank(c, op, s);
    } else if JumpOp(op) {
      JumpBlank(code, op, s);
    } else {
      HaltBlank(op, s);
    }
  }

  /** How far it is to the next visit of address zero, or to the end. */
  function Distance(code: Text, s: State): nat
  {
    if s.pc == 0 then 0 else if s.pc <= |code| then |code| - s.pc + 1 else 1
  }

  /** The termination measure goes down. */
  ghost predicate Nearer(c: Context, code: Text, s: State, t: State)
  {
    GasLeft(c, t) < GasLeft(c, s) || (t.gasUsed == s.gasUsed && Distance(code, t) < Distance(code, s))
  }

  /** A turn goes on in the code, or back to address zero, where a push charges. */
  lemma MovesNearer(c: Context, code: Text, s: State, t: State)
    requires c.gas.Positive() && RoomForGas(c) && s.pc < |code| && code[0] == PUSH0
    requires Wrap(s.gasUsed + 1) <= c.gasLimit && t.gasUsed == Wrap(s.gasUsed + Cost(c.gas, code[s.pc]))
    requires s.pc < t.pc <= |code| || t.pc == 0
    ensures Nearer(c, code, s, t)
  {
    ChargeShrinksGas(c, code[s.pc], s, t);
  }

  lemma BlankTurn(c: Context, code: Text, s: State, now: u64)
    requires c.gas.Positive() && RoomForGas(c) && code != [] && code[0] == PUSH0
    requires (forall i | 0 <= i < |code| :: !Colors(code[i])) && Blank(s) && Advance(c, code, s, now).Running?
    ensures var t := Advance(c, code, s, now).s; Blank(t) && Nearer(c, code, s, t)
  {
    AdvanceRuns(c, code, s, now);
    var op, t := code[s.pc], s.(pc := s.pc + 1);
    DispatchBlank(c, code, op, t, now);
    DispatchCharges(c, code, op, t, now);
    DispatchMoves(c, code, op, t, now);
    MovesNearer(c, code, s, Advance(c, code, s, now).s);
  }

  lemma {:induction false} BlankHalts(c: Context, code: Text, s: State, k: nat)
    requires c.gas.Positive() && RoomForGas(c) && code != [] && code[0] == PUSH0
    requires (forall i | 0 <= i < |code| :: !Colors(code[i])) && Blank(s)
    ensures Halts(Turn(c, code), s, k)
    decreases GasLeft(c, s), Distance(code, s)
  {
    var o := Turn(c, code)(s, k);
    if o.Running? {
      BlankTurn(c, code, s, c.clock(k));
      BlankHalts(c, code, o.s, k + 1);
    }
    HaltsAfterTurn(Turn(c, code), s, k);
  }

  /** A call of code that can put nothing but zeros on the stack halts: it can jump to address zero only. */
  lemma ColorlessHalts(c: Context, code: Text, k: nat)
    requires c.gas.Positive() && RoomForGas(c) && forall i | 0 <= i < |code| :: !Colors(code[i])
    ensures Halts(Turn(c, code), Fresh(), k)
  {
    if code != [] && code[0] == PUSH0 {
      BlankHalts(c, code, Fresh(), k);
    } else {
      UnstartedHalts(c, code, k);
    }
  }

  // ---------- the exact condition on the instructions ----------

  /** All code made of these bytes halts in every call with positive charges and room for them. */
  ghost predicate CallsHalt(ops: set<byte>)
  {
    forall c: Context, code, k: nat | c.gas.Positive() && RoomForGas(c) && CodeOver(ops, code) ::
      Halts(Turn(c, code), Fresh(), k)
  }

  /** There is a push for DUP1 to copy, and a way to an address other than zero. */
  predicate CanCopy(ops: set<byte>)
  {
    DUP1 in ops && (PUSH1 in ops || PUSH32 in ops || (PUSH0 in ops && EQ in ops))
  }

  lemma LoopInCall(ops: set<byte>, j: byte)
    requires j in ops && JumpOp(j) && (!NoneOf(ops, EnvironmentOp) || CanCopy(ops))
    ensures !CallsHalt(ops)
  {
    var c := SpinningContext();
    if !NoneOf(ops, EnvironmentOp) {
      var f :| f in ops && EnvironmentOp(f);
      ContextLively(f);
      SpinnerOver(ops, f, j);
      EnvironmentSpins(c, f, j, 0);
    } else if PUSH1 in ops || PUSH32 in ops {
      var p := if PUSH1 in ops then PUSH1 else PUSH32;
      SpinnerOver(ops, DUP1, j);
      assert CodeOver(ops, Copier(p, j));
      CopierSpins(c, p, j, 0);
    } else {
      assert CodeOver(ops, Equalizer(j));
      EqualizerSpins(c, j, 0);
    }
  }

  lemma NoLoopInCall(ops: set<byte>, c: Context, code: Text, k: nat)
    requires c.gas.Positive() && RoomForGas(c) && CodeOver(ops, code)
    requires NoneOf(ops, EnvironmentOp) && !CanCopy(ops)
    ensures Halts(Turn(c, code), Fresh(), k)
  {
    if DUP1 !in ops {
      HaltsWithoutFreePush(c, code, Fresh(), k);
    } else if PUSH0 in ops {
      ColorlessHalts(c, code, k);
    } else {
      UnstartedHalts(c, code, k);
    }
  }

  /**
   Exactly which instructions guarantee that every call halts: those without a jump, and those without an
   environment instruction that leave DUP1 nothing to copy or no address to jump to.
   */
  lemma CallsHaltExactly(ops: set<byte>)
    ensures CallsHalt(ops) <==> NoneOf(ops, JumpOp) || (NoneOf(ops, EnvironmentOp) && !CanCopy(ops))
  {
    if NoneOf(ops, JumpOp) {
      forall c: Context, code, k: nat | c.gas.Positive() && RoomForGas(c) && CodeOver(ops, code)
        ensures Halts(Turn(c, code), Fresh(), k)
      {
        HaltsWithoutJump(c, code, Fresh(), k);
      }
    } else if NoneOf(ops, EnvironmentOp) && !CanCopy(ops) {
      forall c: Context, code, k: nat | c.gas.Positive() && RoomForGas(c) && CodeOver(ops, code)
        ensures Halts(Turn(c, code), Fresh(), k)
      {
        NoLoopInCall(ops, c, code, k);
      }
    } else {
      var j :| j in ops && JumpOp(j);
      LoopInCall(ops, j);
    }
  }

  // ---------- the room for gas ----------

  ghost predicate PaidCallsHalt(c: Context)
  {
    forall code, k: nat | NoFreePush(code) :: Halts(Turn(c, code), Fresh(), k)
  }

  /**
   In a call, where a push costs most and its price divides 2^64: with room for a charge all code that
   pays for its pushes halts; where limit and price together pass 2^64, or the limit is the largest, the
   counter steps over the limit for ever. Only limit and price adding up to 2^64 is left open.
   */
  lemma RoomInCall(c: Context)
    requires c.gas.Positive() && c.gas.Largest() == c.gas.push && U64_SIZE % c.gas.push == 0
    ensures RoomForGas(c) ==> PaidCallsHalt(c)
    ensures c.gasLimit + c.gas.push > U64_SIZE || c.gasLimit == U64_MAX ==> !PaidCallsHalt(c)
  {
    if RoomForGas(c) {
      forall code, k: nat | NoFreePush(code) ensures Halts(Turn(c, code), Fresh(), k) {
        HaltsWithoutFreePush(c, code, Fresh(), k);
      }
    } else if c.gasLimit + c.gas.push > U64_SIZE || c.gasLimit == U64_MAX {
      var q := U64_SIZE / c.gas.push;
      assert U64_SIZE == c.gas.push * q;
      assert IsStep(c.gas.push, 0, q, U64_SIZE) && IsStep(c.gas.push, 0, 0, 0);
      TreadsOn(c, 0, Fresh(), 0);
      assert NoFreePush(TREADMILL);
    }
  }
}
