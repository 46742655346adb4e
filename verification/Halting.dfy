/**
 Which bytecode halts. The gas check of src/vm/mermai_vm.cpp adds in 64 bits and charges only for
 pushes, arithmetic and storage, so halting depends on what the code pushes for free, on whether it
 jumps, and on whether the gas counter can pass the limit by wrapping around.
 */
module Halting {
  import opened Bytes
  import opened Words
  import opened Runs
  import opened Vm

  /** Charges cannot wrap around when the limit leaves room for one of them. */
  predicate RoomForGas(c: Context)
  {
    c.gasLimit + c.gas.Largest() < U64_SIZE
  }

  // ---------- termination ----------

  /** Instructions that grow the stack without charging for it. */
  predicate FreePush(b: byte)
  {
    b == DUP1 || EnvironmentOp(b)
  }

  ghost predicate NoFreePush(code: Text)
  {
    forall i | 0 <= i < |code| :: !FreePush(code[i])
  }

  ghost predicate NoJump(code: Text)
  {
    forall i | 0 <= i < |code| :: !JumpOp(code[i])
  }

  /** An instruction that neither charges nor pushes for free shrinks the stack or moves on. */
  ghost predicate Moved(code: Text, op: byte, s: State, t: State)
  {
    && (!JumpOp(op) ==> s.pc <= t.pc <= |code|)
    && (JumpOp(op) ==> |t.stack| < |s.stack|)
    && (!FreePush(op) && !PushOp(op) ==> |t.stack| <= |s.stack|)
  }

  lemma DispatchMoves(c: Context, code: Text, op: byte, s: State, now: u64)
    requires Dispatch(c, code, op, s, now).Running? && s.pc <= |code|
    ensures Moved(code, op, s, Dispatch(c, code, op, s, now).s)
  {
    if PushOp(op) {
      assert Dispatch(c, code, op, s, now) == PushStep(c, code, op, s);
    } else if ArithOp(op) {
      assert Dispatch(c, code, op, s, now) == ArithStep(c, op, s);
    } else if MemoryOp(op) {
      assert Dispatch(c, code, op, s, now) == MemoryStep(op, s);
    }
  }

  /** The gas component of the termination measure; a counter at its maximum wraps on the next charge. */
  function GasLeft(c: Context, s: State): nat
  {
    if s.gasUsed == U64_MAX then U64_SIZE
    else if s.gasUsed < c.gasLimit then c.gasLimit - s.gasUsed
    else 0
  }

  lemma ChargeShrinksGas(c: Context, op: byte, s: State, t: State)
    requires c.gas.Positive() && RoomForGas(c)
    requires Wrap(s.gasUsed + 1) <= c.gasLimit && t.gasUsed == Wrap(s.gasUsed + Cost(c.gas, op))
    ensures if Cost(c.gas, op) == 0 then t.gasUsed == s.gasUsed else GasLeft(c, t) < GasLeft(c, s)
  {
    assert Cost(c.gas, op) <= c.gas.Largest();
  }

  /** The termination measure goes down. */
  ghost predicate Drops(c: Context, code: Text, s: State, t: State)
  {
    || GasLeft(c, t) < GasLeft(c, s)
    || (t.gasUsed == s.gasUsed && |t.stack| < |s.stack|)
    || (t.gasUsed == s.gasUsed && |t.stack| == |s.stack| && s.pc < t.pc <= |code|)
  }

  lemma PaidOrSmallerDrops(c: Context, code: Text, op: byte, s: State, o: Result)
    requires c.gas.Positive() && RoomForGas(c) && !FreePush(op) && Wrap(s.gasUsed + 1) <= c.gasLimit
    requires Charged(c.gas, op, s.(pc := s.pc + 1), o) && o.Running? && Moved(code, op, s.(pc := s.pc + 1), o.s)
    ensures Drops(c, code, s, o.s)
  {
    ChargeShrinksGas(c, op, s, o.s);
  }

  lemma AdvanceWithoutFreePush(c: Context, code: Text, s: State, now: u64)
    requires c.gas.Positive() && RoomForGas(c) && NoFreePush(code)
    requires Advance(c, code, s, now).Running?
    ensures Drops(c, code, s, Advance(c, code, s, now).s)
  {
    AdvanceRuns(c, code, s, now);
    assert !FreePush(code[s.pc]);
    DispatchCharges(c, code, code[s.pc], s.(pc := s.pc + 1), now);
    DispatchMoves(c, code, code[s.pc], s.(pc := s.pc + 1), now);
    PaidOrSmallerDrops(c, code, code[s.pc], s, Advance(c, code, s, now));
  }

  lemma AdvanceWithoutJump(c: Context, code: Text, s: State, now: u64)
    requires NoJump(code)
    requires Advance(c, code, s, now).Running?
    ensures s.pc < Advance(c, code, s, now).s.pc <= |code|
  {
    AdvanceRuns(c, code, s, now);
    assert !JumpOp(code[s.pc]);
    DispatchMoves(c, code, code[s.pc], s.(pc := s.pc + 1), now);
  }

  /**
   Code in which every stack growth is paid for always halts: remaining gas, stack height and
   distance to the end of the code decrease lexicographically.
   */
  lemma {:induction false} HaltsWithoutFreePush(c: Context, code: Text, s: State, k: nat)
    requires c.gas.Positive() && RoomForGas(c) && NoFreePush(code)
    ensures Halts(Turn(c, code), s, k)
    decreases GasLeft(c, s), |s.stack|, if s.pc < |code| then |code| - s.pc else 0
  {
    var o := Turn(c, code)(s, k);
    if o.Running? {
      AdvanceWithoutFreePush(c, code, s, c.clock(k));
      HaltsWithoutFreePush(c, code, o.s, k + 1);
    }
    HaltsAfterTurn(Turn(c, code), s, k);
  }

  /** Straight-line code always halts, whatever it pushes and whatever gas costs. */
  lemma {:induction false} HaltsWithoutJump(c: Context, code: Text, s: State, k: nat)
    requires NoJump(code)
    ensures Halts(Turn(c, code), s, k)
    decreases if s.pc < |code| then |code| - s.pc else 0
  {
    var o := Turn(c, code)(s, k);
    if o.Running? {
      AdvanceWithoutJump(c, code, s, c.clock(k));
      HaltsWithoutJump(c, code, o.s, k + 1);
    }
    HaltsAfterTurn(Turn(c, code), s, k);
  }

  // ---------- code that pays for nothing ----------

  /** `f` over and over, from every byte address a jump can name, and a jump at the end. */
  function Spinner(f: byte, j: byte): Text
  {
    seq(257, _ => f) + [j]
  }

  /** From `lo` on, `f` over and over and a jump at the end. */
  ghost predicate Loops(code: Text, lo: nat, f: byte, j: byte)
  {
    lo + 3 <= |code| && code[|code| - 1] == j && forall i | lo <= i < |code| - 1 :: code[i] == f
  }

  predicate NonZero(w: Word)
  {
    Decode(w) != 0
  }

  /** A word that takes the jump at the end back into the loop, as target and as condition. */
  predicate Aims(code: Text, lo: nat, j: byte, w: Word)
  {
    lo <= w[31] && w[31] + 3 <= |code| && (j == JMPI ==> NonZero(w))
  }

  /** What a free push puts on the stack. */
  function FreeWord(c: Context, f: byte, s: State, now: u64): Word
    requires f == DUP1 ==> s.stack != []
  {
    if f == DUP1 then Top(s, 0)
    else if f == CALLER then CallerWord(c.caller)
    else if f == CALLVALUE then FromU64(c.callValue)
    else if f == TIMESTAMP then FromU64(now)
    else FromU64(RemainingGas(c, s))
  }

  /** The free pushes whose word the context decides do not push zero. */
  ghost predicate Lively(c: Context, f: byte)
  {
    && (f == CALLER ==> NonZero(CallerWord(c.caller)))
    && (f == CALLVALUE ==> c.callValue != 0)
    && (f == TIMESTAMP ==> forall k :: c.clock(k) != 0)
  }

  /** `f` keeps pushing words that aim: copies of such a word, or any word where all addresses do. */
  ghost predicate Feeds(c: Context, code: Text, lo: nat, f: byte, j: byte)
  {
    || f == DUP1
    || (EnvironmentOp(f) && lo == 0 && |code| >= 258 && (j == JMPI ==> Lively(c, f)))
  }

  /** By the time it reaches the jump, `f` will have pushed enough for it. */
  ghost predicate Spinning(c: Context, code: Text, lo: nat, f: byte, j: byte, s: State)
  {
    && !s.halted && s.gasUsed < c.gasLimit
    && lo <= s.pc < |code| && s.pc + 4 <= |s.stack| + |code|
    && (f == DUP1 ==> s.stack != [])
    && forall i | 0 <= i < |s.stack| :: Aims(code, lo, j, s.stack[i])
  }

  lemma CopyRuns(c: Context, code: Text, s: State, now: u64)
    requires s.stack != []
    ensures Dispatch(c, code, DUP1, s, now) == Running(Push(s, Top(s, 0)))
  {
    assert Dispatch(c, code, DUP1, s, now) == StackStep(DUP1, s);
  }

  lemma EnvironmentOnly(op: byte)
    requires EnvironmentOp(op)
    ensures !PushOp(op) && !ArithOp(op) && !StackOp(op) && !MemoryOp(op) && !StorageOp(op) && !JumpOp(op)
  {
  }

  lemma EnvironmentRuns(c: Context, code: Text, f: byte, s: State, now: u64)
    requires EnvironmentOp(f)
    ensures Dispatch(c, code, f, s, now) == EnvironmentStep(c, f, s, now)
  {
    EnvironmentOnly(f);
  }

  lemma FreePushRuns(c: Context, code: Text, f: byte, s: State, now: u64)
    requires FreePush(f) && (f == DUP1 ==> s.stack != [])
    ensures Dispatch(c, code, f, s, now) == Running(Push(s, FreeWord(c, f, s, now)))
  {
    if f == DUP1 {
      CopyRuns(c, code, s, now);
    } else {
      EnvironmentRuns(c, code, f, s, now);
    }
  }

  lemma EnvironmentLively(c: Context, f: byte, s: State, k: nat)
    requires EnvironmentOp(f) && Lively(c, f) && s.gasUsed < c.gasLimit
    ensures NonZero(FreeWord(c, f, s, c.clock(k)))
  {
    DecodeFromU64(c.callValue);
    DecodeFromU64(c.clock(k));
    DecodeFromU64(RemainingGas(c, s));
  }

  lemma FreeWordAims(c: Context, code: Text, lo: nat, f: byte, j: byte, s: State, k: nat)
    requires Feeds(c, code, lo, f, j) && s.gasUsed < c.gasLimit
    requires f == DUP1 ==> s.stack != [] && Aims(code, lo, j, Top(s, 0))
    ensures Aims(code, lo, j, FreeWord(c, f, s, c.clock(k)))
  {
    if f != DUP1 && j == JMPI {
      EnvironmentLively(c, f, s, k);
    }
  }

  lemma PushSpins(c: Context, code: Text, lo: nat, f: byte, j: byte, s: State, k: nat)
    requires Loops(code, lo, f, j) && Feeds(c, code, lo, f, j) && FreePush(f)
    requires Spinning(c, code, lo, f, j, s) && s.pc < |code| - 1
    ensures var o := Advance(c, code, s, c.clock(k)); o.Running? && Spinning(c, code, lo, f, j, o.s)
  {
    var t := s.(pc := s.pc + 1);
    AdvanceDispatches(c, code, s, c.clock(k));
    FreePushRuns(c, code, f, t, c.clock(k));
    FreeWordAims(c, code, lo, f, j, t, k);
  }

  lemma JumpRuns(c: Context, code: Text, j: byte, s: State, now: u64)
    requires JumpOp(j) && |s.stack| >= 2 && Top(s, 0)[31] < |code| && (j == JMPI ==> NonZero(Top(s, 1)))
    ensures Dispatch(c, code, j, s, now)
         == Running(Drop(s, if j == JMP then 1 else 2).(pc := Top(s, 0)[31]))
  {
    assert Dispatch(c, code, j, s, now) == JumpStep(code, j, s);
  }

  /** The state a jump leaves. */
  function Jumped(j: byte, s: State): State
    requires |s.stack| >= 2
  {
    Drop(s, if j == JMP then 1 else 2).(pc := Top(s, 0)[31])
  }

  lemma JumpAdvances(c: Context, code: Text, s: State, now: u64)
    requires !s.halted && s.gasUsed < c.gasLimit && s.pc < |code| && JumpOp(code[s.pc])
    requires |s.stack| >= 2 && Top(s, 0)[31] < |code| && (code[s.pc] == JMPI ==> NonZero(Top(s, 1)))
    ensures Advance(c, code, s, now) == Running(Jumped(code[s.pc], s))
  {
    AdvanceDispatches(c, code, s, now);
    JumpRuns(c, code, code[s.pc], s.(pc := s.pc + 1), now);
  }

  lemma JumpedSpins(c: Context, code: Text, lo: nat, f: byte, j: byte, s: State)
    requires Spinning(c, code, lo, f, j, s) && |s.stack| >= 3
    ensures Spinning(c, code, lo, f, j, Jumped(j, s))
  {
    assert Aims(code, lo, j, s.stack[|s.stack| - 1]);
  }

  lemma JumpSpins(c: Context, code: Text, lo: nat, f: byte, j: byte, s: State, now: u64)
    requires Loops(code, lo, f, j) && JumpOp(j)
    requires Spinning(c, code, lo, f, j, s) && s.pc == |code| - 1
    ensures var o := Advance(c, code, s, now); o.Running? && Spinning(c, code, lo, f, j, o.s)
  {
    assert Aims(code, lo, j, s.stack[|s.stack| - 1]) && Aims(code, lo, j, s.stack[|s.stack| - 2]);
    JumpAdvances(c, code, s, now);
    JumpedSpins(c, code, lo, f, j, s);
  }

  ghost function SpinningIn(c: Context, code: Text, lo: nat, f: byte, j: byte): State -> bool
  {
    (s: State) => Spinning(c, code, lo, f, j, s)
  }

  lemma SpinsOn(c: Context, code: Text, lo: nat, f: byte, j: byte, s: State, k: nat)
    requires Loops(code, lo, f, j) && Feeds(c, code, lo, f, j) && FreePush(f) && JumpOp(j)
    requires Spinning(c, code, lo, f, j, s)
    ensures !Halts(Turn(c, code), s, k)
  {
    var turn, spinning := Turn(c, code), SpinningIn(c, code, lo, f, j);
    forall t, i: nat | spinning(t) ensures turn(t, i).Running? && spinning(turn(t, i).s) {
      if t.pc < |code| - 1 {
        PushSpins(c, code, lo, f, j, t, i);
      } else {
        JumpSpins(c, code, lo, f, j, t, c.clock(i));
      }
    }
    NeverHalts(turn, spinning, s, k);
  }

  /**
   Any instruction that pushes for free, together with a jump, makes code that never halts: with JMP
   in every context, with JMPI in every context where what it pushes is not zero. DUP1 needs a word to
   start from.
   */
  lemma FreePushSpins(c: Context, f: byte, j: byte, s: State, k: nat)
    requires FreePush(f) && JumpOp(j) && Spinning(c, Spinner(f, j), 0, f, j, s) && (j == JMPI ==> Lively(c, f))
    ensures !Halts(Turn(c, Spinner(f, j)), s, k)
  {
    SpinsOn(c, Spinner(f, j), 0, f, j, s, k);
  }

  // ---------- the exact condition on the instructions ----------

  ghost predicate CodeOver(ops: set<byte>, code: Text)
  {
    forall i | 0 <= i < |code| :: code[i] in ops
  }

  /** All code made of these bytes halts, in every context with positive charges and room for them. */
  ghost predicate AlwaysHalts(ops: set<byte>)
  {
    forall c: Context, code, s, k: nat | c.gas.Positive() && RoomForGas(c) && CodeOver(ops, code) ::
      Halts(Turn(c, code), s, k)
  }

  ghost predicate NoneOf(ops: set<byte>, bad: byte -> bool)
  {
    forall b | b in ops :: !bad(b)
  }

  /** A context in which every free push is lively. */
  function SpinningContext(): (c: Context)
    ensures c.gas.Positive() && RoomForGas(c)
  {
    Context(GasTable(1, 1, 1, 1, 1), 10, [1], 1, _ => 1)
  }

  lemma ContextLively(f: byte)
    ensures Lively(SpinningContext(), f)
  {
    var w := CallerWord([1]);
    assert w == [1] + Zeros(31);
    DecodeFront(1, Zeros(31));
    ProductAtLeast(1, Pow256(31));
  }

  lemma SpinnerOver(ops: set<byte>, f: byte, j: byte)
    requires f in ops && j in ops
    ensures CodeOver(ops, Spinner(f, j))
  {
  }

  lemma FreePushAndJumpSpin(ops: set<byte>, f: byte, j: byte)
    requires f in ops && j in ops && FreePush(f) && JumpOp(j)
    ensures !AlwaysHalts(ops)
  {
    var c, w := SpinningContext(), FromU64(1);
    var s := State(0, [w], [], map[], 0, false, NoReason);
    DecodeFromU64(1);
    ContextLively(f);
    SpinnerOver(ops, f, j);
    FreePushSpins(c, f, j, s, 0);
  }

  /**
   Exactly which instructions guarantee halting: those without a free push, or without a jump.
   */
  lemma HaltingExactly(ops: set<byte>)
    ensures AlwaysHalts(ops) <==> NoneOf(ops, FreePush) || NoneOf(ops, JumpOp)
  {
    if NoneOf(ops, FreePush) || NoneOf(ops, JumpOp) {
      forall c: Context, code, s, k: nat | c.gas.Positive() && RoomForGas(c) && CodeOver(ops, code)
        ensures Halts(Turn(c, code), s, k)
      {
        if NoneOf(ops, FreePush) {
          HaltsWithoutFreePush(c, code, s, k);
        } else {
          HaltsWithoutJump(c, code, s, k);
        }
      }
    } else {
      var f :| f in ops && FreePush(f);
      var j :| j in ops && JumpOp(j);
      FreePushAndJumpSpin(ops, f, j);
    }
  }

  // ---------- the room for gas ----------

  /** Pushes and jumps back, paying for each push. */
  const TREADMILL: Text := [PUSH1, 0, JMP]

  /** With `phase` added, the value is the m-th multiple of the step. */
  predicate IsStep(step: nat, phase: nat, m: int, v: nat)
  {
    v + phase == step * m
  }

  ghost predicate OnGrid(step: nat, phase: nat, v: nat)
  {
    exists m :: IsStep(step, phase, m, v)
  }

  /**
   A gas value that never meets the limit: there is none, or the step divides 2^64 and the values step
   over the limit, being multiples of the step or the last values before them.
   */
  ghost predicate Evades(c: Context, phase: nat, gas: u64)
  {
    c.gasLimit == U64_MAX
    || (c.gasLimit + c.gas.push + phase > U64_SIZE
        && OnGrid(c.gas.push, phase, gas) && OnGrid(c.gas.push, 0, U64_SIZE))
  }

  lemma Distribute(x: int, a: int, b: int)
    ensures x * (a + b) == x * a + x * b
  {
  }

  lemma GridGap(step: nat, m: int, q: int)
    requires step > 0
    ensures m < q ==> step * m + step <= step * q
    ensures m >= q ==> step * m >= step * q
    ensures step * (m + 1) == step * m + step
  {
    Distribute(step, m, 1);
    if m < q {
      Distribute(step, m + 1, q - m - 1);
      ProductAtLeast(step, q - m - 1);
    } else {
      Distribute(step, q, m - q);
      ProductAtLeast(step, m - q);
    }
  }

  /** On a grid that divides 2^64 a value is the last of all or a whole step below, and stays on the grid. */
  lemma GridStep(step: nat, phase: nat, m: int, q: int, v: u64) returns (n: int)
    requires step > 0 && phase <= 1 && IsStep(step, phase, m, v) && IsStep(step, 0, q, U64_SIZE)
    ensures v + phase == U64_SIZE || v + step + phase <= U64_SIZE
    ensures IsStep(step, phase, n, Wrap(v + step))
  {
    GridGap(step, m, q);
    if v + step >= U64_SIZE {
      n := m + 1 - q;
      RemainderOf(v + step, U64_SIZE, 1, v + step - U64_SIZE);
      Distribute(step, n, q);
    } else {
      n := m + 1;
    }
  }

  lemma EvadesOn(c: Context, phase: nat, gas: u64)
    requires c.gas.push > 0 && phase <= 1 && Evades(c, phase, gas)
    ensures Wrap(gas + 1) <= c.gasLimit && Evades(c, phase, Wrap(gas + c.gas.push))
  {
    if c.gasLimit != U64_MAX {
      var p := c.gas.push;
      var m :| IsStep(p, phase, m, gas);
      var q :| IsStep(p, 0, q, U64_SIZE);
      var n := GridStep(p, phase, m, q, gas);
    }
  }

  ghost predicate Treading(c: Context, phase: nat, s: State)
  {
    && !s.halted && Evades(c, phase, s.gasUsed)
    && (s.pc == 0 || (s.pc == 2 && s.stack != [] && Top(s, 0)[31] == 0))
  }

  lemma TreadPush(c: Context, s: State, now: u64)
    requires s.pc == 0 && !s.halted && Wrap(s.gasUsed + 1) <= c.gasLimit
    ensures Advance(c, TREADMILL, s, now) == Running(Charge(Push(s.(pc := 2), Zeros(31) + [0]), c.gas.push))
  {
    AdvanceDispatches(c, TREADMILL, s, now);
    assert Dispatch(c, TREADMILL, PUSH1, s.(pc := 1), now) == PushStep(c, TREADMILL, PUSH1, s.(pc := 1));
  }

  lemma TreadJump(c: Context, s: State, now: u64)
    requires s.pc == 2 && !s.halted && Wrap(s.gasUsed + 1) <= c.gasLimit && s.stack != [] && Top(s, 0)[31] == 0
    ensures Advance(c, TREADMILL, s, now) == Running(Drop(s, 1).(pc := 0))
  {
    AdvanceDispatches(c, TREADMILL, s, now);
    assert Dispatch(c, TREADMILL, JMP, s.(pc := 3), now) == JumpStep(TREADMILL, JMP, s.(pc := 3));
  }

  lemma TreadOnPush(c: Context, phase: nat, s: State, now: u64)
    requires c.gas.push > 0 && phase <= 1 && Treading(c, phase, s) && s.pc == 0
    ensures var o := Advance(c, TREADMILL, s, now); o.Running? && Treading(c, phase, o.s)
  {
    EvadesOn(c, phase, s.gasUsed);
    TreadPush(c, s, now);
  }

  lemma TreadOnJump(c: Context, phase: nat, s: State, now: u64)
    requires c.gas.push > 0 && phase <= 1 && Treading(c, phase, s) && s.pc == 2
    ensures var o := Advance(c, TREADMILL, s, now); o.Running? && Treading(c, phase, o.s)
  {
    EvadesOn(c, phase, s.gasUsed);
    TreadJump(c, s, now);
  }

  ghost function TreadingIn(c: Context, phase: nat): State -> bool
  {
    (s: State) => Treading(c, phase, s)
  }

  lemma TreadsOn(c: Context, phase: nat, s: State, k: nat)
    requires c.gas.push > 0 && phase <= 1 && Treading(c, phase, s)
    ensures !Halts(Turn(c, TREADMILL), s, k)
  {
    var turn, treading := Turn(c, TREADMILL), TreadingIn(c, phase);
    forall t, i: nat | treading(t) ensures turn(t, i).Running? && treading(turn(t, i).s) {
      if t.pc == 0 {
        TreadOnPush(c, phase, t, c.clock(i));
      } else {
        TreadOnJump(c, phase, t, c.clock(i));
      }
    }
    NeverHalts(turn, treading, s, k);
  }

  /** At the largest gas limit the 64-bit check never fails: paid pushes spin too, whatever they cost. */
  lemma LargestLimitSpins(c: Context, s: State, k: nat)
    requires c.gas.push > 0 && c.gasLimit == U64_MAX && s.pc == 0 && !s.halted
    ensures NoFreePush(TREADMILL) && !Halts(Turn(c, TREADMILL), s, k)
  {
    TreadsOn(c, 0, s, k);
  }

  ghost predicate PaidCodeHalts(c: Context)
  {
    forall code, s, k: nat | NoFreePush(code) :: Halts(Turn(c, code), s, k)
  }

  lemma NoRoomSpins(c: Context, q: int)
    requires c.gas.push > 0 && c.gasLimit + c.gas.push >= U64_SIZE && IsStep(c.gas.push, 0, q, U64_SIZE)
    ensures !PaidCodeHalts(c)
  {
    var s := State(0, [], [], map[], c.gas.push - 1, false, NoReason);
    assert IsStep(c.gas.push, 1, 1, s.gasUsed);
    TreadsOn(c, 1, s, 0);
    assert NoFreePush(TREADMILL);
  }

  /**
   Where a push costs most and its price divides 2^64, the room for gas is exactly what halting
   needs: with less of it the counter steps over the limit for ever.
   */
  lemma RoomExactly(c: Context)
    requires c.gas.Positive() && c.gas.Largest() == c.gas.push && U64_SIZE % c.gas.push == 0
    ensures PaidCodeHalts(c) <==> RoomForGas(c)
  {
    if RoomForGas(c) {
      forall code, s, k: nat | NoFreePush(code) ensures Halts(Turn(c, code), s, k) {
        HaltsWithoutFreePush(c, code, s, k);
      }
    } else {
      var q := U64_SIZE / c.gas.push;
      assert U64_SIZE == c.gas.push * q;
      assert IsStep(c.gas.push, 0, q, U64_SIZE);
      NoRoomSpins(c, q);
    }
  }
}
