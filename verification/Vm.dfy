/**
 MermaiVM (src/vm/mermai_vm.cpp): a step function over machine states, its behaviour over whole
 runs, and the interpreter loop proved to follow it. Opcode bytes are those of
 mermai_explorer/app.js; gas charges are parameters because the header that fixes them is not part
 of this model.
 */
module Vm {
  import opened Bytes
  import opened Words
  import opened Runs

  const PUSH0: byte := 0x00
  const PUSH1: byte := 0x01
  const PUSH32: byte := 0x1F
  const POP: byte := 0x50
  const DUP1: byte := 0x80
  const SWAP1: byte := 0x90
  const ADD: byte := 0xA0
  const SUB: byte := 0xA1
  const MUL: byte := 0xA2
  const DIV: byte := 0xA3
  const MOD: byte := 0xA4
  const LT: byte := 0xB0
  const GT: byte := 0xB1
  const EQ: byte := 0xB2
  const MLOAD: byte := 0xC0
  const MSTORE: byte := 0xC1
  const SLOAD: byte := 0xD0
  const SSTORE: byte := 0xD1
  const JMP: byte := 0xE0
  const JMPI: byte := 0xE1
  const RETURN: byte := 0xE3
  const REVERT: byte := 0xE4
  const CALLER: byte := 0xF0
  const CALLVALUE: byte := 0xF1
  const TIMESTAMP: byte := 0xF2
  const GASLIMIT: byte := 0xF8
  const STOP: byte := 0xFF

  predicate PushOp(op: byte) { op == PUSH0 || op == PUSH1 || op == PUSH32 }
  predicate CompareOp(op: byte) { op == LT || op == GT || op == EQ }
  predicate ArithOp(op: byte) { op == ADD || op == SUB || op == MUL || op == DIV || op == MOD || CompareOp(op) }
  predicate StackOp(op: byte) { op == POP || op == DUP1 || op == SWAP1 }
  predicate MemoryOp(op: byte) { op == MLOAD || op == MSTORE }
  predicate StorageOp(op: byte) { op == SLOAD || op == SSTORE }
  predicate JumpOp(op: byte) { op == JMP || op == JMPI }
  predicate EnvironmentOp(op: byte) { op == CALLER || op == CALLVALUE || op == TIMESTAMP || op == GASLIMIT }

  const MEMORY_SIZE := 65536

  datatype GasTable = GasTable(push: u64, add: u64, mul: u64, sload: u64, sstore: u64)
  {
    predicate Positive()
    {
      push > 0 && add > 0 && mul > 0 && sload > 0 && sstore > 0
    }

    /** The largest charge a single instruction can make. */
    function Largest(): (m: u64)
      ensures push <= m && add <= m && mul <= m && sload <= m && sstore <= m
    {
      Max(push, Max(add, Max(mul, Max(sload, sstore))))
    }
  }

  function Max(x: u64, y: u64): u64
  {
    if x < y then y else x
  }

  /** What a call is given; `clock(k)` is what `std::time` answers at the k-th loop iteration. */
  datatype Context = Context(gas: GasTable, gasLimit: u64, caller: Text, callValue: u64, clock: nat -> u64)

  datatype Reason = NoReason | OutOfGas | Reverted | UnknownOpcode | StackUnderflow | OutOfBounds | InvalidJump

  datatype State = State(
    pc: nat, stack: seq<Word>, memory: Text, storage: map<Text, Text>,
    gasUsed: u64, halted: bool, reason: Reason)

  /** A run is `Crashed` by the integer division by zero of DIV and MOD. */
  type Result = Outcome<State>

  function Wrap(n: nat): u64
  {
    n % U64_SIZE
  }

  // ---------- one instruction ----------

  function Fail(s: State): Result
  {
    Finished(false, s)
  }

  function FailWith(s: State, why: Reason): Result
  {
    Finished(false, s.(reason := why))
  }

  function Charge(s: State, cost: u64): State
  {
    s.(gasUsed := Wrap(s.gasUsed + cost))
  }

  function Push(s: State, w: Word): State
  {
    s.(stack := s.stack + [w])
  }

  function Top(s: State, depth: nat): Word
    requires depth < |s.stack|
  {
    s.stack[|s.stack| - 1 - depth]
  }

  function Drop(s: State, n: nat): State
    requires n <= |s.stack|
  {
    s.(stack := s.stack[..|s.stack| - n])
  }

  function PushStep(c: Context, code: Text, op: byte, s: State): Result
  {
    if op == PUSH0 then
      Running(Charge(Push(s, ZERO_WORD), c.gas.push))
    else if op == PUSH1 then
      if s.pc >= |code| then Fail(s)
      else Running(Charge(Push(s.(pc := s.pc + 1), Zeros(31) + [code[s.pc]]), c.gas.push))
    else
      if s.pc + 32 > |code| then Fail(s)
      else Running(Charge(Push(s.(pc := s.pc + 32), code[s.pc..s.pc + 32]), c.gas.push))
  }

  /** What a two-operand instruction leaves, as a number, unless it divides by zero. */
  datatype Alu = Value(v: nat) | Undefined

  function Flag(b: bool): nat
  {
    if b then 1 else 0
  }

  function Arith(op: byte, a: nat, b: nat): (r: Alu)
  {
    if op == ADD then Value((a + b) % Modulus())
    else if op == SUB then Value((a - b) % Modulus())
    else if op == MUL then Value((a * b) % U64_SIZE)
    else if op == LT then Value(Flag(a < b))
    else if op == GT then Value(Flag(a > b))
    else if op == EQ then Value(Flag(a == b))
    else if b == 0 then Value(0)
    else if b % U64_SIZE == 0 then Undefined
    else if op == DIV then Value((a % U64_SIZE) / (b % U64_SIZE))
    else Value((a % U64_SIZE) % (b % U64_SIZE))
  }

  function ArithCost(g: GasTable, op: byte): u64
  {
    if op == MUL then g.mul else if CompareOp(op) then 0 else g.add
  }

  function ArithStep(c: Context, op: byte, s: State): Result
  {
    if |s.stack| < 2 then Fail(s)
    else Conclude(c, op, s, Arith(op, Decode(Top(s, 1)), Decode(Top(s, 0))))
  }

  function Conclude(c: Context, op: byte, s: State, r: Alu): Result
    requires |s.stack| >= 2
  {
    match r
    case Undefined => Crashed
    case Value(v) => Running(Charge(Push(Drop(s, 2), WordOf(v)), ArithCost(c.gas, op)))
  }

  function StackStep(op: byte, s: State): Result
  {
    if op == POP then
      if s.stack == [] then Fail(s) else Running(Drop(s, 1))
    else if op == DUP1 then
      if s.stack == [] then FailWith(s, StackUnderflow) else Running(Push(s, Top(s, 0)))
    else
      if |s.stack| < 2 then Fail(s) else Running(Push(Push(Drop(s, 2), Top(s, 0)), Top(s, 1)))
  }

  function MemoryStep(op: byte, s: State): Result
  {
    if op == MLOAD then
      if s.stack == [] then Fail(s)
      else var at := Top(s, 0)[31];
           if at + 32 > |s.memory| then FailWith(Drop(s, 1), OutOfBounds)
           else Running(Push(Drop(s, 1), s.memory[at..at + 32]))
    else
      if |s.stack| < 2 then Fail(s)
      else var at := Top(s, 0)[31];
           if at + 32 > |s.memory| then FailWith(Drop(s, 2), OutOfBounds)
           else Running(Drop(s, 2).(memory := s.memory[..at] + Top(s, 1) + s.memory[at + 32..]))
  }

  /** A stored value as a word: its last 32 bytes, right-aligned; a missing key reads as zero. */
  function Loaded(storage: map<Text, Text>, key: Word): Word
  {
    var value := if key in storage then storage[key] else [];
    if |value| <= 32 then Zeros(32 - |value|) + value else value[|value| - 32..]
  }

  function StorageStep(c: Context, op: byte, s: State): Result
  {
    if op == SLOAD then
      if s.stack == [] then Fail(s)
      else Running(Charge(Push(Drop(s, 1), Loaded(s.storage, Top(s, 0))), c.gas.sload))
    else
      if |s.stack| < 2 then Fail(s)
      else Running(Charge(Drop(s, 2).(storage := s.storage[Top(s, 0) := Top(s, 1)]), c.gas.sstore))
  }

  function JumpTo(code: Text, s: State, target: byte): Result
  {
    if target >= |code| then FailWith(s, InvalidJump) else Running(s.(pc := target))
  }

  function JumpStep(code: Text, op: byte, s: State): Result
  {
    if op == JMP then
      if s.stack == [] then Fail(s) else JumpTo(code, Drop(s, 1), Top(s, 0)[31])
    else
      if |s.stack| < 2 then Fail(s)
      else if Decode(Top(s, 1)) != 0 then JumpTo(code, Drop(s, 2), Top(s, 0)[31])
      else Running(Drop(s, 2))
  }

  function CallerWord(caller: Text): Word
  {
    if |caller| <= 32 then caller + Zeros(32 - |caller|) else caller[..32]
  }

  function RemainingGas(c: Context, s: State): u64
  {
    if c.gasLimit > s.gasUsed then c.gasLimit - s.gasUsed else 0
  }

  function EnvironmentStep(c: Context, op: byte, s: State, now: u64): Result
  {
    if op == CALLER then Running(Push(s, CallerWord(c.caller)))
    else if op == CALLVALUE then Running(Push(s, FromU64(c.callValue)))
    else if op == TIMESTAMP then Running(Push(s, FromU64(now)))
    else Running(Push(s, FromU64(RemainingGas(c, s))))
  }

  function HaltStep(op: byte, s: State): Result
  {
    if op == RETURN || op == STOP then Running(s.(halted := true))
    else if op == REVERT then FailWith(s.(halted := true), Reverted)
    else FailWith(s, UnknownOpcode)
  }

  function Dispatch(c: Context, code: Text, op: byte, s: State, now: u64): Result
  {
    if PushOp(op) then PushStep(c, code, op, s)
    else if ArithOp(op) then ArithStep(c, op, s)
    else if StackOp(op) then StackStep(op, s)
    else if MemoryOp(op) then MemoryStep(op, s)
    else if StorageOp(op) then StorageStep(c, op, s)
    else if JumpOp(op) then JumpStep(code, op, s)
    else if EnvironmentOp(op) then EnvironmentStep(c, op, s, now)
    else HaltStep(op, s)
  }

  /** One turn of the loop in `execute`, including its guard. */
  function Advance(c: Context, code: Text, s: State, now: u64): Result
  {
    if s.halted || s.pc >= |code| then Finished(true, s)
    else if Wrap(s.gasUsed + 1) > c.gasLimit then FailWith(s, OutOfGas)
    else Dispatch(c, code, code[s.pc], s.(pc := s.pc + 1), now)
  }

  /** The turn function of a call. */
  function Turn(c: Context, code: Text): (State, nat) -> Result
  {
    (s: State, k: nat) => Advance(c, code, s, c.clock(k))
  }

  // ---------- gas ----------

  /** The charge of each instruction that completes. */
  function Cost(g: GasTable, op: byte): u64
  {
    if PushOp(op) then g.push
    else if op == ADD || op == SUB || op == DIV || op == MOD then g.add
    else if op == MUL then g.mul
    else if op == SLOAD then g.sload
    else if op == SSTORE then g.sstore
    else 0
  }

  /** An instruction charges exactly its price when it completes and nothing when it fails. */
  ghost predicate Charged(g: GasTable, op: byte, s: State, o: Result)
  {
    match o
    case Running(t) => t.gasUsed == Wrap(s.gasUsed + Cost(g, op))
    case Finished(_, t) => t.gasUsed == s.gasUsed
    case Crashed => op == DIV || op == MOD
  }

  lemma ConcludeCharged(c: Context, op: byte, s: State, r: Alu)
    requires |s.stack| >= 2 && ArithOp(op)
    requires r.Undefined? ==> op == DIV || op == MOD
    ensures Charged(c.gas, op, s, Conclude(c, op, s, r))
  {
  }

  ghost predicate GasKept(s: State, o: Result)
  {
    !o.Crashed? && o.s.gasUsed == s.gasUsed
  }

  lemma StackKeepsGas(op: byte, s: State)
    ensures GasKept(s, StackStep(op, s))
  {
  }

  lemma JumpKeepsGas(code: Text, op: byte, s: State)
    ensures GasKept(s, JumpStep(code, op, s))
  {
  }

  lemma EnvironmentKeepsGas(c: Context, op: byte, s: State, now: u64)
    ensures GasKept(s, EnvironmentStep(c, op, s, now))
  {
  }

  lemma MemoryKeepsGas(op: byte, s: State)
    ensures GasKept(s, MemoryStep(op, s))
  {
  }

  lemma FreeCharged(c: Context, op: byte, s: State, o: Result)
    requires GasKept(s, o) && Cost(c.gas, op) == 0
    ensures Charged(c.gas, op, s, o)
  {
  }

  lemma ArithCharged(c: Context, op: byte, s: State)
    requires ArithOp(op)
    ensures Charged(c.gas, op, s, ArithStep(c, op, s))
  {
    if |s.stack| >= 2 {
      ConcludeCharged(c, op, s, Arith(op, Decode(Top(s, 1)), Decode(Top(s, 0))));
    }
  }

  lemma PushCharged(c: Context, code: Text, op: byte, s: State)
    requires PushOp(op)
    ensures Charged(c.gas, op, s, PushStep(c, code, op, s))
  {
  }

  lemma StorageCharged(c: Context, op: byte, s: State)
    requires StorageOp(op)
    ensures Charged(c.gas, op, s, StorageStep(c, op, s))
  {
  }

  lemma HaltKeepsGas(op: byte, s: State)
    ensures GasKept(s, HaltStep(op, s))
  {
  }

  lemma DispatchCharges(c: Context, code: Text, op: byte, s: State, now: u64)
    ensures Charged(c.gas, op, s, Dispatch(c, code, op, s, now))
  {
    if ArithOp(op) {
      ArithCharged(c, op, s);
    } else if PushOp(op) {
      PushCharged(c, code, op, s);
    } else if StorageOp(op) {
      StorageCharged(c, op, s);
    } else {
      StackKeepsGas(op, s);
      JumpKeepsGas(code, op, s);
      EnvironmentKeepsGas(c, op, s, now);
      MemoryKeepsGas(op, s);
      HaltKeepsGas(op, s);
      FreeCharged(c, op, s, Dispatch(c, code, op, s, now));
    }
  }

  ghost predicate GasWithin(o: Result, bound: nat)
  {
    o.Crashed? || o.s.gasUsed <= bound
  }

  lemma ChargedWithin(c: Context, op: byte, s: State, o: Result, bound: nat)
    requires Charged(c.gas, op, s, o) && s.gasUsed <= bound
    requires Wrap(s.gasUsed + 1) <= c.gasLimit && c.gasLimit - 1 + c.gas.Largest() <= bound
    ensures GasWithin(o, bound)
  {
    assert Cost(c.gas, op) <= c.gas.Largest();
    assert s.gasUsed < c.gasLimit || s.gasUsed == U64_MAX;
  }

  /** A turn past the guards is the dispatch of the next byte. */
  lemma AdvanceDispatches(c: Context, code: Text, s: State, now: u64)
    requires !s.halted && s.pc < |code| && Wrap(s.gasUsed + 1) <= c.gasLimit
    ensures Advance(c, code, s, now) == Dispatch(c, code, code[s.pc], s.(pc := s.pc + 1), now)
  {
    GuardPasses(c, code, s, now, Dispatch(c, code, code[s.pc], s.(pc := s.pc + 1), now));
  }

  lemma GuardPasses(c: Context, code: Text, s: State, now: u64, o: Result)
    requires !s.halted && s.pc < |code| && Wrap(s.gasUsed + 1) <= c.gasLimit
    requires o == Dispatch(c, code, code[s.pc], s.(pc := s.pc + 1), now)
    ensures Advance(c, code, s, now) == o
  {
  }

  lemma AdvanceRuns(c: Context, code: Text, s: State, now: u64)
    requires Advance(c, code, s, now).Running?
    ensures !s.halted && s.pc < |code| && Wrap(s.gasUsed + 1) <= c.gasLimit
    ensures Advance(c, code, s, now) == Dispatch(c, code, code[s.pc], s.(pc := s.pc + 1), now)
  {
  }

  lemma AdvanceEnds(c: Context, code: Text, s: State, now: u64)
    requires s.halted || s.pc >= |code|
    ensures Advance(c, code, s, now) == Finished(true, s)
  {
  }

  lemma AdvanceStarves(c: Context, code: Text, s: State, now: u64)
    requires !s.halted && s.pc < |code| && Wrap(s.gasUsed + 1) > c.gasLimit
    ensures Advance(c, code, s, now) == FailWith(s, OutOfGas)
  {
  }

  lemma AdvanceStops(c: Context, code: Text, s: State, now: u64)
    requires s.halted || s.pc >= |code| || Wrap(s.gasUsed + 1) > c.gasLimit
    ensures Advance(c, code, s, now).Finished? && Advance(c, code, s, now).s.gasUsed == s.gasUsed
  {
  }

  lemma AdvanceCharges(c: Context, code: Text, s: State, now: u64)
    requires !s.halted && s.pc < |code| && Wrap(s.gasUsed + 1) <= c.gasLimit
    ensures Charged(c.gas, code[s.pc], s.(pc := s.pc + 1), Advance(c, code, s, now))
  {
    AdvanceDispatches(c, code, s, now);
    DispatchCharges(c, code, code[s.pc], s.(pc := s.pc + 1), now);
  }

  lemma AdvanceGas(c: Context, code: Text, s: State, now: u64, bound: nat)
    requires s.gasUsed <= bound && c.gasLimit - 1 + c.gas.Largest() <= bound
    ensures GasWithin(Advance(c, code, s, now), bound)
  {
    if s.halted || s.pc >= |code| || Wrap(s.gasUsed + 1) > c.gasLimit {
      AdvanceStops(c, code, s, now);
    } else {
      AdvanceCharges(c, code, s, now);
      ChargedWithin(c, code[s.pc], s.(pc := s.pc + 1), Advance(c, code, s, now), bound);
    }
  }

  /**
   In any run the gas used stays within what it was at the start or below the limit plus one
   maximal charge, whichever is larger.
   */
  lemma {:induction false} GasBound(c: Context, code: Text, o: Result, k: nat, n: nat, bound: nat)
    requires GasWithin(o, bound) && c.gasLimit - 1 + c.gas.Largest() <= bound
    ensures GasWithin(Iterate(Turn(c, code), o, k, n), bound)
    decreases n
  {
    if n > 0 && o.Running? {
      AdvanceGas(c, code, o.s, c.clock(k), bound);
      GasBound(c, code, Advance(c, code, o.s, c.clock(k)), k + 1, n - 1, bound);
    }
  }
}
