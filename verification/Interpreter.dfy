/** The interpreter object: `mermai_vm::execute` and its helpers, proved to follow `Vm.Advance`. */
module Interpreter {
  import opened Bytes
  import opened Words
  import opened Runs
  import opened Vm

  /** How one pass through the loop body ends: on to the next, `return`, or a hardware trap. */
  datatype Signal = Continue | Return(success: bool) | Trap

  ghost function Observed(signal: Signal, s: State): Result
  {
    match signal
    case Continue => Running(s)
    case Return(ok) => Finished(ok, s)
    case Trap => Crashed
  }

  function Resized(memory: Text): (m: Text)
    ensures |m| == MEMORY_SIZE
  {
    if |memory| <= MEMORY_SIZE then memory + Zeros(MEMORY_SIZE - |memory|) else memory[..MEMORY_SIZE]
  }

  lemma FlagWord(bit: bool, r: Word)
    requires r == Zeros(31) + [Flag(bit)]
    ensures Decode(r) == Flag(bit)
  {
    DecodePadded(31, [Flag(bit)]);
    assert [Flag(bit)][..0] == [];
  }

  /** The byte comparison of LT, GT and EQ: `result[31]` holds the answer. */
  method Compare(op: byte, left: Word, right: Word) returns (r: Word)
    requires CompareOp(op)
    ensures Decode(r) == Flag(if op == EQ then Decode(left) == Decode(right)
                              else if op == LT then Decode(left) < Decode(right)
                              else Decode(left) > Decode(right))
  {
    var equal, less := left == right, LexLess(left, right);
    var bit := if op == EQ then equal else if op == LT then less else !equal && !less;
    r := Zeros(31) + [if bit then 1 else 0];
    FlagWord(bit, r);
    LexLessIsNumeric(left, right);
    if Decode(left) == Decode(right) {
      DecodeInjective(left, right);
    }
  }

  /** The two-operand instructions on words; `defined` is false on the division by zero. */
  method Compute(op: byte, a: Word, b: Word) returns (defined: bool, r: Word)
    requires ArithOp(op)
    ensures Arith(op, Decode(a), Decode(b)) == if defined then Value(Decode(r)) else Undefined
    ensures WordOf(Decode(r)) == r
  {
    defined := true;
    if op == ADD {
      r := Add(a, b);
      DecodePlus(a, b);
    } else if op == SUB {
      r := Sub(a, b);
      DecodeMinus(a, b);
    } else if op == MUL {
      r := Mul(a, b);
    } else if CompareOp(op) {
      r := Compare(op, a, b);
    } else {
      defined, r := DivMod(a, b, op == DIV);
    }
    WordOfDecode(r);
  }

  class Machine {
    const code: Text
    const context: Context
    var pc: nat
    var stack: seq<Word>
    var memory: Text
    var storage: map<Text, Text>
    var gasUsed: u64
    var halted: bool
    var reason: Reason

    ghost function Now(): State
      reads this
    {
      State(pc, stack, memory, storage, gasUsed, halted, reason)
    }

    constructor (code: Text, context: Context, initial: State)
      ensures this.code == code && this.context == context
      ensures Now() == initial.(memory := Resized(initial.memory))
    {
      this.code, this.context := code, context;
      pc, stack, storage := initial.pc, initial.stack, initial.storage;
      memory := Resized(initial.memory);
      gasUsed, halted, reason := initial.gasUsed, initial.halted, initial.reason;
    }

    /**
     Runs the code from its first byte for at most `turns` turns of the loop. The answer is `Continue`
     while the run goes on, so every finite part of every run is covered, endless ones included.
     */
    method Execute(turns: nat) returns (signal: Signal)
      modifies this
      ensures Observed(signal, Now())
           == Iterate(Turn(context, code), Running(old(Now()).(pc := 0, halted := false)), 0, turns)
    {
      pc, halted := 0, false;
      signal := Loop(turns, Turn(context, code));
    }

    /** `step` is the turn function. */
    ghost predicate Follows(step: (State, nat) -> Result)
    {
      forall s: State, k: nat :: TurnAt(step, s, k) == Turn(context, code)(s, k)
    }

    method Loop(turns: nat, ghost step: (State, nat) -> Result) returns (signal: Signal)
      requires Follows(step)
      modifies this
      ensures Observed(signal, Now()) == Iterate(step, Running(old(Now())), 0, turns)
    {
      ghost var start := Now();
      var turn: nat := 0;
      signal := Continue;
      while turn < turns && signal == Continue && !halted && pc < |code|
        invariant turn <= turns
        invariant Observed(signal, Now()) == Iterate(step, Running(start), 0, turn)
      {
        IterateLast(step, Running(start), 0, turn);
        signal := TakeTurn(turn, step);
        turn := turn + 1;
      }
      if signal == Continue && turn < turns {
        IterateLast(step, Running(start), 0, turn);
        Ends(turn, step);
        signal := Return(true);
        turn := turn + 1;
      }
      if signal != Continue {
        IterateStable(step, Running(start), 0, turn, turns);
      }
    }

    method TakeTurn(turn: nat, ghost step: (State, nat) -> Result) returns (signal: Signal)
      requires Follows(step) && !halted && pc < |code|
      modifies this
      ensures Observed(signal, Now()) == step(old(Now()), turn)
    {
      ghost var before := Now();
      signal := Step(context.clock(turn));
      assert TurnAt(step, before, turn) == Observed(signal, Now());
    }

    lemma Ends(turn: nat, step: (State, nat) -> Result)
      requires Follows(step) && (halted || pc >= |code|)
      ensures step(Now(), turn) == Finished(true, Now())
    {
      assert TurnAt(step, Now(), turn) == Turn(context, code)(Now(), turn);
      AdvanceEnds(context, code, Now(), context.clock(turn));
    }

    /** The loop body: gas check, fetch, and the switch on the opcode. */
    method Step(now: u64) returns (signal: Signal)
      requires !halted && pc < |code|
      modifies this
      ensures Observed(signal, Now()) == Advance(context, code, old(Now()), now)
    {
      ghost var before := Now();
      if Wrap(gasUsed + 1) > context.gasLimit {
        AdvanceStarves(context, code, before, now);
        reason := OutOfGas;
        return Return(false);
      }
      AdvanceDispatches(context, code, before, now);
      var op := code[pc];
      pc := pc + 1;
      signal := Switch(op, now);
    }

    method Switch(op: byte, now: u64) returns (signal: Signal)
      modifies this
      ensures Observed(signal, Now()) == Dispatch(context, code, op, old(Now()), now)
    {
      if PushOp(op) {
        signal := StepPush(op);
      } else if ArithOp(op) {
        signal := StepArith(op);
      } else if StackOp(op) {
        signal := StepStack(op);
      } else if MemoryOp(op) {
        signal := StepMemory(op);
      } else if StorageOp(op) {
        signal := StepStorage(op);
      } else if JumpOp(op) {
        signal := StepJump(op);
      } else if EnvironmentOp(op) {
        signal := StepEnvironment(op, now);
      } else {
        signal := StepHalt(op);
      }
    }

    method StepPush(op: byte) returns (signal: Signal)
      requires PushOp(op)
      modifies this
      ensures Observed(signal, Now()) == PushStep(context, code, op, old(Now()))
    {
      var word: Word := ZERO_WORD;
      if op == PUSH1 {
        if pc >= |code| { return Return(false); }
        word := Zeros(31) + [code[pc]];
        pc := pc + 1;
      } else if op == PUSH32 {
        if pc + 32 > |code| { return Return(false); }
        word := code[pc..pc + 32];
        pc := pc + 32;
      }
      stack := stack + [word];
      gasUsed := Wrap(gasUsed + context.gas.push);
      signal := Continue;
    }

    method StepArith(op: byte) returns (signal: Signal)
      requires ArithOp(op)
      modifies this
      ensures Observed(signal, Now()) == ArithStep(context, op, old(Now()))
    {
      if |stack| < 2 { return Return(false); }
      var b, a := stack[|stack| - 1], stack[|stack| - 2];
      var defined, r := Compute(op, a, b);
      signal := Deliver(op, defined, r, Decode(r));
    }

    /** Pops two operands and pushes the result, unless computing it trapped. */
    method Deliver(op: byte, defined: bool, r: Word, ghost v: nat) returns (signal: Signal)
      requires |stack| >= 2 && WordOf(v) == r
      modifies this
      ensures Observed(signal, Now())
           == Conclude(context, op, old(Now()), if defined then Value(v) else Undefined)
    {
      if !defined { return Trap; }
      stack := stack[..|stack| - 2] + [r];
      gasUsed := Wrap(gasUsed + ArithCost(context.gas, op));
      signal := Continue;
    }

    method StepStack(op: byte) returns (signal: Signal)
      requires StackOp(op)
      modifies this
      ensures Observed(signal, Now()) == StackStep(op, old(Now()))
    {
      signal := Continue;
      if op == POP {
        if stack == [] { return Return(false); }
        stack := stack[..|stack| - 1];
      } else if op == DUP1 {
        if stack == [] {
          reason := StackUnderflow;
          return Return(false);
        }
        stack := stack + [stack[|stack| - 1]];
      } else {
        var n := |stack|;
        if n < 2 { return Return(false); }
        stack := stack[n - 1 := stack[n - 2]][n - 2 := stack[n - 1]];
        assert stack == old(stack)[..n - 2] + [old(stack)[n - 1]] + [old(stack)[n - 2]];
      }
    }

    method StepMemory(op: byte) returns (signal: Signal)
      requires MemoryOp(op)
      modifies this
      ensures Observed(signal, Now()) == MemoryStep(op, old(Now()))
    {
      var n := |stack|;
      if n < (if op == MLOAD then 1 else 2) { return Return(false); }
      var at := stack[n - 1][31];
      signal := Continue;
      if op == MLOAD {
        stack := stack[..n - 1];
        if at + 32 > |memory| {
          reason := OutOfBounds;
          return Return(false);
        }
        stack := stack + [memory[at..at + 32]];
      } else {
        var value := stack[n - 2];
        stack := stack[..n - 2];
        if at + 32 > |memory| {
          reason := OutOfBounds;
          return Return(false);
        }
        memory := memory[..at] + value + memory[at + 32..];
      }
    }

    method StepStorage(op: byte) returns (signal: Signal)
      requires StorageOp(op)
      modifies this
      ensures Observed(signal, Now()) == StorageStep(context, op, old(Now()))
    {
      var n := |stack|;
      if n < (if op == SLOAD then 1 else 2) { return Return(false); }
      var key := stack[n - 1];
      if op == SLOAD {
        var value := if key in storage then storage[key] else [];
        var copied := if |value| < 32 then |value| else 32;
        var word: Word := Zeros(32 - copied) + value[|value| - copied..];
        assert word == Loaded(storage, key);
        stack := stack[..n - 1] + [word];
        gasUsed := Wrap(gasUsed + context.gas.sload);
      } else {
        storage := storage[key := stack[n - 2]];
        stack := stack[..n - 2];
        gasUsed := Wrap(gasUsed + context.gas.sstore);
      }
      signal := Continue;
    }

    method StepJump(op: byte) returns (signal: Signal)
      requires JumpOp(op)
      modifies this
      ensures Observed(signal, Now()) == JumpStep(code, op, old(Now()))
    {
      var n := |stack|;
      if n < (if op == JMP then 1 else 2) { return Return(false); }
      var target := stack[n - 1][31];
      var taken := op == JMP;
      if op == JMPI {
        var condition := stack[n - 2];
        assert condition[..0] == [];
        for i := 0 to 32
          invariant taken == (Decode(condition[..i]) != 0)
        {
          assert condition[..i + 1][..i] == condition[..i];
          taken := taken || condition[i] != 0;
        }
        assert condition[..32] == condition;
        stack := stack[..n - 2];
      } else {
        stack := stack[..n - 1];
      }
      if taken {
        if target >= |code| {
          reason := InvalidJump;
          return Return(false);
        }
        pc := target;
      }
      signal := Continue;
    }

    method StepEnvironment(op: byte, now: u64) returns (signal: Signal)
      requires EnvironmentOp(op)
      modifies this
      ensures Observed(signal, Now()) == EnvironmentStep(context, op, old(Now()), now)
    {
      var word: Word;
      if op == CALLER {
        var copied := if |context.caller| < 32 then |context.caller| else 32;
        word := context.caller[..copied] + Zeros(32 - copied);
        assert word == CallerWord(context.caller);
      } else if op == CALLVALUE {
        word := StoreU64(context.callValue);
      } else if op == TIMESTAMP {
        word := StoreU64(now);
      } else {
        word := StoreU64(if context.gasLimit > gasUsed then context.gasLimit - gasUsed else 0);
      }
      stack := stack + [word];
      signal := Continue;
    }

    method StepHalt(op: byte) returns (signal: Signal)
      modifies this
      ensures Observed(signal, Now()) == HaltStep(op, old(Now()))
    {
      if op == RETURN || op == STOP {
        halted := true;
        return Continue;
      } else if op == REVERT {
        halted := true;
        reason := Reverted;
      } else {
        reason := UnknownOpcode;
      }
      signal := Return(false);
    }
  }
}
