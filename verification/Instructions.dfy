/**
 What each instruction does to a machine that runs, in plain integers and words: laws about one turn of the
 loop of `execute` (src/vm/mermai_vm.cpp), from which laws about programs are put together.
 */
module Instructions {
  import opened Bytes
  import opened Words
  import opened Runs
  import opened Vm

  /** A call of the machine; `turn` is what a turn of the loop does. */
  datatype Call = Call(c: Context, code: Text, turn: (State, nat) -> Result)
  {
    ghost predicate Valid()
    {
      forall s, k: nat {:trigger Advance(c, code, s, c.clock(k))} :: turn(s, k) == Advance(c, code, s, c.clock(k))
    }
  }

  function CallOf(c: Context, code: Text): Call
  {
    Call(c, code, Turn(c, code))
  }

  lemma CallsAreValid(c: Context, code: Text)
    ensures CallOf(c, code).Valid()
  {
  }

  /** The run that is in state `s` before turn `k` is in state `t` after `n` turns. */
  ghost predicate Goes(call: Call, s: State, k: nat, n: nat, t: State)
  {
    Iterate(call.turn, Running(s), k, n) == Running(t)
  }

  lemma OneTurn(call: Call, s: State, k: nat, t: State)
    requires call.Valid() && Advance(call.c, call.code, s, call.c.clock(k)) == Running(t)
    ensures Goes(call, s, k, 1, t)
  {
    assert Iterate(call.turn, call.turn(s, k), k + 1, 0) == call.turn(s, k);
  }

  lemma GoesOn(call: Call, s: State, k: nat, m: nat, t: State, n: nat, u: State)
    requires Goes(call, s, k, m, t) && Goes(call, t, k + m, n, u)
    ensures Goes(call, s, k, m + n, u)
  {
    IterateSplits(call.turn, Running(s), k, m, n);
  }

  /** The bytes stand in the code at the program counter, and gas worth `cost` is left under the limit. */
  ghost predicate Ready(call: Call, s: State, bytes: Text, cost: nat)
  {
    && call.Valid() && !s.halted && s.gasUsed + cost < call.c.gasLimit
    && s.pc + |bytes| <= |call.code| && call.code[s.pc..s.pc + |bytes|] == bytes
  }

  /** The state behind `length` bytes that left this stack and cost this much. */
  function Past(s: State, length: nat, stack: seq<Word>, cost: nat): State
    requires s.gasUsed + cost < U64_SIZE
  {
    s.(pc := s.pc + length, stack := stack, gasUsed := s.gasUsed + cost)
  }

  /** A turn at these bytes is the dispatch of the first. */
  lemma Dispatched(call: Call, s: State, bytes: Text, cost: nat, now: u64)
    requires Ready(call, s, bytes, cost) && bytes != []
    ensures call.code[s.pc] == bytes[0]
    ensures Advance(call.c, call.code, s, now) == Dispatch(call.c, call.code, bytes[0], s.(pc := s.pc + 1), now)
  {
    assert call.code[s.pc] == call.code[s.pc..s.pc + |bytes|][0];
    AdvanceDispatches(call.c, call.code, s, now);
  }

  lemma NoWrap(v: u64, cost: nat)
    requires v + cost < U64_SIZE
    ensures Wrap(v + cost) == v + cost
  {
  }

  // ---------- the stack ----------

  lemma SmallWord(b: byte)
    ensures WordOf(b) == Zeros(31) + [b]
  {
    DecodePadded(31, [b]);
    assert [b][..0] == [];
    WordOfDecode(Zeros(31) + [b]);
  }

  lemma ZeroPushed(call: Call, s: State, k: nat)
    requires Ready(call, s, [PUSH0], call.c.gas.push)
    ensures Goes(call, s, k, 1, Past(s, 1, s.stack + [WordOf(0)], call.c.gas.push))
  {
    Dispatched(call, s, [PUSH0], call.c.gas.push, call.c.clock(k));
    assert Dispatch(call.c, call.code, PUSH0, s.(pc := s.pc + 1), call.c.clock(k))
        == PushStep(call.c, call.code, PUSH0, s.(pc := s.pc + 1));
    NoWrap(s.gasUsed, call.c.gas.push);
    DecodeZeros(32);
    WordOfDecode(ZERO_WORD);
    OneTurn(call, s, k, Past(s, 1, s.stack + [WordOf(0)], call.c.gas.push));
  }

  lemma BytePushed(call: Call, s: State, k: nat, b: byte)
    requires Ready(call, s, [PUSH1, b], call.c.gas.push)
    ensures Goes(call, s, k, 1, Past(s, 2, s.stack + [WordOf(b)], call.c.gas.push))
  {
    Dispatched(call, s, [PUSH1, b], call.c.gas.push, call.c.clock(k));
    assert call.code[s.pc + 1] == call.code[s.pc..s.pc + 2][1];
    assert Dispatch(call.c, call.code, PUSH1, s.(pc := s.pc + 1), call.c.clock(k))
        == PushStep(call.c, call.code, PUSH1, s.(pc := s.pc + 1));
    NoWrap(s.gasUsed, call.c.gas.push);
    SmallWord(b);
    OneTurn(call, s, k, Past(s, 2, s.stack + [WordOf(b)], call.c.gas.push));
  }

  lemma WordPushed(call: Call, s: State, k: nat, w: Word)
    requires Ready(call, s, [PUSH32] + w, call.c.gas.push)
    ensures Goes(call, s, k, 1, Past(s, 33, s.stack + [w], call.c.gas.push))
  {
    Dispatched(call, s, [PUSH32] + w, call.c.gas.push, call.c.clock(k));
    assert call.code[s.pc + 1..s.pc + 33] == call.code[s.pc..s.pc + 33][1..] == w;
    assert Dispatch(call.c, call.code, PUSH32, s.(pc := s.pc + 1), call.c.clock(k))
        == PushStep(call.c, call.code, PUSH32, s.(pc := s.pc + 1));
    NoWrap(s.gasUsed, call.c.gas.push);
    OneTurn(call, s, k, Past(s, 33, s.stack + [w], call.c.gas.push));
  }

  lemma Popped(call: Call, s: State, k: nat, below: seq<Word>, x: Word)
    requires Ready(call, s, [POP], 0) && s.stack == below + [x]
    ensures Goes(call, s, k, 1, Past(s, 1, below, 0))
  {
    Dispatched(call, s, [POP], 0, call.c.clock(k));
    assert Dispatch(call.c, call.code, POP, s.(pc := s.pc + 1), call.c.clock(k))
        == StackStep(POP, s.(pc := s.pc + 1));
    OneTurn(call, s, k, Past(s, 1, below, 0));
  }

  lemma Copied(call: Call, s: State, k: nat, below: seq<Word>, x: Word)
    requires Ready(call, s, [DUP1], 0) && s.stack == below + [x]
    ensures Goes(call, s, k, 1, Past(s, 1, below + [x, x], 0))
  {
    Dispatched(call, s, [DUP1], 0, call.c.clock(k));
    assert Dispatch(call.c, call.code, DUP1, s.(pc := s.pc + 1), call.c.clock(k))
        == StackStep(DUP1, s.(pc := s.pc + 1));
    assert below + [x] + [x] == below + [x, x];
    OneTurn(call, s, k, Past(s, 1, below + [x, x], 0));
  }

  lemma Swapped(call: Call, s: State, k: nat, below: seq<Word>, x: Word, y: Word)
    requires Ready(call, s, [SWAP1], 0) && s.stack == below + [x, y]
    ensures Goes(call, s, k, 1, Past(s, 1, below + [y, x], 0))
  {
    Dispatched(call, s, [SWAP1], 0, call.c.clock(k));
    assert Dispatch(call.c, call.code, SWAP1, s.(pc := s.pc + 1), call.c.clock(k))
        == StackStep(SWAP1, s.(pc := s.pc + 1));
    assert s.stack[..|s.stack| - 2] + [y] + [x] == below + [y, x];
    OneTurn(call, s, k, Past(s, 1, below + [y, x], 0));
  }

  // ---------- arithmetic ----------

  lemma ArithDispatched(c: Context, code: Text, op: byte, s: State, now: u64)
    requires ArithOp(op)
    ensures Dispatch(c, code, op, s, now) == ArithStep(c, op, s)
  {
    assert !PushOp(op);
  }

  lemma ArithConcludes(c: Context, op: byte, s: State, below: seq<Word>, x: Word, y: Word, v: nat)
    requires s.stack == below + [x, y] && Arith(op, Decode(x), Decode(y)) == Value(v)
    ensures ArithStep(c, op, s) == Running(Charge(Push(s.(stack := below), WordOf(v)), ArithCost(c.gas, op)))
  {
    assert Top(s, 0) == y && Top(s, 1) == x && s.stack[..|s.stack| - 2] == below;
  }

  /** The number that the low 64 bits of a word denote. */
  function Low(w: Word): u64
  {
    Decode(w) % U64_SIZE
  }

  function WholeQuotient(a: nat, b: nat): (q: nat)
    requires b > 0
  {
    a / b
  }

  function Remainder(a: nat, b: nat): (r: nat)
    requires b > 0
  {
    a % b
  }

  lemma Computed(call: Call, s: State, k: nat, op: byte, cost: u64, below: seq<Word>, x: Word, y: Word, v: nat)
    requires Ready(call, s, [op], cost) && s.stack == below + [x, y]
    requires ArithOp(op) && cost == ArithCost(call.c.gas, op) && Arith(op, Decode(x), Decode(y)) == Value(v)
    ensures Goes(call, s, k, 1, Past(s, 1, below + [WordOf(v)], cost))
  {
    var t := s.(pc := s.pc + 1);
    Dispatched(call, s, [op], cost, call.c.clock(k));
    ArithDispatched(call.c, call.code, op, t, call.c.clock(k));
    ArithConcludes(call.c, op, t, below, x, y, v);
    NoWrap(s.gasUsed, cost);
    OneTurn(call, s, k, Past(s, 1, below + [WordOf(v)], cost));
  }

  /** The sum of two numbers, less 2^256 where it reaches that. */
  function Sum(a: nat, b: nat): int
  {
    if a + b < Modulus() then a + b else a + b - Modulus()
  }

  /** The difference of two numbers, plus 2^256 where the second is larger. */
  function Gap(a: nat, b: nat): int
  {
    if b <= a then a - b else a - b + Modulus()
  }

  lemma SumValue(a: nat, b: nat)
    requires a < Modulus() && b < Modulus()
    ensures 0 <= Sum(a, b) < Modulus() && Arith(ADD, a, b) == Value(Sum(a, b))
  {
    RemainderOf(a + b, Modulus(), if a + b < Modulus() then 0 else 1, Sum(a, b));
  }

  lemma DifferenceValue(a: nat, b: nat)
    requires a < Modulus() && b < Modulus()
    ensures 0 <= Gap(a, b) < Modulus() && Arith(SUB, a, b) == Value(Gap(a, b))
  {
    RemainderOf(a - b, Modulus(), if b <= a then 0 else -1, Gap(a, b));
  }

  lemma DecodeBounded(w: Word)
    ensures Decode(w) < Modulus()
  {
  }

  lemma Added(call: Call, s: State, k: nat, below: seq<Word>, x: Word, y: Word) returns (w: Word)
    requires Ready(call, s, [ADD], call.c.gas.add) && s.stack == below + [x, y]
    ensures Goes(call, s, k, 1, Past(s, 1, below + [w], call.c.gas.add)) && Decode(w) == Sum(Decode(x), Decode(y))
  {
    DecodeBounded(x);
    DecodeBounded(y);
    SumValue(Decode(x), Decode(y));
    w := WordOf(Sum(Decode(x), Decode(y)));
    DecodeWordOf(Sum(Decode(x), Decode(y)));
    Computed(call, s, k, ADD, call.c.gas.add, below, x, y, Sum(Decode(x), Decode(y)));
  }

  /** The word pushed last is taken from the one before. */
  lemma Lessened(call: Call, s: State, k: nat, below: seq<Word>, x: Word, y: Word) returns (w: Word)
    requires Ready(call, s, [SUB], call.c.gas.add) && s.stack == below + [x, y]
    ensures Goes(call, s, k, 1, Past(s, 1, below + [w], call.c.gas.add)) && Decode(w) == Gap(Decode(x), Decode(y))
  {
    DecodeBounded(x);
    DecodeBounded(y);
    DifferenceValue(Decode(x), Decode(y));
    w := WordOf(Gap(Decode(x), Decode(y)));
    DecodeWordOf(Gap(Decode(x), Decode(y)));
    Computed(call, s, k, SUB, call.c.gas.add, below, x, y, Gap(Decode(x), Decode(y)));
  }

  lemma Multiplied(call: Call, s: State, k: nat, below: seq<Word>, x: Word, y: Word)
    requires Ready(call, s, [MUL], call.c.gas.mul) && s.stack == below + [x, y]
    ensures Goes(call, s, k, 1, Past(s, 1, below + [WordOf((Decode(x) * Decode(y)) % U64_SIZE)], call.c.gas.mul))
  {
    Computed(call, s, k, MUL, call.c.gas.mul, below, x, y, (Decode(x) * Decode(y)) % U64_SIZE);
  }

  lemma DivisorSeen(op: byte, a: nat, b: nat)
    requires (op == DIV || op == MOD) && b % U64_SIZE != 0
    ensures Arith(op, a, b) == Value(if op == DIV then WholeQuotient(a % U64_SIZE, b % U64_SIZE)
                                     else Remainder(a % U64_SIZE, b % U64_SIZE))
  {
    assert b != 0;
  }

  /** On the low 64 bits, the word pushed last being the divisor. */
  lemma Divided(call: Call, s: State, k: nat, below: seq<Word>, x: Word, y: Word)
    requires Ready(call, s, [DIV], call.c.gas.add) && s.stack == below + [x, y] && Low(y) != 0
    ensures Goes(call, s, k, 1, Past(s, 1, below + [WordOf(WholeQuotient(Low(x), Low(y)))], call.c.gas.add))
  {
    DivisorSeen(DIV, Decode(x), Decode(y));
    Computed(call, s, k, DIV, call.c.gas.add, below, x, y, WholeQuotient(Low(x), Low(y)));
  }

  lemma Reduced(call: Call, s: State, k: nat, below: seq<Word>, x: Word, y: Word)
    requires Ready(call, s, [MOD], call.c.gas.add) && s.stack == below + [x, y] && Low(y) != 0
    ensures Goes(call, s, k, 1, Past(s, 1, below + [WordOf(Remainder(Low(x), Low(y)))], call.c.gas.add))
  {
    DivisorSeen(MOD, Decode(x), Decode(y));
    Computed(call, s, k, MOD, call.c.gas.add, below, x, y, Remainder(Low(x), Low(y)));
  }

  lemma DividedByZero(call: Call, s: State, k: nat, op: byte, below: seq<Word>, x: Word, y: Word)
    requires op == DIV || op == MOD
    requires Ready(call, s, [op], call.c.gas.add) && s.stack == below + [x, y] && Decode(y) == 0
    ensures Goes(call, s, k, 1, Past(s, 1, below + [WordOf(0)], call.c.gas.add))
  {
    Computed(call, s, k, op, call.c.gas.add, below, x, y, 0);
  }

  function Bit(b: bool): Word
  {
    WordOf(if b then 1 else 0)
  }

  lemma LessCompared(call: Call, s: State, k: nat, below: seq<Word>, x: Word, y: Word)
    requires Ready(call, s, [LT], 0) && s.stack == below + [x, y]
    ensures Goes(call, s, k, 1, Past(s, 1, below + [Bit(Decode(x) < Decode(y))], 0))
  {
    Computed(call, s, k, LT, 0, below, x, y, if Decode(x) < Decode(y) then 1 else 0);
  }

  lemma GreaterCompared(call: Call, s: State, k: nat, below: seq<Word>, x: Word, y: Word)
    requires Ready(call, s, [GT], 0) && s.stack == below + [x, y]
    ensures Goes(call, s, k, 1, Past(s, 1, below + [Bit(Decode(x) > Decode(y))], 0))
  {
    Computed(call, s, k, GT, 0, below, x, y, if Decode(x) > Decode(y) then 1 else 0);
  }

  lemma EqualCompared(call: Call, s: State, k: nat, below: seq<Word>, x: Word, y: Word)
    requires Ready(call, s, [EQ], 0) && s.stack == below + [x, y]
    ensures Goes(call, s, k, 1, Past(s, 1, below + [Bit(x == y)], 0))
  {
    Computed(call, s, k, EQ, 0, below, x, y, if Decode(x) == Decode(y) then 1 else 0);
    if Decode(x) == Decode(y) {
      DecodeInjective(x, y);
    }
  }

  // ---------- memory and storage ----------

  lemma MemoryDispatched(c: Context, code: Text, op: byte, s: State, now: u64)
    requires MemoryOp(op)
    ensures Dispatch(c, code, op, s, now) == MemoryStep(op, s)
  {
    assert !PushOp(op) && !ArithOp(op) && !StackOp(op);
  }

  lemma StorageDispatched(c: Context, code: Text, op: byte, s: State, now: u64)
    requires StorageOp(op)
    ensures Dispatch(c, code, op, s, now) == StorageStep(c, op, s)
  {
    assert !PushOp(op) && !ArithOp(op) && !StackOp(op) && !MemoryOp(op);
  }

  /** The byte address a word names. */
  function Address(w: Word): nat
  {
    Decode(w) % 256
  }

  lemma AddressIsLastByte(w: Word)
    ensures Address(w) == w[31]
  {
    assert Decode(w) == Decode(w[..31]) * 256 + w[31];
  }

  /** The word pushed last is the address, the one before is what is written there; the other bytes stay. */
  lemma MemoryWritten(call: Call, s: State, k: nat, below: seq<Word>, v: Word, a: Word) returns (m: Text)
    requires Ready(call, s, [MSTORE], 0) && s.stack == below + [v, a] && Address(a) + 32 <= |s.memory|
    ensures |m| == |s.memory| && m[Address(a)..Address(a) + 32] == v
    ensures forall i | 0 <= i < |m| && !(Address(a) <= i < Address(a) + 32) :: m[i] == s.memory[i]
    ensures Goes(call, s, k, 1, Past(s, 1, below, 0).(memory := m))
  {
    var t := s.(pc := s.pc + 1);
    Dispatched(call, s, [MSTORE], 0, call.c.clock(k));
    MemoryDispatched(call.c, call.code, MSTORE, t, call.c.clock(k));
    AddressIsLastByte(a);
    m := s.memory[..Address(a)] + v + s.memory[Address(a) + 32..];
    assert Top(t, 0) == a && Top(t, 1) == v && t.stack[..|t.stack| - 2] == below;
    OneTurn(call, s, k, Past(s, 1, below, 0).(memory := m));
  }

  lemma MemoryRead(call: Call, s: State, k: nat, below: seq<Word>, a: Word)
    requires Ready(call, s, [MLOAD], 0) && s.stack == below + [a] && Address(a) + 32 <= |s.memory|
    ensures Goes(call, s, k, 1, Past(s, 1, below + [s.memory[Address(a)..Address(a) + 32]], 0))
  {
    var t := s.(pc := s.pc + 1);
    Dispatched(call, s, [MLOAD], 0, call.c.clock(k));
    MemoryDispatched(call.c, call.code, MLOAD, t, call.c.clock(k));
    AddressIsLastByte(a);
    assert Top(t, 0) == a && t.stack[..|t.stack| - 1] == below;
    OneTurn(call, s, k, Past(s, 1, below + [s.memory[Address(a)..Address(a) + 32]], 0));
  }

  /** The word pushed last is the key, the one before the value. */
  lemma StorageWritten(call: Call, s: State, k: nat, below: seq<Word>, v: Word, key: Word)
    requires Ready(call, s, [SSTORE], call.c.gas.sstore) && s.stack == below + [v, key]
    ensures Goes(call, s, k, 1, Past(s, 1, below, call.c.gas.sstore).(storage := s.storage[key := v]))
  {
    var t := s.(pc := s.pc + 1);
    Dispatched(call, s, [SSTORE], call.c.gas.sstore, call.c.clock(k));
    StorageDispatched(call.c, call.code, SSTORE, t, call.c.clock(k));
    assert Top(t, 0) == key && Top(t, 1) == v && t.stack[..|t.stack| - 2] == below;
    NoWrap(s.gasUsed, call.c.gas.sstore);
    OneTurn(call, s, k, Past(s, 1, below, call.c.gas.sstore).(storage := s.storage[key := v]));
  }

  /** What a key reads as: the number its last 32 bytes denote, zero where there is nothing. */
  function Reads(storage: map<Text, Text>, key: Word): nat
  {
    if key !in storage then 0
    else if |storage[key]| <= 32 then Decode(storage[key]) else Decode(storage[key][|storage[key]| - 32..])
  }

  lemma LoadedReads(storage: map<Text, Text>, key: Word)
    ensures Loaded(storage, key) == WordOf(Reads(storage, key))
  {
    var value := if key in storage then storage[key] else [];
    if |value| <= 32 {
      DecodePadded(32 - |value|, value);
    }
    WordOfDecode(Loaded(storage, key));
  }

  lemma LoadSteps(c: Context, s: State, below: seq<Word>, key: Word)
    requires s.stack == below + [key]
    ensures StorageStep(c, SLOAD, s)
         == Running(Charge(Push(s.(stack := below), WordOf(Reads(s.storage, key))), c.gas.sload))
  {
    assert Top(s, 0) == key && s.stack[..|s.stack| - 1] == below;
    LoadedReads(s.storage, key);
  }

  lemma StorageRead(call: Call, s: State, k: nat, below: seq<Word>, key: Word)
    requires Ready(call, s, [SLOAD], call.c.gas.sload) && s.stack == below + [key]
    ensures Goes(call, s, k, 1, Past(s, 1, below + [WordOf(Reads(s.storage, key))], call.c.gas.sload))
  {
    var t := s.(pc := s.pc + 1);
    Dispatched(call, s, [SLOAD], call.c.gas.sload, call.c.clock(k));
    StorageDispatched(call.c, call.code, SLOAD, t, call.c.clock(k));
    LoadSteps(call.c, t, below, key);
    NoWrap(s.gasUsed, call.c.gas.sload);
    OneTurn(call, s, k, Past(s, 1, below + [WordOf(Reads(s.storage, key))], call.c.gas.sload));
  }

  // ---------- jumps ----------

  lemma JumpDispatched(c: Context, code: Text, op: byte, s: State, now: u64)
    requires JumpOp(op)
    ensures Dispatch(c, code, op, s, now) == JumpStep(code, op, s)
  {
    assert !PushOp(op) && !ArithOp(op) && !StackOp(op) && !MemoryOp(op) && !StorageOp(op);
  }

  lemma JumpedTo(call: Call, s: State, k: nat, below: seq<Word>, a: Word)
    requires Ready(call, s, [JMP], 0) && s.stack == below + [a] && Address(a) < |call.code|
    ensures Goes(call, s, k, 1, s.(pc := Address(a), stack := below))
  {
    var t := s.(pc := s.pc + 1);
    Dispatched(call, s, [JMP], 0, call.c.clock(k));
    JumpDispatched(call.c, call.code, JMP, t, call.c.clock(k));
    AddressIsLastByte(a);
    assert Top(t, 0) == a && t.stack[..|t.stack| - 1] == below;
    OneTurn(call, s, k, s.(pc := Address(a), stack := below));
  }

  /** The word pushed last is the target, the one before the condition. */
  lemma JumpedIf(call: Call, s: State, k: nat, below: seq<Word>, x: Word, a: Word)
    requires Ready(call, s, [JMPI], 0) && s.stack == below + [x, a] && (Decode(x) != 0 ==> Address(a) < |call.code|)
    ensures Goes(call, s, k, 1, s.(pc := if Decode(x) != 0 then Address(a) else s.pc + 1, stack := below))
  {
    var t := s.(pc := s.pc + 1);
    Dispatched(call, s, [JMPI], 0, call.c.clock(k));
    JumpDispatched(call.c, call.code, JMPI, t, call.c.clock(k));
    AddressIsLastByte(a);
    assert Top(t, 0) == a && Top(t, 1) == x && t.stack[..|t.stack| - 2] == below;
    OneTurn(call, s, k, s.(pc := if Decode(x) != 0 then Address(a) else s.pc + 1, stack := below));
  }

  // ---------- the environment ----------

  lemma FromU64IsWord(v: u64)
    ensures FromU64(v) == WordOf(v)
  {
    DecodeFromU64(v);
    WordOfDecode(FromU64(v));
  }

  lemma EnvironmentDispatched(c: Context, code: Text, op: byte, s: State, now: u64)
    requires EnvironmentOp(op)
    ensures Dispatch(c, code, op, s, now) == EnvironmentStep(c, op, s, now)
  {
    assert !PushOp(op) && !ArithOp(op) && !StackOp(op) && !MemoryOp(op) && !StorageOp(op) && !JumpOp(op);
  }

  lemma ValuePushed(call: Call, s: State, k: nat)
    requires Ready(call, s, [CALLVALUE], 0)
    ensures Goes(call, s, k, 1, Past(s, 1, s.stack + [WordOf(call.c.callValue)], 0))
  {
    Dispatched(call, s, [CALLVALUE], 0, call.c.clock(k));
    FromU64IsWord(call.c.callValue);
    EnvironmentDispatched(call.c, call.code, CALLVALUE, s.(pc := s.pc + 1), call.c.clock(k));
    OneTurn(call, s, k, Past(s, 1, s.stack + [WordOf(call.c.callValue)], 0));
  }

  /** The clock as it stands at that turn. */
  lemma TimePushed(call: Call, s: State, k: nat)
    requires Ready(call, s, [TIMESTAMP], 0)
    ensures Goes(call, s, k, 1, Past(s, 1, s.stack + [WordOf(call.c.clock(k))], 0))
  {
    Dispatched(call, s, [TIMESTAMP], 0, call.c.clock(k));
    FromU64IsWord(call.c.clock(k));
    EnvironmentDispatched(call.c, call.code, TIMESTAMP, s.(pc := s.pc + 1), call.c.clock(k));
    OneTurn(call, s, k, Past(s, 1, s.stack + [WordOf(call.c.clock(k))], 0));
  }

  /** What is left of the gas. */
  lemma GasPushed(call: Call, s: State, k: nat)
    requires Ready(call, s, [GASLIMIT], 0)
    ensures Goes(call, s, k, 1, Past(s, 1, s.stack + [WordOf(call.c.gasLimit - s.gasUsed)], 0))
  {
    Dispatched(call, s, [GASLIMIT], 0, call.c.clock(k));
    FromU64IsWord(call.c.gasLimit - s.gasUsed);
    EnvironmentDispatched(call.c, call.code, GASLIMIT, s.(pc := s.pc + 1), call.c.clock(k));
    OneTurn(call, s, k, Past(s, 1, s.stack + [WordOf(call.c.gasLimit - s.gasUsed)], 0));
  }

  /** The caller's name, cut or filled up with zeros behind. */
  lemma CallerPushed(call: Call, s: State, k: nat) returns (w: Word)
    requires Ready(call, s, [CALLER], 0)
    ensures forall i | 0 <= i < 32 :: w[i] == if i < |call.c.caller| then call.c.caller[i] else 0
    ensures Goes(call, s, k, 1, Past(s, 1, s.stack + [w], 0))
  {
    Dispatched(call, s, [CALLER], 0, call.c.clock(k));
    EnvironmentDispatched(call.c, call.code, CALLER, s.(pc := s.pc + 1), call.c.clock(k));
    w := CallerWord(call.c.caller);
    OneTurn(call, s, k, Past(s, 1, s.stack + [w], 0));
  }

  // ---------- how runs end ----------

  /** The run has ended after `n` turns, with this answer. */
  ghost predicate Ends(call: Call, s: State, k: nat, n: nat, ok: bool, t: State)
  {
    Iterate(call.turn, Running(s), k, n) == Finished(ok, t)
  }

  lemma LastTurn(call: Call, s: State, k: nat, ok: bool, t: State)
    requires call.Valid() && Advance(call.c, call.code, s, call.c.clock(k)) == Finished(ok, t)
    ensures Ends(call, s, k, 1, ok, t)
  {
    assert Iterate(call.turn, call.turn(s, k), k + 1, 0) == call.turn(s, k);
  }

  lemma HaltDispatched(c: Context, code: Text, op: byte, s: State, now: u64)
    requires op == STOP || op == RETURN || op == REVERT
    ensures Dispatch(c, code, op, s, now) == HaltStep(op, s)
  {
    assert !PushOp(op) && !ArithOp(op) && !StackOp(op) && !MemoryOp(op) && !StorageOp(op) && !JumpOp(op);
  }

  /** STOP and RETURN end the run at the next check, with the stack as it is and the answer true. */
  lemma Stopped(call: Call, s: State, k: nat, op: byte)
    requires (op == STOP || op == RETURN) && Ready(call, s, [op], 0)
    ensures Ends(call, s, k, 2, true, Past(s, 1, s.stack, 0).(halted := true))
  {
    var t := Past(s, 1, s.stack, 0).(halted := true);
    Dispatched(call, s, [op], 0, call.c.clock(k));
    HaltDispatched(call.c, call.code, op, s.(pc := s.pc + 1), call.c.clock(k));
    OneTurn(call, s, k, t);
    AdvanceEnds(call.c, call.code, t, call.c.clock(k + 1));
    LastTurn(call, t, k + 1, true, t);
    IterateSplits(call.turn, Running(s), k, 1, 1);
  }

  /** Behind the last byte the run ends with the answer true. */
  lemma EndedBehind(call: Call, s: State, k: nat)
    requires call.Valid() && (s.halted || s.pc >= |call.code|)
    ensures Ends(call, s, k, 1, true, s)
  {
    AdvanceEnds(call.c, call.code, s, call.c.clock(k));
    LastTurn(call, s, k, true, s);
  }

  /** A run that comes to the end of the code answers true a turn later. */
  lemma RunsOut(call: Call, s: State, k: nat, n: nat, t: State)
    requires call.Valid() && Goes(call, s, k, n, t) && (t.halted || t.pc >= |call.code|)
    ensures Ends(call, s, k, n + 1, true, t)
  {
    EndedBehind(call, t, k + n);
    IterateSplits(call.turn, Running(s), k, n, 1);
  }

  /** No run that comes to REVERT answers true, however long it is watched. */
  lemma RevertRefuses(call: Call, s: State, k: nat, n: nat, t: State, m: nat)
    requires call.Valid() && Goes(call, s, k, n, t) && !t.halted && t.pc < |call.code| && call.code[t.pc] == REVERT
    ensures forall u :: !Ends(call, s, k, m, true, u)
    ensures m > n ==> exists u :: Ends(call, s, k, m, false, u) && u.stack == t.stack && u.storage == t.storage
  {
    var o := Advance(call.c, call.code, t, call.c.clock(k + n));
    RevertFinishes(call.c, call.code, t, call.c.clock(k + n));
    LastTurn(call, t, k + n, false, o.s);
    IterateSplits(call.turn, Running(s), k, n, 1);
    assert Ends(call, s, k, n + 1, false, o.s);
    if m > n {
      IterateStable(call.turn, Running(s), k, n + 1, m);
      assert Ends(call, s, k, m, false, o.s);
    } else {
      NotYetEnded(call, s, k, m, n);
    }
  }

  lemma RevertFinishes(c: Context, code: Text, t: State, now: u64)
    requires !t.halted && t.pc < |code| && code[t.pc] == REVERT
    ensures var o := Advance(c, code, t, now);
            o.Finished? && !o.success && o.s.stack == t.stack && o.s.storage == t.storage
  {
    if Wrap(t.gasUsed + 1) > c.gasLimit {
      AdvanceStarves(c, code, t, now);
    } else {
      AdvanceDispatches(c, code, t, now);
      HaltDispatched(c, code, REVERT, t.(pc := t.pc + 1), now);
    }
  }

  /** A run that goes on after `n` turns went on before. */
  lemma NotYetEnded(call: Call, s: State, k: nat, m: nat, n: nat)
    requires m <= n && Iterate(call.turn, Running(s), k, n).Running?
    ensures Iterate(call.turn, Running(s), k, m).Running?
  {
    if !Iterate(call.turn, Running(s), k, m).Running? {
      IterateStable(call.turn, Running(s), k, m, n);
    }
  }

  // ---------- which turns fail ----------

  /** How many operands an instruction takes off the stack. */
  function Operands(op: byte): nat
  {
    if op in {POP, DUP1, MLOAD, SLOAD, JMP} then 1
    else if op in {SWAP1, ADD, SUB, MUL, DIV, MOD, LT, GT, EQ, MSTORE, SSTORE, JMPI} then 2
    else 0
  }

  /** How many bytes of code follow an instruction as its operand. */
  function Trailing(op: byte): nat
  {
    if op == PUSH1 then 1 else if op == PUSH32 then 32 else 0
  }

  /** The instructions that can succeed. */
  const KNOWN: set<byte> := {
    PUSH0, PUSH1, PUSH32, POP, DUP1, SWAP1, ADD, SUB, MUL, DIV, MOD, LT, GT, EQ, MLOAD, MSTORE, SLOAD, SSTORE,
    JMP, JMPI, RETURN, CALLER, CALLVALUE, TIMESTAMP, GASLIMIT, STOP}

  /** The word below `depth` others. */
  function Operand(s: State, depth: nat): Word
    requires depth < |s.stack|
  {
    s.stack[|s.stack| - 1 - depth]
  }

  /** What is wrong with executing `op` in a state whose program counter is behind it. */
  predicate Faulty(code: Text, op: byte, s: State)
  {
    || op !in KNOWN
    || s.pc + Trailing(op) > |code|
    || |s.stack| < Operands(op)
    || ((op == MLOAD || op == MSTORE) && Address(Operand(s, 0)) + 32 > |s.memory|)
    || (op == JMP && Address(Operand(s, 0)) >= |code|)
    || (op == JMPI && Decode(Operand(s, 1)) != 0 && Address(Operand(s, 0)) >= |code|)
  }

  /** The only trap: a divisor that is not zero, but whose low 64 bits are. */
  predicate Traps(op: byte, s: State)
  {
    (op == DIV || op == MOD) && |s.stack| >= 2 && Decode(Operand(s, 0)) != 0 && Low(Operand(s, 0)) == 0
  }

  /** An answer of the dispatch that goes on, fails or traps where it should. */
  ghost predicate Judged(code: Text, op: byte, s: State, o: Result)
  {
    && (o.Running? <==> !Faulty(code, op, s) && !Traps(op, s))
    && (o.Crashed? <==> Traps(op, s))
    && (o.Finished? ==> !o.success)
  }

  lemma ArithAnswers(op: byte, a: nat, b: nat)
    requires ArithOp(op)
    ensures Arith(op, a, b).Undefined? <==> (op == DIV || op == MOD) && b != 0 && b % U64_SIZE == 0
  {
  }

  lemma ArithJudged(c: Context, code: Text, op: byte, s: State)
    requires ArithOp(op) && s.pc <= |code|
    ensures Judged(code, op, s, ArithStep(c, op, s))
  {
    if |s.stack| >= 2 {
      ArithAnswers(op, Decode(Operand(s, 1)), Decode(Operand(s, 0)));
    }
  }

  lemma StackJudged(code: Text, op: byte, s: State)
    requires StackOp(op) && s.pc <= |code|
    ensures Judged(code, op, s, StackStep(op, s))
  {
  }

  lemma PushJudged(c: Context, code: Text, op: byte, s: State)
    requires PushOp(op) && s.pc <= |code|
    ensures Judged(code, op, s, PushStep(c, code, op, s))
  {
  }

  lemma MemoryJudged(code: Text, op: byte, s: State)
    requires MemoryOp(op) && s.pc <= |code|
    ensures Judged(code, op, s, MemoryStep(op, s))
  {
    if s.stack != [] {
      AddressIsLastByte(Operand(s, 0));
    }
  }

  lemma StorageJudged(c: Context, code: Text, op: byte, s: State)
    requires StorageOp(op) && s.pc <= |code|
    ensures Judged(code, op, s, StorageStep(c, op, s))
  {
  }

  lemma JumpJudged(code: Text, op: byte, s: State)
    requires JumpOp(op) && s.pc <= |code|
    ensures Judged(code, op, s, JumpStep(code, op, s))
  {
    if s.stack != [] {
      AddressIsLastByte(Operand(s, 0));
    }
  }

  lemma EnvironmentJudged(c: Context, code: Text, op: byte, s: State, now: u64)
    requires EnvironmentOp(op) && s.pc <= |code|
    ensures Judged(code, op, s, EnvironmentStep(c, op, s, now))
  {
  }

  lemma HaltJudged(code: Text, op: byte, s: State)
    requires !PushOp(op) && !ArithOp(op) && !StackOp(op) && !MemoryOp(op) && !StorageOp(op) && !JumpOp(op)
    requires !EnvironmentOp(op) && s.pc <= |code|
    ensures Judged(code, op, s, HaltStep(op, s))
  {
  }

  lemma DispatchJudged(c: Context, code: Text, op: byte, s: State, now: u64)
    requires s.pc <= |code|
    ensures Judged(code, op, s, Dispatch(c, code, op, s, now))
  {
    if PushOp(op) {
      PushJudged(c, code, op, s);
    } else if ArithOp(op) {
      ArithJudged(c, code, op, s);
    } else if StackOp(op) {
      StackJudged(code, op, s);
    } else if MemoryOp(op) {
      MemoryJudged(code, op, s);
    } else if StorageOp(op) {
      StorageJudged(c, code, op, s);
    } else if JumpOp(op) {
      JumpJudged(code, op, s);
    } else if EnvironmentOp(op) {
      EnvironmentJudged(c, code, op, s, now);
    } else {
      HaltJudged(code, op, s);
    }
  }

  /** Out of gas, at the end, or in the middle of a turn: how a run that has come to state `t` goes on. */
  lemma TurnExactly(call: Call, s: State, k: nat, n: nat, t: State)
    requires call.Valid() && Goes(call, s, k, n, t)
    ensures var o := Iterate(call.turn, Running(s), k, n + 1);
            if t.halted || t.pc >= |call.code| then o == Finished(true, t)
            else if (t.gasUsed + 1) % U64_SIZE > call.c.gasLimit then o.Finished? && !o.success
            else Judged(call.code, call.code[t.pc], t.(pc := t.pc + 1), o)
  {
    IterateLast(call.turn, Running(s), k, n);
    if t.halted || t.pc >= |call.code| {
      AdvanceEnds(call.c, call.code, t, call.c.clock(k + n));
    } else if Wrap(t.gasUsed + 1) > call.c.gasLimit {
      AdvanceStarves(call.c, call.code, t, call.c.clock(k + n));
    } else {
      AdvanceDispatches(call.c, call.code, t, call.c.clock(k + n));
      DispatchJudged(call.c, call.code, call.code[t.pc], t.(pc := t.pc + 1), call.c.clock(k + n));
    }
  }
}
