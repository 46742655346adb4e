/**
 `compile_from_asm` (src/vm/mermai_vm.cpp) and the theorem that assembling preserves meaning: the
 bytecode, run on words by the interpreter, does what the instruction list does on plain numbers.
 */
module Assembler {
  import opened Bytes
  import opened Types
  import opened Words
  import opened Runs
  import opened Vm

  datatype Instr =
    | Push0 | Push1(value: byte) | Stop | Pop
    | Add | Sub | Mul | Div | Mod | Sload | Sstore

  function Opcode(i: Instr): byte
  {
    match i
    case Push0 => PUSH0
    case Push1(_) => PUSH1
    case Stop => STOP
    case Pop => POP
    case Add => ADD
    case Sub => SUB
    case Mul => MUL
    case Div => DIV
    case Mod => MOD
    case Sload => SLOAD
    case Sstore => SSTORE
  }

  predicate IsArith(i: Instr)
  {
    i.Add? || i.Sub? || i.Mul? || i.Div? || i.Mod?
  }

  function Assembled(i: Instr): Text
  {
    if i.Push1? then [PUSH1, i.value] else [Opcode(i)]
  }

  function Assemble(p: seq<Instr>): Text
  {
    if p == [] then [] else Assembled(p[0]) + Assemble(p[1..])
  }

  // ---------- the text front end ----------

  function SkipSpaces(s: Text): (r: Text)
    ensures |r| <= |s| && (r != [] ==> !IsSpace(r[0]))
  {
    if s != [] && IsSpace(s[0]) then SkipSpaces(s[1..]) else s
  }

  /** The length of the leading run of non-spaces. */
  function TokenLength(s: Text): (n: nat)
    ensures n <= |s| && (s != [] && !IsSpace(s[0]) ==> n > 0)
  {
    if s != [] && !IsSpace(s[0]) then 1 + TokenLength(s[1..]) else 0
  }

  function Ascii(s: string): Text
  {
    seq(|s|, i requires 0 <= i < |s| => (s[i] as int) % 256)
  }

  /** `number` is `std::stoul(_, nullptr, 0)`, `None` where it throws. */
  function ParseToken(number: Text -> Option<nat>, token: Text): Option<Instr>
  {
    if token == Ascii("PUSH0") then Some(Push0)
    else if token == Ascii("STOP") then Some(Stop)
    else if token == Ascii("POP") then Some(Pop)
    else if token == Ascii("ADD") then Some(Add)
    else if token == Ascii("SUB") then Some(Sub)
    else if token == Ascii("MUL") then Some(Mul)
    else if token == Ascii("DIV") then Some(Div)
    else if token == Ascii("MOD") then Some(Mod)
    else if token == Ascii("SLOAD") then Some(Sload)
    else if token == Ascii("SSTORE") then Some(Sstore)
    else if Ascii("PUSH1:") <= token then
      match number(token[6..])
      case None => None
      case Some(n) => Some(Push1(n % 256))
    else None
  }

  /** The instruction list a text denotes; `None` where the assembler throws. */
  function Parse(number: Text -> Option<nat>, text: Text): Option<seq<Instr>>
    decreases |text|
  {
    var s := SkipSpaces(text);
    if s == [] then Some([])
    else
      var n := TokenLength(s);
      match ParseToken(number, s[..n])
      case None => None
      case Some(i) =>
        match Parse(number, s[n..])
        case None => None
        case Some(p) => Some([i] + p)
  }

  lemma {:induction false} AssembleSnoc(p: seq<Instr>, i: Instr)
    ensures Assemble(p + [i]) == Assemble(p) + Assembled(i)
  {
    if p == [] {
      assert ([] + [i])[1..] == [];
      assert Assemble([i]) == Assembled(i) + Assemble([]);
      assert p + [i] == [i];
    } else {
      assert (p + [i])[1..] == p[1..] + [i];
      AssembleSnoc(p[1..], i);
    }
  }

  ghost predicate Parses(number: Text -> Option<nat>, whole: Text, done: seq<Instr>, rest: Text)
  {
    Parse(number, whole) == match Parse(number, rest)
                            case None => None
                            case Some(p) => Some(done + p)
  }

  /** Appends the bytes of each token in turn; `None` where the source throws. */
  method CompileFromAsm(number: Text -> Option<nat>, text: Text) returns (bytecode: Option<Text>)
    ensures bytecode == match Parse(number, text)
                        case None => None
                        case Some(p) => Some(Assemble(p))
  {
    var code: Text := [];
    var rest := text;
    ghost var done: seq<Instr> := [];
    ParsesNothing(number, text);
    while true
      invariant code == Assemble(done)
      invariant Parses(number, text, done, rest)
      decreases |rest|
    {
      var s := SkipSpaces(rest);
      if s == [] {
        assert done + [] == done;
        return Some(code);
      }
      var n := TokenLength(s);
      var token := ParseToken(number, s[..n]);
      if token.None? {
        return None;
      }
      AssembleSnoc(done, token.value);
      code := code + Assembled(token.value);
      ParsesStep(number, text, done, rest, token.value);
      done := done + [token.value];
      rest := s[n..];
    }
  }

  lemma ParsesNothing(number: Text -> Option<nat>, whole: Text)
    ensures Parses(number, whole, [], whole)
  {
    var p := Parse(number, whole);
    if p.Some? {
      assert [] + p.value == p.value;
    }
  }

  lemma ParseOne(number: Text -> Option<nat>, text: Text, i: Instr)
    requires SkipSpaces(text) != []
    requires ParseToken(number, SkipSpaces(text)[..TokenLength(SkipSpaces(text))]) == Some(i)
    ensures Parse(number, text) == match Parse(number, SkipSpaces(text)[TokenLength(SkipSpaces(text))..])
                                   case None => None
                                   case Some(p) => Some([i] + p)
  {
  }

  lemma ParsesStep(number: Text -> Option<nat>, whole: Text, done: seq<Instr>, rest: Text, i: Instr)
    requires SkipSpaces(rest) != []
    requires ParseToken(number, SkipSpaces(rest)[..TokenLength(SkipSpaces(rest))]) == Some(i)
    requires Parses(number, whole, done, rest)
    ensures Parses(number, whole, done + [i], SkipSpaces(rest)[TokenLength(SkipSpaces(rest))..])
  {
    var s := SkipSpaces(rest);
    var p := Parse(number, s[TokenLength(s)..]);
    ParseOne(number, rest, i);
    if p.Some? {
      assert done + ([i] + p.value) == done + [i] + p.value;
    }
  }

  // ---------- the meaning of an instruction list ----------

  datatype Meaning =
    | Ends(success: bool, stack: seq<nat>, storage: map<Text, Text>, gasUsed: u64)
    | NoMeaning

  /** A number's 32-byte form is the key and the value the source stores. */
  function Read(storage: map<Text, Text>, key: nat): nat
  {
    if WordOf(key) in storage then Decode(storage[WordOf(key)]) % Modulus() else 0
  }

  /** What one instruction does to a stack of numbers. */
  function Perform(c: Context, i: Instr, stack: seq<nat>, storage: map<Text, Text>, gasUsed: u64): (m: Meaning)
  {
    var n := |stack|;
    var paid := Wrap(gasUsed + Cost(c.gas, Opcode(i)));
    match i
    case Push0 => Ends(true, stack + [0], storage, paid)
    case Push1(v) => Ends(true, stack + [v], storage, paid)
    case Stop => Ends(true, stack, storage, gasUsed)
    case Pop =>
      if n < 1 then Ends(false, stack, storage, gasUsed) else Ends(true, stack[..n - 1], storage, paid)
    case Sload =>
      if n < 1 then Ends(false, stack, storage, gasUsed)
      else Ends(true, stack[..n - 1] + [Read(storage, stack[n - 1])], storage, paid)
    case Sstore =>
      if n < 2 then Ends(false, stack, storage, gasUsed)
      else Ends(true, stack[..n - 2], storage[WordOf(stack[n - 1]) := WordOf(stack[n - 2])], paid)
    case _ =>
      if n < 2 then Ends(false, stack, storage, gasUsed)
      else Settle(stack[..n - 2], storage, paid, Arith(Opcode(i), stack[n - 2], stack[n - 1]))
  }

  function Settle(stack: seq<nat>, storage: map<Text, Text>, paid: u64, r: Alu): Meaning
  {
    match r
    case Undefined => NoMeaning
    case Value(v) => Ends(true, stack + [v], storage, paid)
  }

  /** Runs a list of instructions one after the other, checking gas before each. */
  function Interpret(c: Context, p: seq<Instr>, stack: seq<nat>, storage: map<Text, Text>, gasUsed: u64): Meaning
  {
    if p == [] then Ends(true, stack, storage, gasUsed)
    else if Wrap(gasUsed + 1) > c.gasLimit then Ends(false, stack, storage, gasUsed)
    else
      var m := Perform(c, p[0], stack, storage, gasUsed);
      if m.Ends? && m.success && !p[0].Stop? then Interpret(c, p[1..], m.stack, m.storage, m.gasUsed) else m
  }

  // ---------- the two agree ----------

  function Values(stack: seq<Word>): seq<nat>
  {
    seq(|stack|, i requires 0 <= i < |stack| => Decode(stack[i]))
  }

  /** The observable part of a finished run. */
  function Observe(o: Result): Meaning
    requires !o.Running?
  {
    match o
    case Finished(ok, s) => Ends(ok, Values(s.stack), s.storage, s.gasUsed)
    case Crashed => NoMeaning
  }

  /** The machine's answer to `length` bytes that mean `m`: the next state behind them, or the end of the run. */
  ghost predicate PerformedAs(length: nat, stops: bool, s: State, o: Result, m: Meaning)
  {
    if m.Ends? && m.success then
      && o.Running?
      && o.s.pc == s.pc + length
      && o.s.halted == stops
      && Values(o.s.stack) == m.stack && o.s.storage == m.storage && o.s.gasUsed == m.gasUsed
    else
      !o.Running? && Observe(o) == m
  }

  /** The machine's answer to an instruction. */
  ghost predicate Performed(i: Instr, s: State, o: Result, m: Meaning)
  {
    PerformedAs(|Assembled(i)|, i.Stop?, s, o, m)
  }

  lemma ValuesOf(stack: seq<Word>, n: nat, w: Word)
    requires n <= |stack|
    ensures Values(stack[..n]) == Values(stack)[..n]
    ensures Values(stack[..n] + [w]) == Values(stack)[..n] + [Decode(w)]
  {
  }

  lemma ValuesPush(stack: seq<Word>, w: Word)
    ensures Values(stack + [w]) == Values(stack) + [Decode(w)]
  {
  }

  lemma DecodeBelow(w: Word)
    ensures Decode(w) % Modulus() == Decode(w)
  {
    RemainderOf(Decode(w), Modulus(), 0, Decode(w));
  }

  lemma ShortValue(value: Text)
    requires |value| <= 32
    ensures Decode(Zeros(32 - |value|) + value) == Decode(value) % Modulus()
  {
    var w: Word := Zeros(32 - |value|) + value;
    DecodePadded(32 - |value|, value);
    DecodeBelow(w);
    assert Decode(w) == Decode(value);
  }

  lemma LongValue(head: Text, w: Word)
    ensures Decode(head + w) % Modulus() == Decode(w)
  {
    DecodeConcat(head, w);
    RemainderOf(Decode(head + w), Modulus(), Decode(head), Decode(w));
  }

  lemma LoadedValue(storage: map<Text, Text>, key: Word)
    ensures Decode(Loaded(storage, key)) == Read(storage, Decode(key))
  {
    WordOfDecode(key);
    if key in storage {
      var value := storage[key];
      if |value| <= 32 {
        ShortValue(value);
      } else {
        assert value == value[..|value| - 32] + value[|value| - 32..];
        LongValue(value[..|value| - 32], value[|value| - 32..]);
      }
    } else {
      assert Loaded(storage, key) == Zeros(32);
      DecodeZeros(32);
    }
  }

  lemma ModulusLarge()
    ensures U64_SIZE <= Modulus()
  {
    PowValues();
    PowAdd(24, U64_BYTES);
    ProductAtLeast(Pow256(24), U64_SIZE);
  }

  lemma ArithBelow(op: byte, a: nat, b: nat)
    requires Arith(op, a, b).Value?
    ensures Arith(op, a, b).v < Modulus()
  {
    ModulusLarge();
    if (op == DIV || op == MOD) && b % U64_SIZE != 0 {
      QuotientBound(a % U64_SIZE, b % U64_SIZE);
    }
  }

  lemma PerformConclude(c: Context, op: byte, cost: u64, s: State, r: Alu)
    requires |s.stack| >= 2 && ArithOp(op) && cost == Cost(c.gas, op)
    requires s.pc > 0 && !s.halted && (r.Value? ==> r.v < Modulus())
    ensures PerformedAs(1, false, s.(pc := s.pc - 1), Conclude(c, op, s, r),
                        Settle(Values(s.stack)[..|s.stack| - 2], s.storage, Wrap(s.gasUsed + cost), r))
  {
    if r.Value? {
      DecodeWordOf(r.v);
      ValuesOf(s.stack, |s.stack| - 2, WordOf(r.v));
    }
  }

  /** What a two-operand instruction means. */
  function PerformPair(op: byte, cost: u64, stack: seq<nat>, storage: map<Text, Text>, gasUsed: u64): Meaning
  {
    var n := |stack|;
    if n < 2 then Ends(false, stack, storage, gasUsed)
    else Settle(stack[..n - 2], storage, Wrap(gasUsed + cost), Arith(op, stack[n - 2], stack[n - 1]))
  }

  lemma ConcludeMatches(c: Context, op: byte, cost: u64, s: State, r: Alu, o: Result, m: Meaning)
    requires |s.stack| >= 2 && ArithOp(op) && cost == Cost(c.gas, op)
    requires s.pc > 0 && !s.halted && (r.Value? ==> r.v < Modulus())
    requires o == Conclude(c, op, s, r)
    requires m == Settle(Values(s.stack)[..|s.stack| - 2], s.storage, Wrap(s.gasUsed + cost), r)
    ensures PerformedAs(1, false, s.(pc := s.pc - 1), o, m)
  {
    PerformConclude(c, op, cost, s, r);
  }

  lemma StepConcludes(c: Context, op: byte, s: State)
    requires |s.stack| >= 2
    ensures ArithStep(c, op, s) == Conclude(c, op, s, Arith(op, Decode(Top(s, 1)), Decode(Top(s, 0))))
  {
  }

  lemma PairSettles(op: byte, cost: u64, s: State)
    requires |s.stack| >= 2
    ensures PerformPair(op, cost, Values(s.stack), s.storage, s.gasUsed)
         == Settle(Values(s.stack)[..|s.stack| - 2], s.storage, Wrap(s.gasUsed + cost),
                   Arith(op, Decode(Top(s, 1)), Decode(Top(s, 0))))
  {
  }

  lemma PairFails(c: Context, op: byte, cost: u64, s: State)
    requires s.pc > 0 && |s.stack| < 2
    ensures PerformedAs(1, false, s.(pc := s.pc - 1), ArithStep(c, op, s),
                        PerformPair(op, cost, Values(s.stack), s.storage, s.gasUsed))
  {
  }

  lemma PairArith(c: Context, op: byte, cost: u64, s: State)
    requires ArithOp(op) && cost == Cost(c.gas, op)
    requires s.pc > 0 && !s.halted
    ensures PerformedAs(1, false, s.(pc := s.pc - 1), ArithStep(c, op, s),
                        PerformPair(op, cost, Values(s.stack), s.storage, s.gasUsed))
  {
    if |s.stack| < 2 {
      PairFails(c, op, cost, s);
    } else {
      var a, b := Decode(Top(s, 1)), Decode(Top(s, 0));
      if Arith(op, a, b).Value? {
        ArithBelow(op, a, b);
      }
      StepConcludes(c, op, s);
      PairSettles(op, cost, s);
      ConcludeMatches(c, op, cost, s, Arith(op, a, b), ArithStep(c, op, s),
                      PerformPair(op, cost, Values(s.stack), s.storage, s.gasUsed));
    }
  }

  lemma ArithShape(i: Instr)
    requires IsArith(i)
    ensures |Assembled(i)| == 1 && !i.Stop? && ArithOp(Opcode(i))
  {
  }

  lemma PerformIsPair(c: Context, i: Instr, stack: seq<nat>, storage: map<Text, Text>, gasUsed: u64)
    requires IsArith(i)
    ensures Perform(c, i, stack, storage, gasUsed)
         == PerformPair(Opcode(i), Cost(c.gas, Opcode(i)), stack, storage, gasUsed)
  {
  }

  lemma PerformArith(c: Context, i: Instr, s: State)
    requires IsArith(i)
    requires s.pc > 0 && !s.halted
    ensures Performed(i, s.(pc := s.pc - 1), ArithStep(c, Opcode(i), s),
                      Perform(c, i, Values(s.stack), s.storage, s.gasUsed))
  {
    ArithShape(i);
    PerformIsPair(c, i, Values(s.stack), s.storage, s.gasUsed);
    PairArith(c, Opcode(i), Cost(c.gas, Opcode(i)), s);
  }

  lemma PerformPush0(c: Context, code: Text, s: State)
    requires s.pc > 0 && !s.halted
    ensures PerformedAs(1, false, s.(pc := s.pc - 1), PushStep(c, code, PUSH0, s),
                        Ends(true, Values(s.stack) + [0], s.storage, Wrap(s.gasUsed + c.gas.push)))
  {
    DecodeZeros(32);
    ValuesPush(s.stack, ZERO_WORD);
  }

  lemma PerformPush1(c: Context, code: Text, value: byte, s: State)
    requires s.pc > 0 && !s.halted && s.pc < |code| && code[s.pc] == value
    ensures PerformedAs(2, false, s.(pc := s.pc - 1), PushStep(c, code, PUSH1, s),
                        Ends(true, Values(s.stack) + [value], s.storage, Wrap(s.gasUsed + c.gas.push)))
  {
    var w: Word := Zeros(31) + [value];
    DecodePadded(31, [value]);
    assert [value][..0] == [];
    assert Decode([value]) == value;
    ValuesPush(s.stack, w);
  }

  lemma PerformLoad(c: Context, s: State)
    requires s.pc > 0 && !s.halted && s.stack != []
    ensures PerformedAs(1, false, s.(pc := s.pc - 1), StorageStep(c, SLOAD, s),
                        Ends(true, Values(s.stack)[..|s.stack| - 1] + [Read(s.storage, Decode(Top(s, 0)))], s.storage,
                             Wrap(s.gasUsed + c.gas.sload)))
  {
    var n := |s.stack|;
    var w := Loaded(s.storage, Top(s, 0));
    LoadedValue(s.storage, Top(s, 0));
    ValuesOf(s.stack, n - 1, w);
  }

  lemma PerformStore(c: Context, s: State)
    requires s.pc > 0 && !s.halted && |s.stack| >= 2
    ensures PerformedAs(1, false, s.(pc := s.pc - 1), StorageStep(c, SSTORE, s),
                        Ends(true, Values(s.stack)[..|s.stack| - 2],
                             s.storage[WordOf(Decode(Top(s, 0))) := WordOf(Decode(Top(s, 1)))],
                             Wrap(s.gasUsed + c.gas.sstore)))
  {
    WordOfDecode(Top(s, 0));
    WordOfDecode(Top(s, 1));
    ValuesOf(s.stack, |s.stack| - 2, ZERO_WORD);
  }

  /** The part of the dispatch that an assembled instruction reaches. */
  function Reached(c: Context, code: Text, i: Instr, s: State): Result
  {
    match i
    case Push0 => PushStep(c, code, PUSH0, s)
    case Push1(_) => PushStep(c, code, PUSH1, s)
    case Stop => HaltStep(STOP, s)
    case Pop => StackStep(POP, s)
    case Sload => StorageStep(c, SLOAD, s)
    case Sstore => StorageStep(c, SSTORE, s)
    case _ => ArithStep(c, Opcode(i), s)
  }

  lemma DispatchArith(c: Context, code: Text, i: Instr, s: State, now: u64)
    requires IsArith(i)
    ensures Dispatch(c, code, Opcode(i), s, now) == Reached(c, code, i, s)
  {
    ArithShape(i);
  }

  lemma DispatchReaches(c: Context, code: Text, i: Instr, s: State, now: u64)
    ensures Dispatch(c, code, Opcode(i), s, now) == Reached(c, code, i, s)
  {
    if IsArith(i) {
      DispatchArith(c, code, i, s, now);
    }
  }

  lemma AdvanceReaches(c: Context, code: Text, i: Instr, s: State, now: u64)
    requires !s.halted && s.pc < |code| && code[s.pc] == Opcode(i)
    requires Wrap(s.gasUsed + 1) <= c.gasLimit
    ensures Advance(c, code, s, now) == Reached(c, code, i, s.(pc := s.pc + 1))
  {
    AdvanceDispatches(c, code, s, now);
    DispatchReaches(c, code, i, s.(pc := s.pc + 1), now);
  }

  lemma ReachedPush(c: Context, code: Text, i: Instr, s: State)
    requires s.pc > 0 && !s.halted && (i.Push0? || i.Push1?)
    requires i.Push1? ==> s.pc < |code| && code[s.pc] == i.value
    ensures Performed(i, s.(pc := s.pc - 1), Reached(c, code, i, s),
                      Perform(c, i, Values(s.stack), s.storage, s.gasUsed))
  {
    if i.Push0? {
      PerformPush0(c, code, s);
    } else {
      PerformPush1(c, code, i.value, s);
    }
  }

  lemma ReachedStack(c: Context, code: Text, i: Instr, s: State)
    requires s.pc > 0 && !s.halted && (i.Stop? || i.Pop?)
    ensures Performed(i, s.(pc := s.pc - 1), Reached(c, code, i, s),
                      Perform(c, i, Values(s.stack), s.storage, s.gasUsed))
  {
    if i.Pop? && s.stack != [] {
      ValuesOf(s.stack, |s.stack| - 1, ZERO_WORD);
    }
  }

  lemma Rewritten(i: Instr, s: State, o: Result, m: Meaning, o': Result, m': Meaning)
    requires o == o' && m == m' && PerformedAs(|Assembled(i)|, i.Stop?, s, o', m')
    ensures Performed(i, s, o, m)
  {
  }

  lemma PerformFails(c: Context, i: Instr, s: State)
    requires s.pc > 0 && ((i.Sload? && s.stack == []) || (i.Sstore? && |s.stack| < 2))
    ensures PerformedAs(1, false, s.(pc := s.pc - 1), StorageStep(c, Opcode(i), s),
                        Perform(c, i, Values(s.stack), s.storage, s.gasUsed))
  {
  }

  lemma LoadMeans(c: Context, s: State)
    requires s.stack != []
    ensures Perform(c, Sload, Values(s.stack), s.storage, s.gasUsed)
         == Ends(true, Values(s.stack)[..|s.stack| - 1] + [Read(s.storage, Decode(Top(s, 0)))], s.storage,
                 Wrap(s.gasUsed + c.gas.sload))
  {
    assert Values(s.stack)[|s.stack| - 1] == Decode(Top(s, 0));
  }

  lemma StoreMeans(c: Context, s: State)
    requires |s.stack| >= 2
    ensures Perform(c, Sstore, Values(s.stack), s.storage, s.gasUsed)
         == Ends(true, Values(s.stack)[..|s.stack| - 2],
                 s.storage[WordOf(Decode(Top(s, 0))) := WordOf(Decode(Top(s, 1)))],
                 Wrap(s.gasUsed + c.gas.sstore))
  {
    assert Values(s.stack)[|s.stack| - 1] == Decode(Top(s, 0));
    assert Values(s.stack)[|s.stack| - 2] == Decode(Top(s, 1));
  }

  lemma ReachedStorage(c: Context, code: Text, i: Instr, s: State)
    requires s.pc > 0 && !s.halted && (i.Sload? || i.Sstore?)
    ensures Performed(i, s.(pc := s.pc - 1), Reached(c, code, i, s),
                      Perform(c, i, Values(s.stack), s.storage, s.gasUsed))
  {
    var t, o := s.(pc := s.pc - 1), StorageStep(c, Opcode(i), s);
    var m := Perform(c, i, Values(s.stack), s.storage, s.gasUsed);
    if |s.stack| < (if i.Sload? then 1 else 2) {
      PerformFails(c, i, s);
    } else if i.Sload? {
      PerformLoad(c, s);
      LoadMeans(c, s);
    } else {
      PerformStore(c, s);
      StoreMeans(c, s);
    }
    Rewritten(i, t, Reached(c, code, i, s), m, o, m);
  }

  lemma PerformReached(c: Context, code: Text, i: Instr, s: State)
    requires s.pc > 0 && !s.halted
    requires i.Push1? ==> s.pc < |code| && code[s.pc] == i.value
    ensures Performed(i, s.(pc := s.pc - 1), Reached(c, code, i, s),
                      Perform(c, i, Values(s.stack), s.storage, s.gasUsed))
  {
    if i.Push0? || i.Push1? {
      ReachedPush(c, code, i, s);
    } else if i.Stop? || i.Pop? {
      ReachedStack(c, code, i, s);
    } else if i.Sload? || i.Sstore? {
      ReachedStorage(c, code, i, s);
    } else {
      PerformArith(c, i, s);
    }
  }

  lemma PerformMatches(c: Context, code: Text, i: Instr, s: State, now: u64)
    requires !s.halted && s.pc + |Assembled(i)| <= |code|
    requires code[s.pc..s.pc + |Assembled(i)|] == Assembled(i)
    requires Wrap(s.gasUsed + 1) <= c.gasLimit
    ensures Performed(i, s, Advance(c, code, s, now), Perform(c, i, Values(s.stack), s.storage, s.gasUsed))
  {
    var bytes := code[s.pc..s.pc + |Assembled(i)|];
    assert code[s.pc] == bytes[0];
    assert i.Push1? ==> code[s.pc + 1] == bytes[1];
    var t := s.(pc := s.pc + 1);
    assert t.(pc := t.pc - 1) == s;
    AdvanceReaches(c, code, i, s, now);
    PerformReached(c, code, i, t);
  }

  /**
   Assembling preserves meaning: from any state standing before the bytes of `p`, the machine ends
   after at most one turn per instruction and one more, with the success flag, stack, storage and
   gas that the list itself yields.
   */
  lemma {:induction false} AssemblyRefines(c: Context, before: Text, p: seq<Instr>, s: State, k: nat)
    requires s.pc == |before| && !s.halted
    ensures var o := Iterate(Turn(c, before + Assemble(p)), Running(s), k, |p| + 1);
            !o.Running? && Observe(o) == Interpret(c, p, Values(s.stack), s.storage, s.gasUsed)
    decreases p
  {
    var code := before + Assemble(p);
    var turn := Turn(c, code);
    var o := turn(s, k);
    assert Iterate(turn, Running(s), k, |p| + 1) == Iterate(turn, o, k + 1, |p|);
    if p == [] {
      assert Advance(c, code, s, c.clock(k)) == Finished(true, s);
    } else if Wrap(s.gasUsed + 1) > c.gasLimit {
      AssembleNonEmpty(p);
      assert Advance(c, code, s, c.clock(k)) == FailWith(s, OutOfGas);
    } else {
      var i := p[0];
      HeadBytes(before, p);
      PerformMatches(c, code, i, s, c.clock(k));
      var m := Perform(c, i, Values(s.stack), s.storage, s.gasUsed);
      if m.Ends? && m.success {
        if i.Stop? {
          HaltsNext(c, code, o.s, k + 1, |p|);
        } else {
          assert before + Assemble(p) == (before + Assembled(i)) + Assemble(p[1..]);
          AssemblyRefines(c, before + Assembled(i), p[1..], o.s, k + 1);
        }
      }
    }
  }

  lemma HeadBytes(before: Text, p: seq<Instr>)
    requires p != []
    ensures |before| + |Assembled(p[0])| <= |before + Assemble(p)|
    ensures (before + Assemble(p))[|before|..|before| + |Assembled(p[0])|] == Assembled(p[0])
  {
    var i, rest := Assembled(p[0]), Assemble(p[1..]);
    assert Assemble(p) == i + rest;
    assert before + (i + rest) == (before + i) + rest;
    assert ((before + i) + rest)[|before|..|before| + |i|] == i;
  }

  lemma AssembleNonEmpty(p: seq<Instr>)
    ensures p != [] ==> Assemble(p) != []
  {
  }

  lemma HaltsNext(c: Context, code: Text, s: State, k: nat, n: nat)
    requires s.halted && n > 0
    ensures Iterate(Turn(c, code), Running(s), k, n) == Finished(true, s)
  {
    assert Advance(c, code, s, c.clock(k)) == Finished(true, s);
    assert Turn(c, code)(s, k) == Finished(true, s);
    assert Iterate(Turn(c, code), Running(s), k, n) == Iterate(Turn(c, code), Finished(true, s), k + 1, n - 1);
  }

  /** Every text the assembler accepts runs as its instruction list means, from any context. */
  lemma CompiledTextRefines(c: Context, number: Text -> Option<nat>, text: Text, s: State)
    requires Parse(number, text).Some? && s.pc == 0 && !s.halted
    ensures var p := Parse(number, text).value;
            var o := Iterate(Turn(c, Assemble(p)), Running(s), 0, |p| + 1);
            !o.Running? && Observe(o) == Interpret(c, p, Values(s.stack), s.storage, s.gasUsed)
  {
    var p := Parse(number, text).value;
    AssemblyRefines(c, [], p, s, 0);
    assert [] + Assemble(p) == Assemble(p);
  }

  lemma HaltedRunsOn(c: Context, code: Text, s: State, k: nat, n: nat)
    requires s.halted
    ensures Iterate(Turn(c, code), Running(s), k, n).Running? ==> n == 0
  {
    if n > 0 {
      HaltsNext(c, code, s, k, n);
    }
  }

  lemma EndFinishes(c: Context, before: Text, s: State, k: nat)
    requires s.pc == |before| && !s.halted
    ensures Turn(c, before + Assemble([]))(s, k) == Finished(true, s)
  {
    assert Advance(c, before + Assemble([]), s, c.clock(k)) == Finished(true, s);
  }

  /** A turn that runs on has executed the next instruction and stands behind it. */
  lemma TurnPasses(c: Context, before: Text, p: seq<Instr>, s: State, k: nat)
    requires s.pc == |before| && !s.halted && Turn(c, before + Assemble(p))(s, k).Running?
    ensures p != []
    ensures var t := Turn(c, before + Assemble(p))(s, k).s;
            t.pc == s.pc + |Assembled(p[0])| && t.halted == p[0].Stop?
  {
    var code := before + Assemble(p);
    EndFinishes(c, before, s, k);
    AdvanceRuns(c, code, s, c.clock(k));
    HeadBytes(before, p);
    PerformMatches(c, code, p[0], s, c.clock(k));
  }

  lemma TakeTail(p: seq<Instr>, n: nat)
    requires 0 < n <= |p|
    ensures |Assemble(p[..n])| == |Assembled(p[0])| + |Assemble(p[1..][..n - 1])|
  {
    assert p[..n][1..] == p[1..][..n - 1];
  }

  /** The program counter always stands on an instruction boundary: after `n` turns, the n-th. */
  lemma {:induction false} OnBoundary(c: Context, before: Text, p: seq<Instr>, s: State, k: nat, n: nat)
    requires s.pc == |before| && !s.halted
    requires Iterate(Turn(c, before + Assemble(p)), Running(s), k, n).Running?
    ensures n <= |p|
    ensures Iterate(Turn(c, before + Assemble(p)), Running(s), k, n).s.pc == |before| + |Assemble(p[..n])|
    decreases n
  {
    if n == 0 {
      assert p[..0] == [];
    } else {
      var turn := Turn(c, before + Assemble(p));
      var o := turn(s, k);
      assert Iterate(turn, Running(s), k, n) == Iterate(turn, o, k + 1, n - 1);
      TurnPasses(c, before, p, s, k);
      if o.s.halted {
        HaltedRunsOn(c, before + Assemble(p), o.s, k + 1, n - 1);
        TakeTail(p, 1);
      } else {
        assert before + Assemble(p) == (before + Assembled(p[0])) + Assemble(p[1..]);
        OnBoundary(c, before + Assembled(p[0]), p[1..], o.s, k + 1, n - 1);
        TakeTail(p, n);
      }
    }
  }
}
