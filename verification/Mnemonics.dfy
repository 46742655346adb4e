/**
 The assembler from its other end (src/vm/mermai_vm.cpp:387-410): a program written out as text, one token after
 the other, compiles to the bytes of its instructions.
 */
module Mnemonics {
  import opened Bytes
  import opened Types
  import opened Words
  import opened Vm
  import opened Assembler
  import opened Instructions
  import opened FreshCalls

  /** An instruction as it is written; `show` writes out an operand. */
  function Written(show: byte -> Text, i: Instr): Text
  {
    match i
    case Push0 => Ascii("PUSH0")
    case Push1(v) => Ascii("PUSH1:") + show(v)
    case Stop => Ascii("STOP")
    case Pop => Ascii("POP")
    case Add => Ascii("ADD")
    case Sub => Ascii("SUB")
    case Mul => Ascii("MUL")
    case Div => Ascii("DIV")
    case Mod => Ascii("MOD")
    case Sload => Ascii("SLOAD")
    case Sstore => Ascii("SSTORE")
  }

  /** An instruction as it is encoded, with the opcode bytes of mermai_explorer/app.js. */
  function Encoded(i: Instr): Text
  {
    match i
    case Push0 => [0x00]
    case Push1(v) => [0x01, v]
    case Stop => [0xFF]
    case Pop => [0x50]
    case Add => [0xA0]
    case Sub => [0xA1]
    case Mul => [0xA2]
    case Div => [0xA3]
    case Mod => [0xA4]
    case Sload => [0xD0]
    case Sstore => [0xD1]
  }

  const SPACE: byte := 32

  function Source(show: byte -> Text, p: seq<Instr>): Text
  {
    if p == [] then [] else [SPACE] + (Written(show, p[0]) + Source(show, p[1..]))
  }

  function Binary(p: seq<Instr>): Text
  {
    if p == [] then [] else Encoded(p[0]) + Binary(p[1..])
  }

  /** Operands are written without white space, and read back as what they are. */
  ghost predicate Legible(number: Text -> Option<nat>, show: byte -> Text)
  {
    forall v: byte :: number(show(v)) == Some(v) && forall k | 0 <= k < |show(v)| :: !IsSpace(show(v)[k])
  }

  lemma EncodedIsAssembled(i: Instr)
    ensures Assembled(i) == Encoded(i)
  {
  }

  lemma {:induction false} BinaryIsAssembled(p: seq<Instr>)
    ensures Assemble(p) == Binary(p)
  {
    if p != [] {
      EncodedIsAssembled(p[0]);
      BinaryIsAssembled(p[1..]);
    }
  }

  predicate Solid(s: Text)
  {
    s != [] && forall k | 0 <= k < |s| :: !IsSpace(s[k])
  }

  lemma {:induction false} TokenEnds(token: Text, rest: Text)
    requires (forall k | 0 <= k < |token| :: !IsSpace(token[k])) && (rest != [] ==> IsSpace(rest[0]))
    ensures TokenLength(token + rest) == |token|
  {
    if token == [] {
      assert token + rest == rest;
    } else {
      assert (token + rest)[1..] == token[1..] + rest;
      TokenEnds(token[1..], rest);
    }
  }

  lemma CutBehind(token: Text, rest: Text)
    ensures (token + rest)[..|token|] == token && (token + rest)[|token|..] == rest
  {
  }

  lemma TokenFound(token: Text, rest: Text)
    requires Solid(token) && (rest != [] ==> IsSpace(rest[0]))
    ensures var s := SkipSpaces([SPACE] + (token + rest));
            s == token + rest && TokenLength(s) == |token| && s[..|token|] == token && s[|token|..] == rest
  {
    assert (token + rest)[0] == token[0];
    SpaceSkipped(token + rest);
    TokenEnds(token, rest);
    CutBehind(token, rest);
  }

  lemma SpaceSkipped(s: Text)
    requires s != [] && !IsSpace(s[0])
    ensures SkipSpaces([SPACE] + s) == s
  {
    assert ([SPACE] + s)[1..] == s;
  }

  lemma LettersSolid(word: string)
    requires word != "" && forall k | 0 <= k < |word| :: 33 <= word[k] as int < 127
    ensures Solid(Ascii(word))
  {
  }

  lemma WrittenSolid(number: Text -> Option<nat>, show: byte -> Text, i: Instr)
    requires Legible(number, show)
    ensures Solid(Written(show, i))
  {
    match i {
      case Push0 => LettersSolid("PUSH0");
      case Push1(v) => LettersSolid("PUSH1:");
      case Stop => LettersSolid("STOP");
      case Pop => LettersSolid("POP");
      case Add => LettersSolid("ADD");
      case Sub => LettersSolid("SUB");
      case Mul => LettersSolid("MUL");
      case Div => LettersSolid("DIV");
      case Mod => LettersSolid("MOD");
      case Sload => LettersSolid("SLOAD");
      case Sstore => LettersSolid("SSTORE");
    }
  }

  /** Two words of one length that differ in a letter. */
  lemma WordsDiffer(a: string, b: string, k: nat)
    requires |a| == |b| && k < |a| && (a[k] as int) % 256 != (b[k] as int) % 256
    ensures Ascii(a) != Ascii(b)
  {
    assert Ascii(a)[k] != Ascii(b)[k];
  }

  predicate Short(i: Instr)
  {
    i.Pop? || i.Add? || i.Sub? || i.Mul? || i.Div? || i.Mod?
  }

  lemma ShortRead(number: Text -> Option<nat>, show: byte -> Text, i: Instr)
    requires Short(i)
    ensures ParseToken(number, Written(show, i)) == Some(i)
  {
    WordsDiffer("POP", "ADD", 0);
    WordsDiffer("POP", "SUB", 0);
    WordsDiffer("POP", "MUL", 0);
    WordsDiffer("POP", "DIV", 0);
    WordsDiffer("POP", "MOD", 0);
    ArithmeticDiffers();
  }

  lemma ArithmeticDiffers()
    ensures Ascii("ADD") != Ascii("SUB") && Ascii("ADD") != Ascii("MUL") && Ascii("ADD") != Ascii("DIV")
    ensures Ascii("ADD") != Ascii("MOD") && Ascii("SUB") != Ascii("MUL") && Ascii("SUB") != Ascii("DIV")
    ensures Ascii("SUB") != Ascii("MOD") && Ascii("MUL") != Ascii("DIV") && Ascii("MUL") != Ascii("MOD")
    ensures Ascii("DIV") != Ascii("MOD")
  {
    WordsDiffer("ADD", "SUB", 0);
    WordsDiffer("ADD", "MUL", 0);
    WordsDiffer("ADD", "DIV", 0);
    WordsDiffer("ADD", "MOD", 0);
    WordsDiffer("SUB", "MUL", 0);
    WordsDiffer("SUB", "DIV", 0);
    WordsDiffer("SUB", "MOD", 0);
    WordsDiffer("MUL", "DIV", 0);
    WordsDiffer("MUL", "MOD", 1);
    WordsDiffer("DIV", "MOD", 0);
  }

  lemma LongRead(number: Text -> Option<nat>, show: byte -> Text, i: Instr)
    requires !Short(i) && !i.Push1?
    ensures ParseToken(number, Written(show, i)) == Some(i)
  {
    WordsDiffer("PUSH0", "SLOAD", 0);
  }

  lemma OperandRead(number: Text -> Option<nat>, show: byte -> Text, v: byte)
    requires Legible(number, show)
    ensures ParseToken(number, Ascii("PUSH1:") + show(v)) == Some(Push1(v))
  {
    var token := Ascii("PUSH1:") + show(v);
    assert token[6..] == show(v);
    var k := 4;
    assert token[4] == 49;
    assert Ascii("PUSH0")[4] == 48;
    assert token[0] == 80 && token[1] == 85;
    assert Ascii("SSTORE")[0] == 83;
  }

  lemma TokenRead(number: Text -> Option<nat>, show: byte -> Text, i: Instr)
    requires Legible(number, show)
    ensures ParseToken(number, Written(show, i)) == Some(i)
  {
    if i.Push1? {
      OperandRead(number, show, i.value);
    } else if Short(i) {
      ShortRead(number, show, i);
    } else {
      LongRead(number, show, i);
    }
  }

  lemma SourceBegins(show: byte -> Text, p: seq<Instr>)
    ensures Source(show, p) != [] ==> IsSpace(Source(show, p)[0])
  {
  }

  /** Reading what was written gives the program back. */
  lemma {:induction false} SourceRead(number: Text -> Option<nat>, show: byte -> Text, p: seq<Instr>)
    requires Legible(number, show)
    ensures Parse(number, Source(show, p)) == Some(p)
  {
    if p != [] {
      var token, rest := Written(show, p[0]), Source(show, p[1..]);
      SourceRead(number, show, p[1..]);
      WrittenSolid(number, show, p[0]);
      SourceBegins(show, p[1..]);
      TokenFound(token, rest);
      TokenRead(number, show, p[0]);
      ParseOne(number, Source(show, p), p[0]);
      assert [p[0]] + p[1..] == p;
    }
  }

  /** So the assembler turns a program that was written out into its bytes. */
  method CompileWritten(number: Text -> Option<nat>, show: byte -> Text, p: seq<Instr>) returns (bytecode: Option<Text>)
    requires Legible(number, show)
    ensures bytecode == Some(Binary(p))
  {
    bytecode := CompileFromAsm(number, Source(show, p));
    SourceRead(number, show, p);
    BinaryIsAssembled(p);
  }

  lemma BinaryBegins(i: Instr, p: seq<Instr>)
    ensures Binary([i] + p) == Encoded(i) + Binary(p)
  {
    assert ([i] + p)[1..] == p;
  }

  lemma DifferenceBinary(x: byte, y: byte)
    ensures Binary([Push1(x), Push1(y), Instr.Sub]) == [0x01, x, 0x01, y, 0xA1]
  {
    BinaryBegins(Instr.Sub, []);
    BinaryBegins(Push1(y), [Instr.Sub]);
    BinaryBegins(Push1(x), [Push1(y), Instr.Sub]);
    assert [Push1(x)] + ([Push1(y)] + ([Instr.Sub] + [])) == [Push1(x), Push1(y), Instr.Sub];
  }

  /** Two pushes leave the two bytes as words on an empty stack. */
  lemma TwoPushed(call: Call, x: byte, y: byte) returns (t: State)
    requires call.Valid() && 2 * call.c.gas.push < call.c.gasLimit
    requires |call.code| >= 4 && call.code[0..2] == [PUSH1, x] && call.code[2..4] == [PUSH1, y]
    ensures Goes(call, Fresh(), 0, 2, t)
    ensures t == Past(Fresh(), 4, [WordOf(x), WordOf(y)], 2 * call.c.gas.push)
  {
    var s := Fresh();
    var t1 := Past(s, 2, s.stack + [WordOf(x)], call.c.gas.push);
    t := Past(s, 4, t1.stack + [WordOf(y)], 2 * call.c.gas.push);
    BytePushed(call, s, 0, x);
    BytePushed(call, t1, 1, y);
    assert t.stack == [WordOf(x), WordOf(y)];
    GoesOn(call, s, 0, 1, t1, 1, t);
  }

  lemma RunsOutAfter(call: Call, s: State, t: State, u: State)
    requires call.Valid() && Goes(call, s, 0, 2, t) && Goes(call, t, 2, 1, u) && u.pc >= |call.code|
    ensures Instructions.Ends(call, s, 0, 4, true, u)
  {
    GoesOn(call, s, 0, 2, t, 1, u);
    RunsOut(call, s, 0, 3, u);
  }

  /** And a call of the bytes of "PUSH1:x PUSH1:y SUB" leaves x - y, modulo 2^256. */
  lemma CompiledDifference(c: Context, x: byte, y: byte) returns (t: State)
    requires 2 * c.gas.push + c.gas.add < c.gasLimit
    ensures Instructions.Ends(CallOf(c, Binary([Push1(x), Push1(y), Instr.Sub])), Fresh(), 0, 4, true, t)
    ensures |t.stack| == 1 && Decode(t.stack[0]) == Gap(x, y)
  {
    var code: Text := [0x01, x, 0x01, y, 0xA1];
    var call, s := CallOf(c, code), Fresh();
    DifferenceBinary(x, y);
    CallsAreValid(c, code);
    assert code[0..2] == [PUSH1, x] && code[2..4] == [PUSH1, y] && code[4..5] == [SUB];
    var t2 := TwoPushed(call, x, y);
    assert t2.stack == [] + [WordOf(x), WordOf(y)];
    var w := Lessened(call, t2, 2, [], WordOf(x), WordOf(y));
    t := Past(t2, 1, [] + [w], c.gas.add);
    RunsOutAfter(call, s, t2, t);
    ByteValue(x);
    ByteValue(y);
  }

  lemma ByteValue(b: byte)
    ensures Decode(WordOf(b)) == b
  {
    SmallWord(b);
    DecodePadded(31, [b]);
    assert [b][..0] == [];
  }
}
