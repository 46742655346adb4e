/**
 What programs of a few instructions do, from any state and above any stack, in plain integers: the laws that
 the virtual machine (src/vm/mermai_vm.cpp) is written for.
 */
module Programs {
  import opened Bytes
  import opened Words
  import opened Vm
  import opened Instructions
  import opened FreshCalls

  /** A program all of which stands in the code at the program counter, with gas enough for it. */
  lemma ReadyFront(call: Call, s: State, front: Text, rest: Text, cost: nat, less: nat)
    requires Ready(call, s, front + rest, cost) && less <= cost
    ensures Ready(call, s, front, less)
  {
    assert call.code[s.pc..s.pc + |front|] == call.code[s.pc..s.pc + |front + rest|][..|front|] == front;
  }

  lemma ReadyRest(call: Call, s: State, front: Text, rest: Text, stack: seq<Word>, cost: nat, paid: nat)
    requires Ready(call, s, front + rest, cost) && paid <= cost
    ensures Ready(call, Past(s, |front|, stack, paid), rest, cost - paid)
  {
    var pc := s.pc + |front|;
    assert call.code[pc..pc + |rest|] == call.code[s.pc..s.pc + |front + rest|][|front|..] == rest;
  }

  /** Two stretches of code, one after the other. */
  lemma Joined(call: Call, s: State, k: nat, m: nat, length: nat, stack: seq<Word>, paid: nat,
               n: nat, length': nat, stack': seq<Word>, paid': nat)
    requires s.gasUsed + paid + paid' < U64_SIZE && Goes(call, s, k, m, Past(s, length, stack, paid))
    requires var t := Past(s, length, stack, paid); Goes(call, t, k + m, n, Past(t, length', stack', paid'))
    ensures Goes(call, s, k, m + n, Past(s, length + length', stack', paid + paid'))
  {
    var t := Past(s, length, stack, paid);
    GoesOn(call, s, k, m, t, n, Past(t, length', stack', paid'));
  }

  function PushOf(w: Word): Text
  {
    [PUSH32] + w
  }

  /** After a push the rest is next. */
  lemma PushedNext(call: Call, s: State, k: nat, w: Word, rest: Text, cost: nat)
    requires Ready(call, s, PushOf(w) + rest, call.c.gas.push + cost)
    ensures var t := Past(s, 33, s.stack + [w], call.c.gas.push); Goes(call, s, k, 1, t) && Ready(call, t, rest, cost)
  {
    ReadyFront(call, s, PushOf(w), rest, call.c.gas.push + cost, call.c.gas.push);
    WordPushed(call, s, k, w);
    ReadyRest(call, s, PushOf(w), rest, s.stack + [w], call.c.gas.push + cost, call.c.gas.push);
  }

  /** Both operands of an instruction, the first below the second. */
  lemma PairPushed(call: Call, s: State, k: nat, x: Word, y: Word)
    requires Ready(call, s, PushOf(x) + PushOf(y), 2 * call.c.gas.push)
    ensures Goes(call, s, k, 2, Past(s, 66, s.stack + [x, y], 2 * call.c.gas.push))
  {
    var t := Past(s, 33, s.stack + [x], call.c.gas.push);
    ReadyFront(call, s, PushOf(x), PushOf(y), 2 * call.c.gas.push, call.c.gas.push);
    WordPushed(call, s, k, x);
    ReadyRest(call, s, PushOf(x), PushOf(y), s.stack + [x], 2 * call.c.gas.push, call.c.gas.push);
    WordPushed(call, t, k + 1, y);
    assert s.stack + [x] + [y] == s.stack + [x, y];
    GoesOn(call, s, k, 1, t, 1, Past(s, 66, s.stack + [x, y], 2 * call.c.gas.push));
  }

  function Operated(x: Word, y: Word, op: byte): Text
  {
    PushOf(x) + PushOf(y) + [op]
  }

  /** After both operands the instruction is next. */
  lemma OperatorNext(call: Call, s: State, k: nat, x: Word, y: Word, op: byte, cost: nat)
    requires Ready(call, s, Operated(x, y, op), 2 * call.c.gas.push + cost)
    ensures var t := Past(s, 66, s.stack + [x, y], 2 * call.c.gas.push);
            Goes(call, s, k, 2, t) && Ready(call, t, [op], cost)
  {
    ReadyFront(call, s, PushOf(x) + PushOf(y), [op], 2 * call.c.gas.push + cost, 2 * call.c.gas.push);
    PairPushed(call, s, k, x, y);
    ReadyRest(call, s, PushOf(x) + PushOf(y), [op], s.stack + [x, y], 2 * call.c.gas.push + cost, 2 * call.c.gas.push);
  }

  // ---------- arithmetic ----------

  lemma LessenedAfter(call: Call, s: State, k: nat, n: nat, length: nat, below: seq<Word>, x: Word, y: Word, paid: nat)
    returns (w: Word)
    requires s.gasUsed + paid < U64_SIZE && Goes(call, s, k, n, Past(s, length, below + [x, y], paid))
    requires Ready(call, Past(s, length, below + [x, y], paid), [SUB], call.c.gas.add)
    ensures s.gasUsed + paid + call.c.gas.add < U64_SIZE
    ensures Goes(call, s, k, n + 1, Past(s, length + 1, below + [w], paid + call.c.gas.add))
    ensures Decode(w) == Gap(Decode(x), Decode(y))
  {
    w := Lessened(call, Past(s, length, below + [x, y], paid), k + n, below, x, y);
    Joined(call, s, k, n, length, below + [x, y], paid, 1, 1, below + [w], call.c.gas.add);
  }

  /** `x`, `y`, SUB leaves the difference of the first and the second, modulo 2^256. */
  lemma Difference(call: Call, s: State, k: nat, x: Word, y: Word) returns (w: Word)
    requires Ready(call, s, Operated(x, y, SUB), 2 * call.c.gas.push + call.c.gas.add)
    ensures Goes(call, s, k, 3, Past(s, 67, s.stack + [w], 2 * call.c.gas.push + call.c.gas.add))
    ensures Decode(w) == Gap(Decode(x), Decode(y))
  {
    OperatorNext(call, s, k, x, y, SUB, call.c.gas.add);
    w := LessenedAfter(call, s, k, 2, 66, s.stack, x, y, 2 * call.c.gas.push);
  }

  lemma DifferenceEnds(call: Call, s: State, x: Word, y: Word) returns (w: Word)
    requires Ready(call, s, Operated(x, y, SUB), 2 * call.c.gas.push + call.c.gas.add)
    requires |call.code| == s.pc + 67
    ensures Ends(call, s, 0, 4, true, Past(s, 67, s.stack + [w], 2 * call.c.gas.push + call.c.gas.add))
    ensures Decode(w) == Gap(Decode(x), Decode(y))
  {
    w := Difference(call, s, 0, x, y);
    RunsOut(call, s, 0, 3, Past(s, 67, s.stack + [w], 2 * call.c.gas.push + call.c.gas.add));
  }

  lemma ReadyAlone(call: Call, cost: nat)
    requires call.Valid() && call.code != [] && cost < call.c.gasLimit
    ensures Ready(call, Fresh(), call.code, cost)
  {
    assert call.code[0..|call.code|] == call.code;
  }

  /** A call of that code alone answers true and leaves the difference and nothing else on the stack. */
  lemma DifferenceCalled(call: Call, x: Word, y: Word) returns (t: State)
    requires call.Valid() && call.code == Operated(x, y, SUB) && 2 * call.c.gas.push + call.c.gas.add < call.c.gasLimit
    ensures Ends(call, Fresh(), 0, 4, true, t)
    ensures |t.stack| == 1 && Decode(t.stack[0]) == Gap(Decode(x), Decode(y))
    ensures t.storage == map[] && t.memory == Fresh().memory && t.gasUsed == 2 * call.c.gas.push + call.c.gas.add
  {
    var s := Fresh();
    ReadyAlone(call, 2 * call.c.gas.push + call.c.gas.add);
    var w := DifferenceEnds(call, s, x, y);
    t := Past(s, 67, s.stack + [w], 2 * call.c.gas.push + call.c.gas.add);
  }

  lemma GapUndone(a: nat, b: nat, d: nat)
    requires a < Modulus() && b < Modulus() && d == Gap(a, b)
    ensures Sum(d, b) == a
  {
  }

  lemma SumRestores(v: Word, w: Word, x: Word, y: Word)
    requires Decode(w) == Gap(Decode(x), Decode(y)) && Decode(v) == Sum(Decode(w), Decode(y))
    ensures v == x
  {
    DecodeBounded(x);
    DecodeBounded(y);
    GapUndone(Decode(x), Decode(y), Decode(w));
    DecodeInjective(v, x);
  }

  lemma AddedBack(call: Call, t: State, k: nat, below: seq<Word>, w: Word, x: Word, y: Word)
    requires Ready(call, t, [ADD], call.c.gas.add) && t.stack == below + [w, y]
    requires Decode(w) == Gap(Decode(x), Decode(y))
    ensures Goes(call, t, k, 1, Past(t, 1, below + [x], call.c.gas.add))
  {
    var v := Added(call, t, k, below, w, y);
    SumRestores(v, w, x, y);
  }

  lemma AddsBack(call: Call, u: State, k: nat, below: seq<Word>, w: Word, x: Word, y: Word)
    requires Ready(call, u, PushOf(y) + [ADD], call.c.gas.push + call.c.gas.add) && u.stack == below + [w]
    requires Decode(w) == Gap(Decode(x), Decode(y))
    ensures Goes(call, u, k, 2, Past(u, 34, below + [x], call.c.gas.push + call.c.gas.add))
  {
    PushedNext(call, u, k, y, [ADD], call.c.gas.add);
    assert u.stack + [y] == below + [w, y];
    AddedBack(call, Past(u, 33, u.stack + [y], call.c.gas.push), k + 1, below, w, x, y);
    Joined(call, u, k, 1, 33, u.stack + [y], call.c.gas.push, 1, 1, below + [x], call.c.gas.add);
  }

  lemma DifferenceNext(call: Call, s: State, k: nat, x: Word, y: Word, rest: Text, cost: nat) returns (w: Word)
    requires Ready(call, s, Operated(x, y, SUB) + rest, 2 * call.c.gas.push + call.c.gas.add + cost)
    ensures var t := Past(s, 67, s.stack + [w], 2 * call.c.gas.push + call.c.gas.add);
            Goes(call, s, k, 3, t) && Ready(call, t, rest, cost)
    ensures Decode(w) == Gap(Decode(x), Decode(y))
  {
    var first := 2 * call.c.gas.push + call.c.gas.add;
    ReadyFront(call, s, Operated(x, y, SUB), rest, first + cost, first);
    w := Difference(call, s, k, x, y);
    ReadyRest(call, s, Operated(x, y, SUB), rest, s.stack + [w], first + cost, first);
  }

  lemma RestoredFrom(call: Call, s: State, k: nat, below: seq<Word>, first: nat, w: Word, x: Word, y: Word)
    requires s.gasUsed + first < U64_SIZE && Goes(call, s, k, 3, Past(s, 67, below + [w], first))
    requires Ready(call, Past(s, 67, below + [w], first), PushOf(y) + [ADD], call.c.gas.push + call.c.gas.add)
    requires Decode(w) == Gap(Decode(x), Decode(y))
    ensures Goes(call, s, k, 5, Past(s, 101, below + [x], first + call.c.gas.push + call.c.gas.add))
  {
    AddsBack(call, Past(s, 67, below + [w], first), k + 3, below, w, x, y);
    Joined(call, s, k, 3, 67, below + [w], first, 2, 34, below + [x], call.c.gas.push + call.c.gas.add);
  }

  lemma RestoredAtCost(call: Call, s: State, k: nat, x: Word, y: Word, first: nat, last: nat)
    requires first == 2 * call.c.gas.push + call.c.gas.add && last == call.c.gas.push + call.c.gas.add
    requires Ready(call, s, Operated(x, y, SUB) + (PushOf(y) + [ADD]), first + last)
    ensures Goes(call, s, k, 5, Past(s, 101, s.stack + [x], first + last))
  {
    var w := DifferenceNext(call, s, k, x, y, PushOf(y) + [ADD], last);
    RestoredFrom(call, s, k, s.stack, first, w, x, y);
  }

  /** Adding back what was subtracted restores the first word, whatever the two are. */
  lemma DifferenceRestored(call: Call, s: State, k: nat, x: Word, y: Word)
    requires Ready(call, s, Operated(x, y, SUB) + (PushOf(y) + [ADD]), 3 * call.c.gas.push + 2 * call.c.gas.add)
    ensures Goes(call, s, k, 5, Past(s, 101, s.stack + [x], 3 * call.c.gas.push + 2 * call.c.gas.add))
  {
    RestoredAtCost(call, s, k, x, y, 2 * call.c.gas.push + call.c.gas.add, call.c.gas.push + call.c.gas.add);
  }

  lemma PairSwapped(call: Call, s: State, k: nat, x: Word, y: Word)
    requires Ready(call, s, Operated(x, y, SWAP1), 2 * call.c.gas.push)
    ensures Goes(call, s, k, 3, Past(s, 67, s.stack + [y, x], 2 * call.c.gas.push))
  {
    OperatorNext(call, s, k, x, y, SWAP1, 0);
    Swapped(call, Past(s, 66, s.stack + [x, y], 2 * call.c.gas.push), k + 2, s.stack, x, y);
    Joined(call, s, k, 2, 66, s.stack + [x, y], 2 * call.c.gas.push, 1, 1, s.stack + [y, x], 0);
  }

  lemma SwappedNext(call: Call, s: State, k: nat, x: Word, y: Word, rest: Text, cost: nat)
    requires Ready(call, s, Operated(x, y, SWAP1) + rest, 2 * call.c.gas.push + cost)
    ensures var t := Past(s, 67, s.stack + [y, x], 2 * call.c.gas.push);
            Goes(call, s, k, 3, t) && Ready(call, t, rest, cost)
  {
    ReadyFront(call, s, Operated(x, y, SWAP1), rest, 2 * call.c.gas.push + cost, 2 * call.c.gas.push);
    PairSwapped(call, s, k, x, y);
    ReadyRest(call, s, Operated(x, y, SWAP1), rest, s.stack + [y, x], 2 * call.c.gas.push + cost, 2 * call.c.gas.push);
  }

  /** With the operands swapped first, the difference is the other one. */
  lemma SwappedDifference(call: Call, s: State, k: nat, x: Word, y: Word) returns (w: Word)
    requires Ready(call, s, Operated(x, y, SWAP1) + [SUB], 2 * call.c.gas.push + call.c.gas.add)
    ensures Goes(call, s, k, 4, Past(s, 68, s.stack + [w], 2 * call.c.gas.push + call.c.gas.add))
    ensures Decode(w) == Gap(Decode(y), Decode(x))
  {
    SwappedNext(call, s, k, x, y, [SUB], call.c.gas.add);
    w := LessenedAfter(call, s, k, 3, 67, s.stack, y, x, 2 * call.c.gas.push);
  }

  /** The two parts of a division with remainder. */
  ghost predicate Divides(op: byte, a: nat, b: nat, v: nat)
  {
    && (op == DIV ==> v * b <= a < v * b + b)
    && (op == MOD ==> v < b && exists q: nat :: Times(q, b) + v == a)
  }

  function Times(q: nat, b: nat): nat
  {
    q * b
  }

  lemma PartOf(call: Call, t: State, k: nat, below: seq<Word>, x: Word, y: Word, op: byte) returns (w: Word)
    requires (op == DIV || op == MOD) && Ready(call, t, [op], call.c.gas.add) && t.stack == below + [x, y]
    requires Decode(x) < U64_SIZE && 0 < Decode(y) < U64_SIZE
    ensures Goes(call, t, k, 1, Past(t, 1, below + [w], call.c.gas.add)) && Divides(op, Decode(x), Decode(y), Decode(w))
  {
    SmallLow(x);
    SmallLow(y);
    var q, r := WholeQuotient(Decode(x), Decode(y)), Remainder(Decode(x), Decode(y));
    QuotientRemainder(Decode(x), Decode(y));
    if op == DIV {
      Divided(call, t, k, below, x, y);
      w := WordOf(q);
      SmallWordValue(q);
    } else {
      Reduced(call, t, k, below, x, y);
      w := WordOf(r);
      SmallWordValue(r);
      assert Times(q, Decode(y)) + Decode(w) == Decode(x);
    }
  }

  /** DIV and MOD of 64-bit numbers leave quotient and remainder. */
  lemma Division(call: Call, s: State, k: nat, x: Word, y: Word, op: byte) returns (w: Word)
    requires op == DIV || op == MOD
    requires Ready(call, s, Operated(x, y, op), 2 * call.c.gas.push + call.c.gas.add)
    requires Decode(x) < U64_SIZE && 0 < Decode(y) < U64_SIZE
    ensures Goes(call, s, k, 3, Past(s, 67, s.stack + [w], 2 * call.c.gas.push + call.c.gas.add))
    ensures Divides(op, Decode(x), Decode(y), Decode(w))
  {
    OperatorNext(call, s, k, x, y, op, call.c.gas.add);
    w := PartOf(call, Past(s, 66, s.stack + [x, y], 2 * call.c.gas.push), k + 2, s.stack, x, y, op);
    Joined(call, s, k, 2, 66, s.stack + [x, y], 2 * call.c.gas.push, 1, 1, s.stack + [w], call.c.gas.add);
  }

  lemma SmallLow(w: Word)
    requires Decode(w) < U64_SIZE
    ensures Low(w) == Decode(w)
  {
  }

  lemma SmallWordValue(v: nat)
    requires v < U64_SIZE
    ensures Decode(WordOf(v)) == v
  {
    SmallerThanModulus();
    DecodeWordOf(v);
  }

  lemma {:induction false} PowGrows(m: nat, n: nat)
    requires m < n
    ensures Pow256(m) < Pow256(n)
    decreases n
  {
    if m < n - 1 {
      PowGrows(m, n - 1);
    }
  }

  lemma SmallerThanModulus()
    ensures U64_SIZE < Modulus()
  {
    PowValues();
    PowGrows(U64_BYTES, WORD_BYTES);
  }

  lemma QuotientRemainder(a: nat, b: nat)
    requires 0 < b
    ensures Remainder(a, b) < b && a == WholeQuotient(a, b) * b + Remainder(a, b)
    ensures WholeQuotient(a, b) <= a && Remainder(a, b) <= a
  {
    assert a == b * (a / b) + a % b;
    ProductAtLeast(b, a / b);
  }

  // ---------- comparisons ----------

  lemma Compared(call: Call, s: State, k: nat, below: seq<Word>, x: Word, y: Word, op: byte)
    returns (w: Word)
    requires op == LT || op == GT || op == EQ
    requires Ready(call, s, [op], 0) && s.stack == below + [x, y]
    ensures Goes(call, s, k, 1, Past(s, 1, below + [w], 0))
    ensures var holds := if op == LT then Decode(x) < Decode(y) else if op == GT then Decode(x) > Decode(y) else x == y;
            Decode(w) == if holds then 1 else 0
  {
    SmallWordValue(0);
    SmallWordValue(1);
    if op == LT {
      LessCompared(call, s, k, below, x, y);
      w := Bit(Decode(x) < Decode(y));
    } else if op == GT {
      GreaterCompared(call, s, k, below, x, y);
      w := Bit(Decode(x) > Decode(y));
    } else {
      EqualCompared(call, s, k, below, x, y);
      w := Bit(x == y);
    }
  }

  lemma ComparedAfter(call: Call, s: State, k: nat, below: seq<Word>, x: Word, y: Word, op: byte, paid: nat)
    returns (w: Word)
    requires op == LT || op == GT || op == EQ
    requires s.gasUsed + paid < U64_SIZE && Goes(call, s, k, 2, Past(s, 66, below + [x, y], paid))
    requires Ready(call, Past(s, 66, below + [x, y], paid), [op], 0)
    ensures Goes(call, s, k, 3, Past(s, 67, below + [w], paid))
    ensures var holds := if op == LT then Decode(x) < Decode(y) else if op == GT then Decode(x) > Decode(y) else x == y;
            Decode(w) == if holds then 1 else 0
  {
    w := Compared(call, Past(s, 66, below + [x, y], paid), k + 2, below, x, y, op);
    Joined(call, s, k, 2, 66, below + [x, y], paid, 1, 1, below + [w], 0);
  }

  /** LT, GT and EQ answer how the first number compares with the second. */
  lemma Comparison(call: Call, s: State, k: nat, x: Word, y: Word, op: byte) returns (w: Word)
    requires op == LT || op == GT || op == EQ
    requires Ready(call, s, Operated(x, y, op), 2 * call.c.gas.push)
    ensures Goes(call, s, k, 3, Past(s, 67, s.stack + [w], 2 * call.c.gas.push))
    ensures var holds := if op == LT then Decode(x) < Decode(y) else if op == GT then Decode(x) > Decode(y) else x == y;
            Decode(w) == if holds then 1 else 0
  {
    OperatorNext(call, s, k, x, y, op, 0);
    w := ComparedAfter(call, s, k, s.stack, x, y, op, 2 * call.c.gas.push);
  }

  lemma JumpsOn(call: Call, u: State, k: nat, below: seq<Word>, w: Word, a: byte)
    requires Ready(call, u, [PUSH1, a] + [JMPI], call.c.gas.push) && a < |call.code| && u.stack == below + [w]
    ensures var on := if Decode(w) != 0 then a as nat else u.pc + 3;
            Goes(call, u, k, 2, u.(pc := on, stack := below, gasUsed := u.gasUsed + call.c.gas.push))
  {
    ReadyFront(call, u, [PUSH1, a], [JMPI], call.c.gas.push, call.c.gas.push);
    BytePushed(call, u, k, a);
    ReadyRest(call, u, [PUSH1, a], [JMPI], u.stack + [WordOf(a)], call.c.gas.push, call.c.gas.push);
    var t := Past(u, 2, u.stack + [WordOf(a)], call.c.gas.push);
    SmallWordValue(a);
    assert t.stack == below + [w, WordOf(a)];
    JumpedIf(call, t, k + 1, below, w, WordOf(a));
    var on := if Decode(w) != 0 then a as nat else u.pc + 3;
    GoesOn(call, u, k, 1, t, 1, t.(pc := on, stack := below));
  }

  lemma BranchesFrom(call: Call, s: State, k: nat, below: seq<Word>, w: Word, a: byte, paid: nat)
    requires s.gasUsed + paid < U64_SIZE && Goes(call, s, k, 3, Past(s, 67, below + [w], paid))
    requires Ready(call, Past(s, 67, below + [w], paid), [PUSH1, a] + [JMPI], call.c.gas.push) && a < |call.code|
    ensures var on := if Decode(w) != 0 then a as nat else s.pc + 70;
            Goes(call, s, k, 5, s.(pc := on, stack := below, gasUsed := s.gasUsed + paid + call.c.gas.push))
  {
    var t, on := Past(s, 67, below + [w], paid), if Decode(w) != 0 then a as nat else s.pc + 70;
    JumpsOn(call, t, k + 3, below, w, a);
    GoesOn(call, s, k, 3, t, 2, s.(pc := on, stack := below, gasUsed := s.gasUsed + paid + call.c.gas.push));
  }

  lemma ComparedNext(call: Call, s: State, k: nat, x: Word, y: Word, rest: Text) returns (w: Word)
    requires Ready(call, s, Operated(x, y, LT) + rest, 3 * call.c.gas.push)
    ensures var t := Past(s, 67, s.stack + [w], 2 * call.c.gas.push);
            Goes(call, s, k, 3, t) && Ready(call, t, rest, call.c.gas.push)
    ensures Decode(w) != 0 <==> Decode(x) < Decode(y)
  {
    ReadyFront(call, s, Operated(x, y, LT), rest, 3 * call.c.gas.push, 2 * call.c.gas.push);
    w := Comparison(call, s, k, x, y, LT);
    ReadyRest(call, s, Operated(x, y, LT), rest, s.stack + [w], 3 * call.c.gas.push, 2 * call.c.gas.push);
  }

  /** A comparison and a conditional jump branch: to the address where the first is smaller, and else on. */
  lemma Branch(call: Call, s: State, k: nat, x: Word, y: Word, a: byte)
    requires Ready(call, s, Operated(x, y, LT) + ([PUSH1, a] + [JMPI]), 3 * call.c.gas.push) && a < |call.code|
    ensures var on := if Decode(x) < Decode(y) then a as nat else s.pc + 70;
            Goes(call, s, k, 5, s.(pc := on, gasUsed := s.gasUsed + 3 * call.c.gas.push))
  {
    var w := ComparedNext(call, s, k, x, y, [PUSH1, a] + [JMPI]);
    BranchesFrom(call, s, k, s.stack, w, a, 2 * call.c.gas.push);
  }

  // ---------- memory and storage ----------

  /** What MSTORE writes at an address MLOAD reads there, and every other byte stays. */
  lemma MemoryRestored(call: Call, s: State, k: nat, v: Word, a: Word) returns (m: Text)
    requires Ready(call, s, Operated(v, a, MSTORE) + (PushOf(a) + [MLOAD]), 3 * call.c.gas.push)
    requires Address(a) + 32 <= |s.memory|
    ensures |m| == |s.memory|
    ensures forall i | 0 <= i < |m| && !(Address(a) <= i < Address(a) + 32) :: m[i] == s.memory[i]
    ensures Goes(call, s, k, 5, Past(s, 101, s.stack + [v], 3 * call.c.gas.push).(memory := m))
  {
    var pushes, all := 2 * call.c.gas.push, 3 * call.c.gas.push;
    ReadyFront(call, s, Operated(v, a, MSTORE), PushOf(a) + [MLOAD], all, pushes);
    OperatorNext(call, s, k, v, a, MSTORE, 0);
    var t := Past(s, 66, s.stack + [v, a], pushes);
    m := MemoryWritten(call, t, k + 2, s.stack, v, a);
    ReadyRest(call, s, Operated(v, a, MSTORE), PushOf(a) + [MLOAD], s.stack, all, pushes);
    var u := Past(s, 67, s.stack, pushes).(memory := m);
    LoadsBack(call, u, k + 3, v, a);
    GoesOn(call, s, k, 2, t, 1, u);
    GoesOn(call, s, k, 3, u, 2, Past(s, 101, s.stack + [v], all).(memory := m));
  }

  lemma LoadsBack(call: Call, u: State, k: nat, v: Word, a: Word)
    requires Ready(call, u, PushOf(a) + [MLOAD], call.c.gas.push)
    requires Address(a) + 32 <= |u.memory| && u.memory[Address(a)..Address(a) + 32] == v
    ensures Goes(call, u, k, 2, Past(u, 34, u.stack + [v], call.c.gas.push))
  {
    PushedNext(call, u, k, a, [MLOAD], 0);
    var x := Past(u, 33, u.stack + [a], call.c.gas.push);
    MemoryRead(call, x, k + 1, u.stack, a);
    GoesOn(call, u, k, 1, x, 1, Past(u, 34, u.stack + [v], call.c.gas.push));
  }

  /** What SSTORE stores under a key SLOAD reads there, and every other key stays. */
  lemma StorageRestored(call: Call, s: State, k: nat, v: Word, key: Word)
    requires Ready(call, s, Operated(v, key, SSTORE) + (PushOf(key) + [SLOAD]),
                   3 * call.c.gas.push + call.c.gas.sstore + call.c.gas.sload)
    ensures Goes(call, s, k, 5,
                 Past(s, 101, s.stack + [v], 3 * call.c.gas.push + call.c.gas.sstore + call.c.gas.sload)
                 .(storage := s.storage[key := v]))
  {
    var first := 2 * call.c.gas.push + call.c.gas.sstore;
    var all := 3 * call.c.gas.push + call.c.gas.sstore + call.c.gas.sload;
    ReadyFront(call, s, Operated(v, key, SSTORE), PushOf(key) + [SLOAD], all, first);
    OperatorNext(call, s, k, v, key, SSTORE, call.c.gas.sstore);
    var t := Past(s, 66, s.stack + [v, key], 2 * call.c.gas.push);
    StorageWritten(call, t, k + 2, s.stack, v, key);
    ReadyRest(call, s, Operated(v, key, SSTORE), PushOf(key) + [SLOAD], s.stack, all, first);
    var u := Past(s, 67, s.stack, first).(storage := s.storage[key := v]);
    StoredReadsBack(call, u, k + 3, v, key);
    GoesOn(call, s, k, 2, t, 1, u);
    GoesOn(call, s, k, 3, u, 2, Past(s, 101, s.stack + [v], all).(storage := s.storage[key := v]));
  }

  lemma StoredReadsBack(call: Call, u: State, k: nat, v: Word, key: Word)
    requires Ready(call, u, PushOf(key) + [SLOAD], call.c.gas.push + call.c.gas.sload)
    requires key in u.storage && u.storage[key] == v
    ensures Goes(call, u, k, 2, Past(u, 34, u.stack + [v], call.c.gas.push + call.c.gas.sload))
  {
    PushedNext(call, u, k, key, [SLOAD], call.c.gas.sload);
    var x := Past(u, 33, u.stack + [key], call.c.gas.push);
    StorageRead(call, x, k + 1, u.stack, key);
    WordOfDecode(v);
    GoesOn(call, u, k, 1, x, 1, Past(u, 34, u.stack + [v], call.c.gas.push + call.c.gas.sload));
  }
}
