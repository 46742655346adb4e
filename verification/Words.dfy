/**
 The 256-bit arithmetic of the virtual machine, computed byte by byte as the source does and
 proved against integer arithmetic (src/vm/mermai_vm.cpp).
 */
module Words {
  import opened Bytes

  /** A `std::array<uint8_t, 32>`, most significant byte first. */
  type Word = w: Text | |w| == 32 witness Zeros(32)

  const ZERO_WORD: Word := Zeros(32)

  function Modulus(): nat
  {
    Pow256(WORD_BYTES)
  }

  /** The word that denotes `v` modulo 2^256. */
  function WordOf(v: nat): Word
  {
    Encode(WORD_BYTES, v)
  }

  /** The number held by the low eight bytes. */
  function Low64(w: Word): (v: u64)
  {
    PowValues();
    Decode(w[24..])
  }

  /** A word whose low eight bytes hold `v` and whose other bytes are zero. */
  function FromU64(v: u64): Word
  {
    Zeros(24) + Encode(U64_BYTES, v)
  }

  lemma WordOfDecode(w: Word)
    ensures WordOf(Decode(w)) == w
  {
    EncodeDecode(w);
  }

  lemma DecodeWordOf(v: nat)
    requires v < Modulus()
    ensures Decode(WordOf(v)) == v
  {
    DecodeEncodeExact(WORD_BYTES, v);
  }

  lemma DecodeFromU64(v: u64)
    ensures Decode(FromU64(v)) == v
  {
    PowValues();
    DecodePadded(24, Encode(U64_BYTES, v));
    DecodeEncodeExact(U64_BYTES, v);
  }

  lemma Low64IsRemainder(w: Word)
    ensures Low64(w) == Decode(w) % U64_SIZE
  {
    assert w == w[..24] + w[24..];
    DecodeConcat(w[..24], w[24..]);
    PowValues();
    RemainderOf(Decode(w), U64_SIZE, Decode(w[..24]), Decode(w[24..]));
  }

  lemma DecodeFront(x: byte, s: Text)
    ensures Decode([x] + s) == x * Pow256(|s|) + Decode(s)
  {
    DecodeConcat([x], s);
    assert [x][..0] == [];
    assert Decode([x]) == x;
  }

  // ---------- addition and subtraction ----------

  /** The word of the sum. */
  function Plus(a: Word, b: Word): Word
  {
    WordOf((Decode(a) + Decode(b)) % Modulus())
  }

  /** The word of the difference. */
  function Minus(a: Word, b: Word): Word
  {
    WordOf((Decode(a) - Decode(b)) % Modulus())
  }

  lemma DecodePlus(a: Word, b: Word)
    ensures Decode(Plus(a, b)) == (Decode(a) + Decode(b)) % Modulus()
  {
    DecodeWordOf((Decode(a) + Decode(b)) % Modulus());
  }

  lemma DecodeMinus(a: Word, b: Word)
    ensures Decode(Minus(a, b)) == (Decode(a) - Decode(b)) % Modulus()
  {
    DecodeWordOf((Decode(a) - Decode(b)) % Modulus());
  }

  lemma CarryStep(x: int, y: int, d: int, p: int, c: int, c': int, r: int, m: int, n: int)
    requires d + 256 * c' == x + y + c
    requires r + c * p == m + n
    ensures (d * p + r) + c' * (256 * p) == (x * p + m) + (y * p + n)
  {
    assert d * p + c' * (256 * p) == (d + 256 * c') * p;
    assert (x + y + c) * p == x * p + y * p + c * p;
  }

  lemma BorrowStep(x: int, y: int, d: int, p: int, c: int, c': int, r: int, m: int, n: int)
    requires d - 256 * c' == x - y - c
    requires r + n == m + c * p
    ensures (d * p + r) + (y * p + n) == (x * p + m) + c' * (256 * p)
  {
    assert d * p - c' * (256 * p) == (d - 256 * c') * p;
    assert (x - y - c) * p == x * p - y * p - c * p;
  }

  /** One column of the carry loop: the invariant of `Add`, with `tail` the bytes already written. */
  ghost predicate Summed(a: Word, b: Word, i: nat, tail: Text, carry: int)
    requires i <= 32
  {
    && |tail| == 32 - i
    && Decode(tail) + carry * Pow256(32 - i) == Decode(a[i..]) + Decode(b[i..])
  }

  lemma SummedStep(a: Word, b: Word, i: nat, tail: Text, carry: int, digit: byte, carry': int)
    requires i < 32 && Summed(a, b, i + 1, tail, carry)
    requires digit + 256 * carry' == a[i] + b[i] + carry
    ensures Summed(a, b, i, [digit] + tail, carry')
  {
    assert a[i..] == [a[i]] + a[i + 1..] && b[i..] == [b[i]] + b[i + 1..];
    DecodeFront(digit, tail);
    DecodeFront(a[i], a[i + 1..]);
    DecodeFront(b[i], b[i + 1..]);
    CarryStep(a[i], b[i], digit, Pow256(31 - i), carry, carry',
              Decode(tail), Decode(a[i + 1..]), Decode(b[i + 1..]));
  }

  lemma SummedWhole(a: Word, b: Word, r: Word, carry: int)
    requires Summed(a, b, 0, r, carry)
    ensures r == Plus(a, b)
  {
    assert a[0..] == a && b[0..] == b;
    RemainderOf(Decode(a) + Decode(b), Modulus(), carry, Decode(r));
    WordOfDecode(r);
  }

  method Add(a: Word, b: Word) returns (r: Word)
    ensures r == Plus(a, b)
  {
    var result := new byte[32](_ => 0);
    var carry: int := 0;
    for i := 32 downto 0
      invariant 0 <= carry <= 1
      invariant Summed(a, b, i, result[i..], carry)
    {
      var sum: int := a[i] + b[i] + carry;
      ghost var tail := result[i + 1..];
      SummedStep(a, b, i, tail, carry, sum % 256, sum / 256);
      result[i] := sum % 256;
      carry := sum / 256;
      assert result[i..] == [result[i]] + tail;
    }
    r := result[..];
    assert result[0..] == r;
    SummedWhole(a, b, r, carry);
  }

  /** The same for the borrow loop of `Sub`. */
  ghost predicate Subtracted(a: Word, b: Word, i: nat, tail: Text, borrow: int)
    requires i <= 32
  {
    && |tail| == 32 - i
    && Decode(tail) + Decode(b[i..]) == Decode(a[i..]) + borrow * Pow256(32 - i)
  }

  lemma SubtractedStep(a: Word, b: Word, i: nat, tail: Text, borrow: int, digit: byte, borrow': int)
    requires i < 32 && Subtracted(a, b, i + 1, tail, borrow)
    requires digit - 256 * borrow' == a[i] - b[i] - borrow
    ensures Subtracted(a, b, i, [digit] + tail, borrow')
  {
    assert a[i..] == [a[i]] + a[i + 1..] && b[i..] == [b[i]] + b[i + 1..];
    DecodeFront(digit, tail);
    DecodeFront(a[i], a[i + 1..]);
    DecodeFront(b[i], b[i + 1..]);
    BorrowStep(a[i], b[i], digit, Pow256(31 - i), borrow, borrow',
               Decode(tail), Decode(a[i + 1..]), Decode(b[i + 1..]));
  }

  lemma SubtractedWhole(a: Word, b: Word, r: Word, borrow: int)
    requires Subtracted(a, b, 0, r, borrow)
    ensures r == Minus(a, b)
  {
    assert a[0..] == a && b[0..] == b;
    DifferenceRemainder(Decode(a), Decode(b), Decode(r), borrow, Modulus());
    WordOfDecode(r);
  }

  method Sub(a: Word, b: Word) returns (r: Word)
    ensures r == Minus(a, b)
  {
    var result := new byte[32](_ => 0);
    var borrow: int := 0;
    for i := 32 downto 0
      invariant 0 <= borrow <= 1
      invariant Subtracted(a, b, i, result[i..], borrow)
    {
      var diff: int := a[i] - b[i] - borrow;
      ghost var tail: Text, before: int := result[i + 1..], borrow;
      borrow := if diff < 0 then 1 else 0;
      var digit: byte := if diff < 0 then diff + 256 else diff;
      SubtractedStep(a, b, i, tail, before, digit, borrow);
      result[i] := digit;
      assert result[i..] == [result[i]] + tail;
    }
    r := result[..];
    assert result[0..] == r;
    SubtractedWhole(a, b, r, borrow);
  }

  lemma RemaindersCancel(a: nat, b: nat, m: nat, s: nat, d: nat)
    requires a < m && s == (a + b) % m && d == (a - b) % m
    ensures (s - b) % m == a && (d + b) % m == a
  {
    assert a + b == m * ((a + b) / m) + s;
    DivModUnique(s - b, m, -((a + b) / m), a);
    assert a - b == m * ((a - b) / m) + d;
    DivModUnique(d + b, m, -((a - b) / m), a);
  }

  /** Subtracting and adding one word undo each other, whatever wrapped. */
  lemma SubUndoesAdd(a: Word, b: Word)
    ensures Minus(Plus(a, b), b) == a
    ensures Plus(Minus(a, b), b) == a
  {
    DecodePlus(a, b);
    DecodeMinus(a, b);
    RemaindersCancel(Decode(a), Decode(b), Modulus(), Decode(Plus(a, b)), Decode(Minus(a, b)));
    WordOfDecode(a);
  }

  // ---------- 64-bit operations ----------

  lemma LowFits(s: Text)
    requires |s| <= 8
    ensures Decode(s) < U64_SIZE
  {
    PowValues();
    PowAdd(|s|, U64_BYTES - |s|);
    ProductAtLeast(Pow256(U64_BYTES - |s|), Pow256(|s|));
  }

  /** The eight low bytes as a machine integer: `value = (value << 8) | w[24 + i]`, each new byte below the others. */
  method LoadU64(w: Word) returns (value: u64)
    ensures value == Decode(w) % U64_SIZE
  {
    PowValues();
    value := 0;
    assert w[24..24] == [];
    for i := 0 to 8
      invariant value == Decode(w[24..24 + i])
    {
      var low := w[24..25 + i];
      assert low[..i] == w[24..24 + i];
      assert Decode(low) == value * 256 + w[24 + i];
      LowFits(low);
      value := value * 256 + w[24 + i];
    }
    assert w[24..32] == w[24..];
    Low64IsRemainder(w);
  }

  /** Writes `v` into the eight low bytes: `word[31 - i] = v >> (i * 8)`. */
  method StoreU64(v: u64) returns (r: Word)
    ensures r == FromU64(v)
  {
    var word := new byte[32](_ => 0);
    for i := 0 to 8
      invariant forall k | 0 <= k < 32 - i :: word[k] == 0
      invariant forall k | 32 - i <= k < 32 :: word[k] == Encode(U64_BYTES, v)[k - 24]
    {
      word[31 - i] := (v / Pow256(i)) % 256;
      EncodeIndex(U64_BYTES, v, 7 - i);
    }
    r := word[..];
    assert r == FromU64(v);
  }

  lemma ProductModulo(x: int, y: int, l: int, k: int, m: int)
    requires m > 0
    ensures ((x * m + l) * (y * m + k)) % m == (l * k) % m
  {
    var q := (l * k) / m;
    var h := x * (y * m + k) + l * y;
    assert (x * m + l) * (y * m + k) == m * h + l * k by {
      Expand(x, y, l, k, m);
    }
    assert m * h + l * k == m * (h + q) + (l * k) % m by {
      assert m * (h + q) == m * h + m * q;
    }
    DivModUnique((x * m + l) * (y * m + k), m, h + q, (l * k) % m);
  }

  lemma Expand(x: int, y: int, l: int, k: int, m: int)
    ensures (x * m + l) * (y * m + k) == m * (x * (y * m + k) + l * y) + l * k
  {
    var s := y * m + k;
    assert (x * m + l) * s == x * m * s + l * s;
    assert l * s == l * (y * m) + l * k;
    assert m * (x * s + l * y) == m * (x * s) + m * (l * y);
    assert x * m * s == m * (x * s);
    assert l * (y * m) == m * (l * y);
  }

  method Mul(a: Word, b: Word) returns (r: Word)
    ensures Decode(r) == (Decode(a) * Decode(b)) % U64_SIZE
  {
    var x := LoadU64(a);
    var y := LoadU64(b);
    var product: u64 := (x * y) % U64_SIZE;
    r := StoreU64(product);
    DecodeFromU64(product);
    ProductModulo(Decode(a) / U64_SIZE, Decode(b) / U64_SIZE, x, y, U64_SIZE);
  }

  /**
   DIV and MOD on the low 64 bits. A zero divisor gives zero; a divisor that is nonzero while its
   low 64 bits are zero makes the source divide by zero, reported here as `defined == false`.
   */
  method DivMod(dividend: Word, divisor: Word, wantQuotient: bool) returns (defined: bool, r: Word)
    ensures defined == (Decode(divisor) == 0 || Decode(divisor) % U64_SIZE != 0)
    ensures defined && Decode(divisor) == 0 ==> Decode(r) == 0
    ensures defined && Decode(divisor) != 0 ==>
              var x, y := Decode(dividend) % U64_SIZE, Decode(divisor) % U64_SIZE;
              Decode(r) == if wantQuotient then x / y else x % y
  {
    var zero := true;
    assert divisor[..0] == [];
    for i := 0 to 32
      invariant zero == (Decode(divisor[..i]) == 0)
    {
      assert divisor[..i + 1][..i] == divisor[..i];
      zero := zero && divisor[i] == 0;
    }
    assert divisor[..32] == divisor;
    defined, r := true, ZERO_WORD;
    DecodeZeros(32);
    if !zero {
      var left := LoadU64(dividend);
      var right := LoadU64(divisor);
      if right == 0 {
        defined := false;
      } else {
        var value: u64 := if wantQuotient then Quotient(left, right) else left % right;
        r := StoreU64(value);
        DecodeFromU64(value);
      }
    }
  }

  function Quotient(x: u64, y: u64): (q: u64)
    requires y != 0
    ensures q == x / y
  {
    QuotientBound(x, y);
    x / y
  }

  // ---------- comparison ----------

  /** `std::lexicographical_compare` on byte arrays. */
  predicate LexLess(a: Text, b: Text)
  {
    if b == [] then false
    else if a == [] then true
    else a[0] < b[0] || (a[0] == b[0] && LexLess(a[1..], b[1..]))
  }

  lemma LeadingByteDecides(x: int, y: int, p: int, m: int, n: int)
    requires 0 <= m < p && 0 <= n < p
    ensures x < y ==> x * p + m < y * p + n
  {
    if x < y {
      assert (x + 1) * p <= y * p;
    }
  }

  /** On words of one length the lexicographic order is the numeric order. */
  lemma {:induction false} LexLessIsNumeric(a: Text, b: Text)
    requires |a| == |b|
    ensures LexLess(a, b) <==> Decode(a) < Decode(b)
  {
    if a != [] {
      assert a == [a[0]] + a[1..] && b == [b[0]] + b[1..];
      DecodeFront(a[0], a[1..]);
      DecodeFront(b[0], b[1..]);
      LexLessIsNumeric(a[1..], b[1..]);
      LeadingByteDecides(a[0], b[0], Pow256(|a| - 1), Decode(a[1..]), Decode(b[1..]));
      LeadingByteDecides(b[0], a[0], Pow256(|a| - 1), Decode(b[1..]), Decode(a[1..]));
    }
  }
}
