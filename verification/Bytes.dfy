/**
 Byte strings, fixed-width big-endian integers and hexadecimal text: the vocabulary shared by the
 wire codec, the hash computations and the virtual machine.
 */
module Bytes {
  type byte = b: int | 0 <= b < 256

  /** A `std::string` or `std::vector<uint8_t>`: the source converts freely between the two. */
  type Text = seq<byte>

  const U32_SIZE := 0x1_0000_0000
  const U64_SIZE := 0x1_0000_0000_0000_0000
  const U64_MAX := U64_SIZE - 1

  // Field widths in bytes. Named rather than written out so that the verifier does not unroll
  // `Encode` and `Pow256` on literals.
  const U32_BYTES: nat := 4
  const U64_BYTES: nat := 8
  const WORD_BYTES: nat := 32

  type u32 = n: int | 0 <= n < U32_SIZE
  type u64 = n: int | 0 <= n < U64_SIZE

  /** A SHA-256 digest. */
  type Digest = d: Text | |d| == 32 witness seq(32, _ => 0)

  /** `n` zero bytes. */
  function Zeros(n: nat): (z: Text)
    ensures |z| == n && forall i | 0 <= i < n :: z[i] == 0
  {
    seq(n, _ => 0)
  }

  function Pow256(n: nat): (p: nat)
    ensures p > 0
  {
    if n == 0 then 1 else 256 * Pow256(n - 1)
  }

  /** The low `width` bytes of `v`, most significant first. */
  function Encode(width: nat, v: nat): (s: Text)
    ensures |s| == width
  {
    if width == 0 then [] else Encode(width - 1, v / 256) + [v % 256]
  }

  /** The number a big-endian byte string denotes. */
  function Decode(s: Text): (v: nat)
    ensures v < Pow256(|s|)
  {
    if s == [] then 0 else Decode(s[..|s| - 1]) * 256 + s[|s| - 1]
  }

  lemma PowValues()
    ensures Pow256(1) == 256
    ensures Pow256(U32_BYTES) == U32_SIZE
    ensures Pow256(U64_BYTES) == U64_SIZE
  {
    assert Pow256(2) == 65536;
    assert Pow256(4) == 256 * (256 * Pow256(2));
    assert Pow256(6) == 256 * (256 * Pow256(4));
  }

  lemma PowAdd(m: nat, n: nat)
    ensures Pow256(m + n) == Pow256(m) * Pow256(n)
  {
    if m != 0 {
      PowAdd(m - 1, n);
      assert Pow256(m + n) == 256 * Pow256(m - 1 + n);
      assert 256 * (Pow256(m - 1) * Pow256(n)) == (256 * Pow256(m - 1)) * Pow256(n);
    }
  }

  lemma MultipleGrows(d: int, k: int)
    requires d > 0
    ensures k == 0 || d * k >= d || d * k <= -d
  {
    if k > 0 {
      assert d * k >= d * 1;
    } else if k < 0 {
      assert d * k <= d * -1;
    }
  }

  /** Quotient and remainder are unique. */
  lemma DivModUnique(v: int, d: int, q: int, r: int)
    requires 0 <= r < d
    requires v == d * q + r
    ensures v / d == q && v % d == r
  {
    var k := v / d - q;
    assert d * k == r - v % d by {
      assert v == d * (v / d) + v % d;
      assert d * k == d * (v / d) - d * q;
    }
    MultipleGrows(d, k);
  }

  lemma RemainderOf(v: int, m: int, q: int, r: int)
    requires 0 <= r < m
    requires r + q * m == v
    ensures v % m == r
  {
    DivModUnique(v, m, q, r);
  }

  lemma DifferenceRemainder(a: int, b: int, d: int, c: int, m: int)
    requires 0 <= d < m
    requires d + b == a + c * m
    ensures (a - b) % m == d
  {
    assert m * (-c) == -(c * m);
    DivModUnique(a - b, m, -c, d);
  }

  lemma ProductAtLeast(y: int, q: int)
    requires y >= 1
    ensures q >= 0 ==> y * q >= q
    ensures q < 0 ==> y * q <= -y
  {
    if q >= 0 {
      assert (y - 1) * q >= 0;
    } else {
      MultipleGrows(y, q);
      assert y * (-q) >= 0;
    }
  }

  lemma QuotientBound(x: nat, y: nat)
    requires y > 0
    ensures 0 <= x / y <= x
  {
    ghost var q := x / y;
    ProductAtLeast(y, q);
  }

  lemma Scale(p: int, q: int, m: int)
    ensures 256 * (p * q + m) == (256 * p) * q + 256 * m
  {
  }

  lemma ShiftIn(a: int, p: int, b: int, c: int)
    ensures (a * p + b) * 256 + c == a * (256 * p) + (b * 256 + c)
  {
  }

  lemma SplitLow(v: nat, p: nat)
    requires p > 0
    ensures v / (256 * p) == (v / 256) / p
    ensures v % (256 * p) == 256 * ((v / 256) % p) + v % 256
  {
    var q, m := (v / 256) / p, (v / 256) % p;
    assert v == (256 * p) * q + (256 * m + v % 256) by {
      assert v / 256 == p * q + m;
      Scale(p, q, m);
    }
    DivModUnique(v, 256 * p, q, 256 * m + v % 256);
  }

  /** Reading back a written integer truncates it to the width, as the casts in the source do. */
  lemma {:induction false} DecodeEncode(width: nat, v: nat)
    ensures Decode(Encode(width, v)) == v % Pow256(width)
  {
    if width == 0 {
    } else {
      var s := Encode(width, v);
      assert s[..|s| - 1] == Encode(width - 1, v / 256);
      DecodeEncode(width - 1, v / 256);
      SplitLow(v, Pow256(width - 1));
    }
  }

  lemma DecodeEncodeExact(width: nat, v: nat)
    requires v < Pow256(width)
    ensures Decode(Encode(width, v)) == v
  {
    DecodeEncode(width, v);
    DivModUnique(v, Pow256(width), 0, v);
  }

  /** A byte string is the encoding of the number it denotes. */
  lemma {:induction false} EncodeDecode(s: Text)
    ensures Encode(|s|, Decode(s)) == s
  {
    if s != [] {
      var last := |s| - 1;
      EncodeDecode(s[..last]);
      DivModUnique(Decode(s), 256, Decode(s[..last]), s[last]);
      assert s == s[..last] + [s[last]];
    }
  }

  /** Byte `j` of an encoding is the value shifted right by the bytes that follow it. */
  lemma {:induction false} EncodeIndex(width: nat, v: nat, j: nat)
    requires j < width
    ensures Encode(width, v)[j] == (v / Pow256(width - 1 - j)) % 256
  {
    if j < width - 1 {
      EncodeIndex(width - 1, v / 256, j);
      SplitLow(v, Pow256(width - 2 - j));
    }
  }

  lemma DecodeInjective(s: Text, t: Text)
    requires |s| == |t| && Decode(s) == Decode(t)
    ensures s == t
  {
    EncodeDecode(s);
    EncodeDecode(t);
  }

  lemma {:induction false} DecodeConcat(s: Text, t: Text)
    ensures Decode(s + t) == Decode(s) * Pow256(|t|) + Decode(t)
  {
    if t == [] {
      assert s + t == s;
    } else {
      var last := |t| - 1;
      assert (s + t)[..|s + t| - 1] == s + t[..last];
      DecodeConcat(s, t[..last]);
      ShiftIn(Decode(s), Pow256(last), Decode(t[..last]), t[last]);
    }
  }

  lemma {:induction false} DecodeZeros(n: nat)
    ensures Decode(Zeros(n)) == 0
  {
    if n != 0 {
      assert Zeros(n)[..n - 1] == Zeros(n - 1);
      DecodeZeros(n - 1);
    }
  }

  /** Leading zero bytes do not change a value. */
  lemma DecodePadded(n: nat, s: Text)
    ensures Decode(Zeros(n) + s) == Decode(s)
  {
    DecodeConcat(Zeros(n), s);
    DecodeZeros(n);
    ghost var p := Pow256(|s|);
    assert 0 * p == 0;
  }

  // ---------- text ----------

  /** What `isspace` accepts. */
  predicate IsSpace(c: byte)
  {
    c == 32 || 9 <= c <= 13
  }

  function HexDigit(n: int): byte
    requires 0 <= n < 16
  {
    if n < 10 then 48 + n else 87 + n
  }

  /** Two lower-case digits per byte: `hash_to_hex`, `hash_text`, `sha256_hex` and `hex_encode`. */
  function Hex(s: Text): (h: Text)
    ensures |h| == 2 * |s|
  {
    if s == [] then [] else [HexDigit(s[0] / 16), HexDigit(s[0] % 16)] + Hex(s[1..])
  }

  predicate IsHexDigit(c: byte)
  {
    48 <= c <= 57 || 97 <= c <= 102
  }

  lemma {:induction false} HexInjective(s: Text, t: Text)
    requires Hex(s) == Hex(t)
    ensures s == t
  {
    if s == [] || t == [] {
    } else {
      var h, k := Hex(s), Hex(t);
      assert h[0] == k[0] && h[1] == k[1];
      assert h[2..] == Hex(s[1..]) && k[2..] == Hex(t[1..]);
      HexInjective(s[1..], t[1..]);
      assert s[0] == 16 * (s[0] / 16) + s[0] % 16;
      assert s == [s[0]] + s[1..] && t == [t[0]] + t[1..];
    }
  }

  lemma {:induction false} HexDigitsOnly(s: Text)
    ensures forall i | 0 <= i < |Hex(s)| :: IsHexDigit(Hex(s)[i])
  {
    if s != [] {
      HexDigitsOnly(s[1..]);
      var h := Hex(s);
      assert h[2..] == Hex(s[1..]);
      forall i | 0 <= i < |h| ensures IsHexDigit(h[i]) {
        if i >= 2 {
          assert h[i] == Hex(s[1..])[i - 2];
        }
      }
    }
  }
}
