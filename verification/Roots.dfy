/**
 The two Merkle roots spelled out in hashes: what stands at the top of small trees, and how the root of a larger one
 comes from those of its halves.
 */
module Roots {
  import opened Bytes
  import opened Types
  import opened MerkleShape
  import opened Padding
  import Merkle
  import Codec
  import BlockRoot

  // ---------- any combiner ----------

  lemma SmallRoots(f: Combiner, a: Text, b: Text, c: Text)
    ensures Root(f, [a]) == a
    ensures Root(f, [a, b]) == f(a, b)
    ensures Root(f, [a, b, c]) == f(f(a, b), f(c, c))
  {
    var two, three := [a, b], [a, b, c];
    assert Right(two, 0) == b && Right(three, 0) == b && Right(three, 1) == c;
    assert Next(f, two) == [f(a, b)];
    assert Next(f, three) == [f(a, b), f(c, c)];
    var top := [f(f(a, b), f(c, c))];
    assert Right(Next(f, three), 0) == f(c, c);
    assert Next(f, Next(f, three)) == top;
    assert Root(f, three) == Root(f, Next(f, three)) == Root(f, top) == top[0];
  }

  lemma NextOfLeft(f: Combiner, xs: seq<Text>, ys: seq<Text>, n: nat)
    requires |xs| == 2 * n
    ensures Next(f, xs + ys)[..n] == Next(f, xs)
  {
    var all := xs + ys;
    forall i | 0 <= i < n ensures Next(f, all)[i] == Next(f, xs)[i] {
      assert all[2 * i] == xs[2 * i] && all[2 * i + 1] == xs[2 * i + 1];
    }
  }

  lemma NextOfRight(f: Combiner, xs: seq<Text>, ys: seq<Text>, n: nat)
    requires |xs| == 2 * n
    ensures Next(f, xs + ys)[n..] == Next(f, ys)
  {
    var all, m := xs + ys, |Next(f, ys)|;
    assert |Next(f, all)| == n + m;
    forall i | 0 <= i < m ensures Next(f, all)[n + i] == Next(f, ys)[i] {
      assert all[2 * (n + i)] == ys[2 * i] && Right(all, n + i) == Right(ys, i);
    }
  }

  lemma NextOfEven(f: Combiner, xs: seq<Text>, ys: seq<Text>)
    requires |xs| % 2 == 0
    ensures Next(f, xs + ys) == Next(f, xs) + Next(f, ys)
  {
    var n := |xs| / 2;
    NextOfLeft(f, xs, ys, n);
    NextOfRight(f, xs, ys, n);
    assert Next(f, xs + ys) == Next(f, xs + ys)[..n] + Next(f, xs + ys)[n..];
  }

  lemma NextOfPower(f: Combiner, xs: seq<Text>, d: nat)
    requires d > 0 && |xs| == Power(d)
    ensures |xs| > 1 && |xs| % 2 == 0 && |Next(f, xs)| == Power(d - 1)
  {
  }

  /** A node paired with itself, `d` times over. */
  function Doubled(f: Combiner, h: Text, d: nat): Text
    decreases d
  {
    if d == 0 then h else Doubled(f, f(h, h), d - 1)
  }

  /**
   The root of more than 2^d and up to 2^(d+1) leaves: the first 2^d make up the left side. The root of the others is
   the right one after it has been paired with itself once for each level that they lack.
   */
  lemma {:induction false} RootOfSides(f: Combiner, xs: seq<Text>, ys: seq<Text>, d: nat)
    requires |xs| == Power(d) && 0 < |ys| <= Power(d)
    ensures Depth(|ys|) <= d
    ensures Root(f, xs + ys) == f(Root(f, xs), Doubled(f, Root(f, ys), d - Depth(|ys|)))
    decreases d
  {
    if d == 0 {
      SmallRoots(f, xs[0], ys[0], ys[0]);
      assert xs == [xs[0]] && ys == [ys[0]] && xs + ys == [xs[0], ys[0]];
    } else {
      NextOfPower(f, xs, d);
      NextOfEven(f, xs, ys);
      RootOfSides(f, Next(f, xs), Next(f, ys), d - 1);
      if |ys| == 1 {
        assert Next(f, ys) == [f(ys[0], ys[0])];
      }
    }
  }

  // ---------- the tree behind inclusion proofs ----------

  /** Proofs are checked against the hash of the joined bytes of two digests, left before right. */
  lemma ProofRoots(sha: Text -> Digest, x: Digest, y: Digest, z: Digest)
    ensures Root(Merkle.Pairing(sha), [Hex(x)]) == Hex(x)
    ensures Root(Merkle.Pairing(sha), [Hex(x), Hex(y)]) == Hex(sha(x + y))
    ensures Root(Merkle.Pairing(sha), [Hex(x), Hex(y), Hex(z)]) == Hex(sha(sha(x + y) + sha(z + z)))
  {
    var f := Merkle.Pairing(sha);
    SmallRoots(f, Hex(x), Hex(y), Hex(z));
    DigestsPaired(sha, x, y);
    DigestsPaired(sha, z, z);
    DigestsPaired(sha, sha(x + y), sha(z + z));
  }

  lemma DigestsPaired(sha: Text -> Digest, x: Digest, y: Digest)
    ensures Merkle.Pairing(sha)(Hex(x), Hex(y)) == Hex(sha(x + y))
  {
    Merkle.HexBytesHex(x);
    Merkle.HexBytesHex(y);
  }

  // ---------- the root that a block carries ----------

  function Digested(sha: Text -> Digest, tx: Transaction): Text
  {
    Hex(sha(Codec.EncTx(tx)))
  }

  /** Blocks carry the hash of the joined texts of two digests; 64 zeros stand for no transaction. */
  lemma BlockRoots(sha: Text -> Digest, a: Transaction, b: Transaction, c: Transaction)
    ensures BlockRoot.TreeHash(sha, []) == seq(64, _ => '0' as int)
    ensures BlockRoot.TreeHash(sha, [a]) == Digested(sha, a)
    ensures BlockRoot.TreeHash(sha, [a, b]) == Hex(sha(Digested(sha, a) + Digested(sha, b)))
    ensures BlockRoot.TreeHash(sha, [a, b, c])
         == Hex(sha(Hex(sha(Digested(sha, a) + Digested(sha, b))) + Hex(sha(Digested(sha, c) + Digested(sha, c)))))
  {
    var f, x, y, z := BlockRoot.Joining(sha), Digested(sha, a), Digested(sha, b), Digested(sha, c);
    SmallRoots(f, x, y, z);
    assert BlockRoot.Leaves(sha, [a]) == [x];
    assert BlockRoot.Leaves(sha, [a, b]) == [x, y];
    assert BlockRoot.Leaves(sha, [a, b, c]) == [x, y, z];
  }
}
