/**
 The transaction root of a block: `calculate_tree_hash` of src/db/mermai_db.cpp, which combines the
 hexadecimal texts of two nodes rather than their bytes.
 */
module BlockRoot {
  import opened Bytes
  import opened Types
  import opened Codec
  import opened MerkleShape
  import Merkle

  function TxHash(sha: Text -> Digest, tx: Transaction): Text
  {
    Hex(sha(EncTx(tx)))
  }

  function HashCombine(sha: Text -> Digest, l: Text, r: Text): Text
  {
    Hex(sha(l + r))
  }

  function Joining(sha: Text -> Digest): Combiner
  {
    (l: Text, r: Text) => HashCombine(sha, l, r)
  }

  function Leaves(sha: Text -> Digest, txs: seq<Transaction>): (leaves: seq<Text>)
    ensures |leaves| == |txs|
  {
    seq(|txs|, i requires 0 <= i < |txs| => TxHash(sha, txs[i]))
  }

  const ZERO_HASH: Text := Merkle.Repeated(48, 64)

  function TreeHash(sha: Text -> Digest, txs: seq<Transaction>): Text
  {
    if txs == [] then ZERO_HASH else Root(Joining(sha), Leaves(sha, txs))
  }

  method CalculateTreeHash(sha: Text -> Digest, txs: seq<Transaction>) returns (root: Text)
    ensures root == TreeHash(sha, txs)
  {
    if txs == [] {
      return ZERO_HASH;
    }
    var level: seq<Text> := [];
    for k := 0 to |txs|
      invariant level == Leaves(sha, txs[..k])
    {
      level := level + [TxHash(sha, txs[k])];
    }
    assert txs[..|txs|] == txs;
    while |level| > 1
      invariant level != [] && Root(Joining(sha), level) == Root(Joining(sha), Leaves(sha, txs))
      decreases |level|
    {
      level := Merkle.BuildNext(Joining(sha), level);
    }
    root := level[0];
  }

  // ---------- the root commits to the transactions ----------

  ghost predicate DistinctIds(txs: seq<Transaction>)
  {
    forall i, j | 0 <= i < j < |txs| :: txs[i].id != txs[j].id
  }

  ghost predicate Encodable(txs: seq<Transaction>)
  {
    forall i | 0 <= i < |txs| :: FitsTx(WIDEST, txs[i])
  }

  ghost function Concatenations(pairs: set<(Text, Text)>): set<Text>
  {
    set p | p in pairs :: p.0 + p.1
  }

  ghost function Encodings(txs: seq<Transaction>): set<Text>
  {
    set i | 0 <= i < |txs| :: EncTx(txs[i])
  }

  /** Everything hashed to compute the root of a transaction list. */
  ghost function Hashed(sha: Text -> Digest, txs: seq<Transaction>): set<Text>
    requires txs != []
  {
    Encodings(txs) + Concatenations(TreePairs(Joining(sha), Leaves(sha, txs)))
  }

  ghost predicate DigestTexts(level: seq<Text>)
  {
    forall i | 0 <= i < |level| :: |level[i]| == 64 && Merkle.Canonical(level[i])
  }

  ghost predicate DigestPairs(pairs: set<(Text, Text)>)
  {
    forall p | p in pairs :: Merkle.Canonical(p.0) && Merkle.Canonical(p.1)
  }

  lemma LeavesAreDigests(sha: Text -> Digest, txs: seq<Transaction>)
    ensures DigestTexts(Leaves(sha, txs))
  {
    forall i | 0 <= i < |txs| ensures Merkle.Canonical(TxHash(sha, txs[i])) {
      Merkle.CanonicalHex(sha(EncTx(txs[i])));
    }
  }

  lemma {:induction false} TreeOfDigests(sha: Text -> Digest, level: seq<Text>)
    requires level != [] && DigestTexts(level)
    ensures DigestPairs(TreePairs(Joining(sha), level))
    decreases |level|
  {
    if |level| > 1 {
      var next := Next(Joining(sha), level);
      forall i | 0 <= i < |next| ensures Merkle.Canonical(next[i]) {
        Merkle.CanonicalHex(sha(level[2 * i] + Right(level, i)));
      }
      TreeOfDigests(sha, next);
    }
  }

  lemma JoiningInjective(sha: Text -> Digest, pairs: set<(Text, Text)>, inputs: set<Text>)
    requires DigestPairs(pairs) && Concatenations(pairs) <= inputs && !CollisionIn(sha, inputs)
    ensures InjectiveOn(Joining(sha), pairs)
  {
    var f := Joining(sha);
    forall p, q | p in pairs && q in pairs && f(p.0, p.1) == f(q.0, q.1) ensures p == q {
      var x, y := p.0 + p.1, q.0 + q.1;
      HexInjective(sha(x), sha(y));
      assert x in Concatenations(pairs) && y in Concatenations(pairs);
      assert p.0 == x[..64] && p.1 == x[64..] && q.0 == y[..64] && q.1 == y[64..];
    }
  }

  lemma LeavesDistinct(sha: Text -> Digest, txs: seq<Transaction>, inputs: set<Text>)
    requires DistinctIds(txs) && Encodable(txs) && Encodings(txs) <= inputs && !CollisionIn(sha, inputs)
    ensures Distinct(Leaves(sha, txs))
  {
    forall i, j | 0 <= i < j < |txs| ensures TxHash(sha, txs[i]) != TxHash(sha, txs[j]) {
      var x, y := EncTx(txs[i]), EncTx(txs[j]);
      assert x in Encodings(txs) && y in Encodings(txs);
      if TxHash(sha, txs[i]) == TxHash(sha, txs[j]) {
        HexInjective(sha(x), sha(y));
        TxInjective(txs[i], txs[j]);
      }
    }
  }

  lemma LeadingLength(tx: Transaction)
    requires FitsTx(WIDEST, tx)
    ensures |EncTx(tx)| >= 4 + |tx.id| && Decode(EncTx(tx)[..4]) == |tx.id|
  {
    PowValues();
    DecodeEncodeExact(U32_BYTES, |tx.id|);
    assert EncTx(tx)[..4] == Encode(U32_BYTES, |tx.id|);
  }

  lemma LeadingDigits(l: Text, r: Text)
    requires Merkle.Canonical(l)
    ensures Decode((l + r)[..4]) > 128
  {
    assert (l + r)[..4] == [l[0], l[1], l[2], l[3]];
    FourDigits(l[0], l[1], l[2], l[3]);
  }

  /**
   A serialized transaction begins with the length of its id; four hexadecimal digits in that place
   would announce more bytes than two digest texts have.
   */
  lemma NotAConcatenation(tx: Transaction, l: Text, r: Text)
    requires FitsTx(WIDEST, tx) && Merkle.Canonical(l) && Merkle.Canonical(r)
    ensures EncTx(tx) != l + r
  {
    LeadingLength(tx);
    LeadingDigits(l, r);
  }

  lemma FourDigits(a: byte, b: byte, c: byte, d: byte)
    requires IsHexDigit(a)
    ensures Decode([a, b, c, d]) > 128
  {
    assert [a, b, c, d][..3] == [a, b, c] && [a, b, c][..2] == [a, b] && [a, b][..1] == [a] && [a][..0] == [];
    assert Decode([a]) == a;
    assert Decode([a, b]) >= 256;
  }

  lemma SameLeaves(sha: Text -> Digest, xs: seq<Transaction>, ys: seq<Transaction>, inputs: set<Text>)
    requires Encodable(xs) && Encodable(ys) && Leaves(sha, xs) == Leaves(sha, ys)
    requires Encodings(xs) + Encodings(ys) <= inputs && !CollisionIn(sha, inputs)
    ensures xs == ys
  {
    assert |xs| == |ys|;
    forall i | 0 <= i < |xs| ensures xs[i] == ys[i] {
      assert Leaves(sha, xs)[i] == Leaves(sha, ys)[i];
      var x, y := EncTx(xs[i]), EncTx(ys[i]);
      HexInjective(sha(x), sha(y));
      assert x in Encodings(xs) && y in Encodings(ys);
      TxInjective(xs[i], ys[i]);
    }
  }

  /** A transaction hash is no inner node of another tree. */
  lemma LeafIsNoNode(sha: Text -> Digest, tx: Transaction, ys: seq<Transaction>, k: nat, inputs: set<Text>)
    requires ys != [] && FitsTx(WIDEST, tx) && 0 < k <= Depth(|ys|)
    requires EncTx(tx) in inputs && Hashed(sha, ys) <= inputs && !CollisionIn(sha, inputs)
    ensures TxHash(sha, tx) != Up(Joining(sha), Leaves(sha, ys), k)[0]
  {
    var leaves := Leaves(sha, ys);
    var p := UpIsCombined(Joining(sha), leaves, k);
    LeavesAreDigests(sha, ys);
    TreeOfDigests(sha, leaves);
    NotAConcatenation(tx, p.0, p.1);
    assert p.0 + p.1 in Concatenations(TreePairs(Joining(sha), leaves));
    if TxHash(sha, tx) == Joining(sha)(p.0, p.1) {
      HexInjective(sha(EncTx(tx)), sha(p.0 + p.1));
      assert false;
    }
  }

  lemma ConcatenationsUnion(p: set<(Text, Text)>, q: set<(Text, Text)>)
    ensures Concatenations(p + q) == Concatenations(p) + Concatenations(q)
  {
  }

  lemma LeavesAgree(sha: Text -> Digest, xs: seq<Transaction>, ys: seq<Transaction>, inputs: set<Text>)
    requires xs != [] && ys != [] && DistinctIds(xs) && DistinctIds(ys) && Encodable(xs) && Encodable(ys)
    requires Depth(|xs|) <= Depth(|ys|) && TreeHash(sha, xs) == TreeHash(sha, ys)
    requires inputs == Hashed(sha, xs) + Hashed(sha, ys) && !CollisionIn(sha, inputs)
    ensures Leaves(sha, xs) == Up(Joining(sha), Leaves(sha, ys), Depth(|ys|) - Depth(|xs|))
  {
    var f, a, b := Joining(sha), Leaves(sha, xs), Leaves(sha, ys);
    LeavesDistinct(sha, xs, inputs);
    LeavesDistinct(sha, ys, inputs);
    LeavesAreDigests(sha, xs);
    LeavesAreDigests(sha, ys);
    TreeOfDigests(sha, a);
    TreeOfDigests(sha, b);
    var p, q := TreePairs(f, a), TreePairs(f, b);
    ConcatenationsUnion(p, q);
    JoiningInjective(sha, p + q, inputs);
    RootsAgree(f, a, b);
  }

  lemma RootDecides(sha: Text -> Digest, xs: seq<Transaction>, ys: seq<Transaction>, inputs: set<Text>)
    requires xs != [] && ys != [] && DistinctIds(xs) && DistinctIds(ys) && Encodable(xs) && Encodable(ys)
    requires Depth(|xs|) <= Depth(|ys|) && TreeHash(sha, xs) == TreeHash(sha, ys)
    requires inputs == Hashed(sha, xs) + Hashed(sha, ys) && !CollisionIn(sha, inputs)
    ensures xs == ys
  {
    LeavesAgree(sha, xs, ys, inputs);
    var k := Depth(|ys|) - Depth(|xs|);
    if k > 0 {
      assert EncTx(xs[0]) in Encodings(xs);
      assert Leaves(sha, xs)[0] == TxHash(sha, xs[0]);
      LeafIsNoNode(sha, xs[0], ys, k, inputs);
    }
    SameLeaves(sha, xs, ys, inputs);
  }

  /**
   The root of a block commits to its transactions, number and order included: two lists without a
   repeated id and with one root are equal, or two of the byte strings hashed to compute the two
   roots collide under SHA-256. Lists with a repeated id are exactly what `can_add_block` refuses;
   `MerkleShape.RepeatedLastLeaf` shows they do share roots.
   */
  lemma TreeHashCommits(sha: Text -> Digest, xs: seq<Transaction>, ys: seq<Transaction>)
    requires xs != [] && ys != [] && DistinctIds(xs) && DistinctIds(ys) && Encodable(xs) && Encodable(ys)
    requires TreeHash(sha, xs) == TreeHash(sha, ys)
    ensures xs == ys || CollisionIn(sha, Hashed(sha, xs) + Hashed(sha, ys))
  {
    var inputs := Hashed(sha, xs) + Hashed(sha, ys);
    if !CollisionIn(sha, inputs) {
      assert inputs == Hashed(sha, ys) + Hashed(sha, xs);
      if Depth(|xs|) <= Depth(|ys|) {
        RootDecides(sha, xs, ys, inputs);
      } else {
        RootDecides(sha, ys, xs, inputs);
      }
    }
  }

  // ---------- the two roots of the repository ----------

  lemma {:induction false} TopPair(f: Combiner, level: seq<Text>) returns (p: (Text, Text))
    requires |level| > 1
    ensures p in TreePairs(f, level) && Root(f, level) == f(p.0, p.1)
    decreases |level|
  {
    if |level| == 2 {
      p := (level[0], Right(level, 0));
      assert p in LevelPairs(level);
      assert Root(f, Next(f, level)) == Next(f, level)[0];
    } else {
      p := TopPair(f, Next(f, level));
    }
  }

  lemma {:induction false} PairingTree(sha: Text -> Digest, level: seq<Text>)
    requires level != [] && DigestTexts(level)
    ensures Merkle.CanonicalPairs(TreePairs(Merkle.Pairing(sha), level))
    decreases |level|
  {
    if |level| > 1 {
      Merkle.NextCanonical(sha, level);
      PairingTree(sha, Next(Merkle.Pairing(sha), level));
    }
  }

  lemma JoiningTop(sha: Text -> Digest, leaves: seq<Text>) returns (x: Text)
    requires |leaves| > 1 && DigestTexts(leaves)
    ensures x in Concatenations(TreePairs(Joining(sha), leaves)) && |x| == 128
    ensures Root(Joining(sha), leaves) == Hex(sha(x))
  {
    var p := TopPair(Joining(sha), leaves);
    TreeOfDigests(sha, leaves);
    x := p.0 + p.1;
  }

  lemma PairingTop(sha: Text -> Digest, leaves: seq<Text>) returns (y: Text)
    requires |leaves| > 1 && DigestTexts(leaves)
    ensures y in Merkle.PairInputs(TreePairs(Merkle.Pairing(sha), leaves)) && |y| == 64
    ensures Root(Merkle.Pairing(sha), leaves) == Hex(sha(y))
  {
    var q := TopPair(Merkle.Pairing(sha), leaves);
    PairingTree(sha, leaves);
    y := Merkle.PairInput(q.0, q.1);
  }

  /**
   The block root and the root that inclusion proofs are checked against coincide for a single
   transaction only: for two or more, equality would collide a 128-byte with a 64-byte input.
   */
  lemma RootsDiffer(sha: Text -> Digest, leaves: seq<Text>)
    requires leaves != [] && DigestTexts(leaves)
    ensures |leaves| == 1 ==> Root(Joining(sha), leaves) == Root(Merkle.Pairing(sha), leaves)
    ensures |leaves| > 1 && Root(Joining(sha), leaves) == Root(Merkle.Pairing(sha), leaves) ==>
              CollisionIn(sha, Concatenations(TreePairs(Joining(sha), leaves))
                               + Merkle.PairInputs(TreePairs(Merkle.Pairing(sha), leaves)))
  {
    if |leaves| > 1 && Root(Joining(sha), leaves) == Root(Merkle.Pairing(sha), leaves) {
      var x := JoiningTop(sha, leaves);
      var y := PairingTop(sha, leaves);
      HexInjective(sha(x), sha(y));
    }
  }
}
