/** Merkle trees and inclusion proofs of src/core/mermai_merkle.cpp. */
module Merkle {
  import opened Bytes
  import opened MerkleShape

  // ---------- hexadecimal input ----------

  /** The value of a hexadecimal digit of either case, or -1. */
  function Nibble(c: byte): int
  {
    if 48 <= c <= 57 then c - 48
    else if 65 <= c <= 70 then c - 55
    else if 97 <= c <= 102 then c - 87
    else -1
  }

  /** `(uint8_t)strtol(two characters, nullptr, 16)`: blanks and signs are honoured, junk reads as zero. */
  function TwoDigits(c: byte, d: byte): byte
  {
    var y := if Nibble(d) < 0 then 0 else Nibble(d);
    if Nibble(c) >= 0 then (if Nibble(d) >= 0 then 16 * Nibble(c) + y else Nibble(c))
    else if c == 45 then (256 - y) % 256
    else if c == 43 || IsSpace(c) then y
    else 0
  }

  function HexBytes(h: Text): (s: Text)
    ensures |s| == |h| / 2
  {
    if |h| < 2 then [] else [TwoDigits(h[0], h[1])] + HexBytes(h[2..])
  }

  lemma {:induction false} HexBytesHex(s: Text)
    ensures HexBytes(Hex(s)) == s
  {
    if s != [] {
      var h := Hex(s);
      assert h[2..] == Hex(s[1..]);
      HexBytesHex(s[1..]);
      assert TwoDigits(h[0], h[1]) == s[0];
      assert s == [s[0]] + s[1..];
    }
  }

  /** The text of a digest: 64 lower-case digits. */
  predicate Canonical(h: Text)
  {
    |h| == 64 && forall i | 0 <= i < 64 :: IsHexDigit(h[i])
  }

  lemma {:induction false} HexHexBytes(h: Text)
    requires |h| % 2 == 0 && forall i | 0 <= i < |h| :: IsHexDigit(h[i])
    ensures Hex(HexBytes(h)) == h
  {
    if h != [] {
      HexHexBytes(h[2..]);
      var b := TwoDigits(h[0], h[1]);
      assert b / 16 == Nibble(h[0]) && b % 16 == Nibble(h[1]);
      assert HexBytes(h)[1..] == HexBytes(h[2..]);
      assert h == [h[0], h[1]] + h[2..];
    }
  }

  lemma CanonicalHex(d: Digest)
    ensures Canonical(Hex(d))
  {
    HexDigitsOnly(d);
  }

  lemma CanonicalInjective(h: Text, k: Text)
    requires Canonical(h) && Canonical(k) && HexBytes(h) == HexBytes(k)
    ensures h == k
  {
    HexHexBytes(h);
    HexHexBytes(k);
  }

  // ---------- hashing ----------

  function PairInput(l: Text, r: Text): Text
  {
    HexBytes(l) + HexBytes(r)
  }

  function HashPair(sha: Text -> Digest, l: Text, r: Text): Text
  {
    Hex(sha(PairInput(l, r)))
  }

  function Pairing(sha: Text -> Digest): Combiner
  {
    (l: Text, r: Text) => HashPair(sha, l, r)
  }

  ghost predicate AllCanonical(level: seq<Text>)
  {
    forall i | 0 <= i < |level| :: Canonical(level[i])
  }

  ghost predicate CanonicalPairs(pairs: set<(Text, Text)>)
  {
    forall p | p in pairs :: Canonical(p.0) && Canonical(p.1)
  }

  /** The byte strings hashed for a set of pairs. */
  ghost function PairInputs(pairs: set<(Text, Text)>): set<Text>
  {
    set p | p in pairs :: PairInput(p.0, p.1)
  }

  lemma NextCanonical(sha: Text -> Digest, level: seq<Text>)
    ensures AllCanonical(Next(Pairing(sha), level))
  {
    var next := Next(Pairing(sha), level);
    forall i | 0 <= i < |next| ensures Canonical(next[i]) {
      CanonicalHex(sha(PairInput(level[2 * i], Right(level, i))));
    }
  }

  function Repeated(b: byte, n: nat): Text
  {
    seq(n, _ => b)
  }

  // ---------- the tree object ----------

  datatype Proof = Proof(leafHash: Text, steps: seq<Step>)

  /** One level from the one below it. */
  method BuildNext(f: Combiner, level: seq<Text>) returns (next: seq<Text>)
    ensures next == Next(f, level)
  {
    next := [];
    var i := 0;
    while i < |level|
      invariant i == 2 * |next| && |next| <= (|level| + 1) / 2
      invariant forall j | 0 <= j < |next| :: next[j] == f(level[2 * j], Right(level, j))
    {
      var right := if i + 1 < |level| then level[i + 1] else level[i];
      next := next + [f(level[i], right)];
      i := i + 2;
    }
  }

  class Tree {
    const sha: Text -> Digest
    var levels: seq<seq<Text>>

    /** The levels of a non-empty list of leaves. */
    ghost predicate Valid()
      reads this
    {
      levels != [] && levels[0] != [] && levels == Levels(Pairing(sha), levels[0])
    }

    constructor (sha: Text -> Digest, leaves: seq<Text>)
      ensures Valid() && this.sha == sha
      ensures levels[0] == if leaves == [] then [Hex(sha([]))] else leaves
    {
      this.sha := sha;
      this.levels := [];
      new;
      Build(leaves);
    }

    /** An empty list is given the digest of the empty string as its only leaf. */
    method Build(leaves: seq<Text>)
      modifies this
      ensures Valid() && levels[0] == if leaves == [] then [Hex(sha([]))] else leaves
    {
      ghost var f := Pairing(sha);
      if leaves == [] {
        levels := [[Hex(sha([]))]];
        return;
      }
      levels := [leaves];
      while |levels[|levels| - 1]| > 1
        invariant levels != [] && levels[|levels| - 1] != [] && levels[0] == leaves
        invariant levels[..|levels| - 1] + Levels(f, levels[|levels| - 1]) == Levels(f, leaves)
        decreases |levels[|levels| - 1]|
      {
        ghost var done, last := levels[..|levels| - 1], levels[|levels| - 1];
        var next := BuildNext(Pairing(sha), levels[|levels| - 1]);
        levels := levels + [next];
        assert levels[..|levels| - 1] == done + [last];
        assert done + ([last] + Levels(f, next)) == (done + [last]) + Levels(f, next);
      }
      assert levels == levels[..|levels| - 1] + [levels[|levels| - 1]];
    }

    method GetRoot() returns (root: Text)
      requires Valid()
      ensures root == Root(Pairing(sha), levels[0])
    {
      LastLevel(Pairing(sha), levels[0]);
      root := levels[|levels| - 1][0];
    }

    method GenerateProof(leafIndex: nat) returns (proof: Proof)
      requires Valid()
      ensures leafIndex >= |levels[0]| ==> proof == Proof([], [])
      ensures leafIndex < |levels[0]| ==>
                proof == Proof(levels[0][leafIndex], Path(Pairing(sha), levels[0], leafIndex))
    {
      if leafIndex >= |levels[0]| {
        return Proof([], []);
      }
      var steps: seq<Step> := [];
      var index: nat := leafIndex;
      AscendStarts(Pairing(sha), levels, leafIndex);
      for lvl := 0 to |levels| - 1
        invariant Ascending(Pairing(sha), levels, leafIndex, lvl, index, steps)
      {
        var level := levels[lvl];
        var isRightChild := index % 2 != 0;
        var sibling := if isRightChild then index - 1 else index + 1;
        var step := Step(if sibling < |level| then level[sibling] else level[index], !isRightChild);
        AscendStep(Pairing(sha), levels, leafIndex, lvl, index, steps, step);
        steps := steps + [step];
        index := index / 2;
      }
      AscendEnds(Pairing(sha), levels, leafIndex, index, steps);
      proof := Proof(levels[0][leafIndex], steps);
    }
  }

  /** The invariant of `GenerateProof`: `steps` are done and the rest of the proof starts at node `index` of `lvl`. */
  ghost predicate Ascending(f: Combiner, levels: seq<seq<Text>>, leaf: nat, lvl: nat, index: nat, steps: seq<Step>)
  {
    && lvl < |levels| && leaf < |levels[0]| && index < |levels[lvl]|
    && levels[lvl..] == Levels(f, levels[lvl])
    && steps + Path(f, levels[lvl], index) == Path(f, levels[0], leaf)
  }

  lemma AscendStarts(f: Combiner, levels: seq<seq<Text>>, leaf: nat)
    requires levels != [] && leaf < |levels[0]| && levels == Levels(f, levels[0])
    ensures Ascending(f, levels, leaf, 0, leaf, [])
  {
    assert levels[0..] == levels;
    assert [] + Path(f, levels[0], leaf) == Path(f, levels[0], leaf);
  }

  lemma AscendStep(f: Combiner, levels: seq<seq<Text>>, leaf: nat, lvl: nat, index: nat, steps: seq<Step>, step: Step)
    requires Ascending(f, levels, leaf, lvl, index, steps) && lvl + 1 < |levels|
    requires step == Step(Sibling(levels[lvl], index), index % 2 == 0)
    ensures Ascending(f, levels, leaf, lvl + 1, index / 2, steps + [step])
  {
    var level := levels[lvl];
    assert levels[lvl..][1] == levels[lvl + 1] && levels[lvl..][1..] == levels[lvl + 1..];
    assert |level| > 1 && levels[lvl + 1] == Next(f, level);
    var rest := Path(f, levels[lvl + 1], index / 2);
    assert steps + ([step] + rest) == (steps + [step]) + rest;
  }

  lemma AscendEnds(f: Combiner, levels: seq<seq<Text>>, leaf: nat, index: nat, steps: seq<Step>)
    requires levels != [] && Ascending(f, levels, leaf, |levels| - 1, index, steps)
    ensures steps == Path(f, levels[0], leaf)
  {
    assert |levels[|levels| - 1..]| == 1;
    assert |levels[|levels| - 1]| == 1;
    assert steps + [] == steps;
  }

  lemma {:induction false} LastLevel(f: Combiner, level: seq<Text>)
    requires level != []
    ensures var levels := Levels(f, level); levels[|levels| - 1] == [Root(f, level)]
    decreases |level|
  {
    if |level| > 1 {
      LastLevel(f, Next(f, level));
    }
  }

  /** Folds a proof from the leaf up and compares with the expected root. */
  method VerifyProof(sha: Text -> Digest, expectedRoot: Text, leafHash: Text, proof: Proof) returns (ok: bool)
    ensures ok == (Climb(Pairing(sha), leafHash, proof.steps) == expectedRoot)
  {
    var current := leafHash;
    ghost var f := Pairing(sha);
    for k := 0 to |proof.steps|
      invariant Climb(f, current, proof.steps[k..]) == Climb(f, leafHash, proof.steps)
    {
      var step := proof.steps[k];
      assert proof.steps[k..][0] == step && proof.steps[k..][1..] == proof.steps[k + 1..];
      if step.isRight {
        current := HashPair(sha, current, step.hash);
      } else {
        current := HashPair(sha, step.hash, current);
      }
    }
    ok := current == expectedRoot;
  }
}
