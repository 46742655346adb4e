/**
 What an inclusion proof proves (src/core/mermai_merkle.cpp). A prover is free in every text it sends:
 `hash_pair` reads its arguments through `strtol` and joins their bytes, so texts count by the bytes
 they decode to.
 */
module Inclusion {
  import opened Bytes
  import opened Types
  import opened MerkleShape
  import opened Merkle

  // ---------- what one climb hashes ----------

  /** The bytes hashed at a step. */
  function InputAt(h: Text, s: Step): Text
  {
    PairInput(PairAt(h, s).0, PairAt(h, s).1)
  }

  /** The node above. */
  function Above(sha: Text -> Digest, h: Text, s: Step): Text
  {
    Hex(sha(InputAt(h, s)))
  }

  /** Everything hashed while checking one proof. */
  ghost function ProofInputs(sha: Text -> Digest, h: Text, steps: seq<Step>): set<Text>
    decreases |steps|
  {
    if steps == [] then {} else {InputAt(h, steps[0])} + ProofInputs(sha, Above(sha, h, steps[0]), steps[1..])
  }

  /** Everything hashed while building a tree. */
  ghost function TreeInputs(sha: Text -> Digest, level: seq<Text>): set<Text>
    requires level != []
  {
    PairInputs(TreePairs(Pairing(sha), level))
  }

  lemma ClimbStep(sha: Text -> Digest, h: Text, steps: seq<Step>)
    requires steps != []
    ensures Climb(Pairing(sha), h, steps) == Climb(Pairing(sha), Above(sha, h, steps[0]), steps[1..])
  {
  }

  lemma AboveIsDigest(sha: Text -> Digest, h: Text, s: Step)
    ensures Canonical(Above(sha, h, s)) && |HexBytes(Above(sha, h, s))| == 32
  {
    CanonicalHex(sha(InputAt(h, s)));
  }

  /** Two nodes above are one only if the inputs are, or collide. */
  lemma AboveDecides(sha: Text -> Digest, h: Text, s: Step, k: Text, t: Step, inputs: set<Text>)
    requires Above(sha, h, s) == Above(sha, k, t)
    requires InputAt(h, s) in inputs && InputAt(k, t) in inputs && !CollisionIn(sha, inputs)
    ensures InputAt(h, s) == InputAt(k, t)
  {
    HexInjective(sha(InputAt(h, s)), sha(InputAt(k, t)));
  }

  // ---------- which proofs of an index are accepted ----------

  ghost predicate SameSiblings(s: seq<Step>, t: seq<Step>)
  {
    |s| == |t| && forall i | 0 <= i < |s| :: HexBytes(s[i].hash) == HexBytes(t[i].hash)
  }

  /** The same bytes are hashed first, and the same siblings after that. */
  ghost predicate Matches(h: Text, s: seq<Step>, k: Text, t: seq<Step>)
    requires |s| == |t|
  {
    if s == [] then h == k else InputAt(h, s[0]) == InputAt(k, t[0]) && SameSiblings(s[1..], t[1..])
  }

  lemma {:induction false} SiblingsLead(sha: Text -> Digest, h: Text, s: seq<Step>, t: seq<Step>)
    requires SameDirections(s, t) && SameSiblings(s, t)
    ensures Climb(Pairing(sha), h, s) == Climb(Pairing(sha), h, t)
    decreases |s|
  {
    if s != [] {
      assert InputAt(h, s[0]) == InputAt(h, t[0]);
      ClimbStep(sha, h, s);
      ClimbStep(sha, h, t);
      SiblingsLead(sha, Above(sha, h, s[0]), s[1..], t[1..]);
    }
  }

  lemma MatchesLead(sha: Text -> Digest, h: Text, s: seq<Step>, k: Text, t: seq<Step>)
    requires SameDirections(s, t) && Matches(h, s, k, t)
    ensures Climb(Pairing(sha), h, s) == Climb(Pairing(sha), k, t)
  {
    if s != [] {
      ClimbStep(sha, h, s);
      ClimbStep(sha, k, t);
      SiblingsLead(sha, Above(sha, h, s[0]), s[1..], t[1..]);
    }
  }

  /** Equal inputs with nodes of one length on the same side have the same bytes on either side. */
  lemma InputsSplit(h: Text, s: Step, k: Text, t: Step)
    requires s.isRight == t.isRight && |HexBytes(h)| == |HexBytes(k)| && InputAt(h, s) == InputAt(k, t)
    ensures HexBytes(h) == HexBytes(k) && HexBytes(s.hash) == HexBytes(t.hash)
  {
    var x, y, a, b := HexBytes(h), HexBytes(s.hash), HexBytes(k), HexBytes(t.hash);
    if s.isRight {
      Prefixes(x, y, a, b);
    } else {
      Suffixes(y, x, b, a);
    }
  }

  lemma Prefixes(x: Text, y: Text, a: Text, b: Text)
    requires |x| == |a| && x + y == a + b
    ensures x == a && y == b
  {
    assert (x + y)[..|x|] == x && (a + b)[..|a|] == a && (x + y)[|x|..] == y && (a + b)[|a|..] == b;
  }

  lemma Suffixes(x: Text, y: Text, a: Text, b: Text)
    requires |y| == |b| && x + y == a + b
    ensures x == a && y == b
  {
    assert |x + y| == |a + b|;
    Prefixes(x, y, a, b);
  }

  /** Climbs in the same directions that meet match, or hash two colliding inputs. */
  lemma {:induction false} MeetingMatches(sha: Text -> Digest, h: Text, s: seq<Step>, k: Text, t: seq<Step>)
    requires SameDirections(s, t) && Climb(Pairing(sha), h, s) == Climb(Pairing(sha), k, t)
    requires !CollisionIn(sha, ProofInputs(sha, h, s) + ProofInputs(sha, k, t))
    ensures Matches(h, s, k, t)
    decreases |s|
  {
    if s != [] {
      var h', k', s', t' := Above(sha, h, s[0]), Above(sha, k, t[0]), s[1..], t[1..];
      ClimbStep(sha, h, s);
      ClimbStep(sha, k, t);
      FewerInputs(sha, h, s, k, t);
      MeetingMatches(sha, h', s', k', t');
      DigestsMatch(sha, h, s, k, t);
      AboveDecides(sha, h, s[0], k, t[0], ProofInputs(sha, h, s) + ProofInputs(sha, k, t));
    }
  }

  lemma FewerInputs(sha: Text -> Digest, h: Text, s: seq<Step>, k: Text, t: seq<Step>)
    requires s != [] && t != []
    requires !CollisionIn(sha, ProofInputs(sha, h, s) + ProofInputs(sha, k, t))
    ensures var h', k' := Above(sha, h, s[0]), Above(sha, k, t[0]);
            !CollisionIn(sha, ProofInputs(sha, h', s[1..]) + ProofInputs(sha, k', t[1..]))
  {
  }

  /** Nodes above the leaves are digest texts: where they match they are equal, and so are all siblings. */
  lemma DigestsMatch(sha: Text -> Digest, h: Text, s: seq<Step>, k: Text, t: seq<Step>)
    requires SameDirections(s, t) && s != []
    requires Matches(Above(sha, h, s[0]), s[1..], Above(sha, k, t[0]), t[1..])
    ensures Above(sha, h, s[0]) == Above(sha, k, t[0]) && SameSiblings(s[1..], t[1..])
  {
    var h', k', s', t' := Above(sha, h, s[0]), Above(sha, k, t[0]), s[1..], t[1..];
    if s' != [] {
      AboveIsDigest(sha, h, s[0]);
      AboveIsDigest(sha, k, t[0]);
      InputsSplit(h', s'[0], k', t'[0]);
      CanonicalInjective(h', k');
      assert forall i | 1 <= i < |s'| :: s'[i] == s'[1..][i - 1] && t'[i] == t'[1..][i - 1];
    }
  }

  /** The inputs hashed for a proof of leaf `i` and for the proof at hand. */
  ghost function BothInputs(sha: Text -> Digest, leaves: seq<Text>, i: nat, leaf: Text, steps: seq<Step>): set<Text>
    requires i < |leaves|
  {
    ProofInputs(sha, leaf, steps) + ProofInputs(sha, leaves[i], Path(Pairing(sha), leaves, i))
  }

  /**
   Exactly which proofs in the directions of index `i` are accepted, whatever texts they consist of:
   those that match the generated proof, and beyond them none without a collision.
   */
  lemma ProofExactly(sha: Text -> Digest, leaves: seq<Text>, i: nat, leaf: Text, steps: seq<Step>)
    requires i < |leaves| && SameDirections(steps, Path(Pairing(sha), leaves, i))
    ensures var path, accepted := Path(Pairing(sha), leaves, i),
                                  Climb(Pairing(sha), leaf, steps) == Root(Pairing(sha), leaves);
            && (Matches(leaf, steps, leaves[i], path) ==> accepted)
            && (accepted ==> Matches(leaf, steps, leaves[i], path)
                             || CollisionIn(sha, BothInputs(sha, leaves, i, leaf, steps)))
  {
    var path := Path(Pairing(sha), leaves, i);
    PathLeadsToRoot(Pairing(sha), leaves, i);
    if Matches(leaf, steps, leaves[i], path) {
      MatchesLead(sha, leaf, steps, leaves[i], path);
    } else if Climb(Pairing(sha), leaf, steps) == Root(Pairing(sha), leaves)
              && !CollisionIn(sha, BothInputs(sha, leaves, i, leaf, steps)) {
      MeetingMatches(sha, leaf, steps, leaves[i], path);
    }
  }

  /**
   Soundness: for a leaf text that decodes to as many bytes as leaf `i`, an accepted proof in the
   directions of `i` has the bytes of leaf `i` and of every sibling, or two hashed inputs collide.
   Digest texts are then the leaf itself.
   */
  lemma ProofSound(sha: Text -> Digest, leaves: seq<Text>, i: nat, leaf: Text, steps: seq<Step>)
    requires i < |leaves| && |HexBytes(leaf)| == |HexBytes(leaves[i])|
    requires SameDirections(steps, Path(Pairing(sha), leaves, i))
    requires Climb(Pairing(sha), leaf, steps) == Root(Pairing(sha), leaves)
    ensures (&& HexBytes(leaf) == HexBytes(leaves[i]) && SameSiblings(steps, Path(Pairing(sha), leaves, i))
             && (Canonical(leaf) && Canonical(leaves[i]) ==> leaf == leaves[i]))
         || CollisionIn(sha, BothInputs(sha, leaves, i, leaf, steps))
  {
    var path := Path(Pairing(sha), leaves, i);
    ProofExactly(sha, leaves, i, leaf, steps);
    if Matches(leaf, steps, leaves[i], path) && steps != [] {
      InputsSplit(leaf, steps[0], leaves[i], path[0]);
      assert forall j | 1 <= j < |steps| :: steps[j] == steps[1..][j - 1] && path[j] == path[1..][j - 1];
    }
    if HexBytes(leaf) == HexBytes(leaves[i]) && Canonical(leaf) && Canonical(leaves[i]) {
      CanonicalInjective(leaf, leaves[i]);
    }
  }

  ghost predicate CanonicalSteps(steps: seq<Step>)
  {
    forall i | 0 <= i < |steps| :: Canonical(steps[i].hash)
  }

  lemma {:induction false} PathCanonical(sha: Text -> Digest, level: seq<Text>, i: nat)
    requires i < |level| && AllCanonical(level)
    ensures CanonicalSteps(Path(Pairing(sha), level, i))
    decreases |level|
  {
    if |level| > 1 {
      NextCanonical(sha, level);
      PathCanonical(sha, Next(Pairing(sha), level), i / 2);
    }
  }

  /** Among digest texts the accepted proof in the directions of `i` is the generated one, or inputs collide. */
  lemma ProofUnique(sha: Text -> Digest, leaves: seq<Text>, i: nat, leaf: Text, steps: seq<Step>)
    requires i < |leaves| && AllCanonical(leaves) && Canonical(leaf) && CanonicalSteps(steps)
    requires SameDirections(steps, Path(Pairing(sha), leaves, i))
    requires Climb(Pairing(sha), leaf, steps) == Root(Pairing(sha), leaves)
    ensures (leaf == leaves[i] && steps == Path(Pairing(sha), leaves, i))
         || CollisionIn(sha, BothInputs(sha, leaves, i, leaf, steps))
  {
    var path := Path(Pairing(sha), leaves, i);
    ProofSound(sha, leaves, i, leaf, steps);
    PathCanonical(sha, leaves, i);
    if SameSiblings(steps, path) {
      forall j | 0 <= j < |steps| ensures steps[j] == path[j] {
        CanonicalInjective(steps[j].hash, path[j].hash);
      }
    }
  }

  /** In a tree of two or more leaves the bytes are enough: any text with the bytes of leaf `i` is accepted for it. */
  lemma SameBytesAccepted(sha: Text -> Digest, leaves: seq<Text>, i: nat, leaf: Text)
    requires i < |leaves| && |leaves| > 1 && HexBytes(leaf) == HexBytes(leaves[i])
    ensures Climb(Pairing(sha), leaf, Path(Pairing(sha), leaves, i)) == Root(Pairing(sha), leaves)
  {
    ProofExactly(sha, leaves, i, leaf, Path(Pairing(sha), leaves, i));
  }

  /** Such texts exist: 64 blanks decode like 64 zero digits. */
  lemma {:induction false} BlanksReadAsZeros(n: nat)
    ensures HexBytes(Repeated(32, 2 * n)) == HexBytes(Repeated(48, 2 * n))
  {
    if n > 0 {
      BlanksReadAsZeros(n - 1);
      assert Repeated(32, 2 * n)[2..] == Repeated(32, 2 * (n - 1));
      assert Repeated(48, 2 * n)[2..] == Repeated(48, 2 * (n - 1));
    }
  }

  /** The input of a step, divided anew: a node of `n` bytes and its sibling. */
  function Divided(input: Text, n: nat, isRight: bool): (Text, Step)
    requires n <= |input|
  {
    var rest := |input| - n;
    if isRight then (Hex(input[..n]), Step(Hex(input[n..]), true))
    else (Hex(input[rest..]), Step(Hex(input[..rest]), false))
  }

  lemma DividedInput(input: Text, n: nat, isRight: bool)
    requires n <= |input|
    ensures var (h, s) := Divided(input, n, isRight); InputAt(h, s) == input && |HexBytes(h)| == n
  {
    var cut := if isRight then n else |input| - n;
    HexBytesHex(input[..cut]);
    HexBytesHex(input[cut..]);
    assert input[..cut] + input[cut..] == input;
  }

  /**
   The length is needed: the boundary between leaf and sibling can be moved anywhere. In a tree of two or more
   leaves there is an accepted proof in the directions of any index for a leaf of any number of bytes up to all
   that are hashed with the leaf.
   */
  lemma ShiftedAccepted(sha: Text -> Digest, leaves: seq<Text>, i: nat, n: nat)
    returns (leaf: Text, steps: seq<Step>)
    requires i < |leaves| && |leaves| > 1 && n <= |InputAt(leaves[i], Path(Pairing(sha), leaves, i)[0])|
    ensures |HexBytes(leaf)| == n && SameDirections(steps, Path(Pairing(sha), leaves, i))
    ensures Climb(Pairing(sha), leaf, steps) == Root(Pairing(sha), leaves)
  {
    var path := Path(Pairing(sha), leaves, i);
    var input := InputAt(leaves[i], path[0]);
    DividedInput(input, n, path[0].isRight);
    var (h, s) := Divided(input, n, path[0].isRight);
    leaf, steps := h, path[0 := s];
    ProofExactly(sha, leaves, i, leaf, steps);
  }

  // ---------- what a proof of any index proves ----------

  ghost predicate Among(level: seq<Text>, h: Text)
  {
    exists j | 0 <= j < |level| :: HexBytes(level[j]) == HexBytes(h)
  }

  /** The inputs of the tree and of the proof at hand. */
  ghost function MemberInputs(sha: Text -> Digest, level: seq<Text>, h: Text, steps: seq<Step>): set<Text>
    requires level != []
  {
    TreeInputs(sha, level) + ProofInputs(sha, h, steps)
  }

  lemma PairHashed(sha: Text -> Digest, level: seq<Text>, j: nat)
    requires |level| > 1 && 2 * j < |level|
    ensures PairInput(level[2 * j], Right(level, j)) in TreeInputs(sha, level)
  {
    assert (level[2 * j], Right(level, j)) in LevelPairs(level);
  }

  lemma NextHashed(sha: Text -> Digest, level: seq<Text>, h: Text, steps: seq<Step>)
    requires |level| > 1 && steps != [] && !CollisionIn(sha, MemberInputs(sha, level, h, steps))
    ensures !CollisionIn(sha, MemberInputs(sha, Next(Pairing(sha), level), Above(sha, h, steps[0]), steps[1..]))
  {
    assert TreeInputs(sha, Next(Pairing(sha), level)) <= TreeInputs(sha, level);
    assert ProofInputs(sha, Above(sha, h, steps[0]), steps[1..]) <= ProofInputs(sha, h, steps);
  }

  lemma PairTells(a: Text, b: Text, h: Text, s: Step)
    requires |HexBytes(a)| == |HexBytes(b)| == |HexBytes(h)| && PairInput(a, b) == InputAt(h, s)
    ensures HexBytes(h) == HexBytes(a) || HexBytes(h) == HexBytes(b)
  {
    if s.isRight {
      Prefixes(HexBytes(a), HexBytes(b), HexBytes(h), HexBytes(s.hash));
    } else {
      Suffixes(HexBytes(a), HexBytes(b), HexBytes(s.hash), HexBytes(h));
    }
  }

  /** A node above that is on the next level comes from a node of this one. */
  lemma BelowNext(sha: Text -> Digest, level: seq<Text>, h: Text, steps: seq<Step>, j: nat)
    requires |level| > 1 && AllCanonical(level) && |HexBytes(h)| == 32 && steps != []
    requires j < |Next(Pairing(sha), level)| && Next(Pairing(sha), level)[j] == Above(sha, h, steps[0])
    requires !CollisionIn(sha, MemberInputs(sha, level, h, steps))
    ensures Among(level, h)
  {
    var a, b := level[2 * j], Right(level, j);
    PairHashed(sha, level, j);
    HexInjective(sha(PairInput(a, b)), sha(InputAt(h, steps[0])));
    assert PairInput(a, b) in MemberInputs(sha, level, h, steps);
    assert InputAt(h, steps[0]) in MemberInputs(sha, level, h, steps);
    PairTells(a, b, h, steps[0]);
    var right := if 2 * j + 1 < |level| then 2 * j + 1 else 2 * j;
    assert level[right] == b;
  }

  /**
   A verifier that knows how deep the tree is needs no index: a 32-byte leaf with an accepted proof of
   that many steps, in any directions, has the bytes of some leaf, or two hashed inputs collide.
   */
  lemma {:induction false} MemberSound(sha: Text -> Digest, level: seq<Text>, h: Text, steps: seq<Step>)
    requires level != [] && AllCanonical(level) && |HexBytes(h)| == 32
    requires |steps| == Depth(|level|) && Climb(Pairing(sha), h, steps) == Root(Pairing(sha), level)
    ensures Among(level, h) || CollisionIn(sha, MemberInputs(sha, level, h, steps))
    decreases |level|
  {
    if |level| == 1 {
      assert HexBytes(level[0]) == HexBytes(h);
    } else if !CollisionIn(sha, MemberInputs(sha, level, h, steps)) {
      var next, h' := Next(Pairing(sha), level), Above(sha, h, steps[0]);
      NextCanonical(sha, level);
      AboveIsDigest(sha, h, steps[0]);
      ClimbStep(sha, h, steps);
      NextHashed(sha, level, h, steps);
      MemberSound(sha, next, h', steps[1..]);
      var j :| 0 <= j < |next| && HexBytes(next[j]) == HexBytes(h');
      CanonicalInjective(next[j], h');
      BelowNext(sha, level, h, steps, j);
    }
  }

  /** The number of steps is needed: every inner node has an accepted proof, shorter by its height. */
  lemma InnerNodeAccepted(sha: Text -> Digest, leaves: seq<Text>, k: nat, j: nat)
    requires leaves != [] && k <= Depth(|leaves|) && j < |Up(Pairing(sha), leaves, k)|
    ensures var level := Up(Pairing(sha), leaves, k);
            var steps := Path(Pairing(sha), level, j);
            Climb(Pairing(sha), level[j], steps) == Root(Pairing(sha), leaves) && |steps| == Depth(|leaves|) - k
  {
    UpKeepsRoot(Pairing(sha), leaves, k);
    PathLeadsToRoot(Pairing(sha), Up(Pairing(sha), leaves, k), j);
    PathLength(Pairing(sha), Up(Pairing(sha), leaves, k), j);
  }
}
