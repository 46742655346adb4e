/**
 The tree shape shared by src/core/mermai_merkle.cpp and the block root of src/db/mermai_db.cpp,
 for any way `f` of combining two nodes: pairs left to right, the last node of an odd level paired
 with itself.
 */
module MerkleShape {
  import opened Bytes

  type Combiner = (Text, Text) -> Text

  function Right(level: seq<Text>, i: nat): Text
    requires 2 * i < |level|
  {
    if 2 * i + 1 < |level| then level[2 * i + 1] else level[2 * i]
  }

  function Next(f: Combiner, level: seq<Text>): (next: seq<Text>)
    ensures |next| == (|level| + 1) / 2
    ensures forall i | 0 <= i < |next| :: next[i] == f(level[2 * i], Right(level, i))
  {
    seq((|level| + 1) / 2, i requires 0 <= i < (|level| + 1) / 2 => f(level[2 * i], Right(level, i)))
  }

  function Root(f: Combiner, level: seq<Text>): Text
    requires level != []
    decreases |level|
  {
    if |level| == 1 then level[0] else Root(f, Next(f, level))
  }

  /** All levels, leaves first. */
  function Levels(f: Combiner, level: seq<Text>): (levels: seq<seq<Text>>)
    requires level != []
    ensures levels != [] && levels[0] == level
    decreases |level|
  {
    if |level| == 1 then [level] else [level] + Levels(f, Next(f, level))
  }

  // ---------- inclusion proofs ----------

  datatype Step = Step(hash: Text, isRight: bool)

  function Sibling(level: seq<Text>, i: nat): Text
    requires i < |level|
  {
    if i % 2 == 1 then level[i - 1] else if i + 1 < |level| then level[i + 1] else level[i]
  }

  /** The proof of leaf `i`: the sibling met at each level on the way up. */
  function Path(f: Combiner, level: seq<Text>, i: nat): (steps: seq<Step>)
    requires i < |level|
    decreases |level|
  {
    if |level| == 1 then [] else [Step(Sibling(level, i), i % 2 == 0)] + Path(f, Next(f, level), i / 2)
  }

  /** The pair hashed at a step. */
  function PairAt(h: Text, s: Step): (Text, Text)
  {
    if s.isRight then (h, s.hash) else (s.hash, h)
  }

  function Climb(f: Combiner, h: Text, steps: seq<Step>): Text
    decreases |steps|
  {
    if steps == [] then h else Climb(f, f(PairAt(h, steps[0]).0, PairAt(h, steps[0]).1), steps[1..])
  }

  lemma PairAtSibling(f: Combiner, level: seq<Text>, i: nat)
    requires i < |level|
    ensures PairAt(level[i], Step(Sibling(level, i), i % 2 == 0)) == (level[2 * (i / 2)], Right(level, i / 2))
  {
  }

  /** Completeness: the generated proof of every leaf leads to the root, odd levels included. */
  lemma {:induction false} PathLeadsToRoot(f: Combiner, level: seq<Text>, i: nat)
    requires i < |level|
    ensures Climb(f, level[i], Path(f, level, i)) == Root(f, level)
    decreases |level|
  {
    if |level| > 1 {
      var path := Path(f, level, i);
      PairAtSibling(f, level, i);
      assert Next(f, level)[i / 2] == f(level[2 * (i / 2)], Right(level, i / 2));
      assert path[1..] == Path(f, Next(f, level), i / 2);
      PathLeadsToRoot(f, Next(f, level), i / 2);
    }
  }

  // ---------- what a root or a proof commits to ----------

  /** `f` has no collision among the pairs in `pairs`. */
  ghost predicate InjectiveOn(f: Combiner, pairs: set<(Text, Text)>)
  {
    forall p, q | p in pairs && q in pairs :: f(p.0, p.1) == f(q.0, q.1) ==> p == q
  }

  ghost predicate SameDirections(s: seq<Step>, t: seq<Step>)
  {
    |s| == |t| && forall i | 0 <= i < |s| :: s[i].isRight == t[i].isRight
  }

  ghost function LevelPairs(level: seq<Text>): set<(Text, Text)>
  {
    set i | 0 <= i < (|level| + 1) / 2 :: (level[2 * i], Right(level, i))
  }

  /** The pairs hashed when building a tree. */
  ghost function TreePairs(f: Combiner, level: seq<Text>): set<(Text, Text)>
    requires level != []
    decreases |level|
  {
    if |level| == 1 then {} else LevelPairs(level) + TreePairs(f, Next(f, level))
  }

  lemma NextAgree(f: Combiner, xs: seq<Text>, ys: seq<Text>, i: nat)
    requires Next(f, xs) == Next(f, ys) && i < (|xs| + 1) / 2
    requires InjectiveOn(f, LevelPairs(xs) + LevelPairs(ys))
    ensures i < (|ys| + 1) / 2 && xs[2 * i] == ys[2 * i] && Right(xs, i) == Right(ys, i)
  {
    assert |Next(f, xs)| == |Next(f, ys)|;
    assert Next(f, xs)[i] == Next(f, ys)[i];
    assert (xs[2 * i], Right(xs, i)) in LevelPairs(xs);
    assert (ys[2 * i], Right(ys, i)) in LevelPairs(ys);
  }

  lemma NextDetermines(f: Combiner, xs: seq<Text>, ys: seq<Text>)
    requires |xs| == |ys| && Next(f, xs) == Next(f, ys)
    requires InjectiveOn(f, LevelPairs(xs) + LevelPairs(ys))
    ensures xs == ys
  {
    forall j | 0 <= j < |xs| ensures xs[j] == ys[j] {
      NextAgree(f, xs, ys, j / 2);
    }
  }

  /** A root and a leaf count together determine the leaves. */
  lemma {:induction false} RootDetermines(f: Combiner, xs: seq<Text>, ys: seq<Text>)
    requires |xs| == |ys| && xs != [] && Root(f, xs) == Root(f, ys)
    requires InjectiveOn(f, TreePairs(f, xs) + TreePairs(f, ys))
    ensures xs == ys
    decreases |xs|
  {
    if |xs| > 1 {
      RootDetermines(f, Next(f, xs), Next(f, ys));
      NextDetermines(f, xs, ys);
    }
  }

  lemma RepeatedPairs(f: Combiner, xs: seq<Text>, ys: seq<Text>)
    requires |xs| % 2 == 1 && ys == xs + [xs[|xs| - 1]]
    ensures Next(f, ys) == Next(f, xs)
  {
    var n := |xs| / 2;
    assert |xs| == 2 * n + 1 && |ys| == 2 * n + 2;
    forall i | 0 <= i <= n ensures Next(f, ys)[i] == Next(f, xs)[i] {
      assert ys[2 * i] == xs[2 * i];
      if i < n {
        assert ys[2 * i + 1] == xs[2 * i + 1];
      }
    }
  }

  /** The count is needed: repeating the last leaf of an odd list leaves the root as it was. */
  lemma RepeatedLastLeaf(f: Combiner, xs: seq<Text>)
    requires |xs| % 2 == 1 && |xs| > 1
    ensures Root(f, xs + [xs[|xs| - 1]]) == Root(f, xs)
  {
    RepeatedPairs(f, xs, xs + [xs[|xs| - 1]]);
  }

  // ---------- lists without repetition ----------

  ghost predicate Distinct(xs: seq<Text>)
  {
    forall i, j | 0 <= i < j < |xs| :: xs[i] != xs[j]
  }

  lemma NextDistinct(f: Combiner, xs: seq<Text>)
    requires Distinct(xs) && InjectiveOn(f, LevelPairs(xs))
    ensures Distinct(Next(f, xs))
  {
    var next := Next(f, xs);
    forall i, j | 0 <= i < j < |next| ensures next[i] != next[j] {
      assert (xs[2 * i], Right(xs, i)) in LevelPairs(xs);
      assert (xs[2 * j], Right(xs, j)) in LevelPairs(xs);
      assert xs[2 * i] != xs[2 * j];
    }
  }

  function Depth(n: nat): nat
    requires n > 0
  {
    if n == 1 then 0 else 1 + Depth((n + 1) / 2)
  }

  lemma {:induction false} PathLength(f: Combiner, level: seq<Text>, i: nat)
    requires i < |level|
    ensures |Path(f, level, i)| == Depth(|level|)
    decreases |level|
  {
    if |level| > 1 {
      PathLength(f, Next(f, level), i / 2);
    }
  }

  /** Without repetition the depth is enough: no count is needed. */
  lemma {:induction false} DepthDetermines(f: Combiner, xs: seq<Text>, ys: seq<Text>)
    requires xs != [] && ys != [] && Depth(|xs|) == Depth(|ys|) && Root(f, xs) == Root(f, ys)
    requires Distinct(xs) && Distinct(ys)
    requires InjectiveOn(f, TreePairs(f, xs) + TreePairs(f, ys))
    ensures xs == ys
    decreases |xs|
  {
    if |xs| > 1 {
      NextDistinct(f, xs);
      NextDistinct(f, ys);
      DepthDetermines(f, Next(f, xs), Next(f, ys));
      SameLength(f, xs, ys);
      NextDetermines(f, xs, ys);
    }
  }

  lemma SameLength(f: Combiner, xs: seq<Text>, ys: seq<Text>)
    requires Distinct(xs) && Distinct(ys) && Next(f, xs) == Next(f, ys)
    requires InjectiveOn(f, LevelPairs(xs) + LevelPairs(ys))
    ensures |xs| == |ys|
  {
    assert |Next(f, xs)| == |Next(f, ys)|;
    if |xs| != |ys| {
      var last := |Next(f, xs)| - 1;
      NextAgree(f, xs, ys, last);
      assert false;
    }
  }

  /** The level `k` steps above the leaves. */
  function Up(f: Combiner, xs: seq<Text>, k: nat): (level: seq<Text>)
    requires xs != []
    ensures level != []
    decreases k
  {
    if k == 0 then xs else Up(f, Next(f, xs), k - 1)
  }

  lemma {:induction false} UpKeepsRoot(f: Combiner, xs: seq<Text>, k: nat)
    requires xs != [] && k <= Depth(|xs|)
    ensures Root(f, Up(f, xs, k)) == Root(f, xs) && Depth(|Up(f, xs, k)|) == Depth(|xs|) - k
    decreases k
  {
    if k > 0 {
      UpKeepsRoot(f, Next(f, xs), k - 1);
    }
  }

  lemma {:induction false} UpHashes(f: Combiner, xs: seq<Text>, k: nat)
    requires xs != [] && k <= Depth(|xs|)
    ensures TreePairs(f, Up(f, xs, k)) <= TreePairs(f, xs)
    decreases k
  {
    if k > 0 {
      UpHashes(f, Next(f, xs), k - 1);
    }
  }

  lemma {:induction false} UpDistinct(f: Combiner, xs: seq<Text>, k: nat)
    requires xs != [] && k <= Depth(|xs|) && Distinct(xs) && InjectiveOn(f, TreePairs(f, xs))
    ensures Distinct(Up(f, xs, k))
    decreases k
  {
    if k > 0 {
      NextDistinct(f, xs);
      UpDistinct(f, Next(f, xs), k - 1);
    }
  }

  /** Above the leaves every node is a combination of a hashed pair. */
  lemma {:induction false} UpIsCombined(f: Combiner, xs: seq<Text>, k: nat) returns (p: (Text, Text))
    requires xs != [] && 0 < k <= Depth(|xs|)
    ensures p in TreePairs(f, xs) && Up(f, xs, k)[0] == f(p.0, p.1)
    decreases k
  {
    if k == 1 {
      p := (xs[0], Right(xs, 0));
      assert p in LevelPairs(xs);
      assert Up(f, xs, 1) == Up(f, Next(f, xs), 0) == Next(f, xs);
    } else {
      p := UpIsCombined(f, Next(f, xs), k - 1);
    }
  }

  /**
   Two lists without repetition and with one root are equal, unless the shallower list consists of
   nodes of the deeper tree.
   */
  lemma RootsAgree(f: Combiner, xs: seq<Text>, ys: seq<Text>)
    requires xs != [] && ys != [] && Depth(|xs|) <= Depth(|ys|) && Root(f, xs) == Root(f, ys)
    requires Distinct(xs) && Distinct(ys)
    requires InjectiveOn(f, TreePairs(f, xs) + TreePairs(f, ys))
    ensures xs == Up(f, ys, Depth(|ys|) - Depth(|xs|))
  {
    var k := Depth(|ys|) - Depth(|xs|);
    UpKeepsRoot(f, ys, k);
    UpHashes(f, ys, k);
    UpDistinct(f, ys, k);
    DepthDetermines(f, xs, Up(f, ys, k));
  }
}
