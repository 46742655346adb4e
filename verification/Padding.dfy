/**
 Which lists of leaves share a root. A level of odd length repeats its last node, so a list stands for
 the full list of a power of two leaves in which every such repetition is written out.
 */
module Padding {
  import opened Bytes
  import opened MerkleShape

  // ---------- padding every odd level ----------

  function Lefts(xs: seq<Text>): (r: seq<Text>)
    ensures |r| == (|xs| + 1) / 2
  {
    seq((|xs| + 1) / 2, i requires 0 <= i < (|xs| + 1) / 2 => xs[2 * i])
  }

  function Rights(xs: seq<Text>): (r: seq<Text>)
    ensures |r| == (|xs| + 1) / 2
  {
    seq((|xs| + 1) / 2, i requires 0 <= i < (|xs| + 1) / 2 => Right(xs, i))
  }

  function Alternate(xs: seq<Text>, ys: seq<Text>): (r: seq<Text>)
    requires |xs| == |ys|
    ensures |r| == 2 * |xs|
  {
    seq(2 * |xs|, i requires 0 <= i < 2 * |xs| => if i % 2 == 0 then xs[i / 2] else ys[i / 2])
  }

  function Power(d: nat): (p: nat)
    ensures p > 0
  {
    if d == 0 then 1 else 2 * Power(d - 1)
  }

  /** The leaves of the full tree: the last node of each odd level, with all its leaves, is repeated. */
  function Padded(xs: seq<Text>): (r: seq<Text>)
    requires xs != []
    ensures |r| == Power(Depth(|xs|))
    decreases |xs|
  {
    if |xs| == 1 then xs else Alternate(Padded(Lefts(xs)), Padded(Rights(xs)))
  }

  /** Combining two lists node by node. */
  function Combine(f: Combiner, xs: seq<Text>, ys: seq<Text>): (r: seq<Text>)
    requires |xs| == |ys|
    ensures |r| == |xs|
  {
    seq(|xs|, i requires 0 <= i < |xs| => f(xs[i], ys[i]))
  }

  lemma NextCombines(f: Combiner, xs: seq<Text>)
    ensures Next(f, xs) == Combine(f, Lefts(xs), Rights(xs))
  {
  }

  lemma NextOfAlternate(f: Combiner, xs: seq<Text>, ys: seq<Text>)
    requires |xs| == |ys|
    ensures Next(f, Alternate(xs, ys)) == Combine(f, xs, ys)
  {
    var all := Alternate(xs, ys);
    forall i | 0 <= i < |xs| ensures Next(f, all)[i] == f(xs[i], ys[i]) {
      assert all[2 * i] == xs[i] && all[2 * i + 1] == ys[i];
    }
  }

  lemma HalvesCombine(f: Combiner, xs: seq<Text>, ys: seq<Text>)
    requires |xs| == |ys|
    ensures Lefts(Combine(f, xs, ys)) == Combine(f, Lefts(xs), Lefts(ys))
    ensures Rights(Combine(f, xs, ys)) == Combine(f, Rights(xs), Rights(ys))
  {
  }

  lemma AlternateCombines(f: Combiner, a: seq<Text>, b: seq<Text>, c: seq<Text>, d: seq<Text>)
    requires |a| == |b| == |c| == |d|
    ensures Alternate(Combine(f, a, b), Combine(f, c, d)) == Combine(f, Alternate(a, c), Alternate(b, d))
  {
  }

  /** Padding moves positions only, so it commutes with combining. */
  lemma {:induction false} PaddingCombines(f: Combiner, xs: seq<Text>, ys: seq<Text>)
    requires |xs| == |ys| && xs != []
    ensures Padded(Combine(f, xs, ys)) == Combine(f, Padded(xs), Padded(ys))
    decreases |xs|
  {
    if |xs| > 1 {
      HalvesCombine(f, xs, ys);
      PaddingCombines(f, Lefts(xs), Lefts(ys));
      PaddingCombines(f, Rights(xs), Rights(ys));
      AlternateCombines(f, Padded(Lefts(xs)), Padded(Lefts(ys)), Padded(Rights(xs)), Padded(Rights(ys)));
    }
  }

  lemma NextPadded(f: Combiner, xs: seq<Text>)
    requires |xs| > 1
    ensures Next(f, Padded(xs)) == Padded(Next(f, xs))
  {
    NextOfAlternate(f, Padded(Lefts(xs)), Padded(Rights(xs)));
    NextCombines(f, xs);
    PaddingCombines(f, Lefts(xs), Rights(xs));
  }

  lemma PaddedLonger(xs: seq<Text>)
    requires |xs| > 1
    ensures |Padded(xs)| > 1
  {
  }

  /** The full list has the root of the list it stands for. */
  lemma {:induction false} PaddedRoot(f: Combiner, xs: seq<Text>)
    requires xs != []
    ensures Root(f, Padded(xs)) == Root(f, xs)
    decreases |xs|
  {
    if |xs| > 1 {
      PaddedLonger(xs);
      NextPadded(f, xs);
      PaddedRoot(f, Next(f, xs));
    }
  }

  // ---------- the pairs that are hashed ----------

  lemma PairOf(xs: seq<Text>, i: nat)
    requires i < (|xs| + 1) / 2
    ensures (Lefts(xs)[i], Rights(xs)[i]) in LevelPairs(xs)
  {
  }

  /** Every pair of positions of two padded lists is a pair of positions of the lists. */
  lemma {:induction false} PaddedPairs(xs: seq<Text>, ys: seq<Text>, i: nat) returns (j: nat)
    requires |xs| == |ys| && xs != [] && i < |Padded(xs)|
    ensures j < |xs| && Padded(xs)[i] == xs[j] && Padded(ys)[i] == ys[j]
    decreases |xs|
  {
    if |xs| == 1 {
      j := 0;
    } else if i % 2 == 0 {
      var k := PaddedPairs(Lefts(xs), Lefts(ys), i / 2);
      j := 2 * k;
    } else {
      var k := PaddedPairs(Rights(xs), Rights(ys), i / 2);
      j := if 2 * k + 1 < |xs| then 2 * k + 1 else 2 * k;
    }
  }

  lemma AlternatePair(xs: seq<Text>, ys: seq<Text>, p: (Text, Text)) returns (i: nat)
    requires |xs| == |ys| && p in LevelPairs(Alternate(xs, ys))
    ensures i < |xs| && p == (xs[i], ys[i])
  {
    var all := Alternate(xs, ys);
    i :| 0 <= i < (|all| + 1) / 2 && p == (all[2 * i], Right(all, i));
    assert all[2 * i] == xs[i] && all[2 * i + 1] == ys[i];
  }

  lemma PaddedLevelPairs(xs: seq<Text>)
    requires |xs| > 1
    ensures LevelPairs(Padded(xs)) <= LevelPairs(xs)
  {
    forall p | p in LevelPairs(Padded(xs)) ensures p in LevelPairs(xs) {
      var i := AlternatePair(Padded(Lefts(xs)), Padded(Rights(xs)), p);
      var j := PaddedPairs(Lefts(xs), Rights(xs), i);
      PairOf(xs, j);
    }
  }

  /** Hashing the full tree hashes nothing else. */
  lemma {:induction false} PaddedHashes(f: Combiner, xs: seq<Text>)
    requires xs != []
    ensures TreePairs(f, Padded(xs)) <= TreePairs(f, xs)
    decreases |xs|
  {
    if |xs| > 1 {
      PaddedLonger(xs);
      NextPadded(f, xs);
      PaddedLevelPairs(xs);
      PaddedHashes(f, Next(f, xs));
    }
  }

  // ---------- which lists share a root ----------

  lemma InjectiveOnFewer(f: Combiner, few: set<(Text, Text)>, pairs: set<(Text, Text)>)
    requires few <= pairs && InjectiveOn(f, pairs)
    ensures InjectiveOn(f, few)
  {
  }

  lemma OneRootOnePadding(f: Combiner, xs: seq<Text>, ys: seq<Text>)
    requires xs != [] && ys != [] && |Padded(xs)| == |Padded(ys)|
    requires InjectiveOn(f, TreePairs(f, xs) + TreePairs(f, ys))
    requires Root(f, Padded(xs)) == Root(f, Padded(ys))
    ensures Padded(xs) == Padded(ys)
  {
    var p, q := Padded(xs), Padded(ys);
    PaddedHashes(f, xs);
    PaddedHashes(f, ys);
    InjectiveOnFewer(f, TreePairs(f, p) + TreePairs(f, q), TreePairs(f, xs) + TreePairs(f, ys));
    RootDetermines(f, p, q);
  }

  /**
   Two lists of one depth whose hashed pairs do not clash have one root exactly when they agree after
   padding every odd level.
   */
  lemma RootsAgreeExactly(f: Combiner, xs: seq<Text>, ys: seq<Text>)
    requires xs != [] && ys != [] && Depth(|xs|) == Depth(|ys|)
    requires InjectiveOn(f, TreePairs(f, xs) + TreePairs(f, ys))
    ensures Root(f, xs) == Root(f, ys) <==> Padded(xs) == Padded(ys)
  {
    PaddedRoot(f, xs);
    PaddedRoot(f, ys);
    if Root(f, xs) == Root(f, ys) {
      OneRootOnePadding(f, xs, ys);
    }
  }
}
