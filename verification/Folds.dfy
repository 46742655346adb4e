/** Folding a step that may fail over a list, stopping at the first failure. */
module Folds {
  import opened Types

  function Fold<S, X>(step: (S, X) -> Option<S>, s: S, xs: seq<X>): Option<S>
  {
    if xs == [] then Some(s)
    else match Fold(step, s, xs[..|xs| - 1])
         case None => None
         case Some(t) => step(t, xs[|xs| - 1])
  }

  function FoldFrom<S, X>(step: (S, X) -> Option<S>, s: Option<S>, xs: seq<X>): Option<S>
  {
    match s
    case None => None
    case Some(t) => Fold(step, t, xs)
  }

  lemma FoldSnoc<S, X>(step: (S, X) -> Option<S>, s: S, xs: seq<X>, i: nat)
    requires i < |xs|
    ensures Fold(step, s, xs[..i + 1]) == match Fold(step, s, xs[..i]) case None => None case Some(t) => step(t, xs[i])
  {
    assert xs[..i + 1][..i] == xs[..i];
  }

  lemma {:induction false} FoldAppend<S, X>(step: (S, X) -> Option<S>, s: S, xs: seq<X>, ys: seq<X>)
    ensures Fold(step, s, xs + ys) == FoldFrom(step, Fold(step, s, xs), ys)
  {
    if ys == [] {
      assert xs + ys == xs;
    } else {
      var n := |ys| - 1;
      FoldAppend(step, s, xs, ys[..n]);
      assert (xs + ys)[..|xs + ys| - 1] == xs + ys[..n];
    }
  }

  /** A fold that fails on a prefix fails. */
  lemma FoldFails<S, X>(step: (S, X) -> Option<S>, s: S, xs: seq<X>, i: nat)
    requires i <= |xs| && Fold(step, s, xs[..i]).None?
    ensures Fold(step, s, xs).None?
  {
    FoldAppend(step, s, xs[..i], xs[i..]);
    assert xs[..i] + xs[i..] == xs;
  }

  function Sum<X>(f: X -> nat, xs: seq<X>): nat
  {
    if xs == [] then 0 else Sum(f, xs[..|xs| - 1]) + f(xs[|xs| - 1])
  }

  lemma SumSnoc<X>(f: X -> nat, xs: seq<X>, x: X)
    ensures Sum(f, xs + [x]) == Sum(f, xs) + f(x)
  {
    assert (xs + [x])[..|xs|] == xs;
  }

  lemma SumOne<X>(f: X -> nat, x: X)
    ensures Sum(f, [x]) == f(x)
  {
    assert [x][..0] == [];
  }

  lemma {:induction false} SumOfPrefix<X>(f: X -> nat, xs: seq<X>, i: nat)
    requires i <= |xs|
    ensures Sum(f, xs[..i]) <= Sum(f, xs)
    decreases |xs|
  {
    if i < |xs| {
      SumOfPrefix(f, xs[..|xs| - 1], i);
      assert xs[..|xs| - 1][..i] == xs[..i];
    } else {
      assert xs[..i] == xs;
    }
  }

  lemma {:induction false} SumIsZero<X>(f: X -> nat, xs: seq<X>)
    requires forall i | 0 <= i < |xs| :: f(xs[i]) == 0
    ensures Sum(f, xs) == 0
  {
    if xs != [] {
      SumIsZero(f, xs[..|xs| - 1]);
    }
  }

  /** A step changes a measure by what its element brings and takes. */
  ghost predicate Balances<S(!new), X(!new)>(
    step: (S, X) -> Option<S>, measure: S -> nat, gain: X -> nat, loss: X -> nat)
  {
    forall s, x | step(s, x).Some? :: measure(step(s, x).value) + loss(x) == measure(s) + gain(x)
  }

  lemma {:induction false} FoldBalances<S(!new), X(!new)>(
    step: (S, X) -> Option<S>, measure: S -> nat, gain: X -> nat, loss: X -> nat, s: S, xs: seq<X>)
    requires Balances(step, measure, gain, loss) && Fold(step, s, xs).Some?
    ensures measure(Fold(step, s, xs).value) + Sum(loss, xs) == measure(s) + Sum(gain, xs)
  {
    if xs != [] {
      FoldBalances(step, measure, gain, loss, s, xs[..|xs| - 1]);
    }
  }

  function Flat<X, E>(f: X -> seq<E>, xs: seq<X>): seq<E>
  {
    if xs == [] then [] else Flat(f, xs[..|xs| - 1]) + f(xs[|xs| - 1])
  }

  lemma FlatSnoc<X, E>(f: X -> seq<E>, xs: seq<X>, x: X)
    ensures Flat(f, xs + [x]) == Flat(f, xs) + f(x)
  {
    assert (xs + [x])[..|xs|] == xs;
  }

  lemma FlatThree<X, E>(f: X -> seq<E>, xs: seq<X>)
    requires |xs| == 3
    ensures Flat(f, xs) == f(xs[0]) + f(xs[1]) + f(xs[2])
  {
    var one, two := xs[..1], xs[..2];
    assert one[..0] == [] && two[..1] == one;
    assert Flat(f, one) == f(xs[0]);
    assert Flat(f, two) == f(xs[0]) + f(xs[1]);
  }

  lemma {:induction false} FlatAppend<X, E>(f: X -> seq<E>, xs: seq<X>, ys: seq<X>)
    ensures Flat(f, xs + ys) == Flat(f, xs) + Flat(f, ys)
  {
    if ys == [] {
      assert xs + ys == xs;
    } else {
      var n := |ys| - 1;
      FlatAppend(f, xs, ys[..n]);
      assert (xs + ys)[..|xs + ys| - 1] == xs + ys[..n];
    }
  }

  /** Flattening twice is flattening once with a longer stride. */
  lemma {:induction false} FlatFlat<X(!new), Y, E>(f: X -> seq<Y>, g: Y -> seq<E>, h: X -> seq<E>, xs: seq<X>)
    requires forall x :: h(x) == Flat(g, f(x))
    ensures Flat(h, xs) == Flat(g, Flat(f, xs))
  {
    if xs != [] {
      var n := |xs| - 1;
      FlatFlat(f, g, h, xs[..n]);
      FlatAppend(g, Flat(f, xs[..n]), f(xs[n]));
    }
  }

  /** An element that brings `e` brings it as often as it occurs. */
  lemma {:induction false} FlatCounts<X, E>(f: X -> seq<E>, xs: seq<X>, x: X, e: E)
    requires multiset(f(x))[e] >= 1
    ensures multiset(xs)[x] <= multiset(Flat(f, xs))[e]
  {
    if xs != [] {
      var n := |xs| - 1;
      var some, more := Flat(f, xs[..n]), f(xs[n]);
      FlatCounts(f, xs[..n], x, e);
      assert xs == xs[..n] + [xs[n]];
      assert multiset(some + more) == multiset(some) + multiset(more);
    }
  }

  /** One step on states is a run of small steps on their images. */
  ghost predicate Simulates<S(!new), X(!new), T, E>(
    step: (S, X) -> Option<S>, image: S -> T, small: (T, E) -> Option<T>, events: X -> seq<E>)
  {
    forall s, x | step(s, x).Some? :: Fold(small, image(s), events(x)) == Some(image(step(s, x).value))
  }

  lemma {:induction false} FoldSimulates<S(!new), X(!new), T, E>(
    step: (S, X) -> Option<S>, image: S -> T, small: (T, E) -> Option<T>, events: X -> seq<E>, s: S, xs: seq<X>)
    requires Simulates(step, image, small, events) && Fold(step, s, xs).Some?
    ensures Fold(small, image(s), Flat(events, xs)) == Some(image(Fold(step, s, xs).value))
  {
    if xs != [] {
      var n := |xs| - 1;
      FoldSimulates(step, image, small, events, s, xs[..n]);
      FoldAppend(small, image(s), Flat(events, xs[..n]), events(xs[n]));
    }
  }

  function At<S>(check: (nat, S) -> (bool, S), i: nat, s: S): (bool, S)
  {
    check(i, s)
  }

  /** Runs a check on positions `i` to `n - 1`, stopping at the first that fails; failing may change the state too. */
  ghost function Sweep<S>(check: (nat, S) -> (bool, S), i: nat, n: nat, s: S): (bool, S)
    requires i <= n
    decreases n - i
  {
    if i == n then (true, s)
    else var (ok, s1) := check(i, s); if ok then Sweep(check, i + 1, n, s1) else (false, s1)
  }

  lemma SweepStep<S>(check: (nat, S) -> (bool, S), i: nat, n: nat, s: S, ok: bool, t: S)
    requires i < n && check(i, s) == (ok, t)
    ensures Sweep(check, i, n, s) == if ok then Sweep(check, i + 1, n, t) else (false, t)
  {
  }

  lemma {:induction false} SweepPasses<S>(check: (nat, S) -> (bool, S), i: nat, n: nat, s: S, k: nat) returns (t: S)
    requires i <= k < n && Sweep(check, i, n, s).0
    ensures check(k, t).0
    decreases n - i
  {
    if i == k {
      t := s;
    } else {
      t := SweepPasses(check, i + 1, n, check(i, s).1, k);
    }
  }

  ghost predicate Keeps<S(!new)>(check: (nat, S) -> (bool, S), inv: S -> bool)
  {
    forall i, s | inv(s) :: inv(check(i, s).1)
  }

  lemma {:induction false} SweepKeeps<S(!new)>(check: (nat, S) -> (bool, S), inv: S -> bool, i: nat, n: nat, s: S)
    requires i <= n && inv(s) && Keeps(check, inv)
    ensures inv(Sweep(check, i, n, s).1)
    decreases n - i
  {
    if i < n && check(i, s).0 {
      SweepKeeps(check, inv, i + 1, n, check(i, s).1);
    }
  }

  /** The state after the checks from `m` up to `k`, passed or not. */
  ghost function Through<S>(check: (nat, S) -> (bool, S), m: nat, k: nat, s: S): S
    decreases k
  {
    if k <= m then s else check(k - 1, Through(check, m, k - 1, s)).1
  }

  ghost predicate AllPass<S>(check: (nat, S) -> (bool, S), m: nat, k: nat, s: S)
  {
    forall i | m <= i < k :: check(i, Through(check, m, i, s)).0
  }

  /** A sweep stops behind the first check that does not pass. */
  lemma {:induction false} SweepStops<S>(check: (nat, S) -> (bool, S), m: nat, i: nat, n: nat, s: S) returns (k: nat)
    requires m <= i <= n && AllPass(check, m, i, s)
    ensures i <= k <= n && AllPass(check, m, k, s) && (k < n ==> !check(k, Through(check, m, k, s)).0)
    ensures Sweep(check, i, n, Through(check, m, i, s))
         == (k == n, Through(check, m, if k < n then k + 1 else k, s))
    decreases n - i
  {
    k := i;
    if i < n && check(i, Through(check, m, i, s)).0 {
      k := SweepStops(check, m, i + 1, n, s);
    }
  }

  lemma {:induction false} ThroughKeeps<S(!new)>(check: (nat, S) -> (bool, S), inv: S -> bool, m: nat, k: nat, s: S)
    requires inv(s) && Keeps(check, inv)
    ensures inv(Through(check, m, k, s))
    decreases k
  {
    if k > m {
      ThroughKeeps(check, inv, m, k - 1, s);
    }
  }

  /** Where checks that pass leave something alone, any number of them does. */
  ghost predicate Spares<S(!new), X>(check: (nat, S) -> (bool, S), part: S -> X)
  {
    forall i: nat, s | check(i, s).0 :: part(check(i, s).1) == part(s)
  }

  lemma {:induction false} ThroughSpares<S(!new), X>(
    check: (nat, S) -> (bool, S), part: S -> X, m: nat, k: nat, s: S)
    requires Spares(check, part) && AllPass(check, m, k, s)
    ensures part(Through(check, m, k, s)) == part(s)
    decreases k
  {
    if k > m {
      ThroughSpares(check, part, m, k - 1, s);
    }
  }

  /** Where every check that passes appends its item, checks that all pass append all. */
  ghost predicate Appends<S(!new), B>(check: (nat, S) -> (bool, S), list: S -> seq<B>, items: seq<B>)
  {
    forall i: nat, s | i < |items| && list(s) != [] && check(i, s).0 :: list(check(i, s).1) == list(s) + [items[i]]
  }

  lemma {:induction false} ThroughAppends<S(!new), B>(
    check: (nat, S) -> (bool, S), list: S -> seq<B>, items: seq<B>, m: nat, k: nat, s: S)
    requires m <= k <= |items| && list(s) != [] && Appends(check, list, items) && AllPass(check, m, k, s)
    ensures list(Through(check, m, k, s)) == list(s) + items[m..k]
    decreases k
  {
    if k > m {
      ThroughAppends(check, list, items, m, k - 1, s);
      assert items[m..k] == items[m..k - 1] + [items[k - 1]];
    }
  }

  /** Where a check that does not pass leaves the list as it is. */
  ghost predicate Retains<S(!new), B>(check: (nat, S) -> (bool, S), list: S -> seq<B>)
  {
    forall i: nat, s | list(s) != [] && !check(i, s).0 :: list(check(i, s).1) == list(s)
  }

  /** Then a sweep appends the items up to the first whose check does not pass. */
  lemma SweepAppends<S(!new), B>(
    check: (nat, S) -> (bool, S), list: S -> seq<B>, items: seq<B>, m: nat, s: S) returns (k: nat)
    requires m <= |items| && list(s) != [] && Appends(check, list, items) && Retains(check, list)
    ensures m <= k <= |items| && AllPass(check, m, k, s)
    ensures k < |items| ==> !check(k, Through(check, m, k, s)).0
    ensures Sweep(check, m, |items|, s).0 <==> k == |items|
    ensures list(Sweep(check, m, |items|, s).1) == list(s) + items[m..k]
  {
    k := SweepStops(check, m, m, |items|, s);
    ThroughAppends(check, list, items, m, k, s);
  }

  /** In the states that `at` describes a check passes exactly where `passes` says, and leads to such a state. */
  ghost predicate Decides<S(!new)>(
    check: (nat, S) -> (bool, S), at: (nat, S) -> bool, passes: nat -> bool, n: nat)
  {
    forall i: nat, s | i < n && at(i, s) :: (check(i, s).0 <==> passes(i))
                                          && (check(i, s).0 ==> at(i + 1, check(i, s).1))
  }

  lemma {:induction false} SweepDecides<S(!new)>(
    check: (nat, S) -> (bool, S), at: (nat, S) -> bool, passes: nat -> bool, i: nat, n: nat, s: S)
    requires i <= n && at(i, s) && Decides(check, at, passes, n)
    ensures Sweep(check, i, n, s).0 <==> forall k | i <= k < n :: passes(k)
    decreases n - i
  {
    if i < n && check(i, s).0 {
      SweepDecides(check, at, passes, i + 1, n, check(i, s).1);
    }
  }

  /** The first `n` elements have the same images. */
  predicate Alike<X, Y(==)>(f: X -> Y, xs: seq<X>, ys: seq<X>, n: nat)
    requires n <= |xs| && n <= |ys|
  {
    n == 0 || (Alike(f, xs, ys, n - 1) && f(xs[n - 1]) == f(ys[n - 1]))
  }

  lemma {:induction false} AlikeBefore<X, Y>(f: X -> Y, xs: seq<X>, ys: seq<X>, m: nat, n: nat)
    requires m <= n <= |xs| && n <= |ys| && Alike(f, xs, ys, n)
    ensures Alike(f, xs, ys, m)
    decreases n
  {
    if m < n {
      AlikeBefore(f, xs, ys, m, n - 1);
    }
  }

  lemma {:induction false} AlikeExactly<X, Y>(f: X -> Y, xs: seq<X>, ys: seq<X>, n: nat)
    requires n <= |xs| && n <= |ys|
    ensures Alike(f, xs, ys, n) <==> forall i | 0 <= i < n :: f(xs[i]) == f(ys[i])
  {
    if n > 0 {
      AlikeExactly(f, xs, ys, n - 1);
    }
  }
}
