/** Hash chains over any kind of block: equal tips mean equal histories. */
module HashChain {
  import opened Bytes

  ghost predicate LinkedAt<B>(serial: B -> Text, prev: B -> Text, hash: Text -> Text, chain: seq<B>, i: nat)
    requires 0 < i < |chain|
  {
    prev(chain[i]) == hash(serial(chain[i - 1]))
  }

  /** Every block names the hash of the one before. */
  ghost predicate Linked<B>(serial: B -> Text, prev: B -> Text, hash: Text -> Text, chain: seq<B>)
  {
    forall i | 0 < i < |chain| :: LinkedAt(serial, prev, hash, chain, i)
  }

  /** Blocks that `ok` admits are determined by their serialization. */
  ghost predicate Faithful<B(!new)>(serial: B -> Text, ok: B -> bool)
  {
    forall x, y | ok(x) && ok(y) && serial(x) == serial(y) :: x == y
  }

  ghost predicate NoClash(hash: Text -> Text, inputs: set<Text>)
  {
    forall x, y | x in inputs && y in inputs && hash(x) == hash(y) :: x == y
  }

  ghost predicate Covered<B>(serial: B -> Text, ok: B -> bool, inputs: set<Text>, chain: seq<B>)
  {
    forall i | 0 <= i < |chain| :: ok(chain[i]) && serial(chain[i]) in inputs
  }

  lemma {:induction false} PrefixesAgree<B(!new)>(
    serial: B -> Text, prev: B -> Text, hash: Text -> Text, ok: B -> bool, inputs: set<Text>,
    a: seq<B>, b: seq<B>, n: nat)
    requires Linked(serial, prev, hash, a) && Linked(serial, prev, hash, b)
    requires Faithful(serial, ok) && NoClash(hash, inputs)
    requires Covered(serial, ok, inputs, a) && Covered(serial, ok, inputs, b)
    requires n < |a| && n < |b| && hash(serial(a[n])) == hash(serial(b[n]))
    ensures a[..n + 1] == b[..n + 1]
  {
    assert a[n] == b[n];
    if n > 0 {
      assert LinkedAt(serial, prev, hash, a, n) && LinkedAt(serial, prev, hash, b, n);
      PrefixesAgree(serial, prev, hash, ok, inputs, a, b, n - 1);
    }
    assert a[..n + 1] == a[..n] + [a[n]] && b[..n + 1] == b[..n] + [b[n]];
  }

  /** Chains of one length with one tip are equal. */
  lemma WholeAgree<B(!new)>(
    serial: B -> Text, prev: B -> Text, hash: Text -> Text, ok: B -> bool, inputs: set<Text>, a: seq<B>, b: seq<B>)
    requires Linked(serial, prev, hash, a) && Linked(serial, prev, hash, b)
    requires Faithful(serial, ok) && NoClash(hash, inputs)
    requires Covered(serial, ok, inputs, a) && Covered(serial, ok, inputs, b)
    requires |a| == |b| > 0 && a[|a| - 1] == b[|a| - 1]
    ensures a == b
  {
    PrefixesAgree(serial, prev, hash, ok, inputs, a, b, |a| - 1);
    assert a[..|a|] == a && b[..|a|] == b;
  }

  function Image<X, Y>(f: X -> Y, xs: seq<X>): set<Y>
  {
    set i | 0 <= i < |xs| :: f(xs[i])
  }

  lemma ImageHas<X, Y>(f: X -> Y, xs: seq<X>, i: nat)
    requires i < |xs|
    ensures f(xs[i]) in Image(f, xs)
  {
  }

  lemma ImageSnoc<X, Y>(f: X -> Y, xs: seq<X>, x: X)
    ensures Image(f, xs + [x]) == Image(f, xs) + {f(x)}
  {
    var ys := xs + [x];
    forall y | y in Image(f, xs) + {f(x)} ensures y in Image(f, ys) {
      if y in Image(f, xs) {
        var i :| 0 <= i < |xs| && y == f(xs[i]);
        assert ys[i] == xs[i];
      } else {
        assert ys[|xs|] == x;
      }
    }
  }
}
