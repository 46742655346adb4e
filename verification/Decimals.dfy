/** Decimal numbers and texts joined by separators, as they are signed and hashed. */
module Decimals {
  import opened Bytes

  const COLON: byte := 58
  const COMMA: byte := 44

  function Decimal(n: nat): (d: Text)
    ensures d != [] && forall i | 0 <= i < |d| :: 48 <= d[i] <= 57
  {
    if n < 10 then [48 + n] else Decimal(n / 10) + [48 + n % 10]
  }

  lemma {:induction false} DecimalInjective(m: nat, n: nat)
    requires Decimal(m) == Decimal(n)
    ensures m == n
  {
    var d := Decimal(m);
    if m >= 10 && n >= 10 {
      assert d[..|d| - 1] == Decimal(m / 10) == Decimal(n / 10);
      DecimalInjective(m / 10, n / 10);
    }
    assert m % 10 == d[|d| - 1] - 48 == n % 10;
  }

  lemma DecimalDigits(n: nat)
    ensures COLON !in Decimal(n)
  {
  }

  lemma FirstSeparator(sep: byte, a: Text, b: Text)
    requires sep !in a
    ensures (a + [sep] + b)[|a|] == sep && forall i | 0 <= i < |a| :: (a + [sep] + b)[i] != sep
  {
    forall i | 0 <= i < |a| ensures (a + [sep] + b)[i] != sep {
      assert (a + [sep] + b)[i] == a[i];
    }
  }

  /** Two texts with one separator each, first occurring after them, split at the same place. */
  lemma SplitAt(sep: byte, a: Text, b: Text, a': Text, b': Text)
    requires sep !in a && sep !in a' && a + [sep] + b == a' + [sep] + b'
    ensures a == a' && b == b'
  {
    var s, t := a + [sep] + b, a' + [sep] + b';
    FirstSeparator(sep, a, b);
    FirstSeparator(sep, a', b');
    assert s[..|a|] == a && t[..|a'|] == a' && s[|a| + 1..] == b && t[|a'| + 1..] == b';
  }

  lemma LastSeparator(sep: byte, a: Text, b: Text)
    requires sep !in b
    ensures (a + [sep] + b)[|a|] == sep && forall i | |a| < i < |a + [sep] + b| :: (a + [sep] + b)[i] != sep
  {
    forall i | |a| < i < |a + [sep] + b| ensures (a + [sep] + b)[i] != sep {
      assert (a + [sep] + b)[i] == b[i - |a| - 1];
    }
  }

  /** Two texts split at their last separators alike. */
  lemma SplitAtLast(sep: byte, a: Text, b: Text, a': Text, b': Text)
    requires sep !in b && sep !in b' && a + [sep] + b == a' + [sep] + b'
    ensures a == a' && b == b'
  {
    var s, t := a + [sep] + b, a' + [sep] + b';
    LastSeparator(sep, a, b);
    LastSeparator(sep, a', b');
    assert |a| == |a'|;
    assert s[..|a|] == a && t[..|a'|] == a' && s[|a| + 1..] == b && t[|a'| + 1..] == b';
  }
}
