/** Weighted sums over sequences: the bookkeeping every "counts add up" statement rests on. */
module Sums {
  function SumBy<T>(s: seq<T>, w: T -> int): int {
    if s == [] then 0 else SumBy(s[..|s| - 1], w) + w(s[|s| - 1])
  }

  lemma SumSnoc<T>(s: seq<T>, x: T, w: T -> int)
    ensures SumBy(s + [x], w) == SumBy(s, w) + w(x)
  {
  }

  lemma {:induction false} SumAppend<T>(a: seq<T>, b: seq<T>, w: T -> int)
    ensures SumBy(a + b, w) == SumBy(a, w) + SumBy(b, w)
  {
    if b == [] {
      assert a + b == a;
    } else {
      var init, last := b[..|b| - 1], b[|b| - 1];
      assert a + b == (a + init) + [last];
      SumAppend(a, init, w);
      SumSnoc(a + init, last, w);
    }
  }

  lemma {:induction false} SumSame<T>(s: seq<T>, v: T -> int, w: T -> int)
    requires forall x | x in s :: v(x) == w(x)
    ensures SumBy(s, v) == SumBy(s, w)
  {
    if s != [] {
      SumSame(s[..|s| - 1], v, w);
    }
  }

  lemma {:induction false} SumSplit<T>(s: seq<T>, whole: T -> int, part: T -> int, rest: T -> int)
    requires forall x | x in s :: whole(x) == part(x) + rest(x)
    ensures SumBy(s, whole) == SumBy(s, part) + SumBy(s, rest)
  {
    if s != [] {
      SumSplit(s[..|s| - 1], whole, part, rest);
    }
  }

  /** A sum of non-negative weights vanishes exactly when every weight does. */
  lemma {:induction false} SumZeroIff<T>(s: seq<T>, w: T -> int)
    requires forall x | x in s :: w(x) >= 0
    ensures SumBy(s, w) >= 0
    ensures SumBy(s, w) == 0 <==> forall x | x in s :: w(x) == 0
  {
    if s != [] {
      var init, last := s[..|s| - 1], s[|s| - 1];
      SumZeroIff(init, w);
      assert s == init + [last] && last in s;
    }
  }

  lemma {:induction false} SumPermutes<T(!new)>(a: seq<T>, b: seq<T>, w: T -> int)
    requires multiset(a) == multiset(b)
    ensures SumBy(a, w) == SumBy(b, w)
    decreases |a|
  {
    if a == [] {
      assert |multiset(b)| == 0;
    } else {
      var init, last := a[..|a| - 1], a[|a| - 1];
      assert a == init + [last];
      assert last in multiset(b);
      var j :| 0 <= j < |b| && b[j] == last;
      var rest := b[..j] + b[j + 1..];
      assert b == b[..j] + [last] + b[j + 1..];
      assert multiset(b[..j] + [last] + b[j + 1..]) == multiset(rest) + multiset{last};
      assert multiset(init + [last]) == multiset(init) + multiset{last};
      assert multiset(rest) == multiset(b) - multiset{last};
      assert multiset(init) == multiset(a) - multiset{last};
      SumPermutes(init, rest, w);
      SumSnoc(b[..j], last, w);
      SumAppend(b[..j] + [last], b[j + 1..], w);
      SumAppend(b[..j], b[j + 1..], w);
    }
  }
}
