/** Option and Result, as every module below uses them for Go's (value, ok) and (value, error). */
module Wrappers {
  datatype Option<+T> = None | Some(value: T)

  datatype Result<+T, +E> = Ok(value: T) | Err(error: E)
}

/** Octets, as Go's []byte holds them. */
module Octets {
  type Byte = b: int | 0 <= b < 256

  type Bytes = seq<Byte>
}

/**
 Orders and sorting. `sort.Slice` and `sort.Strings` are library calls: what their callers may rely on
 is only that the result is a permutation sorted by the comparator, so that is all `SortSlice` promises;
 `sort.SliceStable`, modelled by `SortStable`, keeps the arrival order of ties besides.
 */
module Ordering {
  ghost predicate StrictTotalOn<T(!new)>(less: (T, T) -> bool, s: multiset<T>) {
    && (forall a {:trigger less(a, a)} | a in s :: !less(a, a))
    && (forall a, b {:trigger less(a, b), less(b, a)} | a in s && b in s && a != b :: less(a, b) || less(b, a))
    && (forall a, b, c {:trigger less(a, b), less(b, c)} |
          a in s && b in s && c in s && less(a, b) && less(b, c) :: less(a, c))
  }

  /** A weak order is all `sort.Slice` asks of its comparator: ties are allowed. */
  ghost predicate WeakOrderOn<T(!new)>(less: (T, T) -> bool, s: multiset<T>) {
    && (forall a {:trigger less(a, a)} | a in s :: !less(a, a))
    && (forall a, b, c {:trigger less(a, b), less(b, c)} |
          a in s && b in s && c in s && less(a, b) && less(b, c) :: less(a, c))
    && (forall a, b, c {:trigger less(a, b), less(b, c)} |
          a in s && b in s && c in s && less(a, c) :: less(a, b) || less(b, c))
  }

  ghost predicate Sorted<T>(less: (T, T) -> bool, s: seq<T>) {
    forall i, j | 0 <= i < j < |s| :: !less(s[j], s[i])
  }

  ghost predicate SortOf<T(!new)>(less: (T, T) -> bool, input: seq<T>, output: seq<T>) {
    Sorted(less, output) && multiset(output) == multiset(input)
  }

  lemma StrictTotalIsWeak<T(!new)>(less: (T, T) -> bool, s: multiset<T>)
    requires StrictTotalOn(less, s)
    ensures WeakOrderOn(less, s)
  {
    forall a, b, c | a in s && b in s && c in s && less(a, c) ensures less(a, b) || less(b, c) {
      if !less(a, b) && a != b {
        assert less(b, a);
      }
    }
  }

  predicate Tied<T>(less: (T, T) -> bool, x: T, y: T) {
    !less(x, y) && !less(y, x)
  }

  /** The elements tied with x, in order. */
  function Ties<T>(less: (T, T) -> bool, x: T, s: seq<T>): seq<T> {
    if s == [] then [] else
      Ties(less, x, s[..|s| - 1]) + if Tied(less, x, s[|s| - 1]) then [s[|s| - 1]] else []
  }

  ghost predicate StableSortOf<T(!new)>(less: (T, T) -> bool, input: seq<T>, output: seq<T>) {
    SortOf(less, input, output) && SameTies(less, multiset(input), input, output)
  }

  ghost predicate SameTies<T(!new)>(less: (T, T) -> bool, among: multiset<T>, a: seq<T>, b: seq<T>) {
    forall x {:trigger InSameOrder(less, x, a, b)} | x in among :: InSameOrder(less, x, a, b)
  }

  predicate InSameOrder<T(==)>(less: (T, T) -> bool, x: T, a: seq<T>, b: seq<T>) {
    Ties(less, x, a) == Ties(less, x, b)
  }

  lemma {:induction false} TiesAppend<T>(less: (T, T) -> bool, x: T, a: seq<T>, b: seq<T>)
    ensures Ties(less, x, a + b) == Ties(less, x, a) + Ties(less, x, b)
  {
    if b == [] {
      assert a + b == a;
    } else {
      assert (a + b)[..|a + b| - 1] == a + b[..|b| - 1];
      TiesAppend(less, x, a, b[..|b| - 1]);
    }
  }

  lemma {:induction false} NoTies<T>(less: (T, T) -> bool, x: T, s: seq<T>)
    requires forall y | y in s :: !Tied(less, x, y)
    ensures Ties(less, x, s) == []
  {
    if s != [] { NoTies(less, x, s[..|s| - 1]); }
  }

  ghost predicate Before<T>(s: seq<T>, a: T, b: T) {
    exists i, j :: 0 <= i < j < |s| && s[i] == a && s[j] == b
  }

  lemma BeforeSnoc<T>(s: seq<T>, last: T, a: T, b: T)
    ensures Before(s + [last], a, b) <==> Before(s, a, b) || (a in s && b == last)
  {
    var longer := s + [last];
    if a in s && b == last {
      var i :| 0 <= i < |s| && s[i] == a;
      assert longer[i] == a && longer[|s|] == b;
    }
    if Before(s, a, b) {
      var i, j :| 0 <= i < j < |s| && s[i] == a && s[j] == b;
      assert longer[i] == a && longer[j] == b;
    }
    if Before(longer, a, b) {
      var i, j :| 0 <= i < j < |longer| && longer[i] == a && longer[j] == b;
      assert s[i] == a && (j < |s| ==> s[j] == b);
    }
  }

  lemma {:induction false} TiesBefore<T>(less: (T, T) -> bool, x: T, s: seq<T>, a: T, b: T)
    requires Tied(less, x, a) && Tied(less, x, b)
    ensures a in Ties(less, x, s) <==> a in s
    ensures Before(Ties(less, x, s), a, b) <==> Before(s, a, b)
  {
    if s != [] {
      var init, last := s[..|s| - 1], s[|s| - 1];
      assert s == init + [last];
      TiesBefore(less, x, init, a, b);
      BeforeSnoc(init, last, a, b);
      BeforeSnoc(Ties(less, x, init), last, a, b);
      assert Ties(less, x, s) == if Tied(less, x, last) then Ties(less, x, init) + [last] else Ties(less, x, init);
    }
  }

  /** A stable sort leaves tied elements in the order they came. */
  lemma StableKeepsOrder<T(!new)>(less: (T, T) -> bool, input: seq<T>, output: seq<T>, a: T, b: T)
    requires StableSortOf(less, input, output) && a in input && Tied(less, a, a) && Tied(less, a, b)
    ensures Before(output, a, b) <==> Before(input, a, b)
  {
    assert a in multiset(input) && InSameOrder(less, a, input, output);
    TiesBefore(less, a, input, a, b);
    TiesBefore(less, a, output, a, b);
  }

  method SortSlice<T(==, !new)>(less: (T, T) -> bool, input: seq<T>) returns (output: seq<T>)
    requires WeakOrderOn(less, multiset(input))
    ensures SortOf(less, input, output)
  {
    output := SortStable(less, input);
  }

  /** Insertion from the left, each element after those it ties with. */
  method SortStable<T(==, !new)>(less: (T, T) -> bool, input: seq<T>) returns (output: seq<T>)
    requires WeakOrderOn(less, multiset(input))
    ensures StableSortOf(less, input, output)
  {
    output := [];
    for n := 0 to |input|
      invariant Sorted(less, output)
      invariant multiset(output) == multiset(input[..n])
      invariant SameTies(less, multiset(input), input[..n], output)
    {
      assert input[..n + 1] == input[..n] + [input[n]];
      SameMembers(output, input[..n]);
      var before := output;
      output := Insert(less, input[n], before, multiset(input));
      forall x | x in multiset(input) ensures InSameOrder(less, x, input[..n + 1], output) {
        assert InSameOrder(less, x, input[..n], before);
        assert Ties(less, x, output) == Ties(less, x, before) + Ties(less, x, [input[n]]);
        TiesAppend(less, x, input[..n], [input[n]]);
      }
    }
    assert input[..|input|] == input;
  }

  method Insert<T(==, !new)>(less: (T, T) -> bool, x: T, s: seq<T>, ghost among: multiset<T>) returns (r: seq<T>)
    requires WeakOrderOn(less, among)
    requires x in among && forall y | y in s :: y in among
    requires Sorted(less, s)
    ensures Sorted(less, r)
    ensures multiset(r) == multiset(s) + multiset{x}
    ensures forall y | y in among :: Ties(less, y, r) == Ties(less, y, s) + Ties(less, y, [x])
  {
    var k := |s|;
    while k > 0 && less(x, s[k - 1])
      invariant 0 <= k <= |s|
      invariant forall j | k <= j < |s| :: less(x, s[j])
    {
      k := k - 1;
    }
    r := s[..k] + [x] + s[k..];
    InsertKeepsAll(x, s, k);
    InsertSorted(less, x, s, k, among);
    assert s == s[..k] + s[k..];
    forall y | y in among ensures Ties(less, y, r) == Ties(less, y, s) + Ties(less, y, [x]) {
      if Tied(less, y, x) { NothingTiedAbove(less, x, s[k..], among, y); }
      InsertStable(less, x, s[..k], s[k..], y);
    }
  }

  lemma AboveIsNotTied<T(!new)>(less: (T, T) -> bool, x: T, y: T, z: T, among: multiset<T>)
    requires WeakOrderOn(less, among) && x in among && y in among && z in among
    requires less(x, z) && Tied(less, y, x)
    ensures !Tied(less, y, z)
  {
    assert less(x, y) || less(y, z);
  }

  /** What is above x ties with nothing x ties with. */
  lemma NothingTiedAbove<T(!new)>(less: (T, T) -> bool, x: T, back: seq<T>, among: multiset<T>, y: T)
    requires WeakOrderOn(less, among) && x in among && y in among && Tied(less, y, x)
    requires forall z | z in back :: z in among && less(x, z)
    ensures Ties(less, y, back) == []
  {
    forall z | z in back ensures !Tied(less, y, z) { AboveIsNotTied(less, x, y, z, among); }
    NoTies(less, y, back);
  }

  lemma EitherEmpty<T>(a: seq<T>, b: seq<T>, c: seq<T>)
    requires b == [] || c == []
    ensures a + b + c == a + c + b
  {
  }

  lemma InsertStable<T>(less: (T, T) -> bool, x: T, front: seq<T>, back: seq<T>, y: T)
    requires Tied(less, y, x) ==> Ties(less, y, back) == []
    ensures Ties(less, y, front + [x] + back) == Ties(less, y, front + back) + Ties(less, y, [x])
  {
    TiesAround(less, y, front, [x], back);
    if !Tied(less, y, x) { NoTies(less, y, [x]); }
    EitherEmpty(Ties(less, y, front), Ties(less, y, [x]), Ties(less, y, back));
  }

  lemma TiesAround<T>(less: (T, T) -> bool, y: T, front: seq<T>, mid: seq<T>, back: seq<T>)
    ensures Ties(less, y, front + mid + back) == Ties(less, y, front) + Ties(less, y, mid) + Ties(less, y, back)
    ensures Ties(less, y, front + back) == Ties(less, y, front) + Ties(less, y, back)
  {
    TiesAppend(less, y, front + mid, back);
    TiesAppend(less, y, front, mid);
    TiesAppend(less, y, front, back);
  }

  lemma InsertKeepsAll<T>(x: T, s: seq<T>, k: nat)
    requires k <= |s|
    ensures multiset(s[..k] + [x] + s[k..]) == multiset(s) + multiset{x}
  {
    assert s == s[..k] + s[k..];
  }

  lemma InsertSorted<T(!new)>(less: (T, T) -> bool, x: T, s: seq<T>, k: nat, among: multiset<T>)
    requires WeakOrderOn(less, among)
    requires x in among && forall y | y in s :: y in among
    requires Sorted(less, s)
    requires k <= |s| && forall j | k <= j < |s| :: less(x, s[j])
    requires k > 0 ==> !less(x, s[k - 1])
    ensures Sorted(less, s[..k] + [x] + s[k..])
  {
  }

  /** Sorting by a strict total order has exactly one outcome, whatever order the input came in. */
  lemma SortUnique<T(!new)>(less: (T, T) -> bool, a: seq<T>, b: seq<T>)
    requires multiset(a) == multiset(b)
    requires StrictTotalOn(less, multiset(a))
    requires Sorted(less, a) && Sorted(less, b)
    ensures a == b
  {
    SortUniqueAmong(less, a, b, multiset(a));
  }

  lemma {:induction false} SortUniqueAmong<T(!new)>(less: (T, T) -> bool, a: seq<T>, b: seq<T>, among: multiset<T>)
    requires multiset(a) == multiset(b)
    requires StrictTotalOn(less, among) && forall x | x in a :: x in among
    requires Sorted(less, a) && Sorted(less, b)
    ensures a == b
  {
    assert |a| == |multiset(a)| == |multiset(b)| == |b|;
    if |a| > 0 {
      LeastFirst(less, a, b, among);
      TailsMatch(less, a, b);
      SortUniqueAmong(less, a[1..], b[1..], among);
      assert a == [a[0]] + a[1..] && b == [b[0]] + b[1..];
    }
  }

  lemma TailsMatch<T>(less: (T, T) -> bool, a: seq<T>, b: seq<T>)
    requires |a| > 0 && |b| > 0 && a[0] == b[0] && multiset(a) == multiset(b)
    requires Sorted(less, a) && Sorted(less, b)
    ensures multiset(a[1..]) == multiset(b[1..])
    ensures Sorted(less, a[1..]) && Sorted(less, b[1..])
  {
    TailMultiset(a);
    TailMultiset(b);
  }

  lemma TailMultiset<T>(a: seq<T>)
    requires |a| > 0
    ensures multiset(a[1..]) == multiset(a) - multiset{a[0]}
  {
    assert a == [a[0]] + a[1..];
  }

  lemma LeastFirst<T(!new)>(less: (T, T) -> bool, a: seq<T>, b: seq<T>, among: multiset<T>)
    requires multiset(a) == multiset(b) && |a| > 0 && |b| > 0
    requires StrictTotalOn(less, among) && forall x | x in a :: x in among
    requires Sorted(less, a) && Sorted(less, b)
    ensures a[0] == b[0]
  {
    assert a[0] in multiset(b) && b[0] in multiset(a);
    var i :| 0 <= i < |a| && a[i] == b[0];
    var j :| 0 <= j < |b| && b[j] == a[0];
    assert !less(a[0], a[0]) && !less(b[0], b[0]);
    assert !less(a[i], a[0]) && !less(b[j], b[0]);
  }

  /** Go's string order, on the ASCII text modelled here: byte by byte, a prefix before its extensions. */
  predicate StrLess(a: string, b: string) {
    b != [] && (a == [] || a[0] < b[0] || (a[0] == b[0] && StrLess(a[1..], b[1..])))
  }

  /** The texts agree up to k, where the first ends or has the smaller character. */
  predicate DiffersAt(a: string, b: string, k: nat) {
    && k <= |a| && k < |b| && a[..k] == b[..k]
    && (k < |a| ==> a[k] < b[k])
  }

  lemma {:induction false} StrLessIff(a: string, b: string)
    ensures StrLess(a, b) <==> exists k: nat :: DiffersAt(a, b, k)
  {
    if b != [] && (a == [] || a[0] < b[0]) {
      assert DiffersAt(a, b, 0);
    } else if b != [] && a[0] == b[0] {
      StrLessIff(a[1..], b[1..]);
      assert a == [a[0]] + a[1..] && b == [b[0]] + b[1..];
      if k: nat :| DiffersAt(a[1..], b[1..], k) {
        assert a[..k + 1] == [a[0]] + a[1..][..k] && b[..k + 1] == [b[0]] + b[1..][..k];
        assert DiffersAt(a, b, k + 1);
      }
      if k: nat :| DiffersAt(a, b, k) {
        assert k > 0 && a[..k][1..] == a[1..][..k - 1] && b[..k][1..] == b[1..][..k - 1];
        assert DiffersAt(a[1..], b[1..], k - 1);
      }
    }
  }

  lemma {:induction false} StrIrreflexive(a: string)
    ensures !StrLess(a, a)
  {
    if a != [] { StrIrreflexive(a[1..]); }
  }

  lemma {:induction false} StrConnected(a: string, b: string)
    requires a != b
    ensures StrLess(a, b) || StrLess(b, a)
  {
    if a != [] && b != [] && a[0] == b[0] {
      assert a == [a[0]] + a[1..] && b == [b[0]] + b[1..];
      StrConnected(a[1..], b[1..]);
    }
  }

  lemma {:induction false} StrTransitive(a: string, b: string, c: string)
    requires StrLess(a, b) && StrLess(b, c)
    ensures StrLess(a, c)
  {
    if a != [] && a[0] == b[0] && b[0] == c[0] {
      StrTransitive(a[1..], b[1..], c[1..]);
    }
  }

  lemma StrOrder(s: multiset<string>)
    ensures StrictTotalOn(StrLess, s)
  {
    forall a | a in s ensures !StrLess(a, a) { StrIrreflexive(a); }
    forall a, b | a in s && b in s && a != b ensures StrLess(a, b) || StrLess(b, a) { StrConnected(a, b); }
    forall a, b, c | a in s && b in s && c in s && StrLess(a, b) && StrLess(b, c) ensures StrLess(a, c) {
      StrTransitive(a, b, c);
    }
  }

  /** `sort.Strings`: a string order is total, so the outcome depends on the multiset alone. */
  method SortStrings(input: seq<string>) returns (output: seq<string>)
    ensures SortOf(StrLess, input, output)
  {
    StrOrder(multiset(input));
    StrictTotalIsWeak(StrLess, multiset(input));
    output := SortSlice(StrLess, input);
  }

  lemma SortedStringsUnique(a: seq<string>, b: seq<string>)
    requires multiset(a) == multiset(b) && Sorted(StrLess, a) && Sorted(StrLess, b)
    ensures a == b
  {
    StrOrder(multiset(a));
    SortUnique(StrLess, a, b);
  }

  // ------------------------------------------------------------------ lists without repeats

  ghost predicate NoRepeats<T(!new)>(s: seq<T>) {
    forall i, j | 0 <= i < j < |s| :: s[i] != s[j]
  }

  lemma {:induction false} OnceEach<T(!new)>(s: seq<T>, x: T)
    requires NoRepeats(s)
    ensures multiset(s)[x] == if x in s then 1 else 0
  {
    if s != [] {
      var init, last := s[..|s| - 1], s[|s| - 1];
      assert s == init + [last] && last !in init;
      OnceEach(init, x);
    }
  }

  lemma AtTwoPlaces<T>(s: seq<T>, i: nat, j: nat)
    requires i < j < |s|
    ensures s[i] == s[j] ==> multiset(s)[s[i]] >= 2
  {
    assert s == s[..j] + [s[j]] + s[j + 1..];
    assert s[i] in s[..j];
  }

  lemma SameMembers<T(!new)>(a: seq<T>, b: seq<T>)
    requires multiset(a) == multiset(b)
    ensures forall x :: x in a <==> x in b
  {
    forall x ensures x in a <==> x in b {
      assert x in a <==> x in multiset(a);
      assert x in b <==> x in multiset(b);
    }
  }

  /** Lists without repeats that hold the same things are permutations of each other. */
  lemma SameDistinct<T(!new)>(a: seq<T>, b: seq<T>)
    requires NoRepeats(a) && NoRepeats(b) && forall x :: x in a <==> x in b
    ensures multiset(a) == multiset(b) && |a| == |b|
  {
    forall x ensures multiset(a)[x] == multiset(b)[x] {
      OnceEach(a, x);
      OnceEach(b, x);
    }
    assert |multiset(a)| == |a| && |multiset(b)| == |b|;
  }

  /** Sorting a list without repeats by a total order makes it strictly increasing. */
  lemma SortedDistinct<T(!new)>(less: (T, T) -> bool, input: seq<T>, output: seq<T>)
    requires NoRepeats(input) && SortOf(less, input, output) && StrictTotalOn(less, multiset(input))
    ensures forall x :: x in output <==> x in input
    ensures forall i, j | 0 <= i < j < |output| :: less(output[i], output[j]) && output[i] != output[j]
  {
    SameMembers(input, output);
    forall i, j | 0 <= i < j < |output| ensures less(output[i], output[j]) && output[i] != output[j] {
      AtTwoPlaces(output, i, j);
      OnceEach(input, output[i]);
      assert output[i] in multiset(input) && output[j] in multiset(input);
      assert !less(output[j], output[i]);
    }
  }
}
