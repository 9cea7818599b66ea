/**
 The dashboard end to end: over an abstract table and the GROUP BY of each facet's column, the report's
 buckets add up to the cells grouped and each counts the cells it stands for.
 */
module Dashboard {
  import opened Wrappers
  import opened Ordering
  import opened Sums
  import opened Facets
  import opened Stats
  import opened Ranking
  import opened Assembly
  import ChartOrder
  import Conservation
  import Selection
  import Text

  /** One facet's column over the visible rows, as SQL shows it: None is NULL. */
  type Column = seq<Option<string>>

  type Condition = Option<string> -> bool

  function Weigh(p: Condition): Option<string> -> int {
    (v: Option<string>) => if p(v) then 1 else 0
  }

  /** How many rows a filter returns. */
  function RowsWhere(col: Column, p: Condition): int {
    SumBy(col, Weigh(p))
  }

  function AtKeys(p: Condition): Group -> int {
    (g: Group) => if p(g.key) then g.count else 0
  }

  /**
   GROUP BY of a column: one row per key, every value present, each counted. A key nobody holds may
   appear with count zero, as a LEFT JOIN from a catalog yields.
   */
  ghost predicate IsGroupBy(col: Column, gs: seq<Group>) {
    && (forall i, j | 0 <= i < j < |gs| :: gs[i].key != gs[j].key)
    && (forall i | 0 <= i < |gs| :: gs[i].count == multiset(col)[gs[i].key])
    && (forall v | v in col :: exists i :: 0 <= i < |gs| && gs[i].key == v)
  }

  lemma {:induction false} ChangeOne(gs: seq<Group>, i: nat, n: int, w: Group -> int)
    requires i < |gs|
    ensures SumBy(gs[i := gs[i].(count := n)], w) == SumBy(gs, w) - w(gs[i]) + w(gs[i].(count := n))
  {
    var hs := gs[i := gs[i].(count := n)];
    if i < |gs| - 1 {
      ChangeOne(gs[..|gs| - 1], i, n, w);
      assert hs[..|gs| - 1] == gs[..|gs| - 1][i := gs[i].(count := n)];
    } else {
      assert hs[..|gs| - 1] == gs[..|gs| - 1];
    }
  }

  lemma DropRow(col: Column, gs: seq<Group>, i: nat)
    requires IsGroupBy(col, gs) && col != [] && i < |gs| && gs[i].key == col[|col| - 1]
    ensures IsGroupBy(col[..|col| - 1], gs[i := gs[i].(count := gs[i].count - 1)])
  {
    var init, last := col[..|col| - 1], col[|col| - 1];
    var hs := gs[i := gs[i].(count := gs[i].count - 1)];
    assert col == init + [last];
    forall j | 0 <= j < |hs| ensures hs[j].count == multiset(init)[hs[j].key] {
      assert multiset(col)[gs[j].key] == multiset(init)[gs[j].key] + if gs[j].key == last then 1 else 0;
    }
    forall v | v in init ensures exists j :: 0 <= j < |hs| && hs[j].key == v {
      assert v in col;
      var j :| 0 <= j < |gs| && gs[j].key == v;
      assert hs[j].key == v;
    }
  }

  /** Whatever is asked of the key, the groups that answer yes count the rows that do. */
  lemma {:induction false} GroupsCountRows(col: Column, gs: seq<Group>, p: Condition)
    requires IsGroupBy(col, gs)
    ensures SumBy(gs, AtKeys(p)) == RowsWhere(col, p)
    decreases |col|
  {
    if col == [] {
      assert forall g | g in gs :: AtKeys(p)(g) == 0;
      SumZeroIff(gs, AtKeys(p));
    } else {
      var last := col[|col| - 1];
      assert last in col;
      var i :| 0 <= i < |gs| && gs[i].key == last;
      DropRow(col, gs, i);
      ChangeOne(gs, i, gs[i].count - 1, AtKeys(p));
      GroupsCountRows(col[..|col| - 1], gs[i := gs[i].(count := gs[i].count - 1)], p);
    }
  }

  lemma {:induction false} AllRows(col: Column)
    ensures RowsWhere(col, v => true) == |col|
  {
    if col != [] {
      AllRows(col[..|col| - 1]);
    }
  }

  function Holds(k: string): Condition {
    (v: Option<string>) => v == Some(k)
  }

  function IsNull(): Condition {
    (v: Option<string>) => v.None?
  }

  lemma CountsAreRows(col: Column, gs: seq<Group>)
    requires IsGroupBy(col, gs)
    ensures Total(gs) == |col|
    ensures NullCount(gs) == RowsWhere(col, IsNull())
    ensures forall k :: CountOf(gs, k) == RowsWhere(col, Holds(k))
  {
    GroupsCountRows(col, gs, v => true);
    SumSame(gs, Whole, AtKeys(v => true));
    AllRows(col);
    GroupsCountRows(col, gs, IsNull());
    SumSame(gs, AtNull, AtKeys(IsNull()));
    forall k ensures CountOf(gs, k) == RowsWhere(col, Holds(k)) {
      GroupsCountRows(col, gs, Holds(k));
      SumSame(gs, AtKey(k), AtKeys(Holds(k)));
    }
  }

  lemma CountsAreNonNegative(col: Column, gs: seq<Group>)
    requires IsGroupBy(col, gs)
    ensures Conservation.NonNegative(gs)
  {
  }

  // ------------------------------------------------------------------ the top-N aggregate

  function Values(col: Column): set<string> {
    set v | v in col && v.Some? :: v.value
  }

  /** The ranking of the aggregate's window: most rows first, then by key. */
  predicate Before(col: Column, a: string, b: string) {
    var m, n := multiset(col)[Some(a)], multiset(col)[Some(b)];
    m > n || (m == n && StrLess(a, b))
  }

  ghost function Ahead(col: Column, v: string): set<string> {
    set w | w in Values(col) && Before(col, w, v)
  }

  /** A value keeps its own bucket when fewer than `cutoff` values rank before it. */
  ghost predicate Kept(col: Column, cutoff: int, v: string) {
    |Ahead(col, v)| < cutoff
  }

  /** The values kept apart by a cutoff. */
  ghost function KeptSet(col: Column, cutoff: int): set<string> {
    set v | v in Values(col) && Kept(col, cutoff, v)
  }

  function Shown(kept: set<string>, v: Option<string>): Option<string> {
    if v.None? then Some(UNKNOWN) else if v.value in kept then v else Some(OTHER)
  }

  /** The column a top-N aggregate groups in the end, whichever values its window keeps. */
  function Collapsed(col: Column, kept: set<string>): Column {
    seq(|col|, i requires 0 <= i < |col| => Shown(kept, col[i]))
  }

  lemma BeforeIsTotal(col: Column, a: string, b: string)
    ensures !Before(col, a, a)
    ensures a != b ==> Before(col, a, b) || Before(col, b, a)
  {
    StrIrreflexive(a);
    if a != b { StrConnected(a, b); }
  }

  lemma BeforeTransitive(col: Column, a: string, b: string, c: string)
    requires Before(col, a, b) && Before(col, b, c)
    ensures Before(col, a, c)
  {
    if StrLess(a, b) && StrLess(b, c) { StrTransitive(a, b, c); }
  }

  lemma SmallerSet<T>(a: set<T>, b: set<T>, x: T)
    requires a <= b && x in b && x !in a
    ensures |a| < |b|
  {
    assert a <= b - {x};
    SubsetSize(a, b - {x});
  }

  lemma {:induction false} SubsetSize<T>(a: set<T>, b: set<T>)
    requires a <= b
    ensures |a| <= |b|
    decreases |a|
  {
    if a != {} {
      var x :| x in a;
      SubsetSize(a - {x}, b - {x});
    }
  }

  lemma AheadShrinks(col: Column, a: string, b: string)
    requires a in Values(col) && Before(col, a, b)
    ensures |Ahead(col, a)| < |Ahead(col, b)|
  {
    forall w | w in Ahead(col, a) ensures w in Ahead(col, b) { BeforeTransitive(col, w, a, b); }
    BeforeIsTotal(col, a, a);
    SmallerSet(Ahead(col, a), Ahead(col, b), a);
  }

  /** What is folded into "(other)" is never more frequent than what is shown; of equals, the lesser keys are shown. */
  lemma KeptAreLargest(col: Column, cutoff: int, a: string, b: string)
    requires a in Values(col) && b in Values(col)
    requires Kept(col, cutoff, a) && !Kept(col, cutoff, b)
    ensures multiset(col)[Some(a)] >= multiset(col)[Some(b)]
    ensures multiset(col)[Some(a)] == multiset(col)[Some(b)] ==> StrLess(a, b)
  {
    if Before(col, b, a) {
      AheadShrinks(col, b, a);
    } else {
      BeforeIsTotal(col, a, b);
    }
  }

  lemma RanksDiffer(col: Column, a: string, b: string)
    requires a in Values(col) && b in Values(col) && a != b
    ensures |Ahead(col, a)| != |Ahead(col, b)|
  {
    BeforeIsTotal(col, a, b);
    if Before(col, a, b) { AheadShrinks(col, a, b); } else { AheadShrinks(col, b, a); }
  }

  lemma OneAtRank(col: Column, n: nat)
    ensures KeptSet(col, n) <= KeptSet(col, n + 1) && |KeptSet(col, n + 1) - KeptSet(col, n)| <= 1
  {
    var next := KeptSet(col, n + 1) - KeptSet(col, n);
    if v :| v in next {
      forall w | w in next ensures w == v {
        if w != v { RanksDiffer(col, v, w); }
      }
      assert next == {v};
    }
  }

  lemma OneMoreAtMost<T>(small: set<T>, big: set<T>)
    requires small <= big && |big - small| <= 1
    ensures |big| <= |small| + 1
  {
  }

  lemma NoneAtZero(col: Column)
    ensures |KeptSet(col, 0)| == 0
  {
    assert forall v :: v !in KeptSet(col, 0);
  }

  lemma OneMoreKept(col: Column, n: nat)
    ensures |KeptSet(col, n + 1)| <= |KeptSet(col, n)| + 1
  {
    OneAtRank(col, n);
    OneMoreAtMost(KeptSet(col, n), KeptSet(col, n + 1));
  }

  lemma {:induction false} FewerRanksFewerKept(col: Column, n: nat, m: nat)
    requires n <= m
    ensures |KeptSet(col, m)| <= |KeptSet(col, n)| + m - n
  {
    if n < m {
      FewerRanksFewerKept(col, n, m - 1);
      OneMoreKept(col, m - 1);
    }
  }

  lemma AllKept(col: Column, n: nat)
    requires |Values(col)| <= n
    ensures KeptSet(col, n) == Values(col)
  {
    forall v | v in Values(col) ensures Kept(col, n, v) {
      BeforeIsTotal(col, v, v);
      SmallerSet(Ahead(col, v), Values(col), v);
    }
  }

  /** The window shows exactly as many values as the cutoff asks for, or all of them when there are fewer. */
  lemma KeepsTheCutoff(col: Column, cutoff: nat)
    ensures |KeptSet(col, cutoff)| == if cutoff < |Values(col)| then cutoff else |Values(col)|
  {
    var all := |Values(col)|;
    if cutoff < all {
      NoneAtZero(col);
      FewerRanksFewerKept(col, 0, cutoff);
      AllKept(col, all);
      FewerRanksFewerKept(col, cutoff, all);
    } else {
      AllKept(col, cutoff);
    }
  }

  // ------------------------------------------------------------------ one facet

  /** The cells a catalog's branch can count: the listed values, and NULL. */
  function Live(col: Column, listed: set<string>): Column {
    if col == [] then [] else
      var v := col[|col| - 1];
      Live(col[..|col| - 1], listed) + if v.Some? ==> v.value in listed then [v] else []
  }

  ghost function Displayed(f: Facet, kept: set<string>, col: Column): Column {
    if f.buckets.strategy.TopN? then Collapsed(col, kept)
    else if f.buckets.strategy.Catalog? then Live(col, kept)
    else col
  }

  ghost predicate AllListed(kept: set<string>, gs: seq<Group>) {
    && (forall g | g in gs :: g.key.Some? ==> g.key.value in kept)
    && forall k | k in kept :: exists i :: 0 <= i < |gs| && gs[i].key == Some(k)
  }

  /**
   What one facet's branch of the query returns, `kept` being the values its window keeps apart or, for a
   catalog, the live entries it joins from: each is listed, held or not, and nothing else is counted.
   */
  ghost predicate IsBranch(f: Facet, kept: set<string>, col: Column, gs: seq<Group>) {
    && IsGroupBy(Displayed(f, kept, col), gs)
    && if f.buckets.strategy.Catalog? then AllListed(kept, gs)
       else forall g | g in gs :: g.key in Displayed(f, kept, col)
  }

  /**
   No row holds a value declared more than once; no row of a bool column is neither true nor false; no row of
   a catalog's column holds an entry the catalog no longer lists.
   */
  ghost predicate FaithfulColumn(f: Facet, kept: set<string>, col: Column) {
    match f.buckets.strategy
    case Identity => forall v | v in col && v.Some? :: multiset(f.values)[v.value] <= 1
    case BoolPair => forall v | v in col && v.Some? :: v.value == "true" || v.value == "false"
    case Catalog => forall v | v in col && v.Some? :: v.value in kept
    case _ => true
  }

  lemma FaithfulIff(f: Facet, kept: set<string>, col: Column, gs: seq<Group>)
    requires IsBranch(f, kept, col, gs) && !f.buckets.strategy.Catalog?
    ensures Conservation.Faithful(f, gs) <==> FaithfulColumn(f, kept, col)
  {
  }

  ghost function Folded(kept: set<string>): Condition {
    (v: Option<string>) => v.Some? && v.value !in kept
  }

  lemma {:induction false} LiveLength(col: Column, listed: set<string>)
    ensures |Live(col, listed)| == |col| - RowsWhere(col, Folded(listed))
  {
    if col != [] { LiveLength(col[..|col| - 1], listed); }
  }

  lemma NoneFolded(col: Column, kept: set<string>)
    ensures RowsWhere(col, Folded(kept)) >= 0
    ensures RowsWhere(col, Folded(kept)) == 0 <==> forall v | v in col && v.Some? :: v.value in kept
  {
    SumZeroIff(col, Weigh(Folded(kept)));
    assert forall v | v in col :: Weigh(Folded(kept))(v) == 0 <==> !Folded(kept)(v);
  }

  /** A catalog's buckets fall short of the rows by exactly those that hold an unlisted entry. */
  lemma CatalogShortfall(f: Facet, kept: set<string>, col: Column, gs: seq<Group>, out: seq<Bucket>)
    requires f.buckets.strategy.Catalog? && IsBranch(f, kept, col, gs) && IsBuckets(f, gs, out)
    ensures BucketTotal(out) == |col| - RowsWhere(col, Folded(kept))
  {
    CountsAreNonNegative(Live(col, kept), gs);
    CountsAreRows(Live(col, kept), gs);
    Conservation.ConservesIff(f, gs, out);
    LiveLength(col, kept);
  }

  /** A facet's buckets add up to the rows behind it, exactly when its column is faithful to its declaration. */
  lemma BranchAddsUpIff(f: Facet, kept: set<string>, col: Column, gs: seq<Group>, out: seq<Bucket>)
    requires Conservation.KnownStrategy(f.buckets.strategy)
    requires IsBranch(f, kept, col, gs) && IsBuckets(f, gs, out)
    ensures BucketTotal(out) == |col| <==> FaithfulColumn(f, kept, col)
  {
    if f.buckets.strategy.Catalog? {
      CatalogShortfall(f, kept, col, gs, out);
      NoneFolded(col, kept);
    } else {
      CountsAreNonNegative(Displayed(f, kept, col), gs);
      CountsAreRows(Displayed(f, kept, col), gs);
      Conservation.ConservesIff(f, gs, out);
      FaithfulIff(f, kept, col, gs);
    }
  }

  // ------------------------------------------------------------------ a bucket and its own filter

  lemma {:induction false} SameRowsWhere(a: Column, b: Column, p: Condition, q: Condition)
    requires |a| == |b| && forall i | 0 <= i < |a| :: p(a[i]) == q(b[i])
    ensures RowsWhere(a, p) == RowsWhere(b, q)
  {
    if a != [] {
      SameRowsWhere(a[..|a| - 1], b[..|b| - 1], p, q);
    }
  }

  /** The cells a bucket stands for: NULL for "(unknown)", the unshown tail for a top-N "(other)", else its key. */
  ghost function CellsOf(f: Facet, kept: set<string>, key: string): Condition {
    if key == UNKNOWN then IsNull()
    else if key == OTHER && f.buckets.strategy.TopN? then Folded(kept)
    else Holds(key)
  }

  /** Neither the data nor the declared values use the two synthetic keys. */
  ghost predicate NoSyntheticValues(f: Facet, col: Column) {
    && Some(UNKNOWN) !in col && Some(OTHER) !in col
    && (f.buckets.strategy.Identity? ==> UNKNOWN !in f.values)
  }

  lemma CountedMatch(f: Facet, col: Column, gs: seq<Group>, keys: seq<string>, out: seq<Bucket>, i: nat)
    requires IsGroupBy(col, gs) && UNKNOWN !in keys && i < |out|
    requires out == Counted(gs, keys) + UnknownTail(f, NullCount(gs))
    ensures out[i].count == RowsWhere(col, if out[i].key == UNKNOWN then IsNull() else Holds(out[i].key))
  {
    CountsAreRows(col, gs);
    if i < |keys| {
      assert out[i].key == keys[i] && keys[i] in keys;
    } else {
      assert out[i] == Bucket(UNKNOWN, NullCount(gs));
    }
  }

  lemma UnseenKey(col: Column, gs: seq<Group>, k: string)
    requires IsGroupBy(col, gs) && Some(k) !in col && forall g | g in gs :: g.key in col
    ensures k !in FirstSeen(gs)
  {
    FirstSeenIs(gs);
  }

  lemma FlatMatch(f: Facet, kept: set<string>, col: Column, gs: seq<Group>, out: seq<Bucket>, i: nat)
    requires f.buckets.strategy.Identity? || f.buckets.strategy.BoolPair? || f.buckets.strategy.DateTrunc?
    requires IsBranch(f, kept, col, gs) && IsBuckets(f, gs, out) && NoSyntheticValues(f, col) && i < |out|
    ensures out[i].count == RowsWhere(col, CellsOf(f, kept, out[i].key))
  {
    UnseenKey(col, gs, UNKNOWN);
    match f.buckets.strategy {
      case Identity =>
        FirstSeenIs(gs);
        Conservation.UndeclaredIs(FirstSeen(gs), f.values);
        CountedMatch(f, col, gs, f.values + Undeclared(FirstSeen(gs), f.values), out, i);
      case BoolPair =>
        CountedMatch(f, col, gs, ["true", "false"], out, i);
      case DateTrunc =>
        var keys :| SortOf(StrLess, FirstSeen(gs), keys) && out == Counted(gs, keys) + UnknownTail(f, NullCount(gs));
        assert UNKNOWN in keys <==> UNKNOWN in multiset(keys);
        CountedMatch(f, col, gs, keys, out, i);
    }
  }

  /** A row of a ranked chart is one of the groups, with that group's count. */
  lemma RankedRowCount(gs: seq<Group>, reserved: set<string>, rows: seq<Row>, less: (Row, Row) -> bool, i: nat)
    requires SortOf(less, RealRows(gs, reserved), rows) && i < |rows|
    ensures exists g :: g in gs && IsReal(g, reserved) && rows[i] == RowOf(g)
  {
    ChartOrder.RealRowsHold(gs, reserved);
    assert rows[i] in multiset(rows);
    assert rows[i] in RealRows(gs, reserved);
  }

  lemma GroupCount(col: Column, gs: seq<Group>, g: Group)
    requires IsGroupBy(col, gs) && g in gs && g.key.Some?
    ensures g.count == RowsWhere(col, Holds(g.key.value))
  {
    KeyRows(col, g.key.value);
  }

  lemma {:induction false} KeyRows(col: Column, k: string)
    ensures RowsWhere(col, Holds(k)) == multiset(col)[Some(k)]
  {
    if col != [] {
      KeyRows(col[..|col| - 1], k);
      assert col == col[..|col| - 1] + [col[|col| - 1]];
    }
  }

  lemma UnknownIsNull(col: Column, shown: Column, gs: seq<Group>)
    requires IsGroupBy(shown, gs) && |shown| == |col|
    requires forall i | 0 <= i < |col| :: (shown[i].None? || shown[i].value == UNKNOWN) == col[i].None?
    ensures UnknownCount(gs) == RowsWhere(col, IsNull())
  {
    var p := (v: Option<string>) => v.None? || v.value == UNKNOWN;
    GroupsCountRows(shown, gs, p);
    SumSame(gs, AtUnknown, AtKeys(p));
    SameRowsWhere(shown, col, p, IsNull());
  }

  lemma LiveSnoc(col: Column, listed: set<string>)
    requires col != []
    ensures Live(col, listed) == Live(col[..|col| - 1], listed) +
      if Folded(listed)(col[|col| - 1]) then [] else [col[|col| - 1]]
  {
  }

  lemma AppendIf(s: Column, v: Option<string>, skip: bool, p: Condition)
    requires skip ==> !p(v)
    ensures RowsWhere(s + if skip then [] else [v], p) == RowsWhere(s, p) + Weigh(p)(v)
  {
    if skip { assert s + [] == s; } else { SumSnoc(s, v, Weigh(p)); }
  }

  /** A condition no unlisted cell meets counts the same whether those cells are there or not. */
  lemma {:induction false} LiveWhere(col: Column, listed: set<string>, p: Condition)
    requires forall v | v in col :: !(Folded(listed)(v) && p(v))
    ensures RowsWhere(Live(col, listed), p) == RowsWhere(col, p)
  {
    if col != [] {
      var v := col[|col| - 1];
      LiveWhere(col[..|col| - 1], listed, p);
      LiveSnoc(col, listed);
      AppendIf(Live(col[..|col| - 1], listed), v, Folded(listed)(v), p);
    }
  }

  lemma {:induction false} LiveOnly(col: Column, listed: set<string>)
    ensures forall v :: v in Live(col, listed) <==> v in col && !Folded(listed)(v)
  {
    if col != [] {
      LiveOnly(col[..|col| - 1], listed);
      assert col == col[..|col| - 1] + [col[|col| - 1]];
    }
  }

  lemma CatalogRowMatch(col: Column, listed: set<string>, gs: seq<Group>, g: Group)
    requires IsGroupBy(Live(col, listed), gs) && g in gs && g.key.Some? && g.key.value in listed
    ensures g.count == RowsWhere(col, Holds(g.key.value))
  {
    GroupCount(Live(col, listed), gs, g);
    LiveWhere(col, listed, Holds(g.key.value));
  }

  lemma CatalogTailMatch(col: Column, listed: set<string>, gs: seq<Group>)
    requires IsGroupBy(Live(col, listed), gs) && Some(UNKNOWN) !in col
    ensures UnknownCount(gs) == RowsWhere(col, IsNull())
  {
    LiveOnly(col, listed);
    LiveWhere(col, listed, IsNull());
    UnknownIsNull(Live(col, listed), Live(col, listed), gs);
  }

  lemma CatalogMatch(f: Facet, kept: set<string>, col: Column, gs: seq<Group>, out: seq<Bucket>, i: nat)
    requires f.buckets.strategy.Catalog?
    requires IsBranch(f, kept, col, gs) && IsBuckets(f, gs, out) && NoSyntheticValues(f, col) && i < |out|
    ensures out[i].count == RowsWhere(col, CellsOf(f, kept, out[i].key))
  {
    var listed := RealRows(gs, CATALOG_RESERVED);
    var rows :| StableSortOf(ByOrdinal, listed, rows)
      && out == Emitted(rows) + Tail(SawUnknown(gs) || f.buckets.includeUnknown, UNKNOWN, UnknownCount(gs));
    if i < |rows| {
      RankedRowCount(gs, CATALOG_RESERVED, rows, ByOrdinal, i);
      var g :| g in gs && IsReal(g, CATALOG_RESERVED) && rows[i] == RowOf(g);
      CatalogRowMatch(col, kept, gs, g);
    } else {
      CatalogTailMatch(col, kept, gs);
    }
  }

  lemma TopNRowMatch(col: Column, kept: set<string>, gs: seq<Group>, g: Group)
    requires IsGroupBy(Collapsed(col, kept), gs) && g in gs && g.key in Collapsed(col, kept)
    requires IsReal(g, TOPN_RESERVED)
    ensures g.count == RowsWhere(col, Holds(g.key.value))
  {
    var shown, k := Collapsed(col, kept), g.key.value;
    GroupCount(shown, gs, g);
    var i :| 0 <= i < |shown| && shown[i] == g.key;
    assert k in kept;
    SameRowsWhere(shown, col, Holds(k), Holds(k));
  }

  lemma TopNTailMatch(col: Column, kept: set<string>, gs: seq<Group>)
    requires IsGroupBy(Collapsed(col, kept), gs) && Some(UNKNOWN) !in col && Some(OTHER) !in col
    ensures CountOf(gs, OTHER) == RowsWhere(col, Folded(kept))
    ensures UnknownCount(gs) == RowsWhere(col, IsNull())
  {
    var shown := Collapsed(col, kept);
    forall i | 0 <= i < |col|
      ensures (shown[i].None? || shown[i].value == UNKNOWN) == col[i].None?
      ensures Holds(OTHER)(shown[i]) == Folded(kept)(col[i])
    {
      assert col[i] in col;
    }
    UnknownIsNull(col, shown, gs);
    CountsAreRows(shown, gs);
    SameRowsWhere(shown, col, Holds(OTHER), Folded(kept));
  }

  lemma TopNTailIs(f: Facet, gs: seq<Group>, i: nat)
    requires i < |TopNTails(f, gs)|
    ensures TopNTails(f, gs)[i] in [Bucket(OTHER, CountOf(gs, OTHER)), Bucket(UNKNOWN, UnknownCount(gs))]
  {
  }

  lemma TopNRankMatch(col: Column, kept: set<string>, gs: seq<Group>, rows: seq<Row>, less: (Row, Row) -> bool, i: nat)
    requires IsGroupBy(Collapsed(col, kept), gs) && forall g | g in gs :: g.key in Collapsed(col, kept)
    requires SortOf(less, RealRows(gs, TOPN_RESERVED), rows) && i < |rows|
    ensures rows[i].key !in TOPN_RESERVED && rows[i].count == RowsWhere(col, Holds(rows[i].key))
  {
    RankedRowCount(gs, TOPN_RESERVED, rows, less, i);
    var g :| g in gs && IsReal(g, TOPN_RESERVED) && rows[i] == RowOf(g);
    TopNRowMatch(col, kept, gs, g);
  }

  lemma TopNRowBucket(f: Facet, kept: set<string>, col: Column, gs: seq<Group>, rows: seq<Row>,
                      less: (Row, Row) -> bool, i: nat)
    requires IsGroupBy(Collapsed(col, kept), gs) && forall g | g in gs :: g.key in Collapsed(col, kept)
    requires SortOf(less, RealRows(gs, TOPN_RESERVED), rows) && i < |rows|
    ensures rows[i].count == RowsWhere(col, CellsOf(f, kept, rows[i].key))
  {
    TopNRankMatch(col, kept, gs, rows, less, i);
  }

  lemma TopNTailBucket(f: Facet, kept: set<string>, col: Column, gs: seq<Group>, i: nat)
    requires f.buckets.strategy.TopN? && i < |TopNTails(f, gs)|
    requires IsGroupBy(Collapsed(col, kept), gs) && Some(UNKNOWN) !in col && Some(OTHER) !in col
    ensures var b := TopNTails(f, gs)[i]; b.count == RowsWhere(col, CellsOf(f, kept, b.key))
  {
    TopNTailMatch(col, kept, gs);
    TopNTailIs(f, gs, i);
  }

  lemma TopNMatch(f: Facet, kept: set<string>, col: Column, gs: seq<Group>, out: seq<Bucket>, i: nat)
    requires f.buckets.strategy.TopN?
    requires IsBranch(f, kept, col, gs) && IsBuckets(f, gs, out) && NoSyntheticValues(f, col) && i < |out|
    ensures out[i].count == RowsWhere(col, CellsOf(f, kept, out[i].key))
  {
    var listed := RealRows(gs, TOPN_RESERVED);
    var rows :| SortOf(TopNOrder(listed), listed, rows) && out == Emitted(rows) + TopNTails(f, gs);
    if i < |rows| {
      TopNRowBucket(f, kept, col, gs, rows, TopNOrder(listed), i);
    } else {
      TopNTailBucket(f, kept, col, gs, i - |rows|);
    }
  }

  /**
   Every bucket of a strategy that groups by value counts exactly the cells of the column it stands for. Where
   each row has one cell and the list filter compares it with the key, clicking the bucket lists those rows.
   */
  lemma BucketCountsItsCells(f: Facet, kept: set<string>, col: Column, gs: seq<Group>, out: seq<Bucket>, i: nat)
    requires Conservation.KnownStrategy(f.buckets.strategy) && !f.buckets.strategy.Bands?
    requires IsBranch(f, kept, col, gs) && IsBuckets(f, gs, out) && NoSyntheticValues(f, col) && i < |out|
    ensures out[i].count == RowsWhere(col, CellsOf(f, kept, out[i].key))
  {
    match f.buckets.strategy {
      case Catalog => CatalogMatch(f, kept, col, gs, out, i);
      case TopN => TopNMatch(f, kept, col, gs, out, i);
      case _ => FlatMatch(f, kept, col, gs, out, i);
    }
  }

  const DEGREE_LEVEL := Facet("degreeLevelId", KindRef, "oikumenea.person_education_enrollments", "degree_level_id", "",
    Buckets(Catalog, 0, "", [], "oikumenea.education_degree_levels", "isced_level", true),
    "degree_level", [], [], "", "")

  lemma TablesAreQualified()
    ensures SchemaQualified(DEGREE_LEVEL.table) && SchemaQualified(DEGREE_LEVEL.buckets.catalogTable)
  {
  }

  lemma DegreeLevelIsValid(v: Vocabulary)
    requires "degree_level" in v.objects
    ensures ValidFacet(v, DEGREE_LEVEL)
  {
    TablesAreQualified();
    assert IsLowerCamel(DEGREE_LEVEL.key) && ValidBuckets(DEGREE_LEVEL);
  }

  lemma DegreeLevelIsAccepted(v: Vocabulary, typ: string)
    requires typ != "" && typ in v.listable && "degree_level" in v.objects
    ensures WellFormed(v, TypeWith(typ, DEGREE_LEVEL))
  {
    DegreeLevelIsValid(v);
    TypeWithIsWellFormed(v, typ, DEGREE_LEVEL);
  }

  lemma OneUnlisted(k: string)
    ensures Live([Some(k)], {}) == [] && RowsWhere([Some(k)], Folded({})) == 1
  {
    var col := [Some(k)];
    assert col[..0] == [] && [] + [Some(k)] == col;
    LiveSnoc(col, {});
    SumSnoc([], Some(k), Weigh(Folded({})));
  }

  lemma NothingListed(f: Facet, k: string)
    requires f.buckets.strategy.Catalog?
    ensures IsBranch(f, {}, [Some(k)], [])
  {
    OneUnlisted(k);
  }

  /** One enrollment whose level has been deleted from the catalog since: it is in no bucket. */
  lemma DeletedLevelIsLost(level: string, out: seq<Bucket>)
    requires IsBuckets(DEGREE_LEVEL, [], out)
    ensures IsBranch(DEGREE_LEVEL, {}, [Some(level)], []) && BucketTotal(out) == 0
  {
    NothingListed(DEGREE_LEVEL, level);
    OneUnlisted(level);
    CatalogShortfall(DEGREE_LEVEL, {}, [Some(level)], [], out);
  }

  // ------------------------------------------------------------------ bands

  /** The number range a band's own filter asks for, on a column of numbers shown as text. */
  function Within(b: Band): Condition {
    (v: Option<string>) =>
      v.Some? &&
      var n := Text.ParseInt64(Text.TrimSpace(v.value));
      n.Some? && InBand(b, n.value)
  }

  lemma WithinInteger(b: Band, n: int)
    requires Text.INT64_MIN <= n <= Text.INT64_MAX
    ensures Within(b)(Some(Text.Itoa(n))) == InBand(b, n)
  {
    Text.ItoaRoundTrip(n);
  }

  lemma {:induction false} FirstBandIs(bands: seq<Band>, n: int)
    ensures forall j | 0 <= j < FirstBand(bands, n) && j < |bands| :: !InBand(bands[j], n)
  {
    if bands != [] {
      FirstBandIs(bands[..|bands| - 1], n);
    }
  }

  function InSlotNumber(bands: seq<Band>, i: nat): Condition {
    (v: Option<string>) => SlotOf(bands, v) == InSlot(i)
  }

  /** In band i and in some earlier band as well: counted there instead. */
  function TakenEarlier(bands: seq<Band>, i: nat): Condition
    requires i < |bands|
  {
    (v: Option<string>) => Within(bands[i])(v) && exists j | 0 <= j < i :: Within(bands[j])(v)
  }

  lemma SlotIsFirst(bands: seq<Band>, i: nat, v: Option<string>)
    requires i < |bands|
    ensures InSlotNumber(bands, i)(v) <==> Within(bands[i])(v) && !TakenEarlier(bands, i)(v)
  {
    if v.Some? && Text.ParseInt64(Text.TrimSpace(v.value)).Some? {
      var n := Text.ParseInt64(Text.TrimSpace(v.value)).value;
      FirstBandIs(bands, n);
      var first := FirstBand(bands, n);
      if first < |bands| { assert Within(bands[first])(v); }
    }
  }

  /** A band's bucket counts its own range exactly when no row of that range lies in an earlier band too. */
  lemma BandIsItsFilterIff(f: Facet, kept: set<string>, col: Column, gs: seq<Group>, i: nat)
    requires f.buckets.strategy.Bands? && i < |f.buckets.bands| && IsBranch(f, kept, col, gs)
    ensures BandsOf(f, gs)[i].key == f.buckets.bands[i].key
    ensures BandsOf(f, gs)[i].count == RowsWhere(col, Within(f.buckets.bands[i])) <==>
      forall v | v in col :: !TakenEarlier(f.buckets.bands, i)(v)
  {
    var bands := f.buckets.bands;
    GroupsCountRows(col, gs, InSlotNumber(bands, i));
    SumSame(gs, AtSlot(bands, InSlot(i)), AtKeys(InSlotNumber(bands, i)));
    forall v | v in col
      ensures Weigh(Within(bands[i]))(v) == Weigh(InSlotNumber(bands, i))(v) + Weigh(TakenEarlier(bands, i))(v)
    {
      SlotIsFirst(bands, i, v);
    }
    SumSplit(col, Weigh(Within(bands[i])), Weigh(InSlotNumber(bands, i)), Weigh(TakenEarlier(bands, i)));
    SumZeroIff(col, Weigh(TakenEarlier(bands, i)));
    assert forall v | v in col :: Weigh(TakenEarlier(bands, i))(v) == 0 <==> !TakenEarlier(bands, i)(v);
  }

  ghost predicate DisjointBands(bands: seq<Band>) {
    forall i, j, n: int {:trigger InBand(bands[i], n), InBand(bands[j], n)} |
      0 <= i < j < |bands| && InBand(bands[i], n) :: !InBand(bands[j], n)
  }

  lemma DisjointBandIsItsFilter(f: Facet, kept: set<string>, col: Column, gs: seq<Group>, i: nat)
    requires f.buckets.strategy.Bands? && i < |f.buckets.bands| && IsBranch(f, kept, col, gs)
    requires DisjointBands(f.buckets.bands)
    ensures BandsOf(f, gs)[i].count == RowsWhere(col, Within(f.buckets.bands[i]))
  {
    BandIsItsFilterIff(f, kept, col, gs, i);
  }

  const OVERLAPPING := [Band("adult", Some(18), None), Band("senior", Some(65), None)]

  const AGE_OVERLAP := Facet("age", KindNumericRange, "oikumenea.person_persons", "age", "",
    Buckets(Bands, 0, "", OVERLAPPING, "", "", true), "", [], [], "", "")

  lemma AgeOverlapIsValid(v: Vocabulary)
    ensures ValidFacet(v, AGE_OVERLAP) && NoRepeats(Args(AGE_OVERLAP))
  {
    assert OVERLAPPING[0].key[0] != OVERLAPPING[1].key[0];
    assert Args(AGE_OVERLAP)[0][4] != Args(AGE_OVERLAP)[1][4];
  }

  /** Registration accepts overlapping bands; the later one then counts fewer rows than its filter returns. */
  lemma OverlapIsAccepted(v: Vocabulary, typ: string)
    requires typ != "" && typ in v.listable
    ensures WellFormed(v, TypeWith(typ, AGE_OVERLAP)) && !DisjointBands(OVERLAPPING)
    ensures Within(OVERLAPPING[1])(Some(Text.Itoa(70))) && TakenEarlier(OVERLAPPING, 1)(Some(Text.Itoa(70)))
  {
    AgeOverlapIsValid(v);
    TypeWithIsWellFormed(v, typ, AGE_OVERLAP);
    WithinInteger(OVERLAPPING[0], 70);
    WithinInteger(OVERLAPPING[1], 70);
    assert InBand(OVERLAPPING[0], 70) && InBand(OVERLAPPING[1], 70);
  }

  const AGE_BANDS := [
    Band("0-17", Some(0), Some(18)), Band("18-24", Some(18), Some(25)), Band("25-34", Some(25), Some(35)),
    Band("35-44", Some(35), Some(45)), Band("45-54", Some(45), Some(55)), Band("55-64", Some(55), Some(65)),
    Band("65+", Some(65), None)]

  const LEVEL_BANDS := [
    Band("0-1", Some(0), Some(2)), Band("2-3", Some(2), Some(4)), Band("4-5", Some(4), Some(6)),
    Band("6-7", Some(6), Some(8)), Band("8+", Some(8), None)]

  /** From zero up without a gap: each band starts where the one before it stops, and the last never does. */
  ghost predicate Consecutive(bands: seq<Band>) {
    && bands != [] && bands[0].lo == Some(0) && bands[|bands| - 1].hi == None
    && (forall i | 0 <= i < |bands| - 1 :: bands[i].hi.Some? && bands[i + 1].lo == bands[i].hi)
    && (forall i | 0 <= i < |bands| - 1 :: bands[i].lo.Some? && bands[i].lo.value < bands[i].hi.value)
  }

  lemma {:induction false} StartsAscend(bands: seq<Band>, i: nat, j: nat)
    requires Consecutive(bands) && i < j < |bands|
    ensures bands[i].hi.Some? && bands[j].lo.Some? && bands[i].hi.value <= bands[j].lo.value
    decreases j
  {
    if i < j - 1 {
      StartsAscend(bands, i, j - 1);
      assert bands[j - 1].lo.value < bands[j - 1].hi.value;
    }
    assert bands[j - 1 + 1].lo == bands[j - 1].hi;
  }

  lemma {:induction false} SomeBandHolds(bands: seq<Band>, n: int, k: nat)
    requires Consecutive(bands) && k < |bands| && bands[k].lo.Some? && n >= bands[k].lo.value
    ensures exists i | 0 <= i < |bands| :: InBand(bands[i], n)
    decreases |bands| - k
  {
    if !InBand(bands[k], n) {
      assert bands[k + 1].lo == bands[k].hi;
      SomeBandHolds(bands, n, k + 1);
    }
  }

  /** Such bands are disjoint, and only a negative number falls outside them. */
  lemma ConsecutivePartition(bands: seq<Band>, n: int)
    requires Consecutive(bands)
    ensures DisjointBands(bands) && (n >= 0 <==> FirstBand(bands, n) < |bands|)
  {
    forall i, j, m: int | 0 <= i < j < |bands| && InBand(bands[i], m) ensures !InBand(bands[j], m) {
      StartsAscend(bands, i, j);
    }
    FirstBandIs(bands, n);
    if n >= 0 {
      SomeBandHolds(bands, n, 0);
    } else if FirstBand(bands, n) > 0 && FirstBand(bands, n) < |bands| {
      StartsAscend(bands, 0, FirstBand(bands, n));
    }
  }

  /** The declared age bands, and the level bands below, leave only negative numbers over. */
  lemma AgeBandsPartition(n: int)
    ensures DisjointBands(AGE_BANDS) && (n >= 0 <==> FirstBand(AGE_BANDS, n) < |AGE_BANDS|)
  {
    ConsecutivePartition(AGE_BANDS, n);
  }

  lemma LevelBandsPartition(n: int)
    ensures DisjointBands(LEVEL_BANDS) && (n >= 0 <==> FirstBand(LEVEL_BANDS, n) < |LEVEL_BANDS|)
  {
    ConsecutivePartition(LEVEL_BANDS, n);
  }

  // ------------------------------------------------------------------ the whole response

  /** One query over one visible row set: its total, and one branch per selected facet over that facet's column. */
  ghost predicate IsQuery(selected: seq<Facet>, kept: string -> set<string>, rows: nat, columns: map<string, Column>,
                          gs: seq<Group>) {
    && GrandTotal(gs) == rows
    && forall f | f in selected :: f.key in columns && IsBranch(f, kept(f.key), columns[f.key], RowsOf(gs, f.key))
  }

  /**
   For a registered type: the total is the number of visible rows, and each selected facet's buckets sum to
   the length of the column it groups exactly when no cell holds a value declared twice and no bool column
   holds anything but true and false.
   */
  lemma DashboardAddsUp(v: Vocabulary, o: ObjectType, csv: string, holds: Selection.Holds,
                        kept: string -> set<string>, rows: nat, columns: map<string, Column>, gs: seq<Group>, r: Report)
    requires WellFormed(v, o)
    requires IsQuery(Selection.Chosen(o.facets, csv, holds), kept, rows, columns, gs)
    requires IsReport(Selection.Chosen(o.facets, csv, holds), gs, r)
    ensures r.total == rows
    ensures forall i | 0 <= i < |r.distributions| ::
      var f := Selection.Chosen(o.facets, csv, holds)[i];
      BucketTotal(r.distributions[i].buckets) == |columns[f.key]| <==> FaithfulColumn(f, kept(f.key), columns[f.key])
  {
    var selected := Selection.Chosen(o.facets, csv, holds);
    Selection.ChosenIs(o.facets, csv, holds);
    forall i | 0 <= i < |selected|
      ensures selected[i].key in columns
      ensures BucketTotal(r.distributions[i].buckets) == |columns[selected[i].key]| <==>
        FaithfulColumn(selected[i], kept(selected[i].key), columns[selected[i].key])
    {
      var f := selected[i];
      assert f in selected && f in o.facets;
      assert ValidFacet(v, f);
      BranchAddsUpIff(f, kept(f.key), columns[f.key], RowsOf(gs, f.key), r.distributions[i].buckets);
    }
  }
}
