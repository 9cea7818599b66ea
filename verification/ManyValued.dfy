/**
 Facets read off another table: a listed row may hold several values of them, the same value twice, or
 none (a person's ranks and units, a taxon's ancestors and tags). The aggregate counts joined pairs; the
 list filter returns each row once, and may expand its key to a whole subtree.
 */
module ManyValued {
  import opened Wrappers
  import opened Ordering
  import opened Sums
  import opened Facets
  import opened Stats
  import opened Assembly
  import opened Dashboard
  import ChartOrder
  import Conservation
  import Ranking
  import Selection

  /** What each visible row joins to, in any order: values, and NULL where what it refers to is itself deleted. */
  type Table = seq<Column>

  /** A LEFT JOIN keeps a row that holds nothing, as NULL; an inner JOIN drops it. */
  datatype Join = Outer | Inner

  function Cells(join: Join, row: Column): Column {
    if row == [] && join.Outer? then [None] else row
  }

  /** The column the aggregate groups. */
  function Joined(join: Join, t: Table): Column {
    if t == [] then [] else Joined(join, t[..|t| - 1]) + Cells(join, t[|t| - 1])
  }

  type RowTest = Column -> bool

  function Indicator(p: RowTest): Column -> int {
    (row: Column) => if p(row) then 1 else 0
  }

  /** How many listed rows pass a test, each counted once. */
  function Rows(t: Table, p: RowTest): int {
    SumBy(t, Indicator(p))
  }

  lemma RowsZeroIff(t: Table, p: RowTest)
    ensures Rows(t, p) >= 0 && (Rows(t, p) == 0 <==> forall row | row in t :: !p(row))
  {
    SumZeroIff(t, Indicator(p));
    assert forall row | row in t :: Indicator(p)(row) == 0 <==> !p(row);
  }

  // ------------------------------------------------------------------ how far the sum is from the total

  function Width(join: Join): Column -> int {
    (row: Column) => |Cells(join, row)|
  }

  function BeyondFirst(row: Column): int {
    if |row| > 1 then |row| - 1 else 0
  }

  /** Values held beyond each row's first. */
  function Extra(t: Table): int {
    SumBy(t, BeyondFirst)
  }

  function Empty(): RowTest {
    (row: Column) => row == []
  }

  /** Rows the join does not bring along. */
  function Dropped(join: Join, t: Table): int {
    if join.Outer? then 0 else Rows(t, Empty())
  }

  lemma {:induction false} JoinedLength(join: Join, t: Table)
    ensures |Joined(join, t)| == |t| + Extra(t) - Dropped(join, t)
  {
    if t != [] {
      JoinedLength(join, t[..|t| - 1]);
    }
  }

  lemma ExtraZeroIff(t: Table)
    ensures Extra(t) >= 0 && (Extra(t) == 0 <==> forall row | row in t :: |row| <= 1)
  {
    SumZeroIff(t, BeyondFirst);
  }

  /**
   A faithful facet's buckets sum to the total plus the values held beyond each row's first, less the
   rows an inner join drops.
   */
  lemma CrossTableSum(f: Facet, kept: set<string>, join: Join, t: Table, gs: seq<Group>, out: seq<Bucket>)
    requires Conservation.KnownStrategy(f.buckets.strategy)
    requires IsBranch(f, kept, Joined(join, t), gs) && IsBuckets(f, gs, out)
    ensures BucketTotal(out) == |t| + Extra(t) - Dropped(join, t) <==> FaithfulColumn(f, kept, Joined(join, t))
  {
    BranchAddsUpIff(f, kept, Joined(join, t), gs, out);
    JoinedLength(join, t);
  }

  /** With a LEFT JOIN the sum is never short, and is the total exactly when no row holds two values. */
  lemma OuterSumIff(f: Facet, kept: set<string>, t: Table, gs: seq<Group>, out: seq<Bucket>)
    requires Conservation.KnownStrategy(f.buckets.strategy) && FaithfulColumn(f, kept, Joined(Outer, t))
    requires IsBranch(f, kept, Joined(Outer, t), gs) && IsBuckets(f, gs, out)
    ensures BucketTotal(out) >= |t|
    ensures BucketTotal(out) == |t| <==> forall row | row in t :: |row| <= 1
  {
    CrossTableSum(f, kept, Outer, t, gs, out);
    ExtraZeroIff(t);
  }

  /** With an inner JOIN the sum is short exactly when more rows hold nothing than values are held beyond the first. */
  lemma InnerSumIff(f: Facet, kept: set<string>, t: Table, gs: seq<Group>, out: seq<Bucket>)
    requires Conservation.KnownStrategy(f.buckets.strategy) && FaithfulColumn(f, kept, Joined(Inner, t))
    requires IsBranch(f, kept, Joined(Inner, t), gs) && IsBuckets(f, gs, out)
    ensures BucketTotal(out) >= |t| <==> Rows(t, Empty()) <= Extra(t)
    ensures (forall row | row in t :: row != []) ==> BucketTotal(out) >= |t|
  {
    CrossTableSum(f, kept, Inner, t, gs, out);
    ExtraZeroIff(t);
    RowsZeroIff(t, Empty());
  }

  // ------------------------------------------------------------------ a bucket against its list filter

  function Holding(k: string): RowTest {
    (row: Column) => Some(k) in row
  }

  /** A list filter expands its key to a set of values: the key alone, or the key and all below it. */
  type Expansion = string -> set<string>

  function Meets(values: set<string>): RowTest {
    (row: Column) => exists v :: v in values && Some(v) in row
  }

  /** What the list returns when filtered by a key. */
  function Filtered(t: Table, expand: Expansion, k: string): int {
    Rows(t, Meets(expand(k)))
  }

  /** Found by the filter without holding the key itself. */
  function OnlyBelow(expand: Expansion, k: string): RowTest {
    (row: Column) => Meets(expand(k))(row) && Some(k) !in row
  }

  function Again(k: string): Column -> int {
    (row: Column) => if Some(k) in row then multiset(row)[Some(k)] - 1 else 0
  }

  /** How often a key is held again by a row that already holds it. */
  function Repeats(t: Table, k: string): int {
    SumBy(t, Again(k))
  }

  lemma RowHolding(join: Join, row: Column, k: string)
    ensures RowsWhere(Cells(join, row), Holds(k)) == Indicator(Holding(k))(row) + Again(k)(row)
  {
    KeyRows(Cells(join, row), k);
  }

  /** Joined pairs with a key: the rows holding it, and their repeats. */
  lemma {:induction false} PairsWithKey(join: Join, t: Table, k: string)
    ensures RowsWhere(Joined(join, t), Holds(k)) == Rows(t, Holding(k)) + Repeats(t, k)
  {
    if t != [] {
      var init, last := t[..|t| - 1], t[|t| - 1];
      PairsWithKey(join, init, k);
      SumAppend(Joined(join, init), Cells(join, last), Weigh(Holds(k)));
      RowHolding(join, last, k);
    }
  }

  /** The filter returns the rows holding the key and those it reaches by expansion alone. */
  lemma FilterSplits(t: Table, expand: Expansion, k: string)
    requires k in expand(k)
    ensures Filtered(t, expand, k) == Rows(t, Holding(k)) + Rows(t, OnlyBelow(expand, k))
  {
    SumSplit(t, Indicator(Meets(expand(k))), Indicator(Holding(k)), Indicator(OnlyBelow(expand, k)));
  }

  predicate RealKey(k: string) {
    k != UNKNOWN && k != OTHER
  }

  /**
   A real bucket exceeds its filter by the repeats of its key, and falls short of it by the rows the
   filter reaches only below the key; so the two agree exactly when these balance.
   */
  lemma BucketAgainstFilter(f: Facet, kept: set<string>, join: Join, t: Table, expand: Expansion,
                            gs: seq<Group>, out: seq<Bucket>, i: nat)
    requires Conservation.KnownStrategy(f.buckets.strategy) && !f.buckets.strategy.Bands?
    requires IsBranch(f, kept, Joined(join, t), gs) && IsBuckets(f, gs, out) && NoSyntheticValues(f, Joined(join, t))
    requires i < |out| && RealKey(out[i].key) && out[i].key in expand(out[i].key)
    ensures out[i].count == Rows(t, Holding(out[i].key)) + Repeats(t, out[i].key)
    ensures out[i].count - Filtered(t, expand, out[i].key) ==
      Repeats(t, out[i].key) - Rows(t, OnlyBelow(expand, out[i].key))
  {
    BucketCountsItsCells(f, kept, Joined(join, t), gs, out, i);
    PairsWithKey(join, t, out[i].key);
    FilterSplits(t, expand, out[i].key);
  }

  ghost predicate NoRowRepeats(t: Table) {
    forall row, v | row in t && Some(v) in row :: multiset(row)[Some(v)] == 1
  }

  lemma RepeatsZero(t: Table, k: string)
    requires NoRowRepeats(t)
    ensures Repeats(t, k) == 0
  {
    SumZeroIff(t, Again(k));
  }

  /**
   When no row lists a value twice, a real bucket counts the rows holding its key, and that is what its
   filter returns exactly when every row with a value in the key's expansion holds the key as well.
   */
  lemma BucketIsFilterIff(f: Facet, kept: set<string>, join: Join, t: Table, expand: Expansion,
                          gs: seq<Group>, out: seq<Bucket>, i: nat)
    requires Conservation.KnownStrategy(f.buckets.strategy) && !f.buckets.strategy.Bands?
    requires IsBranch(f, kept, Joined(join, t), gs) && IsBuckets(f, gs, out) && NoSyntheticValues(f, Joined(join, t))
    requires i < |out| && RealKey(out[i].key) && out[i].key in expand(out[i].key) && NoRowRepeats(t)
    ensures out[i].count == Rows(t, Holding(out[i].key))
    ensures out[i].count == Filtered(t, expand, out[i].key) <==>
      forall row | row in t && Meets(expand(out[i].key))(row) :: Some(out[i].key) in row
  {
    BucketAgainstFilter(f, kept, join, t, expand, gs, out, i);
    RepeatsZero(t, out[i].key);
    RowsZeroIff(t, OnlyBelow(expand, out[i].key));
  }

  /** A filter that compares its key alone returns each holder once, so it disagrees by the repeats only. */
  lemma ExactFilterIff(f: Facet, kept: set<string>, join: Join, t: Table, gs: seq<Group>, out: seq<Bucket>, i: nat)
    requires Conservation.KnownStrategy(f.buckets.strategy) && !f.buckets.strategy.Bands?
    requires IsBranch(f, kept, Joined(join, t), gs) && IsBuckets(f, gs, out) && NoSyntheticValues(f, Joined(join, t))
    requires i < |out| && RealKey(out[i].key)
    ensures out[i].count >= Filtered(t, k => {k}, out[i].key)
    ensures out[i].count == Filtered(t, k => {k}, out[i].key) <==>
      forall row | row in t :: multiset(row)[Some(out[i].key)] <= 1
  {
    var k, only := out[i].key, k => {k};
    BucketAgainstFilter(f, kept, join, t, only, gs, out, i);
    forall row ensures !OnlyBelow(only, k)(row) {}
    RowsZeroIff(t, OnlyBelow(only, k));
    SumZeroIff(t, Again(k));
    assert forall row | row in t :: Again(k)(row) == 0 <==> multiset(row)[Some(k)] <= 1;
  }

  /** A closure facet lists, with each value, everything whose expansion contains it. */
  ghost predicate UpwardClosed(t: Table, expand: Expansion) {
    forall row, v, k | row in t && Some(v) in row && v in expand(k) :: Some(k) in row
  }

  /** So clicking a closure facet's bucket returns exactly the rows it counted. */
  lemma ClosureBucketIsItsFilter(f: Facet, kept: set<string>, join: Join, t: Table, expand: Expansion,
                                 gs: seq<Group>, out: seq<Bucket>, i: nat)
    requires Conservation.KnownStrategy(f.buckets.strategy) && !f.buckets.strategy.Bands?
    requires IsBranch(f, kept, Joined(join, t), gs) && IsBuckets(f, gs, out) && NoSyntheticValues(f, Joined(join, t))
    requires i < |out| && RealKey(out[i].key) && out[i].key in expand(out[i].key)
    requires NoRowRepeats(t) && UpwardClosed(t, expand)
    ensures out[i].count == Filtered(t, expand, out[i].key)
  {
    BucketIsFilterIff(f, kept, join, t, expand, gs, out, i);
  }

  // ------------------------------------------------------------------ the whole response

  /** A facet's source: the values of each visible row, and how they are joined to it. */
  datatype Source = Source(join: Join, table: Table)

  /** One query over `rows` visible rows, every facet read from its own source. */
  ghost predicate IsTableQuery(selected: seq<Facet>, kept: string -> set<string>, rows: nat,
                               sources: map<string, Source>, gs: seq<Group>) {
    && GrandTotal(gs) == rows
    && forall f | f in selected ::
         && f.key in sources && |sources[f.key].table| == rows
         && IsBranch(f, kept(f.key), Joined(sources[f.key].join, sources[f.key].table), RowsOf(gs, f.key))
  }

  /** What a facet's buckets sum to, measured against the visible rows. */
  function Expected(src: Source): int {
    |src.table| + Extra(src.table) - Dropped(src.join, src.table)
  }

  /**
   For a registered type and any selection, cross-table facets included: the total is the number of visible
   rows, and each faithful facet sums to it plus the values held beyond each row's first, less the rows an
   inner join drops. A facet of one value or NULL per row sums to the total.
   */
  lemma EveryFacetSums(v: Vocabulary, o: ObjectType, csv: string, holds: Selection.Holds,
                       kept: string -> set<string>, rows: nat, sources: map<string, Source>, gs: seq<Group>, r: Report)
    requires WellFormed(v, o)
    requires IsTableQuery(Selection.Chosen(o.facets, csv, holds), kept, rows, sources, gs)
    requires IsReport(Selection.Chosen(o.facets, csv, holds), gs, r)
    ensures r.total == rows
    ensures forall i | 0 <= i < |r.distributions| ::
      var f := Selection.Chosen(o.facets, csv, holds)[i];
      var src := sources[f.key];
      && (BucketTotal(r.distributions[i].buckets) == Expected(src) <==>
            FaithfulColumn(f, kept(f.key), Joined(src.join, src.table)))
      && (src.join.Outer? ==> Expected(src) >= r.total)
      && (src.join.Outer? ==> (Expected(src) == r.total <==> forall row | row in src.table :: |row| <= 1))
  {
    var selected := Selection.Chosen(o.facets, csv, holds);
    Selection.ChosenIs(o.facets, csv, holds);
    forall i | 0 <= i < |selected|
      ensures selected[i].key in sources && |sources[selected[i].key].table| == rows
      ensures var src := sources[selected[i].key];
        && (BucketTotal(r.distributions[i].buckets) == Expected(src) <==>
              FaithfulColumn(selected[i], kept(selected[i].key), Joined(src.join, src.table)))
        && Extra(src.table) >= 0 && (Extra(src.table) == 0 <==> forall row | row in src.table :: |row| <= 1)
    {
      var f := selected[i];
      assert f in selected && f in o.facets;
      assert ValidFacet(v, f);
      var src := sources[f.key];
      CrossTableSum(f, kept(f.key), src.join, src.table, RowsOf(gs, f.key), r.distributions[i].buckets);
      ExtraZeroIff(src.table);
    }
  }

  // ------------------------------------------------------------------ inputs on which the promises fail

  const UNIT_ID := Facet("unitId", KindRef, "oikumenea.membership_memberships", "unit_id", "",
    Buckets(TopN, 15, "", [], "", "", true), "unit", [], [], "", "")

  const SUBTREE := Facet("subtree", KindRef, "oikumenea.religion_taxa_closure", "ancestor_id", "",
    Buckets(TopN, 15, "", [], "", "", false), "taxon", [], ["parent"], "the arg is parent", "a row has many ancestors")

  /** Both are facets a type may register. */
  lemma BothAreAccepted(v: Vocabulary, typ: string)
    requires typ != "" && typ in v.listable && "unit" in v.objects && "taxon" in v.objects
    ensures WellFormed(v, TypeWith(typ, UNIT_ID)) && WellFormed(v, TypeWith(typ, SUBTREE))
  {
    TypeWithIsWellFormed(v, typ, UNIT_ID);
    TypeWithIsWellFormed(v, typ, SUBTREE);
  }

  function InUnit(k: string, n: int): Group {
    Group("unitId", Some(k), n, None)
  }

  /** Few enough values are all shown. */
  lemma AllShown(col: Column, cutoff: int)
    requires |Values(col)| < cutoff && Some(UNKNOWN) !in col && None !in col
    ensures Collapsed(col, KeptSet(col, cutoff)) == col
  {
    forall i | 0 <= i < |col| ensures col[i].value in KeptSet(col, cutoff) {
      assert col[i] in col;
      SubsetSize(Ahead(col, col[i].value), Values(col));
    }
  }

  ghost predicate IsTopFifteen(f: Facet, col: Column, gs: seq<Group>) {
    IsBranch(f, KeptSet(col, 15), col, gs)
  }

  lemma FewValues(col: Column, a: string, b: string)
    requires forall v | v in col :: v == Some(a) || v == Some(b)
    ensures |Values(col)| <= 2
  {
    assert Values(col) <= {a, b};
    SubsetSize(Values(col), {a, b});
  }

  lemma RealGroupIsShown(f: Facet, gs: seq<Group>, out: seq<Bucket>, g: Group)
    requires Ranking.IsTopN(f, gs, out) && g in gs && Ranking.IsReal(g, Ranking.TOPN_RESERVED)
    ensures exists i | 0 <= i < |out| :: out[i].key == g.key.value && out[i].count == g.count
  {
    var listed := Ranking.RealRows(gs, Ranking.TOPN_RESERVED);
    var rows :| SortOf(Ranking.TopNOrder(listed), listed, rows)
      && out == Ranking.Emitted(rows) + Ranking.TopNTails(f, gs);
    ChartOrder.RealRowsHold(gs, Ranking.TOPN_RESERVED);
    assert Ranking.RowOf(g) in multiset(rows);
    var i :| 0 <= i < |rows| && rows[i] == Ranking.RowOf(g);
    assert out[i].key == g.key.value && out[i].count == g.count;
  }

  lemma OneRow(join: Join, a: Column, p: RowTest)
    ensures Joined(join, [a]) == Cells(join, a) && Rows([a], p) == Indicator(p)(a) && Extra([a]) == BeyondFirst(a)
  {
    assert [a][..0] == [] && [] + [a] == [a];
    SumSnoc([], a, Indicator(p));
    SumSnoc([], a, BeyondFirst);
  }

  lemma TwoRows(join: Join, a: Column, b: Column, p: RowTest)
    ensures Joined(join, [a, b]) == Cells(join, a) + Cells(join, b)
    ensures Rows([a, b], p) == Indicator(p)(a) + Indicator(p)(b)
  {
    OneRow(join, a, p);
    assert [a, b][..1] == [a] && [a] + [b] == [a, b];
    SumSnoc([a], b, Indicator(p));
  }

  /** Two people, one posted to the corps and one to a platoon below it. */
  const POSTED: Table := [[Some("corps")], [Some("platoon")]]

  const POSTED_GROUPS := [InUnit("corps", 1), InUnit("platoon", 1)]

  function Subordinates(k: string): set<string> {
    if k == "corps" then {"corps", "platoon"} else {k}
  }

  lemma PostedColumn()
    ensures Joined(Outer, POSTED) == [Some("corps"), Some("platoon")]
    ensures Filtered(POSTED, Subordinates, "corps") == 2
  {
    TwoRows(Outer, [Some("corps")], [Some("platoon")], Meets(Subordinates("corps")));
    assert Some("corps") in POSTED[0] && Some("platoon") in POSTED[1];
  }

  lemma TwoGroups(a: string, b: string)
    requires a != b
    ensures IsGroupBy([Some(a), Some(b)], [InUnit(a, 1), InUnit(b, 1)])
    ensures forall g | g in [InUnit(a, 1), InUnit(b, 1)] :: g.key in [Some(a), Some(b)]
  {
    var col, gs := [Some(a), Some(b)], [InUnit(a, 1), InUnit(b, 1)];
    assert gs[0].key == col[0] && gs[1].key == col[1];
  }

  lemma TwoUnitsBranch(a: string, b: string)
    requires a != b && a != UNKNOWN && b != UNKNOWN
    ensures IsTopFifteen(UNIT_ID, [Some(a), Some(b)], [InUnit(a, 1), InUnit(b, 1)])
  {
    FewValues([Some(a), Some(b)], a, b);
    AllShown([Some(a), Some(b)], 15);
    TwoGroups(a, b);
  }

  lemma PostedBranch()
    ensures IsTopFifteen(UNIT_ID, Joined(Outer, POSTED), POSTED_GROUPS)
  {
    PostedColumn();
    assert "corps"[0] != "platoon"[0];
    TwoUnitsBranch("corps", "platoon");
  }

  /** The unit filter finds the subtree; the unit's bucket counts the unit alone. */
  lemma SubtreeFilterFindsMore(out: seq<Bucket>)
    requires IsBuckets(UNIT_ID, POSTED_GROUPS, out)
    ensures IsTopFifteen(UNIT_ID, Joined(Outer, POSTED), POSTED_GROUPS)
    ensures exists i | 0 <= i < |out| ::
      out[i].key == "corps" && out[i].count == 1 && Filtered(POSTED, Subordinates, "corps") == 2
  {
    PostedColumn();
    PostedBranch();
    assert POSTED_GROUPS[0] in POSTED_GROUPS;
    RealGroupIsShown(UNIT_ID, POSTED_GROUPS, out, POSTED_GROUPS[0]);
  }

  /** One person holding two posts in one unit. */
  const TWO_POSTS: Table := [[Some("corps"), Some("corps")]]

  const TWO_POSTS_GROUPS := [InUnit("corps", 2)]

  lemma TwoPostsColumn()
    ensures Joined(Outer, TWO_POSTS) == [Some("corps"), Some("corps")]
    ensures Filtered(TWO_POSTS, k => {k}, "corps") == 1
  {
    OneRow(Outer, [Some("corps"), Some("corps")], Meets({"corps"}));
    assert Some("corps") in TWO_POSTS[0];
  }

  lemma TwoPostsBranch()
    ensures IsTopFifteen(UNIT_ID, Joined(Outer, TWO_POSTS), TWO_POSTS_GROUPS)
  {
    TwoPostsColumn();
    var col := [Some("corps"), Some("corps")];
    FewValues(col, "corps", "corps");
    AllShown(col, 15);
    assert TWO_POSTS_GROUPS[0].key == col[0];
  }

  /** The bucket counts postings, the filter people. */
  lemma TwoPostsCountTwice(out: seq<Bucket>)
    requires IsBuckets(UNIT_ID, TWO_POSTS_GROUPS, out)
    ensures IsTopFifteen(UNIT_ID, Joined(Outer, TWO_POSTS), TWO_POSTS_GROUPS)
    ensures exists i | 0 <= i < |out| ::
      out[i].key == "corps" && out[i].count == 2 && Filtered(TWO_POSTS, k => {k}, "corps") == 1
  {
    TwoPostsColumn();
    TwoPostsBranch();
    assert TWO_POSTS_GROUPS[0] in TWO_POSTS_GROUPS;
    RealGroupIsShown(UNIT_ID, TWO_POSTS_GROUPS, out, TWO_POSTS_GROUPS[0]);
  }

  /** One taxon with no ancestors: the total is one and the subtree chart is empty. */
  const LONE_ROOT: Table := [[]]

  lemma RootsAreDropped(out: seq<Bucket>)
    requires IsBuckets(SUBTREE, [], out)
    ensures IsTopFifteen(SUBTREE, Joined(Inner, LONE_ROOT), [])
    ensures BucketTotal(out) == 0 < |LONE_ROOT|
  {
    OneRow(Inner, [], Empty());
    CrossTableSum(SUBTREE, KeptSet([], 15), Inner, LONE_ROOT, [], out);
  }
}
