/**
 The order of a chart's buckets, and that it does not depend on the order the rows arrive in
 (pkg/stats/stats.go: topNBuckets, catalogBuckets, chronologicalBuckets, identityBuckets).
 */
module ChartOrder {
  import opened Wrappers
  import opened Ordering
  import opened Sums
  import opened Facets
  import opened Stats
  import opened Ranking
  import opened Assembly
  import Conservation

  // ------------------------------------------------------------------ what precedes what

  ghost predicate Precedes(out: seq<Bucket>, a: Bucket, b: Bucket) {
    exists i, j :: 0 <= i < j < |out| && out[i] == a && out[j] == b
  }

  function BucketOf(g: Group): Bucket
    requires g.key.Some?
  {
    Bucket(g.key.value, g.count)
  }

  lemma {:induction false} RealRowsHold(gs: seq<Group>, reserved: set<string>)
    ensures forall g | g in gs && IsReal(g, reserved) :: RowOf(g) in RealRows(gs, reserved)
    ensures forall r | r in RealRows(gs, reserved) ::
      exists g :: g in gs && IsReal(g, reserved) && r == RowOf(g)
  {
    if gs != [] {
      var init, last := gs[..|gs| - 1], gs[|gs| - 1];
      assert gs == init + [last];
      RealRowsHold(init, reserved);
      forall r | r in RealRows(gs, reserved)
        ensures exists g :: g in gs && IsReal(g, reserved) && r == RowOf(g)
      {
        if r in RealRows(init, reserved) {
          var g :| g in init && IsReal(g, reserved) && r == RowOf(g);
          assert g in gs;
        } else {
          assert last in gs && IsReal(last, reserved) && r == RowOf(last);
        }
      }
    }
  }

  lemma SortedPrecedes(less: (Row, Row) -> bool, input: seq<Row>, rows: seq<Row>, a: Row, b: Row)
    requires SortOf(less, input, rows) && a in input && b in input && less(a, b) && !less(a, a)
    ensures exists i, j :: 0 <= i < j < |rows| && rows[i] == a && rows[j] == b
  {
    assert a in multiset(rows) && b in multiset(rows);
    var i :| 0 <= i < |rows| && rows[i] == a;
    var j :| 0 <= j < |rows| && rows[j] == b;
    assert less(rows[i], rows[j]);
  }

  lemma {:induction false} RealRowsInOrder(gs: seq<Group>, reserved: set<string>, i: nat, j: nat)
    requires i < j < |gs| && IsReal(gs[i], reserved) && IsReal(gs[j], reserved)
    ensures Before(RealRows(gs, reserved), RowOf(gs[i]), RowOf(gs[j]))
  {
    var init, last := gs[..|gs| - 1], gs[|gs| - 1];
    RealRowsHold(init, reserved);
    if IsReal(last, reserved) {
      BeforeSnoc(RealRows(init, reserved), RowOf(last), RowOf(gs[i]), RowOf(gs[j]));
    }
    if j < |gs| - 1 {
      RealRowsInOrder(init, reserved, i, j);
    } else {
      assert gs[i] == init[i] && init[i] in init;
    }
  }

  /** Rows of one key and one ordinal keep the order they came in. */
  lemma CatalogTiesAsArrived(f: Facet, gs: seq<Group>, out: seq<Bucket>, i: nat, j: nat)
    requires IsCatalog(f, gs, out)
    requires i < j < |gs| && gs[i].key.Some? && gs[i].key == gs[j].key && gs[i].ord == gs[j].ord
    requires gs[i].key.value != UNKNOWN
    ensures Precedes(out, BucketOf(gs[i]), BucketOf(gs[j]))
  {
    var listed := RealRows(gs, CATALOG_RESERVED);
    var rows :| StableSortOf(ByOrdinal, listed, rows)
      && out == Emitted(rows) + Tail(SawUnknown(gs) || f.buckets.includeUnknown, UNKNOWN, UnknownCount(gs));
    var a, b := RowOf(gs[i]), RowOf(gs[j]);
    StrIrreflexive(a.key);
    RealRowsHold(gs, CATALOG_RESERVED);
    RealRowsInOrder(gs, CATALOG_RESERVED, i, j);
    StableKeepsOrder(ByOrdinal, listed, rows, a, b);
    var x, y :| 0 <= x < y < |rows| && rows[x] == a && rows[y] == b;
    assert out[x] == BucketOf(gs[i]) && out[y] == BucketOf(gs[j]);
  }

  /** A catalog chart follows the scale: a lower ordinal first, any ordinal before none, keys breaking ties. */
  lemma CatalogFollowsScale(f: Facet, gs: seq<Group>, out: seq<Bucket>, g: Group, h: Group)
    requires IsCatalog(f, gs, out)
    requires g in gs && h in gs && g.key.Some? && h.key.Some? && g.key.value != UNKNOWN && h.key.value != UNKNOWN
    requires
      || (g.ord.Some? && h.ord.Some? && g.ord.value < h.ord.value)
      || (g.ord.Some? && h.ord.None?)
      || (g.ord == h.ord && StrLess(g.key.value, h.key.value))
    ensures Precedes(out, BucketOf(g), BucketOf(h))
  {
    var listed := RealRows(gs, CATALOG_RESERVED);
    var rows :| StableSortOf(ByOrdinal, listed, rows)
      && out == Emitted(rows) + Tail(SawUnknown(gs) || f.buckets.includeUnknown, UNKNOWN, UnknownCount(gs));
    RealRowsHold(gs, CATALOG_RESERVED);
    StrIrreflexive(g.key.value);
    SortedPrecedes(ByOrdinal, listed, rows, RowOf(g), RowOf(h));
    var i, j :| 0 <= i < j < |rows| && rows[i] == RowOf(g) && rows[j] == RowOf(h);
    assert out[i] == BucketOf(g) && out[j] == BucketOf(h);
  }

  /**
   A top-N chart ranks by count, unless every listed row has an ordinal: then by that. Keys break ties.
   */
  lemma TopNFollowsRanking(f: Facet, gs: seq<Group>, out: seq<Bucket>, g: Group, h: Group)
    requires IsTopN(f, gs, out)
    requires g in gs && h in gs && IsReal(g, TOPN_RESERVED) && IsReal(h, TOPN_RESERVED)
    requires if forall k | k in gs && IsReal(k, TOPN_RESERVED) :: k.ord.Some?
             then g.ord.value < h.ord.value || (g.ord == h.ord && StrLess(g.key.value, h.key.value))
             else g.count > h.count || (g.count == h.count && StrLess(g.key.value, h.key.value))
    ensures Precedes(out, BucketOf(g), BucketOf(h))
  {
    var listed := RealRows(gs, TOPN_RESERVED);
    var rows :| SortOf(TopNOrder(listed), listed, rows) && out == Emitted(rows) + TopNTails(f, gs);
    RealRowsHold(gs, TOPN_RESERVED);
    StrIrreflexive(g.key.value);
    OrderedIff(gs, g);
    SortedPrecedes(TopNOrder(listed), listed, rows, RowOf(g), RowOf(h));
    var i, j :| 0 <= i < j < |rows| && rows[i] == RowOf(g) && rows[j] == RowOf(h);
    assert out[i] == BucketOf(g) && out[j] == BucketOf(h);
  }

  lemma OrderedIff(gs: seq<Group>, g: Group)
    requires g in gs && IsReal(g, TOPN_RESERVED)
    ensures AllOrdered(RealRows(gs, TOPN_RESERVED)) <==> forall k | k in gs && IsReal(k, TOPN_RESERVED) :: k.ord.Some?
  {
    var listed := RealRows(gs, TOPN_RESERVED);
    RealRowsHold(gs, TOPN_RESERVED);
    assert RowOf(g) in listed;
    if forall k | k in gs && IsReal(k, TOPN_RESERVED) :: k.ord.Some? {
      forall r | r in listed ensures r.ord.Some? {
        var k :| k in gs && IsReal(k, TOPN_RESERVED) && r == RowOf(k);
      }
    } else {
      var k :| k in gs && IsReal(k, TOPN_RESERVED) && k.ord.None?;
      assert RowOf(k) in listed && RowOf(k).ord.None?;
    }
  }

  /**
   An identity chart lists the declared values in the order declared, each with its rows or zero; then the
   values seen but not declared, in the order first seen; then, perhaps, the NULLs.
   */
  lemma IdentityFollowsDeclaration(f: Facet, gs: seq<Group>, out: seq<Bucket>)
    requires f.buckets.strategy.Identity? && IsBuckets(f, gs, out)
    ensures |out| >= |f.values| + |Strays(f, gs)|
    ensures forall i | 0 <= i < |f.values| :: out[i] == Bucket(f.values[i], CountOf(gs, f.values[i]))
    ensures forall i | 0 <= i < |Strays(f, gs)| ::
      out[|f.values| + i] == Bucket(Strays(f, gs)[i], CountOf(gs, Strays(f, gs)[i]))
    ensures forall k :: k in Strays(f, gs) <==> HasKey(gs, k) && k !in f.values
  {
    StraysAre(f, gs);
    FirstSeenIs(gs);
  }

  /** A key seen first by an earlier row is listed earlier. */
  lemma {:induction false} FirstSeenInOrder(gs: seq<Group>, i: nat, j: nat, a: string, b: string)
    requires i < j < |gs| && gs[i].key == Some(a) && gs[j].key == Some(b)
    requires forall n | 0 <= n < j :: gs[n].key != Some(b)
    ensures exists x: nat, y: nat | x < y < |FirstSeen(gs)| :: FirstSeen(gs)[x] == a && FirstSeen(gs)[y] == b
  {
    var init, before := gs[..|gs| - 1], FirstSeen(gs[..|gs| - 1]);
    FirstSeenIs(init);
    if j < |gs| - 1 {
      assert init[i] == gs[i] && init[j] == gs[j];
      FirstSeenInOrder(init, i, j, a, b);
      var x: nat, y: nat :| x < y < |before| && before[x] == a && before[y] == b;
      assert FirstSeen(gs)[x] == a && FirstSeen(gs)[y] == b;
    } else {
      assert init[i] in init && HasKey(init, a);
      var x: nat :| x < |before| && before[x] == a;
      assert !HasKey(init, b);
      assert FirstSeen(gs)[x] == a && FirstSeen(gs)[|before|] == b;
    }
  }

  /** A bool chart is "true" and then "false"; a banded chart its bands in the order declared, by their keys. */
  lemma FlatChartsFollow(f: Facet, gs: seq<Group>, out: seq<Bucket>)
    requires IsBuckets(f, gs, out)
    ensures f.buckets.strategy.BoolPair? ==>
      |out| >= 2 && out[0] == Bucket("true", CountOf(gs, "true")) && out[1] == Bucket("false", CountOf(gs, "false"))
    ensures f.buckets.strategy.Bands? ==>
      && |out| >= |f.buckets.bands|
      && forall i | 0 <= i < |f.buckets.bands| :: out[i].key == f.buckets.bands[i].key
  {
  }

  /** After "(other)" comes nothing but "(unknown)", and after "(unknown)" nothing at all. */
  lemma SyntheticsLast(f: Facet, gs: seq<Group>, out: seq<Bucket>)
    requires IsTopN(f, gs, out)
    ensures forall i, j | 0 <= i < j < |out| :: out[i].key != UNKNOWN && (out[i].key == OTHER ==> out[j].key == UNKNOWN)
  {
    var listed := RealRows(gs, TOPN_RESERVED);
    var rows :| SortOf(TopNOrder(listed), listed, rows) && out == Emitted(rows) + TopNTails(f, gs);
    RealRowsHold(gs, TOPN_RESERVED);
    forall i | 0 <= i < |rows| ensures out[i].key !in TOPN_RESERVED {
      assert rows[i] in multiset(rows) && rows[i] in listed;
      var g :| g in gs && IsReal(g, TOPN_RESERVED) && rows[i] == RowOf(g);
    }
  }

  /** A histogram's keys ascend strictly, each once. */
  lemma ChronologicalAscends(f: Facet, gs: seq<Group>, out: seq<Bucket>)
    requires IsChronological(f, gs, out)
    ensures exists n | 0 <= n <= |out| ::
      (forall i, j | 0 <= i < j < n :: StrLess(out[i].key, out[j].key)) && out[n..] == UnknownTail(f, NullCount(gs))
  {
    var keys :| SortOf(StrLess, FirstSeen(gs), keys) && out == Counted(gs, keys) + UnknownTail(f, NullCount(gs));
    FirstSeenIs(gs);
    StrOrder(multiset(FirstSeen(gs)));
    SortedDistinct(StrLess, FirstSeen(gs), keys);
    assert out[|keys|..] == UnknownTail(f, NullCount(gs));
  }

  // ------------------------------------------------------------------ arrival order

  lemma SameCounts(gs: seq<Group>, hs: seq<Group>)
    requires multiset(gs) == multiset(hs)
    ensures Total(gs) == Total(hs) && NullCount(gs) == NullCount(hs) && UnknownCount(gs) == UnknownCount(hs)
    ensures forall k :: CountOf(gs, k) == CountOf(hs, k)
  {
    SumPermutes(gs, hs, Whole);
    SumPermutes(gs, hs, AtNull);
    SumPermutes(gs, hs, AtUnknown);
    forall k ensures CountOf(gs, k) == CountOf(hs, k) { SumPermutes(gs, hs, AtKey(k)); }
  }

  lemma CountedSame(gs: seq<Group>, hs: seq<Group>, keys: seq<string>)
    requires multiset(gs) == multiset(hs)
    ensures Counted(gs, keys) == Counted(hs, keys)
  {
    SameCounts(gs, hs);
  }

  lemma BandsPermute(f: Facet, gs: seq<Group>, hs: seq<Group>)
    requires multiset(gs) == multiset(hs)
    ensures BandsOf(f, gs) == BandsOf(f, hs)
  {
    SameMembers(gs, hs);
    SameCounts(gs, hs);
    var bands := f.buckets.bands;
    forall slot ensures SlotCount(bands, gs, slot) == SlotCount(bands, hs, slot) {
      SumPermutes(gs, hs, AtSlot(bands, slot));
    }
    assert BandCounts(bands, gs) == BandCounts(bands, hs);
  }

  lemma SameKeys(gs: seq<Group>, hs: seq<Group>)
    requires multiset(gs) == multiset(hs)
    ensures multiset(FirstSeen(gs)) == multiset(FirstSeen(hs))
  {
    SameMembers(gs, hs);
    FirstSeenIs(gs);
    FirstSeenIs(hs);
    SameDistinct(FirstSeen(gs), FirstSeen(hs));
  }

  lemma ChronologicalPermutes(f: Facet, gs: seq<Group>, hs: seq<Group>, a: seq<Bucket>, b: seq<Bucket>)
    requires multiset(gs) == multiset(hs) && IsChronological(f, gs, a) && IsChronological(f, hs, b)
    ensures a == b
  {
    var j :| SortOf(StrLess, FirstSeen(gs), j) && a == Counted(gs, j) + UnknownTail(f, NullCount(gs));
    var k :| SortOf(StrLess, FirstSeen(hs), k) && b == Counted(hs, k) + UnknownTail(f, NullCount(hs));
    SameKeys(gs, hs);
    SortedStringsUnique(j, k);
    CountedSame(gs, hs, j);
    SameCounts(gs, hs);
  }

  function Hits(r: Row, reserved: set<string>): Group -> int {
    (g: Group) => if IsReal(g, reserved) && RowOf(g) == r then 1 else 0
  }

  lemma {:induction false} RowHits(gs: seq<Group>, reserved: set<string>, r: Row)
    ensures multiset(RealRows(gs, reserved))[r] == SumBy(gs, Hits(r, reserved))
  {
    if gs != [] {
      RowHits(gs[..|gs| - 1], reserved, r);
    }
  }

  lemma SameRows(gs: seq<Group>, hs: seq<Group>, reserved: set<string>)
    requires multiset(gs) == multiset(hs)
    ensures multiset(RealRows(gs, reserved)) == multiset(RealRows(hs, reserved))
  {
    forall r ensures multiset(RealRows(gs, reserved))[r] == multiset(RealRows(hs, reserved))[r] {
      RowHits(gs, reserved, r);
      RowHits(hs, reserved, r);
      SumPermutes(gs, hs, Hits(r, reserved));
    }
  }

  /** As a GROUP BY yields them: one row per key. */
  ghost predicate OneRowPerKey(gs: seq<Group>) {
    forall g, h | g in gs && h in gs && g != h :: g.key != h.key
  }

  lemma RowsDistinct(gs: seq<Group>, reserved: set<string>)
    requires OneRowPerKey(gs)
    ensures DistinctRows(multiset(RealRows(gs, reserved)))
  {
    RealRowsHold(gs, reserved);
    var rows := RealRows(gs, reserved);
    forall a: Row, b: Row | a in multiset(rows) && b in multiset(rows) && a != b ensures a.key != b.key {
      assert a in rows && b in rows;
      var g :| g in gs && IsReal(g, reserved) && a == RowOf(g);
      var h :| h in gs && IsReal(h, reserved) && b == RowOf(h);
      assert g != h;
    }
  }

  lemma OrderFlagSame(a: seq<Row>, b: seq<Row>)
    requires multiset(a) == multiset(b)
    ensures TopNOrder(a) == TopNOrder(b)
  {
    assert |a| == |multiset(a)| == |multiset(b)| == |b|;
    SameMembers(a, b);
  }

  lemma TopNPermutes(f: Facet, gs: seq<Group>, hs: seq<Group>, a: seq<Bucket>, b: seq<Bucket>)
    requires multiset(gs) == multiset(hs) && OneRowPerKey(gs) && IsTopN(f, gs, a) && IsTopN(f, hs, b)
    ensures a == b
  {
    var listed, listed' := RealRows(gs, TOPN_RESERVED), RealRows(hs, TOPN_RESERVED);
    var rows :| SortOf(TopNOrder(listed), listed, rows) && a == Emitted(rows) + TopNTails(f, gs);
    var rows' :| SortOf(TopNOrder(listed'), listed', rows') && b == Emitted(rows') + TopNTails(f, hs);
    SameRows(gs, hs, TOPN_RESERVED);
    OrderFlagSame(listed, listed');
    RowsDistinct(gs, TOPN_RESERVED);
    ComparatorsAreTotal(multiset(listed));
    SortUnique(TopNOrder(listed), rows, rows');
    SameMembers(gs, hs);
    SameCounts(gs, hs);
  }

  lemma CatalogPermutes(f: Facet, gs: seq<Group>, hs: seq<Group>, a: seq<Bucket>, b: seq<Bucket>)
    requires multiset(gs) == multiset(hs) && OneRowPerKey(gs) && IsCatalog(f, gs, a) && IsCatalog(f, hs, b)
    ensures a == b
  {
    var listed, listed' := RealRows(gs, CATALOG_RESERVED), RealRows(hs, CATALOG_RESERVED);
    SameMembers(gs, hs);
    SameCounts(gs, hs);
    var unknown := Tail(SawUnknown(gs) || f.buckets.includeUnknown, UNKNOWN, UnknownCount(gs));
    var rows :| StableSortOf(ByOrdinal, listed, rows) && a == Emitted(rows) + unknown;
    var rows' :| StableSortOf(ByOrdinal, listed', rows')
      && b == Emitted(rows') + Tail(SawUnknown(hs) || f.buckets.includeUnknown, UNKNOWN, UnknownCount(hs));
    SameRows(gs, hs, CATALOG_RESERVED);
    RowsDistinct(gs, CATALOG_RESERVED);
    ComparatorsAreTotal(multiset(listed));
    SortUnique(ByOrdinal, rows, rows');
  }

  // ------------------------------------------------------------------ identity: the one that can depend on it

  function Strays(f: Facet, gs: seq<Group>): seq<string> {
    Undeclared(FirstSeen(gs), f.values)
  }

  lemma StraysAre(f: Facet, gs: seq<Group>)
    ensures NoRepeats(Strays(f, gs)) && forall k :: k in Strays(f, gs) <==> HasKey(gs, k) && k !in f.values
  {
    FirstSeenIs(gs);
    Conservation.UndeclaredIs(FirstSeen(gs), f.values);
  }

  lemma {:induction false} FirstRowFirst(g: Group, rest: seq<Group>)
    requires g.key.Some?
    ensures FirstSeen([g] + rest) != [] && FirstSeen([g] + rest)[0] == g.key.value
  {
    if rest != [] {
      FirstRowFirst(g, rest[..|rest| - 1]);
      assert ([g] + rest)[..|rest|] == [g] + rest[..|rest| - 1];
    } else {
      assert [g] + rest == [g] && [g][..0] == [];
    }
  }

  lemma {:induction false} FirstStrayFirst(keys: seq<string>, values: seq<string>)
    requires keys != [] && keys[0] !in values
    ensures Undeclared(keys, values) != [] && Undeclared(keys, values)[0] == keys[0]
  {
    if |keys| > 1 {
      FirstStrayFirst(keys[..|keys| - 1], values);
    } else {
      assert keys[..0] == [];
    }
  }

  /** The undeclared values follow arrival order, so two of them are enough for the chart to depend on it. */
  lemma IdentityOrderMattersIff(f: Facet, gs: seq<Group>)
    ensures |Strays(f, gs)| <= 1 <==>
      forall hs | multiset(hs) == multiset(gs) :: IdentityOf(f, hs) == IdentityOf(f, gs)
  {
    StraysAre(f, gs);
    if |Strays(f, gs)| <= 1 {
      forall hs | multiset(hs) == multiset(gs) ensures IdentityOf(f, hs) == IdentityOf(f, gs) {
        SameMembers(gs, hs);
        StraysAre(f, hs);
        OneStray(Strays(f, gs), Strays(f, hs));
        CountedSame(gs, hs, f.values + Strays(f, gs));
        SameCounts(gs, hs);
      }
    } else {
      var hs := AnotherOrder(f, gs);
      assert IdentityOf(f, gs)[|f.values|].key == Strays(f, gs)[0];
      assert IdentityOf(f, hs)[|f.values|].key == Strays(f, hs)[0];
    }
  }

  lemma OneStray(a: seq<string>, b: seq<string>)
    requires |a| <= 1 && NoRepeats(b) && forall k :: k in a <==> k in b
    ensures a == b
  {
    SameDistinct(a, b);
    if |a| == 1 {
      assert a[0] in b;
    }
  }

  lemma AnotherOrder(f: Facet, gs: seq<Group>) returns (hs: seq<Group>)
    requires |Strays(f, gs)| > 1
    ensures multiset(hs) == multiset(gs)
    ensures Strays(f, hs) != [] && Strays(f, hs)[0] != Strays(f, gs)[0]
  {
    StraysAre(f, gs);
    var k := Strays(f, gs)[1];
    assert k in Strays(f, gs);
    var g :| g in gs && g.key == Some(k);
    var i :| 0 <= i < |gs| && gs[i] == g;
    hs := [g] + (gs[..i] + gs[i + 1..]);
    assert gs == gs[..i] + [g] + gs[i + 1..];
    FirstRowFirst(g, gs[..i] + gs[i + 1..]);
    FirstStrayFirst(FirstSeen(hs), f.values);
  }

  /** For every strategy: rows grouped by key give one chart, except where two undeclared enum values race. */
  lemma ArrivalOrderIrrelevant(f: Facet, gs: seq<Group>, hs: seq<Group>, a: seq<Bucket>, b: seq<Bucket>)
    requires multiset(gs) == multiset(hs) && OneRowPerKey(gs) && IsBuckets(f, gs, a) && IsBuckets(f, hs, b)
    requires f.buckets.strategy.Identity? ==> |Strays(f, gs)| <= 1
    ensures a == b
  {
    match f.buckets.strategy {
      case Identity => IdentityOrderMattersIff(f, gs);
      case BoolPair =>
        CountedSame(gs, hs, ["true", "false"]);
        SameCounts(gs, hs);
      case Bands => BandsPermute(f, gs, hs);
      case DateTrunc => ChronologicalPermutes(f, gs, hs, a, b);
      case TopN => TopNPermutes(f, gs, hs, a, b);
      case Catalog => CatalogPermutes(f, gs, hs, a, b);
      case NoStrategy =>
      case StrategyOther(_) =>
    }
  }

  // ------------------------------------------------------------------ the unknown bucket

  predicate Ranked(f: Facet) {
    f.buckets.strategy.TopN? || f.buckets.strategy.Catalog?
  }

  /** Only the ranked aggregates spell NULL as a key; declared values and bands never do. */
  ghost predicate UnknownIsReserved(f: Facet, gs: seq<Group>) {
    && (!Ranked(f) ==> forall g | g in gs :: g.key != Some(UNKNOWN))
    && (f.buckets.strategy.Identity? ==> UNKNOWN !in f.values)
    && forall b | b in f.buckets.bands :: b.key != UNKNOWN
  }

  /** The chart without its unknown bucket, and that bucket when shown. */
  ghost predicate EndsUnknown(out: seq<Bucket>, shown: bool, n: int) {
    exists rest: seq<Bucket> :: (forall b | b in rest :: b.key != UNKNOWN) && out == rest + Tail(shown, UNKNOWN, n)
  }

  lemma FlatEnds(f: Facet, gs: seq<Group>, keys: seq<string>, out: seq<Bucket>)
    requires UNKNOWN !in keys && out == Counted(gs, keys) + UnknownTail(f, NullCount(gs))
    ensures EndsUnknown(out, f.buckets.includeUnknown || NullCount(gs) > 0, NullCount(gs))
  {
    forall b | b in Counted(gs, keys) ensures b.key != UNKNOWN {
      var i :| 0 <= i < |keys| && Counted(gs, keys)[i] == b;
      assert keys[i] in keys;
    }
  }

  lemma RankedEnds(gs: seq<Group>, reserved: set<string>, less: (Row, Row) -> bool, rows: seq<Row>)
    requires SortOf(less, RealRows(gs, reserved), rows) && UNKNOWN in reserved
    ensures forall b | b in Emitted(rows) :: b.key != UNKNOWN
  {
    RealRowsHold(gs, reserved);
    forall b | b in Emitted(rows) ensures b.key != UNKNOWN {
      var i :| 0 <= i < |rows| && Emitted(rows)[i] == b;
      assert rows[i] in multiset(rows) && rows[i] in RealRows(gs, reserved);
    }
  }

  lemma NullsAreUnknown(gs: seq<Group>)
    requires forall g | g in gs :: g.key != Some(UNKNOWN)
    ensures UnknownCount(gs) == NullCount(gs) && (SawUnknown(gs) <==> SawNull(gs))
  {
    SumSame(gs, AtUnknown, AtNull);
  }

  /** What shows the bucket where the facet does not declare it. */
  predicate ShowsUndeclaredUnknown(f: Facet, gs: seq<Group>) {
    if Ranked(f) || f.buckets.strategy.Bands? then SawUnknown(gs) else UnknownCount(gs) > 0
  }

  /**
   The last bucket of every chart: "(unknown)" is shown when the facet declares it; otherwise when NULL rows
   were counted, and by the banded and ranked charts even when they count nothing. It holds all of them.
   */
  lemma UnknownShownIff(f: Facet, gs: seq<Group>, out: seq<Bucket>)
    requires Conservation.KnownStrategy(f.buckets.strategy) && IsBuckets(f, gs, out) && UnknownIsReserved(f, gs)
    ensures EndsUnknown(out, f.buckets.includeUnknown || ShowsUndeclaredUnknown(f, gs), UnknownCount(gs))
  {
    if !Ranked(f) { NullsAreUnknown(gs); }
    match f.buckets.strategy {
      case Identity =>
        StraysAre(f, gs);
        FlatEnds(f, gs, f.values + Strays(f, gs), out);
      case BoolPair => FlatEnds(f, gs, ["true", "false"], out);
      case DateTrunc =>
        var keys :| SortOf(StrLess, FirstSeen(gs), keys) && out == Counted(gs, keys) + UnknownTail(f, NullCount(gs));
        FirstSeenIs(gs);
        SameMembers(keys, FirstSeen(gs));
        FlatEnds(f, gs, keys, out);
      case Bands => BandsEnd(f, gs);
      case TopN => TopNEnds(f, gs, out);
      case Catalog =>
        var listed := RealRows(gs, CATALOG_RESERVED);
        var rows :| StableSortOf(ByOrdinal, listed, rows)
          && out == Emitted(rows) + Tail(SawUnknown(gs) || f.buckets.includeUnknown, UNKNOWN, UnknownCount(gs));
        RankedEnds(gs, CATALOG_RESERVED, ByOrdinal, rows);
    }
  }

  lemma BandsEnd(f: Facet, gs: seq<Group>)
    requires forall b | b in f.buckets.bands :: b.key != UNKNOWN
    ensures EndsUnknown(BandsOf(f, gs), SawNull(gs) || f.buckets.includeUnknown, NullCount(gs))
  {
    var bands, other := f.buckets.bands, SlotCount(f.buckets.bands, gs, NoBand);
    var rest := BandCounts(bands, gs) + Tail(other > 0, OTHER, other);
    forall b | b in rest ensures b.key != UNKNOWN {
      if b in BandCounts(bands, gs) {
        var i :| 0 <= i < |bands| && BandCounts(bands, gs)[i] == b;
        assert bands[i] in bands;
      }
    }
  }

  lemma TopNEnds(f: Facet, gs: seq<Group>, out: seq<Bucket>)
    requires IsTopN(f, gs, out)
    ensures EndsUnknown(out, SawUnknown(gs) || f.buckets.includeUnknown, UnknownCount(gs))
  {
    var listed := RealRows(gs, TOPN_RESERVED);
    var rows :| SortOf(TopNOrder(listed), listed, rows) && out == Emitted(rows) + TopNTails(f, gs);
    RankedEnds(gs, TOPN_RESERVED, TopNOrder(listed), rows);
    var other := CountOf(gs, OTHER);
    var rest := Emitted(rows) + Tail(other > 0, OTHER, other);
    assert out == rest + Tail(SawUnknown(gs) || f.buckets.includeUnknown, UNKNOWN, UnknownCount(gs));
  }
}
