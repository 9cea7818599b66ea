/** The ranked strategies, topN and catalog (pkg/stats/stats.go, topNBuckets and catalogBuckets). */
module Ranking {
  import opened Wrappers
  import opened Ordering
  import opened Sums
  import opened Facets
  import opened Stats

  datatype Row = Row(key: string, ord: Option<int>, count: int)

  /** By the catalog's ordinal, then key; rows without an ordinal after the whole scale. */
  predicate ByOrdinal(a: Row, b: Row) {
    if a.ord.None? && b.ord.None? then StrLess(a.key, b.key)
    else if a.ord.None? then false
    else if b.ord.None? then true
    else if a.ord.value != b.ord.value then a.ord.value < b.ord.value
    else StrLess(a.key, b.key)
  }

  /** Largest count first, then key. */
  predicate ByCount(a: Row, b: Row) {
    if a.count != b.count then a.count > b.count else StrLess(a.key, b.key)
  }

  predicate AllOrdered(rows: seq<Row>) {
    rows != [] && forall r | r in rows :: r.ord.Some?
  }

  /** A top-N chart follows the ordinal only when every row carries one. */
  function TopNOrder(rows: seq<Row>): (Row, Row) -> bool {
    if AllOrdered(rows) then ByOrdinal else ByCount
  }

  ghost predicate DistinctRows(rows: multiset<Row>) {
    forall a, b | a in rows && b in rows && a != b :: a.key != b.key
  }

  lemma ByOrdinalIsWeak(rows: multiset<Row>)
    ensures WeakOrderOn(ByOrdinal, rows)
  {
    forall a | a in rows ensures !ByOrdinal(a, a) { StrIrreflexive(a.key); }
    forall a, b, c | a in rows && b in rows && c in rows && ByOrdinal(a, b) && ByOrdinal(b, c) ensures ByOrdinal(a, c) {
      if StrLess(a.key, b.key) && StrLess(b.key, c.key) { StrTransitive(a.key, b.key, c.key); }
    }
    forall a, b, c | a in rows && b in rows && c in rows && ByOrdinal(a, c) ensures ByOrdinal(a, b) || ByOrdinal(b, c) {
      KeysWeak(a.key, b.key, c.key);
    }
  }

  lemma ByCountIsWeak(rows: multiset<Row>)
    ensures WeakOrderOn(ByCount, rows)
  {
    forall a | a in rows ensures !ByCount(a, a) { StrIrreflexive(a.key); }
    forall a, b, c | a in rows && b in rows && c in rows && ByCount(a, b) && ByCount(b, c) ensures ByCount(a, c) {
      if StrLess(a.key, b.key) && StrLess(b.key, c.key) { StrTransitive(a.key, b.key, c.key); }
    }
    forall a, b, c | a in rows && b in rows && c in rows && ByCount(a, c) ensures ByCount(a, b) || ByCount(b, c) {
      KeysWeak(a.key, b.key, c.key);
    }
  }

  lemma KeysWeak(a: string, b: string, c: string)
    ensures StrLess(a, c) ==> StrLess(a, b) || StrLess(b, c)
  {
  }

  /** On rows with distinct keys both comparators are strict total orders, so the chart order is determined. */
  lemma ComparatorsAreTotal(rows: multiset<Row>)
    requires DistinctRows(rows)
    ensures StrictTotalOn(ByOrdinal, rows) && StrictTotalOn(ByCount, rows)
  {
    ByOrdinalIsWeak(rows);
    ByCountIsWeak(rows);
    forall a, b | a in rows && b in rows && a != b
      ensures (ByOrdinal(a, b) || ByOrdinal(b, a)) && (ByCount(a, b) || ByCount(b, a))
    {
      StrConnected(a.key, b.key);
    }
  }

  // ------------------------------------------------------------------ splitting off the synthetic keys

  predicate IsReal(g: Group, reserved: set<string>) {
    g.key.Some? && g.key.value !in reserved
  }

  function RowOf(g: Group): Row
    requires g.key.Some?
  {
    Row(g.key.value, g.ord, g.count)
  }

  function RealRows(gs: seq<Group>, reserved: set<string>): seq<Row> {
    if gs == [] then [] else
      var init, g := RealRows(gs[..|gs| - 1], reserved), gs[|gs| - 1];
      if IsReal(g, reserved) then init + [RowOf(g)] else init
  }

  predicate IsUnknown(g: Group) {
    g.key.None? || g.key.value == UNKNOWN
  }

  function AtUnknown(g: Group): int {
    if IsUnknown(g) then g.count else 0
  }

  function UnknownCount(gs: seq<Group>): int {
    SumBy(gs, AtUnknown)
  }

  predicate SawUnknown(gs: seq<Group>) {
    exists g :: g in gs && IsUnknown(g)
  }

  function Emitted(rows: seq<Row>): seq<Bucket> {
    seq(|rows|, i requires 0 <= i < |rows| => Bucket(rows[i].key, rows[i].count))
  }

  const TOPN_RESERVED := {OTHER, UNKNOWN}

  const CATALOG_RESERVED := {UNKNOWN}

  function TopNTails(f: Facet, gs: seq<Group>): seq<Bucket> {
    var other := CountOf(gs, OTHER);
    Tail(other > 0, OTHER, other) + Tail(SawUnknown(gs) || f.buckets.includeUnknown, UNKNOWN, UnknownCount(gs))
  }

  /** The real rows in chart order, the collapsed tail after them, the NULLs last. */
  ghost predicate IsTopN(f: Facet, gs: seq<Group>, out: seq<Bucket>) {
    var listed := RealRows(gs, TOPN_RESERVED);
    exists rows :: SortOf(TopNOrder(listed), listed, rows) && out == Emitted(rows) + TopNTails(f, gs)
  }

  /** The catalog's rows in its own order, ties as they arrived, the NULLs last; "(other)" is a row like any other. */
  ghost predicate IsCatalog(f: Facet, gs: seq<Group>, out: seq<Bucket>) {
    var listed := RealRows(gs, CATALOG_RESERVED);
    exists rows ::
      StableSortOf(ByOrdinal, listed, rows)
      && out == Emitted(rows) + Tail(SawUnknown(gs) || f.buckets.includeUnknown, UNKNOWN, UnknownCount(gs))
  }

  lemma SplitStep(gs: seq<Group>, i: nat, reserved: set<string>)
    requires i < |gs|
    ensures RealRows(gs[..i + 1], reserved) ==
      RealRows(gs[..i], reserved) + if IsReal(gs[i], reserved) then [RowOf(gs[i])] else []
    ensures UnknownCount(gs[..i + 1]) == UnknownCount(gs[..i]) + AtUnknown(gs[i])
    ensures SawUnknown(gs[..i + 1]) <==> SawUnknown(gs[..i]) || IsUnknown(gs[i])
    ensures CountOf(gs[..i + 1], OTHER) == CountOf(gs[..i], OTHER) + AtKey(OTHER)(gs[i])
  {
    assert gs[..i + 1] == gs[..i] + [gs[i]] && gs[..i + 1][..i] == gs[..i];
    TakeStep(gs, i, AtUnknown);
    TakeStep(gs, i, AtKey(OTHER));
    if IsUnknown(gs[i]) { assert gs[i] in gs[..i + 1]; }
    if SawUnknown(gs[..i]) {
      var g :| g in gs[..i] && IsUnknown(g);
      assert g in gs[..i + 1];
    }
  }

  method Emit(rows: seq<Row>) returns (out: seq<Bucket>)
    ensures out == Emitted(rows)
  {
    out := [];
    for i := 0 to |rows|
      invariant out == Emitted(rows)[..i]
    {
      out := out + [Bucket(rows[i].key, rows[i].count)];
    }
  }

  method SplitTopN(gs: seq<Group>) returns (rows: seq<Row>, other: int, unknown: int, sawUnknown: bool)
    ensures rows == RealRows(gs, TOPN_RESERVED) && other == CountOf(gs, OTHER)
    ensures unknown == UnknownCount(gs) && (sawUnknown <==> SawUnknown(gs))
  {
    rows, other, unknown, sawUnknown := [], 0, 0, false;
    for i := 0 to |gs|
      invariant rows == RealRows(gs[..i], TOPN_RESERVED) && other == CountOf(gs[..i], OTHER)
      invariant unknown == UnknownCount(gs[..i]) && (sawUnknown <==> SawUnknown(gs[..i]))
    {
      var g := gs[i];
      SplitStep(gs, i, TOPN_RESERVED);
      if g.key.None? {
        unknown, sawUnknown := unknown + g.count, true;
      } else if g.key.value == OTHER {
        other := other + g.count;
      } else if g.key.value == UNKNOWN {
        unknown, sawUnknown := unknown + g.count, true;
      } else {
        rows := rows + [RowOf(g)];
      }
    }
    assert gs[..|gs|] == gs;
  }

  method HasFullOrder(rows: seq<Row>) returns (ordered: bool)
    ensures ordered <==> AllOrdered(rows)
  {
    ordered := |rows| > 0;
    for i := 0 to |rows|
      invariant ordered == (|rows| > 0) && forall j | 0 <= j < i :: rows[j].ord.Some?
    {
      if rows[i].ord.None? {
        assert rows[i] in rows;
        return false;
      }
    }
  }

  method TopNBuckets(f: Facet, gs: seq<Group>) returns (out: seq<Bucket>)
    ensures IsTopN(f, gs, out)
  {
    var listed, other, unknown, sawUnknown := SplitTopN(gs);
    var ordered := HasFullOrder(listed);
    ByOrdinalIsWeak(multiset(listed));
    ByCountIsWeak(multiset(listed));
    var rows;
    if ordered {
      rows := SortSlice(ByOrdinal, listed);
    } else {
      rows := SortSlice(ByCount, listed);
    }
    out := Emit(rows);
    if other > 0 {
      out := out + [Bucket(OTHER, other)];
    }
    if sawUnknown || f.buckets.includeUnknown {
      out := out + [Bucket(UNKNOWN, unknown)];
    }
    assert out == Emitted(rows) + TopNTails(f, gs);
  }

  method CatalogBuckets(f: Facet, gs: seq<Group>) returns (out: seq<Bucket>)
    ensures IsCatalog(f, gs, out)
  {
    var listed: seq<Row>, unknown, sawUnknown := [], 0, false;
    for i := 0 to |gs|
      invariant listed == RealRows(gs[..i], CATALOG_RESERVED)
      invariant unknown == UnknownCount(gs[..i]) && (sawUnknown <==> SawUnknown(gs[..i]))
    {
      var g := gs[i];
      SplitStep(gs, i, CATALOG_RESERVED);
      if g.key.None? || g.key.value == UNKNOWN {
        unknown, sawUnknown := unknown + g.count, true;
      } else {
        listed := listed + [RowOf(g)];
      }
    }
    assert gs[..|gs|] == gs;
    ByOrdinalIsWeak(multiset(listed));
    var rows := SortStable(ByOrdinal, listed);
    out := Emit(rows);
    if sawUnknown || f.buckets.includeUnknown {
      out := out + [Bucket(UNKNOWN, unknown)];
    }
  }
}
