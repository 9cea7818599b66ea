/** The buckets of every selected facet, from one row set (pkg/stats/stats.go, Assemble and bucketsFor). */
module Assembly {
  import opened Sums
  import opened Facets
  import opened Stats
  import opened Ranking

  ghost predicate IsBuckets(f: Facet, gs: seq<Group>, out: seq<Bucket>) {
    match f.buckets.strategy
    case Identity => out == IdentityOf(f, gs)
    case BoolPair => out == BoolOf(f, gs)
    case Bands => out == BandsOf(f, gs)
    case DateTrunc => IsChronological(f, gs, out)
    case TopN => IsTopN(f, gs, out)
    case Catalog => IsCatalog(f, gs, out)
    case NoStrategy => out == []
    case StrategyOther(_) => out == []
  }

  method BucketsFor(f: Facet, gs: seq<Group>) returns (out: seq<Bucket>)
    ensures IsBuckets(f, gs, out)
  {
    match f.buckets.strategy {
      case Identity => out := IdentityBuckets(f, gs);
      case BoolPair => out := BoolBuckets(f, gs);
      case Bands => out := BandBuckets(f, gs);
      case DateTrunc => out := ChronologicalBuckets(f, gs);
      case TopN => out := TopNBuckets(f, gs);
      case Catalog => out := CatalogBuckets(f, gs);
      case NoStrategy => out := [];
      case StrategyOther(_) => out := [];
    }
  }

  /** The rows a facet is assembled from: its own, and never the total's. */
  function RowsOf(gs: seq<Group>, key: string): seq<Group> {
    if gs == [] then [] else
      var init, g := RowsOf(gs[..|gs| - 1], key), gs[|gs| - 1];
      if g.facet == key && key != TOTAL_FACET then init + [g] else init
  }

  function AtTotal(g: Group): int {
    if g.facet == TOTAL_FACET then g.count else 0
  }

  function GrandTotal(gs: seq<Group>): int {
    SumBy(gs, AtTotal)
  }

  /** The total is read from the rows of the pseudo-facet "(total)", which are no facet's. */
  lemma {:induction false} TotalRowsAre(gs: seq<Group>, key: string)
    requires forall g | g in gs :: g.facet == "(total)"
    ensures GrandTotal(gs) == Total(gs) && RowsOf(gs, key) == []
  {
    if gs != [] {
      var init, g := gs[..|gs| - 1], gs[|gs| - 1];
      assert gs == init + [g];
      TotalRowsAre(init, key);
      SumSnoc(init, g, AtTotal);
      SumSnoc(init, g, Whole);
    }
  }

  /** The total adds up over the rows, and a facet's own rows add nothing to it. */
  lemma {:induction false} FacetRowsAddNothing(before: seq<Group>, after: seq<Group>)
    ensures GrandTotal(before + after) == GrandTotal(before) + GrandTotal(after)
    ensures (forall g | g in after :: g.facet != "(total)") ==> GrandTotal(after) == 0
  {
    SumAppend(before, after, AtTotal);
    if forall g | g in after :: g.facet != "(total)" {
      SumZeroIff(after, AtTotal);
    }
  }

  /** A facet's rows are exactly those bearing its key, in the order they came. */
  lemma {:induction false} RowsOfInOrder(before: seq<Group>, after: seq<Group>, key: string)
    requires key != "(total)"
    ensures RowsOf(before + after, key) == RowsOf(before, key) + RowsOf(after, key)
    ensures (forall g | g in after :: g.facet == key) ==> RowsOf(after, key) == after
    ensures (forall g | g in after :: g.facet != key) ==> RowsOf(after, key) == []
  {
    if after == [] {
      assert before + after == before;
    } else {
      var init := after[..|after| - 1];
      assert (before + after)[..|before + after| - 1] == before + init;
      RowsOfInOrder(before, init, key);
    }
  }

  function RowsUnder(byFacet: map<string, seq<Group>>, key: string): seq<Group> {
    if key in byFacet then byFacet[key] else []
  }

  method SplitByFacet(gs: seq<Group>) returns (total: int, byFacet: map<string, seq<Group>>)
    ensures total == GrandTotal(gs)
    ensures forall k :: RowsUnder(byFacet, k) == RowsOf(gs, k)
  {
    total, byFacet := 0, map[];
    for i := 0 to |gs|
      invariant total == GrandTotal(gs[..i])
      invariant forall k :: RowsUnder(byFacet, k) == RowsOf(gs[..i], k)
    {
      var g := gs[i];
      assert gs[..i + 1][..i] == gs[..i];
      TakeStep(gs, i, AtTotal);
      if g.facet == TOTAL_FACET {
        total := total + g.count;
        continue;
      }
      byFacet := byFacet[g.facet := RowsUnder(byFacet, g.facet) + [g]];
    }
    assert gs[..|gs|] == gs;
  }

  /** One distribution per selected facet, in catalog order, each from that facet's own rows. */
  ghost predicate IsReport(selected: seq<Facet>, gs: seq<Group>, r: Report) {
    && r.total == GrandTotal(gs)
    && |r.distributions| == |selected|
    && forall i | 0 <= i < |selected| ::
         r.distributions[i].facet == selected[i].key
         && IsBuckets(selected[i], RowsOf(gs, selected[i].key), r.distributions[i].buckets)
  }

  method Assemble(selected: seq<Facet>, gs: seq<Group>) returns (r: Report)
    ensures IsReport(selected, gs, r)
  {
    var total, byFacet := SplitByFacet(gs);
    var ds: seq<Distribution> := [];
    for i := 0 to |selected|
      invariant |ds| == i
      invariant forall j | 0 <= j < i ::
        ds[j].facet == selected[j].key && IsBuckets(selected[j], RowsOf(gs, selected[j].key), ds[j].buckets)
    {
      var buckets := BucketsFor(selected[i], RowsUnder(byFacet, selected[i].key));
      ds := ds + [Distribution(selected[i].key, buckets)];
    }
    r := Report(total, ds);
  }
}
