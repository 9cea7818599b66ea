/**
 "Every counted row lands in exactly one bucket" (pkg/stats/stats.go:19-25), strategy by strategy, over
 any rows with non-negative counts: where it holds outright, and exactly when it holds elsewhere.
 */
module Conservation {
  import opened Wrappers
  import opened Ordering
  import opened Sums
  import opened Facets
  import opened Stats
  import opened Ranking
  import opened Assembly

  ghost predicate NonNegative(gs: seq<Group>) {
    forall g | g in gs :: g.count >= 0
  }

  lemma NullsCounted(gs: seq<Group>)
    requires NonNegative(gs)
    ensures NullCount(gs) >= 0 && UnknownCount(gs) >= 0
  {
    SumZeroIff(gs, AtNull);
    SumZeroIff(gs, AtUnknown);
  }

  lemma TailTotal(shown: bool, key: string, n: int)
    requires !shown ==> n == 0
    ensures BucketTotal(Tail(shown, key, n)) == n
  {
    if shown {
      assert Tail(shown, key, n) == [] + [Bucket(key, n)];
      SumSnoc([], Bucket(key, n), BucketCount);
    }
  }

  // ------------------------------------------------------------------ buckets listed by key

  /** A row counts once for every time its key is listed. */
  function Listed(keys: seq<string>): Group -> int {
    (g: Group) => if g.key.Some? then multiset(keys)[g.key.value] * g.count else 0
  }

  lemma {:induction false} CountedTotal(gs: seq<Group>, keys: seq<string>)
    ensures BucketTotal(Counted(gs, keys)) == SumBy(gs, Listed(keys))
  {
    if keys == [] {
      SumSame(gs, Listed(keys), (g: Group) => 0);
      SumZeroIff(gs, (g: Group) => 0);
    } else {
      var init, last := keys[..|keys| - 1], keys[|keys| - 1];
      CountedTotal(gs, init);
      assert Counted(gs, keys) == Counted(gs, init) + [Bucket(last, CountOf(gs, last))];
      SumSnoc(Counted(gs, init), Bucket(last, CountOf(gs, last)), BucketCount);
      assert keys == init + [last];
      forall g | g in gs ensures Listed(keys)(g) == Listed(init)(g) + AtKey(last)(g) {
        if g.key.Some? { OneMore(init, last, g.key.value, g.count); }
      }
      SumSplit(gs, Listed(keys), Listed(init), AtKey(last));
    }
  }

  lemma OneMore(init: seq<string>, last: string, k: string, n: int)
    ensures multiset(init + [last])[k] * n == multiset(init)[k] * n + if k == last then n else 0
  {
  }

  // ------------------------------------------------------------------ identity

  /** What a value declared more than once adds beyond its rows. */
  function Surplus(values: seq<string>): Group -> int {
    (g: Group) =>
      if g.key.Some? && multiset(values)[g.key.value] > 1 then (multiset(values)[g.key.value] - 1) * g.count else 0
  }

  lemma {:induction false} UndeclaredIs(keys: seq<string>, values: seq<string>)
    requires NoRepeats(keys)
    ensures NoRepeats(Undeclared(keys, values))
    ensures forall k :: k in Undeclared(keys, values) <==> k in keys && k !in values
  {
    if keys != [] {
      var init, last := keys[..|keys| - 1], keys[|keys| - 1];
      assert keys == init + [last] && last !in init;
      UndeclaredIs(init, values);
    }
  }

  /** Each key counted is charted as often as it is declared, or once if it is not. */
  lemma ChartedOnce(gs: seq<Group>, values: seq<string>, g: Group)
    requires g in gs && g.key.Some?
    ensures multiset(values + Undeclared(FirstSeen(gs), values))[g.key.value] ==
      if g.key.value in values then multiset(values)[g.key.value] else 1
  {
    var k, extra := g.key.value, Undeclared(FirstSeen(gs), values);
    FirstSeenIs(gs);
    assert HasKey(gs, k);
    UndeclaredIs(FirstSeen(gs), values);
    OnceEach(extra, k);
    assert multiset(values + extra)[k] == multiset(values)[k] + multiset(extra)[k];
  }

  lemma IdentityWeight(gs: seq<Group>, values: seq<string>, g: Group)
    requires g in gs
    ensures Whole(g) + Surplus(values)(g) == Listed(values + Undeclared(FirstSeen(gs), values))(g) + AtNull(g)
  {
    if g.key.Some? {
      ChartedOnce(gs, values, g);
      assert g.key.value in values <==> multiset(values)[g.key.value] > 0;
      LessOne(multiset(values)[g.key.value], g.count);
    }
  }

  lemma LessOne(m: int, n: int)
    ensures m * n == n + (m - 1) * n
  {
  }

  lemma IdentityTotal(f: Facet, gs: seq<Group>)
    requires NonNegative(gs)
    ensures BucketTotal(IdentityOf(f, gs)) == Total(gs) + SumBy(gs, Surplus(f.values))
  {
    var keys := f.values + Undeclared(FirstSeen(gs), f.values);
    NullsCounted(gs);
    CountedTotal(gs, keys);
    TailTotal(f.buckets.includeUnknown || NullCount(gs) > 0, UNKNOWN, NullCount(gs));
    SumAppend(Counted(gs, keys), UnknownTail(f, NullCount(gs)), BucketCount);
    forall g | g in gs ensures Whole(g) + Surplus(f.values)(g) == Listed(keys)(g) + AtNull(g) {
      IdentityWeight(gs, f.values, g);
    }
    var both := (g: Group) => Whole(g) + Surplus(f.values)(g);
    SumSplit(gs, both, Whole, Surplus(f.values));
    SumSplit(gs, both, Listed(keys), AtNull);
  }

  /** A value declared twice is shown twice, so the sum is right exactly when no such value has rows. */
  lemma IdentityConservesIff(f: Facet, gs: seq<Group>)
    requires NonNegative(gs)
    ensures BucketTotal(IdentityOf(f, gs)) >= Total(gs)
    ensures BucketTotal(IdentityOf(f, gs)) == Total(gs) <==>
      forall g | g in gs && g.key.Some? && multiset(f.values)[g.key.value] > 1 :: g.count == 0
  {
    IdentityTotal(f, gs);
    forall g | g in gs ensures Surplus(f.values)(g) >= 0 && (Surplus(f.values)(g) == 0 <==>
        !(g.key.Some? && multiset(f.values)[g.key.value] > 1) || g.count == 0) {
      if g.key.Some? && multiset(f.values)[g.key.value] > 1 {
        PositiveTimes(multiset(f.values)[g.key.value] - 1, g.count);
      }
    }
    SumZeroIff(gs, Surplus(f.values));
  }

  lemma PositiveTimes(m: int, n: int)
    requires m > 0 && n >= 0
    ensures m * n >= 0 && (m * n == 0 <==> n == 0)
  {
  }

  /** With the declared values distinct, nothing is ever counted twice. */
  lemma DistinctValuesConserve(f: Facet, gs: seq<Group>)
    requires NonNegative(gs) && NoRepeats(f.values)
    ensures BucketTotal(IdentityOf(f, gs)) == Total(gs)
  {
    IdentityConservesIff(f, gs);
    forall g | g in gs && g.key.Some? ensures multiset(f.values)[g.key.value] <= 1 {
      OnceEach(f.values, g.key.value);
    }
  }

  const SEX_TWICE := Facet("sex", KindEnum, "oikumenea.person_persons", "sex", "",
    Buckets(Identity, 0, "", [], "", "", true), "", ["male", "male"], [], "", "")

  const ONE_MALE := [Group("sex", Some("male"), 1, None)]

  lemma SexTwiceIsValid(v: Vocabulary)
    ensures ValidFacet(v, SEX_TWICE)
  {
  }

  /** Registration does not ask for distinct values: it accepts a type whose buckets exceed its rows. */
  lemma RepeatedValueOvercounts(v: Vocabulary, typ: string)
    requires typ != "" && typ in v.listable
    ensures WellFormed(v, TypeWith(typ, SEX_TWICE)) && NonNegative(ONE_MALE)
    ensures BucketTotal(IdentityOf(SEX_TWICE, ONE_MALE)) > Total(ONE_MALE)
  {
    SexTwiceIsValid(v);
    TypeWithIsWellFormed(v, typ, SEX_TWICE);
    assert multiset(SEX_TWICE.values)["male"] == 2 && ONE_MALE[0] in ONE_MALE;
    IdentityConservesIff(SEX_TWICE, ONE_MALE);
  }

  // ------------------------------------------------------------------ bool

  function AtNeither(g: Group): int {
    if g.key.Some? && g.key.value != "true" && g.key.value != "false" then g.count else 0
  }

  /** Only "true" and "false" are read: the sum is right exactly when every other key counts nothing. */
  lemma BoolConservesIff(f: Facet, gs: seq<Group>)
    requires NonNegative(gs)
    ensures BucketTotal(BoolOf(f, gs)) == Total(gs) - SumBy(gs, AtNeither)
    ensures BucketTotal(BoolOf(f, gs)) == Total(gs) <==>
      forall g | g in gs && g.key.Some? && g.key.value != "true" && g.key.value != "false" :: g.count == 0
  {
    var keys := ["true", "false"];
    NullsCounted(gs);
    CountedTotal(gs, keys);
    TailTotal(f.buckets.includeUnknown || NullCount(gs) > 0, UNKNOWN, NullCount(gs));
    SumAppend(Counted(gs, keys), UnknownTail(f, NullCount(gs)), BucketCount);
    forall g | g in gs ensures Whole(g) == Listed(keys)(g) + AtNull(g) + AtNeither(g) {
      if g.key.Some? { OnceEach(keys, g.key.value); }
    }
    var kept := (g: Group) => Listed(keys)(g) + AtNull(g);
    SumSplit(gs, kept, Listed(keys), AtNull);
    SumSplit(gs, Whole, kept, AtNeither);
    SumZeroIff(gs, AtNeither);
  }

  // ------------------------------------------------------------------ dateTrunc

  lemma ChronologicalConserves(f: Facet, gs: seq<Group>, out: seq<Bucket>)
    requires NonNegative(gs) && IsChronological(f, gs, out)
    ensures BucketTotal(out) == Total(gs)
  {
    var keys :| SortOf(StrLess, FirstSeen(gs), keys) && out == Counted(gs, keys) + UnknownTail(f, NullCount(gs));
    NullsCounted(gs);
    CountedTotal(gs, keys);
    TailTotal(f.buckets.includeUnknown || NullCount(gs) > 0, UNKNOWN, NullCount(gs));
    SumAppend(Counted(gs, keys), UnknownTail(f, NullCount(gs)), BucketCount);
    FirstSeenIs(gs);
    forall g | g in gs ensures Whole(g) == Listed(keys)(g) + AtNull(g) {
      if g.key.Some? {
        assert HasKey(gs, g.key.value);
        OnceEach(FirstSeen(gs), g.key.value);
        assert multiset(keys)[g.key.value] == multiset(FirstSeen(gs))[g.key.value];
      }
    }
    SumSplit(gs, Whole, Listed(keys), AtNull);
  }

  // ------------------------------------------------------------------ bands

  function BelowBand(bands: seq<Band>, n: nat): Group -> int {
    (g: Group) => var s := SlotOf(bands, g.key); if s.InSlot? && s.index < n then g.count else 0
  }

  lemma {:induction false} BandsBelow(bands: seq<Band>, gs: seq<Group>, n: nat)
    requires n <= |bands|
    ensures BucketTotal(BandCounts(bands, gs)[..n]) == SumBy(gs, BelowBand(bands, n))
  {
    if n == 0 {
      SumSame(gs, BelowBand(bands, 0), (g: Group) => 0);
      SumZeroIff(gs, (g: Group) => 0);
    } else {
      BandsBelow(bands, gs, n - 1);
      TakeStep(BandCounts(bands, gs), n - 1, BucketCount);
      SumSplit(gs, BelowBand(bands, n), BelowBand(bands, n - 1), AtSlot(bands, InSlot(n - 1)));
    }
  }

  lemma BandsConserve(f: Facet, gs: seq<Group>)
    requires NonNegative(gs)
    ensures BucketTotal(BandsOf(f, gs)) == Total(gs)
  {
    var bands := f.buckets.bands;
    var inside, other := BandCounts(bands, gs), SlotCount(bands, gs, NoBand);
    BandsBelow(bands, gs, |bands|);
    assert inside[..|bands|] == inside;
    var known := (g: Group) => BelowBand(bands, |bands|)(g) + AtSlot(bands, NoBand)(g);
    SumSplit(gs, known, BelowBand(bands, |bands|), AtSlot(bands, NoBand));
    SumSplit(gs, Whole, known, AtNull);
    SumZeroIff(gs, AtSlot(bands, NoBand));
    SumZeroIff(gs, AtNull);
    TailTotal(other > 0, OTHER, other);
    if !SawNull(gs) {
      assert forall g | g in gs :: AtNull(g) == 0;
    }
    var shown := SawNull(gs) || f.buckets.includeUnknown;
    TailTotal(shown, UNKNOWN, NullCount(gs));
    SumAppend(inside, Tail(other > 0, OTHER, other), BucketCount);
    SumAppend(inside + Tail(other > 0, OTHER, other), Tail(shown, UNKNOWN, NullCount(gs)), BucketCount);
  }

  // ------------------------------------------------------------------ topN and catalog

  function AtReal(reserved: set<string>): Group -> int {
    (g: Group) => if IsReal(g, reserved) then g.count else 0
  }

  function RowCount(r: Row): int {
    r.count
  }

  lemma {:induction false} RealTotal(gs: seq<Group>, reserved: set<string>)
    ensures SumBy(RealRows(gs, reserved), RowCount) == SumBy(gs, AtReal(reserved))
  {
    if gs != [] {
      var init, g := gs[..|gs| - 1], gs[|gs| - 1];
      RealTotal(init, reserved);
      if IsReal(g, reserved) {
        SumSnoc(RealRows(init, reserved), RowOf(g), RowCount);
      }
    }
  }

  lemma {:induction false} EmittedTotal(rows: seq<Row>)
    ensures BucketTotal(Emitted(rows)) == SumBy(rows, RowCount)
  {
    if rows != [] {
      var init := rows[..|rows| - 1];
      EmittedTotal(init);
      assert Emitted(rows)[..|rows| - 1] == Emitted(init);
    }
  }

  lemma UnknownShown(f: Facet, gs: seq<Group>)
    requires NonNegative(gs)
    ensures BucketTotal(Tail(SawUnknown(gs) || f.buckets.includeUnknown, UNKNOWN, UnknownCount(gs))) == UnknownCount(gs)
  {
    SumZeroIff(gs, AtUnknown);
    if !SawUnknown(gs) {
      assert forall g | g in gs :: AtUnknown(g) == 0;
    }
    TailTotal(SawUnknown(gs) || f.buckets.includeUnknown, UNKNOWN, UnknownCount(gs));
  }

  lemma TopNTailsTotal(f: Facet, gs: seq<Group>)
    requires NonNegative(gs)
    ensures BucketTotal(TopNTails(f, gs)) == CountOf(gs, OTHER) + UnknownCount(gs)
  {
    var other := CountOf(gs, OTHER);
    SumZeroIff(gs, AtKey(OTHER));
    TailTotal(other > 0, OTHER, other);
    UnknownShown(f, gs);
    SumAppend(Tail(other > 0, OTHER, other),
      Tail(SawUnknown(gs) || f.buckets.includeUnknown, UNKNOWN, UnknownCount(gs)), BucketCount);
  }

  lemma TopNWeights(gs: seq<Group>)
    ensures Total(gs) == SumBy(gs, AtReal(TOPN_RESERVED)) + CountOf(gs, OTHER) + UnknownCount(gs)
  {
  }

  lemma TopNConserves(f: Facet, gs: seq<Group>, out: seq<Bucket>)
    requires NonNegative(gs) && IsTopN(f, gs, out)
    ensures BucketTotal(out) == Total(gs)
  {
    var listed := RealRows(gs, TOPN_RESERVED);
    var rows :| SortOf(TopNOrder(listed), listed, rows) && out == Emitted(rows) + TopNTails(f, gs);
    SumPermutes(rows, listed, RowCount);
    RealTotal(gs, TOPN_RESERVED);
    EmittedTotal(rows);
    TopNTailsTotal(f, gs);
    TopNWeights(gs);
    SumAppend(Emitted(rows), TopNTails(f, gs), BucketCount);
  }

  lemma CatalogWeights(gs: seq<Group>)
    ensures Total(gs) == SumBy(gs, AtReal(CATALOG_RESERVED)) + UnknownCount(gs)
  {
  }

  lemma CatalogConserves(f: Facet, gs: seq<Group>, out: seq<Bucket>)
    requires NonNegative(gs) && IsCatalog(f, gs, out)
    ensures BucketTotal(out) == Total(gs)
  {
    var listed := RealRows(gs, CATALOG_RESERVED);
    var unknown := Tail(SawUnknown(gs) || f.buckets.includeUnknown, UNKNOWN, UnknownCount(gs));
    var rows :| StableSortOf(ByOrdinal, listed, rows) && out == Emitted(rows) + unknown;
    SumPermutes(rows, listed, RowCount);
    RealTotal(gs, CATALOG_RESERVED);
    EmittedTotal(rows);
    UnknownShown(f, gs);
    CatalogWeights(gs);
    SumAppend(Emitted(rows), unknown, BucketCount);
  }

  // ------------------------------------------------------------------ every strategy

  /** No rows under a value declared more than once, and none under a bool key that is neither. */
  ghost predicate Faithful(f: Facet, gs: seq<Group>) {
    match f.buckets.strategy
    case Identity => forall g | g in gs && g.key.Some? && multiset(f.values)[g.key.value] > 1 :: g.count == 0
    case BoolPair =>
      forall g | g in gs && g.key.Some? && g.key.value != "true" && g.key.value != "false" :: g.count == 0
    case _ => true
  }

  predicate KnownStrategy(s: Strategy) {
    !s.NoStrategy? && !s.StrategyOther?
  }

  lemma ConservesIff(f: Facet, gs: seq<Group>, out: seq<Bucket>)
    requires NonNegative(gs) && KnownStrategy(f.buckets.strategy) && IsBuckets(f, gs, out)
    ensures BucketTotal(out) == Total(gs) <==> Faithful(f, gs)
  {
    match f.buckets.strategy {
      case Identity => IdentityConservesIff(f, gs);
      case BoolPair => BoolConservesIff(f, gs);
      case Bands => BandsConserve(f, gs);
      case DateTrunc => ChronologicalConserves(f, gs, out);
      case TopN => TopNConserves(f, gs, out);
      case Catalog => CatalogConserves(f, gs, out);
    }
  }
}
