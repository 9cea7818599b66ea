/** Everything registration refuses a type for, error by error as pkg/facet/facet.go reports them (432-690). */
module Refusals {
  import opened Wrappers
  import opened Ordering
  import opened Facets

  ghost predicate HeaderFault(v: Vocabulary, o: ObjectType) {
    || o.typ == ""
    || (o.ledger != "" && o.profile != "")
    || (o.ledger == "" && o.profile == "" && o.typ !in v.listable)
    || (o.ledger != "" && o.typ in v.listable)
    || (o.profile != "" && o.typ in v.listable)
    || (o.profile != "" && o.profile == o.typ)
    || (o.profile != "" && o.profile !in v.objects)
    || o.module_ == "" || o.listEndpoint == "" || |o.facets| == 0
  }

  /** Not a lower-case ASCII letter (97 to 122) followed by such letters, capitals (65 to 90) and digits (48 to 57). */
  ghost predicate BadKey(key: string) {
    || key == "" || key[0] as int < 97 || key[0] as int > 122
    || exists c :: c in key && !(97 <= c as int <= 122 || 65 <= c as int <= 90 || 48 <= c as int <= 57)
  }

  ghost predicate BadTable(table: string) {
    |table| < 10 || table[..10] != "oikumenea."
  }

  ghost predicate FacetFault(v: Vocabulary, f: Facet) {
    || BadKey(f.key)
    || BadTable(f.table)
    || f.column == ""
    || (|f.argOverride| > 0 && f.note == "")
    || (f.kind == KindEnum && |f.values| == 0)
    || (f.kind != KindEnum && |f.values| > 0)
    || (exists name :: f.kind == KindOther(name))
    || (f.kind == KindRef && f.refType == "")
    || (f.kind == KindRef && f.refType !in v.objects)
    || (f.kind != KindRef && f.refType != "")
    || (f.nonPartitioning != "" && f.kind != KindRef && f.kind != KindCode)
    || (f.nonPartitioning != "" && f.buckets.strategy == Catalog)
    || BucketsFault(f)
  }

  ghost predicate BucketsFault(f: Facet) {
    var b := f.buckets;
    || (b.strategy == Identity && f.kind != KindEnum)
    || (b.strategy == TopN && f.kind != KindRef && f.kind != KindCode)
    || (b.strategy == TopN && b.topN <= 0)
    || (b.strategy == DateTrunc && f.kind != KindDateRange)
    || (b.strategy == DateTrunc && b.grain !in ["day", "month", "year"])
    || (b.strategy == Bands && f.kind != KindDateRange && f.kind != KindNumericRange)
    || (b.strategy == Bands && BandsFault(b.bands))
    || (b.strategy == BoolPair && f.kind != KindBool)
    || (b.strategy == Catalog && f.kind != KindRef)
    || (b.strategy == Catalog && (BadTable(b.catalogTable) || b.catalogOrder == ""))
    || b.strategy == NoStrategy
    || (exists name :: b.strategy == StrategyOther(name))
    || (b.topN > 0 && b.strategy != TopN)
    || (b.grain != "" && b.strategy != DateTrunc)
    || (|b.bands| > 0 && b.strategy != Bands)
    || (b.catalogTable != "" && b.strategy != Catalog)
    || (b.catalogOrder != "" && b.strategy != Catalog)
  }

  ghost predicate BandsFault(bands: seq<Band>) {
    || |bands| == 0
    || (exists i :: 0 <= i < |bands| && bands[i].key == "")
    || (exists i, j :: 0 <= i < j < |bands| && bands[i].key == bands[j].key)
    || (exists i, lo, hi :: 0 <= i < |bands| && bands[i].lo == Some(lo) && bands[i].hi == Some(hi) && lo >= hi)
  }

  ghost predicate OtherArgFault(n: NonFacetArg) {
    || n.arg == "" || n.why == ""
    || (n.class_ == Paging && n.arg != "pageSize" && n.arg != "pageToken")
    || (n.class_ in [Search, Traversal, Window, Superseded] && n.drives == "")
    || n.class_ == NoClass
    || (exists name :: n.class_ == ClassOther(name))
  }

  /** The query arguments a facet answers to: its own, or its key, or its key as the two ends of a range. */
  ghost predicate Claims(f: Facet, arg: string) {
    if |f.argOverride| > 0 then arg in f.argOverride
    else if f.kind == KindDateRange then arg == f.key + "From" || arg == f.key + "To"
    else if f.kind == KindNumericRange then arg == f.key + "Min" || arg == f.key + "Max"
    else arg == f.key
  }

  /** Two facets, two other arguments, or one of each answer to one name; or a facet lists a name twice. */
  ghost predicate ClaimedTwice(o: ObjectType) {
    || (exists i, j, arg :: 0 <= i < j < |o.facets| && Claims(o.facets[i], arg) && Claims(o.facets[j], arg))
    || (exists f :: f in o.facets && !NoRepeats(f.argOverride))
    || (exists f, n :: f in o.facets && n in o.nonFacetArgs && Claims(f, n.arg))
    || (exists i, j :: 0 <= i < j < |o.nonFacetArgs| && o.nonFacetArgs[i].arg == o.nonFacetArgs[j].arg)
  }

  ghost predicate TypeFault(v: Vocabulary, o: ObjectType) {
    || HeaderFault(v, o)
    || (exists f :: f in o.facets && FacetFault(v, f))
    || (exists i, j :: 0 <= i < j < |o.facets| && o.facets[i].key == o.facets[j].key)
    || ClaimedTwice(o)
    || (exists f, g :: f in o.facets && g in o.facets && f.buckets.strategy == TopN && g.buckets.strategy == TopN
          && f.buckets.topN != g.buckets.topN)
    || (exists n :: n in o.nonFacetArgs && OtherArgFault(n))
  }

  lemma BadKeyIff(key: string)
    ensures BadKey(key) <==> !IsLowerCamel(key)
  {
    assert forall i | 0 <= i < |key| :: key[i] in key;
  }

  lemma FacetFaultIff(v: Vocabulary, f: Facet)
    ensures FacetFault(v, f) <==> !ValidFacet(v, f)
  {
    BadKeyIff(f.key);
    BucketsFaultIff(f);
  }

  lemma BucketsFaultIff(f: Facet)
    ensures BucketsFault(f) <==> !ValidBuckets(f)
  {
  }

  lemma OtherArgFaultIff(n: NonFacetArg)
    ensures OtherArgFault(n) <==> !ValidNonFacetArg(n)
  {
  }

  lemma ArgsAre(f: Facet, arg: string)
    ensures arg in Args(f) <==> Claims(f, arg)
  {
  }

  lemma ArgsRepeat(f: Facet)
    ensures NoRepeats(Args(f)) <==> NoRepeats(f.argOverride)
  {
    assert |f.key + "From"| != |f.key + "To"|;
    assert (f.key + "Min")[|f.key| + 1] != (f.key + "Max")[|f.key| + 1];
  }

  lemma {:induction false} FacetArgsAre(facets: seq<Facet>, arg: string)
    ensures arg in FacetArgs(facets) <==> exists f :: f in facets && Claims(f, arg)
  {
    if facets != [] {
      var init, last := facets[..|facets| - 1], facets[|facets| - 1];
      assert facets == init + [last];
      FacetArgsAre(init, arg);
      ArgsAre(last, arg);
    }
  }

  /** No two of these facets answer to one name, and none lists a name twice. */
  ghost predicate Apart(facets: seq<Facet>) {
    && (forall i, j, arg | 0 <= i < j < |facets| && Claims(facets[i], arg) :: !Claims(facets[j], arg))
    && forall f | f in facets :: NoRepeats(f.argOverride)
  }

  lemma {:induction false} FacetArgsRepeat(facets: seq<Facet>)
    ensures NoRepeats(FacetArgs(facets)) <==> Apart(facets)
  {
    if facets != [] {
      var init, last := facets[..|facets| - 1], facets[|facets| - 1];
      assert facets == init + [last];
      FacetArgsRepeat(init);
      NoRepeatsAppend(FacetArgs(init), Args(last));
      ArgsRepeat(last);
      forall arg ensures arg in FacetArgs(init) <==> exists f :: f in init && Claims(f, arg) {
        FacetArgsAre(init, arg);
      }
      forall arg ensures arg in Args(last) <==> Claims(last, arg) { ArgsAre(last, arg); }
      ApartStep(init, last);
    }
  }

  lemma ApartStep(init: seq<Facet>, last: Facet)
    ensures Apart(init + [last]) <==>
      && Apart(init) && NoRepeats(last.argOverride)
      && forall arg | Claims(last, arg) :: !exists f :: f in init && Claims(f, arg)
  {
    var all := init + [last];
    if Apart(all) {
      forall i, j, arg | 0 <= i < j < |init| && Claims(init[i], arg) ensures !Claims(init[j], arg) {
        assert all[i] == init[i] && all[j] == init[j];
      }
      forall f, arg | f in init && Claims(f, arg) ensures !Claims(last, arg) {
        var i :| 0 <= i < |init| && init[i] == f;
        assert all[i] == f && all[|init|] == last;
      }
      assert last in all && forall f | f in init :: f in all;
    }
  }

  lemma ClaimedTwiceIff(o: ObjectType)
    ensures ClaimedTwice(o) <==> !NoRepeats(FacetArgs(o.facets) + OtherArgs(o.nonFacetArgs))
  {
    var others := OtherArgs(o.nonFacetArgs);
    NoRepeatsAppend(FacetArgs(o.facets), others);
    FacetArgsRepeat(o.facets);
    forall arg ensures arg in FacetArgs(o.facets) <==> exists f :: f in o.facets && Claims(f, arg) {
      FacetArgsAre(o.facets, arg);
    }
    forall n | n in o.nonFacetArgs ensures n.arg in others {
      var i :| 0 <= i < |o.nonFacetArgs| && o.nonFacetArgs[i] == n;
      assert others[i] == n.arg;
    }
    assert forall arg | arg in others :: exists n :: n in o.nonFacetArgs && n.arg == arg;
    OthersRepeat(o.nonFacetArgs);
  }

  lemma OthersRepeat(args: seq<NonFacetArg>)
    ensures NoRepeats(OtherArgs(args)) <==> !exists i, j :: 0 <= i < j < |args| && args[i].arg == args[j].arg
  {
    var others := OtherArgs(args);
    assert forall i | 0 <= i < |args| :: others[i] == args[i].arg;
    if NoRepeats(others) {
      forall i, j | 0 <= i < j < |args| ensures args[i].arg != args[j].arg { assert others[i] != others[j]; }
    }
  }

  /** Registration refuses a type as ill-formed exactly when one of these errors applies to it. */
  lemma IllFormedIff(v: Vocabulary, o: ObjectType)
    ensures !WellFormed(v, o) <==> TypeFault(v, o)
  {
    ClaimedTwiceIff(o);
    forall f | f in o.facets ensures FacetFault(v, f) <==> !ValidFacet(v, f) { FacetFaultIff(v, f); }
    forall n | n in o.nonFacetArgs ensures OtherArgFault(n) <==> !ValidNonFacetArg(n) { OtherArgFaultIff(n); }
    assert HeaderFault(v, o) <==> !ValidHeader(v, o);
    assert forall i | 0 <= i < |o.facets| :: o.facets[i] in o.facets;
    assert forall i | 0 <= i < |o.nonFacetArgs| :: o.nonFacetArgs[i] in o.nonFacetArgs;
  }
}
