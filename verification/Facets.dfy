/** The facet vocabulary, its registration rules and the read codes it implies (pkg/facet/facet.go). */
module Facets {
  import opened Wrappers
  import opened Ordering

  datatype Kind = KindEnum | KindRef | KindCode | KindDateRange | KindBool | KindNumericRange | KindOther(name: string)

  datatype Strategy =
    | Identity | TopN | DateTrunc | Bands | BoolPair | Catalog
    | NoStrategy | StrategyOther(name: string)

  /** Half-open [lo, hi); a missing bound is unbounded. */
  datatype Band = Band(key: string, lo: Option<int>, hi: Option<int>)

  datatype Buckets = Buckets(
    strategy: Strategy,
    topN: int,
    grain: string,
    bands: seq<Band>,
    catalogTable: string,
    catalogOrder: string,
    includeUnknown: bool)

  datatype Facet = Facet(
    key: string,
    kind: Kind,
    table: string,
    column: string,
    readPermission: string,
    buckets: Buckets,
    refType: string,
    values: seq<string>,
    argOverride: seq<string>,
    note: string,
    nonPartitioning: string)

  datatype Class = Paging | Search | Traversal | Window | Superseded | NoClass | ClassOther(name: string)

  datatype NonFacetArg = NonFacetArg(arg: string, class_: Class, why: string, drives: string)

  datatype ObjectType = ObjectType(
    typ: string,
    module_: string,
    listEndpoint: string,
    facets: seq<Facet>,
    nonFacetArgs: seq<NonFacetArg>,
    ledger: string,
    profile: string)

  /** The tokens pkg/rid registers: listable ones (objects and links), and objects alone. */
  datatype Vocabulary = Vocabulary(listable: set<string>, objects: set<string>)

  function Args(f: Facet): seq<string> {
    if f.argOverride != [] then f.argOverride
    else match f.kind
      case KindDateRange => [f.key + "From", f.key + "To"]
      case KindNumericRange => [f.key + "Min", f.key + "Max"]
      case _ => [f.key]
  }

  // ------------------------------------------------------------------ validators

  predicate IsLowerCamel(s: string) {
    && s != "" && 'a' <= s[0] <= 'z'
    && forall i | 0 <= i < |s| :: 'a' <= s[i] <= 'z' || 'A' <= s[i] <= 'Z' || '0' <= s[i] <= '9'
  }

  predicate SchemaQualified(table: string) {
    "oikumenea." <= table
  }

  predicate ValidBands(bands: seq<Band>) {
    && bands != []
    && (forall i | 0 <= i < |bands| :: bands[i].key != "")
    && (forall i, j | 0 <= i < j < |bands| :: bands[i].key != bands[j].key)
    && (forall i | 0 <= i < |bands| && bands[i].lo.Some? && bands[i].hi.Some? :: bands[i].lo.value < bands[i].hi.value)
  }

  predicate ValidBuckets(f: Facet) {
    var b := f.buckets;
    && (match b.strategy
        case Identity => f.kind.KindEnum?
        case TopN => (f.kind.KindRef? || f.kind.KindCode?) && b.topN > 0
        case DateTrunc => f.kind.KindDateRange? && (b.grain == "day" || b.grain == "month" || b.grain == "year")
        case Bands => (f.kind.KindDateRange? || f.kind.KindNumericRange?) && ValidBands(b.bands)
        case BoolPair => f.kind.KindBool?
        case Catalog => f.kind.KindRef? && SchemaQualified(b.catalogTable) && b.catalogOrder != ""
        case NoStrategy => false
        case StrategyOther(_) => false)
    && (b.topN > 0 ==> b.strategy.TopN?)
    && (b.grain != "" ==> b.strategy.DateTrunc?)
    && (b.bands != [] ==> b.strategy.Bands?)
    && (b.catalogTable != "" ==> b.strategy.Catalog?)
    && (b.catalogOrder != "" ==> b.strategy.Catalog?)
  }

  predicate ValidFacet(v: Vocabulary, f: Facet) {
    && IsLowerCamel(f.key)
    && SchemaQualified(f.table) && f.column != ""
    && (f.argOverride != [] ==> f.note != "")
    && !f.kind.KindOther?
    && (f.kind.KindEnum? <==> f.values != [])
    && (if f.kind.KindRef? then f.refType in v.objects && f.refType != "" else f.refType == "")
    && (f.nonPartitioning != "" ==> (f.kind.KindRef? || f.kind.KindCode?) && !f.buckets.strategy.Catalog?)
    && ValidBuckets(f)
  }

  predicate ValidNonFacetArg(n: NonFacetArg) {
    && n.arg != "" && n.why != ""
    && match n.class_
       case Paging => n.arg == "pageSize" || n.arg == "pageToken"
       case NoClass => false
       case ClassOther(_) => false
       case _ => n.drives != ""
  }

  predicate ValidHeader(v: Vocabulary, o: ObjectType) {
    && o.typ != ""
    && (o.ledger == "" || o.profile == "")
    && (o.ledger == "" && o.profile == "" <==> o.typ in v.listable)
    && (o.profile != "" ==> o.profile != o.typ && o.profile in v.objects)
    && o.module_ != "" && o.listEndpoint != "" && o.facets != []
  }

  // ------------------------------------------------------------------ what registration guarantees

  ghost predicate DistinctKeys(facets: seq<Facet>) {
    forall i, j | 0 <= i < j < |facets| :: facets[i].key != facets[j].key
  }

  function FacetArgs(facets: seq<Facet>): seq<string> {
    if facets == [] then [] else FacetArgs(facets[..|facets| - 1]) + Args(facets[|facets| - 1])
  }

  function OtherArgs(args: seq<NonFacetArg>): seq<string> {
    seq(|args|, i requires 0 <= i < |args| => args[i].arg)
  }

  ghost predicate OneTopN(facets: seq<Facet>) {
    forall f, g | f in facets && g in facets && f.buckets.strategy.TopN? && g.buckets.strategy.TopN? ::
      f.buckets.topN == g.buckets.topN
  }

  /** A well-formed declaration: every facet valid, no key or argument claimed twice, one top-N cutoff. */
  ghost predicate WellFormed(v: Vocabulary, o: ObjectType) {
    && ValidHeader(v, o)
    && (forall i | 0 <= i < |o.facets| :: ValidFacet(v, o.facets[i]))
    && DistinctKeys(o.facets)
    && OneTopN(o.facets)
    && (forall i | 0 <= i < |o.nonFacetArgs| :: ValidNonFacetArg(o.nonFacetArgs[i]))
    && NoRepeats(FacetArgs(o.facets) + OtherArgs(o.nonFacetArgs))
  }

  const TOTAL_FACET := "(total)"

  /** No registered key can be mistaken for the total's pseudo-facet, nor for a synthetic bucket. */
  lemma KeysAreNotSynthetic(v: Vocabulary, o: ObjectType, f: Facet)
    requires WellFormed(v, o) && f in o.facets
    ensures f.key != TOTAL_FACET && f.key != "(unknown)" && f.key != "(other)"
  {
  }

  /** A type that declares one facet and nothing else. */
  function TypeWith(typ: string, f: Facet): ObjectType {
    ObjectType(typ, "person", "PersonService.listPersons", [f], [], "", "")
  }

  lemma TypeWithIsWellFormed(v: Vocabulary, typ: string, f: Facet)
    requires typ != "" && typ in v.listable && ValidFacet(v, f) && NoRepeats(Args(f))
    ensures WellFormed(v, TypeWith(typ, f))
  {
    var o := TypeWith(typ, f);
    assert o.facets[..0] == [] && FacetArgs(o.facets) == [] + Args(f);
    assert FacetArgs(o.facets) + OtherArgs([]) == Args(f);
  }

  // ------------------------------------------------------------------ the registry

  method ClaimArgs(claimed: set<string>, args: seq<string>) returns (ok: bool, now: set<string>)
    ensures ok <==> NoRepeats(args) && forall a | a in args :: a !in claimed
    ensures ok ==> forall a :: a in now <==> a in claimed || a in args
  {
    now := claimed;
    for i := 0 to |args|
      invariant forall a :: a in now <==> a in claimed || a in args[..i]
      invariant NoRepeats(args[..i]) && forall a | a in args[..i] :: a !in claimed
    {
      assert args[..i + 1] == args[..i] + [args[i]];
      if args[i] in now {
        if args[i] in args[..i] {
          var j :| 0 <= j < i && args[..i][j] == args[i];
        }
        return false, now;
      }
      now := now + {args[i]};
    }
    assert args[..|args|] == args;
    return true, now;
  }

  lemma NoRepeatsAppend(a: seq<string>, b: seq<string>)
    ensures NoRepeats(a + b) <==> NoRepeats(a) && NoRepeats(b) && forall x | x in b :: x !in a
  {
    if NoRepeats(a + b) {
      forall i, j | 0 <= i < j < |a| ensures a[i] != a[j] { assert (a + b)[i] != (a + b)[j]; }
      forall i, j | 0 <= i < j < |b| ensures b[i] != b[j] { assert (a + b)[|a| + i] != (a + b)[|a| + j]; }
      forall x | x in b ensures x !in a {
        var j :| 0 <= j < |b| && b[j] == x;
        forall i | 0 <= i < |a| ensures a[i] != x { assert (a + b)[i] != (a + b)[|a| + j]; }
      }
    }
    if NoRepeats(a) && NoRepeats(b) && forall x | x in b :: x !in a {
      forall i, j | 0 <= i < j < |a + b| ensures (a + b)[i] != (a + b)[j] {
        if i < |a| && j >= |a| { assert b[j - |a|] in b && a[i] in a; }
      }
    }
  }

  class Registry {
    const vocabulary: Vocabulary
    var types: map<string, ObjectType>
    var order: seq<string>
    var exempt: set<string>

    /** Registered types are well-formed, and listed once, in registration order. */
    ghost predicate Valid()
      reads this
    {
      && (forall t | t in types :: types[t].typ == t && WellFormed(vocabulary, types[t]))
      && (forall t :: t in order <==> t in types) && NoRepeats(order)
    }

    constructor (vocabulary: Vocabulary)
      ensures Valid() && this.vocabulary == vocabulary && types == map[] && order == [] && exempt == {}
    {
      this.vocabulary := vocabulary;
      types, order, exempt := map[], [], {};
    }

    /** A type enters exactly when it is well-formed, new and not exempt; a refusal changes nothing. */
    method Register(o: ObjectType) returns (ok: bool)
      requires Valid()
      modifies this`types, this`order
      ensures Valid()
      ensures ok <==> WellFormed(vocabulary, o) && o.typ !in old(types) && o.typ !in exempt
      ensures types == if ok then old(types)[o.typ := o] else old(types)
      ensures order == if ok then old(order) + [o.typ] else old(order)
    {
      if !ValidHeader(vocabulary, o) || o.typ in types || o.typ in exempt {
        return false;
      }
      ok := CheckFacets(vocabulary, o);
      if !ok {
        return;
      }
      types := types[o.typ := o];
      order := order + [o.typ];
    }
  }

  method CheckFacets(v: Vocabulary, o: ObjectType) returns (ok: bool)
    requires ValidHeader(v, o)
    ensures ok <==> WellFormed(v, o)
  {
    NoRepeatsAppend(FacetArgs(o.facets), OtherArgs(o.nonFacetArgs));
    var claimed: set<string>;
    ok, claimed := CheckEach(v, o.facets);
    if !ok {
      return;
    }
    ok := CheckTopN(o.facets);
    if !ok {
      return;
    }
    ok := CheckOthers(o.nonFacetArgs, claimed);
  }

  method CheckEach(v: Vocabulary, facets: seq<Facet>) returns (ok: bool, claimed: set<string>)
    ensures ok <==> EachOk(v, facets)
    ensures ok ==> forall a :: a in claimed <==> a in FacetArgs(facets)
  {
    claimed := {};
    var keys: set<string> := {};
    for i := 0 to |facets|
      invariant EachOk(v, facets[..i])
      invariant forall k :: k in keys <==> k in KeysOf(facets[..i])
      invariant forall a :: a in claimed <==> a in FacetArgs(facets[..i])
    {
      var f := facets[i];
      EachOkStep(v, facets, i);
      if EachOk(v, facets) { EachOkPrefix(v, facets, i + 1); }
      if !ValidFacet(v, f) || f.key in keys {
        return false, claimed;
      }
      keys := keys + {f.key};
      ok, claimed := ClaimArgs(claimed, Args(f));
      if !ok {
        return;
      }
    }
    assert facets[..|facets|] == facets;
    return true, claimed;
  }

  function KeysOf(facets: seq<Facet>): seq<string> {
    seq(|facets|, i requires 0 <= i < |facets| => facets[i].key)
  }

  ghost predicate EachOk(v: Vocabulary, facets: seq<Facet>) {
    && (forall i | 0 <= i < |facets| :: ValidFacet(v, facets[i]))
    && DistinctKeys(facets) && NoRepeats(FacetArgs(facets))
  }

  lemma DistinctKeysStep(before: seq<Facet>, f: Facet)
    requires DistinctKeys(before)
    ensures DistinctKeys(before + [f]) <==> f.key !in KeysOf(before)
    ensures KeysOf(before + [f]) == KeysOf(before) + [f.key]
  {
    var now, i := before + [f], |before|;
    if f.key !in KeysOf(before) {
      forall j, k | 0 <= j < k < |now| ensures now[j].key != now[k].key {
        assert j < i && now[j].key == KeysOf(before)[j];
      }
    }
    if DistinctKeys(now) {
      forall j | 0 <= j < i ensures KeysOf(before)[j] != f.key { assert now[j].key != now[i].key; }
    }
  }

  /** One more facet is fine exactly when it is valid, its key is new and its arguments are unclaimed. */
  lemma EachOkStep(v: Vocabulary, facets: seq<Facet>, i: nat)
    requires i < |facets| && EachOk(v, facets[..i])
    ensures EachOk(v, facets[..i + 1]) <==>
      && ValidFacet(v, facets[i]) && facets[i].key !in KeysOf(facets[..i])
      && NoRepeats(Args(facets[i])) && forall a | a in Args(facets[i]) :: a !in FacetArgs(facets[..i])
    ensures KeysOf(facets[..i + 1]) == KeysOf(facets[..i]) + [facets[i].key]
    ensures FacetArgs(facets[..i + 1]) == FacetArgs(facets[..i]) + Args(facets[i])
  {
    var before, now, f := facets[..i], facets[..i + 1], facets[i];
    assert now == before + [f] && now[..i] == before;
    NoRepeatsAppend(FacetArgs(before), Args(f));
    DistinctKeysStep(before, f);
    assert (forall j | 0 <= j <= i :: ValidFacet(v, now[j])) ==> ValidFacet(v, now[i]);
  }

  lemma EachOkPrefix(v: Vocabulary, facets: seq<Facet>, i: nat)
    requires i <= |facets| && EachOk(v, facets)
    ensures EachOk(v, facets[..i])
  {
    ArgsPrefix(facets, i);
  }

  lemma {:induction false} ArgsPrefix(facets: seq<Facet>, i: nat)
    requires i <= |facets|
    ensures FacetArgs(facets[..i]) <= FacetArgs(facets)
    decreases |facets|
  {
    if i < |facets| {
      var init := facets[..|facets| - 1];
      ArgsPrefix(init, i);
      assert init[..i] == facets[..i];
    } else {
      assert facets[..i] == facets;
    }
  }

  method CheckTopN(facets: seq<Facet>) returns (ok: bool)
    requires forall i | 0 <= i < |facets| && facets[i].buckets.strategy.TopN? :: facets[i].buckets.topN > 0
    ensures ok <==> OneTopN(facets)
  {
    var topN := 0;
    for i := 0 to |facets|
      invariant topN >= 0
      invariant forall j | 0 <= j < i && facets[j].buckets.strategy.TopN? :: facets[j].buckets.topN == topN
      invariant topN != 0 ==>
        exists j :: 0 <= j < i && facets[j].buckets.strategy.TopN? && facets[j].buckets.topN == topN
    {
      var f := facets[i];
      if f.buckets.strategy.TopN? {
        if topN == 0 {
          topN := f.buckets.topN;
        } else if f.buckets.topN != topN {
          var j :| 0 <= j < i && facets[j].buckets.strategy.TopN? && facets[j].buckets.topN == topN;
          assert facets[j] in facets && f in facets;
          return false;
        }
      }
    }
    return true;
  }

  method CheckOthers(args: seq<NonFacetArg>, claimed: set<string>) returns (ok: bool)
    ensures ok <==>
      && (forall i | 0 <= i < |args| :: ValidNonFacetArg(args[i]))
      && NoRepeats(OtherArgs(args)) && forall a | a in OtherArgs(args) :: a !in claimed
  {
    var now := claimed;
    for i := 0 to |args|
      invariant forall j | 0 <= j < i :: ValidNonFacetArg(args[j]) && args[j].arg !in claimed
      invariant forall a :: a in now <==> a in claimed || exists j :: 0 <= j < i && args[j].arg == a
      invariant forall j, k | 0 <= j < k < i :: args[j].arg != args[k].arg
    {
      if !ValidNonFacetArg(args[i]) {
        return false;
      }
      if args[i].arg in now {
        assert OtherArgs(args)[i] == args[i].arg;
        if args[i].arg !in claimed {
          var j :| 0 <= j < i && args[j].arg == args[i].arg;
          assert OtherArgs(args)[j] == OtherArgs(args)[i];
        }
        return false;
      }
      now := now + {args[i].arg};
    }
    return true;
  }

  // ------------------------------------------------------------------ read codes of a filtered list

  /** The codes a filtered list must hold: those of the supplied facets that have one. */
  method FilterReadCodes(facets: seq<Facet>, supplied: set<string>) returns (codes: seq<string>)
    ensures forall c :: c in codes <==> c != "" && exists f :: f in facets && f.key in supplied && f.readPermission == c
    ensures forall i, j | 0 <= i < j < |codes| :: StrLess(codes[i], codes[j])
  {
    var seen: set<string> := {};
    var out: seq<string> := [];
    for i := 0 to |facets|
      invariant forall c :: c in seen <==> c in out
      invariant NoRepeats(out)
      invariant forall c ::
        c in out <==> c != "" && exists j | 0 <= j < i :: facets[j].key in supplied && facets[j].readPermission == c
    {
      var f := facets[i];
      if f.readPermission == "" || f.key !in supplied || f.readPermission in seen {
        continue;
      }
      seen := seen + {f.readPermission};
      out := out + [f.readPermission];
    }
    codes := SortStrings(out);
    StrOrder(multiset(out));
    SortedDistinct(StrLess, out, codes);
  }
}
