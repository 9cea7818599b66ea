/** Names for ref buckets, and the whole non-SQL body of a stats endpoint (pkg/stats/stats.go, Label and Compute). */
module Labels {
  import opened Wrappers
  import opened Ordering
  import opened Facets
  import opened Stats
  import opened Assembly
  import Ranking

  /** One object type's resolved names, by id. */
  type Names = map<string, Label>

  type Labeler = (string, seq<string>) -> Result<Names, string>

  /** The selected facet behind a key. */
  function FacetFor(selected: seq<Facet>, key: string): Option<Facet> {
    if selected == [] then None
    else if selected[|selected| - 1].key == key then Some(selected[|selected| - 1])
    else FacetFor(selected[..|selected| - 1], key)
  }

  /** The token a distribution's keys are ids of, when its facet is a selected ref. */
  function TokenFor(selected: seq<Facet>, key: string): Option<string> {
    var f := FacetFor(selected, key);
    if f.Some? && f.value.kind.KindRef? then Some(f.value.refType) else None
  }

  function Ids(bs: seq<Bucket>): seq<string> {
    if bs == [] then [] else
      var init, k := Ids(bs[..|bs| - 1]), bs[|bs| - 1].key;
      if k == UNKNOWN || k == OTHER then init else init + [k]
  }

  /** The ids to resolve for one token: every non-synthetic key of every distribution over it. */
  function IdsOf(ds: seq<Distribution>, selected: seq<Facet>, token: string): seq<string> {
    if ds == [] then [] else
      var init, d := IdsOf(ds[..|ds| - 1], selected, token), ds[|ds| - 1];
      if TokenFor(selected, d.facet) == Some(token) then init + Ids(d.buckets) else init
  }

  function Under(ids: map<string, seq<string>>, token: string): seq<string> {
    if token in ids then ids[token] else []
  }

  function Resolved(labels: map<string, Names>, token: string): Option<Names> {
    if token in labels then Some(labels[token]) else None
  }

  /** A bucket takes its name when its facet is a ref whose token was resolved and the id is among the names. */
  function Named(b: Bucket, token: Option<string>, answers: string -> Option<Names>): Bucket {
    if token.Some? && answers(token.value).Some? && b.key in answers(token.value).value
    then b.(names := Some(answers(token.value).value[b.key]))
    else b
  }

  ghost predicate IsNamed(before: seq<Distribution>, after: seq<Distribution>, selected: seq<Facet>,
                          answers: string -> Option<Names>) {
    && |after| == |before|
    && forall i | 0 <= i < |before| ::
         && after[i].facet == before[i].facet && |after[i].buckets| == |before[i].buckets|
         && forall j | 0 <= j < |before[i].buckets| ::
              after[i].buckets[j] == Named(before[i].buckets[j], TokenFor(selected, before[i].facet), answers)
  }

  method NameBuckets(bs: seq<Bucket>, names: Names) returns (out: seq<Bucket>)
    ensures |out| == |bs|
    ensures forall j | 0 <= j < |bs| ::
      out[j] == if bs[j].key in names then bs[j].(names := Some(names[bs[j].key])) else bs[j]
  {
    out := [];
    for j := 0 to |bs|
      invariant |out| == j
      invariant forall k | 0 <= k < j ::
        out[k] == if bs[k].key in names then bs[k].(names := Some(names[bs[k].key])) else bs[k]
    {
      out := out + [if bs[j].key in names then bs[j].(names := Some(names[bs[j].key])) else bs[j]];
    }
  }

  method CollectIds(bs: seq<Bucket>, ids: map<string, seq<string>>, token: string)
    returns (now: map<string, seq<string>>)
    requires forall t | t in ids :: ids[t] != []
    ensures forall t | t in now :: now[t] != []
    ensures forall t :: Under(now, t) == if t == token then Under(ids, t) + Ids(bs) else Under(ids, t)
  {
    now := ids;
    for j := 0 to |bs|
      invariant forall t | t in now :: now[t] != []
      invariant forall t :: Under(now, t) == if t == token then Under(ids, t) + Ids(bs[..j]) else Under(ids, t)
    {
      assert bs[..j + 1][..j] == bs[..j];
      if bs[j].key == UNKNOWN || bs[j].key == OTHER {
        continue;
      }
      now := now[token := Under(now, token) + [bs[j].key]];
    }
    assert bs[..|bs|] == bs;
  }

  /** The response under construction: labels are written into its buckets in place. */
  class Response {
    var total: int
    var distributions: seq<Distribution>

    constructor (r: Report)
      ensures total == r.total && distributions == r.distributions
    {
      total, distributions := r.total, r.distributions;
    }

    method RefIDs(selected: seq<Facet>) returns (ids: map<string, seq<string>>)
      ensures forall t :: Under(ids, t) == IdsOf(distributions, selected, t)
      ensures forall t :: t in ids <==> IdsOf(distributions, selected, t) != []
    {
      ids := map[];
      for i := 0 to |distributions|
        invariant forall t | t in ids :: ids[t] != []
        invariant forall t :: Under(ids, t) == IdsOf(distributions[..i], selected, t)
      {
        assert distributions[..i + 1][..i] == distributions[..i];
        var token := TokenFor(selected, distributions[i].facet);
        if token.None? {
          continue;
        }
        ids := CollectIds(distributions[i].buckets, ids, token.value);
      }
      assert distributions[..|distributions|] == distributions;
      assert forall t :: t in ids <==> Under(ids, t) != [];
    }

    method ApplyLabels(selected: seq<Facet>, labels: map<string, Names>)
      modifies this`distributions
      ensures IsNamed(old(distributions), distributions, selected, t => Resolved(labels, t))
    {
      for i := 0 to |distributions|
        invariant |distributions| == |old(distributions)|
        invariant distributions[i..] == old(distributions)[i..]
        invariant IsNamed(old(distributions)[..i], distributions[..i], selected, t => Resolved(labels, t))
      {
        var d := distributions[i];
        assert d == old(distributions)[i];
        var token := TokenFor(selected, d.facet);
        if token.None? || token.value !in labels {
          continue;
        }
        var named := NameBuckets(d.buckets, labels[token.value]);
        distributions := distributions[i := d.(buckets := named)];
      }
      assert old(distributions)[..|old(distributions)|] == old(distributions);
      assert distributions[..|distributions|] == distributions;
    }
  }

  /** What the labeler said for one token's ids; a token with no ids is never asked about. */
  function Answer(l: Labeler, ds: seq<Distribution>, selected: seq<Facet>, token: string): Option<Names> {
    var ids := IdsOf(ds, selected, token);
    if ids == [] || l(token, ids).Err? then None else Some(l(token, ids).value)
  }

  ghost predicate LabelFails(l: Labeler, ds: seq<Distribution>, selected: seq<Facet>, token: string) {
    IdsOf(ds, selected, token) != [] && l(token, IdsOf(ds, selected, token)).Err?
  }

  /** The types of a label request, sorted so that a failure is reproducible. */
  method SortedTokens(ids: map<string, seq<string>>) returns (types: seq<string>)
    ensures forall t :: t in types <==> t in ids
    ensures forall i, j | 0 <= i < j < |types| :: StrLess(types[i], types[j])
  {
    var rest, listed: seq<string> := ids.Keys, [];
    while rest != {}
      invariant rest <= ids.Keys && NoRepeats(listed) && forall t :: t in listed <==> t in ids && t !in rest
      decreases |rest|
    {
      var t :| t in rest;
      rest, listed := rest - {t}, listed + [t];
    }
    types := SortStrings(listed);
    StrOrder(multiset(listed));
    SortedDistinct(StrLess, listed, types);
  }

  /** The batches in order, stopping at the first that errs. */
  method AskLabeler(l: Labeler, ids: map<string, seq<string>>, types: seq<string>)
    returns (failed: Option<nat>, labels: map<string, Names>)
    requires forall t :: t in types <==> t in ids
    requires forall i, j | 0 <= i < j < |types| :: StrLess(types[i], types[j])
    ensures failed.None? ==> forall t :: t in ids <==> t in labels
    ensures failed.None? ==> forall t | t in ids :: l(t, ids[t]) == Ok(labels[t])
    ensures failed.Some? ==> failed.value < |types| && l(types[failed.value], ids[types[failed.value]]).Err?
    ensures failed.Some? ==> forall j | 0 <= j < failed.value :: l(types[j], ids[types[j]]).Ok?
  {
    labels := map[];
    for i := 0 to |types|
      invariant forall t :: t in labels <==> t in types[..i]
      invariant forall t | t in labels :: l(t, ids[t]) == Ok(labels[t])
      invariant forall j | 0 <= j < i :: l(types[j], ids[types[j]]).Ok?
    {
      var t := types[i];
      assert t in types;
      var answer := l(t, ids[t]);
      if answer.Err? {
        return Some(i), labels;
      }
      labels := labels[t := answer.value];
    }
    assert types[..|types|] == types;
    return None, labels;
  }

  lemma NamedSame(before: seq<Distribution>, after: seq<Distribution>, selected: seq<Facet>,
                  a: string -> Option<Names>, b: string -> Option<Names>)
    requires IsNamed(before, after, selected, a) && forall t :: a(t) == b(t)
    ensures IsNamed(before, after, selected, b)
  {
  }

  /** The failure reported is the least failing token: those before it in sorted order were resolved. */
  lemma FirstFailure(l: Labeler, ds: seq<Distribution>, selected: seq<Facet>, types: seq<string>, i: nat)
    requires forall t :: t in types <==> IdsOf(ds, selected, t) != []
    requires forall i, j | 0 <= i < j < |types| :: StrLess(types[i], types[j])
    requires i < |types| && forall j | 0 <= j < i :: !LabelFails(l, ds, selected, types[j])
    ensures forall t | LabelFails(l, ds, selected, t) :: !StrLess(t, types[i])
  {
    forall t | LabelFails(l, ds, selected, t) ensures !StrLess(t, types[i]) {
      var j :| 0 <= j < |types| && types[j] == t;
      StrIrreflexive(t);
      if i < j && StrLess(t, types[i]) { StrTransitive(t, types[i], t); }
    }
  }

  /** The first failing token in sorted order, if there is one. */
  ghost predicate IsFirstFailure(l: Labeler, ds: seq<Distribution>, selected: seq<Facet>, failed: Option<string>) {
    if failed.Some? then
      LabelFails(l, ds, selected, failed.value)
      && forall t | LabelFails(l, ds, selected, t) :: !StrLess(t, failed.value)
    else
      forall t :: !LabelFails(l, ds, selected, t)
  }

  /**
   Labels are best effort, but a labeler that errs is passed on: the first failing token in sorted order
   is reported and no bucket is touched; otherwise every resolved id is named.
   */
  method LabelAll(l: Labeler, selected: seq<Facet>, res: Response) returns (failed: Option<string>)
    modifies res`distributions
    ensures IsFirstFailure(l, old(res.distributions), selected, failed)
    ensures failed.Some? ==> res.distributions == old(res.distributions)
    ensures failed.None? ==>
      IsNamed(old(res.distributions), res.distributions, selected, t => Answer(l, old(res.distributions), selected, t))
  {
    ghost var ds := res.distributions;
    var ids := res.RefIDs(selected);
    assert forall t | t in ids :: Under(ids, t) == IdsOf(ds, selected, t);
    var types := SortedTokens(ids);
    var at, labels := AskLabeler(l, ids, types);
    if at.Some? {
      assert types[at.value] in types;
      FirstFailure(l, ds, selected, types, at.value);
      return Some(types[at.value]);
    }
    res.ApplyLabels(selected, labels);
    assert forall t :: Resolved(labels, t) == Answer(l, ds, selected, t);
    NamedSame(ds, res.distributions, selected, t => Resolved(labels, t), t => Answer(l, ds, selected, t));
    return None;
  }

  // ------------------------------------------------------------------ what labelling may and may not do

  /** Naming re-weights nothing: every distribution keeps its facet, its keys, its counts and so its sum. */
  lemma NamingKeepsCounts(before: seq<Distribution>, after: seq<Distribution>, selected: seq<Facet>,
                          answers: string -> Option<Names>, i: nat)
    requires IsNamed(before, after, selected, answers) && i < |before|
    ensures after[i].facet == before[i].facet && |after[i].buckets| == |before[i].buckets|
    ensures forall j | 0 <= j < |before[i].buckets| ::
      after[i].buckets[j].key == before[i].buckets[j].key && after[i].buckets[j].count == before[i].buckets[j].count
    ensures BucketTotal(after[i].buckets) == BucketTotal(before[i].buckets)
  {
    SameCountsSameTotal(before[i].buckets, after[i].buckets);
  }

  lemma {:induction false} SameCountsSameTotal(a: seq<Bucket>, b: seq<Bucket>)
    requires |a| == |b| && forall j | 0 <= j < |a| :: a[j].count == b[j].count
    ensures BucketTotal(a) == BucketTotal(b)
  {
    if a != [] {
      SameCountsSameTotal(a[..|a| - 1], b[..|b| - 1]);
    }
  }

  lemma {:induction false} IdsAre(bs: seq<Bucket>, k: string)
    ensures k in Ids(bs) <==> k != UNKNOWN && k != OTHER && exists b :: b in bs && b.key == k
  {
    if bs != [] {
      var init, last := bs[..|bs| - 1], bs[|bs| - 1];
      assert bs == init + [last];
      IdsAre(init, k);
      if b :| b in init && b.key == k { assert b in bs; }
      if last.key == k { assert last in bs; }
    }
  }

  ghost predicate ShowsId(ds: seq<Distribution>, selected: seq<Facet>, token: string, k: string) {
    exists d, b :: d in ds && b in d.buckets && TokenFor(selected, d.facet) == Some(token) && b.key == k
  }

  /** The labeler is asked about exactly the ids the ref distributions show, and about no synthetic key. */
  lemma {:induction false} AskedAboutIff(ds: seq<Distribution>, selected: seq<Facet>, token: string, k: string)
    ensures k in IdsOf(ds, selected, token) <==> k != UNKNOWN && k != OTHER && ShowsId(ds, selected, token, k)
  {
    if ds != [] {
      var init, last := ds[..|ds| - 1], ds[|ds| - 1];
      assert ds == init + [last];
      AskedAboutIff(init, selected, token, k);
      IdsAre(last.buckets, k);
      ShowsStep(init, last, selected, token, k);
    }
  }

  lemma ShowsStep(init: seq<Distribution>, last: Distribution, selected: seq<Facet>, token: string, k: string)
    ensures ShowsId(init + [last], selected, token, k) <==>
      ShowsId(init, selected, token, k)
      || (TokenFor(selected, last.facet) == Some(token) && exists b :: b in last.buckets && b.key == k)
  {
  }

  // ------------------------------------------------------------------ in terms of the facets themselves

  lemma {:induction false} FacetForIs(selected: seq<Facet>, f: Facet)
    requires DistinctKeys(selected) && f in selected
    ensures FacetFor(selected, f.key) == Some(f)
  {
    var init, last := selected[..|selected| - 1], selected[|selected| - 1];
    assert selected == init + [last];
    if f != last {
      var i :| 0 <= i < |selected| && selected[i] == f;
      assert selected[i].key != selected[|selected| - 1].key;
      FacetForIs(init, f);
    }
  }

  lemma {:induction false} FacetForNone(selected: seq<Facet>, key: string)
    requires forall f | f in selected :: f.key != key
    ensures FacetFor(selected, key) == None
  {
    if selected != [] {
      FacetForNone(selected[..|selected| - 1], key);
    }
  }

  /** A distribution's keys are ids of what its facet refers to, when it is a ref facet; of nothing otherwise. */
  lemma TokenIs(selected: seq<Facet>, key: string)
    requires DistinctKeys(selected)
    ensures forall f | f in selected && f.key == key ::
      TokenFor(selected, key) == if f.kind.KindRef? then Some(f.refType) else None
    ensures (forall f | f in selected :: f.key != key) ==> TokenFor(selected, key) == None
  {
    forall f | f in selected && f.key == key ensures FacetFor(selected, key) == Some(f) { FacetForIs(selected, f); }
    if forall f | f in selected :: f.key != key { FacetForNone(selected, key); }
  }

  ghost predicate ShowsKey(ds: seq<Distribution>, facet: string, k: string) {
    exists d, b :: d in ds && d.facet == facet && b in d.buckets && b.key == k
  }

  /** Some selected ref facet to this type shows this key, in a bucket of its own distribution. */
  ghost predicate RefShows(ds: seq<Distribution>, selected: seq<Facet>, refType: string, k: string) {
    exists f :: f in selected && f.kind.KindRef? && f.refType == refType && ShowsKey(ds, f.key, k)
  }

  /** The labeler is asked, under each type, about exactly the real keys the selected ref facets to it show. */
  lemma AskedAboutRefs(ds: seq<Distribution>, selected: seq<Facet>, refType: string, k: string)
    requires DistinctKeys(selected)
    ensures k in IdsOf(ds, selected, refType) <==>
      k != "(unknown)" && k != "(other)" && RefShows(ds, selected, refType, k)
  {
    AskedAboutIff(ds, selected, refType, k);
    if ShowsId(ds, selected, refType, k) {
      var d, b :| d in ds && b in d.buckets && TokenFor(selected, d.facet) == Some(refType) && b.key == k;
      TokenIs(selected, d.facet);
      var f :| f in selected && f.key == d.facet;
      assert ShowsKey(ds, f.key, k);
    }
    if RefShows(ds, selected, refType, k) {
      var f :| f in selected && f.kind.KindRef? && f.refType == refType && ShowsKey(ds, f.key, k);
      TokenIs(selected, f.key);
    }
  }

  lemma {:induction false} KeysInOrder(bs: seq<Bucket>, cs: seq<Bucket>)
    ensures Ids(bs + cs) == Ids(bs) + Ids(cs)
    ensures (forall b | b in bs :: b.key != "(unknown)" && b.key != "(other)") ==>
      |Ids(bs)| == |bs| && forall i | 0 <= i < |bs| :: Ids(bs)[i] == bs[i].key
  {
    if cs != [] {
      assert (bs + cs)[..|bs + cs| - 1] == bs + cs[..|cs| - 1];
      KeysInOrder(bs, cs[..|cs| - 1]);
    } else {
      assert bs + cs == bs;
      if bs != [] {
        assert bs == bs[..|bs| - 1] + [bs[|bs| - 1]];
        KeysInOrder(bs[..|bs| - 1], []);
      }
    }
  }

  /** Ids come distribution by distribution, a ref facet's under its own type, in the order its buckets have. */
  lemma {:induction false} IdsInOrder(ds: seq<Distribution>, es: seq<Distribution>, selected: seq<Facet>, f: Facet,
                                     d: Distribution, refType: string)
    requires DistinctKeys(selected) && f in selected && d.facet == f.key
    ensures IdsOf(ds + es, selected, refType) == IdsOf(ds, selected, refType) + IdsOf(es, selected, refType)
    ensures IdsOf([d], selected, refType) == if f.kind.KindRef? && f.refType == refType then Ids(d.buckets) else []
  {
    TokenIs(selected, f.key);
    assert [d][..0] == [];
    if es == [] {
      assert ds + es == ds;
    } else {
      assert (ds + es)[..|ds + es| - 1] == ds + es[..|es| - 1];
      IdsInOrder(ds, es[..|es| - 1], selected, f, d, refType);
    }
  }

  /** The distribution of a ref facet takes the names given for its type, bucket by bucket; any other is as it was. */
  lemma NamedByKind(before: seq<Distribution>, after: seq<Distribution>, selected: seq<Facet>,
                    answers: string -> Option<Names>, i: nat, f: Facet)
    requires DistinctKeys(selected) && IsNamed(before, after, selected, answers)
    requires i < |before| && f in selected && before[i].facet == f.key
    ensures !f.kind.KindRef? ==> after[i] == before[i]
    ensures |after[i].buckets| == |before[i].buckets|
    ensures forall j | f.kind.KindRef? && 0 <= j < |before[i].buckets| ::
      var b, a := before[i].buckets[j], after[i].buckets[j];
      && a.key == b.key && a.count == b.count
      && a.names == if answers(f.refType).Some? && b.key in answers(f.refType).value
                    then Some(answers(f.refType).value[b.key]) else b.names
  {
    TokenIs(selected, f.key);
    if !f.kind.KindRef? {
      assert after[i].buckets == before[i].buckets;
    }
  }

  // ------------------------------------------------------------------ the endpoint

  ghost predicate IsAnswer(labeler: Option<Labeler>, selected: seq<Facet>, gs: seq<Group>, r: Result<Report, string>) {
    exists base ::
      IsReport(selected, gs, base) && IsLabelling(labeler, selected, base, r)
  }

  ghost predicate IsLabelling(labeler: Option<Labeler>, selected: seq<Facet>, base: Report, r: Result<Report, string>) {
    var ds := base.distributions;
    match labeler
    case None => r == Ok(base)
    case Some(l) =>
      if r.Ok? then
        IsFirstFailure(l, ds, selected, None) && r.value.total == base.total
        && IsNamed(ds, r.value.distributions, selected, t => Answer(l, ds, selected, t))
      else
        exists t :: IsFirstFailure(l, ds, selected, Some(t)) && l(t, IdsOf(ds, selected, t)) == Err(r.error)
  }

  /**
   The unscoped arm, "", is reached by an administrator alone; otherwise the caller's own arm is read, and a
   caller with no identity reads nothing at all.
   */
  method Compute(labeler: Option<Labeler>, selected: seq<Facet>, isAdmin: bool, subject: string,
                 fetch: string -> Result<seq<Group>, string>)
    returns (r: Result<Report, string>, asked: seq<string>)
    ensures asked == (if isAdmin then [""] else if subject == "" then [] else [subject])
    ensures asked == [] ==> r == Ok(Report(0, []))
    ensures asked != [] && fetch(asked[0]).Err? ==> r == Err(fetch(asked[0]).error)
    ensures asked != [] && fetch(asked[0]).Ok? ==> IsAnswer(labeler, selected, fetch(asked[0]).value, r)
  {
    var arm := subject;
    if isAdmin {
      arm := "";
    } else if subject == "" {
      return Ok(Report(0, [])), [];
    }
    asked := [arm];
    var groups := fetch(arm);
    if groups.Err? {
      return Err(groups.error), asked;
    }
    var base := Assemble(selected, groups.value);
    if labeler.None? {
      return Ok(base), asked;
    }
    var res := new Response(base);
    var failed := LabelAll(labeler.value, selected, res);
    if failed.Some? {
      r := Err(labeler.value(failed.value, IdsOf(base.distributions, selected, failed.value)).error);
    } else {
      r := Ok(Report(res.total, res.distributions));
    }
    assert IsLabelling(labeler, selected, base, r);
  }

  ghost predicate Unnamed(out: seq<Bucket>) {
    forall i | 0 <= i < |out| :: out[i].names == None
  }

  lemma ChronologicalUnnamed(f: Facet, gs: seq<Group>, out: seq<Bucket>)
    requires IsChronological(f, gs, out)
    ensures Unnamed(out)
  {
    var keys :| SortOf(StrLess, FirstSeen(gs), keys) && out == Counted(gs, keys) + UnknownTail(f, NullCount(gs));
  }

  lemma TopNUnnamed(f: Facet, gs: seq<Group>, out: seq<Bucket>)
    requires Ranking.IsTopN(f, gs, out)
    ensures Unnamed(out)
  {
    var listed := Ranking.RealRows(gs, Ranking.TOPN_RESERVED);
    var rows :| SortOf(Ranking.TopNOrder(listed), listed, rows)
      && out == Ranking.Emitted(rows) + Ranking.TopNTails(f, gs);
  }

  lemma CatalogUnnamed(f: Facet, gs: seq<Group>, out: seq<Bucket>)
    requires Ranking.IsCatalog(f, gs, out)
    ensures Unnamed(out)
  {
    var listed := Ranking.RealRows(gs, Ranking.CATALOG_RESERVED);
    var rows :| StableSortOf(Ranking.ByOrdinal, listed, rows)
      && out == Ranking.Emitted(rows) + Tail(Ranking.SawUnknown(gs) || f.buckets.includeUnknown, UNKNOWN,
                                             Ranking.UnknownCount(gs));
  }

  /** Assembly names no bucket. */
  lemma AssembledUnnamed(f: Facet, gs: seq<Group>, out: seq<Bucket>)
    requires IsBuckets(f, gs, out)
    ensures Unnamed(out)
  {
    match f.buckets.strategy
    case DateTrunc => ChronologicalUnnamed(f, gs, out);
    case TopN => TopNUnnamed(f, gs, out);
    case Catalog => CatalogUnnamed(f, gs, out);
    case _ =>
  }

  lemma ReportUnnamed(selected: seq<Facet>, gs: seq<Group>, base: Report, i: nat)
    requires IsReport(selected, gs, base) && i < |selected|
    ensures |base.distributions| == |selected| && base.distributions[i].facet == selected[i].key
    ensures Unnamed(base.distributions[i].buckets)
  {
    AssembledUnnamed(selected[i], RowsOf(gs, selected[i].key), base.distributions[i].buckets);
  }

  ghost predicate SameKeys(a: seq<Distribution>, b: seq<Distribution>) {
    && |a| == |b|
    && forall i | 0 <= i < |a| ::
         && a[i].facet == b[i].facet && |a[i].buckets| == |b[i].buckets|
         && forall j | 0 <= j < |a[i].buckets| :: a[i].buckets[j].key == b[i].buckets[j].key
  }

  lemma SameKeysShow(a: seq<Distribution>, b: seq<Distribution>, facet: string, k: string)
    requires SameKeys(a, b) && ShowsKey(a, facet, k)
    ensures ShowsKey(b, facet, k)
  {
    var d, bucket :| d in a && d.facet == facet && bucket in d.buckets && bucket.key == k;
    var i :| 0 <= i < |a| && a[i] == d;
    var j :| 0 <= j < |d.buckets| && d.buckets[j] == bucket;
    assert b[i] in b && b[i].buckets[j] in b[i].buckets;
  }

  /** Naming changes no facet and no key, so the same ids are shown. */
  lemma NamingShowsTheSame(before: seq<Distribution>, after: seq<Distribution>, selected: seq<Facet>,
                           answers: string -> Option<Names>, refType: string, k: string)
    requires IsNamed(before, after, selected, answers)
    ensures RefShows(after, selected, refType, k) <==> RefShows(before, selected, refType, k)
  {
    forall f | f in selected ensures ShowsKey(after, f.key, k) <==> ShowsKey(before, f.key, k) {
      if ShowsKey(after, f.key, k) { SameKeysShow(after, before, f.key, k); }
      if ShowsKey(before, f.key, k) { SameKeysShow(before, after, f.key, k); }
    }
  }

  /** What the labeler is asked for a type. */
  ghost predicate AreIdsShown(ids: seq<string>, ds: seq<Distribution>, selected: seq<Facet>, refType: string) {
    forall k :: k in ids <==> k != "(unknown)" && k != "(other)" && RefShows(ds, selected, refType, k)
  }

  /** Asked about the ids shown, it answered without an error and has this name, or none, for the key. */
  ghost predicate NamesIt(l: Labeler, ids: seq<string>, refType: string, key: string, name: Option<Label>) {
    if ids == [] then name == None
    else l(refType, ids).Ok? && name == if key in l(refType, ids).value then Some(l(refType, ids).value[key]) else None
  }

  lemma RefNamed(l: Labeler, before: seq<Distribution>, after: seq<Distribution>, selected: seq<Facet>,
                 f: Facet, i: nat, j: nat)
    requires DistinctKeys(selected) && f in selected && f.kind.KindRef? && !LabelFails(l, before, selected, f.refType)
    requires IsNamed(before, after, selected, t => Answer(l, before, selected, t))
    requires i < |before| && before[i].facet == f.key && Unnamed(before[i].buckets) && j < |before[i].buckets|
    ensures |after[i].buckets| == |before[i].buckets|
    ensures var b := after[i].buckets[j]; NamesIt(l, IdsOf(before, selected, f.refType), f.refType, b.key, b.names)
  {
    NamedByKind(before, after, selected, t => Answer(l, before, selected, t), i, f);
  }

  /**
   What a caller sees of an answer: the distributions are those of the selected facets, in order; a ref facet's
   bucket has the name the labeler gave its key when asked about its type's ids; no other bucket has one.
   */
  lemma AnswerNames(l: Labeler, selected: seq<Facet>, gs: seq<Group>, r: Report, i: nat, j: nat)
    requires DistinctKeys(selected) && IsAnswer(Some(l), selected, gs, Ok(r))
    requires i < |selected| && i < |r.distributions| && j < |r.distributions[i].buckets|
    ensures |r.distributions| == |selected| && r.distributions[i].facet == selected[i].key
    ensures !selected[i].kind.KindRef? ==> r.distributions[i].buckets[j].names == None
    ensures selected[i].kind.KindRef? ==> exists ids ::
      && AreIdsShown(ids, r.distributions, selected, selected[i].refType)
      && NamesIt(l, ids, selected[i].refType, r.distributions[i].buckets[j].key, r.distributions[i].buckets[j].names)
  {
    var base :| IsReport(selected, gs, base) && IsLabelling(Some(l), selected, base, Ok(r));
    ReportUnnamed(selected, gs, base, i);
    NamesShown(l, selected, base, r, i, j);
  }

  lemma NamesShown(l: Labeler, selected: seq<Facet>, base: Report, r: Report, i: nat, j: nat)
    requires DistinctKeys(selected) && IsLabelling(Some(l), selected, base, Ok(r))
    requires i < |selected| && i < |r.distributions| && j < |r.distributions[i].buckets|
    requires |base.distributions| == |selected| && base.distributions[i].facet == selected[i].key
    requires Unnamed(base.distributions[i].buckets)
    ensures |r.distributions| == |selected| && r.distributions[i].facet == selected[i].key
    ensures !selected[i].kind.KindRef? ==> r.distributions[i].buckets[j].names == None
    ensures selected[i].kind.KindRef? ==> exists ids ::
      && AreIdsShown(ids, r.distributions, selected, selected[i].refType)
      && NamesIt(l, ids, selected[i].refType, r.distributions[i].buckets[j].key, r.distributions[i].buckets[j].names)
  {
    var f, ds := selected[i], base.distributions;
    if f.kind.KindRef? {
      assert !LabelFails(l, ds, selected, f.refType);
      RefNamed(l, ds, r.distributions, selected, f, i, j);
      IdsAreShown(ds, r.distributions, selected, t => Answer(l, ds, selected, t), f.refType);
    } else {
      NamedByKind(ds, r.distributions, selected, t => Answer(l, ds, selected, t), i, f);
    }
  }

  lemma IdsAreShown(before: seq<Distribution>, after: seq<Distribution>, selected: seq<Facet>,
                    answers: string -> Option<Names>, refType: string)
    requires DistinctKeys(selected) && IsNamed(before, after, selected, answers)
    ensures AreIdsShown(IdsOf(before, selected, refType), after, selected, refType)
  {
    forall k ensures k in IdsOf(before, selected, refType) <==>
      k != "(unknown)" && k != "(other)" && RefShows(after, selected, refType, k)
    {
      AskedAboutRefs(before, selected, refType, k);
      NamingShowsTheSame(before, after, selected, answers, refType, k);
    }
  }
}
