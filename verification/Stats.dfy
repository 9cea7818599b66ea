/**
 Assembly of raw GROUP BY rows into a dashboard's buckets (pkg/stats/stats.go). Each builder is proved
 against a description of its outcome; what those outcomes promise is proved in
 Conservation, ChartOrder and Dashboard.
 */
module Stats {
  import opened Wrappers
  import opened Ordering
  import opened Sums
  import opened Facets
  import Text

  const UNKNOWN := "(unknown)"
  const OTHER := "(other)"

  /** One aggregate row: its facet, its key (None is SQL NULL), its count, and an optional chart order. */
  datatype Group = Group(facet: string, key: Option<string>, count: int, ord: Option<int>)

  type Label = map<string, string>

  datatype Bucket = Bucket(key: string, count: int, names: Option<Label> := None)

  datatype Distribution = Distribution(facet: string, buckets: seq<Bucket>)

  datatype Report = Report(total: int, distributions: seq<Distribution>)

  // ------------------------------------------------------------------ counting

  function Whole(g: Group): int {
    g.count
  }

  function AtNull(g: Group): int {
    if g.key.None? then g.count else 0
  }

  function AtKey(k: string): Group -> int {
    (g: Group) => if g.key == Some(k) then g.count else 0
  }

  function Total(gs: seq<Group>): int {
    SumBy(gs, Whole)
  }

  function NullCount(gs: seq<Group>): int {
    SumBy(gs, AtNull)
  }

  function CountOf(gs: seq<Group>, k: string): int {
    SumBy(gs, AtKey(k))
  }

  function BucketCount(b: Bucket): int {
    b.count
  }

  function BucketTotal(bs: seq<Bucket>): int {
    SumBy(bs, BucketCount)
  }

  /** The keys in the order the rows first show them. */
  function FirstSeen(gs: seq<Group>): seq<string> {
    if gs == [] then [] else
      var init, g := FirstSeen(gs[..|gs| - 1]), gs[|gs| - 1];
      if g.key.None? || g.key.value in init then init else init + [g.key.value]
  }

  predicate HasKey(gs: seq<Group>, k: string) {
    exists g :: g in gs && g.key == Some(k)
  }

  lemma {:induction false} FirstSeenIs(gs: seq<Group>)
    ensures NoRepeats(FirstSeen(gs))
    ensures forall k :: k in FirstSeen(gs) <==> HasKey(gs, k)
  {
    if gs != [] {
      var init, g := gs[..|gs| - 1], gs[|gs| - 1];
      FirstSeenIs(init);
      assert gs == init + [g];
      forall k ensures HasKey(gs, k) <==> HasKey(init, k) || g.key == Some(k) {
        if g.key == Some(k) { assert g in gs; }
        if HasKey(init, k) {
          var h :| h in init && h.key == Some(k);
          assert h in gs;
        }
      }
    }
  }

  lemma {:induction false} UnseenIsZero(gs: seq<Group>, k: string)
    requires k !in FirstSeen(gs)
    ensures CountOf(gs, k) == 0
  {
    FirstSeenIs(gs);
    assert forall g | g in gs :: AtKey(k)(g) == 0;
    SumZeroIff(gs, AtKey(k));
  }

  function Lookup(counts: map<string, int>, k: string): int {
    if k in counts then counts[k] else 0
  }

  lemma TakeStep<T>(s: seq<T>, i: nat, w: T -> int)
    requires i < |s|
    ensures SumBy(s[..i + 1], w) == SumBy(s[..i], w) + w(s[i])
  {
    assert s[..i + 1] == s[..i] + [s[i]];
    SumSnoc(s[..i], s[i], w);
  }

  method IndexGroups(gs: seq<Group>) returns (counts: map<string, int>, unknown: int, keys: seq<string>)
    ensures unknown == NullCount(gs) && keys == FirstSeen(gs)
    ensures forall k :: Lookup(counts, k) == CountOf(gs, k)
  {
    counts, unknown, keys := map[], 0, [];
    for i := 0 to |gs|
      invariant unknown == NullCount(gs[..i]) && keys == FirstSeen(gs[..i])
      invariant forall k :: k in counts <==> k in keys
      invariant forall k | k in counts :: counts[k] == CountOf(gs[..i], k)
    {
      var g := gs[i];
      assert gs[..i + 1][..i] == gs[..i];
      TakeStep(gs, i, AtNull);
      forall k ensures CountOf(gs[..i + 1], k) == CountOf(gs[..i], k) + AtKey(k)(g) {
        TakeStep(gs, i, AtKey(k));
      }
      if g.key.None? {
        unknown := unknown + g.count;
        continue;
      }
      var k := g.key.value;
      if k !in counts {
        UnseenIsZero(gs[..i], k);
        keys := keys + [k];
      }
      counts := counts[k := Lookup(counts, k) + g.count];
    }
    assert gs[..|gs|] == gs;
    forall k ensures Lookup(counts, k) == CountOf(gs, k) {
      if k !in counts { UnseenIsZero(gs, k); }
    }
  }

  // ------------------------------------------------------------------ identity, bool, dateTrunc

  function Counted(gs: seq<Group>, keys: seq<string>): seq<Bucket> {
    seq(|keys|, i requires 0 <= i < |keys| => Bucket(keys[i], CountOf(gs, keys[i])))
  }

  /** A synthetic bucket at the end, when it is to be shown. */
  function Tail(shown: bool, key: string, n: int): seq<Bucket> {
    if shown then [Bucket(key, n)] else []
  }

  function UnknownTail(f: Facet, n: int): seq<Bucket> {
    Tail(f.buckets.includeUnknown || n > 0, UNKNOWN, n)
  }

  function Undeclared(keys: seq<string>, values: seq<string>): seq<string> {
    if keys == [] then [] else
      var init, k := Undeclared(keys[..|keys| - 1], values), keys[|keys| - 1];
      if k in values then init else init + [k]
  }

  /** The declared values in chart order, zero-filled, then whatever else was seen, then the NULLs. */
  function IdentityOf(f: Facet, gs: seq<Group>): seq<Bucket> {
    Counted(gs, f.values + Undeclared(FirstSeen(gs), f.values)) + UnknownTail(f, NullCount(gs))
  }

  function BoolOf(f: Facet, gs: seq<Group>): seq<Bucket> {
    Counted(gs, ["true", "false"]) + UnknownTail(f, NullCount(gs))
  }

  ghost predicate IsChronological(f: Facet, gs: seq<Group>, out: seq<Bucket>) {
    exists keys ::
      SortOf(StrLess, FirstSeen(gs), keys) && out == Counted(gs, keys) + UnknownTail(f, NullCount(gs))
  }

  method AppendUnknown(out: seq<Bucket>, f: Facet, unknown: int) returns (all: seq<Bucket>)
    ensures all == out + UnknownTail(f, unknown)
  {
    if f.buckets.includeUnknown || unknown > 0 {
      return out + [Bucket(UNKNOWN, unknown)];
    }
    return out;
  }

  method IdentityBuckets(f: Facet, gs: seq<Group>) returns (out: seq<Bucket>)
    ensures out == IdentityOf(f, gs)
  {
    var counts, unknown, extra := IndexGroups(gs);
    out := [];
    for i := 0 to |f.values|
      invariant out == Counted(gs, f.values[..i])
    {
      out := out + [Bucket(f.values[i], Lookup(counts, f.values[i]))];
    }
    assert f.values[..|f.values|] == f.values;
    for i := 0 to |extra|
      invariant out == Counted(gs, f.values + Undeclared(extra[..i], f.values))
    {
      assert extra[..i + 1][..i] == extra[..i];
      if extra[i] !in f.values {
        out := out + [Bucket(extra[i], Lookup(counts, extra[i]))];
      }
    }
    assert extra[..|extra|] == extra;
    out := AppendUnknown(out, f, unknown);
  }

  method BoolBuckets(f: Facet, gs: seq<Group>) returns (out: seq<Bucket>)
    ensures out == BoolOf(f, gs)
  {
    var counts, unknown, _ := IndexGroups(gs);
    out := [Bucket("true", Lookup(counts, "true")), Bucket("false", Lookup(counts, "false"))];
    out := AppendUnknown(out, f, unknown);
  }

  method ChronologicalBuckets(f: Facet, gs: seq<Group>) returns (out: seq<Bucket>)
    ensures IsChronological(f, gs, out)
  {
    var counts, unknown, seen := IndexGroups(gs);
    var keys := SortStrings(seen);
    out := [];
    for i := 0 to |keys|
      invariant out == Counted(gs, keys[..i])
    {
      out := out + [Bucket(keys[i], Lookup(counts, keys[i]))];
    }
    assert keys[..|keys|] == keys;
    out := AppendUnknown(out, f, unknown);
  }

  // ------------------------------------------------------------------ bands

  predicate InBand(b: Band, n: int) {
    (b.lo.None? || n >= b.lo.value) && (b.hi.None? || n < b.hi.value)
  }

  /** The first band holding n, or the number of bands when none does. */
  function FirstBand(bands: seq<Band>, n: int): (i: nat)
    ensures i <= |bands| && (i < |bands| ==> InBand(bands[i], n))
  {
    if bands == [] then 0
    else
      var i := FirstBand(bands[..|bands| - 1], n);
      if i < |bands| - 1 || InBand(bands[|bands| - 1], n) then i else |bands|
  }

  /** Where a row lands: with the NULLs, outside every band, or in band number i. */
  datatype Slot = Null | NoBand | InSlot(index: nat)

  function SlotOf(bands: seq<Band>, key: Option<string>): Slot {
    if key.None? then Null else
      var n := Text.ParseInt64(Text.TrimSpace(key.value));
      if n.None? then NoBand else
        var i := FirstBand(bands, n.value);
        if i == |bands| then NoBand else InSlot(i)
  }

  function AtSlot(bands: seq<Band>, slot: Slot): Group -> int {
    (g: Group) => if SlotOf(bands, g.key) == slot then g.count else 0
  }

  function SlotCount(bands: seq<Band>, gs: seq<Group>, slot: Slot): int {
    SumBy(gs, AtSlot(bands, slot))
  }

  predicate SawNull(gs: seq<Group>) {
    exists g :: g in gs && g.key.None?
  }

  function BandCounts(bands: seq<Band>, gs: seq<Group>): seq<Bucket> {
    seq(|bands|, i requires 0 <= i < |bands| => Bucket(bands[i].key, SlotCount(bands, gs, InSlot(i))))
  }

  function BandsOf(f: Facet, gs: seq<Group>): seq<Bucket> {
    var bands := f.buckets.bands;
    var other := SlotCount(bands, gs, NoBand);
    BandCounts(bands, gs) + Tail(other > 0, OTHER, other)
      + Tail(SawNull(gs) || f.buckets.includeUnknown, UNKNOWN, NullCount(gs))
  }

  method FindBand(bands: seq<Band>, n: int) returns (idx: int)
    ensures idx == if FirstBand(bands, n) == |bands| then -1 else FirstBand(bands, n)
  {
    idx := -1;
    for i := 0 to |bands|
      invariant FirstBand(bands[..i], n) == i
    {
      assert bands[..i + 1][..i] == bands[..i];
      if InBand(bands[i], n) {
        FirstBandStays(bands, i + 1, n);
        return i;
      }
    }
    assert bands[..|bands|] == bands;
  }

  lemma {:induction false} FirstBandStays(bands: seq<Band>, k: nat, n: int)
    requires k <= |bands| && FirstBand(bands[..k], n) < k
    ensures FirstBand(bands, n) == FirstBand(bands[..k], n)
  {
    if k == |bands| {
      assert bands[..k] == bands;
    } else {
      assert bands[..|bands| - 1][..k] == bands[..k];
      FirstBandStays(bands[..|bands| - 1], k, n);
    }
  }

  /** One more row moves the count of its own slot and of no other. */
  lemma SlotStep(bands: seq<Band>, gs: seq<Group>, i: nat)
    requires i < |gs|
    ensures NullCount(gs[..i + 1]) == NullCount(gs[..i]) + AtNull(gs[i])
    ensures SawNull(gs[..i + 1]) <==> SawNull(gs[..i]) || gs[i].key.None?
    ensures forall slot ::
      SlotCount(bands, gs[..i + 1], slot) == SlotCount(bands, gs[..i], slot) + AtSlot(bands, slot)(gs[i])
  {
    assert gs[..i + 1] == gs[..i] + [gs[i]];
    TakeStep(gs, i, AtNull);
    forall slot
      ensures SlotCount(bands, gs[..i + 1], slot) == SlotCount(bands, gs[..i], slot) + AtSlot(bands, slot)(gs[i])
    {
      TakeStep(gs, i, AtSlot(bands, slot));
    }
    if gs[i].key.None? { assert gs[i] in gs[..i + 1]; }
    if SawNull(gs[..i]) {
      var g :| g in gs[..i] && g.key.None?;
      assert g in gs[..i + 1];
    }
  }

  /** The slot of one row: its number parsed, then the bands tried in declared order. */
  method Place(bands: seq<Band>, key: Option<string>) returns (slot: Slot)
    ensures slot == SlotOf(bands, key)
  {
    if key.None? {
      return Null;
    }
    var n := Text.ParseInt64(Text.TrimSpace(key.value));
    if n.None? {
      return NoBand;
    }
    var idx := FindBand(bands, n.value);
    return if idx < 0 then NoBand else InSlot(idx);
  }

  ghost predicate Tallied(bands: seq<Band>, gs: seq<Group>, counts: seq<int>, other: int, unknown: int) {
    && |counts| == |bands| && (forall j | 0 <= j < |bands| :: counts[j] == SlotCount(bands, gs, InSlot(j)))
    && other == SlotCount(bands, gs, NoBand) && unknown == NullCount(gs)
  }

  method TallyBands(bands: seq<Band>, gs: seq<Group>)
    returns (counts: array<int>, other: int, unknown: int, sawUnknown: bool)
    ensures fresh(counts) && Tallied(bands, gs, counts[..], other, unknown)
    ensures sawUnknown <==> SawNull(gs)
  {
    counts := new int[|bands|](_ => 0);
    unknown, other, sawUnknown := 0, 0, false;
    for i := 0 to |gs|
      invariant Tallied(bands, gs[..i], counts[..], other, unknown)
      invariant sawUnknown <==> SawNull(gs[..i])
    {
      SlotStep(bands, gs, i);
      var g := gs[i];
      var slot := Place(bands, g.key);
      match slot {
        case Null => unknown, sawUnknown := unknown + g.count, true;
        case NoBand => other := other + g.count;
        case InSlot(idx) => counts[idx] := counts[idx] + g.count;
      }
    }
    assert gs[..|gs|] == gs;
  }

  method BandBuckets(f: Facet, gs: seq<Group>) returns (out: seq<Bucket>)
    ensures out == BandsOf(f, gs)
  {
    var bands := f.buckets.bands;
    var counts, other, unknown, sawUnknown := TallyBands(bands, gs);
    out := [];
    for i := 0 to |bands|
      invariant Tallied(bands, gs, counts[..], other, unknown)
      invariant out == BandCounts(bands, gs)[..i]
    {
      out := out + [Bucket(bands[i].key, counts[i])];
    }
    if other > 0 {
      out := out + [Bucket(OTHER, other)];
    }
    if sawUnknown || f.buckets.includeUnknown {
      out := out + [Bucket(UNKNOWN, unknown)];
    }
  }
}
