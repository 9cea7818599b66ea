/**
 The closure facet of a tree (internal/religion/adapters/stats.go): each node counts under every ancestor it
 has, and clicking a bucket replaces the view's anchor, so the two must agree at every depth.
 */
module Subtrees {
  import opened Wrappers
  import opened Ordering
  import opened Sums
  import opened Facets
  import opened Stats
  import opened Assembly
  import opened Dashboard
  import opened ManyValued
  import Conservation

  /** The proper ancestors of each node. */
  type Ancestors = string -> seq<string>

  ghost predicate IsTree(anc: Ancestors) {
    && (forall c :: OnceAbove(anc, c))
    && (forall c, y, x {:trigger IsAbove(anc, x, y), IsAbove(anc, y, c)} ::
          IsAbove(anc, x, y) && IsAbove(anc, y, c) ==> IsAbove(anc, x, c))
  }

  ghost predicate OnceAbove(anc: Ancestors, c: string) {
    NoRepeats(anc(c))
  }

  predicate IsAbove(anc: Ancestors, x: string, c: string) {
    x in anc(c)
  }

  function Among(xs: seq<string>, ids: seq<string>): seq<string> {
    if xs == [] then [] else
      Among(xs[..|xs| - 1], ids) + if xs[|xs| - 1] in ids then [xs[|xs| - 1]] else []
  }

  lemma {:induction false} AmongIs(xs: seq<string>, ids: seq<string>)
    ensures forall x :: x in Among(xs, ids) <==> x in xs && x in ids
    ensures NoRepeats(xs) ==> NoRepeats(Among(xs, ids))
  {
    if xs != [] {
      var init, last := xs[..|xs| - 1], xs[|xs| - 1];
      assert xs == init + [last];
      AmongIs(init, ids);
    }
  }

  /** The nodes under an anchor, or all of them. */
  function View(all: seq<string>, anc: Ancestors, anchor: Option<string>): seq<string> {
    if all == [] then [] else
      var c := all[|all| - 1];
      View(all[..|all| - 1], anc, anchor) + if anchor.Some? ==> anchor.value in anc(c) then [c] else []
  }

  lemma {:induction false} ViewIs(all: seq<string>, anc: Ancestors, anchor: Option<string>)
    ensures forall c :: c in View(all, anc, anchor) <==> c in all && (anchor.Some? ==> anchor.value in anc(c))
  {
    if all != [] {
      ViewIs(all[..|all| - 1], anc, anchor);
      assert all == all[..|all| - 1] + [all[|all| - 1]];
    }
  }

  function Joins(xs: seq<string>): Column {
    seq(|xs|, i requires 0 <= i < |xs| => Some(xs[i]))
  }

  lemma JoinsOnce(xs: seq<string>)
    ensures forall k :: Some(k) in Joins(xs) <==> k in xs
    ensures NoRepeats(xs) ==> NoRepeats(Joins(xs))
  {
    forall k | k in xs ensures Some(k) in Joins(xs) {
      var i :| 0 <= i < |xs| && xs[i] == k;
      assert Joins(xs)[i] == Some(k);
    }
  }

  /** The ancestors a node joins to: all of them, or only those in the view themselves. */
  function AncestorRow(view: seq<string>, anc: Ancestors, confined: bool, c: string): Column {
    Joins(if confined then Among(anc(c), view) else anc(c))
  }

  function AncestorTable(ids: seq<string>, view: seq<string>, anc: Ancestors, confined: bool): Table {
    seq(|ids|, i requires 0 <= i < |ids| => AncestorRow(view, anc, confined, ids[i]))
  }

  /** A key is in a node's row exactly when it is an ancestor, and in the view if the row is confined to it. */
  lemma AncestorRowIs(view: seq<string>, anc: Ancestors, confined: bool, c: string, k: string)
    ensures Some(k) in AncestorRow(view, anc, confined, c) <==> k in anc(c) && (confined ==> k in view)
  {
    AmongIs(anc(c), view);
    JoinsOnce(if confined then Among(anc(c), view) else anc(c));
  }

  function Under(anc: Ancestors, k: string): string -> int {
    (c: string) => if k in anc(c) then 1 else 0
  }

  lemma {:induction false} ViewSize(all: seq<string>, anc: Ancestors, k: string)
    ensures |View(all, anc, Some(k))| == SumBy(all, Under(anc, k))
  {
    if all != [] {
      ViewSize(all[..|all| - 1], anc, k);
    }
  }

  function UnderBoth(anc: Ancestors, anchor: Option<string>, k: string): string -> int {
    (c: string) => if k in anc(c) && (anchor.Some? ==> anchor.value in anc(c)) then 1 else 0
  }

  lemma {:induction false} ViewCount(all: seq<string>, anc: Ancestors, anchor: Option<string>, k: string)
    ensures SumBy(View(all, anc, anchor), Under(anc, k)) == SumBy(all, UnderBoth(anc, anchor, k))
  {
    if all != [] {
      ViewCount(all[..|all| - 1], anc, anchor, k);
      var c := all[|all| - 1];
      var before := View(all[..|all| - 1], anc, anchor);
      if anchor.Some? ==> anchor.value in anc(c) {
        SumSnoc(before, c, Under(anc, k));
      } else {
        assert View(all, anc, anchor) == before;
      }
    }
  }

  lemma {:induction false} TableHolding(ids: seq<string>, view: seq<string>, anc: Ancestors, confined: bool, k: string)
    requires confined ==> k in view
    ensures SumBy(ids, Under(anc, k)) == Rows(AncestorTable(ids, view, anc, confined), Holding(k))
  {
    if ids != [] {
      var init := ids[..|ids| - 1];
      TableHolding(init, view, anc, confined, k);
      assert AncestorTable(ids, view, anc, confined)[..|ids| - 1] == AncestorTable(init, view, anc, confined);
      AncestorRowIs(view, anc, confined, ids[|ids| - 1], k);
    }
  }

  lemma AncestorRows(view: seq<string>, anc: Ancestors, confined: bool)
    requires IsTree(anc)
    ensures NoRowRepeats(AncestorTable(view, view, anc, confined))
  {
    var t := AncestorTable(view, view, anc, confined);
    forall row, v | row in t && Some(v) in row ensures multiset(row)[Some(v)] == 1 {
      var i :| 0 <= i < |t| && t[i] == row;
      assert OnceAbove(anc, view[i]);
      AmongIs(anc(view[i]), view);
      JoinsOnce(if confined then Among(anc(view[i]), view) else anc(view[i]));
      OnceEach(row, Some(v));
    }
  }

  /** A bucket of the confined facet counts the nodes of the view under its key, when its key is in the view. */
  lemma ConfinedCount(view: seq<string>, anc: Ancestors, k: string)
    ensures Rows(AncestorTable(view, view, anc, true), Holding(k)) ==
      if k in view then SumBy(view, Under(anc, k)) else 0
  {
    if k in view {
      TableHolding(view, view, anc, true, k);
    } else {
      var t := AncestorTable(view, view, anc, true);
      forall row | row in t ensures Some(k) !in row {
        var i :| 0 <= i < |t| && t[i] == row;
        AncestorRowIs(view, anc, true, view[i], k);
      }
      RowsZeroIff(t, Holding(k));
    }
  }

  /** Under an anchor, a key of the view has below it just what it has below it in the whole tree. */
  lemma AnchorHidesNothing(all: seq<string>, anc: Ancestors, anchor: Option<string>, k: string)
    requires IsTree(anc) && k in View(all, anc, anchor)
    ensures SumBy(View(all, anc, anchor), Under(anc, k)) == |View(all, anc, Some(k))|
  {
    ViewIs(all, anc, anchor);
    ViewCount(all, anc, anchor, k);
    ViewSize(all, anc, k);
    forall c | c in all ensures UnderBoth(anc, anchor, k)(c) == Under(anc, k)(c) {
      if anchor.Some? {
        assert IsAbove(anc, anchor.value, k) && (IsAbove(anc, k, c) ==> IsAbove(anc, anchor.value, c));
      }
    }
    SumSame(all, UnderBoth(anc, anchor, k), Under(anc, k));
  }

  /**
   Drill-down: at the top or inside any anchored view, a bucket with rows counts exactly the nodes that
   anchoring at its key would list.
   */
  lemma SubtreeBucketIsItsFilter(f: Facet, kept: set<string>, all: seq<string>, anc: Ancestors, anchor: Option<string>,
                                 gs: seq<Group>, out: seq<Bucket>, i: nat)
    requires Conservation.KnownStrategy(f.buckets.strategy) && !f.buckets.strategy.Bands? && IsTree(anc)
    requires var col := Joined(Inner, AncestorTable(View(all, anc, anchor), View(all, anc, anchor), anc, true));
      IsBranch(f, kept, col, gs) && IsBuckets(f, gs, out) && NoSyntheticValues(f, col)
    requires i < |out| && RealKey(out[i].key) && out[i].count > 0
    ensures out[i].key in View(all, anc, anchor)
    ensures out[i].count == |View(all, anc, Some(out[i].key))|
  {
    var view, k := View(all, anc, anchor), out[i].key;
    AncestorRows(view, anc, true);
    BucketIsFilterIff(f, kept, Inner, AncestorTable(view, view, anc, true), x => {x}, gs, out, i);
    ConfinedCount(view, anc, k);
    AnchorHidesNothing(all, anc, anchor, k);
  }

  function Outside(anc: Ancestors, anchor: Option<string>, k: string): string -> int {
    (c: string) => if k in anc(c) && !(anchor.Some? ==> anchor.value in anc(c)) then 1 else 0
  }

  lemma UnderWithinView(all: seq<string>, anc: Ancestors, anchor: Option<string>, k: string)
    ensures SumBy(View(all, anc, anchor), Under(anc, k)) <= SumBy(all, Under(anc, k))
    ensures SumBy(View(all, anc, anchor), Under(anc, k)) == SumBy(all, Under(anc, k)) <==>
      forall c | c in all && k in anc(c) :: c in View(all, anc, anchor)
  {
    var view := View(all, anc, anchor);
    ViewIs(all, anc, anchor);
    ViewCount(all, anc, anchor, k);
    SumSplit(all, Under(anc, k), UnderBoth(anc, anchor, k), Outside(anc, anchor, k));
    SumZeroIff(all, Outside(anc, anchor, k));
    assert forall c | c in all :: Outside(anc, anchor, k)(c) == 0 <==> (k in anc(c) ==> c in view);
  }

  /**
   Without the second join a bucket may stand above the anchor: it then counts the view alone, and agrees
   with what anchoring at its key lists exactly when nothing below the key lies outside the view.
   */
  lemma UnconfinedIff(f: Facet, kept: set<string>, all: seq<string>, anc: Ancestors, anchor: Option<string>,
                      gs: seq<Group>, out: seq<Bucket>, i: nat)
    requires Conservation.KnownStrategy(f.buckets.strategy) && !f.buckets.strategy.Bands? && IsTree(anc)
    requires var col := Joined(Inner, AncestorTable(View(all, anc, anchor), View(all, anc, anchor), anc, false));
      IsBranch(f, kept, col, gs) && IsBuckets(f, gs, out) && NoSyntheticValues(f, col)
    requires i < |out| && RealKey(out[i].key)
    ensures out[i].count <= |View(all, anc, Some(out[i].key))|
    ensures out[i].count == |View(all, anc, Some(out[i].key))| <==>
      forall c | c in all && out[i].key in anc(c) :: c in View(all, anc, anchor)
  {
    var view, k := View(all, anc, anchor), out[i].key;
    AncestorRows(view, anc, false);
    BucketIsFilterIff(f, kept, Inner, AncestorTable(view, view, anc, false), x => {x}, gs, out, i);
    TableHolding(view, view, anc, false, k);
    ViewSize(all, anc, k);
    UnderWithinView(all, anc, anchor, k);
  }
}
