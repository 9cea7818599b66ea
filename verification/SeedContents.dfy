/** What the seeded rows hold: whose value each one has, after one import and after a whole run. */
module SeedContents {
  import opened Ordering
  import opened Presets
  import opened Seeding

  // ------------------------------------------------------------------ one import

  predicate HasKey(records: seq<Record>, key: string) {
    exists r :: r in records && r.key == key
  }

  /** Keys of other types, and keys no record has, are as before. */
  lemma {:induction false} OtherKeysStay(rows: map<Key, string>, objectType: string, records: seq<Record>,
                                        reconcile: bool, k: Key)
    requires k.0 != objectType || !HasKey(records, k.1)
    ensures var after := Import(rows, objectType, records, reconcile);
      (k in after <==> k in rows) && (k in rows ==> after[k] == rows[k])
  {
    if records != [] {
      var init, r := records[..|records| - 1], records[|records| - 1];
      assert r in records;
      if HasKey(init, k.1) {
        var q :| q in init && q.key == k.1;
        assert q in records;
      }
      OtherKeysStay(rows, objectType, init, reconcile, k);
    }
  }

  /** No record before the i-th has its key. */
  predicate FirstWith(records: seq<Record>, i: nat)
    requires i < |records|
  {
    !HasKey(records[..i], records[i].key)
  }

  /** No record after the i-th has its key. */
  predicate LastWith(records: seq<Record>, i: nat)
    requires i < |records|
  {
    !HasKey(records[i + 1..], records[i].key)
  }

  /** Create-only, a key that was absent takes the value of the first record that has it. */
  lemma {:induction false} FirstRecordWins(rows: map<Key, string>, objectType: string, records: seq<Record>, i: nat)
    requires i < |records| && FirstWith(records, i) && (objectType, records[i].key) !in rows
    ensures var after := Import(rows, objectType, records, false);
      (objectType, records[i].key) in after && after[(objectType, records[i].key)] == records[i].value
  {
    var init := records[..|records| - 1];
    var k := (objectType, records[i].key);
    if i == |records| - 1 {
      OtherKeysStay(rows, objectType, init, false, k);
    } else {
      assert init[..i] == records[..i];
      FirstRecordWins(rows, objectType, init, i);
    }
  }

  /** Reconciling, a key takes the value of the last record that has it. */
  lemma {:induction false} LastRecordWins(rows: map<Key, string>, objectType: string, records: seq<Record>, i: nat)
    requires i < |records| && LastWith(records, i)
    ensures var after := Import(rows, objectType, records, true);
      (objectType, records[i].key) in after && after[(objectType, records[i].key)] == records[i].value
  {
    if i < |records| - 1 {
      var init, r := records[..|records| - 1], records[|records| - 1];
      assert records[i + 1..] == init[i + 1..] + [r];
      LastRecordWins(rows, objectType, init, i);
    }
  }

  // ------------------------------------------------------------------ a whole run

  /** The preset holds a record of this key. */
  predicate Claims(p: Preset, k: Key) {
    p.objectType == k.0 && HasKey(p.records, k.1)
  }

  predicate Outdated(st: Store, p: Preset) {
    p.name !in st.marks || st.marks[p.name] != p.sourceVersion
  }

  /** The run imports every preset from i on: it reconciles, or none of them is at its version. */
  ghost predicate ImportsAll(presets: seq<Preset>, i: nat, st: Store, reconcile: bool) {
    reconcile || forall j | i <= j < |presets| :: Outdated(st, presets[j])
  }

  lemma ImportsRest(presets: seq<Preset>, i: nat, st: Store, reconcile: bool)
    requires NoRepeats(NamesOf(presets)) && i < |presets| && ImportsAll(presets, i, st, reconcile)
    ensures ImportsAll(presets, i + 1, Marked(Imported(st, presets[i], reconcile), presets[i]), reconcile)
  {
    forall j | i + 1 <= j < |presets| ensures presets[j].name != presets[i].name {
      assert NamesOf(presets)[j] != NamesOf(presets)[i];
    }
  }

  /** Whatever run it is and wherever it stops, a key no preset claims is as before. */
  lemma {:induction false} UnclaimedStays(presets: seq<Preset>, i: nat, st: Store, reconcile: bool, budget: nat, k: Key)
    requires forall j | i <= j < |presets| :: !Claims(presets[j], k)
    ensures var after := SeedFrom(presets, i, st, reconcile, budget).store.rows;
      (k in after <==> k in st.rows) && (k in st.rows ==> after[k] == st.rows[k])
    decreases |presets| - i
  {
    if i < |presets| {
      var p := presets[i];
      if !reconcile && UpToDate(st, p) {
        UnclaimedStays(presets, i + 1, st, reconcile, budget, k);
      } else if budget >= 1 {
        OtherKeysStay(st.rows, p.objectType, p.records, reconcile, k);
        if budget >= 2 {
          UnclaimedStays(presets, i + 1, Marked(Imported(st, p, reconcile), p), reconcile, budget - 2, k);
        }
      }
    }
  }

  /** The preset at index t and its record at index r are the first of all that claim the record's key. */
  ghost predicate FirstOfAll(presets: seq<Preset>, i: nat, t: nat, r: nat) {
    && i <= t < |presets| && r < |presets[t].records|
    && FirstWith(presets[t].records, r)
    && forall j | i <= j < t :: !Claims(presets[j], (presets[t].objectType, presets[t].records[r].key))
  }

  ghost predicate LastOfAll(presets: seq<Preset>, t: nat, r: nat) {
    && t < |presets| && r < |presets[t].records|
    && LastWith(presets[t].records, r)
    && forall j | t < j < |presets| :: !Claims(presets[j], (presets[t].objectType, presets[t].records[r].key))
  }

  /** The row holds the record's value. */
  predicate Holds(rows: map<Key, string>, p: Preset, r: nat)
    requires r < |p.records|
  {
    (p.objectType, p.records[r].key) in rows && rows[(p.objectType, p.records[r].key)] == p.records[r].value
  }

  lemma {:induction false} BootFrom(presets: seq<Preset>, i: nat, st: Store, budget: nat, t: nat, r: nat)
    requires NoRepeats(NamesOf(presets)) && ImportsAll(presets, i, st, false) && FirstOfAll(presets, i, t, r)
    requires (presets[t].objectType, presets[t].records[r].key) !in st.rows
    requires SeedFrom(presets, i, st, false, budget).completed
    ensures Holds(SeedFrom(presets, i, st, false, budget).store.rows, presets[t], r)
    decreases |presets| - i
  {
    var p, st2 := presets[i], Marked(Imported(st, presets[i], false), presets[i]);
    ImportsRest(presets, i, st, false);
    if i == t {
      FirstRecordWins(st.rows, p.objectType, p.records, r);
      BootExtends(presets, i + 1, st2, budget - 2);
    } else {
      OtherKeysStay(st.rows, p.objectType, p.records, false, (presets[t].objectType, presets[t].records[r].key));
      BootFrom(presets, i + 1, st2, budget - 2, t, r);
    }
  }

  /**
   After a completed first boot, every record of every preset is in the store: a key that was absent holds the
   value of the first record with it, in seeding order.
   */
  lemma FirstBootHolds(presets: seq<Preset>, rows: map<Key, string>, budget: nat, t: nat, r: nat)
    requires NoRepeats(NamesOf(presets)) && FirstOfAll(presets, 0, t, r)
    requires (presets[t].objectType, presets[t].records[r].key) !in rows
    requires SeedFrom(presets, 0, Store(rows, map[]), false, budget).completed
    ensures Holds(SeedFrom(presets, 0, Store(rows, map[]), false, budget).store.rows, presets[t], r)
  {
    BootFrom(presets, 0, Store(rows, map[]), budget, t, r);
  }

  lemma {:induction false} ReconcileFrom(presets: seq<Preset>, i: nat, st: Store, budget: nat, t: nat, r: nat)
    requires i <= t && LastOfAll(presets, t, r)
    requires SeedFrom(presets, i, st, true, budget).completed
    ensures Holds(SeedFrom(presets, i, st, true, budget).store.rows, presets[t], r)
    decreases |presets| - i
  {
    var p, st2 := presets[i], Marked(Imported(st, presets[i], true), presets[i]);
    if i == t {
      LastRecordWins(st.rows, p.objectType, p.records, r);
      UnclaimedStays(presets, i + 1, st2, true, budget - 2, (p.objectType, p.records[r].key));
    } else {
      ReconcileFrom(presets, i + 1, st2, budget - 2, t, r);
    }
  }

  /** After a completed reconcile, from any store, every key holds the value of the last record with it. */
  lemma ReconcileHolds(presets: seq<Preset>, st: Store, budget: nat, t: nat, r: nat)
    requires LastOfAll(presets, t, r) && SeedFrom(presets, 0, st, true, budget).completed
    ensures Holds(SeedFrom(presets, 0, st, true, budget).store.rows, presets[t], r)
  {
    ReconcileFrom(presets, 0, st, budget, t, r);
  }

  // ------------------------------------------------------------------ which presets a run imports

  ghost predicate ImportsAt(events: seq<Event>, j: nat) {
    exists e :: e in events && e.index == j
  }

  lemma ImportsCons(first: Event, rest: seq<Event>, j: nat)
    ensures ImportsAt([first] + rest, j) <==> first.index == j || ImportsAt(rest, j)
  {
    assert first in [first] + rest;
  }

  lemma {:induction false} CompletedImports(presets: seq<Preset>, i: nat, st: Store, reconcile: bool, budget: nat,
                                           j: nat)
    requires NoRepeats(NamesOf(presets)) && i <= j < |presets|
    requires SeedFrom(presets, i, st, reconcile, budget).completed
    ensures ImportsAt(SeedFrom(presets, i, st, reconcile, budget).events, j) <==> reconcile || Outdated(st, presets[j])
    decreases |presets| - i
  {
    var p := presets[i];
    if !reconcile && UpToDate(st, p) {
      if i < j {
        CompletedImports(presets, i + 1, st, reconcile, budget, j);
      } else {
        EventsAscend(presets, i + 1, st, reconcile, budget);
      }
    } else {
      var event := Event(i, st.marks, Tally(st.rows, p.objectType, p.records, reconcile));
      var st2 := Marked(Imported(st, p, reconcile), p);
      ImportsCons(event, SeedFrom(presets, i + 1, st2, reconcile, budget - 2).events, j);
      if i < j {
        assert NamesOf(presets)[i] != NamesOf(presets)[j];
        CompletedImports(presets, i + 1, st2, reconcile, budget - 2, j);
      }
    }
  }

  lemma NameIsItsOwn(presets: seq<Preset>, i: nat)
    requires NoRepeats(NamesOf(presets)) && i < |presets|
    ensures forall j | i < j < |presets| :: presets[j].name != presets[i].name
  {
    forall j | i < j < |presets| ensures presets[j].name != presets[i].name {
      assert NamesOf(presets)[j] != NamesOf(presets)[i];
    }
  }

  lemma {:induction false} CompletedMarks(presets: seq<Preset>, i: nat, st: Store, reconcile: bool, budget: nat, j: nat)
    requires NoRepeats(NamesOf(presets)) && i <= j < |presets|
    requires SeedFrom(presets, i, st, reconcile, budget).completed
    ensures var marks := SeedFrom(presets, i, st, reconcile, budget).store.marks;
      presets[j].name in marks && marks[presets[j].name] == presets[j].sourceVersion
    decreases |presets| - i
  {
    var p := presets[i];
    NameIsItsOwn(presets, i);
    var skip := !reconcile && UpToDate(st, p);
    var next := if skip then st else Marked(Imported(st, p, reconcile), p);
    var left := if skip then budget else budget - 2;
    if i < j {
      CompletedMarks(presets, i + 1, next, reconcile, left, j);
    } else {
      MarkStays(presets, i + 1, next, reconcile, left, p);
    }
  }

  lemma {:induction false} MarkStays(presets: seq<Preset>, i: nat, st: Store, reconcile: bool, budget: nat, p: Preset)
    requires p.name in st.marks && st.marks[p.name] == p.sourceVersion
    requires forall j | i <= j < |presets| :: presets[j].name != p.name
    ensures var marks := SeedFrom(presets, i, st, reconcile, budget).store.marks;
      p.name in marks && marks[p.name] == p.sourceVersion
    decreases |presets| - i
  {
    if i < |presets| {
      if !reconcile && UpToDate(st, presets[i]) {
        MarkStays(presets, i + 1, st, reconcile, budget, p);
      } else if budget >= 2 {
        MarkStays(presets, i + 1, Marked(Imported(st, presets[i], reconcile), presets[i]), reconcile, budget - 2, p);
      }
    }
  }

  /**
   The version gate: a completed boot imports exactly the presets whose recorded version is missing or another,
   a completed reconcile imports all, and both leave every preset recorded at its version.
   */
  lemma CompletedRunImports(presets: seq<Preset>, st: Store, reconcile: bool, budget: nat, j: nat)
    requires NoRepeats(NamesOf(presets)) && j < |presets|
    requires SeedFrom(presets, 0, st, reconcile, budget).completed
    ensures ImportsAt(SeedFrom(presets, 0, st, reconcile, budget).events, j) <==>
      reconcile || presets[j].name !in st.marks || st.marks[presets[j].name] != presets[j].sourceVersion
    ensures var marks := SeedFrom(presets, 0, st, reconcile, budget).store.marks;
      presets[j].name in marks && marks[presets[j].name] == presets[j].sourceVersion
  {
    CompletedImports(presets, 0, st, reconcile, budget, j);
    CompletedMarks(presets, 0, st, reconcile, budget, j);
  }
}
