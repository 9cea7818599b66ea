/**
 The boot seeder (internal/pinax/seeder.go): every preset in dependency order, gated by a persisted
 version marker, with a crash possible between any two durable actions. An import is one transaction;
 the marker is written after it, outside it (seeder.go:119-139). `budget` is the number of durable
 actions a run lives to take, so it also stands for an import or marker that fails.
 */
module Seeding {
  import opened Ordering
  import opened Presets

  type Key = (string, string)

  /** Rows by object type and key, and the applied version by preset. */
  datatype Store = Store(rows: map<Key, string>, marks: map<string, string>)

  // ------------------------------------------------------------------ one import

  /** Insert what is absent; overwrite what is present only when reconciling. */
  function Import(rows: map<Key, string>, objectType: string, records: seq<Record>, reconcile: bool): map<Key, string> {
    if records == [] then rows else
      var r := records[|records| - 1];
      var before := Import(rows, objectType, records[..|records| - 1], reconcile);
      if (objectType, r.key) !in before || reconcile then before[(objectType, r.key) := r.value] else before
  }

  ghost predicate Extends(a: map<Key, string>, b: map<Key, string>) {
    forall k | k in a :: k in b && b[k] == a[k]
  }

  /** A create-only import changes no existing row and leaves every record's key present. */
  lemma {:induction false} CreateOnlyExtends(rows: map<Key, string>, objectType: string, records: seq<Record>)
    ensures Extends(rows, Import(rows, objectType, records, false))
    ensures forall r | r in records :: (objectType, r.key) in Import(rows, objectType, records, false)
  {
    if records != [] {
      CreateOnlyExtends(rows, objectType, records[..|records| - 1]);
      assert records == records[..|records| - 1] + [records[|records| - 1]];
    }
  }

  lemma {:induction false} PresentIsNoOp(rows: map<Key, string>, objectType: string, records: seq<Record>)
    requires forall r | r in records :: (objectType, r.key) in rows
    ensures Import(rows, objectType, records, false) == rows
  {
    if records != [] {
      PresentIsNoOp(rows, objectType, records[..|records| - 1]);
      assert records[|records| - 1] in records;
    }
  }

  /** So a crash between import and marker costs nothing: importing again is a no-op. */
  lemma ImportIdempotent(rows: map<Key, string>, objectType: string, records: seq<Record>)
    ensures var once := Import(rows, objectType, records, false);
      Import(once, objectType, records, false) == once
  {
    CreateOnlyExtends(rows, objectType, records);
    PresentIsNoOp(Import(rows, objectType, records, false), objectType, records);
  }

  /** What an import reports: rows inserted, rows overwritten, and records already as they should be. */
  datatype Summary = Summary(created: nat, updated: nat, skipped: nat)

  function Tally(rows: map<Key, string>, objectType: string, records: seq<Record>, reconcile: bool): Summary {
    if records == [] then Summary(0, 0, 0) else
      var r, before := records[|records| - 1], Import(rows, objectType, records[..|records| - 1], reconcile);
      var s := Tally(rows, objectType, records[..|records| - 1], reconcile);
      if (objectType, r.key) !in before then s.(created := s.created + 1)
      else if reconcile && before[(objectType, r.key)] != r.value then s.(updated := s.updated + 1)
      else s.(skipped := s.skipped + 1)
  }

  /**
   The report accounts for every record and for every new row; one with nothing created and nothing updated
   means nothing changed, and a create-only import that created nothing changed nothing.
   */
  lemma {:induction false} TallyTells(rows: map<Key, string>, objectType: string, records: seq<Record>, reconcile: bool)
    ensures var t := Tally(rows, objectType, records, reconcile);
      && t.created + t.updated + t.skipped == |records|
      && |Import(rows, objectType, records, reconcile)| == |rows| + t.created
      && (t.created == 0 && t.updated == 0 ==> Import(rows, objectType, records, reconcile) == rows)
      && (!reconcile ==> t.updated == 0)
  {
    if records != [] {
      TallyTells(rows, objectType, records[..|records| - 1], reconcile);
      var r, before := records[|records| - 1], Import(rows, objectType, records[..|records| - 1], reconcile);
      OneEntry(before, (objectType, r.key), r.value);
    }
  }

  lemma OneEntry(m: map<Key, string>, k: Key, v: string)
    ensures |m[k := v]| == |m| + if k in m then 0 else 1
    ensures k in m && m[k] == v ==> m[k := v] == m
  {
    assert m[k := v].Keys == m.Keys + {k};
    assert |m[k := v].Keys| == |m[k := v]| && |m.Keys| == |m|;
  }

  /** Importing again create-only reports every record as skipped. */
  lemma SecondImportSkips(rows: map<Key, string>, objectType: string, records: seq<Record>)
    ensures var once := Import(rows, objectType, records, false);
      Tally(once, objectType, records, false) == Summary(0, 0, |records|)
  {
    var once := Import(rows, objectType, records, false);
    ImportIdempotent(rows, objectType, records);
    TallyTells(once, objectType, records, false);
  }

  // ------------------------------------------------------------------ one run

  predicate UpToDate(st: Store, p: Preset) {
    p.name in st.marks && st.marks[p.name] == p.sourceVersion
  }

  function Imported(st: Store, p: Preset, reconcile: bool): Store {
    st.(rows := Import(st.rows, p.objectType, p.records, reconcile))
  }

  function Marked(st: Store, p: Preset): Store {
    st.(marks := st.marks[p.name := p.sourceVersion])
  }

  /** An import as it happened: which preset, the markers standing at that moment, and what it reported. */
  datatype Event = Event(index: nat, marks: map<string, string>, summary: Summary)

  datatype Ran = Ran(store: Store, completed: bool, events: seq<Event>)

  /** The run over presets[i..] from `st`. */
  function SeedFrom(presets: seq<Preset>, i: nat, st: Store, reconcile: bool, budget: nat): Ran
    decreases |presets| - i
  {
    if i >= |presets| then Ran(st, true, [])
    else if !reconcile && UpToDate(st, presets[i]) then SeedFrom(presets, i + 1, st, reconcile, budget)
    else if budget == 0 then Ran(st, false, [])
    else
      var p := presets[i];
      var event := Event(i, st.marks, Tally(st.rows, p.objectType, p.records, reconcile));
      var st1 := Imported(st, p, reconcile);
      if budget == 1 then Ran(st1, false, [event])
      else
        var rest := SeedFrom(presets, i + 1, Marked(st1, p), reconcile, budget - 2);
        rest.(events := [event] + rest.events)
  }

  /** The summaries by preset name, added to those already gathered. */
  function Report(presets: seq<Preset>, base: map<string, Summary>, events: seq<Event>): map<string, Summary>
    decreases |events|
  {
    if events == [] then base
    else if events[0].index >= |presets| then Report(presets, base, events[1..])
    else Report(presets, base[presets[events[0].index].name := events[0].summary], events[1..])
  }

  /** A bundle the seeder may hold: a topological order, each name once. */
  ghost predicate InDependencyOrder(presets: seq<Preset>) {
    && NoRepeats(NamesOf(presets))
    && forall i, d | 0 <= i < |presets| && d in presets[i].dependsOn ::
         exists j :: 0 <= j < i && presets[j].name == d
  }

  /** What the topological sort returns is such a bundle. */
  lemma SortedBundleIsInOrder(m: Bundle, order: seq<string>, presets: seq<Preset>)
    requires Named(m) && Enumerates(m, order) && DepsFirst(m, order) && Lists(m, presets, order)
    ensures InDependencyOrder(presets)
  {
    forall i, d | 0 <= i < |presets| && d in presets[i].dependsOn
      ensures exists j :: 0 <= j < i && presets[j].name == d
    {
      assert presets[i] in presets && order[i] == presets[i].name;
      assert DependsOn(m, order[i], d);
      var j :| 0 <= j < i && order[..i][j] == d;
      assert presets[j].name == order[j];
    }
  }

  ghost predicate UpToDateThrough(presets: seq<Preset>, st: Store, k: nat) {
    forall j | 0 <= j < |presets| && j < k :: UpToDate(st, presets[j])
  }

  lemma MarkingOthers(presets: seq<Preset>, i: nat, j: nat, st: Store)
    requires NoRepeats(NamesOf(presets)) && i < |presets| && j < |presets| && i != j
    ensures UpToDate(Marked(st, presets[i]), presets[j]) <==> UpToDate(st, presets[j])
  {
    assert NamesOf(presets)[i] != NamesOf(presets)[j];
  }

  /**
   From any stored state whatever, in either mode and crashing anywhere, a preset is imported only when
   every preset before it, so every one it depends on, is up to date.
   */
  lemma {:induction false} ImportsFollowTheirDependencies(presets: seq<Preset>, i: nat, st: Store,
      reconcile: bool, budget: nat)
    requires NoRepeats(NamesOf(presets)) && UpToDateThrough(presets, st, i)
    ensures forall e | e in SeedFrom(presets, i, st, reconcile, budget).events ::
      i <= e.index < |presets| && UpToDateThrough(presets, Store(st.rows, e.marks), e.index)
    ensures SeedFrom(presets, i, st, reconcile, budget).completed ==>
      UpToDateThrough(presets, SeedFrom(presets, i, st, reconcile, budget).store, |presets|)
    decreases |presets| - i
  {
    if i < |presets| {
      if !reconcile && UpToDate(st, presets[i]) {
        ImportsFollowTheirDependencies(presets, i + 1, st, reconcile, budget);
      } else if budget >= 2 {
        var st2 := Marked(Imported(st, presets[i], reconcile), presets[i]);
        forall j | 0 <= j < i + 1 ensures UpToDate(st2, presets[j]) {
          if j < i { MarkingOthers(presets, i, j, Imported(st, presets[i], reconcile)); }
        }
        ImportsFollowTheirDependencies(presets, i + 1, st2, reconcile, budget - 2);
      }
    }
  }

  // ------------------------------------------------------------------ the prefix property

  /** Exactly the first k presets are up to date. */
  ghost predicate PrefixMarked(presets: seq<Preset>, st: Store, k: nat) {
    k <= |presets| && forall j | 0 <= j < |presets| :: UpToDate(st, presets[j]) <==> j < k
  }

  lemma {:induction false} RunKeepsPrefix(presets: seq<Preset>, i: nat, st: Store, reconcile: bool, budget: nat, k: nat)
      returns (k': nat)
    requires NoRepeats(NamesOf(presets)) && PrefixMarked(presets, st, k) && i <= k
    ensures k <= k' && PrefixMarked(presets, SeedFrom(presets, i, st, reconcile, budget).store, k')
    decreases |presets| - i
  {
    k' := k;
    if i < |presets| {
      if !reconcile && UpToDate(st, presets[i]) {
        k' := RunKeepsPrefix(presets, i + 1, st, reconcile, budget, k);
      } else if budget >= 2 {
        var st1 := Imported(st, presets[i], reconcile);
        var next := if i < k then k else i + 1;
        forall j | 0 <= j < |presets| ensures UpToDate(Marked(st1, presets[i]), presets[j]) <==> j < next {
          if j != i { MarkingOthers(presets, i, j, st1); }
          assert UpToDate(st1, presets[j]) <==> UpToDate(st, presets[j]);
        }
        k' := RunKeepsPrefix(presets, i + 1, Marked(st1, presets[i]), reconcile, budget - 2, next);
      }
    }
  }

  datatype Boot = Boot(reconcile: bool, budget: nat)

  function Boots(presets: seq<Preset>, st: Store, runs: seq<Boot>): Store
    decreases |runs|
  {
    if runs == [] then st
    else Boots(presets, SeedFrom(presets, 0, st, runs[0].reconcile, runs[0].budget).store, runs[1..])
  }

  /**
   On one bundle, from an empty seed state or any other prefix, whatever boots and reconciles crash wherever:
   the up-to-date presets are a prefix of the dependency order, hence closed under dependsOn.
   */
  lemma {:induction false} SeededIsPrefix(presets: seq<Preset>, st: Store, runs: seq<Boot>, k: nat) returns (k': nat)
    requires InDependencyOrder(presets) && PrefixMarked(presets, st, k)
    ensures k <= k' && PrefixMarked(presets, Boots(presets, st, runs), k')
    ensures forall p, d | p in presets && UpToDate(Boots(presets, st, runs), p) && d in p.dependsOn ::
      exists q :: q in presets && q.name == d && UpToDate(Boots(presets, st, runs), q)
    decreases |runs|
  {
    if runs == [] {
      k' := k;
    } else {
      var next := RunKeepsPrefix(presets, 0, st, runs[0].reconcile, runs[0].budget, k);
      k' := SeededIsPrefix(presets, SeedFrom(presets, 0, st, runs[0].reconcile, runs[0].budget).store, runs[1..], next);
    }
    PrefixIsClosed(presets, Boots(presets, st, runs), k');
  }

  lemma PrefixIsClosed(presets: seq<Preset>, st: Store, k: nat)
    requires InDependencyOrder(presets) && PrefixMarked(presets, st, k)
    ensures forall p, d | p in presets && UpToDate(st, p) && d in p.dependsOn ::
      exists q :: q in presets && q.name == d && UpToDate(st, q)
  {
  }

  lemma SeededFromEmpty(presets: seq<Preset>, rows: map<Key, string>, runs: seq<Boot>) returns (k: nat)
    requires InDependencyOrder(presets)
    ensures PrefixMarked(presets, Boots(presets, Store(rows, map[]), runs), k)
  {
    k := SeededIsPrefix(presets, Store(rows, map[]), runs, 0);
  }

  // ------------------------------------------------------------------ warm boots

  /** When everything is up to date a boot imports nothing and changes nothing. */
  lemma {:induction false} WarmBootIsNothing(presets: seq<Preset>, i: nat, st: Store, budget: nat)
    requires UpToDateThrough(presets, st, |presets|)
    ensures SeedFrom(presets, i, st, false, budget) == Ran(st, true, [])
    decreases |presets| - i
  {
    if i < |presets| {
      WarmBootIsNothing(presets, i + 1, st, budget);
    }
  }

  /** After a run of either kind completes, the next boot is such a boot. */
  lemma CompletedThenWarm(presets: seq<Preset>, st: Store, reconcile: bool, budget: nat, budget': nat)
    requires NoRepeats(NamesOf(presets)) && SeedFrom(presets, 0, st, reconcile, budget).completed
    ensures var done := SeedFrom(presets, 0, st, reconcile, budget).store;
      SeedFrom(presets, 0, done, false, budget') == Ran(done, true, [])
  {
    ImportsFollowTheirDependencies(presets, 0, st, reconcile, budget);
    WarmBootIsNothing(presets, 0, SeedFrom(presets, 0, st, reconcile, budget).store, budget');
  }

  /** A run given two actions per preset always completes. */
  lemma {:induction false} EnoughBudgetCompletes(presets: seq<Preset>, i: nat, st: Store, reconcile: bool, budget: nat)
    requires i <= |presets| && budget >= 2 * (|presets| - i)
    ensures SeedFrom(presets, i, st, reconcile, budget).completed
    decreases |presets| - i
  {
    if i < |presets| {
      if !reconcile && UpToDate(st, presets[i]) {
        EnoughBudgetCompletes(presets, i + 1, st, reconcile, budget);
      } else {
        var st2 := Marked(Imported(st, presets[i], reconcile), presets[i]);
        EnoughBudgetCompletes(presets, i + 1, st2, reconcile, budget - 2);
      }
    }
  }

  // ------------------------------------------------------------------ boots never overwrite, and resume

  lemma {:induction false} BootExtends(presets: seq<Preset>, i: nat, st: Store, budget: nat)
    ensures Extends(st.rows, SeedFrom(presets, i, st, false, budget).store.rows)
    decreases |presets| - i
  {
    if i < |presets| {
      if UpToDate(st, presets[i]) {
        BootExtends(presets, i + 1, st, budget);
      } else if budget >= 1 {
        CreateOnlyExtends(st.rows, presets[i].objectType, presets[i].records);
        if budget >= 2 {
          BootExtends(presets, i + 1, Marked(Imported(st, presets[i], false), presets[i]), budget - 2);
        }
      }
    }
  }

  /** Any number of boots, crashed or not, leave every row that was there as it was. */
  lemma {:induction false} BootsNeverOverwrite(presets: seq<Preset>, st: Store, runs: seq<Boot>)
    requires forall r | r in runs :: !r.reconcile
    ensures Extends(st.rows, Boots(presets, st, runs).rows)
    decreases |runs|
  {
    if runs != [] {
      assert !runs[0].reconcile;
      BootExtends(presets, 0, st, runs[0].budget);
      BootsNeverOverwrite(presets, SeedFrom(presets, 0, st, false, runs[0].budget).store, runs[1..]);
    }
  }

  function FullBoot(presets: seq<Preset>, i: nat, st: Store): Store {
    SeedFrom(presets, i, st, false, 2 * |presets|).store
  }

  /** A boot that completes does not depend on how much budget it had to spare. */
  lemma {:induction false} SpareBudget(presets: seq<Preset>, i: nat, st: Store, a: nat, b: nat)
    requires i <= |presets| && a >= 2 * (|presets| - i) && b >= 2 * (|presets| - i)
    ensures SeedFrom(presets, i, st, false, a) == SeedFrom(presets, i, st, false, b)
    decreases |presets| - i
  {
    if i < |presets| {
      if UpToDate(st, presets[i]) {
        SpareBudget(presets, i + 1, st, a, b);
      } else {
        SpareBudget(presets, i + 1, Marked(Imported(st, presets[i], false), presets[i]), a - 2, b - 2);
      }
    }
  }

  lemma {:induction false} RunKeepsEarlierMarks(presets: seq<Preset>, i: nat, st: Store, budget: nat, j: nat)
    requires NoRepeats(NamesOf(presets)) && j < i && j < |presets| && UpToDate(st, presets[j])
    ensures UpToDate(SeedFrom(presets, i, st, false, budget).store, presets[j])
    decreases |presets| - i
  {
    if i < |presets| {
      if UpToDate(st, presets[i]) {
        RunKeepsEarlierMarks(presets, i + 1, st, budget, j);
      } else if budget >= 2 {
        MarkingOthers(presets, i, j, Imported(st, presets[i], false));
        RunKeepsEarlierMarks(presets, i + 1, Marked(Imported(st, presets[i], false), presets[i]), budget - 2, j);
      }
    }
  }

  lemma FullBootStep(presets: seq<Preset>, i: nat, st: Store)
    requires i < |presets|
    ensures FullBoot(presets, i, st) ==
      FullBoot(presets, i + 1,
        if UpToDate(st, presets[i]) then st else Marked(Imported(st, presets[i], false), presets[i]))
  {
    if !UpToDate(st, presets[i]) {
      var st2 := Marked(Imported(st, presets[i], false), presets[i]);
      SpareBudget(presets, i + 1, st2, 2 * |presets| - 2, 2 * |presets|);
    }
  }

  /** Booting fully after a crashed boot gives what one uninterrupted boot would have. */
  lemma {:induction false} CrashedBootResumes(presets: seq<Preset>, i: nat, st: Store, budget: nat)
    requires NoRepeats(NamesOf(presets)) && i <= |presets|
    ensures FullBoot(presets, i, SeedFrom(presets, i, st, false, budget).store) == FullBoot(presets, i, st)
    decreases |presets| - i
  {
    if i < |presets| {
      var p := presets[i];
      var t := SeedFrom(presets, i, st, false, budget).store;
      FullBootStep(presets, i, st);
      FullBootStep(presets, i, t);
      if UpToDate(st, p) {
        RunKeepsEarlierMarks(presets, i + 1, st, budget, i);
        CrashedBootResumes(presets, i + 1, st, budget);
      } else if budget == 1 {
        ImportIdempotent(st.rows, p.objectType, p.records);
      } else if budget >= 2 {
        var st2 := Marked(Imported(st, p, false), p);
        RunKeepsEarlierMarks(presets, i + 1, st2, budget - 2, i);
        CrashedBootResumes(presets, i + 1, st2, budget - 2);
      }
    }
  }

  /** Any sequence of crashed boots followed by a full one reaches the store of a single full boot. */
  lemma {:induction false} BootsConverge(presets: seq<Preset>, st: Store, runs: seq<Boot>)
    requires NoRepeats(NamesOf(presets)) && forall r | r in runs :: !r.reconcile
    ensures FullBoot(presets, 0, Boots(presets, st, runs)) == FullBoot(presets, 0, st)
    decreases |runs|
  {
    if runs != [] {
      assert !runs[0].reconcile;
      CrashedBootResumes(presets, 0, st, runs[0].budget);
      BootsConverge(presets, SeedFrom(presets, 0, st, false, runs[0].budget).store, runs[1..]);
    }
  }

  // ------------------------------------------------------------------ the seeder as it runs

  class Seeder {
    const presets: seq<Preset>
    var rows: map<Key, string>
    var marks: map<string, string>

    constructor (presets: seq<Preset>, rows: map<Key, string>, marks: map<string, string>)
      ensures this.presets == presets && this.rows == rows && this.marks == marks
    {
      this.presets, this.rows, this.marks := presets, rows, marks;
    }

    method ImportRecords(objectType: string, records: seq<Record>, reconcile: bool) returns (sum: Summary)
      modifies this`rows
      ensures rows == Import(old(rows), objectType, records, reconcile)
      ensures sum == Tally(old(rows), objectType, records, reconcile)
    {
      ghost var before := rows;
      var tx := rows;
      sum := Summary(0, 0, 0);
      for i := 0 to |records|
        invariant tx == Import(before, objectType, records[..i], reconcile)
        invariant sum == Tally(before, objectType, records[..i], reconcile)
      {
        assert records[..i + 1][..i] == records[..i];
        var key := (objectType, records[i].key);
        OneEntry(tx, key, records[i].value);
        if key !in tx {
          tx := tx[key := records[i].value];
          sum := sum.(created := sum.created + 1);
        } else if reconcile && tx[key] != records[i].value {
          tx := tx[key := records[i].value];
          sum := sum.(updated := sum.updated + 1);
        } else {
          sum := sum.(skipped := sum.skipped + 1);
        }
      }
      assert records[..|records|] == records;
      rows := tx;
    }

    /** One run; on completion `ran` holds the summary of each preset it imported, and otherwise nothing is reported. */
    method Seed(reconcile: bool, budget: nat) returns (completed: bool, ran: map<string, Summary>)
      modifies this
      ensures Store(rows, marks) == SeedFrom(presets, 0, Store(old(rows), old(marks)), reconcile, budget).store
      ensures var run := SeedFrom(presets, 0, Store(old(rows), old(marks)), reconcile, budget);
        completed == run.completed && ran == if completed then Report(presets, map[], run.events) else map[]
    {
      ghost var goal := SeedFrom(presets, 0, Store(rows, marks), reconcile, budget);
      var left := budget;
      ran := map[];
      var i := 0;
      while i < |presets|
        invariant i <= |presets|
        invariant StillTo(presets, goal, ran, SeedFrom(presets, i, Store(rows, marks), reconcile, left))
      {
        var p := presets[i];
        if !reconcile && p.name in marks && marks[p.name] == p.sourceVersion {
          i := i + 1;
          continue;
        }
        if left == 0 {
          return false, map[];
        }
        ghost var before := Store(rows, marks);
        var sum := ImportRecords(p.objectType, p.records, reconcile);
        if left == 1 {
          return false, map[];
        }
        marks := marks[p.name := p.sourceVersion];
        ImportStep(presets, goal, ran, i, before, reconcile, left);
        ran := ran[p.name := sum];
        left := left - 2;
        i := i + 1;
      }
      return true, ran;
    }
  }

  /** What is left of the run, added to what was reported so far, is the whole run. */
  ghost predicate StillTo(presets: seq<Preset>, goal: Ran, ran: map<string, Summary>, rest: Ran) {
    && rest.store == goal.store && rest.completed == goal.completed
    && Report(presets, ran, rest.events) == Report(presets, map[], goal.events)
  }

  lemma ImportStep(presets: seq<Preset>, goal: Ran, ran: map<string, Summary>, i: nat, st: Store, reconcile: bool,
                   left: nat)
    requires i < |presets| && left >= 2 && (reconcile || !UpToDate(st, presets[i]))
    requires StillTo(presets, goal, ran, SeedFrom(presets, i, st, reconcile, left))
    ensures
      var p := presets[i];
      StillTo(presets, goal, ran[p.name := Tally(st.rows, p.objectType, p.records, reconcile)],
              SeedFrom(presets, i + 1, Marked(Imported(st, p, reconcile), p), reconcile, left - 2))
  {
  }

  /** The report names exactly the presets imported, each with what its own import counted. */
  lemma {:induction false} ReportTells(presets: seq<Preset>, base: map<string, Summary>, events: seq<Event>)
    requires NoRepeats(NamesOf(presets))
    requires Ascending(events, 0, |presets|)
    ensures forall n :: n in Report(presets, base, events) <==>
      n in base || exists e :: e in events && presets[e.index].name == n
    ensures forall e | e in events :: Report(presets, base, events)[presets[e.index].name] == e.summary
    ensures forall n | n in base && (forall e | e in events :: presets[e.index].name != n) ::
      Report(presets, base, events)[n] == base[n]
    decreases |events|
  {
    if events != [] {
      var first, rest := events[0], events[1..];
      ReportTells(presets, base[presets[first.index].name := first.summary], rest);
      forall e | e in rest ensures presets[e.index].name != presets[first.index].name {
        assert NamesOf(presets)[e.index] != NamesOf(presets)[first.index];
      }
    }
  }

  /** Imports from index `lo` on, in order, each once. */
  ghost predicate Ascending(events: seq<Event>, lo: nat, hi: nat) {
    && (forall e | e in events :: lo <= e.index < hi)
    && (forall a, b | 0 <= a < b < |events| :: events[a].index < events[b].index)
  }

  lemma AscendingCons(first: Event, rest: seq<Event>, lo: nat, hi: nat)
    requires first.index == lo < hi && Ascending(rest, lo + 1, hi)
    ensures Ascending([first] + rest, lo, hi)
  {
  }

  lemma {:induction false} EventsAscend(presets: seq<Preset>, i: nat, st: Store, reconcile: bool, budget: nat)
    requires i <= |presets|
    ensures Ascending(SeedFrom(presets, i, st, reconcile, budget).events, i, |presets|)
    decreases |presets| - i
  {
    if i < |presets| {
      var p := presets[i];
      var event := Event(i, st.marks, Tally(st.rows, p.objectType, p.records, reconcile));
      if !reconcile && UpToDate(st, p) {
        EventsAscend(presets, i + 1, st, reconcile, budget);
      } else if budget >= 2 {
        var st2 := Marked(Imported(st, p, reconcile), p);
        EventsAscend(presets, i + 1, st2, reconcile, budget - 2);
        AscendingCons(event, SeedFrom(presets, i + 1, st2, reconcile, budget - 2).events, i, |presets|);
      }
    }
  }

  /** So one run reports, for each preset it imported and for no other, what that import created and changed. */
  lemma RunReports(presets: seq<Preset>, st: Store, reconcile: bool, budget: nat)
    requires NoRepeats(NamesOf(presets))
    ensures
      var es := SeedFrom(presets, 0, st, reconcile, budget).events;
      var report := Report(presets, map[], es);
      && (forall e | e in es :: e.index < |presets|)
      && (forall n :: n in report <==> exists e :: e in es && presets[e.index].name == n)
      && (forall e | e in es :: report[presets[e.index].name] == e.summary)
  {
    EventsAscend(presets, 0, st, reconcile, budget);
    ReportTells(presets, map[], SeedFrom(presets, 0, st, reconcile, budget).events);
  }
}
