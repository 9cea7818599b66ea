/** What the rewrap and reindex passes promise, whichever way a run of them ends. */
module RotationLaws {
  import opened Wrappers
  import opened Envelope
  import opened Octets
  import opened Rotation
  import opened RotationStops

  /** A provider that has dropped every key but the active one. */
  function ActiveOnly(p: Provider): Provider {
    Provider(p.active, [p.active], p.keyRef)
  }

  // ------------------------------------------------------------------ one rewrap run

  ghost predicate SameSecrets(p: Provider, before: Rows, after: Rows) {
    && after.Keys == before.Keys
    && forall id | id in before ::
         && after[id].ciphertext == before[id].ciphertext && after[id].blind == before[id].blind
         && Plaintext(p, after[id]) == Plaintext(p, before[id])
  }

  /**
   However far a rewrap got, no ciphertext, blind index or row set changed, every row reads as it did,
   and each row it reached is under the active key and key_ref.
   */
  lemma RewrapKeepsSecrets(p: Provider, refused: set<Id>, nonces: Id -> nat,
      start: Rows, now: Rows, todo: seq<Id>, k: nat)
    requires p.Valid() && OrderOf(todo, Stale(start, p.keyRef))
    requires Progress(start, RewrapTarget(p, nonces, start), RewrappableIds(p, start, refused), now, todo, k)
    ensures SameSecrets(p, start, now)
    ensures forall id | id in todo[..k] ::
      && id in now && now[id].keyRef == Some(p.keyRef)
      && now[id].wrapped.Some? && now[id].wrapped.value.Box? && now[id].wrapped.value.key == p.active
      && Plaintext(ActiveOnly(p), now[id]) == Plaintext(p, start[id])
  {
    assert p.active in p.keks;
    forall id | id in todo[..k] ensures id in RewrappableIds(p, start, refused) {}
  }

  /** Every stale DEK can be unwrapped and every stale row written. */
  ghost predicate Drainable(p: Provider, refused: set<Id>, rows: Rows) {
    forall id | id in Stale(rows, p.keyRef) :: Rewrappable(p, rows[id]) && id !in refused
  }

  /** An uninterrupted rewrap ends normally exactly when the table can be drained, and leaves none stale. */
  lemma RewrapDoneIff(p: Provider, refused: set<Id>, nonces: Id -> nat,
      start: Rows, now: Rows, todo: seq<Id>, batch: nat, budget: nat,
      total: nat, outcome: Outcome)
    requires OrderOf(todo, Stale(start, p.keyRef)) && !outcome.Interrupted?
    requires Progress(start, RewrapTarget(p, nonces, start), RewrappableIds(p, start, refused), now, todo, total)
    requires Ending(RewrappableIds(p, start, refused), todo, batch, budget, total, outcome)
    ensures outcome.Done? <==> Drainable(p, refused, start)
    ensures outcome.Done? ==> total == |Stale(start, p.keyRef)| && Stale(now, p.keyRef) == {}
  {
    var rest := todo[total..];
    StillStale(p, refused, nonces, start, now, todo, total);
    OrderIs(todo, Stale(start, p.keyRef));
    InOrderIs(Stale(start, p.keyRef));
    if outcome.Done? {
      assert todo[..total] == todo;
      forall id | id in Stale(start, p.keyRef) ensures Rewrappable(p, start[id]) && id !in refused {
        assert id in todo[..total] && id in RewrappableIds(p, start, refused);
      }
      assert |rest| == 0;
    } else {
      var i: nat :| i < total + batch && FirstBad(RewrappableIds(p, start, refused), todo, total, outcome.id, i);
      assert todo[i] in Stale(start, p.keyRef);
    }
  }

  /** Once a rewrap has ended normally, another one rewrites nothing. */
  lemma RewrapAgainIsNothing(p: Provider, refused: set<Id>, nonces: Id -> nat,
      now: Rows, later: Rows, todo: seq<Id>, total: nat)
    requires Stale(now, p.keyRef) == {} && OrderOf(todo, Stale(now, p.keyRef))
    requires Progress(now, RewrapTarget(p, nonces, now), RewrappableIds(p, now, refused), later, todo, total)
    ensures total == 0 && later == now
  {
    IncreasingUnique(todo, []);
  }

  // ------------------------------------------------------------------ any sequence of killed runs

  /** `now` is what one run, killed or not, may leave of `start`. */
  ghost predicate SomeRun(p: Provider, start: Rows, now: Rows) {
    exists nonces: Id -> nat, refused: set<Id>, todo: seq<Id>, k: nat ::
      && OrderOf(todo, Stale(start, p.keyRef))
      && Progress(start, RewrapTarget(p, nonces, start), RewrappableIds(p, start, refused), now, todo, k)
  }

  /** A row moved to the active key: same DEK, same everything else; only the nonce is not determined. */
  ghost predicate Moved(p: Provider, before: Row, after: Row) {
    && before.wrapped.Some? && Unwrapped(p, before.wrapped.value).Some?
    && after.wrapped.Some? && after.wrapped.value.Box?
    && after.wrapped.value.key == p.active
    && Some(after.wrapped.value.plain) == Unwrapped(p, before.wrapped.value)
    && after == before.(wrapped := after.wrapped, keyRef := Some(p.keyRef))
  }

  ghost predicate PartlyMoved(p: Provider, start: Rows, now: Rows) {
    && now.Keys == start.Keys
    && forall id | id in start ::
         now[id] == start[id] || (IsStale(start[id], p.keyRef) && Moved(p, start[id], now[id]))
  }

  lemma RunPartlyMoves(p: Provider, start: Rows, now: Rows)
    requires SomeRun(p, start, now)
    ensures PartlyMoved(p, start, now)
  {
    var nonces: Id -> nat, refused: set<Id>, todo: seq<Id>, k: nat :|
      && OrderOf(todo, Stale(start, p.keyRef))
      && Progress(start, RewrapTarget(p, nonces, start), RewrappableIds(p, start, refused), now, todo, k);
    forall id | id in start && id in todo[..k]
      ensures IsStale(start[id], p.keyRef) && Moved(p, start[id], now[id])
    {
      assert id in todo && id in Stale(start, p.keyRef) && id in RewrappableIds(p, start, refused);
    }
  }

  /**
   Resumability: any sequence of runs, each killed wherever it was, followed by one that left nothing
   stale, reaches the table a single complete run reaches: exactly the initially stale rows moved, each
   to the active key with its own DEK.
   */
  lemma {:induction false} KilledRunsConverge(p: Provider, tables: seq<Rows>)
    requires |tables| > 0
    requires forall i | 0 <= i < |tables| - 1 :: SomeRun(p, tables[i], tables[i + 1])
    ensures PartlyMoved(p, tables[0], tables[|tables| - 1])
    ensures Stale(tables[|tables| - 1], p.keyRef) == {} ==>
      forall id | id in tables[0] ::
        if IsStale(tables[0][id], p.keyRef) then Moved(p, tables[0][id], tables[|tables| - 1][id])
        else tables[|tables| - 1][id] == tables[0][id]
  {
    var start, last := tables[0], tables[|tables| - 1];
    if |tables| > 1 {
      var before := tables[|tables| - 2];
      KilledRunsConverge(p, tables[..|tables| - 1]);
      assert tables[..|tables| - 1][|tables| - 2] == before;
      assert SomeRun(p, tables[|tables| - 2], tables[|tables| - 2 + 1]);
      RunPartlyMoves(p, before, last);
    }
    forall id | id in start && IsStale(last[id], p.keyRef) ensures id in Stale(last, p.keyRef) {}
  }

  // ------------------------------------------------------------------ reindex

  /** However far a reindex got, nothing but blind indexes changed, and those it reached index their plaintext. */
  lemma ReindexOnlyIndexes(p: Provider, refused: set<Id>, index: Bytes -> Bytes,
      start: Rows, now: Rows, todo: seq<Id>, k: nat)
    requires OrderOf(todo, Eligible(start, 0))
    requires Progress(start, ReindexTarget(p, index, start), ReadableIds(p, start, refused), now, todo, k)
    ensures now.Keys == start.Keys
    ensures forall id | id in start :: now[id] == start[id].(blind := now[id].blind)
    ensures forall id | id in start && id !in todo[..k] :: now[id] == start[id]
    ensures forall id | id in todo[..k] ::
      && id in now && Plaintext(p, start[id]).Some? && Plaintext(p, now[id]) == Plaintext(p, start[id])
      && now[id].blind == Some(index(Plaintext(p, start[id]).value))
  {
  }

  /** Every row the reindex selects opens and can be written. */
  ghost predicate Indexable(p: Provider, refused: set<Id>, rows: Rows) {
    forall id | id in Eligible(rows, 0) :: Plaintext(p, rows[id]).Some? && id !in refused
  }

  /**
   A reindex that ends normally leaves every row it could select under the new index of its own plaintext,
   and changes nothing else; it ends normally exactly when all of them open and can be written.
   */
  lemma ReindexDoneIff(p: Provider, refused: set<Id>, index: Bytes -> Bytes,
      start: Rows, now: Rows, todo: seq<Id>, batch: nat,
      budget: nat, total: nat, outcome: Outcome)
    requires OrderOf(todo, Eligible(start, 0)) && !outcome.Interrupted?
    requires Progress(start, ReindexTarget(p, index, start), ReadableIds(p, start, refused), now, todo, total)
    requires Ending(ReadableIds(p, start, refused), todo, batch, budget, total, outcome)
    ensures outcome.Done? <==> Indexable(p, refused, start)
    ensures now.Keys == start.Keys
    ensures forall id | id in start :: now[id] == start[id].(blind := now[id].blind)
    ensures forall id | id in start && id !in Eligible(start, 0) :: now[id] == start[id]
    ensures outcome.Done? ==> total == |Eligible(start, 0)| && forall id | id in Eligible(start, 0) ::
      Plaintext(p, now[id]).Some? && now[id].blind == Some(index(Plaintext(p, now[id]).value))
  {
    OrderIs(todo, Eligible(start, 0));
    InOrderIs(Eligible(start, 0));
    ReindexOnlyIndexes(p, refused, index, start, now, todo, total);
    if outcome.Done? {
      assert todo[..total] == todo;
    } else {
      var i: nat :| i < total + batch && FirstBad(ReadableIds(p, start, refused), todo, total, outcome.id, i);
      assert todo[i] in Eligible(start, 0);
    }
  }

  /** Short of their blind indexes, the rows of an interrupted reindex are those it started from. */
  lemma PartlyIndexed(p: Provider, refused: set<Id>, index: Bytes -> Bytes,
      start: Rows, partial: Rows, todo: seq<Id>, k: nat)
    requires Progress(start, ReindexTarget(p, index, start), ReadableIds(p, start, refused), partial, todo, k)
    ensures partial.Keys == start.Keys && Eligible(partial, 0) == Eligible(start, 0)
    ensures forall id | id in start ::
      && Plaintext(p, partial[id]) == Plaintext(p, start[id])
      && partial[id].(blind := None) == start[id].(blind := None)
      && (Plaintext(p, start[id]).None? ==> partial[id] == start[id])
  {
  }

  /** Reindexing with the same key again, from wherever an earlier run stopped, ends in the same table. */
  lemma ReindexIdempotent(p: Provider, refused: set<Id>, later: set<Id>, index: Bytes -> Bytes,
      start: Rows, partial: Rows, now: Rows, todo: seq<Id>, k: nat)
    requires OrderOf(todo, Eligible(start, 0))
    requires Progress(start, ReindexTarget(p, index, start), ReadableIds(p, start, refused), partial, todo, k)
    requires Progress(partial, ReindexTarget(p, index, partial), ReadableIds(p, partial, later), now, todo, |todo|)
    ensures OrderOf(todo, Eligible(partial, 0))
    ensures Progress(start, ReindexTarget(p, index, start), ReadableIds(p, start, later), now, todo, |todo|)
  {
    PartlyIndexed(p, refused, index, start, partial, todo, k);
    forall id | id in start ensures ReindexTarget(p, index, partial)[id] ==
      if Plaintext(p, start[id]).Some? then ReindexTarget(p, index, start)[id] else partial[id] {}
  }

  /** The initial cursor is the nil UUID, so a row with that id is the one eligible row never visited. */
  lemma NilIdIsSkipped(p: Provider, refused: set<Id>, index: Bytes -> Bytes,
      start: Rows, now: Rows, todo: seq<Id>, k: nat)
    requires OrderOf(todo, Eligible(start, 0))
    requires Progress(start, ReindexTarget(p, index, start), ReadableIds(p, start, refused), now, todo, k)
    ensures 0 in start ==> now[0] == start[0]
    ensures forall id | id in start && start[id].ciphertext.Some? && start[id].wrapped.Some? && id !in todo :: id == 0
  {
    assert 0 !in Eligible(start, 0);
  }

  // ------------------------------------------------------------------ the two passes as the operator runs them

  lemma EnoughBatches(len: nat, batch: nat, budget: nat)
    requires batch >= 1 && budget > len
    ensures Taken(len, batch, budget) < budget
  {
  }

  /** Exactly the first `total` stale rows in id order are under the active key, each with its own DEK. */
  ghost predicate RewroteFirst(p: Provider, before: Rows, after: Rows, total: nat) {
    && after.Keys == before.Keys
    && forall id | id in before ::
         if IsStale(before[id], p.keyRef) && Rank(Stale(before, p.keyRef), id) < total
         then Moved(p, before[id], after[id]) else after[id] == before[id]
  }

  lemma ProgressRewrote(p: Provider, refused: set<Id>, nonces: Id -> nat, start: Rows, now: Rows, todo: seq<Id>, k: nat)
    requires OrderOf(todo, Stale(start, p.keyRef))
    requires Progress(start, RewrapTarget(p, nonces, start), RewrappableIds(p, start, refused), now, todo, k)
    ensures RewroteFirst(p, start, now, k)
  {
    FirstAreLowest(todo, Stale(start, p.keyRef), k);
    forall id | id in todo[..k] ensures id in RewrappableIds(p, start, refused) {}
  }

  /**
   One table rewrapped by a process that is not cut short, whatever the batch flag: it always ends by itself;
   it ends normally exactly when the table can be drained, having then rewritten exactly the stale rows and
   left none; and either way no plaintext, ciphertext or blind index has changed.
   */
  method RunRewrap(table: EncTable, cipher: Cipher, refused: set<Id>, nonces: Id -> nat, flag: int)
    returns (total: nat, outcome: Outcome)
    requires cipher.Valid()
    modifies table
    ensures !outcome.Interrupted?
    ensures outcome.Done? <==> Drainable(cipher.provider, refused, old(table.rows))
    ensures outcome.Done? ==>
      total == |Stale(old(table.rows), cipher.provider.keyRef)| && Stale(table.rows, cipher.provider.keyRef) == {}
    ensures outcome.Failed? ==>
      StoppedAt(Stale(old(table.rows), cipher.provider.keyRef),
                RewrappableIds(cipher.provider, old(table.rows), refused), flag, total, outcome.id)
    ensures RewroteFirst(cipher.provider, old(table.rows), table.rows, total)
    ensures SomeRun(cipher.provider, old(table.rows), table.rows)
    ensures SameSecrets(cipher.provider, old(table.rows), table.rows)
  {
    ghost var p, start := cipher.provider, table.rows;
    ghost var todo := InOrder(Stale(start, p.keyRef));
    InOrderIs(Stale(start, p.keyRef));
    var batch, budget := RowsPerBatch(flag), |Stale(table.rows, cipher.provider.keyRef)| + 1;
    total, outcome := table.RewrapTable(cipher, refused, nonces, cipher.provider.keyRef, batch, budget, todo);
    EnoughBatches(|todo|, batch, budget);
    RewrapKeepsSecrets(p, refused, nonces, start, table.rows, todo, total);
    ProgressRewrote(p, refused, nonces, start, table.rows, todo, total);
    if outcome.Failed? {
      StopsAtBatch(RewrappableIds(p, start, refused), todo, Stale(start, p.keyRef), flag, budget, total, outcome.id);
    }
    RewrapDoneIff(p, refused, nonces, start, table.rows, todo, batch, budget, total, outcome);
  }

  /** The table could be drained and was, `total` rows being rewritten. */
  ghost predicate DrainedTo(p: Provider, refused: set<Id>, before: Rows, after: Rows, total: nat) {
    Drainable(p, refused, before) && total == |Stale(before, p.keyRef)| && Stale(after, p.keyRef) == {}
  }

  ghost predicate DistinctTables(tables: seq<EncTable>) {
    forall i, j | 0 <= i < j < |tables| :: tables[i] != tables[j]
  }

  ghost function Contents(tables: seq<EncTable>): seq<Rows>
    reads tables
  {
    seq(|tables|, i requires 0 <= i < |tables| reads tables => tables[i].rows)
  }

  /** As many tables as there are totals were drained; those from `reached` on are untouched; no secret changed. */
  ghost predicate RewrappedTo(p: Provider, refused: nat -> set<Id>, before: seq<Rows>, after: seq<Rows>,
                              totals: seq<nat>, reached: nat) {
    && |before| == |after| && |totals| <= |before|
    && (forall t: nat | t < |totals| :: DrainedTo(p, refused(t), before[t], after[t], totals[t]))
    && (forall t: nat | reached <= t < |before| :: after[t] == before[t])
    && forall t: nat | t < |before| :: SameSecrets(p, before[t], after[t])
  }

  lemma RewrapNext(p: Provider, refused: nat -> set<Id>, before: seq<Rows>, after: seq<Rows>, totals: seq<nat>,
      rows: Rows, total: nat)
    requires RewrappedTo(p, refused, before, after, totals, |totals|) && |totals| < |before|
    requires SameSecrets(p, after[|totals|], rows)
    ensures RewrappedTo(p, refused, before, after[|totals| := rows], totals, |totals| + 1)
    ensures DrainedTo(p, refused(|totals|), after[|totals|], rows, total) ==>
      RewrappedTo(p, refused, before, after[|totals| := rows], totals + [total], |totals| + 1)
    ensures before[|totals|] == after[|totals|]
  {
  }

  /** The table stopped the rewrap at this row, its first whole batches done and nothing else changed. */
  ghost predicate RewrapStopped(p: Provider, refused: set<Id>, flag: int, before: Rows, after: Rows, failed: Id) {
    exists total: nat ::
      && StoppedAt(Stale(before, p.keyRef), RewrappableIds(p, before, refused), flag, total, failed)
      && RewroteFirst(p, before, after, total)
  }

  /** One of several tables. */
  method RewrapNth(tables: seq<EncTable>, t: nat, cipher: Cipher, refused: set<Id>, nonces: Id -> nat, flag: int)
    returns (total: nat, failed: Option<Id>)
    requires cipher.Valid() && DistinctTables(tables) && t < |tables|
    modifies tables[t]
    ensures Contents(tables) == old(Contents(tables))[t := Contents(tables)[t]]
    ensures SameSecrets(cipher.provider, old(Contents(tables))[t], Contents(tables)[t])
    ensures failed.None? ==> DrainedTo(cipher.provider, refused, old(Contents(tables))[t], Contents(tables)[t], total)
    ensures failed.Some? ==> !Drainable(cipher.provider, refused, old(Contents(tables))[t])
    ensures failed.Some? ==>
      RewrapStopped(cipher.provider, refused, flag, old(Contents(tables))[t], Contents(tables)[t], failed.value)
  {
    var outcome;
    assert Contents(tables)[t] == tables[t].rows;
    total, outcome := RunRewrap(tables[t], cipher, refused, nonces, flag);
    assert Contents(tables)[t] == tables[t].rows;
    failed := if outcome.Failed? then Some(outcome.id) else None;
  }

  /**
   Every table in turn, up to the first that fails: the tables before it are drained and counted, those
   after it untouched, and no table's secrets change. All succeed exactly when all can be drained.
   */
  method RewrapAll(tables: seq<EncTable>, cipher: Cipher, refused: nat -> set<Id>, nonces: nat -> Id -> nat, flag: int)
    returns (totals: seq<nat>, failed: Option<Id>)
    requires cipher.Valid() && DistinctTables(tables)
    modifies tables
    ensures RewrappedTo(cipher.provider, refused, old(Contents(tables)), Contents(tables), totals,
                        |totals| + if failed.Some? then 1 else 0)
    ensures failed.None? <==> |totals| == |tables|
    ensures failed.Some? ==> !Drainable(cipher.provider, refused(|totals|), old(Contents(tables))[|totals|])
    ensures failed.Some? ==>
      RewrapStopped(cipher.provider, refused(|totals|), flag, old(Contents(tables))[|totals|],
                    Contents(tables)[|totals|], failed.value)
  {
    totals := [];
    while |totals| < |tables|
      invariant RewrappedTo(cipher.provider, refused, old(Contents(tables)), Contents(tables), totals, |totals|)
      decreases |tables| - |totals|
    {
      var t := |totals|;
      ghost var now := Contents(tables);
      var total, stopped := RewrapNth(tables, t, cipher, refused(t), nonces(t), flag);
      RewrapNext(cipher.provider, refused, old(Contents(tables)), now, totals, Contents(tables)[t], total);
      if stopped.Some? {
        return totals, stopped;
      }
      totals := totals + [total];
    }
    return totals, None;
  }

  /** What a reindex leaves of a table, whether or not it ended normally. */
  ghost predicate OnlyIndexed(before: Rows, after: Rows) {
    && after.Keys == before.Keys
    && (forall id | id in before :: after[id] == before[id].(blind := after[id].blind))
    && forall id | id in before && id !in Eligible(before, 0) :: after[id] == before[id]
  }

  ghost predicate AllIndexed(p: Provider, index: Bytes -> Bytes, before: Rows, after: Rows) {
    forall id | id in Eligible(before, 0) ::
      id in after && Plaintext(p, after[id]).Some? && after[id].blind == Some(index(Plaintext(p, after[id]).value))
  }

  /** Exactly the first `total` eligible rows in id order have the index of their plaintext; nothing else changed. */
  ghost predicate IndexedFirst(p: Provider, index: Bytes -> Bytes, before: Rows, after: Rows, total: nat) {
    && after.Keys == before.Keys
    && forall id | id in before ::
         if id in Eligible(before, 0) && Rank(Eligible(before, 0), id) < total
         then Plaintext(p, before[id]).Some?
           && after[id] == before[id].(blind := Some(index(Plaintext(p, before[id]).value)))
         else after[id] == before[id]
  }

  lemma ProgressIndexed(p: Provider, refused: set<Id>, index: Bytes -> Bytes,
      start: Rows, now: Rows, todo: seq<Id>, k: nat)
    requires OrderOf(todo, Eligible(start, 0))
    requires Progress(start, ReindexTarget(p, index, start), ReadableIds(p, start, refused), now, todo, k)
    ensures IndexedFirst(p, index, start, now, k)
  {
    FirstAreLowest(todo, Eligible(start, 0), k);
    forall id | id in todo[..k] ensures id in ReadableIds(p, start, refused) {}
  }

  /** One table reindexed by a process that is not cut short: every eligible row opened and indexed, or an error. */
  method RunReindex(table: EncTable, cipher: Cipher, refused: set<Id>, flag: int, clock: int)
    returns (total: nat, outcome: Outcome)
    requires cipher.Valid()
    modifies table, cipher.cache
    ensures cipher.Valid() && !outcome.Interrupted?
    ensures outcome.Done? <==> Indexable(cipher.provider, refused, old(table.rows))
    ensures OnlyIndexed(old(table.rows), table.rows)
    ensures outcome.Done? ==> total == |Eligible(old(table.rows), 0)|
    ensures outcome.Failed? ==>
      StoppedAt(Eligible(old(table.rows), 0), ReadableIds(cipher.provider, old(table.rows), refused),
                flag, total, outcome.id)
    ensures IndexedFirst(cipher.provider, cipher.index, old(table.rows), table.rows, total)
    ensures outcome.Done? ==> AllIndexed(cipher.provider, cipher.index, old(table.rows), table.rows)
  {
    ghost var start := table.rows;
    ghost var todo := InOrder(Eligible(start, 0));
    InOrderIs(Eligible(start, 0));
    var batch, budget := RowsPerBatch(flag), |Eligible(table.rows, 0)| + 1;
    total, outcome := table.ReindexTable(cipher, refused, batch, budget, clock, todo);
    EnoughBatches(|todo|, batch, budget);
    ProgressIndexed(cipher.provider, refused, cipher.index, start, table.rows, todo, total);
    if outcome.Failed? {
      StopsAtBatch(ReadableIds(cipher.provider, start, refused), todo, Eligible(start, 0), flag, budget, total,
                   outcome.id);
    }
    ReindexDoneIff(cipher.provider, refused, cipher.index, start, table.rows, todo, batch, budget, total, outcome);
  }

  /** The table could be indexed and was, `total` rows being visited. */
  ghost predicate IndexedTo(p: Provider, index: Bytes -> Bytes, refused: set<Id>, before: Rows, after: Rows,
                            total: nat) {
    Indexable(p, refused, before) && total == |Eligible(before, 0)| && AllIndexed(p, index, before, after)
  }

  /** As many tables as there are totals were indexed; those from `reached` on are untouched. */
  ghost predicate ReindexedTo(p: Provider, index: Bytes -> Bytes, refused: nat -> set<Id>, before: seq<Rows>,
                              after: seq<Rows>, totals: seq<nat>, reached: nat) {
    && |before| == |after| && |totals| <= |before|
    && (forall t: nat | t < |totals| :: IndexedTo(p, index, refused(t), before[t], after[t], totals[t]))
    && (forall t: nat | reached <= t < |before| :: after[t] == before[t])
    && forall t: nat | t < |before| :: OnlyIndexed(before[t], after[t])
  }

  lemma ReindexNext(p: Provider, index: Bytes -> Bytes, refused: nat -> set<Id>, before: seq<Rows>, after: seq<Rows>,
      totals: seq<nat>, rows: Rows, total: nat)
    requires ReindexedTo(p, index, refused, before, after, totals, |totals|) && |totals| < |before|
    requires OnlyIndexed(after[|totals|], rows)
    ensures ReindexedTo(p, index, refused, before, after[|totals| := rows], totals, |totals| + 1)
    ensures IndexedTo(p, index, refused(|totals|), after[|totals|], rows, total) ==>
      ReindexedTo(p, index, refused, before, after[|totals| := rows], totals + [total], |totals| + 1)
    ensures before[|totals|] == after[|totals|]
  {
  }

  /** The table stopped the reindex at this row, its first whole batches done and nothing else changed. */
  ghost predicate ReindexStopped(p: Provider, index: Bytes -> Bytes, refused: set<Id>, flag: int, before: Rows,
                                 after: Rows, failed: Id) {
    exists total: nat ::
      && StoppedAt(Eligible(before, 0), ReadableIds(p, before, refused), flag, total, failed)
      && IndexedFirst(p, index, before, after, total)
  }

  /** One of several tables. */
  method ReindexNth(tables: seq<EncTable>, t: nat, cipher: Cipher, refused: set<Id>, flag: int, clock: int)
    returns (total: nat, failed: Option<Id>)
    requires cipher.Valid() && DistinctTables(tables) && t < |tables|
    modifies tables[t], cipher.cache
    ensures cipher.Valid() && Contents(tables) == old(Contents(tables))[t := Contents(tables)[t]]
    ensures OnlyIndexed(old(Contents(tables))[t], Contents(tables)[t])
    ensures failed.None? ==>
      IndexedTo(cipher.provider, cipher.index, refused, old(Contents(tables))[t], Contents(tables)[t], total)
    ensures failed.Some? ==> !Indexable(cipher.provider, refused, old(Contents(tables))[t])
    ensures failed.Some? ==>
      ReindexStopped(cipher.provider, cipher.index, refused, flag, old(Contents(tables))[t], Contents(tables)[t],
                     failed.value)
  {
    var outcome;
    assert Contents(tables)[t] == tables[t].rows;
    total, outcome := RunReindex(tables[t], cipher, refused, flag, clock);
    assert Contents(tables)[t] == tables[t].rows;
    failed := if outcome.Failed? then Some(outcome.id) else None;
  }

  /** Every table in turn, up to the first that fails; all succeed exactly when all can be indexed. */
  method ReindexAll(tables: seq<EncTable>, cipher: Cipher, refused: nat -> set<Id>, flag: int, clock: int)
    returns (totals: seq<nat>, failed: Option<Id>)
    requires cipher.Valid() && DistinctTables(tables)
    modifies tables, cipher.cache
    ensures cipher.Valid()
    ensures ReindexedTo(cipher.provider, cipher.index, refused, old(Contents(tables)), Contents(tables), totals,
                        |totals| + if failed.Some? then 1 else 0)
    ensures failed.None? <==> |totals| == |tables|
    ensures failed.Some? ==> !Indexable(cipher.provider, refused(|totals|), old(Contents(tables))[|totals|])
    ensures failed.Some? ==>
      ReindexStopped(cipher.provider, cipher.index, refused(|totals|), flag, old(Contents(tables))[|totals|],
                     Contents(tables)[|totals|], failed.value)
  {
    totals := [];
    while |totals| < |tables|
      invariant cipher.Valid()
      invariant ReindexedTo(cipher.provider, cipher.index, refused,
                            old(Contents(tables)), Contents(tables), totals, |totals|)
      decreases |tables| - |totals|
    {
      var t := |totals|;
      ghost var now := Contents(tables);
      var total, stopped := ReindexNth(tables, t, cipher, refused(t), flag, clock);
      ReindexNext(cipher.provider, cipher.index, refused, old(Contents(tables)), now, totals,
                  Contents(tables)[t], total);
      if stopped.Some? {
        return totals, stopped;
      }
      totals := totals + [total];
    }
    return totals, None;
  }
}
