/**
 The reindex among application writes: it too reads a batch outside its transaction and then updates by id
 alone (cmd/oikumenea/rewrap.go:225-273). Between the two the table may change in any way whatever.
 */
module ReindexRaces {
  import opened Envelope
  import opened Octets
  import opened Rotation
  import opened Wrappers
  import RotationRuns

  datatype Value = Value(ciphertext: Blob, wrapped: Blob)

  /** What the query returned, by id. */
  type Batch = map<Id, Value>

  function ReadRows(rows: Rows, ids: seq<Id>): Batch {
    map id | id in ids && id in rows && rows[id].ciphertext.Some? && rows[id].wrapped.Some? ::
      Value(rows[id].ciphertext.value, rows[id].wrapped.value)
  }

  function Opened(p: Provider, v: Value): Option<Bytes> {
    OpenUncached(p, v.ciphertext, v.wrapped)
  }

  predicate AllOpen(p: Provider, read: Batch) {
    forall id | id in read :: Opened(p, read[id]).Some?
  }

  /** The UPDATEs of a batch that opens throughout: every row still there gets the index of the value read. */
  function Committed(p: Provider, index: Bytes -> Bytes, rows: Rows, read: Batch): Rows
    requires AllOpen(p, read)
  {
    map id | id in rows ::
      if id in read then rows[id].(blind := Some(index(Opened(p, read[id]).value))) else rows[id]
  }

  /** With nothing in between, read and commit are the tool's one transaction over that batch. */
  lemma ReadCommitIsBatch(p: Provider, index: Bytes -> Bytes, rows: Rows, ids: seq<Id>)
    requires forall id | id in ids :: id in ReadableIds(p, rows, {})
    ensures AllOpen(p, ReadRows(rows, ids))
    ensures Committed(p, index, rows, ReadRows(rows, ids)) == Mix(rows, ReindexTarget(p, index, rows), ids)
  {
    forall id | id in ReadRows(rows, ids) ensures Opened(p, ReadRows(rows, ids)[id]).Some? {
      assert id in ReadableIds(p, rows, {});
    }
    forall id | id in rows && id in ids ensures id in ReadRows(rows, ids) {
      assert id in ReadableIds(p, rows, {});
    }
  }

  /** A readable row is indexed by its own value. */
  predicate WellIndexed(p: Provider, index: Bytes -> Bytes, r: Row) {
    Plaintext(p, r).Some? ==> r.blind == Some(index(Plaintext(p, r).value))
  }

  /**
   After the commit every readable row is indexed by its own value exactly when each row of the batch still
   has a value of the same index as the one read, and each other row was well indexed already.
   */
  lemma ReindexCommitIff(p: Provider, index: Bytes -> Bytes, rows: Rows, read: Batch)
    requires AllOpen(p, read)
    ensures
      var after := Committed(p, index, rows, read);
      (forall id | id in rows :: WellIndexed(p, index, after[id])) <==>
      forall id | id in rows && Plaintext(p, rows[id]).Some? ::
        if id in read then index(Opened(p, read[id]).value) == index(Plaintext(p, rows[id]).value)
        else WellIndexed(p, index, rows[id])
  {
    var after := Committed(p, index, rows, read);
    forall id | id in rows ensures Plaintext(p, after[id]) == Plaintext(p, rows[id]) {}
  }

  /** An erased blind index stays erased exactly when the batch had not read the row. */
  lemma ErasedIndexIff(p: Provider, index: Bytes -> Bytes, rows: Rows, read: Batch, id: Id)
    requires AllOpen(p, read) && id in rows && rows[id].blind.None?
    ensures Committed(p, index, rows, read)[id].blind.None? <==> id !in read
    ensures id in read ==> Committed(p, index, rows, read)[id].blind == Some(index(Opened(p, read[id]).value))
  {
  }

  // ------------------------------------------------------------------ a whole pass among application writes

  /** Rows read, up to `last` in id order. */
  datatype Flight = Flight(read: Batch, last: Id)

  /** A pass has visited the ids up to its cursor. */
  datatype Pass = Pass(rows: Rows, cursor: Id, pending: Option<Flight>)

  /** The application indexes what it saves. A pass that fails or is killed is started over. */
  datatype Event =
    | Save(id: Id, plaintext: Bytes, dek: Dek, valueNonce: nat, wrapNonce: nat)
    | Erase(id: Id, keepRef: bool)
    | Delete(id: Id)
    | Read(limit: nat)
    | Write
    | StartOver

  function After(p: Provider, index: Bytes -> Bytes, s: Pass, e: Event): Pass {
    match e
    case Save(id, plaintext, dek, vn, wn) =>
      (match SealWith(p, dek, vn, wn, plaintext)
       case None => s
       case Some(v) =>
         s.(rows := s.rows[id := Row(Some(v.ciphertext), Some(v.wrapped), Some(v.keyRef), Some(index(plaintext)))]))
    case Erase(id, keepRef) =>
      if id in s.rows then s.(rows := s.rows[id := RotationRuns.Erased(s.rows[id], keepRef)]) else s
    case Delete(id) => s.(rows := s.rows - {id})
    case Read(limit) =>
      var ids := SelectAfter(s.rows, s.cursor, limit);
      if s.pending.Some? || ids == [] then s
      else s.(pending := Some(Flight(ReadRows(s.rows, ids), ids[|ids| - 1])))
    case Write =>
      if s.pending.None? then s
      else if !AllOpen(p, s.pending.value.read) then s.(cursor := 0, pending := None)
      else Pass(Committed(p, index, s.rows, s.pending.value.read), s.pending.value.last, None)
    case StartOver => s.(cursor := 0, pending := None)
  }

  function Events(p: Provider, index: Bytes -> Bytes, s: Pass, es: seq<Event>): Pass {
    if es == [] then s else After(p, index, Events(p, index, s, es[..|es| - 1]), es[|es| - 1])
  }

  /** What the pass is for: every readable row it has visited is indexed by its own value. */
  ghost predicate VisitedOk(p: Provider, index: Bytes -> Bytes, s: Pass) {
    forall id | id in s.rows && 0 < id <= s.cursor :: WellIndexed(p, index, s.rows[id])
  }

  /** Every row of the batch still has a value of the index read, if it has one. */
  ghost predicate Current(p: Provider, index: Bytes -> Bytes, s: Pass) {
    s.pending.Some? && AllOpen(p, s.pending.value.read) ==>
      var read := s.pending.value.read;
      forall id | id in read && id in s.rows && Plaintext(p, s.rows[id]).Some? ::
        index(Opened(p, read[id]).value) == index(Plaintext(p, s.rows[id]).value)
  }

  /** Within the reach of the batch in flight, what it did not read has been indexed since, or is not readable. */
  ghost predicate ReachOk(p: Provider, index: Bytes -> Bytes, s: Pass) {
    s.pending.Some? ==>
      && (forall id | id in s.pending.value.read :: s.cursor < id <= s.pending.value.last)
      && (forall id | id in s.rows && s.cursor < id <= s.pending.value.last && id !in s.pending.value.read ::
            WellIndexed(p, index, s.rows[id]))
  }

  ghost predicate PassOk(p: Provider, index: Bytes -> Bytes, s: Pass) {
    VisitedOk(p, index, s) && ReachOk(p, index, s)
  }

  /** A query returns exactly the eligible rows up to the last it returns. */
  lemma SelectReach(rows: Rows, cursor: Id, limit: nat, ids: seq<Id>)
    requires ids == SelectAfter(rows, cursor, limit) && ids != []
    ensures forall id :: id in ids <==> id in Eligible(rows, cursor) && id <= ids[|ids| - 1]
  {
    var all := InOrder(Eligible(rows, cursor));
    InOrderIs(Eligible(rows, cursor));
    forall id | id in Eligible(rows, cursor) && id <= ids[|ids| - 1] ensures id in ids {
      var i :| 0 <= i < |all| && all[i] == id;
      assert i < |ids| && ids[i] == id;
    }
    forall id | id in ids ensures id <= ids[|ids| - 1] && id in all {
      var i :| 0 <= i < |ids| && ids[i] == id;
      assert all[i] == id;
    }
  }

  lemma ReadReaches(p: Provider, index: Bytes -> Bytes, s: Pass, limit: nat)
    requires PassOk(p, index, s)
    ensures PassOk(p, index, After(p, index, s, Read(limit)))
  {
    var ids := SelectAfter(s.rows, s.cursor, limit);
    if s.pending.None? && ids != [] {
      SelectReach(s.rows, s.cursor, limit, ids);
      forall id | id in s.rows && s.cursor < id <= ids[|ids| - 1] && id !in ReadRows(s.rows, ids)
        ensures WellIndexed(p, index, s.rows[id])
      {
        assert id !in Eligible(s.rows, s.cursor);
      }
    }
  }

  lemma WriteIff(p: Provider, index: Bytes -> Bytes, s: Pass)
    requires PassOk(p, index, s)
    ensures VisitedOk(p, index, After(p, index, s, Write)) <==> Current(p, index, s)
  {
    if s.pending.Some? && AllOpen(p, s.pending.value.read) {
      var read, s' := s.pending.value.read, After(p, index, s, Write);
      forall id | id in s.rows && 0 < id <= s'.cursor
        ensures WellIndexed(p, index, s'.rows[id]) <==>
          (id in read && Plaintext(p, s.rows[id]).Some? ==>
             index(Opened(p, read[id]).value) == index(Plaintext(p, s.rows[id]).value))
      {
        assert Plaintext(p, s'.rows[id]) == Plaintext(p, s.rows[id]);
      }
      assert forall id | id in read && id in s.rows :: 0 < id <= s'.cursor;
    }
  }

  /** After an event what is visited is well indexed exactly when the event is no write, or a current one. */
  lemma EventIff(p: Provider, index: Bytes -> Bytes, s: Pass, e: Event)
    requires p.Valid() && PassOk(p, index, s)
    ensures VisitedOk(p, index, After(p, index, s, e)) <==> (e.Write? ==> Current(p, index, s))
    ensures VisitedOk(p, index, After(p, index, s, e)) ==> PassOk(p, index, After(p, index, s, e))
  {
    match e
    case Read(limit) => ReadReaches(p, index, s, limit);
    case Write => WriteIff(p, index, s);
    case Save(id, plaintext, dek, vn, wn) => SealedOpensIff(p, p, dek, vn, wn, plaintext);
    case _ =>
  }

  ghost predicate IndexedAt(p: Provider, index: Bytes -> Bytes, s: Pass, es: seq<Event>, k: nat)
    requires k <= |es|
  {
    VisitedOk(p, index, Events(p, index, s, es[..k]))
  }

  ghost predicate CurrentAt(p: Provider, index: Bytes -> Bytes, s: Pass, es: seq<Event>, k: nat)
    requires k < |es|
  {
    es[k].Write? ==> Current(p, index, Events(p, index, s, es[..k]))
  }

  lemma OneEvent(p: Provider, index: Bytes -> Bytes, s: Pass, es: seq<Event>, k: nat)
    requires p.Valid() && k < |es| && PassOk(p, index, Events(p, index, s, es[..k]))
    ensures IndexedAt(p, index, s, es, k + 1) <==> CurrentAt(p, index, s, es, k)
    ensures IndexedAt(p, index, s, es, k + 1) ==> PassOk(p, index, Events(p, index, s, es[..k + 1]))
  {
    assert es[..k + 1][..k] == es[..k];
    EventIff(p, index, Events(p, index, s, es[..k]), es[k]);
  }

  lemma {:induction false} PassOkUpTo(p: Provider, index: Bytes -> Bytes, s: Pass, es: seq<Event>, n: nat)
    requires p.Valid() && PassOk(p, index, s) && n <= |es|
    requires forall k | 0 <= k < n :: IndexedAt(p, index, s, es, k + 1) || CurrentAt(p, index, s, es, k)
    ensures PassOk(p, index, Events(p, index, s, es[..n]))
  {
    if n > 0 {
      PassOkUpTo(p, index, s, es, n - 1);
      OneEvent(p, index, s, es, n - 1);
    }
  }

  /**
   A whole reindex, interrupted and restarted at will among application writes: every readable row visited is
   indexed by its own value at every point if and only if each commit finds its batch current.
   */
  lemma PassIndexesIff(p: Provider, index: Bytes -> Bytes, s: Pass, es: seq<Event>)
    requires p.Valid() && PassOk(p, index, s)
    ensures (forall k | 0 <= k <= |es| :: IndexedAt(p, index, s, es, k)) <==>
            (forall k | 0 <= k < |es| :: CurrentAt(p, index, s, es, k))
  {
    if forall k | 0 <= k <= |es| :: IndexedAt(p, index, s, es, k) {
      forall k | 0 <= k < |es| ensures CurrentAt(p, index, s, es, k) {
        PassOkUpTo(p, index, s, es, k);
        OneEvent(p, index, s, es, k);
      }
    }
    if forall k | 0 <= k < |es| :: CurrentAt(p, index, s, es, k) {
      forall k | 0 <= k <= |es| ensures IndexedAt(p, index, s, es, k) { PassOkUpTo(p, index, s, es, k); }
    }
  }

  /** So a pass that started at the beginning and ran out of rows leaves all but the nil row well indexed. */
  lemma FinishedPassIndexes(p: Provider, index: Bytes -> Bytes, rows: Rows, es: seq<Event>)
    requires p.Valid()
    requires forall k | 0 <= k < |es| :: CurrentAt(p, index, Pass(rows, 0, None), es, k)
    requires var s := Events(p, index, Pass(rows, 0, None), es); Eligible(s.rows, s.cursor) == {}
    ensures var s := Events(p, index, Pass(rows, 0, None), es);
      forall id | id in s.rows && id != 0 :: WellIndexed(p, index, s.rows[id])
  {
    var s := Events(p, index, Pass(rows, 0, None), es);
    PassOkUpTo(p, index, Pass(rows, 0, None), es, |es|);
    assert es[..|es|] == es;
    forall id | id in s.rows && id > s.cursor ensures Plaintext(p, s.rows[id]).None? {
      assert id !in Eligible(s.rows, s.cursor);
    }
  }

  /** A row saved anew while its batch is in flight is readable, and indexed by the value it no longer has. */
  lemma SaveRacesWrite(p: Provider, index: Bytes -> Bytes, s: Pass, e: Event)
    requires p.Valid() && e.Save? && s.pending.Some? && AllOpen(p, s.pending.value.read) && e.id in s.pending.value.read
    ensures
      var r := After(p, index, After(p, index, s, e), Write).rows[e.id];
      && Plaintext(p, r) == Some(e.plaintext)
      && r.blind == Some(index(Opened(p, s.pending.value.read[e.id]).value))
  {
    SealedOpensIff(p, p, e.dek, e.valueNonce, e.wrapNonce, e.plaintext);
    assert p.active in p.keks;
  }
}
