/**
 The key-rotation tool: the batched, resumable rewrap of one encrypted table and the keyset reindex of
 its blind index (cmd/oikumenea/rewrap.go). A table is a map from id to row; a query is a function of the
 map; a transaction is a copy that is installed on commit and dropped on rollback. Ids are the numbers
 their UUIDs denote, so the nil UUID the reindex cursor starts from is 0.
 */
module Rotation {
  import opened Wrappers
  import opened Envelope
  import opened Octets

  type Id = nat

  datatype Row = Row(ciphertext: Option<Blob>, wrapped: Option<Blob>, keyRef: Option<string>, blind: Option<Bytes>)
  type Rows = map<Id, Row>

  // ------------------------------------------------------------------ ids in order

  ghost predicate Increasing(s: seq<Id>) {
    forall i, j | 0 <= i < j < |s| :: s[i] < s[j]
  }

  ghost predicate OrderOf(todo: seq<Id>, s: set<Id>) {
    Increasing(todo) && forall x :: x in todo <==> x in s
  }

  ghost function Least(s: set<Id>): (m: Id)
    requires s != {}
    ensures m in s && forall x | x in s :: m <= x
    decreases |s|
  {
    var e :| e in s;
    var rest := s - {e};
    assert forall x | x in s :: x == e || x in rest;
    if rest == {} then e else
      var m := Least(rest);
      if e < m then e else m
  }

  /** ORDER BY id. */
  function InOrder(s: set<Id>): seq<Id>
    decreases |s|
  {
    if s == {} then [] else
      var m := LeastOf(s);
      [m] + InOrder(s - {m})
  }

  function LeastOf(s: set<Id>): (m: Id)
    requires s != {}
    ensures m in s && forall x | x in s :: m <= x
  {
    assert Least(s) in s;
    var m :| m in s && forall x | x in s :: m <= x;
    m
  }

  lemma {:induction false} InOrderIs(s: set<Id>)
    ensures OrderOf(InOrder(s), s) && |InOrder(s)| == |s|
    decreases |s|
  {
    if s != {} {
      var m := LeastOf(s);
      InOrderIs(s - {m});
      PrependLeast(m, InOrder(s - {m}), s);
    }
  }

  lemma PrependLeast(m: Id, rest: seq<Id>, s: set<Id>)
    requires m in s && (forall x | x in s :: m <= x) && OrderOf(rest, s - {m})
    ensures OrderOf([m] + rest, s)
  {
    var all := [m] + rest;
    forall i, j | 0 <= i < j < |all| ensures all[i] < all[j] {
      assert all[j] in rest;
    }
    assert forall x :: x in all <==> x == m || x in rest;
  }

  lemma TailMembers(a: seq<Id>)
    requires a != [] && Increasing(a)
    ensures forall x :: x in a[1..] <==> x in a && x != a[0]
  {
  }

  lemma {:induction false} IncreasingUnique(a: seq<Id>, b: seq<Id>)
    requires Increasing(a) && Increasing(b) && forall x :: x in a <==> x in b
    ensures a == b
  {
    assert a != [] ==> a[0] in b;
    assert b != [] ==> b[0] in a;
    if a != [] && b != [] {
      TailMembers(a);
      TailMembers(b);
      IncreasingUnique(a[1..], b[1..]);
      assert a == [a[0]] + a[1..] && b == [b[0]] + b[1..];
    }
  }

  lemma SplitMembers(a: seq<Id>, k: nat)
    requires k <= |a| && Increasing(a)
    ensures forall x :: x in a[k..] <==> x in a && x !in a[..k]
  {
  }

  /** Whatever list is in id order and holds the right ids is the one the query returns. */
  lemma OrderIs(todo: seq<Id>, s: set<Id>)
    requires OrderOf(todo, s)
    ensures InOrder(s) == todo
  {
    InOrderIs(s);
    IncreasingUnique(InOrder(s), todo);
  }

  /** LIMIT n. */
  function Take<T>(s: seq<T>, n: nat): seq<T> {
    if n <= |s| then s[..n] else s
  }

  // ------------------------------------------------------------------ progress of a batched pass

  /** `start` with the listed rows replaced by what `target` holds for them. */
  function Mix(start: Rows, target: Rows, ids: seq<Id>): Rows
    requires start.Keys <= target.Keys
  {
    map id | id in start :: if id in ids then target[id] else start[id]
  }

  /** `now` is `start` with the first `k` of `todo` done, every one of which could be done. */
  ghost predicate Progress(start: Rows, target: Rows, good: set<Id>, now: Rows, todo: seq<Id>, k: nat) {
    && start.Keys <= target.Keys
    && k <= |todo|
    && AllIn(todo[..k], good)
    && now == Mix(start, target, todo[..k])
  }

  ghost predicate AllIn(ids: seq<Id>, good: set<Id>) {
    forall id | id in ids :: id in good
  }

  datatype Outcome = Done | Failed(id: Id) | Interrupted

  /** The first of `todo` that cannot be done is the `i`-th, at or after `from`. */
  ghost predicate FirstBad(good: set<Id>, todo: seq<Id>, from: nat, failed: Id, i: nat) {
    && from <= i < |todo| && todo[i] == failed && failed !in good
    && forall j | 0 <= j < i :: todo[j] in good
  }

  ghost predicate Ended(good: set<Id>, todo: seq<Id>, batch: nat, total: nat, outcome: Outcome) {
    match outcome
    case Done => total == |todo|
    case Interrupted => false
    case Failed(id) => exists i: nat :: i < total + batch && FirstBad(good, todo, total, id, i)
  }

  /**
   How a pass over `todo` ends when the process lives to commit `budget` batches. Every batch takes at
   least one row, so a pass allowed more batches than there are rows ends by itself.
   */
  ghost predicate Ending(good: set<Id>, todo: seq<Id>, batch: nat, budget: nat, total: nat, outcome: Outcome) {
    if outcome.Interrupted? then budget <= total == Taken(|todo|, batch, budget)
    else Ended(good, todo, batch, total, outcome) && exists n: nat :: total == Taken(|todo|, batch, n)
  }

  function Least2(a: int, b: int): int {
    if a <= b then a else b
  }

  /** Rows taken from `len` by `n` batches. */
  function Taken(len: nat, batch: nat, n: nat): (r: nat)
    ensures r <= len
  {
    if n == 0 then 0 else
      var before := Taken(len, batch, n - 1);
      before + Least2(batch, len - before)
  }

  lemma {:induction false} TakenIsMin(len: nat, batch: nat, n: nat)
    ensures Taken(len, batch, n) == Least2(n * batch, len)
  {
    if n > 0 {
      TakenIsMin(len, batch, n - 1);
      assert n * batch == (n - 1) * batch + batch;
    }
  }

  lemma BatchIsNext(todo: seq<Id>, k: nat, batch: nat, ids: seq<Id>)
    requires k <= |todo| && Increasing(todo) && ids == Take(todo[k..], batch)
    ensures |ids| == Least2(batch, |todo| - k)
    ensures todo[..k] + ids == todo[..k + |ids|]
    ensures forall j | 0 <= j < |ids| :: ids[j] == todo[k + j]
    ensures forall id | id in ids :: id in todo && id !in todo[..k]
  {
  }

  lemma Untouched(start: Rows, target: Rows, ids: seq<Id>, rest: seq<Id>)
    requires start.Keys <= target.Keys
    requires forall id | id in rest :: id in start && id !in ids
    ensures forall id | id in rest :: Mix(start, target, ids)[id] == start[id]
  {
  }

  /** A committed batch carries the pass forward, provided it did to its rows what `target` says. */
  lemma Advance(start: Rows, target: Rows, good: set<Id>, now: Rows, todo: seq<Id>, k: nat, batch: nat,
      ids: seq<Id>, fresh': Rows, after: Rows, k': nat)
    requires Progress(start, target, good, now, todo, k) && Increasing(todo)
    requires ids == Take(todo[k..], batch) && k' == k + |ids|
    requires now.Keys <= fresh'.Keys && after == Mix(now, fresh', ids)
    requires forall id | id in ids :: id in good && id in start && fresh'[id] == target[id]
    ensures Progress(start, target, good, after, todo, k')
    ensures |ids| == Least2(batch, |todo| - k)
  {
  }

  lemma FirstBadShifts(good: set<Id>, good': set<Id>, todo: seq<Id>, k: nat, batch: nat, ids: seq<Id>,
      failed: Id, i: nat)
    requires Increasing(todo) && k <= |todo| && ids == Take(todo[k..], batch)
    requires forall id | id in todo[..k] :: id in good
    requires forall id | id in ids :: id in good <==> id in good'
    requires FirstBad(good', ids, 0, failed, i)
    ensures i < batch && FirstBad(good, todo, k, failed, k + i)
  {
  }

  // ------------------------------------------------------------------ rewrap: query and target

  /** The rewrap query's WHERE clause. */
  predicate IsStale(r: Row, active: string) {
    r.wrapped.Some? && (r.keyRef.None? || r.keyRef.value != active)
  }

  function Stale(rows: Rows, active: string): set<Id> {
    set id | id in rows && IsStale(rows[id], active)
  }

  function SelectStale(rows: Rows, active: string, limit: nat): seq<Id> {
    Take(InOrder(Stale(rows, active)), limit)
  }

  predicate Rewrappable(p: Provider, r: Row) {
    r.wrapped.Some? && Unwrapped(p, r.wrapped.value).Some? && Unwrapped(p, r.wrapped.value).value != []
  }

  /** The rows one pass can do: those it can unwrap, whose UPDATE the database does not refuse. */
  function RewrappableIds(p: Provider, rows: Rows, refused: set<Id>): set<Id> {
    set id | id in rows && id !in refused && Rewrappable(p, rows[id])
  }

  /** Every row that can be rewrapped, boxed under the active key; the others as they are. */
  function RewrapTarget(p: Provider, nonces: Id -> nat, rows: Rows): Rows {
    map id | id in rows ::
      if Rewrappable(p, rows[id])
      then rows[id].(wrapped := Some(Box(p.active, nonces(id), Unwrapped(p, rows[id].wrapped.value).value)),
                     keyRef := Some(p.keyRef))
      else rows[id]
  }

  lemma RewrapIsTarget(p: Provider, nonce: nat, wrapped: Blob)
    requires p.Valid()
    ensures Rewrapped(p, nonce, wrapped) ==
      if Unwrapped(p, wrapped).Some? && Unwrapped(p, wrapped).value != []
      then Some((Box(p.active, nonce, Unwrapped(p, wrapped).value), p.keyRef)) else None
  {
  }

  /** The next query sees exactly the rest of the original list. */
  lemma StillStale(p: Provider, refused: set<Id>, nonces: Id -> nat, start: Rows, now: Rows, todo: seq<Id>, k: nat)
    requires OrderOf(todo, Stale(start, p.keyRef))
    requires Progress(start, RewrapTarget(p, nonces, start), RewrappableIds(p, start, refused), now, todo, k)
    ensures OrderOf(todo[k..], Stale(now, p.keyRef))
  {
    SplitMembers(todo, k);
    forall id ensures id in todo[k..] <==> id in Stale(now, p.keyRef) {
      if id in start {
        if id in todo[..k] { assert id in RewrappableIds(p, start, refused); }
      }
    }
  }

  /** Rows not yet reached still ask for what they asked for at the start. */
  lemma SameDemand(p: Provider, refused: set<Id>, nonces: Id -> nat, start: Rows, now: Rows, ids: seq<Id>)
    requires forall id | id in ids :: id in start && id in now && now[id] == start[id]
    ensures forall id | id in ids :: RewrapTarget(p, nonces, now)[id] == RewrapTarget(p, nonces, start)[id]
    ensures forall id | id in ids :: id in RewrappableIds(p, now, refused) <==> id in RewrappableIds(p, start, refused)
  {
  }

  lemma RewrapCommitted(p: Provider, refused: set<Id>, nonces: Id -> nat,
      start: Rows, now: Rows, todo: seq<Id>, k: nat, batch: nat,
      ids: seq<Id>, after: Rows, k': nat)
    requires k <= |todo| && OrderOf(todo, Stale(start, p.keyRef)) && ids == Take(todo[k..], batch) && k' == k + |ids|
    requires Progress(start, RewrapTarget(p, nonces, start), RewrappableIds(p, start, refused), now, todo, k)
    requires forall id | id in ids :: id in RewrappableIds(p, now, refused)
    requires after == Mix(now, RewrapTarget(p, nonces, now), ids)
    ensures Progress(start, RewrapTarget(p, nonces, start), RewrappableIds(p, start, refused), after, todo, k')
    ensures |ids| == Least2(batch, |todo| - k)
  {
    BatchIsNext(todo, k, batch, ids);
    Untouched(start, RewrapTarget(p, nonces, start), todo[..k], ids);
    SameDemand(p, refused, nonces, start, now, ids);
    Advance(start, RewrapTarget(p, nonces, start), RewrappableIds(p, start, refused), now, todo, k, batch, ids,
            RewrapTarget(p, nonces, now), after, k');
  }

  lemma RewrapFailed(p: Provider, refused: set<Id>, nonces: Id -> nat,
      start: Rows, now: Rows, todo: seq<Id>, k: nat, batch: nat,
      ids: seq<Id>, failed: Id)
    requires k <= |todo| && OrderOf(todo, Stale(start, p.keyRef)) && ids == Take(todo[k..], batch)
    requires Progress(start, RewrapTarget(p, nonces, start), RewrappableIds(p, start, refused), now, todo, k)
    requires exists i: nat :: FirstBad(RewrappableIds(p, now, refused), ids, 0, failed, i)
    ensures Ended(RewrappableIds(p, start, refused), todo, batch, k, Failed(failed))
  {
    BatchIsNext(todo, k, batch, ids);
    Untouched(start, RewrapTarget(p, nonces, start), todo[..k], ids);
    SameDemand(p, refused, nonces, start, now, ids);
    var i: nat :| FirstBad(RewrappableIds(p, now, refused), ids, 0, failed, i);
    FirstBadShifts(RewrappableIds(p, start, refused), RewrappableIds(p, now, refused), todo, k, batch, ids, failed, i);
  }

  // ------------------------------------------------------------------ reindex: query and target

  /** The reindex query's WHERE clause past its cursor. */
  function Eligible(rows: Rows, cursor: Id): set<Id> {
    set id | id in rows && rows[id].ciphertext.Some? && rows[id].wrapped.Some? && id > cursor
  }

  function SelectAfter(rows: Rows, cursor: Id, limit: nat): seq<Id> {
    Take(InOrder(Eligible(rows, cursor)), limit)
  }

  function CursorAt(todo: seq<Id>, k: nat): Id {
    if 0 < k <= |todo| then todo[k - 1] else 0
  }

  function Plaintext(p: Provider, r: Row): Option<Bytes> {
    if r.ciphertext.Some? && r.wrapped.Some? then OpenUncached(p, r.ciphertext.value, r.wrapped.value) else None
  }

  /** The rows a reindex can do: those that open, whose UPDATE the database does not refuse. */
  function ReadableIds(p: Provider, rows: Rows, refused: set<Id>): set<Id> {
    set id | id in rows && id !in refused && Plaintext(p, rows[id]).Some?
  }

  /** Every readable row, its blind index recomputed from its plaintext; the others as they are. */
  function ReindexTarget(p: Provider, index: Bytes -> Bytes, rows: Rows): Rows {
    map id | id in rows ::
      match Plaintext(p, rows[id])
      case Some(plain) => rows[id].(blind := Some(index(plain)))
      case None => rows[id]
  }

  lemma SameReading(p: Provider, refused: set<Id>, index: Bytes -> Bytes, start: Rows, now: Rows, ids: seq<Id>)
    requires forall id | id in ids :: id in start && id in now && now[id] == start[id]
    ensures forall id | id in ids :: ReindexTarget(p, index, now)[id] == ReindexTarget(p, index, start)[id]
    ensures forall id | id in ids :: id in ReadableIds(p, now, refused) <==> id in ReadableIds(p, start, refused)
  {
  }

  /** Past the cursor lie exactly the ids not yet visited. */
  lemma BeyondCursor(todo: seq<Id>, k: nat)
    requires k <= |todo| && Increasing(todo) && forall id | id in todo :: id > 0
    ensures forall id | id in todo :: id > CursorAt(todo, k) <==> id in todo[k..]
  {
  }

  lemma MixKeepsEligible(p: Provider, index: Bytes -> Bytes, start: Rows, ids: seq<Id>, cursor: Id)
    ensures Eligible(Mix(start, ReindexTarget(p, index, start), ids), cursor) == Eligible(start, cursor)
  {
  }

  lemma StillAhead(p: Provider, refused: set<Id>, index: Bytes -> Bytes, start: Rows, now: Rows, todo: seq<Id>, k: nat)
    requires OrderOf(todo, Eligible(start, 0))
    requires Progress(start, ReindexTarget(p, index, start), ReadableIds(p, start, refused), now, todo, k)
    ensures OrderOf(todo[k..], Eligible(now, CursorAt(todo, k)))
  {
    var cursor := CursorAt(todo, k);
    MixKeepsEligible(p, index, start, todo[..k], cursor);
    BeyondCursor(todo, k);
    AheadIsSuffix(start, todo, k);
  }

  lemma AheadIsSuffix(start: Rows, todo: seq<Id>, k: nat)
    requires OrderOf(todo, Eligible(start, 0)) && k <= |todo|
    requires forall id | id in todo :: id > CursorAt(todo, k) <==> id in todo[k..]
    ensures OrderOf(todo[k..], Eligible(start, CursorAt(todo, k)))
  {
    forall id ensures id in todo[k..] <==> id in Eligible(start, CursorAt(todo, k)) {
      if id in todo[k..] { assert id in todo; }
      if id in Eligible(start, CursorAt(todo, k)) { assert id in Eligible(start, 0); }
    }
  }

  lemma ReindexCommitted(p: Provider, refused: set<Id>, index: Bytes -> Bytes,
      start: Rows, now: Rows, todo: seq<Id>, k: nat, batch: nat,
      ids: seq<Id>, after: Rows, k': nat)
    requires k <= |todo| && OrderOf(todo, Eligible(start, 0)) && ids == Take(todo[k..], batch) && k' == k + |ids|
    requires Progress(start, ReindexTarget(p, index, start), ReadableIds(p, start, refused), now, todo, k)
    requires forall id | id in ids :: id in ReadableIds(p, now, refused)
    requires after == Mix(now, ReindexTarget(p, index, now), ids)
    ensures Progress(start, ReindexTarget(p, index, start), ReadableIds(p, start, refused), after, todo, k')
    ensures |ids| == Least2(batch, |todo| - k)
    ensures |ids| > 0 ==> ids[|ids| - 1] == CursorAt(todo, k')
  {
    BatchIsNext(todo, k, batch, ids);
    Untouched(start, ReindexTarget(p, index, start), todo[..k], ids);
    SameReading(p, refused, index, start, now, ids);
    Advance(start, ReindexTarget(p, index, start), ReadableIds(p, start, refused), now, todo, k, batch, ids,
            ReindexTarget(p, index, now), after, k');
  }

  lemma ReindexFailed(p: Provider, refused: set<Id>, index: Bytes -> Bytes,
      start: Rows, now: Rows, todo: seq<Id>, k: nat, batch: nat,
      ids: seq<Id>, failed: Id)
    requires k <= |todo| && OrderOf(todo, Eligible(start, 0)) && ids == Take(todo[k..], batch)
    requires Progress(start, ReindexTarget(p, index, start), ReadableIds(p, start, refused), now, todo, k)
    requires exists i: nat :: FirstBad(ReadableIds(p, now, refused), ids, 0, failed, i)
    ensures Ended(ReadableIds(p, start, refused), todo, batch, k, Failed(failed))
  {
    BatchIsNext(todo, k, batch, ids);
    Untouched(start, ReindexTarget(p, index, start), todo[..k], ids);
    SameReading(p, refused, index, start, now, ids);
    var i: nat :| FirstBad(ReadableIds(p, now, refused), ids, 0, failed, i);
    FirstBadShifts(ReadableIds(p, start, refused), ReadableIds(p, now, refused), todo, k, batch, ids, failed, i);
  }

  // ------------------------------------------------------------------ one more row of a transaction

  lemma OneMore(start: Rows, target: Rows, ids: seq<Id>, i: nat)
    requires start.Keys <= target.Keys && i < |ids| && ids[i] in start && ids[i] !in ids[..i]
    ensures Mix(start, target, ids[..i])[ids[i]] == start[ids[i]]
    ensures Mix(start, target, ids[..i + 1]) == Mix(start, target, ids[..i])[ids[i] := target[ids[i]]]
    ensures forall id | id in ids[..i + 1] :: id in ids[..i] || id == ids[i]
  {
    assert ids[..i + 1] == ids[..i] + [ids[i]];
  }

  lemma OneMoreRewrapped(p: Provider, nonces: Id -> nat, rows: Rows, ids: seq<Id>, i: nat)
    requires i < |ids| && ids[i] in rows && ids[i] !in ids[..i] && Rewrappable(p, rows[ids[i]])
    ensures ids[i] in Mix(rows, RewrapTarget(p, nonces, rows), ids[..i])
    ensures var tx, wrapped := Mix(rows, RewrapTarget(p, nonces, rows), ids[..i]), rows[ids[i]].wrapped.value;
      Mix(rows, RewrapTarget(p, nonces, rows), ids[..i + 1]) ==
        tx[ids[i] := tx[ids[i]].(wrapped := Some(Box(p.active, nonces(ids[i]), Unwrapped(p, wrapped).value)),
                                 keyRef := Some(p.keyRef))]
    ensures forall id | id in ids[..i + 1] :: id in ids[..i] || id == ids[i]
  {
    OneMore(rows, RewrapTarget(p, nonces, rows), ids, i);
  }

  lemma OneMoreIndexed(p: Provider, index: Bytes -> Bytes, rows: Rows, ids: seq<Id>, i: nat)
    requires i < |ids| && ids[i] in rows && ids[i] !in ids[..i] && Plaintext(p, rows[ids[i]]).Some?
    ensures ids[i] in Mix(rows, ReindexTarget(p, index, rows), ids[..i])
    ensures var tx := Mix(rows, ReindexTarget(p, index, rows), ids[..i]);
      Mix(rows, ReindexTarget(p, index, rows), ids[..i + 1]) ==
        tx[ids[i] := tx[ids[i]].(blind := Some(index(Plaintext(p, rows[ids[i]]).value)))]
    ensures forall id | id in ids[..i + 1] :: id in ids[..i] || id == ids[i]
  {
    OneMore(rows, ReindexTarget(p, index, rows), ids, i);
  }

  // ------------------------------------------------------------------ the table and its two loops

  class EncTable {
    var rows: Rows

    constructor (rows: Rows)
      ensures this.rows == rows
    {
      this.rows := rows;
    }

    method QueryStale(active: string, batch: nat, ghost rest: seq<Id>) returns (ids: seq<Id>)
      requires OrderOf(rest, Stale(rows, active))
      ensures ids == Take(rest, batch)
      ensures Increasing(ids) && forall id | id in ids :: id in rows && rows[id].wrapped.Some?
    {
      OrderIs(rest, Stale(rows, active));
      ids := SelectStale(rows, active, batch);
      forall id | id in ids ensures id in rest {}
    }

    method QueryAfter(cursor: Id, batch: nat, ghost rest: seq<Id>) returns (ids: seq<Id>)
      requires OrderOf(rest, Eligible(rows, cursor))
      ensures ids == Take(rest, batch)
      ensures Increasing(ids)
      ensures forall id | id in ids :: id in rows && rows[id].ciphertext.Some? && rows[id].wrapped.Some?
    {
      OrderIs(rest, Eligible(rows, cursor));
      ids := SelectAfter(rows, cursor, batch);
      forall id | id in ids ensures id in rest {}
    }

    /** One transaction of the rewrap: every listed row, or on the first failure none of them. */
    method RewrapBatch(cipher: Cipher, refused: set<Id>, nonces: Id -> nat, ids: seq<Id>) returns (failed: Option<Id>)
      requires cipher.Valid() && Increasing(ids)
      requires forall id | id in ids :: id in rows && rows[id].wrapped.Some?
      modifies this
      ensures failed.None? ==>
        && (forall id | id in ids :: id in RewrappableIds(cipher.provider, old(rows), refused))
        && rows == Mix(old(rows), RewrapTarget(cipher.provider, nonces, old(rows)), ids)
      ensures failed.Some? ==>
        && rows == old(rows)
        && exists i: nat :: FirstBad(RewrappableIds(cipher.provider, rows, refused), ids, 0, failed.value, i)
    {
      var tx := rows;
      for i := 0 to |ids|
        invariant rows == old(rows)
        invariant forall id | id in ids[..i] :: id in RewrappableIds(cipher.provider, rows, refused)
        invariant tx == Mix(rows, RewrapTarget(cipher.provider, nonces, rows), ids[..i])
      {
        var id := ids[i];
        assert id in ids && id !in ids[..i];
        var r := cipher.Rewrap(rows[id].wrapped.value, nonces(id));
        RewrapIsTarget(cipher.provider, nonces(id), rows[id].wrapped.value);
        if r.None? || id in refused {
          assert FirstBad(RewrappableIds(cipher.provider, rows, refused), ids, 0, id, i);
          return Some(id);
        }
        OneMoreRewrapped(cipher.provider, nonces, rows, ids, i);
        tx := tx[id := tx[id].(wrapped := Some(r.value.0), keyRef := Some(r.value.1))];
      }
      assert ids[..|ids|] == ids;
      rows := tx;
      return None;
    }

    /**
     The drain loop. `budget` is how many batches are committed before the process is killed or a query fails;
     `refused` are the rows whose UPDATE the database refuses. However it ends, the rows rewrapped are
     a prefix of the initially stale ones; it ends normally once that prefix is all of them.
     */
    method RewrapTable(cipher: Cipher, refused: set<Id>, nonces: Id -> nat, active: string, batch: nat, budget: nat,
        ghost todo: seq<Id>)
      returns (total: nat, outcome: Outcome)
      requires cipher.Valid() && active == cipher.provider.keyRef && batch >= 1
      requires OrderOf(todo, Stale(rows, active))
      modifies this
      ensures Progress(old(rows), RewrapTarget(cipher.provider, nonces, old(rows)),
                       RewrappableIds(cipher.provider, old(rows), refused), rows, todo, total)
      ensures Ending(RewrappableIds(cipher.provider, old(rows), refused), todo, batch, budget, total, outcome)
    {
      ghost var start := rows;
      total := 0;
      var n := 0;
      while n < budget
        invariant n <= budget && n <= total
        invariant Progress(start, RewrapTarget(cipher.provider, nonces, start),
                           RewrappableIds(cipher.provider, start, refused), rows, todo, total)
        invariant total == Taken(|todo|, batch, n)
      {
        var taken, ended := RewrapPass(cipher, refused, nonces, active, batch, start, todo, total);
        if ended.Some? {
          return total, ended.value;
        }
        total := total + taken;
        n := n + 1;
      }
      return total, Interrupted;
    }

    /** One turn of the loop: the query, then one transaction over what it returned. */
    method RewrapPass(cipher: Cipher, refused: set<Id>, nonces: Id -> nat, active: string, batch: nat,
        ghost start: Rows, ghost todo: seq<Id>, ghost k: nat)
      returns (taken: nat, ended: Option<Outcome>)
      requires cipher.Valid() && active == cipher.provider.keyRef && batch >= 1
      requires OrderOf(todo, Stale(start, active))
      requires Progress(start, RewrapTarget(cipher.provider, nonces, start),
                        RewrappableIds(cipher.provider, start, refused), rows, todo, k)
      modifies this
      ensures ended.None? ==> taken == Least2(batch, |todo| - k) && taken > 0
      ensures ended.Some? ==> taken == 0 && rows == old(rows)
      ensures Progress(start, RewrapTarget(cipher.provider, nonces, start),
                       RewrappableIds(cipher.provider, start, refused), rows, todo, k + taken)
      ensures ended.Some? ==> Ended(RewrappableIds(cipher.provider, start, refused), todo, batch, k, ended.value)
    {
      ghost var p, before := cipher.provider, rows;
      StillStale(p, refused, nonces, start, rows, todo, k);
      var ids := QueryStale(active, batch, todo[k..]);
      if |ids| == 0 {
        return 0, Some(Done);
      }
      var failed := RewrapBatch(cipher, refused, nonces, ids);
      if failed.Some? {
        RewrapFailed(p, refused, nonces, start, rows, todo, k, batch, ids, failed.value);
        return 0, Some(Failed(failed.value));
      }
      taken := |ids|;
      RewrapCommitted(p, refused, nonces, start, before, todo, k, batch, ids, rows, k + taken);
      ended := None;
    }

    /** One transaction of the reindex: every listed row, or on the first failure none of them. */
    method ReindexBatch(cipher: Cipher, refused: set<Id>, ids: seq<Id>, clock: int) returns (failed: Option<Id>)
      requires cipher.Valid() && Increasing(ids)
      requires forall id | id in ids :: id in rows && rows[id].ciphertext.Some? && rows[id].wrapped.Some?
      modifies this, cipher.cache
      ensures cipher.Valid()
      ensures failed.None? ==>
        && (forall id | id in ids :: id in ReadableIds(cipher.provider, old(rows), refused))
        && rows == Mix(old(rows), ReindexTarget(cipher.provider, cipher.index, old(rows)), ids)
      ensures failed.Some? ==>
        && rows == old(rows)
        && exists i: nat :: FirstBad(ReadableIds(cipher.provider, rows, refused), ids, 0, failed.value, i)
    {
      var tx := rows;
      for i := 0 to |ids|
        invariant rows == old(rows) && cipher.Valid()
        invariant forall id | id in ids[..i] :: id in ReadableIds(cipher.provider, rows, refused)
        invariant tx == Mix(rows, ReindexTarget(cipher.provider, cipher.index, rows), ids[..i])
      {
        var id := ids[i];
        assert id in ids && id !in ids[..i];
        var plain := cipher.Open(rows[id].ciphertext.value, rows[id].wrapped.value, clock, clock);
        if plain.None? || id in refused {
          assert FirstBad(ReadableIds(cipher.provider, rows, refused), ids, 0, id, i);
          return Some(id);
        }
        OneMoreIndexed(cipher.provider, cipher.index, rows, ids, i);
        tx := tx[id := tx[id].(blind := Some(cipher.BlindIndex(plain.value)))];
      }
      assert ids[..|ids|] == ids;
      rows := tx;
      return None;
    }

    /**
     The keyset loop: it visits the eligible rows in id order, each once, and recomputes their index.
     A row whose id is the nil UUID lies on the initial cursor and is never visited.
     */
    method ReindexTable(cipher: Cipher, refused: set<Id>, batch: nat, budget: nat, clock: int, ghost todo: seq<Id>)
      returns (total: nat, outcome: Outcome)
      requires cipher.Valid() && batch >= 1 && OrderOf(todo, Eligible(rows, 0))
      modifies this, cipher.cache
      ensures cipher.Valid()
      ensures Progress(old(rows), ReindexTarget(cipher.provider, cipher.index, old(rows)),
                       ReadableIds(cipher.provider, old(rows), refused), rows, todo, total)
      ensures Ending(ReadableIds(cipher.provider, old(rows), refused), todo, batch, budget, total, outcome)
    {
      ghost var start := rows;
      var cursor: Id := 0;
      total := 0;
      var n := 0;
      while n < budget
        invariant n <= budget && n <= total && cipher.Valid()
        invariant Progress(start, ReindexTarget(cipher.provider, cipher.index, start),
                           ReadableIds(cipher.provider, start, refused), rows, todo, total)
        invariant cursor == CursorAt(todo, total)
        invariant total == Taken(|todo|, batch, n)
      {
        var taken, next, ended := ReindexPass(cipher, refused, cursor, batch, clock, start, todo, total);
        total := total + taken;
        if ended.Some? {
          return total, ended.value;
        }
        cursor := next;
        n := n + 1;
      }
      return total, Interrupted;
    }

    method ReindexPass(cipher: Cipher, refused: set<Id>, cursor: Id, batch: nat, clock: int,
        ghost start: Rows, ghost todo: seq<Id>, ghost k: nat)
      returns (taken: nat, next: Id, ended: Option<Outcome>)
      requires cipher.Valid() && batch >= 1 && OrderOf(todo, Eligible(start, 0)) && cursor == CursorAt(todo, k)
      requires Progress(start, ReindexTarget(cipher.provider, cipher.index, start),
                        ReadableIds(cipher.provider, start, refused), rows, todo, k)
      modifies this, cipher.cache
      ensures cipher.Valid()
      ensures ended.None? ==> taken == Least2(batch, |todo| - k) && taken > 0 && next == CursorAt(todo, k + taken)
      ensures ended.Some? ==> taken == 0 && rows == old(rows)
      ensures Progress(start, ReindexTarget(cipher.provider, cipher.index, start),
                       ReadableIds(cipher.provider, start, refused), rows, todo, k + taken)
      ensures ended.Some? ==> Ended(ReadableIds(cipher.provider, start, refused), todo, batch, k, ended.value)
    {
      ghost var p, before, index := cipher.provider, rows, cipher.index;
      StillAhead(p, refused, index, start, rows, todo, k);
      var ids := QueryAfter(cursor, batch, todo[k..]);
      if |ids| == 0 {
        return 0, cursor, Some(Done);
      }
      var failed := ReindexBatch(cipher, refused, ids, clock);
      if failed.Some? {
        ReindexFailed(p, refused, index, start, rows, todo, k, batch, ids, failed.value);
        return 0, cursor, Some(Failed(failed.value));
      }
      taken := |ids|;
      ReindexCommitted(p, refused, index, start, before, todo, k, batch, ids, rows, k + taken);
      next, ended := ids[taken - 1], None;
    }
  }
}
