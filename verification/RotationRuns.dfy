/**
 Whole rotations as runs of a state machine: application writes and erasures interleave with the rewrap
 tool, which reads a batch outside any transaction and later commits it by id alone
 (cmd/oikumenea/rewrap.go:176-217), while operators promote and retire keys.
 */
module RotationRuns {
  import opened Wrappers
  import opened Envelope
  import opened Octets
  import opened Rotation
  import opened RotationLaws

  /** What a batch read: the table, the keys the tool runs with, and each row's wrapped DEK as it stood then. */
  datatype Batch = Batch(table: nat, provider: Provider, wrapped: map<Id, Blob>)

  /** `drained` are the tables whose loop has returned normally since the last promotion; `truth` is history. */
  datatype World = World(
    tables: seq<Rows>,
    provider: Provider,
    pending: Option<Batch>,
    drained: set<nat>,
    truth: map<(nat, Id), Bytes>)

  datatype Step =
    | Store(table: nat, id: Id, plaintext: Bytes, dek: Dek, valueNonce: nat, wrapNonce: nat, blind: Bytes)
    | Erase(table: nat, id: Id, keepRef: bool)
    | Delete(table: nat, id: Id)
    | Fetch(table: nat, limit: nat)
    | Commit(nonces: Id -> nat)
    | Abort
    | Promote(kek: Bytes)
    | Retire

  function Put(rows: Rows, id: Id, r: Row): Rows {
    rows[id := r]
  }

  function Erased(r: Row, keepRef: bool): Row {
    r.(ciphertext := None, wrapped := None, keyRef := if keepRef then r.keyRef else None,
       blind := if keepRef then r.blind else None)
  }

  function Snapshot(rows: Rows, ids: seq<Id>): map<Id, Blob> {
    map id | id in ids && id in rows && rows[id].wrapped.Some? :: rows[id].wrapped.value
  }

  /** The batch's UPDATEs, matched by id alone; a row deleted meanwhile is not matched. */
  function Written(p: Provider, nonces: Id -> nat, rows: Rows, read: map<Id, Blob>): Rows {
    map id | id in rows ::
      if id in read && Rewrapped(p, nonces(id), read[id]).Some?
      then var (w, ref) := Rewrapped(p, nonces(id), read[id]).value;
           rows[id].(wrapped := Some(w), keyRef := Some(ref))
      else rows[id]
  }

  predicate AllUnwrap(p: Provider, read: map<Id, Blob>) {
    forall id | id in read :: Rewrapped(p, 0, read[id]).Some?
  }

  /** The batch in flight can be rewrapped throughout; otherwise its transaction rolls back. */
  predicate GoesThrough(w: World) {
    && w.pending.Some? && w.pending.value.table < |w.tables|
    && AllUnwrap(w.pending.value.provider, w.pending.value.wrapped)
  }

  function Next(fp: Bytes -> string, w: World, step: Step): World {
    match step
    case Store(t, id, plaintext, dek, vn, wn, blind) =>
      if t >= |w.tables| then w else
        (match SealWith(w.provider, dek, vn, wn, plaintext)
         case None => w
         case Some(s) =>
           var row := Row(Some(s.ciphertext), Some(s.wrapped), Some(s.keyRef), Some(blind));
           w.(tables := w.tables[t := Put(w.tables[t], id, row)], truth := w.truth[(t, id) := plaintext]))
    case Erase(t, id, keepRef) =>
      if t < |w.tables| && id in w.tables[t]
      then w.(tables := w.tables[t := Put(w.tables[t], id, Erased(w.tables[t][id], keepRef))]) else w
    case Delete(t, id) =>
      if t < |w.tables| then w.(tables := w.tables[t := w.tables[t] - {id}]) else w
    case Fetch(t, limit) =>
      if t >= |w.tables| || w.pending.Some? || limit == 0 then w else
        var ids := SelectStale(w.tables[t], w.provider.keyRef, limit);
        if ids == [] then w.(drained := w.drained + {t})
        else w.(pending := Some(Batch(t, w.provider, Snapshot(w.tables[t], ids))))
    case Commit(nonces) =>
      if !GoesThrough(w) then w.(pending := None) else
        var b := w.pending.value;
        var after := Written(b.provider, nonces, w.tables[b.table], b.wrapped);
        w.(tables := w.tables[b.table := after], pending := None)
    case Abort => w.(pending := None)
    case Promote(kek) =>
      if |kek| != KEK_LEN then w
      else w.(provider := Provider(kek, [kek] + w.provider.keks, fp(kek)), drained := {})
    case Retire => w.(provider := ActiveOnly(w.provider))
  }

  function Run(fp: Bytes -> string, w: World, steps: seq<Step>): World
    decreases |steps|
  {
    if steps == [] then w else Run(fp, Next(fp, w, steps[0]), steps[1..])
  }

  lemma {:induction false} RunSnoc(fp: Bytes -> string, w: World, steps: seq<Step>, k: nat)
    requires k < |steps|
    ensures Run(fp, w, steps[..k + 1]) == Next(fp, Run(fp, w, steps[..k]), steps[k])
    decreases k
  {
    if k > 0 {
      assert steps[..k + 1][1..] == steps[1..][..k] && steps[..k][1..] == steps[1..][..k - 1];
      RunSnoc(fp, Next(fp, w, steps[0]), steps[1..], k - 1);
    }
  }

  /** With nothing in between, a fetch and its commit are the tool's one transaction over that batch. */
  lemma FetchCommitIsBatch(p: Provider, nonces: Id -> nat, rows: Rows, limit: nat)
    requires p.Valid()
    requires forall id | id in SelectStale(rows, p.keyRef, limit) :: id in RewrappableIds(p, rows, {})
    ensures var ids := SelectStale(rows, p.keyRef, limit);
      && AllUnwrap(p, Snapshot(rows, ids))
      && Written(p, nonces, rows, Snapshot(rows, ids)) == Mix(rows, RewrapTarget(p, nonces, rows), ids)
  {
    var ids := SelectStale(rows, p.keyRef, limit);
    forall id | id in rows && id in ids ensures id in Snapshot(rows, ids) && Rewrappable(p, rows[id]) {
      assert id in RewrappableIds(p, rows, {});
      RewrapIsTarget(p, nonces(id), rows[id].wrapped.value);
    }
    forall id | id in Snapshot(rows, ids) ensures Rewrapped(p, 0, Snapshot(rows, ids)[id]).Some? {
      RewrapIsTarget(p, 0, rows[id].wrapped.value);
    }
  }

  // ------------------------------------------------------------------ what every readable row satisfies

  /** A DEK wrapped under a key the provider still has. */
  ghost predicate Held(p: Provider, wrapped: Blob) {
    wrapped.Box? && wrapped.key in p.keks && |wrapped.plain| == DEK_LEN
  }

  ghost predicate RowOk(p: Provider, r: Row, truth: Option<Bytes>) {
    r.ciphertext.Some? ==>
      && r.wrapped.Some? && Held(p, r.wrapped.value) && truth.Some?
      && r.ciphertext.value.Box?
      && r.ciphertext.value.key == r.wrapped.value.plain
      && r.ciphertext.value.plain == truth.value
  }

  function TruthOf(w: World, t: nat, id: Id): Option<Bytes> {
    if (t, id) in w.truth then Some(w.truth[(t, id)]) else None
  }

  ghost predicate RowsOk(w: World) {
    forall t: nat, id | t < |w.tables| && id in w.tables[t] :: RowOk(w.provider, w.tables[t][id], TruthOf(w, t, id))
  }

  ghost predicate Sound(w: World) {
    && w.provider.Valid() && RowsOk(w)
    && (w.pending.Some? ==> w.pending.value.table < |w.tables| && w.pending.value.provider.Valid())
  }

  /** Every row that has not been erased opens to the plaintext last stored in it. */
  ghost predicate AllRead(w: World) {
    forall t: nat, id | t < |w.tables| && id in w.tables[t] && w.tables[t][id].ciphertext.Some? ::
      (t, id) in w.truth && Plaintext(w.provider, w.tables[t][id]) == Some(w.truth[(t, id)])
  }

  lemma SoundReads(w: World)
    requires Sound(w)
    ensures AllRead(w)
  {
  }

  /** A new installation is sound, and its bookkeeping right. */
  lemma EmptyTablesAreSafe(fp: Bytes -> string, keys: set<Bytes>, p: Provider, tables: seq<Rows>)
    requires p.Valid() && ProviderOk(fp, keys, p)
    requires forall t: nat | t < |tables| :: tables[t] == map[]
    ensures Inv(fp, keys, World(tables, p, None, {}, map[]))
  {
  }

  // ------------------------------------------------------------------ one step

  predicate SameDek(a: Blob, b: Blob) {
    a.Box? && b.Box? && a.plain == b.plain
  }

  /**
   Each readable row of the batch in flight still has the DEK the batch read, and the key it would be
   wrapped under is one the applications hold.
   */
  ghost predicate BatchCurrent(w: World) {
    w.pending.Some? && w.pending.value.table < |w.tables| ==>
      var b := w.pending.value;
      forall id | id in b.wrapped && id in w.tables[b.table] && w.tables[b.table][id].ciphertext.Some? ::
        && w.tables[b.table][id].wrapped.Some? && SameDek(w.tables[b.table][id].wrapped.value, b.wrapped[id])
        && b.provider.active in w.provider.keks
  }

  ghost predicate UnderActive(p: Provider, r: Row) {
    r.wrapped.Some? && r.wrapped.value.Box? && r.wrapped.value.key == p.active
  }

  ghost predicate AllUnderActive(w: World) {
    forall t: nat, id | t < |w.tables| && id in w.tables[t] && w.tables[t][id].ciphertext.Some? ::
      UnderActive(w.provider, w.tables[t][id])
  }

  /** Only two steps can cost a row: a commit out of date, and dropping a key still needed. */
  ghost predicate Harmless(w: World, step: Step) {
    match step
    case Commit(_) => GoesThrough(w) ==> BatchCurrent(w)
    case Retire => AllUnderActive(w)
    case _ => true
  }

  lemma StoreKeeps(fp: Bytes -> string, w: World, step: Step)
    requires Sound(w) && step.Store?
    ensures Sound(Next(fp, w, step))
  {
    var w' := Next(fp, w, step);
    assert w.provider.active in w.provider.keks;
    forall t: nat, id | t < |w'.tables| && id in w'.tables[t]
      ensures RowOk(w'.provider, w'.tables[t][id], TruthOf(w', t, id))
    {
      if (t, id) != (step.table, step.id) {
        assert RowOk(w.provider, w.tables[t][id], TruthOf(w, t, id));
      }
    }
  }

  lemma OthersKeep(fp: Bytes -> string, w: World, step: Step)
    requires Sound(w) && (step.Erase? || step.Delete? || step.Fetch? || step.Abort? || step.Promote?)
    ensures Sound(Next(fp, w, step))
  {
    var w' := Next(fp, w, step);
    forall t: nat, id | t < |w'.tables| && id in w'.tables[t]
      ensures RowOk(w'.provider, w'.tables[t][id], TruthOf(w', t, id))
    {
      assert RowOk(w.provider, w.tables[t][id], TruthOf(w, t, id));
    }
  }

  lemma NonceFree(p: Provider, n: nat, m: nat, wrapped: Blob)
    ensures Rewrapped(p, n, wrapped).Some? <==> Rewrapped(p, m, wrapped).Some?
  {
  }

  /** A row a batch writes back is readable exactly when its DEK is the one read and the key is held. */
  lemma WrittenRowReads(q: Provider, p: Provider, nonces: Id -> nat, rows: Rows, read: map<Id, Blob>, id: Id,
      truth: Option<Bytes>)
    requires q.Valid() && p.Valid() && AllUnwrap(q, read)
    requires id in rows && rows[id].ciphertext.Some? && RowOk(p, rows[id], truth)
    ensures
      var safe := id in read ==> SameDek(rows[id].wrapped.value, read[id]) && q.active in p.keks;
      && (Plaintext(p, Written(q, nonces, rows, read)[id]) == truth <==> safe)
      && (safe ==> RowOk(p, Written(q, nonces, rows, read)[id], truth))
  {
    if id in read {
      NonceFree(q, nonces(id), 0, read[id]);
    }
  }

  lemma CommittedRowReads(fp: Bytes -> string, w: World, nonces: Id -> nat, t: nat, id: Id)
    requires Sound(w) && GoesThrough(w)
    requires t < |w.tables| && id in w.tables[t] && w.tables[t][id].ciphertext.Some?
    ensures w.tables[t][id].wrapped.Some? && (t, id) in w.truth
    ensures
      var w', b := Next(fp, w, Commit(nonces)), w.pending.value;
      var safe := t == b.table && id in b.wrapped ==>
        SameDek(w.tables[t][id].wrapped.value, b.wrapped[id]) && b.provider.active in w.provider.keks;
      && (Plaintext(w'.provider, w'.tables[t][id]) == Some(w.truth[(t, id)]) <==> safe)
      && (safe ==> RowOk(w'.provider, w'.tables[t][id], TruthOf(w', t, id)))
  {
    assert RowOk(w.provider, w.tables[t][id], TruthOf(w, t, id));
    var b := w.pending.value;
    if t == b.table {
      WrittenRowReads(b.provider, w.provider, nonces, w.tables[t], b.wrapped, id, TruthOf(w, t, id));
    }
  }

  /**
   A commit keeps every row readable exactly when it rolls back, or each readable row of the batch still has
   the DEK the batch read: the UPDATE matches on id alone, so it would put back the old DEK under a new ciphertext.
   */
  lemma CommitSafeIff(fp: Bytes -> string, w: World, nonces: Id -> nat)
    requires Sound(w)
    ensures AllRead(Next(fp, w, Commit(nonces))) <==> (GoesThrough(w) ==> BatchCurrent(w))
    ensures AllRead(Next(fp, w, Commit(nonces))) ==> Sound(Next(fp, w, Commit(nonces)))
  {
    var w' := Next(fp, w, Commit(nonces));
    if GoesThrough(w) {
      var b := w.pending.value;
      forall t: nat, id | t < |w.tables| && id in w.tables[t] && w.tables[t][id].ciphertext.Some?
        ensures w.tables[t][id].wrapped.Some? && (t, id) in w.truth
        ensures Plaintext(w'.provider, w'.tables[t][id]) == Some(w.truth[(t, id)]) <==>
          (t == b.table && id in b.wrapped ==>
             SameDek(w.tables[t][id].wrapped.value, b.wrapped[id]) && b.provider.active in w.provider.keks)
      {
        CommittedRowReads(fp, w, nonces, t, id);
      }
      CurrentIffRead(fp, w, nonces);
      if AllRead(w') { CommitKeeps(fp, w, nonces); }
    } else {
      SoundReads(w);
    }
  }

  lemma CurrentIffRead(fp: Bytes -> string, w: World, nonces: Id -> nat)
    requires Sound(w) && GoesThrough(w)
    requires var w', b := Next(fp, w, Commit(nonces)), w.pending.value;
      forall t: nat, id | t < |w.tables| && id in w.tables[t] && w.tables[t][id].ciphertext.Some? ::
        && w.tables[t][id].wrapped.Some? && (t, id) in w.truth
        && (Plaintext(w'.provider, w'.tables[t][id]) == Some(w.truth[(t, id)]) <==>
              (t == b.table && id in b.wrapped ==>
                 SameDek(w.tables[t][id].wrapped.value, b.wrapped[id]) && b.provider.active in w.provider.keks))
    ensures AllRead(Next(fp, w, Commit(nonces))) <==> BatchCurrent(w)
  {
    var w', b := Next(fp, w, Commit(nonces)), w.pending.value;
    assert BatchCurrent(w) ==> AllRead(w');
    if AllRead(w') {
      forall id | id in b.wrapped && id in w.tables[b.table] && w.tables[b.table][id].ciphertext.Some?
        ensures SameDek(w.tables[b.table][id].wrapped.value, b.wrapped[id]) && b.provider.active in w.provider.keks
      {
        assert w'.tables[b.table][id].ciphertext.Some?;
      }
    }
  }

  lemma CommitKeeps(fp: Bytes -> string, w: World, nonces: Id -> nat)
    requires Sound(w) && GoesThrough(w) && BatchCurrent(w)
    ensures Sound(Next(fp, w, Commit(nonces)))
  {
    var w' := Next(fp, w, Commit(nonces));
    forall t: nat, id | t < |w'.tables| && id in w'.tables[t]
      ensures RowOk(w'.provider, w'.tables[t][id], TruthOf(w', t, id))
    {
      if w.tables[t][id].ciphertext.Some? { CommittedRowReads(fp, w, nonces, t, id); }
    }
  }

  /** Dropping the previous keys keeps every row readable exactly when each is wrapped under the active one. */
  lemma RetireSafeIff(fp: Bytes -> string, w: World)
    requires Sound(w)
    ensures AllRead(Next(fp, w, Retire)) <==> AllUnderActive(w)
    ensures AllUnderActive(w) ==> Sound(Next(fp, w, Retire))
  {
    var w' := Next(fp, w, Retire);
    forall t: nat, id | t < |w.tables| && id in w.tables[t] && w.tables[t][id].ciphertext.Some?
      ensures (t, id) in w.truth
      ensures Plaintext(w'.provider, w'.tables[t][id]) == Some(w.truth[(t, id)]) <==>
        UnderActive(w.provider, w.tables[t][id])
      ensures UnderActive(w.provider, w.tables[t][id]) ==>
        RowOk(w'.provider, w'.tables[t][id], TruthOf(w', t, id))
    {
      assert RowOk(w.provider, w.tables[t][id], TruthOf(w, t, id));
    }
  }

  /** After any step every row still reads exactly when the step is harmless, and then the state is sound again. */
  lemma StepSafeIff(fp: Bytes -> string, w: World, step: Step)
    requires Sound(w)
    ensures AllRead(Next(fp, w, step)) <==> Harmless(w, step)
    ensures Harmless(w, step) ==> Sound(Next(fp, w, step))
  {
    match step
    case Store(_, _, _, _, _, _, _) => StoreKeeps(fp, w, step); SoundReads(Next(fp, w, step));
    case Commit(nonces) => CommitSafeIff(fp, w, nonces);
    case Retire => RetireSafeIff(fp, w);
    case _ => OthersKeep(fp, w, step); SoundReads(Next(fp, w, step));
  }

  // ------------------------------------------------------------------ whole runs

  ghost predicate SoundAt(fp: Bytes -> string, w: World, steps: seq<Step>, k: nat)
    requires k <= |steps|
  {
    Sound(Run(fp, w, steps[..k]))
  }

  ghost predicate ReadsAt(fp: Bytes -> string, w: World, steps: seq<Step>, k: nat)
    requires k <= |steps|
  {
    AllRead(Run(fp, w, steps[..k]))
  }

  ghost predicate HarmlessAt(fp: Bytes -> string, w: World, steps: seq<Step>, k: nat)
    requires k < |steps|
  {
    Harmless(Run(fp, w, steps[..k]), steps[k])
  }

  ghost predicate ReadsThroughout(fp: Bytes -> string, w: World, steps: seq<Step>) {
    forall k | 0 <= k <= |steps| :: ReadsAt(fp, w, steps, k)
  }

  ghost predicate AllHarmless(fp: Bytes -> string, w: World, steps: seq<Step>) {
    forall k | 0 <= k < |steps| :: HarmlessAt(fp, w, steps, k)
  }

  lemma PointIff(fp: Bytes -> string, w: World, steps: seq<Step>, k: nat)
    requires k < |steps| && SoundAt(fp, w, steps, k)
    ensures ReadsAt(fp, w, steps, k + 1) <==> HarmlessAt(fp, w, steps, k)
    ensures HarmlessAt(fp, w, steps, k) ==> SoundAt(fp, w, steps, k + 1)
  {
    RunSnoc(fp, w, steps, k);
    StepSafeIff(fp, Run(fp, w, steps[..k]), steps[k]);
  }

  lemma {:induction false} SoundUpTo(fp: Bytes -> string, w: World, steps: seq<Step>, n: nat)
    requires Sound(w) && n <= |steps|
    requires forall k | 0 <= k < n :: ReadsAt(fp, w, steps, k + 1) || HarmlessAt(fp, w, steps, k)
    ensures forall k | 0 <= k <= n :: SoundAt(fp, w, steps, k)
  {
    if n > 0 {
      SoundUpTo(fp, w, steps, n - 1);
      PointIff(fp, w, steps, n - 1);
    } else {
      assert Run(fp, w, steps[..0]) == w;
    }
  }

  lemma HarmlessReads(fp: Bytes -> string, w: World, steps: seq<Step>)
    requires Sound(w) && AllHarmless(fp, w, steps)
    ensures ReadsThroughout(fp, w, steps) && Sound(Run(fp, w, steps))
  {
    SoundUpTo(fp, w, steps, |steps|);
    forall k | 0 <= k <= |steps| ensures ReadsAt(fp, w, steps, k) {
      assert SoundAt(fp, w, steps, k);
      SoundReads(Run(fp, w, steps[..k]));
    }
    assert steps[..|steps|] == steps && SoundAt(fp, w, steps, |steps|);
  }

  /**
   Rotation safety, exactly: along any run whatever, every row not erased opens at every point to what was
   last stored in it if and only if each commit that goes through finds its batch current and keys are
   dropped only when every such row is under the active one.
   */
  lemma RunSafeIff(fp: Bytes -> string, w: World, steps: seq<Step>)
    requires Sound(w)
    ensures ReadsThroughout(fp, w, steps) <==> AllHarmless(fp, w, steps)
  {
    if ReadsThroughout(fp, w, steps) {
      forall k | 0 <= k < |steps| ensures HarmlessAt(fp, w, steps, k) {
        SoundUpTo(fp, w, steps, k);
        PointIff(fp, w, steps, k);
      }
    }
    if AllHarmless(fp, w, steps) {
      HarmlessReads(fp, w, steps);
    }
  }

  // ------------------------------------------------------------------ draining

  ghost predicate InjectiveOn(fp: Bytes -> string, keys: set<Bytes>) {
    forall a, b | a in keys && b in keys && fp(a) == fp(b) :: a == b
  }

  ghost predicate ProviderOk(fp: Bytes -> string, keys: set<Bytes>, p: Provider) {
    p.keyRef == fp(p.active) && p.active in keys
  }

  /** A wrapped DEK's key is one of those in play, and key_ref, when present, is its fingerprint. */
  ghost predicate Labelled(fp: Bytes -> string, keys: set<Bytes>, r: Row) {
    r.wrapped.Some? ==>
      && r.wrapped.value.Box? && r.wrapped.value.key in keys
      && (r.keyRef.Some? ==> r.keyRef.value == fp(r.wrapped.value.key))
  }

  ghost predicate AllLabelled(fp: Bytes -> string, keys: set<Bytes>, w: World) {
    forall t: nat, id | t < |w.tables| && id in w.tables[t] :: Labelled(fp, keys, w.tables[t][id])
  }

  ghost predicate DrainedOk(w: World) {
    forall t | t in w.drained :: t < |w.tables| && Stale(w.tables[t], w.provider.keyRef) == {}
  }

  /** What a run keeps whatever its steps are, harmless or not. */
  ghost predicate Tracked(fp: Bytes -> string, keys: set<Bytes>, w: World) {
    && ProviderOk(fp, keys, w.provider) && AllLabelled(fp, keys, w) && DrainedOk(w)
    && (w.pending.Some? ==>
          && ProviderOk(fp, keys, w.pending.value.provider)
          && (w.pending.value.provider.keyRef == w.provider.keyRef || w.drained == {}))
  }

  predicate PromotesWithin(keys: set<Bytes>, step: Step) {
    step.Promote? ==> step.kek in keys
  }

  lemma FewerStale(before: Rows, after: Rows, active: string)
    requires Stale(before, active) == {}
    requires forall id | id in after && IsStale(after[id], active) :: id in before && IsStale(before[id], active)
    ensures Stale(after, active) == {}
  {
    forall id | id in after ensures !IsStale(after[id], active) {
      assert id !in Stale(before, active);
    }
  }

  lemma StepLabels(fp: Bytes -> string, keys: set<Bytes>, w: World, step: Step)
    requires Tracked(fp, keys, w)
    ensures AllLabelled(fp, keys, Next(fp, w, step))
  {
    var w' := Next(fp, w, step);
    forall t: nat, id | t < |w'.tables| && id in w'.tables[t] ensures Labelled(fp, keys, w'.tables[t][id]) {
      if id in w.tables[t] { assert Labelled(fp, keys, w.tables[t][id]); }
    }
  }

  /** A step leaves a drained table drained, unless it promotes a key. */
  lemma StaysDrained(fp: Bytes -> string, keys: set<Bytes>, w: World, step: Step, t: nat)
    requires Tracked(fp, keys, w) && t in w.drained && !step.Promote?
    ensures t < |Next(fp, w, step).tables| && Stale(Next(fp, w, step).tables[t], w.provider.keyRef) == {}
  {
    FewerStale(w.tables[t], Next(fp, w, step).tables[t], w.provider.keyRef);
  }

  lemma StepDrains(fp: Bytes -> string, keys: set<Bytes>, w: World, step: Step)
    requires Tracked(fp, keys, w)
    ensures DrainedOk(Next(fp, w, step))
  {
    var w' := Next(fp, w, step);
    forall t | t in w'.drained ensures t < |w'.tables| && Stale(w'.tables[t], w'.provider.keyRef) == {} {
      if step.Promote? {
        assert w' == w;
      } else if t in w.drained {
        StaysDrained(fp, keys, w, step, t);
      } else {
        InOrderIs(Stale(w.tables[t], w.provider.keyRef));
      }
    }
  }

  lemma StepTracked(fp: Bytes -> string, keys: set<Bytes>, w: World, step: Step)
    requires Tracked(fp, keys, w) && PromotesWithin(keys, step)
    ensures Tracked(fp, keys, Next(fp, w, step))
  {
    StepLabels(fp, keys, w, step);
    StepDrains(fp, keys, w, step);
  }

  lemma {:induction false} RunTracked(fp: Bytes -> string, keys: set<Bytes>, w: World, steps: seq<Step>)
    requires Tracked(fp, keys, w) && forall step | step in steps :: PromotesWithin(keys, step)
    ensures Tracked(fp, keys, Run(fp, w, steps))
    decreases |steps|
  {
    if steps != [] {
      StepTracked(fp, keys, w, steps[0]);
      RunTracked(fp, keys, Next(fp, w, steps[0]), steps[1..]);
    }
  }

  /** In a drained table, with distinct fingerprints, every DEK is already under the active key. */
  lemma DrainedUnderActive(fp: Bytes -> string, keys: set<Bytes>, w: World, t: nat, id: Id)
    requires Tracked(fp, keys, w) && InjectiveOn(fp, keys)
    requires t in w.drained && id in w.tables[t] && w.tables[t][id].wrapped.Some?
    ensures w.tables[t][id].wrapped.value.Box? && w.tables[t][id].wrapped.value.key == w.provider.active
  {
    assert Labelled(fp, keys, w.tables[t][id]);
    assert id !in Stale(w.tables[t], w.provider.keyRef);
  }

  ghost predicate AllDrained(w: World) {
    forall t: nat | t < |w.tables| :: t in w.drained
  }

  lemma AllDrainedUnderActive(fp: Bytes -> string, keys: set<Bytes>, w: World)
    requires Sound(w) && Tracked(fp, keys, w) && InjectiveOn(fp, keys)
    requires AllDrained(w)
    ensures AllUnderActive(w)
  {
    forall t: nat, id | t < |w.tables| && id in w.tables[t] && w.tables[t][id].ciphertext.Some?
      ensures UnderActive(w.provider, w.tables[t][id])
    {
      assert RowOk(w.provider, w.tables[t][id], TruthOf(w, t, id));
      DrainedUnderActive(fp, keys, w, t, id);
    }
  }

  /** Once every table has drained, a provider rebuilt with the active key alone opens every row. */
  lemma DrainedThenActiveSuffices(fp: Bytes -> string, keys: set<Bytes>, w: World, steps: seq<Step>)
    requires Sound(w) && Tracked(fp, keys, w) && InjectiveOn(fp, keys)
    requires forall step | step in steps :: PromotesWithin(keys, step)
    requires AllHarmless(fp, w, steps)
    requires AllDrained(Run(fp, w, steps))
    ensures AllRead(Run(fp, w, steps).(provider := ActiveOnly(Run(fp, w, steps).provider)))
  {
    var v := Run(fp, w, steps);
    HarmlessReads(fp, w, steps);
    RunTracked(fp, keys, w, steps);
    AllDrainedUnderActive(fp, keys, v);
    RetireSafeIff(fp, v);
  }

  /**
   Draining is a proof of being under the active key only as far as key_ref tells keys apart: a row whose
   key collides with the active one in its fingerprint is never selected, and is lost on retirement.
   */
  lemma CollisionEscapesDrain(fp: Bytes -> string, keys: set<Bytes>, w: World, t: nat, id: Id)
    requires Sound(w) && Tracked(fp, keys, w)
    requires t < |w.tables| && id in w.tables[t] && w.tables[t][id].ciphertext.Some?
    requires w.tables[t][id].wrapped.Some? && w.tables[t][id].wrapped.value.Box?
    requires w.tables[t][id].wrapped.value.key != w.provider.active
    requires fp(w.tables[t][id].wrapped.value.key) == w.provider.keyRef && w.tables[t][id].keyRef.Some?
    ensures id !in Stale(w.tables[t], w.provider.keyRef)
    ensures !AllRead(Next(fp, w, Retire))
  {
    assert Labelled(fp, keys, w.tables[t][id]);
    RetireSafeIff(fp, w);
  }

  // ------------------------------------------------------------------ a discipline that suffices

  /**
   Enough, though more than is needed: a row is not rewritten while a batch that read it is in flight, and a
   previous key is dropped only between batches and when every table has drained.
   */
  ghost predicate Allowed(keys: set<Bytes>, w: World, step: Step) {
    match step
    case Store(t, id, _, _, _, _, _) =>
      !(w.pending.Some? && w.pending.value.table == t && id in w.pending.value.wrapped)
    case Promote(kek) => kek in keys
    case Retire => w.pending.None? && AllDrained(w)
    case _ => true
  }

  ghost predicate AllAllowed(fp: Bytes -> string, keys: set<Bytes>, w: World, steps: seq<Step>)
    decreases |steps|
  {
    steps == [] || (Allowed(keys, w, steps[0]) && AllAllowed(fp, keys, Next(fp, w, steps[0]), steps[1..]))
  }

  ghost predicate Inv(fp: Bytes -> string, keys: set<Bytes>, w: World) {
    Sound(w) && Tracked(fp, keys, w) && BatchCurrent(w)
  }

  /** The rows a fetch reads have the DEKs it read. */
  lemma FetchIsCurrent(fp: Bytes -> string, w: World, step: Step)
    requires Sound(w) && BatchCurrent(w) && step.Fetch?
    ensures BatchCurrent(Next(fp, w, step))
  {
    var t := step.table;
    assert w.provider.active in w.provider.keks;
    if t < |w.tables| {
      forall id | id in w.tables[t] && w.tables[t][id].ciphertext.Some?
        ensures w.tables[t][id].wrapped.Some? && w.tables[t][id].wrapped.value.Box?
      {
        assert RowOk(w.provider, w.tables[t][id], TruthOf(w, t, id));
      }
    }
  }

  /** No allowed step outdates the batch in flight. */
  lemma StaysCurrent(fp: Bytes -> string, keys: set<Bytes>, w: World, step: Step)
    requires Sound(w) && BatchCurrent(w) && Allowed(keys, w, step)
    ensures BatchCurrent(Next(fp, w, step))
  {
    if step.Fetch? { FetchIsCurrent(fp, w, step); }
  }

  lemma StepKeeps(fp: Bytes -> string, keys: set<Bytes>, w: World, step: Step)
    requires Inv(fp, keys, w) && Allowed(keys, w, step) && InjectiveOn(fp, keys)
    ensures Inv(fp, keys, Next(fp, w, step)) && Harmless(w, step)
  {
    if step.Retire? { AllDrainedUnderActive(fp, keys, w); }
    StepSafeIff(fp, w, step);
    StepTracked(fp, keys, w, step);
    StaysCurrent(fp, keys, w, step);
  }

  /**
   Under that discipline, through any interleaving of writes, erasures, deletions, batches fetched, committed,
   aborted or killed, promotions and retirements, every row not erased opens to what was last stored in it.
   */
  lemma {:induction false} RotationIsSafe(fp: Bytes -> string, keys: set<Bytes>, w: World, steps: seq<Step>)
    requires Inv(fp, keys, w) && InjectiveOn(fp, keys) && AllAllowed(fp, keys, w, steps)
    ensures Inv(fp, keys, Run(fp, w, steps)) && AllRead(Run(fp, w, steps))
    decreases |steps|
  {
    if steps == [] {
      SoundReads(w);
    } else {
      StepKeeps(fp, keys, w, steps[0]);
      RotationIsSafe(fp, keys, Next(fp, w, steps[0]), steps[1..]);
    }
  }

  // ------------------------------------------------------------------ what races cost

  /** A row rewritten under a new DEK while its batch is in flight is lost, unless the batch rolls back. */
  lemma StoreRacesCommit(fp: Bytes -> string, w: World, step: Step, nonces: Id -> nat)
    requires Sound(w) && step.Store? && w.pending.Some?
    requires step.table == w.pending.value.table && step.id in w.pending.value.wrapped
    requires w.pending.value.wrapped[step.id].Box? ==> w.pending.value.wrapped[step.id].plain != step.dek
    ensures var v := Next(fp, Next(fp, w, step), Commit(nonces));
      && step.id in v.tables[step.table]
      && Plaintext(v.provider, v.tables[step.table][step.id]) == if GoesThrough(w) then None else Some(step.plaintext)
  {
    assert w.provider.active in w.provider.keks;
    if GoesThrough(w) {
      NonceFree(w.pending.value.provider, nonces(step.id), 0, w.pending.value.wrapped[step.id]);
    }
  }

  /** An erasure that races a commit which goes through gets its wrapped DEK back, but not its value. */
  lemma EraseRacesCommit(fp: Bytes -> string, w: World, id: Id, keepRef: bool, nonces: Id -> nat)
    requires Sound(w) && w.pending.Some?
    requires id in w.pending.value.wrapped && id in w.tables[w.pending.value.table]
    ensures
      var t := w.pending.value.table;
      var v := Next(fp, Next(fp, w, Erase(t, id, keepRef)), Commit(nonces));
      && id in v.tables[t] && v.tables[t][id].ciphertext.None?
      && (v.tables[t][id].wrapped.Some? <==> GoesThrough(w))
      && (GoesThrough(w) ==> v.tables[t][id].keyRef == Some(w.pending.value.provider.keyRef))
  {
    if GoesThrough(w) {
      NonceFree(w.pending.value.provider, nonces(id), 0, w.pending.value.wrapped[id]);
    }
  }
}
