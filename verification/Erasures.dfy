/** What becomes of a crypto-erased row (pkg/crypto/crypto.go:50-52) while rotations run over it. */
module Erasures {
  import opened Wrappers
  import opened Envelope
  import opened Octets
  import opened Rotation
  import opened RotationRuns

  /** A row once erased stays unreadable to every provider until something new is stored in it. */
  lemma ErasedStaysErased(fp: Bytes -> string, w: World, steps: seq<Step>, t: nat, id: Id)
    requires t < |w.tables| && id in w.tables[t] && w.tables[t][id].ciphertext.None?
    requires forall i | 0 <= i < |steps| && steps[i].Store? :: !(steps[i].table == t && steps[i].id == id)
    ensures var v := Run(fp, w, steps);
      && t < |v.tables|
      && (id in v.tables[t] ==> forall p :: Plaintext(p, v.tables[t][id]) == None)
  {
    ErasedOrGone(fp, w, steps, t, id);
  }

  lemma {:induction false} ErasedOrGone(fp: Bytes -> string, w: World, steps: seq<Step>, t: nat, id: Id)
    requires t < |w.tables| && (id in w.tables[t] ==> w.tables[t][id].ciphertext.None?)
    requires forall i | 0 <= i < |steps| && steps[i].Store? :: !(steps[i].table == t && steps[i].id == id)
    ensures var v := Run(fp, w, steps); t < |v.tables| && (id in v.tables[t] ==> v.tables[t][id].ciphertext.None?)
    decreases |steps|
  {
    if steps != [] {
      var v := Next(fp, w, steps[0]);
      assert !(steps[0].Store? && steps[0].table == t && steps[0].id == id);
      assert t < |v.tables| && (id in v.tables[t] ==> v.tables[t][id].ciphertext.None?);
      ErasedOrGone(fp, v, steps[1..], t, id);
    }
  }

  // ------------------------------------------------------------------ does an erased DEK stay destroyed?

  /** A row is there and its wrapped DEK is not. */
  ghost predicate Gone(w: World, t: nat, id: Id) {
    t < |w.tables| && id in w.tables[t] && w.tables[t][id].wrapped.None?
  }

  /** A batch in flight has read the row. */
  ghost predicate InFlight(w: World, t: nat, id: Id) {
    w.pending.Some? && w.pending.value.table == t && id in w.pending.value.wrapped
  }

  /** That batch will be written unless aborted. */
  ghost predicate Pending(w: World, t: nat, id: Id) {
    InFlight(w, t, id) && GoesThrough(w)
  }

  /** The step is a commit that succeeds and writes the row. */
  ghost predicate Restores(w: World, step: Step, t: nat, id: Id) {
    step.Commit? && Pending(w, t, id)
  }

  predicate Replaces(step: Step, t: nat, id: Id) {
    (step.Store? && step.table == t && step.id == id) || (step.Delete? && step.table == t && step.id == id)
  }

  ghost predicate NeverReplaced(steps: seq<Step>, t: nat, id: Id) {
    forall i | 0 <= i < |steps| :: !Replaces(steps[i], t, id)
  }

  /** One step brings a destroyed wrapped DEK back exactly when it is a commit of a batch that read it. */
  lemma StepRestoresIff(fp: Bytes -> string, w: World, step: Step, t: nat, id: Id)
    requires Gone(w, t, id) && !Replaces(step, t, id)
    ensures Gone(Next(fp, w, step), t, id) <==> !Restores(w, step, t, id)
  {
    if step.Commit? && Pending(w, t, id) {
      NonceFree(w.pending.value.provider, step.nonces(id), 0, w.pending.value.wrapped[id]);
    }
  }

  /** A commit leaves the wrapped DEK destroyed exactly when its batch had not read the row, or rolls back. */
  lemma CommitRestoresIff(fp: Bytes -> string, w: World, nonces: Id -> nat, t: nat, id: Id)
    requires Gone(w, t, id)
    ensures Gone(Next(fp, w, Commit(nonces)), t, id) <==> !Pending(w, t, id)
  {
    StepRestoresIff(fp, w, Commit(nonces), t, id);
  }

  /** The wrapped DEK is gone at every point of the run. */
  ghost predicate StaysGone(fp: Bytes -> string, w: World, steps: seq<Step>, t: nat, id: Id) {
    forall k | 0 <= k <= |steps| :: Gone(Run(fp, w, steps[..k]), t, id)
  }

  /**
   Over a run, until the row is stored anew or deleted: its wrapped DEK stays gone throughout exactly when no
   batch that had read it commits.
   */
  lemma StaysGoneIff(fp: Bytes -> string, w: World, steps: seq<Step>, t: nat, id: Id)
    requires Gone(w, t, id) && NeverReplaced(steps, t, id)
    ensures StaysGone(fp, w, steps, t, id) <==>
      forall k | 0 <= k < |steps| :: !Restores(Run(fp, w, steps[..k]), steps[k], t, id)
  {
    if StaysGone(fp, w, steps, t, id) {
      forall k | 0 <= k < |steps| ensures !Restores(Run(fp, w, steps[..k]), steps[k], t, id) {
        RunSnoc(fp, w, steps, k);
        StepRestoresIff(fp, Run(fp, w, steps[..k]), steps[k], t, id);
      }
    }
    if forall k | 0 <= k < |steps| :: !Restores(Run(fp, w, steps[..k]), steps[k], t, id) {
      GoneUpTo(fp, w, steps, |steps|, t, id);
    }
  }

  lemma {:induction false} GoneUpTo(fp: Bytes -> string, w: World, steps: seq<Step>, n: nat, t: nat, id: Id)
    requires n <= |steps| && Gone(w, t, id) && NeverReplaced(steps, t, id)
    requires forall k | 0 <= k < n :: !Restores(Run(fp, w, steps[..k]), steps[k], t, id)
    ensures forall k | 0 <= k <= n :: Gone(Run(fp, w, steps[..k]), t, id)
  {
    if n > 0 {
      GoneUpTo(fp, w, steps, n - 1, t, id);
      RunSnoc(fp, w, steps, n - 1);
      StepRestoresIff(fp, Run(fp, w, steps[..n - 1]), steps[n - 1], t, id);
    }
  }

  /**
   What an erasure can check: every way on from here keeps the wrapped DEK destroyed exactly when no batch in
   flight that can go through has read the row. A later batch never will: a row without a wrapped DEK is not selected.
   */
  lemma ErasureHoldsIff(fp: Bytes -> string, w: World, t: nat, id: Id)
    requires Gone(w, t, id)
    ensures (forall steps | NeverReplaced(steps, t, id) :: StaysGone(fp, w, steps, t, id)) <==>
      !Pending(w, t, id)
  {
    if Pending(w, t, id) {
      var steps := [Commit((i: Id) => 0)];
      assert steps[..0] == [] && steps[..1] == steps;
      RunSnoc(fp, w, steps, 0);
      CommitRestoresIff(fp, w, (i: Id) => 0, t, id);
      assert NeverReplaced(steps, t, id) && !Gone(Run(fp, w, steps[..1]), t, id);
    } else {
      forall steps | NeverReplaced(steps, t, id) ensures StaysGone(fp, w, steps, t, id) {
        NeverRead(fp, w, steps, |steps|, t, id);
      }
    }
  }

  lemma StepReadsNothing(fp: Bytes -> string, w: World, step: Step, t: nat, id: Id)
    requires Gone(w, t, id) && !Pending(w, t, id) && !Replaces(step, t, id)
    ensures Gone(Next(fp, w, step), t, id) && !Pending(Next(fp, w, step), t, id)
  {
    StepRestoresIff(fp, w, step, t, id);
  }

  lemma {:induction false} NeverRead(fp: Bytes -> string, w: World, steps: seq<Step>, n: nat, t: nat, id: Id)
    requires n <= |steps| && Gone(w, t, id) && !Pending(w, t, id) && NeverReplaced(steps, t, id)
    ensures forall k | 0 <= k <= n :: Gone(Run(fp, w, steps[..k]), t, id)
    ensures !Pending(Run(fp, w, steps[..n]), t, id)
  {
    if n > 0 {
      NeverRead(fp, w, steps, n - 1, t, id);
      RunSnoc(fp, w, steps, n - 1);
      StepReadsNothing(fp, Run(fp, w, steps[..n - 1]), steps[n - 1], t, id);
    }
  }
}
