/** Where a batched pass stops, said of the ids themselves: which rows come first, and what a failure leaves done. */
module RotationStops {
  import opened Wrappers
  import opened Rotation

  function Below(s: set<Id>, id: Id): set<Id> {
    set x | x in s && x < id
  }

  /** How many of the ids come before this one. */
  function Rank(s: set<Id>, id: Id): nat {
    |Below(s, id)|
  }

  /** The rows one transaction takes: what --batch asks for, and never fewer than one. */
  function RowsPerBatch(flag: int): nat {
    if flag >= 1 then flag else 1
  }

  /**
   The pass failed at the least id that cannot be done. Its whole batch was rolled back, so the rows done are
   those of the full batches before it.
   */
  ghost predicate StoppedAt(s: set<Id>, good: set<Id>, flag: int, total: nat, failed: Id) {
    && failed in s && failed !in good && (forall id | id in s && id < failed :: id in good)
    && total == Rank(s, failed) - Rank(s, failed) % if flag < 1 then 1 else flag
  }

  function Members(ids: seq<Id>): set<Id> {
    set x | x in ids
  }

  lemma {:induction false} AsManyMembers(ids: seq<Id>)
    requires Increasing(ids)
    ensures |Members(ids)| == |ids|
  {
    if ids != [] {
      var init, last := ids[..|ids| - 1], ids[|ids| - 1];
      AsManyMembers(init);
      forall x | x in init ensures x < last {}
      assert Members(ids) == Members(init) + {last};
    }
  }

  lemma BelowPlace(todo: seq<Id>, s: set<Id>, k: nat)
    requires OrderOf(todo, s) && k < |todo|
    ensures Below(s, todo[k]) == Members(todo[..k])
  {
    forall x ensures x in Below(s, todo[k]) <==> x in todo[..k] {
      if x in s {
        var i :| 0 <= i < |todo| && todo[i] == x;
      }
    }
  }

  /** In id order, a place is a rank. */
  lemma PlaceIsRank(todo: seq<Id>, s: set<Id>, k: nat)
    requires OrderOf(todo, s) && k < |todo|
    ensures Rank(s, todo[k]) == k
  {
    BelowPlace(todo, s, k);
    AsManyMembers(todo[..k]);
  }

  /** The first k ids in order are those of rank below k. */
  lemma FirstAreLowest(todo: seq<Id>, s: set<Id>, k: nat)
    requires OrderOf(todo, s) && k <= |todo|
    ensures forall id :: id in todo[..k] <==> id in s && Rank(s, id) < k
  {
    forall id ensures id in todo[..k] <==> id in s && Rank(s, id) < k {
      if id in s {
        var i :| 0 <= i < |todo| && todo[i] == id;
        PlaceIsRank(todo, s, i);
      }
    }
  }

  lemma QuotientIs(i: int, b: int, n: int)
    requires b > 0 && n * b <= i < n * b + b
    ensures i % b == i - n * b
  {
    var q := i / b;
    assert i == q * b + i % b;
    assert (q - n) * b == q * b - n * b;
    assert -b < (q - n) * b < b;
    SmallMultiple(q - n, b);
  }

  lemma SmallMultiple(k: int, b: int)
    requires -b < k * b < b
    ensures k == 0
  {
  }

  /** A failing pass has committed whole batches, and fails within the next. */
  lemma StopsAtBatch(good: set<Id>, todo: seq<Id>, s: set<Id>, flag: int, budget: nat, total: nat, failed: Id)
    requires OrderOf(todo, s) && Ending(good, todo, RowsPerBatch(flag), budget, total, Failed(failed))
    ensures StoppedAt(s, good, flag, total, failed)
  {
    var b := RowsPerBatch(flag);
    var i: nat :| i < total + b && FirstBad(good, todo, total, failed, i);
    var n: nat :| total == Taken(|todo|, b, n);
    PlaceIsRank(todo, s, i);
    TakenIsMin(|todo|, b, n);
    QuotientIs(i, b, n);
    forall id | id in s && id < failed ensures id in good {
      var j :| 0 <= j < |todo| && todo[j] == id;
      assert j < i;
    }
  }
}
