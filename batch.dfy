/**
 * The batch update: each listed id is processed on its own, either by
 * reassigning the manager in place or by retiring the row and inserting a
 * replacement under a fresh id.
 */
module Batch {
  import opened Wrappers
  import opened Table

  /** The optional fields of `update_data`. */
  datatype UpdateData = UpdateData(
    fullName: Option<string>,
    mobNum: Option<string>,
    panNum: Option<string>,
    managerId: Option<string>)

  /** Only `manager_id` is supplied: the row is updated in place. */
  predicate ManagerOnly(d: UpdateData) {
    Truthy(d.managerId) && !Truthy(d.fullName) && !Truthy(d.mobNum) && !Truthy(d.panNum)
  }

  /** `supplied || fallback` on an optional string. */
  function Or(supplied: Option<string>, fallback: string): string {
    if Truthy(supplied) then supplied.value else fallback
  }

  /** The first row carrying `id` with `is_active = 1`, if any. */
  function FindActive(rows: seq<User>, id: string): (r: Option<nat>)
    ensures r.Some? ==> r.value < |rows| && rows[r.value].userId == id && rows[r.value].isActive
    ensures r.Some? ==> forall i :: 0 <= i < r.value ==> !(rows[i].userId == id && rows[i].isActive)
    ensures r.None? <==> NoActive(rows, id)
  {
    if rows == [] then None
    else if rows[0].userId == id && rows[0].isActive then Some(0)
    else
      match FindActive(rows[1..], id)
      case None => None
      case Some(k) => Some(k + 1)
  }

  /** `UPDATE users SET manager_id = ?, updated_at = CURRENT_TIMESTAMP WHERE user_id = ?`. */
  function Reassign(rows: seq<User>, id: string, manager: string, now: string): (r: seq<User>)
    ensures |r| == |rows|
    ensures forall i :: 0 <= i < |rows| && rows[i].userId != id ==> r[i] == rows[i]
    ensures forall i :: 0 <= i < |rows| && rows[i].userId == id ==>
      r[i] == rows[i].(managerId := manager, updatedAt := now)
  {
    seq(|rows|, i requires 0 <= i < |rows| =>
      if rows[i].userId == id then rows[i].(managerId := manager, updatedAt := now) else rows[i])
  }

  /** The row inserted by the replace branch: supplied fields win, the rest is carried forward. */
  function Replacement(existing: User, d: UpdateData, newId: string, now: string): User {
    User(newId,
         Or(d.fullName, existing.fullName),
         Or(d.mobNum, existing.mobNum),
         Or(d.panNum, existing.panNum),
         Or(d.managerId, existing.managerId),
         now, now, true)
  }

  /** The table after some ids, and whether every statement so far succeeded. */
  datatype Progress = Progress(rows: seq<User>, ok: bool)

  /**
   * One iteration of the loop over `user_ids`. When the INSERT of the
   * replacement collides with an existing `user_id`, the statement fails:
   * the retirement already done stays, and `ok` is false.
   */
  function Step(rows: seq<User>, id: string, d: UpdateData, newId: string, now: string): Progress
  {
    match FindActive(rows, id)
    case None => Progress(rows, true)
    case Some(k) =>
      if ManagerOnly(d) then
        Progress(Reassign(rows, id, d.managerId.value, now), true)
      else
        var retired := Deactivate(rows, ByUserId(id));
        DeactivateKeepsIds(rows, ByUserId(id));
        if HasId(retired, newId) then Progress(retired, false)
        else Progress(retired + [Replacement(rows[k], d, newId, now)], true)
  }

  /**
   * What an iteration leaves alone: it only appends (at most one row), keeps
   * every row's id, leaves rows with another id untouched, and an appended
   * row carries an id the table did not hold.
   */
  lemma StepFrame(rows: seq<User>, id: string, d: UpdateData, newId: string, now: string)
    ensures var p := Step(rows, id, d, newId, now);
      && |rows| <= |p.rows| <= |rows| + 1
      && (forall i :: 0 <= i < |rows| ==> p.rows[i].userId == rows[i].userId)
      && (forall i :: 0 <= i < |rows| && rows[i].userId != id ==> p.rows[i] == rows[i])
      && (|p.rows| == |rows| + 1 ==> !HasId(rows, p.rows[|rows|].userId))
  {
    match FindActive(rows, id)
    case None =>
    case Some(k) =>
      if !ManagerOnly(d) {
        DeactivateKeepsIds(rows, ByUserId(id));
      }
  }

  /** An iteration keeps `user_id` unique. */
  lemma StepKeepsDistinct(rows: seq<User>, id: string, d: UpdateData, newId: string, now: string)
    requires DistinctIds(rows)
    ensures DistinctIds(Step(rows, id, d, newId, now).rows)
  {
    var p := Step(rows, id, d, newId, now);
    StepFrame(rows, id, d, newId, now);
    if |p.rows| == |rows| + 1 {
      forall i | 0 <= i < |rows| ensures p.rows[i].userId != p.rows[|rows|].userId {
        assert rows[i].userId == p.rows[i].userId;
      }
    }
  }

  /** An id with no active row is skipped without any change. */
  lemma StepSkipsMissing(rows: seq<User>, id: string, d: UpdateData, newId: string, now: string)
    requires NoActive(rows, id)
    ensures Step(rows, id, d, newId, now) == Progress(rows, true)
  {
  }

  /**
   * In-place branch: the active row keeps its id, name, numbers, creation
   * time and activity, gets the new manager and a new `updated_at`;
   * nothing else changes.
   */
  lemma StepInPlace(rows: seq<User>, id: string, d: UpdateData, newId: string, now: string, k: nat)
    requires DistinctIds(rows) && ManagerOnly(d)
    requires k < |rows| && rows[k].userId == id && rows[k].isActive
    ensures Step(rows, id, d, newId, now).ok
    ensures |Step(rows, id, d, newId, now).rows| == |rows|
    ensures Step(rows, id, d, newId, now).rows[k] == rows[k].(managerId := d.managerId.value, updatedAt := now)
    ensures forall i :: 0 <= i < |rows| && i != k ==> Step(rows, id, d, newId, now).rows[i] == rows[i]
  {
    var found := FindActive(rows, id);
    assert found.Some?;
    forall i | 0 <= i < |rows| && i != k ensures rows[i].userId != id {
      if i < k { assert rows[i].userId != rows[k].userId; }
      else { assert rows[k].userId != rows[i].userId; }
    }
  }

  /**
   * Replace branch: the active row is retired and no active row carries its
   * id afterwards; unless the fresh id is already taken, one active row is
   * appended under the fresh id, each field taken from `update_data` when
   * supplied and from the retired row otherwise, with both timestamps new.
   */
  lemma StepReplaces(rows: seq<User>, id: string, d: UpdateData, newId: string, now: string, k: nat)
    requires DistinctIds(rows) && !ManagerOnly(d)
    requires k < |rows| && rows[k].userId == id && rows[k].isActive
    ensures var p := Step(rows, id, d, newId, now);
      && NoActive(p.rows, id)
      && p.rows[..|rows|] == Deactivate(rows, ByUserId(id))
      && (p.ok <==> !HasId(rows, newId))
      && (p.ok ==> |p.rows| == |rows| + 1)
      && (!p.ok ==> |p.rows| == |rows|)
    ensures var p := Step(rows, id, d, newId, now);
      p.ok ==>
        var u := p.rows[|rows|];
        && u.userId == newId && u.userId != id && u.isActive
        && u.createdAt == now && u.updatedAt == now
        && u.fullName == (if Truthy(d.fullName) then d.fullName.value else rows[k].fullName)
        && u.mobNum == (if Truthy(d.mobNum) then d.mobNum.value else rows[k].mobNum)
        && u.panNum == (if Truthy(d.panNum) then d.panNum.value else rows[k].panNum)
        && u.managerId == (if Truthy(d.managerId) then d.managerId.value else rows[k].managerId)
  {
    var found := FindActive(rows, id);
    assert found.Some?;
    var j := found.value;
    if j != k {
      KeyIdentifiesRow(rows, j, k);
    }
    var retired := Deactivate(rows, ByUserId(id));
    DeactivateKeepsIds(rows, ByUserId(id));
    var p := Step(rows, id, d, newId, now);
    assert p.rows[..|rows|] == retired;
    forall i | 0 <= i < |p.rows| && p.rows[i].userId == id ensures !p.rows[i].isActive {
      if i < |rows| {
        assert p.rows[i] == retired[i];
      }
    }
  }

  /** Supplying no field at all still takes the replace branch: the row is copied under a fresh id. */
  lemma EmptyUpdateReplaces(rows: seq<User>, id: string, newId: string, now: string, k: nat)
    requires DistinctIds(rows)
    requires k < |rows| && rows[k].userId == id && rows[k].isActive
    requires !HasId(rows, newId)
    ensures var p := Step(rows, id, UpdateData(None, None, None, None), newId, now);
      p.ok && p.rows == Deactivate(rows, ByUserId(id))
                        + [rows[k].(userId := newId, createdAt := now, updatedAt := now)]
  {
    var d := UpdateData(None, None, None, None);
    StepReplaces(rows, id, d, newId, now, k);
    var p := Step(rows, id, d, newId, now);
    assert p.rows == p.rows[..|rows|] + [p.rows[|rows|]];
  }

  /** A row that is present and retired stays retired through any later iteration. */
  lemma StepKeepsRetired(rows: seq<User>, x: string, id: string, d: UpdateData, newId: string, now: string)
    requires HasId(rows, x) && NoActive(rows, x)
    ensures NoActive(Step(rows, id, d, newId, now).rows, x)
  {
    var p := Step(rows, id, d, newId, now);
    forall i | 0 <= i < |p.rows| && p.rows[i].userId == x ensures !p.rows[i].isActive {
      if i < |rows| {
        assert rows[i].userId == x;
        if FindActive(rows, id).Some? && !ManagerOnly(d) {
          assert !rows[i].isActive;
          DeactivateRetires(rows, ByUserId(id));
        }
      }
    }
  }

  // ---------------------------------------------------------------- the loop

  /**
   * The table after the first `n` ids of `user_ids`; the i-th id uses the
   * fresh id `freshId(i)` and the timestamp `clock(i)`. The loop stops at the
   * first failed statement, keeping what was already written.
   */
  function Run(rows: seq<User>, ids: seq<string>, d: UpdateData,
               freshId: nat -> string, clock: nat -> string, n: nat): Progress
    requires n <= |ids|
    decreases n
  {
    if n == 0 then Progress(rows, true)
    else
      var before := Run(rows, ids, d, freshId, clock, n - 1);
      if !before.ok then before
      else Step(before.rows, ids[n - 1], d, freshId(n - 1), clock(n - 1))
  }

  /**
   * What the batch leaves alone: rows are only appended, every row keeps its
   * id, and a row whose id is not among the processed ones is untouched.
   */
  lemma {:induction false} RunFrame(rows: seq<User>, ids: seq<string>, d: UpdateData,
                                   freshId: nat -> string, clock: nat -> string, n: nat)
    requires n <= |ids|
    ensures var p := Run(rows, ids, d, freshId, clock, n);
      && |rows| <= |p.rows|
      && (forall i :: 0 <= i < |rows| ==> p.rows[i].userId == rows[i].userId)
      && (forall i :: 0 <= i < |rows| && rows[i].userId !in ids[..n] ==> p.rows[i] == rows[i])
    decreases n
  {
    if n > 0 {
      RunFrame(rows, ids, d, freshId, clock, n - 1);
      var before := Run(rows, ids, d, freshId, clock, n - 1);
      assert ids[..n] == ids[..n - 1] + [ids[n - 1]];
      if before.ok {
        StepFrame(before.rows, ids[n - 1], d, freshId(n - 1), clock(n - 1));
      }
    }
  }

  /**
   * The loop's invariant advances by one id: if the first `n` ids left the
   * table at `cur` and the next step turns `cur` into `next`, then either
   * `n + 1` ids leave it at `next`, or the step failed and so does the batch.
   */
  lemma RunAdvance(rows: seq<User>, ids: seq<string>, d: UpdateData,
                   freshId: nat -> string, clock: nat -> string, n: nat,
                   cur: seq<User>, next: seq<User>, ok: bool)
    requires n < |ids| && Run(rows, ids, d, freshId, clock, n) == Progress(cur, true)
    requires Progress(next, ok) == Step(cur, ids[n], d, freshId(n), clock(n))
    ensures ok ==> Run(rows, ids, d, freshId, clock, n + 1) == Progress(next, true)
    ensures !ok ==> Run(rows, ids, d, freshId, clock, |ids|) == Progress(next, false)
  {
    if !ok {
      RunStopsAtFailure(rows, ids, d, freshId, clock, n + 1, |ids|);
    }
  }

  /** Once a statement has failed, the remaining ids change nothing. */
  lemma {:induction false} RunStopsAtFailure(rows: seq<User>, ids: seq<string>, d: UpdateData,
                                            freshId: nat -> string, clock: nat -> string, n: nat, m: nat)
    requires n <= m <= |ids|
    requires !Run(rows, ids, d, freshId, clock, n).ok
    ensures Run(rows, ids, d, freshId, clock, m) == Run(rows, ids, d, freshId, clock, n)
    decreases m
  {
    if m > n {
      RunStopsAtFailure(rows, ids, d, freshId, clock, n, m - 1);
    }
  }

  /** The batch keeps `user_id` unique, so each id has at most one active row. */
  lemma {:induction false} RunKeepsDistinct(rows: seq<User>, ids: seq<string>, d: UpdateData,
                                           freshId: nat -> string, clock: nat -> string, n: nat)
    requires n <= |ids| && DistinctIds(rows)
    ensures DistinctIds(Run(rows, ids, d, freshId, clock, n).rows)
  {
    if n > 0 {
      RunKeepsDistinct(rows, ids, d, freshId, clock, n - 1);
      var before := Run(rows, ids, d, freshId, clock, n - 1);
      if before.ok {
        StepKeepsDistinct(before.rows, ids[n - 1], d, freshId(n - 1), clock(n - 1));
        assert Run(rows, ids, d, freshId, clock, n) == Step(before.rows, ids[n - 1], d, freshId(n - 1), clock(n - 1));
      }
    }
  }

  /**
   * When the batch succeeds and some field besides the manager is supplied,
   * every listed id that was in the table has no active row afterwards.
   */
  lemma {:induction false} RunRetires(rows: seq<User>, ids: seq<string>, d: UpdateData,
                                     freshId: nat -> string, clock: nat -> string, n: nat)
    requires n <= |ids| && DistinctIds(rows) && !ManagerOnly(d)
    requires Run(rows, ids, d, freshId, clock, n).ok
    ensures forall j :: 0 <= j < n && HasId(rows, ids[j]) ==> NoActive(Run(rows, ids, d, freshId, clock, n).rows, ids[j])
  {
    if n > 0 {
      assert Run(rows, ids, d, freshId, clock, n - 1).ok;
      RunRetires(rows, ids, d, freshId, clock, n - 1);
      forall j | 0 <= j < n && HasId(rows, ids[j]) ensures NoActive(Run(rows, ids, d, freshId, clock, n).rows, ids[j]) {
        RunRetiresOne(rows, ids, d, freshId, clock, n, j);
      }
    }
  }

  /** The inductive step of RunRetires for one listed id. */
  lemma RunRetiresOne(rows: seq<User>, ids: seq<string>, d: UpdateData,
                      freshId: nat -> string, clock: nat -> string, n: nat, j: nat)
    requires 0 < n <= |ids| && DistinctIds(rows) && !ManagerOnly(d)
    requires Run(rows, ids, d, freshId, clock, n).ok
    requires j < n && HasId(rows, ids[j])
    requires j < n - 1 ==> NoActive(Run(rows, ids, d, freshId, clock, n - 1).rows, ids[j])
    ensures NoActive(Run(rows, ids, d, freshId, clock, n).rows, ids[j])
  {
    var before := Run(rows, ids, d, freshId, clock, n - 1);
    assert before.ok;
    RunKeepsDistinct(rows, ids, d, freshId, clock, n - 1);
    RunKeepsPresent(rows, ids, d, freshId, clock, n - 1, ids[j]);
    StepRetiresListed(before.rows, ids[j], ids[n - 1], d, freshId(n - 1), clock(n - 1));
  }

  /** An id present in the table stays present through the batch. */
  lemma RunKeepsPresent(rows: seq<User>, ids: seq<string>, d: UpdateData,
                        freshId: nat -> string, clock: nat -> string, n: nat, x: string)
    requires n <= |ids| && HasId(rows, x)
    ensures HasId(Run(rows, ids, d, freshId, clock, n).rows, x)
  {
    RunFrame(rows, ids, d, freshId, clock, n);
    var i :| 0 <= i < |rows| && rows[i].userId == x;
    assert Run(rows, ids, d, freshId, clock, n).rows[i].userId == x;
  }

  /**
   * After a successful replace-branch iteration for `id`, neither `id` nor an
   * id that was already retired has an active row.
   */
  lemma StepRetiresListed(rows: seq<User>, x: string, id: string, d: UpdateData, newId: string, now: string)
    requires DistinctIds(rows) && !ManagerOnly(d) && HasId(rows, x)
    requires x == id || NoActive(rows, x)
    ensures NoActive(Step(rows, id, d, newId, now).rows, x)
  {
    if x != id {
      StepKeepsRetired(rows, x, id, d, newId, now);
    } else {
      match FindActive(rows, id)
      case None =>
        StepKeepsRetired(rows, x, id, d, newId, now);
      case Some(k) =>
        StepReplaces(rows, id, d, newId, now, k);
    }
  }

  /**
   * `after` is `rows` with the manager of each active row whose id is in
   * `listed` set to `manager` and its `updated_at` refreshed, and nothing
   * else changed.
   */
  ghost predicate ReassignedExactly(rows: seq<User>, after: seq<User>, listed: seq<string>, manager: string) {
    && |after| == |rows|
    && forall i :: 0 <= i < |rows| ==>
         if rows[i].isActive && rows[i].userId in listed
         then after[i] == rows[i].(managerId := manager, updatedAt := after[i].updatedAt)
         else after[i] == rows[i]
  }

  /** One manager-only iteration extends the reassignment to one more listed id. */
  lemma StepReassigns(rows: seq<User>, before: seq<User>, listed: seq<string>,
                      id: string, d: UpdateData, newId: string, now: string)
    requires DistinctIds(rows) && ManagerOnly(d)
    requires ReassignedExactly(rows, before, listed, d.managerId.value)
    ensures Step(before, id, d, newId, now).ok
    ensures ReassignedExactly(rows, Step(before, id, d, newId, now).rows, listed + [id], d.managerId.value)
  {
    var m := d.managerId.value;
    var p := Step(before, id, d, newId, now);
    forall i | 0 <= i < |rows| ensures before[i].userId == rows[i].userId && before[i].isActive == rows[i].isActive {
    }
    match FindActive(before, id)
    case None =>
      forall i | 0 <= i < |rows| && rows[i].userId == id ensures !rows[i].isActive {
        assert before[i].userId == id;
      }
    case Some(k) =>
      assert DistinctIds(before);
      StepInPlace(before, id, d, newId, now, k);
  }

  /**
   * A manager-only batch always succeeds, adds no row, and changes exactly
   * the active rows whose id is listed: their manager becomes the new one and
   * only `updated_at` changes besides.
   */
  lemma {:induction false} RunInPlace(rows: seq<User>, ids: seq<string>, d: UpdateData,
                                     freshId: nat -> string, clock: nat -> string, n: nat)
    requires n <= |ids| && DistinctIds(rows) && ManagerOnly(d)
    ensures Run(rows, ids, d, freshId, clock, n).ok
    ensures ReassignedExactly(rows, Run(rows, ids, d, freshId, clock, n).rows, ids[..n], d.managerId.value)
  {
    if n == 0 {
      assert ids[..0] == [];
    } else {
      RunInPlace(rows, ids, d, freshId, clock, n - 1);
      var before := Run(rows, ids, d, freshId, clock, n - 1);
      assert ids[..n] == ids[..n - 1] + [ids[n - 1]];
      StepReassigns(rows, before.rows, ids[..n - 1], ids[n - 1], d, freshId(n - 1), clock(n - 1));
      assert Run(rows, ids, d, freshId, clock, n) == Step(before.rows, ids[n - 1], d, freshId(n - 1), clock(n - 1));
    }
  }
}
