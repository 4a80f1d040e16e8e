/**
 * The `users` table as a sequence of rows, in insertion order, and the
 * statements the handlers run on it: the filtered SELECT of the list
 * handler and the soft-delete UPDATE.
 */
module Table {
  import opened Wrappers

  /** One row of `users`. Timestamps are opaque strings supplied by the caller. */
  datatype User = User(
    userId: string,
    fullName: string,
    mobNum: string,
    panNum: string,
    managerId: string,
    createdAt: string,
    updatedAt: string,
    isActive: bool)

  /** JavaScript truthiness of an optional string field: present and not empty. */
  predicate Truthy(o: Option<string>) { o.Some? && o.value != "" }

  /** `managers` holds `id` with `is_active = 1`. */
  predicate ActiveManager(managers: map<string, bool>, id: string) {
    id in managers && managers[id]
  }

  /** Some row, active or not, carries `id`. */
  predicate HasId(rows: seq<User>, id: string) {
    exists i :: 0 <= i < |rows| && rows[i].userId == id
  }

  /** The PRIMARY KEY constraint on `user_id`. */
  ghost predicate DistinctIds(rows: seq<User>) {
    forall i, j :: 0 <= i < j < |rows| ==> rows[i].userId != rows[j].userId
  }

  /** No active row carries `id`. */
  ghost predicate NoActive(rows: seq<User>, id: string) {
    forall i :: 0 <= i < |rows| && rows[i].userId == id ==> !rows[i].isActive
  }

  /**
   * The primary key identifies a row: two positions with the same `user_id`
   * are the same row. The replace branch of the batch update leans on this
   * when it retires "the" active row of an id.
   */
  lemma KeyIdentifiesRow(rows: seq<User>, i: nat, j: nat)
    requires DistinctIds(rows)
    requires i < |rows| && j < |rows| && rows[i].userId == rows[j].userId
    ensures i == j
  {
  }

  // ---------------------------------------------------------------- list

  /** The optional filters of the list request. */
  datatype Query = Query(userId: Option<string>, mobNum: Option<string>, managerId: Option<string>)

  /** `is_active = 1` and each supplied filter, joined by AND; absent or empty filters are ignored. */
  predicate Matches(q: Query, u: User) {
    && u.isActive
    && (Truthy(q.userId) ==> u.userId == q.userId.value)
    && (Truthy(q.mobNum) ==> u.mobNum == q.mobNum.value)
    && (Truthy(q.managerId) ==> u.managerId == q.managerId.value)
  }

  /** The rows the list query returns, in table order. */
  function Select(rows: seq<User>, q: Query): (r: seq<User>)
    ensures forall u :: u in r <==> u in rows && Matches(q, u)
    ensures |r| <= |rows|
  {
    if rows == [] then []
    else (if Matches(q, rows[0]) then [rows[0]] else []) + Select(rows[1..], q)
  }

  lemma {:induction false} SelectAppend(a: seq<User>, b: seq<User>, q: Query)
    ensures Select(a + b, q) == Select(a, q) + Select(b, q)
  {
    if a == [] {
      assert a + b == b;
    } else {
      assert (a + b)[0] == a[0] && (a + b)[1..] == a[1..] + b;
      SelectAppend(a[1..], b, q);
    }
  }

  /** The query by one id. */
  function ById(id: string): Query { Query(Some(id), None, None) }

  /** A query finds nothing when no row matches it. */
  lemma {:induction false} SelectEmpty(rows: seq<User>, q: Query)
    requires forall i :: 0 <= i < |rows| ==> !Matches(q, rows[i])
    ensures Select(rows, q) == []
  {
    if rows != [] {
      SelectEmpty(rows[1..], q);
    }
  }

  /** After appending an active row with a new id, listing by that id returns that row alone. */
  lemma ListNewRow(rows: seq<User>, u: User)
    requires !HasId(rows, u.userId) && u.userId != "" && u.isActive
    ensures Select(rows + [u], ById(u.userId)) == [u]
  {
    SelectAppend(rows, [u], ById(u.userId));
    SelectEmpty(rows, ById(u.userId));
  }

  /** Without filters the list is exactly the active rows. */
  lemma ListAllActive(rows: seq<User>, u: User)
    ensures u in Select(rows, Query(None, None, None)) <==> u in rows && u.isActive
  {
  }

  // ---------------------------------------------------------------- delete

  /** The WHERE clause of the soft delete: by `user_id`, or else by `mob_num`. */
  datatype Selector = ByUserId(id: string) | ByMobile(mob: string)

  /** `user_id` takes precedence; `mob_num` is used only when `user_id` is absent or empty. */
  function ChooseSelector(userId: Option<string>, mobNum: Option<string>): (r: Option<Selector>)
    ensures r.None? <==> !Truthy(userId) && !Truthy(mobNum)
    ensures Truthy(userId) ==> r == Some(ByUserId(userId.value))
    ensures !Truthy(userId) && Truthy(mobNum) ==> r == Some(ByMobile(mobNum.value))
  {
    if Truthy(userId) then Some(ByUserId(userId.value))
    else if Truthy(mobNum) then Some(ByMobile(mobNum.value))
    else None
  }

  predicate Selected(s: Selector, u: User) {
    match s
    case ByUserId(id) => u.userId == id
    case ByMobile(mob) => u.mobNum == mob
  }

  /** Some row, active or not, satisfies the WHERE clause: the UPDATE reports changes. */
  predicate AnySelected(rows: seq<User>, s: Selector) {
    exists i :: 0 <= i < |rows| && Selected(s, rows[i])
  }

  /** `UPDATE users SET is_active = 0 WHERE <selector>`. */
  function Deactivate(rows: seq<User>, s: Selector): (r: seq<User>)
    ensures |r| == |rows|
    ensures forall i :: 0 <= i < |rows| && !Selected(s, rows[i]) ==> r[i] == rows[i]
    ensures forall i :: 0 <= i < |rows| && Selected(s, rows[i]) ==>
      !r[i].isActive && r[i].(isActive := true) == rows[i].(isActive := true)
  {
    seq(|rows|, i requires 0 <= i < |rows| =>
      if Selected(s, rows[i]) then rows[i].(isActive := false) else rows[i])
  }

  /** The soft delete keeps every row and every id where it was. */
  lemma DeactivateKeepsIds(rows: seq<User>, s: Selector)
    ensures forall i :: 0 <= i < |rows| ==> Deactivate(rows, s)[i].userId == rows[i].userId
    ensures DistinctIds(rows) ==> DistinctIds(Deactivate(rows, s))
    ensures forall id :: HasId(Deactivate(rows, s), id) <==> HasId(rows, id)
  {
    var r := Deactivate(rows, s);
    forall i | 0 <= i < |rows| ensures r[i].userId == rows[i].userId {
      assert r[i].(isActive := true).userId == r[i].userId;
    }
  }

  /** Afterwards no selected row is active; rows never become active. */
  lemma DeactivateRetires(rows: seq<User>, s: Selector)
    ensures forall i :: 0 <= i < |rows| && Selected(s, rows[i]) ==> !Deactivate(rows, s)[i].isActive
    ensures forall i :: 0 <= i < |rows| && Deactivate(rows, s)[i].isActive ==> rows[i].isActive
  {
  }

  /** Deleting twice with the same selector leaves the table as deleting once. */
  lemma DeactivateIdempotent(rows: seq<User>, s: Selector)
    ensures Deactivate(Deactivate(rows, s), s) == Deactivate(rows, s)
  {
    var once := Deactivate(rows, s);
    DeactivateKeepsIds(rows, s);
    forall i | 0 <= i < |rows| ensures Selected(s, once[i]) == Selected(s, rows[i]) {
      assert once[i].(isActive := true).mobNum == once[i].mobNum;
    }
  }

  /**
   * A second delete with the same selector still matches the retired rows,
   * so it reports success rather than not-found.
   */
  lemma DeleteAgainMatches(rows: seq<User>, s: Selector)
    ensures AnySelected(Deactivate(rows, s), s) <==> AnySelected(rows, s)
  {
    var once := Deactivate(rows, s);
    forall i | 0 <= i < |rows| ensures Selected(s, once[i]) == Selected(s, rows[i]) {
      assert once[i].(isActive := true).mobNum == once[i].mobNum;
      assert once[i].(isActive := true).userId == once[i].userId;
    }
  }

  /** An id with no active row is not listed. */
  lemma ListRetired(rows: seq<User>, id: string)
    requires id != "" && NoActive(rows, id)
    ensures Select(rows, ById(id)) == []
  {
    SelectEmpty(rows, ById(id));
  }

  /** After a delete by id, listing by that id returns nothing. */
  lemma ListAfterDelete(rows: seq<User>, id: string)
    requires id != ""
    ensures Select(Deactivate(rows, ByUserId(id)), ById(id)) == []
  {
    DeactivateRetires(rows, ByUserId(id));
    ListRetired(Deactivate(rows, ByUserId(id)), id);
  }
}
