/**
 * The user service: one store object holding the `users` table and the
 * `managers` table, and the four request handlers as its methods.
 */
module Service {
  import opened Wrappers
  import opened Formats
  import opened Table
  import opened Batch

  /** Why a request was answered with 400. */
  datatype Invalid =
    | MissingFields              // create: a required field is absent or empty
    | InvalidMobile              // create: the cleaned number is not ten digits starting 6-9
    | InvalidPan                 // create: the uppercased PAN is not AAAAA9999A
    | ManagerNotFoundOrInactive  // create: no active manager with that id
    | SelectorRequired           // delete: neither user_id nor mob_num
    | UserIdsRequired            // update: user_ids missing, not an array, or empty
    | InvalidOrInactiveManager   // update: the new manager is unknown or inactive

  /** The error kinds: 400, 404 and 500. */
  datatype Error = Validation(reason: Invalid) | NotFound | StorageError

  /** The body of a create request; each field may be missing. */
  datatype CreateRequest = CreateRequest(
    fullName: Option<string>,
    mobNum: Option<string>,
    panNum: Option<string>,
    managerId: Option<string>)

  /** The validated, normalised fields of a new user. */
  datatype Details = Details(fullName: string, mobNum: string, panNum: string, managerId: string)

  /** Every field of a create request is supplied. */
  predicate AllSupplied(req: CreateRequest) {
    Truthy(req.fullName) && Truthy(req.mobNum) && Truthy(req.panNum) && Truthy(req.managerId)
  }

  /**
   * The checks create runs before it writes anything, in the order it runs
   * them: the first check that fails decides the error.
   */
  function CheckCreate(req: CreateRequest, managers: map<string, bool>): (r: Result<Details, Error>)
    ensures r == Err(Validation(MissingFields)) <==> !AllSupplied(req)
    ensures AllSupplied(req) && NormalizeMobile(req.mobNum.value).None? ==>
              r == Err(Validation(InvalidMobile))
    ensures AllSupplied(req) && NormalizeMobile(req.mobNum.value).Some?
            && NormalizePan(req.panNum.value).None? ==>
              r == Err(Validation(InvalidPan))
    ensures AllSupplied(req) && NormalizeMobile(req.mobNum.value).Some?
            && NormalizePan(req.panNum.value).Some? && !ActiveManager(managers, req.managerId.value) ==>
              r == Err(Validation(ManagerNotFoundOrInactive))
    ensures r == Err(Validation(InvalidMobile)) ==>
              AllSupplied(req) && NormalizeMobile(req.mobNum.value).None?
    ensures r == Err(Validation(InvalidPan)) ==>
              AllSupplied(req) && NormalizeMobile(req.mobNum.value).Some? && NormalizePan(req.panNum.value).None?
    ensures r == Err(Validation(ManagerNotFoundOrInactive)) ==>
              AllSupplied(req) && NormalizeMobile(req.mobNum.value).Some? && NormalizePan(req.panNum.value).Some?
              && !ActiveManager(managers, req.managerId.value)
    ensures r.Err? ==>
              r.error in {Validation(MissingFields), Validation(InvalidMobile),
                          Validation(InvalidPan), Validation(ManagerNotFoundOrInactive)}
    ensures r.Ok? ==>
              && r.value.fullName == req.fullName.value && r.value.fullName != ""
              && ValidMobile(r.value.mobNum)
              && (req.mobNum.value == r.value.mobNum || req.mobNum.value == "0" + r.value.mobNum
                  || req.mobNum.value == "+91" + r.value.mobNum)
              && ValidPan(r.value.panNum) && r.value.panNum == ToUpper(req.panNum.value)
              && r.value.managerId == req.managerId.value && ActiveManager(managers, r.value.managerId)
  {
    if !AllSupplied(req) then
      Err(Validation(MissingFields))
    else
      match NormalizeMobile(req.mobNum.value)
      case None => Err(Validation(InvalidMobile))
      case Some(mob) =>
        match NormalizePan(req.panNum.value)
        case None => Err(Validation(InvalidPan))
        case Some(pan) =>
          if !ActiveManager(managers, req.managerId.value) then Err(Validation(ManagerNotFoundOrInactive))
          else Ok(Details(req.fullName.value, mob, pan, req.managerId.value))
  }

  /** Create succeeds exactly when every field is present and valid and the manager is active. */
  lemma CreateAcceptsExactly(req: CreateRequest, managers: map<string, bool>)
    ensures CheckCreate(req, managers).Ok? <==>
      && AllSupplied(req)
      && NormalizeMobile(req.mobNum.value).Some?
      && NormalizePan(req.panNum.value).Some?
      && ActiveManager(managers, req.managerId.value)
  {
  }

  /** The row create inserts: both timestamps are the same instant and the row is active. */
  function NewUser(d: Details, userId: string, now: string): User {
    User(userId, d.fullName, d.mobNum, d.panNum, d.managerId, now, now, true)
  }

  /** The managers seeded at first start: two active ones and an inactive one. */
  const SeedManagers: map<string, bool> :=
    map["test-manager-123" := true, "test-manager-456" := true, "inactive-manager" := false]

  /** The user store, with one method per request handler. */
  class Store {
    var users: seq<User>
    var managers: map<string, bool>

    /** `user_id` is a primary key. */
    ghost predicate Valid()
      reads this
    {
      DistinctIds(users)
    }

    constructor (managers: map<string, bool>)
      ensures Valid()
      ensures users == [] && this.managers == managers
    {
      users := [];
      this.managers := managers;
    }

    /**
     * createUser. `newId` stands for the generated UUID and `now` for the
     * current time. Appends one active row and returns its id, or returns the
     * first failed check with the table unchanged; a `newId` already in the
     * table violates the primary key and is reported as a storage error.
     */
    method CreateUser(req: CreateRequest, newId: string, now: string) returns (r: Result<string, Error>)
      requires Valid()
      modifies this`users
      ensures Valid()
      ensures CheckCreate(req, managers).Err? ==>
                r == Err(CheckCreate(req, managers).error) && users == old(users)
      ensures CheckCreate(req, managers).Ok? && HasId(old(users), newId) ==>
                r == Err(StorageError) && users == old(users)
      ensures CheckCreate(req, managers).Ok? && !HasId(old(users), newId) ==>
                r == Ok(newId) && users == old(users) + [NewUser(CheckCreate(req, managers).value, newId, now)]
    {
      var check := CheckCreate(req, managers);
      if check.Err? {
        return Err(check.error);
      }
      if HasId(users, newId) {
        return Err(StorageError);
      }
      users := users + [NewUser(check.value, newId, now)];
      r := Ok(newId);
    }

    /** getUsers: the active rows that match every supplied filter. Changes nothing. */
    method GetUsers(q: Query) returns (r: seq<User>)
      ensures forall u :: u in r <==> u in users && Matches(q, u)
      ensures r == Select(users, q)
    {
      r := Select(users, q);
    }

    /**
     * deleteUser. Marks inactive every row, active or not, that the selector
     * picks, and answers not-found exactly when it picked none.
     */
    method DeleteUser(userId: Option<string>, mobNum: Option<string>) returns (r: Result<(), Error>)
      requires Valid()
      modifies this`users
      ensures Valid()
      ensures ChooseSelector(userId, mobNum).None? ==>
                r == Err(Validation(SelectorRequired)) && users == old(users)
      ensures ChooseSelector(userId, mobNum).Some? ==>
                var s := ChooseSelector(userId, mobNum).value;
                && users == Deactivate(old(users), s)
                && (r.Ok? <==> AnySelected(old(users), s))
                && (r.Err? ==> r == Err(NotFound))
    {
      var selector := ChooseSelector(userId, mobNum);
      if selector.None? {
        return Err(Validation(SelectorRequired));
      }
      var changes := AnySelected(users, selector.value);
      DeactivateKeepsIds(users, selector.value);
      users := Deactivate(users, selector.value);
      if !changes {
        return Err(NotFound);
      }
      r := Ok(());
    }

    /**
     * The body of the `forEach` callback for one id: skip it when no active
     * row carries it, reassign the manager in place, or retire the row and
     * insert its replacement under `newId`. `ok` is false when that INSERT
     * fails; the retirement stays.
     */
    method UpdateOne(id: string, data: UpdateData, newId: string, now: string) returns (ok: bool)
      requires Valid()
      modifies this`users
      ensures Valid()
      ensures Progress(users, ok) == Step(old(users), id, data, newId, now)
    {
      StepKeepsDistinct(users, id, data, newId, now);
      var found := FindActive(users, id);
      if found.None? {
        return true;
      }
      var existing := users[found.value];
      if ManagerOnly(data) {
        users := Reassign(users, id, data.managerId.value, now);
        return true;
      }
      users := Deactivate(users, ByUserId(id));
      if HasId(users, newId) {
        return false;
      }
      users := users + [Replacement(existing, data, newId, now)];
      ok := true;
    }

    /**
     * The `forEach` over `user_ids`: the table becomes the fold of the
     * per-id steps, stopping at the first failed statement.
     */
    method UpdateAll(ids: seq<string>, data: UpdateData, freshId: nat -> string, clock: nat -> string)
      returns (ok: bool)
      requires Valid()
      modifies this`users
      ensures Valid()
      ensures Progress(users, ok) == Run(old(users), ids, data, freshId, clock, |ids|)
    {
      ghost var initial := users;
      var i := 0;
      while i < |ids|
        invariant 0 <= i <= |ids|
        invariant Run(initial, ids, data, freshId, clock, i) == Progress(users, true)
        invariant DistinctIds(users)
      {
        ghost var before := users;
        ok := UpdateOne(ids[i], data, freshId(i), clock(i));
        RunAdvance(initial, ids, data, freshId, clock, i, before, users, ok);
        if !ok {
          return;
        }
        i := i + 1;
      }
      ok := true;
    }

    /**
     * updateUser. `freshId(i)` and `clock(i)` stand for the UUID and the
     * timestamp the i-th listed id would use. After the two up-front checks,
     * the ids are processed one by one; a failed INSERT ends the batch with a
     * storage error, keeping what earlier statements wrote.
     */
    method UpdateUser(userIds: Option<seq<string>>, data: UpdateData,
                      freshId: nat -> string, clock: nat -> string) returns (r: Result<(), Error>)
      requires Valid()
      modifies this`users
      ensures Valid()
      ensures userIds.None? || userIds.value == [] ==>
                r == Err(Validation(UserIdsRequired)) && users == old(users)
      ensures userIds.Some? && userIds.value != []
              && Truthy(data.managerId) && !ActiveManager(managers, data.managerId.value) ==>
                r == Err(Validation(InvalidOrInactiveManager)) && users == old(users)
      ensures userIds.Some? && userIds.value != []
              && (Truthy(data.managerId) ==> ActiveManager(managers, data.managerId.value)) ==>
                var p := Run(old(users), userIds.value, data, freshId, clock, |userIds.value|);
                users == p.rows && (r.Ok? <==> p.ok) && (r.Err? ==> r == Err(StorageError))
    {
      if userIds.None? || userIds.value == [] {
        return Err(Validation(UserIdsRequired));
      }
      if Truthy(data.managerId) && !ActiveManager(managers, data.managerId.value) {
        return Err(Validation(InvalidOrInactiveManager));
      }
      var ok := UpdateAll(userIds.value, data, freshId, clock);
      if !ok {
        return Err(StorageError);
      }
      r := Ok(());
    }
  }
}

/** The documented end-to-end scenario, driven through the handlers' contracts alone. */
module Scenario {
  import opened Wrappers
  import opened Table
  import opened Service

  /**
   * Any create request that passes the checks against the seeded managers:
   * create it, list it by id, delete it by id, list again (empty), delete
   * again (still a success).
   */
  method CreateDeleteList(req: CreateRequest, newId: string, now: string)
    requires CheckCreate(req, SeedManagers).Ok?
    requires newId != ""
  {
    var store := new Store(SeedManagers);
    var details := CheckCreate(req, SeedManagers).value;
    var created := store.CreateUser(req, newId, now);
    assert created == Ok(newId);
    var row := NewUser(details, newId, now);
    assert store.users == [] + [row];

    var listed := store.GetUsers(ById(newId));
    ListNewRow([], row);
    assert listed == [row];

    assert store.users[0] == row && Selected(ByUserId(newId), row);
    assert AnySelected(store.users, ByUserId(newId));
    assert ChooseSelector(Some(newId), None) == Some(ByUserId(newId));
    var deleted := store.DeleteUser(Some(newId), None);
    assert deleted.Ok?;
    listed := store.GetUsers(ById(newId));
    ListAfterDelete([row], newId);
    assert listed == [];

    // The UPDATE still matches the retired row, so the second delete succeeds.
    DeleteAgainMatches([row], ByUserId(newId));
    deleted := store.DeleteUser(Some(newId), None);
    assert deleted.Ok?;
  }

  /** The same request under the seeded inactive manager is rejected and stores nothing. */
  method InactiveManagerRejected(req: CreateRequest, newId: string, now: string)
    requires CheckCreate(req, SeedManagers).Ok?
  {
    var store := new Store(SeedManagers);
    assert !ActiveManager(store.managers, "inactive-manager");
    var rejected := store.CreateUser(req.(managerId := Some("inactive-manager")), newId, now);
    assert rejected == Err(Validation(ManagerNotFoundOrInactive));
    assert store.users == [];
  }
}
