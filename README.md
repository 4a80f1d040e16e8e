# User management service — Dafny model

This project models the request handlers of a small user-management service
(`controllers/userController.js`). The service keeps a `users` table and a
`managers` table in SQLite and answers four requests:

- **create** validates and normalises a user and inserts it as an active row;
- **list** returns the active rows that match every supplied filter;
- **soft delete** marks the rows picked by `user_id`, or else by `mob_num`, inactive;
- **batch update** walks a list of ids and either reassigns the manager in place
  or retires the row and inserts a replacement under a fresh id.

The model is an in-memory store. `Service.Store` is a class whose `users` field is
the table (a sequence of rows in insertion order) and whose `managers` field maps a
manager id to its active flag. The four handlers are its methods; only `users`
is in their `modifies` frame, so the managers are never touched. `Valid()` is the
table's primary key: no two rows share a `user_id`. Every handler keeps it.

Modules:

- `Wrappers` (`wrappers.dfy`): `Option` and `Result`.
- `Formats` (`formats.dfy`): the mobile-number and PAN (permanent account number)
  rules of create, as pure functions with lemmas. `FormatExamples` holds the worked
  examples.
- `Table` (`table.dfy`): the row type, JavaScript truthiness of an optional field,
  the list query (`Select`) and the soft-delete UPDATE (`Deactivate`).
- `Batch` (`batch.dfy`): one iteration of the update loop (`Step`) and the loop as a
  left fold over the id list (`Run`), with lemmas about both.
- `Service` (`store.dfy`): the create checks (`CheckCreate`) and the `Store` class.
  The batch update is split into `UpdateOne` (one id) and `UpdateAll` (the loop),
  each proved against `Batch.Step` and `Batch.Run`.
- `Scenario` (`store.dfy`): two clients that use the method contracts alone.
  `Scenario.CreateDeleteList` runs create → list → delete → list → delete, and
  `Scenario.InactiveManagerRejected` creates under the seeded inactive manager.

Foreign calls become parameters. The UUID that create generates is the `newId`
argument, and the clock is `now`. In the batch update, `freshId(i)` and `clock(i)`
are the UUID and the timestamp that the i-th listed id would use. No freshness is
assumed. An INSERT whose id is already in the table violates the primary key, and
the handler then answers with a storage error, as SQLite would make it do. In the
batch update, the retirement already done for that id and every earlier iteration
stay written (`Batch.RunStopsAtFailure`).

Optional JSON fields are `Option<string>`. A field counts as supplied when it is
present and non-empty (`Table.Truthy`), which is JavaScript's truthiness for strings.

Where the code differs from the service's documented intent, the model follows the
code:

- Deleting a user who is already inactive succeeds. The UPDATE has no `is_active`
  condition, and SQLite counts the matched row as changed, so the handler answers
  200 rather than 404 (`Table.DeleteAgainMatches`, and the second delete in
  `Scenario.CreateDeleteList`).
- An update whose `update_data` supplies no field at all takes the replace branch.
  The row is copied under a fresh id (`Batch.EmptyUpdateReplaces`).
- The replace branch stores `full_name`, `mob_num` and `pan_num` exactly as
  supplied. It neither normalises nor validates them. `Batch.Replacement` keeps
  this asymmetry with create.

## Model

| member | source | states |
|---|---|---|
| Formats.StripPrefix | controllers/userController.js:12 | a leading "+91" is removed; otherwise a leading "0" is removed; otherwise the input is returned unchanged |
| Formats.StripPrefixUndoes | controllers/userController.js:12 | stripping inverts prefixing: "+91" + x and "0" + x both strip back to x, for every x |
| Formats.ValidMobile | controllers/userController.js:13 | defines `^[6-9]\d{9}$`: ten ASCII digits, the first 6 to 9. It is a definition without ensures; NormalizeMobile and NormalizeMobileExactly carry its use |
| Formats.NormalizeMobile | controllers/userController.js:12-15 | an accepted number is ten digits starting 6-9, and the input was that number with no prefix, a "0" or a "+91" |
| Formats.NormalizeMobileExactly | controllers/userController.js:12-15 | both directions: a raw input normalises to v exactly when v is a valid number and the input is v, "0"+v or "+91"+v |
| Formats.OnlyOnePrefixStripped | controllers/userController.js:12-13 | a valid number behind two prefixes, each "0" or "+91" ("00", "+910", "0+91", "+91+91"), is rejected, because only one prefix is stripped |
| Formats.StripsOnce | controllers/userController.js:12-13 | stripping one prefix from a string that still starts with "0" or "+" leaves a number the pattern rejects |
| FormatExamples.MobileCountryCodeExample | controllers/userController.js:12-15 | "+919876543210" becomes "9876543210" |
| FormatExamples.MobileTrunkPrefixExample | controllers/userController.js:12-15 | "09876543210" becomes "9876543210" |
| FormatExamples.MobileBareExample | controllers/userController.js:12-15 | "9876543210" is accepted unchanged |
| FormatExamples.MobileRejectExample | controllers/userController.js:12-15 | "5876543210" is rejected, since a number must start with 6 to 9 |
| Formats.NormalizePan | controllers/userController.js:17-20 | an accepted PAN is 5 uppercase letters, 4 digits and an uppercase letter; it is the uppercased input and is fixed under uppercasing |
| Formats.UpperChar | controllers/userController.js:17 | defines toUpperCase of one character for the characters that can matter to the PAN pattern, keeping every other character. A definition without ensures; UpperCharStable carries its property |
| Formats.UpperCharStable | controllers/userController.js:17 | uppercasing the uppercase form of a character changes nothing |
| Formats.ToUpper | controllers/userController.js:17 | defines toUpperCase on a string, character by character. A definition without ensures; ToUpperAppend, ToUpperIdempotent, ToUpperKeepsUpperAndDigits and ToUpperPointwise carry its properties |
| Formats.ToUpperAppend | controllers/userController.js:17 | uppercasing distributes over concatenation |
| Formats.ValidPan | controllers/userController.js:18 | defines `^[A-Z]{5}[0-9]{4}[A-Z]{1}$`. A definition without ensures; NormalizePan, PanOf and ValidPanAccepted carry its use |
| Formats.ToUpperIdempotent | controllers/userController.js:17 | uppercasing twice equals uppercasing once |
| Formats.ToUpperKeepsUpperAndDigits | controllers/userController.js:17 | a string of uppercase letters and digits is its own uppercase form |
| Formats.ToUpperPointwise | controllers/userController.js:17 | where each character uppercases to one character, the result is the position-by-position uppercase |
| Formats.PanOf | controllers/userController.js:17-20 | an input whose uppercase form is a valid PAN is accepted as that form |
| Formats.ValidPanAccepted | controllers/userController.js:17-20 | every PAN already in canonical form is accepted and stored unchanged |
| Formats.PanIgnoresCase | controllers/userController.js:17-20 | uppercasing the input first never changes the outcome of the PAN check |
| FormatExamples.PanLowercaseExample | controllers/userController.js:17-20 | "abcde1234f" is accepted and stored as "ABCDE1234F" |
| FormatExamples.PanTrailingDigitExample | controllers/userController.js:17-20 | "ABCDE12345" is rejected, since its last character is not a letter |
| FormatExamples.PanSharpSExample | controllers/userController.js:17-20 | the sharp s uppercases to "SS", so the nine-character input "ßcde1234f" is accepted as "SSCDE1234F" |
| Service.CheckCreate | controllers/userController.js:8-25 | the checks run in order and the first failing one decides the error, in both directions: MissingFields exactly when a field is missing; with all fields supplied, an invalid mobile gives InvalidMobile, else an invalid PAN gives InvalidPan, else an unknown or inactive manager gives ManagerNotFoundOrInactive, and each of these errors arises only so; on success the fields are the normalised ones and the manager is active |
| Service.AllSupplied | controllers/userController.js:8 | defines the first check: all four fields truthy. A definition without ensures; CheckCreate ties MissingFields to its negation in both directions |
| Service.NewUser | controllers/userController.js:27-36 | defines the inserted row: the normalised fields, both timestamps the same instant, active. A definition without ensures; CreateUser states that exactly this row is appended and ListNewRow that it is then listed |
| Service.CreateAcceptsExactly | controllers/userController.js:8-25 | both directions: create's checks pass exactly when all four fields are present, both formats are valid and the manager is active |
| Service.Store.constructor | db/sqlite.js:2-3 | a new store has no users and the given managers |
| Service.Store.CreateUser | controllers/userController.js:5-43 | a failed check leaves the table unchanged and returns that error; a taken id is a storage error; otherwise exactly one active row is appended, with the normalised fields and created_at == updated_at, its id is returned, and ids stay unique |
| Table.ActiveManager | controllers/userController.js:22-23 | defines the manager lookup `manager_id = ? AND is_active = 1` (also lines 120-121). A definition without ensures; CheckCreate, CreateAcceptsExactly and UpdateUser state its use |
| Table.Matches | controllers/userController.js:49-65 | defines the WHERE clause the list request builds: active, and equal to each truthy filter. A definition without ensures; Select carries it in both directions |
| Table.Select | controllers/userController.js:49-68 | both directions: a row is listed exactly when it is in the table, is active and equals every supplied filter, absent or empty filters being ignored |
| Table.ListAllActive | controllers/userController.js:49 | with no filter, the list is exactly the active rows |
| Table.ListNewRow | controllers/userController.js:52-55 | after a row with a new id is appended, listing by that id returns that row alone |
| Table.ListRetired | controllers/userController.js:52-55 | an id with no active row is never listed |
| Table.KeyIdentifiesRow | db/sqlite.js:8 | the primary key on `user_id`: two rows with the same id are the same row |
| Service.Store.GetUsers | controllers/userController.js:46-74 | returns exactly the active rows matching the filters and changes nothing |
| Table.ChooseSelector | controllers/userController.js:80-93 | both selectors absent gives none; user_id wins when present; mob_num is used only when user_id is absent or empty |
| Table.AnySelected | controllers/userController.js:96-100 | defines `result.changes !== 0`: some row, active or not, matches the WHERE clause. A definition without ensures; DeleteUser ties not-found to its negation in both directions |
| Table.Deactivate | controllers/userController.js:84-96 | rows the selector picks end up inactive with every other field kept; rows it does not pick are unchanged; no row is added or removed |
| Table.DeactivateKeepsIds | controllers/userController.js:84-96 | the soft delete keeps every id in place, so unique ids stay unique |
| Table.DeactivateRetires | controllers/userController.js:84-96 | afterwards no picked row is active, and no row became active |
| Table.DeactivateIdempotent | controllers/userController.js:84-96 | deleting twice with one selector leaves the same table as deleting once |
| Table.DeleteAgainMatches | controllers/userController.js:96-102 | a repeated delete matches the same rows as before, so it reports success and not not-found |
| Table.ListAfterDelete | controllers/userController.js:84-96 | after a delete by id, listing by that id returns nothing |
| Service.Store.DeleteUser | controllers/userController.js:77-107 | no selector gives a validation error with the table unchanged; otherwise the picked rows are deactivated, and the answer is not-found exactly when no row was picked |
| Batch.FindActive | controllers/userController.js:128-129 | returns the first active row with the id, or none exactly when no active row has it |
| Batch.Reassign | controllers/userController.js:132-133 | rows with the id get the new manager and timestamp; all others are unchanged |
| Batch.ManagerOnly | controllers/userController.js:131 | defines the in-place condition: manager_id truthy and no other field truthy. A definition without ensures; StepInPlace and StepReplaces state the two branches it selects |
| Batch.Replacement | controllers/userController.js:137-147 | defines the inserted row: fresh id, each field the supplied value when truthy, else the existing one, both timestamps new, active. A definition without ensures; StepReplaces states its fields |
| Batch.Step | controllers/userController.js:128-148 | defines one iteration of the forEach body. A definition without ensures; StepFrame, StepSkipsMissing, StepInPlace, StepReplaces and StepKeepsDistinct carry its properties, and UpdateOne is proved equal to it |
| Batch.StepFrame | controllers/userController.js:127-148 | one iteration keeps the existing rows' ids in place, touches only rows with the processed id, adds at most one row, and never adds a row whose id is already present |
| Batch.StepKeepsDistinct | controllers/userController.js:134-147 | an iteration keeps user_id unique |
| Batch.StepSkipsMissing | controllers/userController.js:128-129 | an id with no active row is skipped with no change and no error |
| Batch.StepInPlace | controllers/userController.js:131-133 | with only manager_id supplied, the row keeps its id, created_at and other fields, gets the new manager and timestamp; nothing else changes and no row is added |
| Batch.StepReplaces | controllers/userController.js:134-147 | otherwise the old row is retired and no active row has its id; unless the fresh id is taken, one active row is appended under the fresh id, each field from update_data when supplied and from the old row otherwise, with both timestamps new |
| Batch.EmptyUpdateReplaces | controllers/userController.js:131-147 | with no field supplied, the row is still retired and copied unchanged under a fresh id |
| Batch.StepKeepsRetired | controllers/userController.js:127-149 | a present id with no active row never regains one in a later iteration |
| Batch.Run | controllers/userController.js:126-149 | defines the forEach over `user_ids` as a left fold of Step that stops at the first failed statement. A definition without ensures; RunFrame, RunStopsAtFailure, RunKeepsDistinct, RunRetires and RunInPlace carry its properties, and UpdateAll is proved equal to it |
| Batch.RunFrame | controllers/userController.js:127-149 | the loop keeps existing ids in place, never shrinks the table, and leaves every row whose id is not listed unchanged |
| Batch.RunKeepsPresent | controllers/userController.js:127-149 | an id present in the table is still present after the loop (rows are retired, never removed) |
| Batch.RunAdvance | controllers/userController.js:127-155 | processing one more id either extends the batch by that iteration or, when its INSERT fails, ends the whole batch in that failed state |
| Batch.RunStopsAtFailure | controllers/userController.js:126-155 | once a statement fails, the remaining ids change nothing |
| Batch.RunKeepsDistinct | controllers/userController.js:127-149 | the batch keeps user_id unique |
| Batch.StepRetiresListed | controllers/userController.js:134-147 | a replace-branch iteration for an id leaves no active row with that id, and never revives an id already retired |
| Batch.RunRetires | controllers/userController.js:127-149 | after a successful batch that supplies a field besides the manager, no listed id that was in the table has an active row |
| Batch.StepReassigns | controllers/userController.js:131-133 | one manager-only iteration extends the in-place reassignment to one more listed id |
| Batch.RunInPlace | controllers/userController.js:127-149 | a manager-only batch always succeeds and adds no row; exactly the active listed rows get the new manager, with only updated_at changed besides |
| Service.Store.UpdateOne | controllers/userController.js:127-148 | processing one id leaves the table and the success flag exactly as one step of the loop specifies, and keeps ids unique |
| Service.Store.UpdateAll | controllers/userController.js:126-155 | the loop over `user_ids` leaves the table and the success flag exactly as the fold of the per-id steps, stopping at the first failed statement, and keeps ids unique |
| Service.Store.UpdateUser | controllers/userController.js:110-156 | a missing or empty id list, or an unknown or inactive new manager, is rejected with the table unchanged; otherwise the table becomes the fold of the per-id steps, and the answer is a storage error exactly when a step failed |

## Left out

- HTTP routing and JSON responses (`routes/userRoutes.js`, `app.js`): a response is a `Result`, and the status codes are the three error kinds (validation, not found, storage).
- The SQLite engine, prepared statements and query-string building: each statement is a function on the table. The only storage failure modelled is a primary-key collision on INSERT. Disk and I/O failures are not modelled.
- Schema creation and first-run seeding in `db/sqlite.js`: the constructor takes the manager map. `Service.SeedManagers` holds the three seeded managers, but the "only when the table is empty" logic is not modelled. `scripts/insertManager.js` is not part of this model.
- Logging through `console.error`.
- Concurrency between requests and transactions: each handler runs to completion on its own.
- JSON values that are not strings, such as a numeric `mob_num` (on which `replace` throws) or non-string entries in `user_ids`. Every field is a string or absent.
- A request without `update_data` (destructuring it throws before the try block): `update_data` is always present.
- Timestamp formats: create uses an ISO string and the update statements use SQLite's `CURRENT_TIMESTAMP`. Both are opaque strings supplied by the caller.
- Row order: SELECT without ORDER BY has no guaranteed order in SQLite. The model returns rows in insertion order, and `.get()` returns the first active match.
- toUpperCase: the model maps ASCII a-z, U+0131, U+017F, U+00DF and the ligatures U+FB00-U+FB06. Every other character is kept as it is. The PAN check accepts the same inputs either way, because the uppercase form of any other character that is not already A-Z or 0-9 contains a character outside A-Z and 0-9.
- Batch.RunInPlace: states that only `updated_at` changes besides the manager, but not which clock reading it gets (it gets the reading of the id's last occurrence in the list).
- Batch.RunRetires: covers only batches in which every statement succeeded. For a failed batch, the ids after the failure are not processed.
