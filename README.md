# Users and reviews services of the movie catalog, in Dafny

This project models the two services of the movie catalog back end that hold
behaviour beyond routing:

- **The users service** keeps a user table and, through a junction table, a
  set of role ids for each user. Creating a user links it to exactly the
  `"USER"` role. Adding or removing a role goes through one guarded
  operation. It rejects the protected value `"USER"` with BAD_REQUEST, then
  an unknown role with NOT_FOUND, then an unknown user with NOT_FOUND. Only
  when all three guards pass does it link or unlink the role. Activation,
  activation-link and partial updates are filtered bulk updates of the user
  table. Lookups by id and by activation link return a not-found outcome
  instead of throwing.
- **The reviews service** keeps a review table. Rates move by exactly one in
  either direction and have no floor. A missing review gives NOT_FOUND and
  leaves the table as it was. Rows can be deleted by id or by author, and
  read by movie, by author or by id.

Layout:

- `outcomes.dfy` (`Outcomes`): `Option`, `Result`, the failure kinds and the
  HTTP status each one carries.
- `user_tables.dfy` (`UserTables`): the user table (`map<int, User>`), the
  role table (role value to role id) and the junction (`map<int, set<int>>`)
  as values. It holds the pure functions that say what each update and each
  guard does, and the lemmas about them: idempotence, round trips and frames.
- `users_service.dfy` (`Users`): class `UsersService` with these tables as
  fields. Its methods change them in place, and each method's `ensures` ties
  the new state to the functions of `UserTables`. `Valid()` holds
  these invariants:
  - the role table's ids are distinct (they are its primary key), and it
    holds the `"USER"` role;
  - every row is keyed by its own id;
  - the users with a junction entry are exactly the users in the table;
  - every link names an existing role;
  - every user holds the `"USER"` role;
  - every id in use is below the next id to hand out.
- `review_tables.dfy` (`ReviewTables`): the review table as a sequence of
  rows in table order, with the `where` filters, the filtered deletes, the
  primary-key lookup and the rate change as functions, and the lemmas about
  them: partition, key uniqueness and the increase/decrease round trip.
- `reviews_service.dfy` (`Reviews`): class `ReviewsService`, whose `rows`
  field is the table and whose invariant is the unique primary key.

Each service file ends with a small client method. It calls the methods in
sequence, and what it asserts follows from their contracts alone.

Facts about the code that the model keeps:

- The role guards run in a fixed order: `"USER"` first, then the role, then
  the user. A request naming both an unknown role and an unknown user
  reports the role.
- A successful add or remove returns the request.
- Removing a role the user does not hold succeeds.
- The movie, people and genre services are not modelled.

Failures are modelled as error kinds, not message text. `RoleNotFound` and
`UserNotFound` are kept apart because the service builds a different message
for each, and this is what makes the order of the guards observable.

## Model

| member | source | states |
|---|---|---|
| UserTables.Activate | user/src/users/users.service.ts:27-29 | a user is activated afterwards iff it was already active or its link matches; no other field of any user changes; the key set stays |
| UserTables.ActivateIdempotent | user/src/users/users.service.ts:27-29 | activating twice with the same link equals activating once |
| UserTables.ActivateChangesOnlyMatching | user/src/users/users.service.ts:27-29 | an inactive user's row changes iff its activation link is the given link |
| UserTables.SetActivationLink | user/src/users/users.service.ts:31-33 | every user with the email gets the new link; users with other emails are unchanged; only the link field changes |
| UserTables.LinkThenActivate | user/src/users/users.service.ts:27-33 | setting a link by email and then activating by that link activates every user with that email |
| UserTables.UpdateById | user/src/users/users.service.ts:62-64 | only the row whose id is the patch's id changes, and it becomes the patched row; an unknown id changes nothing |
| UserTables.WithIdIsPrimaryKeyMatch | user/src/users/users.service.ts:62-68 | in a table keyed by id, `where: {id}` matches exactly the row stored under that id, so an update by id affects at most one row, and one exactly when the id exists |
| UserTables.UpdateByIdIdempotent | user/src/users/users.service.ts:62-64 | applying the same partial update twice equals applying it once |
| UserTables.CheckRoleRequest | user/src/users/users.service.ts:83-97 | "USER" is rejected whatever else holds; otherwise an unknown role is reported, and it takes precedence over an unknown user; success iff role and user exist, with that role's id |
| UserTables.ApplyRoleOp | user/src/users/users.service.ts:99-105 | add leaves the role in the user's set, remove leaves it absent; the user's other roles and every other user's set are unchanged |
| UserTables.AddPresentRoleIsNoOp | user/src/users/users.service.ts:99-101 | adding a role already held leaves the junction unchanged |
| UserTables.AddIdempotent | user/src/users/users.service.ts:99-101 | adding the same role twice equals adding it once |
| UserTables.AddThenRemoveRestores | user/src/users/users.service.ts:99-104 | adding a role not held and then removing it restores the junction |
| UserTables.RemoveThenAddRestores | user/src/users/users.service.ts:99-104 | removing a held role and then adding it back restores the junction |
| UserTables.RoleOpKeepsRolesKnown | user/src/users/users.service.ts:99-104 | linking or unlinking an existing role keeps every link pointing at an existing role |
| UserTables.CheckedRoleIsNotProtected | user/src/users/users.service.ts:85-89 | with distinct role ids, a request that passes the guards never targets the "USER" role's id |
| UserTables.RoleRequestStatus | user/src/users/users.service.ts:83-97 | a rejected role request carries BAD_REQUEST exactly when it named "USER", and NOT_FOUND for an unknown role or user |
| UserTables.RoleOpKeepsProtected | user/src/users/users.service.ts:99-104 | linking or unlinking any role other than "USER" keeps "USER" on every user |
| Users.UsersService.CreateUser | user/src/users/users.service.ts:19-25 | the new user gets a fresh id and the dto's fields, is not activated, and its role set is exactly the "USER" role's id; nothing else changes |
| Users.UsersService.ActivateUser | user/src/users/users.service.ts:27-29 | the table becomes `Activate` of the old one, and the result counts the users that have that link |
| Users.UsersService.UpdateActivationLink | user/src/users/users.service.ts:31-33 | the table becomes `SetActivationLink` of the old one, and the result counts the users with that email |
| Users.UsersService.GetUserById | user/src/users/users.service.ts:43-50 | a present id gives its row; an absent id gives a NOT_FOUND outcome, returned rather than thrown |
| Users.UsersService.GetUserByEmail | user/src/users/users.service.ts:39-41 | some user with that email, or none exactly when no user has it |
| Users.UsersService.GetUserByLink | user/src/users/users.service.ts:74-80 | some stored user with that link, or NOT_FOUND exactly when no user has it |
| Users.UsersService.DeleteUser | user/src/users/users.service.ts:56-60 | only the row with that id, and its links, go; the result is the lookup taken before the delete, NOT_FOUND for an absent id |
| Users.UsersService.UpdateUser | user/src/users/users.service.ts:62-64 | the table becomes `UpdateById` of the old one; the result is the number of rows the id filter matches, at most one and one exactly when the id exists |
| Users.UsersService.UpdateUserPhone | user/src/users/users.service.ts:66-68 | only the phone number of the row with that id changes; the result is the number of rows the id filter matches, at most one and one exactly when the id exists |
| Users.UsersService.AddOrRemoveRole | user/src/users/users.service.ts:83-106 | a failed guard returns that failure and leaves the junction unchanged; otherwise the dto is returned and the junction becomes `ApplyRoleOp` of the old one |
| Users.UsersService.AddRole | user/src/users/users.service.ts:52-54 | "USER" gives BAD_REQUEST, an unknown role or user gives NOT_FOUND, each with no change; success iff all guards pass, and then the role is in the user's set and only that user's set gained that role |
| Users.UsersService.RemoveRole | user/src/users/users.service.ts:70-72 | same guards as add; on success the role is absent from the user's set and only that role left only that user's set |
| ReviewTables.Where | comments/src/reviews/reviews.service.ts:34-40 | a row is in the result iff it is in the table and its column has the key |
| ReviewTables.Except | comments/src/reviews/reviews.service.ts:20-26 | a row survives the delete iff it is in the table and its column does not have the key |
| ReviewTables.WhereExceptPartition | comments/src/reviews/reviews.service.ts:20-26 | the rows deleted and the rows kept partition the table (as multisets), so the delete count is the number of matching rows |
| ReviewTables.ExceptKeepsUniqueIds | comments/src/reviews/reviews.service.ts:20-26 | deleting rows keeps the primary key unique |
| ReviewTables.AtMostOneById | comments/src/reviews/reviews.service.ts:20-22 | under a unique primary key at most one row has a given id |
| ReviewTables.NoMatchNoRows | comments/src/reviews/reviews.service.ts:34-40 | a filter whose key no row has selects nothing |
| ReviewTables.ExceptThenWhereIsEmpty | comments/src/reviews/reviews.service.ts:24-26 | after deleting by a column value, no row with that value remains |
| ReviewTables.IndexOf | comments/src/reviews/reviews.service.ts:42-44 | the position of the first row with that id, or none exactly when no row has it |
| ReviewTables.Find | comments/src/reviews/reviews.service.ts:42-44 | a row of the table with that id, or none exactly when no row has it |
| ReviewTables.SaveRow | comments/src/reviews/reviews.service.ts:69 | the row with the saved row's id is replaced; positions and every other row stay |
| ReviewTables.ChangeRate | comments/src/reviews/reviews.service.ts:59-71 | rows with other ids are unchanged, the length stays, and an absent id leaves the table unchanged |
| ReviewTables.FoundIsOnlyRow | comments/src/reviews/reviews.service.ts:42-44 | under a unique key, the row found for an id is the only row with that id |
| ReviewTables.ChangeRateOnlyRate | comments/src/reviews/reviews.service.ts:59-71 | a rate change alters only the rate of the targeted review, by exactly one step, and keeps the key unique |
| ReviewTables.FindAfterChangeRate | comments/src/reviews/reviews.service.ts:59-71 | after the change, the review is found with its old fields and its stepped rate |
| ReviewTables.IncreaseThenDecreaseRestores | comments/src/reviews/reviews.service.ts:51-57 | increasing and then decreasing the same review restores the table |
| Reviews.ReviewsService.RemoveOneById | comments/src/reviews/reviews.service.ts:20-22 | only the row with that id goes; the count is 1 iff it existed and never more |
| Reviews.ReviewsService.RemoveAllByUserId | comments/src/reviews/reviews.service.ts:24-26 | exactly that user's reviews go, none of them remain, and the count is how many there were |
| Reviews.ReviewsService.GetByMovieId | comments/src/reviews/reviews.service.ts:34-36 | exactly the reviews of that movie, each no more often than in the table |
| Reviews.ReviewsService.GetByUserId | comments/src/reviews/reviews.service.ts:38-40 | exactly the reviews of that user, each no more often than in the table |
| Reviews.ReviewsService.GetOneById | comments/src/reviews/reviews.service.ts:42-44 | the review with that id, or none exactly when there is none |
| Reviews.ReviewsService.ChangeRateOf | comments/src/reviews/reviews.service.ts:59-71 | an absent id gives NOT_FOUND and no change; otherwise the table becomes `ChangeRate` of the old one and the updated review is returned |
| Reviews.ReviewsService.IncreaseRate | comments/src/reviews/reviews.service.ts:51-53 | an existing review's rate becomes the old rate plus one; a missing one gives NOT_FOUND and no change |
| Reviews.ReviewsService.DecreaseRate | comments/src/reviews/reviews.service.ts:55-57 | an existing review's rate becomes the old rate minus one, possibly negative; a missing one gives NOT_FOUND and no change |

## Left out

- Users.UsersService.CreateUser: the `"USER"` role is assumed to exist, since the constructor requires it and `Valid()` keeps it. The code reads its id without a check. When the role is missing, the code has already inserted the user before it fails, so that user is left with no roles. The model does not capture that crash.
- Sequelize persistence, `async`/`await` and concurrency: every call is one atomic step on in-memory tables. Lost updates between two concurrent rate changes, which each read and then save the row, are not modelled.
- The roles service: the role table is a read-only input, mapping each role value to its id. `getRoleByValue` is a lookup in it.
- The user model, the review model, the junction model and the DTOs are not part of this model. Their fields and defaults are assumptions of the model, not something the services show. The service names `email`, `activationLink`, `isActivated` and `phoneNumber` of a user. `password` and the creation fields (email, password, link) are assumed. It also assumes that a new user gets an empty phone number and starts inactive. Of a review, the service names `id`, `userId`, `movieId` and `rate`, and `text` stands for its other columns.
- Auto-increment keys: new user ids come from a counter in the service. Removing a user also removes its junction row, which is the cascading delete of a many-to-many junction.
- Rates and ids are unbounded integers in the model. The service computes `rate + 1` and `rate - 1` as JavaScript numbers, which are exact only up to 2^53, and saves the result to a database column that has its own range. Overflow, rounding or a failed save near those bounds is not modelled.
- Unique constraints other than the primary keys (for example on email) are not modelled.
- Users.UsersService.GetUserByLink and Users.UsersService.GetUserByEmail: when several users match, the model returns any one of them. The database's choice of row is not modelled.
- Reviews.ReviewsService.GetByMovieId and Reviews.ReviewsService.GetByUserId: results come in table order, and no ordering beyond that is promised.
- Eager loading: `getAllUsers` and `ReviewsService.getAll` return the whole table, and `getUserByEmail` its one row, with associations loaded (`include: { all: true }`); `createUser` returns the new user with `roles` set to the "USER" role. The model returns bare rows in all these cases: the table is the `users` or `rows` field, a user's roles are its junction entry, and associated rows from other services are not modelled.
- `ReviewsService.create`: this is a database insert whose failure branch returns the driver's error object. Storage faults are not modelled.
- `ReviewsService.update`: it fails on a missing review, because it uses the looked-up row without a check. This crash behaviour is not modelled.
- Error message text is not modelled. Only the failure kind and its HTTP status are.
- The string `operation` argument becomes the enums `RoleOp` and `RateOp`. The code's fall-through for unknown strings (returning nothing, or saving an unchanged review) is therefore not modelled, because only the two literals are ever passed.
- Generating activation links and sending email are not in the code and are not modelled.
- Message-pattern dispatch in the users controller, the movie HTTP controller and the module wiring only forward or configure. They are not modelled.
