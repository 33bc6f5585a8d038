# Notification state store

A Dafny model of the notification service of a reservation system. Each
notification has an id, a message, an optional reservation id, the login of
its owner, and two flags: `deleted` (a soft-delete tombstone) and `read`.
The model covers the entity class, the Spring Data repository's derived
queries and its store contract, the service's lifecycle transitions and
queries, and the id checks of the REST controller.

Layout, one module per source file:

- `wrappers.dfy` (`Wrappers`): `Option`, `Result`, `Outcome`.
- `domain.dfy` (`Domain`): the entity as a class with nullable fields,
  setters, fluent setters, `equals` and `hashCode`. `Fields` holds one
  snapshot of those fields; the DTO is represented by the same type because
  the mapper copies the six fields one to one. `Row` is a stored row, whose
  non-null columns hold values.
- `repository.dfy` (`Repository`): the table is `map<Id, Row>`. The six
  derived queries are filters or counts over it. `Persist` and `PersistAll`
  say what `save` and `saveAll` write. The class `NotificationRepository`
  is the store: the table plus the id sequence, with `Save`, `SaveAll` and
  `DeleteById`.
- `service.dfy` (`Service`): for each transition, a function saying what it
  does to the table (`MarkRead`, `MarkAllRead`, `SoftDelete`,
  `SoftDeleteForUser`, `Merge`) and lemmas about it. Then the service
  methods. They work as the source does: load entities, call setters, save
  them one at a time or as a batch. Each is proved to produce exactly the
  state the matching function describes. The queries are functions.
- `resource.dfy` (`Resource`): the id checks of create, update and patch, the
  decision each endpoint takes, and lemmas on what the checks guarantee.

The logged-in user, which the source reads from the security context, is an
explicit `currentLogin: Option<string>` argument. Each service method is one
atomic step on the store.

Behaviour the model keeps on purpose, because the code does it:

- `marquerLue` reads the current login and never uses it. Any stored
  notification can be marked read, whoever owns it.
- `marquerToutLue` does nothing when the login is missing or empty. Otherwise
  it compares logins exactly and ignores the `deleted` flag, so it also marks
  soft-deleted records read. The history queries compare logins ignoring case.
  `MarkAllReadIsCaseSensitive` shows one record that the history lists for
  `alice` and that mark-all-read leaves unread.
- Both history queries fail (`NoCurrentUser`) when nobody is logged in.
- An update or patch whose id is not stored is rejected as a bad request with
  key `idnotfound`, not as 404.

Behaviour a reader might expect that the code does not have:

- Marking all read compares logins exactly, not ignoring case.
- The unread count compares logins exactly; the unread history ignores case.
  So the count can be smaller than the unread history
  (`CountWithinNonLueHistory`), not always equal to it.
- Nothing defaults `deleted` to false on create. The DTO's value is stored
  as given. A null `deleted`, `read`, `userLogin` or `message` makes the
  save fail (`ConstraintViolation`).
- Update and patch can change `userLogin`. The code does not keep it fixed.
- A missing current user makes the history queries fail. They do not return
  an empty result.

## Model

| member | source | states |
|---|---|---|
| `Domain.ToRow` | src/main/java/sn/sonatel/dsi/ins/imoc/domain/Notification.java:17-40 | a row exists exactly when message, userLogin, deleted and read are all non-null (the non-null columns); reservationId may be null |
| `Domain.RowFields` | src/main/java/sn/sonatel/dsi/ins/imoc/repository/NotificationRepository.java:17 | the entity `findById` loads from a row carries the row's key, and persisting it again writes the same row |
| `Domain.PersistThenLoad` | src/main/java/sn/sonatel/dsi/ins/imoc/domain/Notification.java:17-40 | persisting entity values that carry an id and loading them back gives the same values |
| `Domain.Notification.constructor` | src/main/java/sn/sonatel/dsi/ins/imoc/service/NotificationService.java:173 | `new Notification()` has every field null |
| `Domain.Notification.Loaded` | src/main/java/sn/sonatel/dsi/ins/imoc/service/NotificationService.java:119-121 | the managed entity for a stored row holds that row's id and columns |
| `Domain.Notification.FromFields` | src/main/java/sn/sonatel/dsi/ins/imoc/service/NotificationService.java:44 | the mapped entity holds exactly the DTO's field values |
| `Domain.Notification.SetId` | src/main/java/sn/sonatel/dsi/ins/imoc/domain/Notification.java:53-55 | only `id` changes, to the given value |
| `Domain.Notification.SetMessage` | src/main/java/sn/sonatel/dsi/ins/imoc/domain/Notification.java:66-68 | only `message` changes, to the given value |
| `Domain.Notification.SetReservationId` | src/main/java/sn/sonatel/dsi/ins/imoc/domain/Notification.java:79-81 | only `reservationId` changes, to the given value |
| `Domain.Notification.SetUserLogin` | src/main/java/sn/sonatel/dsi/ins/imoc/domain/Notification.java:92-94 | only `userLogin` changes, to the given value |
| `Domain.Notification.SetDeleted` | src/main/java/sn/sonatel/dsi/ins/imoc/domain/Notification.java:105-107 | only `deleted` changes, to the given value |
| `Domain.Notification.SetRead` | src/main/java/sn/sonatel/dsi/ins/imoc/domain/Notification.java:118-120 | only `read` changes, to the given value |
| `Domain.Notification.Id` | src/main/java/sn/sonatel/dsi/ins/imoc/domain/Notification.java:48-51 | sets `id` alone and returns the same object |
| `Domain.Notification.Message` | src/main/java/sn/sonatel/dsi/ins/imoc/domain/Notification.java:61-64 | sets `message` alone and returns the same object |
| `Domain.Notification.ReservationId` | src/main/java/sn/sonatel/dsi/ins/imoc/domain/Notification.java:74-77 | sets `reservationId` alone and returns the same object |
| `Domain.Notification.UserLogin` | src/main/java/sn/sonatel/dsi/ins/imoc/domain/Notification.java:87-90 | sets `userLogin` alone and returns the same object |
| `Domain.Notification.Deleted` | src/main/java/sn/sonatel/dsi/ins/imoc/domain/Notification.java:100-103 | sets `deleted` alone and returns the same object |
| `Domain.Notification.Read` | src/main/java/sn/sonatel/dsi/ins/imoc/domain/Notification.java:113-116 | sets `read` alone and returns the same object |
| `Domain.Notification.Equals` | src/main/java/sn/sonatel/dsi/ins/imoc/domain/Notification.java:125-133 | `equals`: an object equals itself; null is never equal; an entity with a null id equals only itself; another object is equal exactly when it has the same non-null id |
| `Domain.Notification.HashCode` | src/main/java/sn/sonatel/dsi/ins/imoc/domain/Notification.java:136-139 | `hashCode` is the class's hash, the same for every instance and independent of the fields |
| `Domain.EqualsReflexive` | src/main/java/sn/sonatel/dsi/ins/imoc/domain/Notification.java:126-128 | an object always equals itself |
| `Domain.EqualsDistinct` | src/main/java/sn/sonatel/dsi/ins/imoc/domain/Notification.java:125-133 | two distinct objects are equal exactly when both ids are non-null and equal |
| `Domain.NullIdEqualsNoOther` | src/main/java/sn/sonatel/dsi/ins/imoc/domain/Notification.java:132 | an entity with a null id equals no other object, in either direction |
| `Domain.EqualsIsEquivalence` | src/main/java/sn/sonatel/dsi/ins/imoc/domain/Notification.java:125-133 | `equals` is symmetric and transitive |
| `Domain.HashCodeSameForAll` | src/main/java/sn/sonatel/dsi/ins/imoc/domain/Notification.java:136-139 | every instance has the same hash code whatever its fields, so equal objects hash equally |
| `Repository.Where` | src/main/java/sn/sonatel/dsi/ins/imoc/repository/NotificationRepository.java:18-21 | a derived query keeps exactly the stored rows that satisfy its filter, each unchanged |
| `Repository.EqualsIgnoreCase` | src/main/java/sn/sonatel/dsi/ins/imoc/repository/NotificationRepository.java:18-19 | the `IgnoreCase` comparison: equal logins always match, and matching logins have the same length |
| `Repository.ExactImpliesIgnoreCase` | src/main/java/sn/sonatel/dsi/ins/imoc/repository/NotificationRepository.java:18 | equal logins are equal ignoring case; `Alice` and `alice` are equal ignoring case only |
| `Repository.IgnoreCaseIsEquivalence` | src/main/java/sn/sonatel/dsi/ins/imoc/repository/NotificationRepository.java:18 | comparing logins ignoring case is reflexive, symmetric and transitive |
| `Repository.FindAllByUserLoginIgnoreCase` | src/main/java/sn/sonatel/dsi/ins/imoc/repository/NotificationRepository.java:18 | a stored row is returned exactly when its login equals the argument ignoring case |
| `Repository.FindAllByUserLoginIgnoreCaseAndDeletedIsFalseAndReadIsFalse` | src/main/java/sn/sonatel/dsi/ins/imoc/repository/NotificationRepository.java:19 | a stored row is returned exactly when its login matches ignoring case and it is neither deleted nor read |
| `Repository.FindByUserLoginAndReadIsFalse` | src/main/java/sn/sonatel/dsi/ins/imoc/repository/NotificationRepository.java:20 | a stored row is returned exactly when its login is exactly the argument and it is unread; `deleted` is not consulted |
| `Repository.FindByUserLoginAndDeletedFalse` | src/main/java/sn/sonatel/dsi/ins/imoc/repository/NotificationRepository.java:21 | a stored row is returned exactly when its login is exactly the argument and it is not deleted |
| `Repository.FindById` | src/main/java/sn/sonatel/dsi/ins/imoc/repository/NotificationRepository.java:17 | present exactly when the id is stored, and then holds the stored row |
| `Repository.CountByUserLoginAndReadFalseAndDeletedFalse` | src/main/java/sn/sonatel/dsi/ins/imoc/repository/NotificationRepository.java:21-23 | the count is the number of unread rows among those `findByUserLoginAndDeletedFalse` returns for the same login |
| `Repository.UnreadHistoryRestrictsHistory` | src/main/java/sn/sonatel/dsi/ins/imoc/repository/NotificationRepository.java:18-19 | the line-19 result is the line-18 result restricted to rows neither deleted nor read |
| `Repository.HistoryIgnoresFlags` | src/main/java/sn/sonatel/dsi/ins/imoc/repository/NotificationRepository.java:18 | every row of the login is in the line-18 result, whatever its flags |
| `Repository.ReadIsFalseQueryIgnoresDeleted` | src/main/java/sn/sonatel/dsi/ins/imoc/repository/NotificationRepository.java:20 | a deleted unread row of the login is returned; a row whose login differs only in case is not |
| `Repository.ExactQueriesBelowIgnoreCase` | src/main/java/sn/sonatel/dsi/ins/imoc/repository/NotificationRepository.java:18-23 | the exact-login results and counted rows are subsets of the matching ignore-case results |
| `Repository.FindByIdAndDeletedFalse` | src/main/java/sn/sonatel/dsi/ins/imoc/repository/NotificationRepository.java:22 | present exactly when the id is stored and not deleted, and then equal to `findById` |
| `Repository.ExistsById` | src/main/java/sn/sonatel/dsi/ins/imoc/web/rest/NotificationResource.java:103 | `existsById` holds exactly when `findById` finds a row |
| `Repository.CountIsUnreadActive` | src/main/java/sn/sonatel/dsi/ins/imoc/repository/NotificationRepository.java:21-23 | the count is the number of rows with exactly that login that are neither read nor deleted, and it is at most the size of the line-21 result |
| `Repository.Persist` | src/main/java/sn/sonatel/dsi/ins/imoc/repository/NotificationRepository.java:17 | `save`: a null id inserts under the next sequence value; a stored id replaces that row; an unstored id or a null required column fails and writes nothing; no other row changes |
| `Repository.PersistKeepsIdsFresh` | src/main/java/sn/sonatel/dsi/ins/imoc/domain/Notification.java:17-21 | saving keeps every row, keeps ids below the sequence, and an insert uses an id no row has and adds exactly one row |
| `Repository.PersistAll` | src/main/java/sn/sonatel/dsi/ins/imoc/service/NotificationService.java:147 | `saveAll` of an empty batch changes nothing; a successful batch keeps every row, never moves the sequence back and keeps all ids below it; a batch holding an entity with a null required column fails |
| `Repository.PersistAllStored` | src/main/java/sn/sonatel/dsi/ins/imoc/repository/NotificationRepository.java:17 | `saveAll` of distinct loaded entities succeeds, rewrites exactly their rows with their values, keeps the other rows and does not advance the sequence |
| `Repository.NotificationRepository.constructor` | src/main/java/sn/sonatel/dsi/ins/imoc/repository/NotificationRepository.java:17 | the store starts with no rows and with every id below the sequence |
| `Repository.NotificationRepository.SaveFields` | src/main/java/sn/sonatel/dsi/ins/imoc/repository/NotificationRepository.java:17 | writes what `Persist` describes, or nothing on failure |
| `Repository.NotificationRepository.Save` | src/main/java/sn/sonatel/dsi/ins/imoc/repository/NotificationRepository.java:17 | writes what `Persist` describes and, on success, stores the generated id into the entity |
| `Repository.NotificationRepository.SaveAll` | src/main/java/sn/sonatel/dsi/ins/imoc/repository/NotificationRepository.java:17 | writes what `PersistAll` describes; when one save fails the whole batch is rolled back |
| `Repository.NotificationRepository.DeleteById` | src/main/java/sn/sonatel/dsi/ins/imoc/repository/NotificationRepository.java:17 | removes the row with that id; an absent id leaves the table unchanged |
| `Service.MarkRead` | src/main/java/sn/sonatel/dsi/ins/imoc/service/NotificationService.java:117-124 | fails with not-found exactly when the id is absent; otherwise only that record changes, and only its `read` becomes true |
| `Service.UsableLogin` | src/main/java/sn/sonatel/dsi/ins/imoc/service/NotificationService.java:129-135 | the login `marquerToutLue` acts for must be present and non-empty |
| `Service.MarkAllRead` | src/main/java/sn/sonatel/dsi/ins/imoc/service/NotificationService.java:127-150 | no record is added or removed |
| `Service.SoftDelete` | src/main/java/sn/sonatel/dsi/ins/imoc/service/NotificationService.java:153-160 | the record stays stored with `deleted` true; nothing else changes; an absent id is a no-op |
| `Service.SoftDeleteForUser` | src/main/java/sn/sonatel/dsi/ins/imoc/service/NotificationService.java:163-169 | no record is added or removed |
| `Service.MarkReadIdempotent` | src/main/java/sn/sonatel/dsi/ins/imoc/service/NotificationService.java:122-123 | marking the same record read twice equals marking it once, and the record ends up read |
| `Service.MarkAllReadExact` | src/main/java/sn/sonatel/dsi/ins/imoc/service/NotificationService.java:129-147 | a record changes exactly when the login is usable, its login equals it exactly and it was unread (deleted or not), and then only `read` becomes true |
| `Service.MarkAllReadNoOp` | src/main/java/sn/sonatel/dsi/ins/imoc/service/NotificationService.java:129-144 | an absent or empty login, or no eligible record, leaves the table unchanged |
| `Service.MarkAllReadLeavesNoneUnread` | src/main/java/sn/sonatel/dsi/ins/imoc/service/NotificationService.java:141-147 | afterwards the login has no unread record; records of other logins are unchanged |
| `Service.MarkAllReadIsCaseSensitive` | src/main/java/sn/sonatel/dsi/ins/imoc/service/NotificationService.java:141 | a record the history shows for `alice` (stored as `Alice`) is not marked read |
| `Service.SoftDeleteKeepsRecord` | src/main/java/sn/sonatel/dsi/ins/imoc/service/NotificationService.java:153-160 | after a soft delete `findById` still returns the record with `deleted` true, and no active or unread query returns it |
| `Service.SoftDeleteForUserEffect` | src/main/java/sn/sonatel/dsi/ins/imoc/service/NotificationService.java:163-169 | afterwards no record with exactly that login is active; read flags are kept; other logins' records are unchanged; that login's records end deleted |
| `Service.Merge` | src/main/java/sn/sonatel/dsi/ins/imoc/service/NotificationService.java:74 | the mapper's `partialUpdate`: a patch never nulls a required column, an all-null patch changes nothing, and a patch with every field set replaces everything |
| `Service.MergeProperties` | src/main/java/sn/sonatel/dsi/ins/imoc/service/NotificationService.java:73-76 | field by field, the merge takes the patch's value where it is non-null and keeps the old one where it is null; merging twice equals merging once |
| `Service.FindOne` | src/main/java/sn/sonatel/dsi/ins/imoc/service/NotificationService.java:89-92 | present exactly when the id is stored, and then carries that id and the stored columns |
| `Service.GetNotificationsHistory` | src/main/java/sn/sonatel/dsi/ins/imoc/service/NotificationService.java:105-107 | fails exactly when no user is logged in; otherwise every stored record whose login matches ignoring case, whatever its flags |
| `Service.GetNonLueNotificationsHistory` | src/main/java/sn/sonatel/dsi/ins/imoc/service/NotificationService.java:110-114 | fails exactly when no user is logged in; otherwise exactly the stored records whose login matches ignoring case and that are neither deleted nor read |
| `Service.NonLueHistoryWithinHistory` | src/main/java/sn/sonatel/dsi/ins/imoc/service/NotificationService.java:105-114 | the unread history is the history restricted to records neither deleted nor read |
| `Service.CountNotifications` | src/main/java/sn/sonatel/dsi/ins/imoc/service/NotificationService.java:188-190 | the number of records with exactly that login that are neither read nor deleted |
| `Service.CountWithinNonLueHistory` | src/main/java/sn/sonatel/dsi/ins/imoc/service/NotificationService.java:110-114 | the count never exceeds the unread history's size, and for `bob` with a second record stored as `Bob` it is smaller |
| `Service.Save` | src/main/java/sn/sonatel/dsi/ins/imoc/service/NotificationService.java:42-47 | saves the mapped entity as `Persist` describes and returns the DTO with the saved id |
| `Service.Update` | src/main/java/sn/sonatel/dsi/ins/imoc/service/NotificationService.java:55-60 | same behaviour as `Save` |
| `Service.ApplyPatch` | src/main/java/sn/sonatel/dsi/ins/imoc/service/NotificationService.java:74 | the entity ends with the merge of its old fields and the patch |
| `Service.PartialUpdate` | src/main/java/sn/sonatel/dsi/ins/imoc/service/NotificationService.java:68-80 | a null id fails; an absent id returns empty and writes nothing; otherwise only that record changes, to the merged values, which keep the same id and are returned |
| `Service.Delete` | src/main/java/sn/sonatel/dsi/ins/imoc/service/NotificationService.java:99-102 | removes the record; an absent id changes nothing |
| `Service.MarquerLue` | src/main/java/sn/sonatel/dsi/ins/imoc/service/NotificationService.java:117-124 | an absent id fails with not-found and leaves the store unchanged; otherwise the table becomes `MarkRead`'s; the current login plays no part |
| `Service.MarquerToutLue` | src/main/java/sn/sonatel/dsi/ins/imoc/service/NotificationService.java:127-150 | the table becomes exactly `MarkAllRead` of the old table; the id sequence is unchanged |
| `Service.MarkAllReadBatch` | src/main/java/sn/sonatel/dsi/ins/imoc/service/NotificationService.java:141-147 | the batch of loaded unread records with `read` set, each id once, saves as exactly `MarkAllRead` and leaves the sequence unchanged |
| `Service.DeleteNotificationById` | src/main/java/sn/sonatel/dsi/ins/imoc/service/NotificationService.java:153-160 | the table becomes exactly `SoftDelete` of the old table |
| `Service.DeleteNotificationsByUser` | src/main/java/sn/sonatel/dsi/ins/imoc/service/NotificationService.java:163-169 | the table becomes exactly `SoftDeleteForUser` of the old table |
| `Service.WelcomeNotification` | src/main/java/sn/sonatel/dsi/ins/imoc/service/NotificationService.java:171-185 | saves the DTO's fields with a null id, so the result is always an insert or a failure |
| `Service.WelcomeCreatesOneRecord` | src/main/java/sn/sonatel/dsi/ins/imoc/service/NotificationService.java:171-185 | the welcome record is inserted under a fresh id with the DTO's fields exactly when its required fields are non-null; no stored record changes |
| `Service.BookingScenario` | src/main/java/sn/sonatel/dsi/ins/imoc/service/NotificationService.java:104-160 | a booking notification created unread and active, then marked read and soft-deleted, is out of the unread history and still in the history, with both flags true |
| `Resource.CreateGuard` | src/main/java/sn/sonatel/dsi/ins/imoc/web/rest/NotificationResource.java:71-73 | a body with a non-null id is rejected with `idexists`, and only such a body |
| `Resource.IdGuard` | src/main/java/sn/sonatel/dsi/ins/imoc/web/rest/NotificationResource.java:96-105 | `idnull` for a null body id, else `idinvalid` when the path id differs, else `idnotfound` when the id is not stored; passes exactly when none applies |
| `Resource.GuardedUpdateAddsNoRecord` | src/main/java/sn/sonatel/dsi/ins/imoc/web/rest/NotificationResource.java:103-107 | after the checks pass, the update replaces the record under the path id and adds none; it can fail only on a null required column |
| `Resource.GuardedPatchFindsRecord` | src/main/java/sn/sonatel/dsi/ins/imoc/web/rest/NotificationResource.java:137-141 | after the checks pass the record is stored, so the patch is never answered with 404 |
| `Resource.GuardedCreateInserts` | src/main/java/sn/sonatel/dsi/ins/imoc/web/rest/NotificationResource.java:71-74 | after the create check passes, the save inserts the body under a fresh id exactly when its required fields are non-null |
| `Resource.CreateNotification` | src/main/java/sn/sonatel/dsi/ins/imoc/web/rest/NotificationResource.java:68-78 | a body with an id is rejected before any write; otherwise the saved DTO is answered as created |
| `Resource.UpdateNotification` | src/main/java/sn/sonatel/dsi/ins/imoc/web/rest/NotificationResource.java:91-111 | a failed check answers 400 with its key and writes nothing; otherwise the stored record is replaced and no record is added |
| `Resource.PartialUpdateNotification` | src/main/java/sn/sonatel/dsi/ins/imoc/web/rest/NotificationResource.java:125-147 | the same checks in the same order; when they pass, the answer is the merged record, which replaces the stored one |
| `Resource.DeleteNotification` | src/main/java/sn/sonatel/dsi/ins/imoc/web/rest/NotificationResource.java:200-206 | always answers 204, removing the record if it was stored |

## Left out

- The criteria query engine (`NotificationQueryService`, `NotificationCriteria`) and the two endpoints that use it are not part of this model. Their source is not available.
- `NotificationMapper` is generated code with no visible body. The model treats `toEntity`/`toDto` as copying the six fields, and `partialUpdate` as letting every non-null patch field overwrite (`Merge`, `ApplyPatch`).
- HTTP response building is reduced to a `Reply` value: headers, URIs, status-code plumbing and the endpoints that only delegate (history, read, read-all, user delete, count).
- Bean validation of the request body (`@Valid`) is left out. The DTO's constraints are not available.
- Logging, `System.out` and the `applicationName` setting are left out.
- The security context is left out. It is replaced by the explicit `currentLogin` argument.
- Transactions are treated as atomic steps. Dirty checking, flushing and concurrent requests are not modelled.
- Query results are maps keyed by id, not lists. The derived queries do not fix an order.
- `IgnoreCase` upper-cases ASCII letters only. The database's own `UPPER` on other characters is not modelled.
- Getters and `toString` are left out. Dafny reads fields directly.
- Java `Long` is modelled as an unbounded `int`. Overflow of ids or counts is not modelled.
- Saving an entity whose id is not stored fails with `StaleEntity`. Depending on the Hibernate version, the real behaviour may instead be an insert under a new id. The id checks keep the REST paths from reaching this case.
- When `saveAll` rolls back, the sequence values it used are restored. A real database sequence keeps them consumed.
- A single insert that fails (`Persist`, `SaveFields`) leaves the sequence unchanged. A real sequence may have used up the value.
- `findOne`, `delete`, `marquerLue` and `deleteNotificationById` take a non-null `Id`. In Java they take a nullable `Long`, and `findById(null)` throws. Their callers always pass a required path variable. The null case is modelled only for `PartialUpdate` (`NullId`).
- `Service.MarkAllRead`: its own `ensures` only says that no record is added or removed. What changes is stated in `MarkAllReadExact`, `MarkAllReadNoOp` and `MarkAllReadLeavesNoneUnread`.
- `Service.SoftDeleteForUser`: its own `ensures` only says that no record is added or removed. What changes is stated in `SoftDeleteForUserEffect`.
