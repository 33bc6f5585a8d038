/** `NotificationService`: the lifecycle transitions (mark read, mark all read,
    soft delete, bulk soft delete, save, update, partial update, hard delete,
    welcome notification) and the queries over the store.

    The logged-in user, which the source reads from the security context, is an
    explicit `currentLogin` argument. Each method runs as one atomic step. */
module Service {
  import opened Wrappers
  import opened Domain
  import opened Repository

  /** The DTO holds the entity's six fields; the mapper copies them one to one. */
  type NotificationDto = Fields

  /** `NotFound` is `EntityNotFoundException`, `NoCurrentUser` the exception of
      `orElseThrow()` on an empty login, `NullId` the `IllegalArgumentException`
      of `findById(null)`; store failures propagate unchanged. */
  datatype ServiceError = NotFound(id: Id) | NoCurrentUser | NullId | StoreFailure(error: StoreError)

  // ---------------------------------------------------------------------------
  // What each transition does to the table.

  /** `marquerLue(id)`: the record gets `read = true`; an absent id is not found. */
  function MarkRead(rows: Rows, id: Id): (r: Result<Rows, ServiceError>)
    ensures r.Failure? <==> id !in rows
    ensures r.Failure? ==> r.error == NotFound(id)
    ensures r.Success? ==>
      && r.value.Keys == rows.Keys
      && r.value[id] == rows[id].(read := true)
      && (forall k :: k in rows && k != id ==> r.value[k] == rows[k])
  {
    if id in rows then Success(rows[id := rows[id].(read := true)]) else Failure(NotFound(id))
  }

  /** The login `marquerToutLue` acts for: a missing or empty login means none. */
  predicate UsableLogin(currentLogin: Option<string>): (u: bool)
    ensures u ==> currentLogin.Some?
    ensures currentLogin.Some? ==> (u <==> |currentLogin.value| > 0)
  {
    currentLogin.Some? && currentLogin.value != ""
  }

  /** `marquerToutLue()`: every record returned by `findByUserLoginAndReadIsFalse`
      for the current login (exact login, unread, deleted or not) gets `read = true`. */
  function MarkAllRead(rows: Rows, currentLogin: Option<string>): (r: Rows)
    ensures r.Keys == rows.Keys
  {
    if !UsableLogin(currentLogin) then rows
    else
      var found := FindByUserLoginAndReadIsFalse(rows, currentLogin.value);
      map k | k in rows :: if k in found then rows[k].(read := true) else rows[k]
  }

  /** `deleteNotificationById(id)`: the record gets `deleted = true` and stays stored. */
  function SoftDelete(rows: Rows, id: Id): (r: Rows)
    ensures r.Keys == rows.Keys
    ensures id in rows ==> r[id] == rows[id].(deleted := true)
    ensures forall k :: k in rows && k != id ==> r[k] == rows[k]
  {
    if id in rows then rows[id := rows[id].(deleted := true)] else rows
  }

  /** `deleteNotificationsByUser(login)`: every record returned by
      `findByUserLoginAndDeletedFalse(login)` gets `deleted = true`. */
  function SoftDeleteForUser(rows: Rows, login: string): (r: Rows)
    ensures r.Keys == rows.Keys
  {
    var found := FindByUserLoginAndDeletedFalse(rows, login);
    map k | k in rows :: if k in found then rows[k].(deleted := true) else rows[k]
  }

  /** The mapper's `partialUpdate(entity, dto)`: every non-null field of the
      patch overwrites the entity's field; null fields leave it alone. */
  function Merge(existing: Fields, patch: Fields): (r: Fields)
    ensures ToRow(existing).Some? ==> ToRow(r).Some?
    ensures patch == Fields(None, None, None, None, None, None) ==> r == existing
    ensures
      && patch.id.Some? && patch.message.Some? && patch.reservationId.Some?
      && patch.userLogin.Some? && patch.deleted.Some? && patch.read.Some?
      ==> r == patch
  {
    Fields(
      if patch.id.Some? then patch.id else existing.id,
      if patch.message.Some? then patch.message else existing.message,
      if patch.reservationId.Some? then patch.reservationId else existing.reservationId,
      if patch.userLogin.Some? then patch.userLogin else existing.userLogin,
      if patch.deleted.Some? then patch.deleted else existing.deleted,
      if patch.read.Some? then patch.read else existing.read)
  }

  // ---------------------------------------------------------------------------
  // Properties of the transitions.

  /** Marking one record read: only that record's `read` flag changes, and doing
      it twice is the same as doing it once. */
  lemma MarkReadIdempotent(rows: Rows, id: Id)
    requires id in rows
    ensures MarkRead(MarkRead(rows, id).value, id) == MarkRead(rows, id)
    ensures MarkRead(rows, id).value[id].read
  {
    var once := MarkRead(rows, id).value;
    var twice := MarkRead(once, id).value;
    assert twice.Keys == once.Keys;
    assert forall k :: k in once ==> twice[k] == once[k];
    assert twice == once;
  }

  /** Marking all read changes exactly the records of the login (compared
      exactly) that were unread, deleted ones included, and sets only `read`. */
  lemma MarkAllReadExact(rows: Rows, currentLogin: Option<string>, k: Id)
    requires k in rows
    ensures var eligible := UsableLogin(currentLogin) && rows[k].userLogin == currentLogin.value && !rows[k].read;
      && (eligible ==> MarkAllRead(rows, currentLogin)[k] == rows[k].(read := true))
      && (!eligible ==> MarkAllRead(rows, currentLogin)[k] == rows[k])
  {
  }

  /** With no login, an empty login, or no unread record of the login, marking
      all read changes nothing. */
  lemma MarkAllReadNoOp(rows: Rows, currentLogin: Option<string>)
    requires !UsableLogin(currentLogin) || FindByUserLoginAndReadIsFalse(rows, currentLogin.value) == map[]
    ensures MarkAllRead(rows, currentLogin) == rows
  {
    if UsableLogin(currentLogin) {
      var r := MarkAllRead(rows, currentLogin);
      forall k | k in rows ensures r[k] == rows[k] {
        assert k !in FindByUserLoginAndReadIsFalse(rows, currentLogin.value);
      }
    }
  }

  /** After marking all read, the login has no unread record left, and records
      of other logins are untouched. */
  lemma MarkAllReadLeavesNoneUnread(rows: Rows, login: string)
    requires login != ""
    ensures FindByUserLoginAndReadIsFalse(MarkAllRead(rows, Some(login)), login) == map[]
    ensures forall k :: k in rows && rows[k].userLogin != login ==> MarkAllRead(rows, Some(login))[k] == rows[k]
  {
    var r := MarkAllRead(rows, Some(login));
    var left := FindByUserLoginAndReadIsFalse(r, login);
    forall k | k in r ensures k !in left {
      MarkAllReadExact(rows, Some(login), k);
    }
  }

  /** Marking all read matches the login exactly: the history query (which
      ignores case) shows an unread record that marking all read leaves unread. */
  lemma MarkAllReadIsCaseSensitive()
    ensures var rows := map[7 := Row("m", None, "Alice", false, false)];
      && 7 in FindAllByUserLoginIgnoreCase(rows, "alice")
      && MarkAllRead(rows, Some("alice")) == rows
  {
    var rows := map[7 := Row("m", None, "Alice", false, false)];
    ExactImpliesIgnoreCase("Alice", "alice");
    assert FindByUserLoginAndReadIsFalse(rows, "alice") == map[];
    MarkAllReadNoOp(rows, Some("alice"));
  }

  /** A soft-deleted record is still found by id, with `deleted = true`; no
      active-record query returns it; an absent id changes nothing. */
  lemma SoftDeleteKeepsRecord(rows: Rows, id: Id, login: string)
    ensures id in rows ==>
      && FindById(SoftDelete(rows, id), id) == Some(rows[id].(deleted := true))
      && id !in FindByUserLoginAndDeletedFalse(SoftDelete(rows, id), login)
      && id !in FindAllByUserLoginIgnoreCaseAndDeletedIsFalseAndReadIsFalse(SoftDelete(rows, id), login)
      && FindByIdAndDeletedFalse(SoftDelete(rows, id), id) == None
    ensures id !in rows ==> SoftDelete(rows, id) == rows
  {
  }

  /** After the bulk soft delete no record with exactly that login is active;
      read flags are kept and records of other logins are untouched. */
  lemma SoftDeleteForUserEffect(rows: Rows, login: string)
    ensures FindByUserLoginAndDeletedFalse(SoftDeleteForUser(rows, login), login) == map[]
    ensures forall k :: k in rows ==> SoftDeleteForUser(rows, login)[k].read == rows[k].read
    ensures forall k :: k in rows && rows[k].userLogin != login ==> SoftDeleteForUser(rows, login)[k] == rows[k]
    ensures forall k :: k in rows && rows[k].userLogin == login ==> SoftDeleteForUser(rows, login)[k] == rows[k].(deleted := true)
  {
    var r := SoftDeleteForUser(rows, login);
    var found := FindByUserLoginAndDeletedFalse(rows, login);
    forall k | k in rows && rows[k].userLogin == login ensures r[k] == rows[k].(deleted := true) {
      if k !in found { assert rows[k].deleted; }
    }
    var left := FindByUserLoginAndDeletedFalse(r, login);
    forall k | k in r ensures k !in left { }
  }

  /** Merging keeps every field the patch leaves null, takes every field it
      sets, and merging the same patch again changes nothing. */
  lemma MergeProperties(existing: Fields, patch: Fields)
    ensures var m := Merge(existing, patch);
      && m.id == (if patch.id.Some? then patch.id else existing.id)
      && m.message == (if patch.message.Some? then patch.message else existing.message)
      && m.reservationId == (if patch.reservationId.Some? then patch.reservationId else existing.reservationId)
      && m.userLogin == (if patch.userLogin.Some? then patch.userLogin else existing.userLogin)
      && m.deleted == (if patch.deleted.Some? then patch.deleted else existing.deleted)
      && m.read == (if patch.read.Some? then patch.read else existing.read)
    ensures Merge(Merge(existing, patch), patch) == Merge(existing, patch)
  {
  }

  // ---------------------------------------------------------------------------
  // Queries.

  /** `findOne(id)`: the stored record as a DTO, if any. */
  function FindOne(rows: Rows, id: Id): (r: Option<NotificationDto>)
    ensures r.Some? <==> id in rows
    ensures r.Some? ==> r.value.id == Some(id) && ToRow(r.value) == Some(rows[id])
  {
    match FindById(rows, id)
    case Some(row) => Some(RowFields(id, row))
    case None => None
  }

  /** `getNotificationsHistory()`: every record of the current login, compared
      ignoring case; fails when nobody is logged in. */
  function GetNotificationsHistory(rows: Rows, currentLogin: Option<string>): (r: Result<Rows, ServiceError>)
    ensures r.Failure? <==> currentLogin.None?
    ensures r.Failure? ==> r.error == NoCurrentUser
    ensures r.Success? ==> IsSubmap(r.value, rows)
    ensures r.Success? ==> forall k :: k in rows ==> (k in r.value <==> EqualsIgnoreCase(rows[k].userLogin, currentLogin.value))
  {
    if currentLogin.None? then Failure(NoCurrentUser)
    else Success(FindAllByUserLoginIgnoreCase(rows, currentLogin.value))
  }

  /** `getNonLueNotificationsHistory()`: the active unread records of the current
      login, compared ignoring case; fails when nobody is logged in. */
  function GetNonLueNotificationsHistory(rows: Rows, currentLogin: Option<string>): (r: Result<Rows, ServiceError>)
    ensures r.Failure? <==> currentLogin.None?
    ensures r.Failure? ==> r.error == NoCurrentUser
    ensures r.Success? ==> IsSubmap(r.value, rows)
    ensures r.Success? ==> forall k :: k in rows ==>
      (k in r.value <==> EqualsIgnoreCase(rows[k].userLogin, currentLogin.value) && !rows[k].deleted && !rows[k].read)
  {
    if currentLogin.None? then Failure(NoCurrentUser)
    else Success(FindAllByUserLoginIgnoreCaseAndDeletedIsFalseAndReadIsFalse(rows, currentLogin.value))
  }

  /** Unread history is the part of the history that is neither deleted nor read. */
  lemma NonLueHistoryWithinHistory(rows: Rows, currentLogin: Option<string>)
    requires currentLogin.Some?
    ensures GetNonLueNotificationsHistory(rows, currentLogin).value
         == Where(GetNotificationsHistory(rows, currentLogin).value, (row: Row) => !row.deleted && !row.read)
  {
    UnreadHistoryRestrictsHistory(rows, currentLogin.value);
  }

  /** `countNotifications(login)`: the number of records with exactly that login
      that are neither read nor deleted. */
  function CountNotifications(rows: Rows, login: string): (n: nat)
    ensures n == |UnreadActiveIds(rows, login)|
  {
    CountByUserLoginAndReadFalseAndDeletedFalse(rows, login)
  }

  /** The count never exceeds the unread history of the same login (which
      ignores case), and it can be smaller. */
  lemma CountWithinNonLueHistory(rows: Rows, login: string)
    ensures CountNotifications(rows, login) <= |GetNonLueNotificationsHistory(rows, Some(login)).value|
    ensures var two := map[1 := Row("m", None, "bob", false, false), 2 := Row("m", None, "Bob", false, false)];
      CountNotifications(two, "bob") == 1 && |GetNonLueNotificationsHistory(two, Some("bob")).value| == 2
  {
    ExactQueriesBelowIgnoreCase(rows, login);
    SubsetCardinality(UnreadActiveIds(rows, login), GetNonLueNotificationsHistory(rows, Some(login)).value.Keys);
    var two := map[1 := Row("m", None, "bob", false, false), 2 := Row("m", None, "Bob", false, false)];
    assert "Bob" != "bob" by { assert "Bob"[0] != "bob"[0]; }
    assert UnreadActiveIds(two, "bob") == {1};
    ExactImpliesIgnoreCase("bob", "bob");
    assert Upper("Bob") == Upper("bob") by {
      assert Upper("Bob") == "BOB";
      assert Upper("bob") == "BOB";
    }
    assert GetNonLueNotificationsHistory(two, Some("bob")).value.Keys == {1, 2};
  }

  // ---------------------------------------------------------------------------
  // The service methods that change the store.

  /** Some element of a non-empty set: the order in which a loop over a query
      result visits the records. */
  method Pick<T>(s: set<T>) returns (x: T)
    requires s != {}
    ensures x in s
  {
    x :| x in s;
  }

  /** `save(dto)`: the mapped entity is saved and returned as a DTO. */
  method Save(repo: NotificationRepository, dto: NotificationDto) returns (res: Result<NotificationDto, ServiceError>)
    requires repo.Valid()
    modifies repo
    ensures repo.Valid()
    ensures var out := Persist(old(repo.rows), old(repo.nextId), dto);
      && (out.Success? ==>
            res == Success(dto.(id := Some(out.value.id))) && repo.rows == out.value.rows && repo.nextId == out.value.nextId)
      && (out.Failure? ==>
            res == Failure(StoreFailure(out.error)) && repo.rows == old(repo.rows) && repo.nextId == old(repo.nextId))
  {
    var n := new Notification.FromFields(dto);
    var r := repo.Save(n);
    if r.Failure? {
      return Failure(StoreFailure(r.error));
    }
    res := Success(n.Snapshot());
  }

  /** `update(dto)`: the same code as `save`. */
  method Update(repo: NotificationRepository, dto: NotificationDto) returns (res: Result<NotificationDto, ServiceError>)
    requires repo.Valid()
    modifies repo
    ensures repo.Valid()
    ensures var out := Persist(old(repo.rows), old(repo.nextId), dto);
      && (out.Success? ==>
            res == Success(dto.(id := Some(out.value.id))) && repo.rows == out.value.rows && repo.nextId == out.value.nextId)
      && (out.Failure? ==>
            res == Failure(StoreFailure(out.error)) && repo.rows == old(repo.rows) && repo.nextId == old(repo.nextId))
  {
    res := Save(repo, dto);
  }

  /** The mapper applying a patch to a managed entity through its setters. */
  method ApplyPatch(e: Notification, patch: NotificationDto)
    modifies e
    ensures e.Snapshot() == Merge(old(e.Snapshot()), patch)
  {
    if patch.id.Some? { e.SetId(patch.id); }
    if patch.message.Some? { e.SetMessage(patch.message); }
    if patch.reservationId.Some? { e.SetReservationId(patch.reservationId); }
    if patch.userLogin.Some? { e.SetUserLogin(patch.userLogin); }
    if patch.deleted.Some? { e.SetDeleted(patch.deleted); }
    if patch.read.Some? { e.SetRead(patch.read); }
  }

  /** `partialUpdate(dto)`: empty when no record has the DTO's id; otherwise the
      stored record merged with the DTO's non-null fields, saved and returned. */
  method PartialUpdate(repo: NotificationRepository, dto: NotificationDto) returns (res: Result<Option<NotificationDto>, ServiceError>)
    requires repo.Valid()
    modifies repo
    ensures repo.Valid() && repo.nextId == old(repo.nextId)
    ensures dto.id.None? ==> res == Failure(NullId) && repo.rows == old(repo.rows)
    ensures dto.id.Some? && dto.id.value !in old(repo.rows) ==> res == Success(None) && repo.rows == old(repo.rows)
    ensures dto.id.Some? && dto.id.value in old(repo.rows) ==>
      var id := dto.id.value;
      var merged := Merge(RowFields(id, old(repo.rows)[id]), dto);
      && res == Success(Some(merged))
      && merged.id == Some(id)
      && repo.rows == old(repo.rows)[id := ToRow(merged).value]
  {
    if dto.id.None? {
      return Failure(NullId);
    }
    var id := dto.id.value;
    var found := FindById(repo.rows, id);
    if found.None? {
      return Success(None);
    }
    var existing := new Notification.Loaded(id, found.value);
    ApplyPatch(existing, dto);
    MergeProperties(RowFields(id, found.value), dto);
    var r := repo.Save(existing);
    assert r.Success?;
    res := Success(Some(existing.Snapshot()));
  }

  /** `delete(id)`: hard delete; an absent id is ignored. */
  method Delete(repo: NotificationRepository, id: Id)
    requires repo.Valid()
    modifies repo
    ensures repo.Valid()
    ensures repo.rows == old(repo.rows) - {id} && repo.nextId == old(repo.nextId)
  {
    repo.DeleteById(id);
  }

  /** `marquerLue(id)`. The current login is read by the source and never used:
      any record can be marked read, whoever owns it. */
  method MarquerLue(repo: NotificationRepository, id: Id, currentLogin: Option<string>) returns (res: Outcome<ServiceError>)
    requires repo.Valid()
    modifies repo
    ensures repo.Valid() && repo.nextId == old(repo.nextId)
    ensures var out := MarkRead(old(repo.rows), id);
      && (out.Failure? ==> res == Fail(out.error) && repo.rows == old(repo.rows))
      && (out.Success? ==> res == Pass && repo.rows == out.value)
  {
    var found := FindById(repo.rows, id);
    if found.None? {
      return Fail(NotFound(id));
    }
    var notification := new Notification.Loaded(id, found.value);
    notification.SetRead(Some(true));
    var r := repo.Save(notification);
    assert r.Success?;
    res := Pass;
  }

  /** `marquerToutLue()`: with a usable login, loads the login's unread records,
      sets `read` on each entity and saves them as one batch. */
  method MarquerToutLue(repo: NotificationRepository, currentLogin: Option<string>)
    requires repo.Valid()
    modifies repo
    ensures repo.Valid() && repo.nextId == old(repo.nextId)
    ensures repo.rows == MarkAllRead(old(repo.rows), currentLogin)
  {
    if !UsableLogin(currentLogin) {
      return;
    }
    var login := currentLogin.value;
    var notifications := FindByUserLoginAndReadIsFalse(repo.rows, login);
    if notifications == map[] {
      MarkAllReadNoOp(repo.rows, currentLogin);
      return;
    }
    var todo := notifications.Keys;
    var batch: seq<Fields> := [];
    ghost var ids: seq<Id> := [];
    while todo != {}
      invariant todo <= notifications.Keys
      invariant repo.rows == old(repo.rows) && repo.nextId == old(repo.nextId)
      invariant |batch| == |ids|
      invariant forall i :: 0 <= i < |ids| ==>
        ids[i] in notifications && ids[i] !in todo && batch[i] == RowFields(ids[i], notifications[ids[i]].(read := true))
      invariant forall i, j :: 0 <= i < j < |ids| ==> ids[i] != ids[j]
      invariant forall k :: k in notifications && k !in todo ==> k in ids
      decreases todo
    {
      var k := Pick(todo);
      var notification := new Notification.Loaded(k, notifications[k]);
      notification.SetRead(Some(true));
      batch := batch + [notification.Snapshot()];
      ids := ids + [k];
      todo := todo - {k};
    }
    MarkAllReadBatch(repo.rows, repo.nextId, login, ids, batch);
    var r := repo.SaveAll(batch);
  }

  /** The batch `marquerToutLue` builds (every unread record of the login with
      `read` set, each id once) saves as `MarkAllRead` and keeps the sequence. */
  lemma MarkAllReadBatch(rows: Rows, nextId: Id, login: string, ids: seq<Id>, batch: seq<Fields>)
    requires login != ""
    requires var found := FindByUserLoginAndReadIsFalse(rows, login);
      && |batch| == |ids|
      && (forall i :: 0 <= i < |ids| ==> ids[i] in found && batch[i] == RowFields(ids[i], found[ids[i]].(read := true)))
      && (forall i, j :: 0 <= i < j < |ids| ==> ids[i] != ids[j])
      && (forall k :: k in found ==> k in ids)
    ensures PersistAll(rows, nextId, batch) == Success((MarkAllRead(rows, Some(login)), nextId))
  {
    var found := FindByUserLoginAndReadIsFalse(rows, login);
    assert StoredBatch(rows, batch) by {
      forall i | 0 <= i < |batch| ensures ToRow(batch[i]).Some? {
        assert ToRow(RowFields(ids[i], found[ids[i]].(read := true))) == Some(found[ids[i]].(read := true));
      }
    }
    PersistAllStored(rows, nextId, batch);
    var out := PersistAll(rows, nextId, batch).value;
    var expected := MarkAllRead(rows, Some(login));
    forall k | k in rows ensures out.0[k] == expected[k] {
      if k in found {
        var i :| 0 <= i < |ids| && ids[i] == k;
        assert batch[i].id.value == k;
        assert ToRow(RowFields(k, found[k].(read := true))) == Some(found[k].(read := true));
      } else {
        forall i | 0 <= i < |batch| ensures batch[i].id != Some(k) { }
      }
    }
    assert out.0 == expected;
  }

  /** `deleteNotificationById(id)`: sets `deleted` on the stored entity and saves
      it; an absent id does nothing. */
  method DeleteNotificationById(repo: NotificationRepository, id: Id)
    requires repo.Valid()
    modifies repo
    ensures repo.Valid() && repo.nextId == old(repo.nextId)
    ensures repo.rows == SoftDelete(old(repo.rows), id)
  {
    var found := FindById(repo.rows, id);
    if found.Some? {
      var notification := new Notification.Loaded(id, found.value);
      notification.SetDeleted(Some(true));
      var r := repo.Save(notification);
      assert r.Success?;
    }
  }

  /** `deleteNotificationsByUser(login)`: loads the login's active records and,
      one entity at a time, sets `deleted` and saves it. */
  method DeleteNotificationsByUser(repo: NotificationRepository, login: string)
    requires repo.Valid()
    modifies repo
    ensures repo.Valid() && repo.nextId == old(repo.nextId)
    ensures repo.rows == SoftDeleteForUser(old(repo.rows), login)
  {
    var notifications := FindByUserLoginAndDeletedFalse(repo.rows, login);
    var todo := notifications.Keys;
    while todo != {}
      invariant todo <= notifications.Keys
      invariant repo.Valid() && repo.nextId == old(repo.nextId)
      invariant repo.rows.Keys == old(repo.rows).Keys
      invariant forall k :: k in repo.rows ==>
        repo.rows[k] == if k in notifications && k !in todo then old(repo.rows)[k].(deleted := true) else old(repo.rows)[k]
      decreases todo
    {
      var k := Pick(todo);
      var notification := new Notification.Loaded(k, notifications[k]);
      notification.SetDeleted(Some(true));
      var r := repo.Save(notification);
      assert r.Success?;
      todo := todo - {k};
    }
    forall k | k in repo.rows ensures repo.rows[k] == SoftDeleteForUser(old(repo.rows), login)[k] { }
  }

  /** `welcomeNotification(dto)`: a fresh entity gets the DTO's message, login,
      reservation and flags (never its id) and is saved, so it is always a new record. */
  method WelcomeNotification(repo: NotificationRepository, dto: NotificationDto) returns (res: Outcome<ServiceError>)
    requires repo.Valid()
    modifies repo
    ensures repo.Valid()
    ensures var out := Persist(old(repo.rows), old(repo.nextId), dto.(id := None));
      && (out.Success? ==> res == Pass && repo.rows == out.value.rows && repo.nextId == out.value.nextId)
      && (out.Failure? ==> res == Fail(StoreFailure(out.error)) && repo.rows == old(repo.rows) && repo.nextId == old(repo.nextId))
  {
    var notification := new Notification();
    notification.SetMessage(dto.message);
    notification.SetUserLogin(dto.userLogin);
    notification.SetReservationId(dto.reservationId);
    notification.SetDeleted(dto.deleted);
    notification.SetRead(dto.read);
    var r := repo.Save(notification);
    res := if r.Success? then Pass else Fail(StoreFailure(r.error));
  }

  /** A welcome notification is inserted under a new id, with the DTO's fields,
      exactly when its required fields are non-null; no stored record changes. */
  lemma WelcomeCreatesOneRecord(rows: Rows, nextId: Id, dto: NotificationDto)
    requires IdsBelow(rows, nextId)
    ensures var out := Persist(rows, nextId, dto.(id := None));
      && (out.Success? <==> ToRow(dto).Some?)
      && (out.Success? ==>
            && out.value.id !in rows
            && out.value.rows == rows[out.value.id := ToRow(dto).value])
  {
    var out := Persist(rows, nextId, dto.(id := None));
    PersistKeepsIdsFresh(rows, nextId, dto.(id := None));
    if out.Success? {
      assert ToRow(dto.(id := None)) == ToRow(dto);
    }
  }

  /** The scenario of a booking notification: created unread and active, marked
      read, then soft-deleted; it leaves the unread history and stays in the history. */
  lemma BookingScenario(rows: Rows, nextId: Id)
    requires IdsBelow(rows, nextId)
    ensures var draft := Fields(None, Some("Booking confirmed"), Some(42), Some("alice"), Some(false), Some(false));
      var created := Persist(rows, nextId, draft);
      && created.Success?
      && var id := created.value.id;
         var read := MarkRead(created.value.rows, id);
         && read.Success? && read.value[id].read
         && var gone := SoftDelete(read.value, id);
            && id !in GetNonLueNotificationsHistory(gone, Some("alice")).value
            && id in GetNotificationsHistory(gone, Some("alice")).value
            && gone[id] == Row("Booking confirmed", Some(42), "alice", true, true)
  {
    var draft := Fields(None, Some("Booking confirmed"), Some(42), Some("alice"), Some(false), Some(false));
    var created := Persist(rows, nextId, draft);
    var id := created.value.id;
    var gone := SoftDelete(MarkRead(created.value.rows, id).value, id);
    IgnoreCaseIsEquivalence("alice", "alice", "alice");
    assert id in gone;
  }
}
