/** `NotificationResource`: the id checks that `createNotification`,
    `updateNotification` and `partialUpdateNotification` make before touching
    the store, and `deleteNotification`. Response building is reduced to the
    decision each endpoint takes. */
module Resource {
  import opened Wrappers
  import opened Domain
  import opened Repository
  import opened Service

  /** The error keys of `BadRequestAlertException`. */
  datatype Reason = IdExists | IdNull | IdInvalid | IdNotFound

  /** What an endpoint answers: 201 with a body, 200 with a body, 204, 400 with
      an error key, 404, or the propagated failure of a lower layer. */
  datatype Reply =
    | Created(body: NotificationDto)
    | Ok(body: NotificationDto)
    | NoContent
    | BadRequest(reason: Reason)
    | NotFound
    | Failed(error: ServiceError)

  /** The check of `createNotification`: a new notification must not carry an id. */
  function CreateGuard(body: NotificationDto): (r: Option<Reason>)
    ensures r.Some? <==> body.id.Some?
    ensures r.Some? ==> r.value == IdExists
  {
    if body.id.Some? then Some(IdExists) else None
  }

  /** The checks of `updateNotification` and `partialUpdateNotification`, in
      their order: the body's id is non-null, equals the path id (which may be
      null) and is stored. A stored-id failure is a bad request, not a 404. */
  function IdGuard(rows: Rows, pathId: Option<Id>, body: NotificationDto): (r: Option<Reason>)
    ensures r.None? <==> body.id.Some? && pathId == body.id && body.id.value in rows
    ensures body.id.None? ==> r == Some(IdNull)
    ensures body.id.Some? && pathId != body.id ==> r == Some(IdInvalid)
    ensures body.id.Some? && pathId == body.id && body.id.value !in rows ==> r == Some(IdNotFound)
  {
    if body.id.None? then Some(IdNull)
    else if pathId != body.id then Some(IdInvalid)
    else if !ExistsById(rows, pathId.value) then Some(IdNotFound)
    else None
  }

  /** Once the id checks pass, saving the body replaces the stored record and
      adds none: `update` never creates a record, and can fail only on a null
      required field. */
  lemma GuardedUpdateAddsNoRecord(rows: Rows, nextId: Id, pathId: Option<Id>, body: NotificationDto)
    requires IdGuard(rows, pathId, body).None?
    ensures Persist(rows, nextId, body).Success? <==> ToRow(body).Some?
    ensures Persist(rows, nextId, body).Success? ==>
      && Persist(rows, nextId, body).value.rows.Keys == rows.Keys
      && Persist(rows, nextId, body).value.rows == rows[pathId.value := ToRow(body).value]
      && Persist(rows, nextId, body).value.nextId == nextId
    ensures Persist(rows, nextId, body).Failure? ==> Persist(rows, nextId, body).error == ConstraintViolation
  {
  }

  /** Once the id checks pass, the record is stored, so `partialUpdate` finds it
      and the endpoint never answers 404. */
  lemma GuardedPatchFindsRecord(rows: Rows, pathId: Option<Id>, body: NotificationDto)
    requires IdGuard(rows, pathId, body).None?
    ensures body.id.Some? && FindById(rows, body.id.value).Some?
  {
  }

  /** With a null body id, creating always inserts a record under a fresh id. */
  lemma GuardedCreateInserts(rows: Rows, nextId: Id, body: NotificationDto)
    requires IdsBelow(rows, nextId) && CreateGuard(body).None?
    ensures Persist(rows, nextId, body).Success? <==> ToRow(body).Some?
    ensures Persist(rows, nextId, body).Success? ==>
      && Persist(rows, nextId, body).value.id !in rows
      && Persist(rows, nextId, body).value.rows == rows[Persist(rows, nextId, body).value.id := ToRow(body).value]
  {
    PersistKeepsIdsFresh(rows, nextId, body);
  }

  /** `POST /notifications`. */
  method CreateNotification(repo: NotificationRepository, body: NotificationDto) returns (reply: Reply)
    requires repo.Valid()
    modifies repo
    ensures repo.Valid()
    ensures CreateGuard(body).Some? ==>
      reply == BadRequest(IdExists) && repo.rows == old(repo.rows) && repo.nextId == old(repo.nextId)
    ensures CreateGuard(body).None? ==>
      var out := Persist(old(repo.rows), old(repo.nextId), body);
      && (out.Success? ==>
            reply == Created(body.(id := Some(out.value.id))) && repo.rows == out.value.rows && repo.nextId == out.value.nextId)
      && (out.Failure? ==>
            reply == Failed(StoreFailure(out.error)) && repo.rows == old(repo.rows) && repo.nextId == old(repo.nextId))
  {
    var rejected := CreateGuard(body);
    if rejected.Some? {
      return BadRequest(rejected.value);
    }
    var saved := Save(repo, body);
    reply := if saved.Success? then Created(saved.value) else Failed(saved.error);
  }

  /** `PUT /notifications/{id}`. */
  method UpdateNotification(repo: NotificationRepository, pathId: Option<Id>, body: NotificationDto) returns (reply: Reply)
    requires repo.Valid()
    modifies repo
    ensures repo.Valid() && repo.nextId == old(repo.nextId)
    ensures IdGuard(old(repo.rows), pathId, body).Some? ==>
      reply == BadRequest(IdGuard(old(repo.rows), pathId, body).value) && repo.rows == old(repo.rows)
    ensures IdGuard(old(repo.rows), pathId, body).None? ==>
      && repo.rows.Keys == old(repo.rows).Keys
      && (ToRow(body).Some? ==> reply == Ok(body) && repo.rows == old(repo.rows)[body.id.value := ToRow(body).value])
      && (ToRow(body).None? ==> reply == Failed(StoreFailure(ConstraintViolation)) && repo.rows == old(repo.rows))
  {
    var rejected := IdGuard(repo.rows, pathId, body);
    if rejected.Some? {
      return BadRequest(rejected.value);
    }
    GuardedUpdateAddsNoRecord(repo.rows, repo.nextId, pathId, body);
    var updated := Update(repo, body);
    reply := if updated.Success? then Ok(updated.value) else Failed(updated.error);
  }

  /** `PATCH /notifications/{id}`: the same checks, then `partialUpdate`; an
      empty result would be answered with 404. */
  method PartialUpdateNotification(repo: NotificationRepository, pathId: Option<Id>, body: NotificationDto) returns (reply: Reply)
    requires repo.Valid()
    modifies repo
    ensures repo.Valid() && repo.nextId == old(repo.nextId)
    ensures IdGuard(old(repo.rows), pathId, body).Some? ==>
      reply == BadRequest(IdGuard(old(repo.rows), pathId, body).value) && repo.rows == old(repo.rows)
    ensures IdGuard(old(repo.rows), pathId, body).None? ==>
      var id := body.id.value;
      var merged := Merge(RowFields(id, old(repo.rows)[id]), body);
      && reply == Ok(merged)
      && repo.rows == old(repo.rows)[id := ToRow(merged).value]
  {
    var rejected := IdGuard(repo.rows, pathId, body);
    if rejected.Some? {
      return BadRequest(rejected.value);
    }
    GuardedPatchFindsRecord(repo.rows, pathId, body);
    var result := PartialUpdate(repo, body);
    match result
    case Success(Some(dto)) => reply := Ok(dto);
    case Success(None) => reply := Reply.NotFound;
    case Failure(e) => reply := Failed(e);
  }

  /** `DELETE /notifications/{id}`: a hard delete, answered 204 whether or not
      the id was stored. */
  method DeleteNotification(repo: NotificationRepository, id: Id) returns (reply: Reply)
    requires repo.Valid()
    modifies repo
    ensures repo.Valid()
    ensures reply == NoContent
    ensures repo.rows == old(repo.rows) - {id} && repo.nextId == old(repo.nextId)
  {
    Delete(repo, id);
    reply := NoContent;
  }
}
