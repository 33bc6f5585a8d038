/** `NotificationRepository`: the derived queries of the Spring Data interface as
    filters and counts over the stored rows, and the inherited `JpaRepository`
    store contract (`findById`, `existsById`, `save`, `saveAll`, `deleteById`). */
module Repository {
  import opened Wrappers
  import opened Domain

  /** The table: every stored row under its id. */
  type Rows = map<Id, Row>

  /** `m` keeps some of the rows of `rows`, each unchanged. */
  ghost predicate IsSubmap(m: Rows, rows: Rows)
  {
    m.Keys <= rows.Keys && forall k :: k in m ==> m[k] == rows[k]
  }

  /** The rows that satisfy `p`: the meaning of one derived query. The source
      returns them as a list in an unspecified order; here they stay keyed by id. */
  function Where(rows: Rows, p: Row -> bool): (r: Rows)
    ensures IsSubmap(r, rows)
    ensures forall k :: k in rows ==> (k in r <==> p(rows[k]))
  {
    map k | k in rows && p(rows[k]) :: rows[k]
  }

  // ---------------------------------------------------------------------------
  // Case-insensitive comparison, as the `IgnoreCase` keyword compiles it:
  // both sides are upper-cased before comparing.

  function UpperChar(c: char): char
  {
    if 'a' <= c <= 'z' then (c as int - 32) as char else c
  }

  function Upper(s: string): string
  {
    seq(|s|, i requires 0 <= i < |s| => UpperChar(s[i]))
  }

  /** The comparison behind the `IgnoreCase` keyword: equal logins always
      match, and matching logins have the same length. */
  predicate EqualsIgnoreCase(a: string, b: string): (m: bool)
    ensures a == b ==> m
    ensures m ==> |a| == |b|
  {
    Upper(a) == Upper(b)
  }

  /** Logins that are equal are equal ignoring case; the converse fails. */
  lemma ExactImpliesIgnoreCase(a: string, b: string)
    ensures a == b ==> EqualsIgnoreCase(a, b)
    ensures EqualsIgnoreCase("Alice", "alice") && "Alice" != "alice"
  {
    assert Upper("Alice") == "ALICE";
    assert Upper("alice") == "ALICE";
  }

  /** Ignoring case is an equivalence on logins. */
  lemma IgnoreCaseIsEquivalence(a: string, b: string, c: string)
    ensures EqualsIgnoreCase(a, a)
    ensures EqualsIgnoreCase(a, b) ==> EqualsIgnoreCase(b, a)
    ensures EqualsIgnoreCase(a, b) && EqualsIgnoreCase(b, c) ==> EqualsIgnoreCase(a, c)
  {
  }

  // ---------------------------------------------------------------------------
  // The derived queries. Each method name of the interface fixes its filter:
  // `IgnoreCase` compares logins ignoring case, a plain `UserLogin` compares
  // exactly, and `DeletedIsFalse`/`ReadIsFalse`/`DeletedFalse`/`ReadFalse`
  // require the flag to be false.

  function FindAllByUserLoginIgnoreCase(rows: Rows, login: string): (r: Rows)
    ensures IsSubmap(r, rows)
    ensures forall k :: k in rows ==> (k in r <==> EqualsIgnoreCase(rows[k].userLogin, login))
  {
    Where(rows, (row: Row) => EqualsIgnoreCase(row.userLogin, login))
  }

  function FindAllByUserLoginIgnoreCaseAndDeletedIsFalseAndReadIsFalse(rows: Rows, login: string): (r: Rows)
    ensures IsSubmap(r, rows)
    ensures forall k :: k in rows ==>
      (k in r <==> EqualsIgnoreCase(rows[k].userLogin, login) && !rows[k].deleted && !rows[k].read)
  {
    Where(rows, (row: Row) => EqualsIgnoreCase(row.userLogin, login) && !row.deleted && !row.read)
  }

  function FindByUserLoginAndReadIsFalse(rows: Rows, login: string): (r: Rows)
    ensures IsSubmap(r, rows)
    ensures forall k :: k in rows ==> (k in r <==> rows[k].userLogin == login && !rows[k].read)
  {
    Where(rows, (row: Row) => row.userLogin == login && !row.read)
  }

  function FindByUserLoginAndDeletedFalse(rows: Rows, login: string): (r: Rows)
    ensures IsSubmap(r, rows)
    ensures forall k :: k in rows ==> (k in r <==> rows[k].userLogin == login && !rows[k].deleted)
  {
    Where(rows, (row: Row) => row.userLogin == login && !row.deleted)
  }

  /** `findById`: the row stored under `id`, if any. */
  function FindById(rows: Rows, id: Id): (r: Option<Row>)
    ensures r.Some? <==> id in rows
    ensures r.Some? ==> r.value == rows[id]
  {
    if id in rows then Some(rows[id]) else None
  }

  /** `existsById`: holds exactly when `findById` finds a row. */
  predicate ExistsById(rows: Rows, id: Id): (b: bool)
    ensures b <==> FindById(rows, id).Some?
  {
    id in rows
  }

  /** `findByIdAndDeletedFalse`: the stored row, unless it is soft-deleted. */
  function FindByIdAndDeletedFalse(rows: Rows, id: Id): (r: Option<Row>)
    ensures r.Some? <==> id in rows && !rows[id].deleted
    ensures r.Some? ==> r == FindById(rows, id)
  {
    match FindById(rows, id)
    case Some(row) => if row.deleted then None else Some(row)
    case None => None
  }

  /** The ids of the rows the count query counts. */
  ghost function UnreadActiveIds(rows: Rows, login: string): set<Id>
  {
    set k | k in rows && rows[k].userLogin == login && !rows[k].read && !rows[k].deleted
  }

  /** The count is the number of unread rows among those that
      `findByUserLoginAndDeletedFalse` returns. */
  function CountByUserLoginAndReadFalseAndDeletedFalse(rows: Rows, login: string): (n: nat)
    ensures var active := FindByUserLoginAndDeletedFalse(rows, login);
      n == |set k | k in active && !active[k].read|
  {
    var counted := set k | k in rows && rows[k].userLogin == login && !rows[k].read && !rows[k].deleted;
    var active := FindByUserLoginAndDeletedFalse(rows, login);
    assert counted == set k | k in active && !active[k].read;
    |counted|
  }

  // ---------------------------------------------------------------------------
  // Properties of the derived queries.

  /** The unread-history query is the history query restricted to records that
      are neither deleted nor read. */
  lemma UnreadHistoryRestrictsHistory(rows: Rows, login: string)
    ensures FindAllByUserLoginIgnoreCaseAndDeletedIsFalseAndReadIsFalse(rows, login)
         == Where(FindAllByUserLoginIgnoreCase(rows, login), (row: Row) => !row.deleted && !row.read)
  {
    var h := FindAllByUserLoginIgnoreCase(rows, login);
    var u := FindAllByUserLoginIgnoreCaseAndDeletedIsFalseAndReadIsFalse(rows, login);
    var w := Where(h, (row: Row) => !row.deleted && !row.read);
    assert u.Keys == w.Keys;
  }

  /** The history query returns every record of the login, whatever its flags. */
  lemma HistoryIgnoresFlags(rows: Rows, login: string, k: Id)
    requires k in rows && EqualsIgnoreCase(rows[k].userLogin, login)
    ensures k in FindAllByUserLoginIgnoreCase(rows, login)
  {
  }

  /** `findByUserLoginAndReadIsFalse` matches logins exactly and does not look
      at the `deleted` flag: a deleted unread record of the login is returned,
      and a record whose login differs only in case is not. */
  lemma ReadIsFalseQueryIgnoresDeleted()
    ensures var rows := map[1 := Row("m", None, "alice", true, false), 2 := Row("m", None, "Alice", false, false)];
      FindByUserLoginAndReadIsFalse(rows, "alice").Keys == {1}
  {
    var rows := map[1 := Row("m", None, "alice", true, false), 2 := Row("m", None, "Alice", false, false)];
    assert "Alice" != "alice" by { assert "Alice"[0] != "alice"[0]; }
    var r := FindByUserLoginAndReadIsFalse(rows, "alice");
    assert 1 in r && 2 !in r;
  }

  /** Exact-login queries return a subset of the case-insensitive ones. */
  lemma ExactQueriesBelowIgnoreCase(rows: Rows, login: string)
    ensures FindByUserLoginAndReadIsFalse(rows, login).Keys <= FindAllByUserLoginIgnoreCase(rows, login).Keys
    ensures FindByUserLoginAndDeletedFalse(rows, login).Keys <= FindAllByUserLoginIgnoreCase(rows, login).Keys
    ensures UnreadActiveIds(rows, login) <= FindAllByUserLoginIgnoreCaseAndDeletedIsFalseAndReadIsFalse(rows, login).Keys
  {
    forall k | k in rows && rows[k].userLogin == login { ExactImpliesIgnoreCase(rows[k].userLogin, login); }
  }

  /** The count is the size of the set `UnreadActiveIds` describes, and it
      never exceeds the number of that login's active records. */
  lemma CountIsUnreadActive(rows: Rows, login: string)
    ensures CountByUserLoginAndReadFalseAndDeletedFalse(rows, login) == |UnreadActiveIds(rows, login)|
    ensures CountByUserLoginAndReadFalseAndDeletedFalse(rows, login) <= |FindByUserLoginAndDeletedFalse(rows, login)|
  {
    var active := FindByUserLoginAndDeletedFalse(rows, login);
    var unread := set k | k in active && !active[k].read;
    assert UnreadActiveIds(rows, login) == unread;
    assert unread <= active.Keys;
    SubsetCardinality(unread, active.Keys);
  }

  lemma {:induction false} SubsetCardinality<T>(a: set<T>, b: set<T>)
    requires a <= b
    ensures |a| <= |b|
    decreases b
  {
    if a != b {
      var x :| x in b && x !in a;
      SubsetCardinality(a, b - {x});
    }
  }

  // ---------------------------------------------------------------------------
  // The store contract inherited from `JpaRepository`.

  /** Why a write fails: a column declared non-null is null (bean validation or
      the database constraint), or an entity carries an id that is not stored. */
  datatype StoreError = ConstraintViolation | StaleEntity(id: Id)

  /** The table after a successful write, the next value of the id sequence and
      the id of the written row. */
  datatype Saved = Saved(rows: Rows, nextId: Id, id: Id)

  /** Every stored id was drawn from the sequence before `nextId`. */
  ghost predicate IdsBelow(rows: Rows, nextId: Id)
  {
    forall k :: k in rows ==> k < nextId
  }

  /** `save` of an entity holding `f`: a null id inserts the row under the next
      sequence value; a stored id replaces that row; any other id is stale. */
  function Persist(rows: Rows, nextId: Id, f: Fields): (r: Result<Saved, StoreError>)
    ensures r.Success? <==> ToRow(f).Some? && (f.id.None? || f.id.value in rows)
    ensures r.Success? ==>
      && r.value.rows.Keys == rows.Keys + {r.value.id}
      && r.value.rows[r.value.id] == ToRow(f).value
      && (forall k :: k in rows && k != r.value.id ==> r.value.rows[k] == rows[k])
    ensures r.Success? && f.id.Some? ==> r.value.id == f.id.value && r.value.nextId == nextId
    ensures r.Success? && f.id.None? ==> r.value.id == nextId && r.value.nextId == nextId + 1
  {
    match f.id
    case Some(id) =>
      if id !in rows then Failure(StaleEntity(id))
      else if ToRow(f).None? then Failure(ConstraintViolation)
      else Success(Saved(rows[id := ToRow(f).value], nextId, id))
    case None =>
      if ToRow(f).None? then Failure(ConstraintViolation)
      else Success(Saved(rows[nextId := ToRow(f).value], nextId + 1, nextId))
  }

  /** Saving never removes a row, keeps every id below the sequence, and an
      insert (null id) uses an id no stored row has. */
  lemma PersistKeepsIdsFresh(rows: Rows, nextId: Id, f: Fields)
    requires IdsBelow(rows, nextId)
    ensures Persist(rows, nextId, f).Success? ==>
      && IdsBelow(Persist(rows, nextId, f).value.rows, Persist(rows, nextId, f).value.nextId)
      && rows.Keys <= Persist(rows, nextId, f).value.rows.Keys
    ensures Persist(rows, nextId, f).Success? && f.id.None? ==>
      && Persist(rows, nextId, f).value.id !in rows
      && |Persist(rows, nextId, f).value.rows| == |rows| + 1
  {
    var r := Persist(rows, nextId, f);
    if r.Success? && f.id.None? {
      assert nextId !in rows;
      assert r.value.rows.Keys == rows.Keys + {nextId};
    }
  }

  /** `saveAll`: the entities are saved in order; the surrounding transaction
      makes the batch all-or-nothing, so the first failure is the result. */
  function PersistAll(rows: Rows, nextId: Id, batch: seq<Fields>): (r: Result<(Rows, Id), StoreError>)
    ensures batch == [] ==> r == Success((rows, nextId))
    ensures r.Success? ==> rows.Keys <= r.value.0.Keys && nextId <= r.value.1
    ensures r.Success? && IdsBelow(rows, nextId) ==> IdsBelow(r.value.0, r.value.1)
    ensures (exists i :: 0 <= i < |batch| && ToRow(batch[i]).None?) ==> r.Failure?
    decreases |batch|
  {
    if batch == [] then Success((rows, nextId))
    else match Persist(rows, nextId, batch[0])
      case Failure(e) => Failure(e)
      case Success(s) => PersistAll(s.rows, s.nextId, batch[1..])
  }

  /** Entity values loaded from `rows`: each carries a stored id and its
      non-null columns; no id occurs twice. */
  ghost predicate StoredBatch(rows: Rows, batch: seq<Fields>)
  {
    && (forall i :: 0 <= i < |batch| ==> batch[i].id.Some? && batch[i].id.value in rows && ToRow(batch[i]).Some?)
    && (forall i, j :: 0 <= i < j < |batch| ==> batch[i].id != batch[j].id)
  }

  /** A batch of loaded entities saves without error: it rewrites exactly the
      rows of its ids with the batch's values, keeps the other rows and does
      not advance the sequence. */
  lemma {:induction false} PersistAllStored(rows: Rows, nextId: Id, batch: seq<Fields>)
    requires StoredBatch(rows, batch)
    ensures PersistAll(rows, nextId, batch).Success?
    ensures var out := PersistAll(rows, nextId, batch).value;
      && out.1 == nextId
      && out.0.Keys == rows.Keys
      && (forall i :: 0 <= i < |batch| ==> out.0[batch[i].id.value] == ToRow(batch[i]).value)
      && (forall k :: k in rows && (forall i :: 0 <= i < |batch| ==> batch[i].id != Some(k)) ==> out.0[k] == rows[k])
    decreases |batch|
  {
    if batch != [] {
      var s := Persist(rows, nextId, batch[0]);
      assert s.Success?;
      var rest := batch[1..];
      assert s.value.rows.Keys == rows.Keys;
      assert StoredBatch(s.value.rows, rest) by {
        forall i | 0 <= i < |rest| ensures rest[i] == batch[i + 1] { }
      }
      PersistAllStored(s.value.rows, s.value.nextId, rest);
      var out := PersistAll(rows, nextId, batch).value;
      assert out == PersistAll(s.value.rows, s.value.nextId, rest).value;
      forall i | 0 <= i < |batch|
        ensures out.0[batch[i].id.value] == ToRow(batch[i]).value
      {
        if i > 0 {
          assert rest[i - 1] == batch[i];
        } else {
          forall j | 0 <= j < |rest| ensures rest[j].id != batch[0].id {
            assert rest[j] == batch[j + 1];
          }
        }
      }
      forall k | k in rows && (forall i :: 0 <= i < |batch| ==> batch[i].id != Some(k))
        ensures out.0[k] == rows[k]
      {
        assert batch[0].id != Some(k);
        forall j | 0 <= j < |rest| ensures rest[j].id != Some(k) {
          assert rest[j] == batch[j + 1];
        }
      }
    }
  }

  /** The store. The table and the id sequence are the state that `save`,
      `saveAll` and `deleteById` change. */
  class NotificationRepository {
    var rows: Rows
    var nextId: Id

    ghost predicate Valid()
      reads this
    {
      IdsBelow(rows, nextId)
    }

    constructor ()
      ensures Valid() && rows == map[]
    {
      rows := map[];
      nextId := 1;
    }

    /** `save(entity)` on the values the entity holds; returns the saved id. */
    method SaveFields(f: Fields) returns (res: Result<Id, StoreError>)
      requires Valid()
      modifies this
      ensures Valid()
      ensures var out := Persist(old(rows), old(nextId), f);
        && (out.Success? ==> res == Success(out.value.id) && rows == out.value.rows && nextId == out.value.nextId)
        && (out.Failure? ==> res == Failure(out.error) && rows == old(rows) && nextId == old(nextId))
    {
      PersistKeepsIdsFresh(rows, nextId, f);
      var out := Persist(rows, nextId, f);
      if out.Success? {
        rows, nextId := out.value.rows, out.value.nextId;
        res := Success(out.value.id);
      } else {
        res := Failure(out.error);
      }
    }

    /** `save(entity)`: writes the entity's row and, on an insert, stores the
        generated id into the entity. */
    method Save(n: Notification) returns (res: Result<Id, StoreError>)
      requires Valid()
      modifies this, n
      ensures Valid()
      ensures var out := Persist(old(rows), old(nextId), old(n.Snapshot()));
        && (out.Success? ==>
              res == Success(out.value.id) && rows == out.value.rows && nextId == out.value.nextId
              && n.Snapshot() == old(n.Snapshot()).(id := Some(out.value.id)))
        && (out.Failure? ==>
              res == Failure(out.error) && rows == old(rows) && nextId == old(nextId)
              && n.Snapshot() == old(n.Snapshot()))
    {
      res := SaveFields(n.Snapshot());
      if res.Success? {
        n.SetId(Some(res.value));
      }
    }

    /** `saveAll(entities)`, given the values the entities hold: saves them one
        by one and, if one fails, rolls the whole batch back. */
    method SaveAll(batch: seq<Fields>) returns (res: Outcome<StoreError>)
      requires Valid()
      modifies this
      ensures Valid()
      ensures var out := PersistAll(old(rows), old(nextId), batch);
        && (out.Success? ==> res == Pass && rows == out.value.0 && nextId == out.value.1)
        && (out.Failure? ==> res == Fail(out.error) && rows == old(rows) && nextId == old(nextId))
    {
      var rows0, nextId0 := rows, nextId;
      var i := 0;
      while i < |batch|
        invariant 0 <= i <= |batch|
        invariant Valid() && rows0 == old(rows) && nextId0 == old(nextId)
        invariant PersistAll(old(rows), old(nextId), batch) == PersistAll(rows, nextId, batch[i..])
      {
        assert batch[i..][0] == batch[i] && batch[i..][1..] == batch[i + 1..];
        var r := SaveFields(batch[i]);
        if r.Failure? {
          rows, nextId := rows0, nextId0;
          return Fail(r.error);
        }
        i := i + 1;
      }
      assert batch[i..] == [];
      res := Pass;
    }

    /** `deleteById(id)`: removes the row; an absent id is ignored. */
    method DeleteById(id: Id)
      requires Valid()
      modifies this
      ensures Valid()
      ensures rows == old(rows) - {id} && nextId == old(nextId)
    {
      rows := rows - {id};
    }
  }
}
