/** The `Notification` JPA entity: its nullable fields, its setters and fluent
    setters, and its id-based `equals`/`hashCode`. */
module Domain {
  import opened Wrappers

  /** Entity identifiers (Java `Long`, produced by the store's sequence generator). */
  type Id = int

  /** The values of an entity's fields at one moment, each nullable as in Java.
      The DTO carries the same six fields, so it is represented by this type too. */
  datatype Fields = Fields(
    id: Option<Id>,
    message: Option<string>,
    reservationId: Option<int>,
    userLogin: Option<string>,
    deleted: Option<bool>,
    read: Option<bool>)

  /** A persisted row: the columns declared non-null hold values; the id is the
      key under which the store keeps the row. */
  datatype Row = Row(
    message: string,
    reservationId: Option<int>,
    userLogin: string,
    deleted: bool,
    read: bool)

  /** The row that persisting `f` writes, or `None` when one of the columns
      declared non-null (`message`, `userLogin`, `deleted`, `read`) is null. */
  function ToRow(f: Fields): (r: Option<Row>)
    ensures r.Some? <==> f.message.Some? && f.userLogin.Some? && f.deleted.Some? && f.read.Some?
  {
    if f.message.Some? && f.userLogin.Some? && f.deleted.Some? && f.read.Some?
    then Some(Row(f.message.value, f.reservationId, f.userLogin.value, f.deleted.value, f.read.value))
    else None
  }

  /** The field values of the entity loaded from row `row` with key `id`: it
      carries the key, and persisting it again writes the same row. */
  function RowFields(id: Id, row: Row): (f: Fields)
    ensures f.id == Some(id)
    ensures ToRow(f) == Some(row)
  {
    Fields(Some(id), Some(row.message), row.reservationId, Some(row.userLogin), Some(row.deleted), Some(row.read))
  }

  /** Persisting entity values that carry an id and loading the row back gives those values. */
  lemma PersistThenLoad(f: Fields, id: Id)
    requires f.id == Some(id) && ToRow(f).Some?
    ensures RowFields(id, ToRow(f).value) == f
  {
  }

  /** The JPA entity. Every field is a nullable Java reference. */
  class Notification {
    var id: Option<Id>
    var message: Option<string>
    var reservationId: Option<int>
    var userLogin: Option<string>
    var deleted: Option<bool>
    var read: Option<bool>

    /** The current values of all fields. */
    function Snapshot(): Fields
      reads this
    {
      Fields(id, message, reservationId, userLogin, deleted, read)
    }

    /** `new Notification()`: every field is null. */
    constructor ()
      ensures Snapshot() == Fields(None, None, None, None, None, None)
    {
      id, message, reservationId, userLogin, deleted, read := None, None, None, None, None, None;
    }

    /** The managed entity the store hands out for the row stored under `key`. */
    constructor Loaded(key: Id, row: Row)
      ensures Snapshot() == RowFields(key, row)
    {
      id, message, reservationId := Some(key), Some(row.message), row.reservationId;
      userLogin, deleted, read := Some(row.userLogin), Some(row.deleted), Some(row.read);
    }

    /** An entity holding the given field values (what the mapper's `toEntity` builds). */
    constructor FromFields(f: Fields)
      ensures Snapshot() == f
    {
      id, message, reservationId := f.id, f.message, f.reservationId;
      userLogin, deleted, read := f.userLogin, f.deleted, f.read;
    }

    method SetId(v: Option<Id>)
      modifies this
      ensures Snapshot() == old(Snapshot()).(id := v)
    {
      id := v;
    }

    method SetMessage(v: Option<string>)
      modifies this
      ensures Snapshot() == old(Snapshot()).(message := v)
    {
      message := v;
    }

    method SetReservationId(v: Option<int>)
      modifies this
      ensures Snapshot() == old(Snapshot()).(reservationId := v)
    {
      reservationId := v;
    }

    method SetUserLogin(v: Option<string>)
      modifies this
      ensures Snapshot() == old(Snapshot()).(userLogin := v)
    {
      userLogin := v;
    }

    method SetDeleted(v: Option<bool>)
      modifies this
      ensures Snapshot() == old(Snapshot()).(deleted := v)
    {
      deleted := v;
    }

    method SetRead(v: Option<bool>)
      modifies this
      ensures Snapshot() == old(Snapshot()).(read := v)
    {
      read := v;
    }

    /** Fluent setter `id(v)`: sets the field through the setter and returns this object. */
    method Id(v: Option<Id>) returns (self: Notification)
      modifies this
      ensures self == this && Snapshot() == old(Snapshot()).(id := v)
    {
      SetId(v);
      self := this;
    }

    method Message(v: Option<string>) returns (self: Notification)
      modifies this
      ensures self == this && Snapshot() == old(Snapshot()).(message := v)
    {
      SetMessage(v);
      self := this;
    }

    method ReservationId(v: Option<int>) returns (self: Notification)
      modifies this
      ensures self == this && Snapshot() == old(Snapshot()).(reservationId := v)
    {
      SetReservationId(v);
      self := this;
    }

    method UserLogin(v: Option<string>) returns (self: Notification)
      modifies this
      ensures self == this && Snapshot() == old(Snapshot()).(userLogin := v)
    {
      SetUserLogin(v);
      self := this;
    }

    method Deleted(v: Option<bool>) returns (self: Notification)
      modifies this
      ensures self == this && Snapshot() == old(Snapshot()).(deleted := v)
    {
      SetDeleted(v);
      self := this;
    }

    method Read(v: Option<bool>) returns (self: Notification)
      modifies this
      ensures self == this && Snapshot() == old(Snapshot()).(read := v)
    {
      SetRead(v);
      self := this;
    }

    /** `equals(o)`: the same object, or another notification with the same
        non-null id. A null `o` (and, in Java, any non-`Notification`) is unequal. */
    predicate Equals(o: Notification?): (b: bool)
      reads this, o
      ensures b ==> o != null
      ensures o == this ==> b
      ensures o != this && id.None? ==> !b
      ensures o != null && o != this && id.Some? ==> (b <==> o.id == id)
    {
      this == o || (o != null && id.Some? && id == o.id)
    }

    /** `hashCode()`: the hash of the class object, whatever the fields hold.
        The value itself is chosen by the JVM, so it is a parameter here. */
    function HashCode(classHash: int): (h: int)
      ensures h == classHash
    {
      classHash
    }
  }

  /** An object always equals itself. */
  lemma EqualsReflexive(a: Notification)
    ensures a.Equals(a)
  {
  }

  /** Two distinct objects are equal exactly when both ids are non-null and equal. */
  lemma EqualsDistinct(a: Notification, b: Notification)
    requires a != b
    ensures a.Equals(b) <==> a.id.Some? && b.id.Some? && a.id == b.id
  {
  }

  /** A notification whose id is null equals no other object, in either direction. */
  lemma NullIdEqualsNoOther(a: Notification, b: Notification?)
    requires a.id.None? && a != b
    ensures !a.Equals(b)
    ensures b != null ==> !b.Equals(a)
  {
  }

  /** Equality is symmetric and transitive. */
  lemma EqualsIsEquivalence(a: Notification, b: Notification, c: Notification)
    ensures a.Equals(b) ==> b.Equals(a)
    ensures a.Equals(b) && b.Equals(c) ==> a.Equals(c)
  {
  }

  /** Every instance has the same hash code, so equal objects have equal hash codes. */
  lemma HashCodeSameForAll(a: Notification, b: Notification, classHash: int)
    ensures a.HashCode(classHash) == b.HashCode(classHash)
    ensures a.Equals(b) ==> a.HashCode(classHash) == b.HashCode(classHash)
  {
  }
}
