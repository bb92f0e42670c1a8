/**
 * The database as the catalog sees it (src/DataAccess/BookStore.DataAccess/BookStoreDbContext.cs):
 * the five tables, the unique indexes and foreign keys the model
 * configuration declares, the timestamp stamping and audit records
 * `SaveChangesAsync` adds, and the exceptions a save can raise.
 */
module Persistence {
  import opened Results
  import opened Entities
  import opened Sequences
  import Text

  /**
   * The exceptions the catalog code raises or lets through. `KeyTracked` is
   * the `InvalidOperationException` the change tracker throws when an
   * entity is added whose key an instance it already tracks has; its
   * message is `MessageOf`.
   */
  datatype Exception =
    | FileNotFound(message: string, fileName: string)
    | InvalidOperation(message: string)
    | KeyTracked(entityType: string, keyNames: string)
    | DbUpdate(message: string)
    | JsonError(message: string)

  /** `DbUpdateException.Message` when a constraint fails during a save. */
  const DbUpdateMessage: string := "An error occurred while saving the entity changes. See the inner exception for details."

  /** The exception's `Message`; for `KeyTracked`, EF Core's identity-map message naming the entity type and its key properties. */
  function MessageOf(e: Exception): string
  {
    if e.KeyTracked? then
      "The instance of entity type '" + e.entityType + "' cannot be tracked because another instance with the same key value for {"
      + e.keyNames + "} is already being tracked."
    else e.message
  }

  /** What a call does when it does not return normally: it returns a result or throws. */
  datatype Outcome<T> = Returned(result: Result<T>) | Threw(exception: Exception)

  /**
   * The persisted state. The join tables are keyed by their composite keys:
   * (BookId, AuthorId) for BookAuthors and (StoreId, BookId) for StoreBooks,
   * whose only payload is the quantity.
   */
  datatype Tables = Tables(
    authors: map<Id, Author>,
    books: map<Id, Book>,
    stores: map<Id, Store>,
    bookAuthors: set<BookAuthor>,
    storeBooks: map<StoreBookKey, int>)

  const EmptyTables: Tables := Tables(map[], map[], map[], {}, map[])

  /** The unique index on `Book.Isbn`. */
  predicate UniqueIsbn(t: Tables)
  {
    forall x, y | x in t.books && y in t.books :: t.books[x].isbn == t.books[y].isbn ==> x == y
  }

  /** The unique index on (`Author.FirstName`, `Author.LastName`). */
  predicate UniqueAuthorName(t: Tables)
  {
    forall x, y | x in t.authors && y in t.authors ::
      t.authors[x].firstName == t.authors[y].firstName && t.authors[x].lastName == t.authors[y].lastName ==> x == y
  }

  /** Every join row refers to rows that exist. */
  predicate ForeignKeys(t: Tables)
  {
    (forall l | l in t.bookAuthors :: l.bookId in t.books && l.authorId in t.authors)
    && (forall k | k in t.storeBooks :: k.storeId in t.stores && k.bookId in t.books)
  }

  predicate Constraints(t: Tables)
  {
    UniqueIsbn(t) && UniqueAuthorName(t) && ForeignKeys(t)
  }

  /** Every key in use is below `n`, so `n` and above are fresh. */
  predicate KeysBelow(t: Tables, n: nat)
  {
    (forall id | id in t.authors :: id < n)
    && (forall id | id in t.books :: id < n)
    && (forall id | id in t.stores :: id < n)
  }

  /** A full scan of a table: every row once, in storage order, which the model leaves open. */
  method Scan<E>(table: map<Id, E>) returns (rows: seq<Keyed<E>>)
    ensures DistinctIds(rows)
    ensures forall r :: r in rows <==> r.id in table && table[r.id] == r.entity
  {
    var keys := Enumerate(table);
    rows := seq(|keys|, i requires 0 <= i < |keys| => Keyed(keys[i], table[keys[i]]));
    forall r: Keyed<E> | r.id in table && table[r.id] == r.entity
      ensures r in rows
    {
      var i :| 0 <= i < |keys| && keys[i] == r.id;
      assert rows[i] == r;
    }
  }

  predicate DistinctIds<E>(rows: seq<Keyed<E>>)
  {
    forall i, j :: 0 <= i < j < |rows| ==> rows[i].id != rows[j].id
  }

  lemma {:induction false} WhereDistinctIds<E(!new)>(rows: seq<Keyed<E>>, p: Keyed<E> -> bool)
    ensures DistinctIds(rows) ==> DistinctIds(Where(rows, p))
  {
    if rows != [] && DistinctIds(rows) {
      var tail := rows[1..];
      assert DistinctIds(tail) by {
        forall i, j | 0 <= i < j < |tail|
          ensures tail[i].id != tail[j].id
        {
          assert tail[i] == rows[i + 1] && tail[j] == rows[j + 1];
        }
      }
      WhereDistinctIds(tail, p);
      var rest := Where(tail, p);
      if p(rows[0]) {
        var r := [rows[0]] + rest;
        forall i, j | 0 <= i < j < |r|
          ensures r[i].id != r[j].id
        {
          if i == 0 {
            assert r[j] in tail;
            var k :| 0 <= k < |tail| && tail[k] == r[j];
            assert rows[k + 1] == r[j];
          } else {
            assert r[i] == rest[i - 1] && r[j] == rest[j - 1];
          }
        }
      }
    }
  }

  /**
   * `GetByIdsAsync`, which the author and store repositories implement
   * identically: de-duplicate the requested ids, answer an empty request
   * without a query, and otherwise keep exactly the scanned rows whose key
   * was requested, each once however often it was requested.
   */
  function RowsWithIds<E(!new)>(rows: seq<Keyed<E>>, ids: seq<Id>): (r: seq<Keyed<E>>)
    ensures ids == [] ==> r == []
    ensures forall x :: x in r <==> x in rows && x.id in ids
    ensures DistinctIds(rows) ==> DistinctIds(r)
  {
    var idArray := Distinct(ids);
    if |idArray| == 0 then []
    else
      var keep := (x: Keyed<E>) => x.id in idArray;
      WhereDistinctIds(rows, keep);
      Where(rows, keep)
  }

  // ---------------------------------------------------------------------
  // Change tracking and stamping

  datatype EntityState = Detached | Unchanged | Deleted | Modified | Added

  /** `EntityState.ToString()`. */
  function StateName(s: EntityState): string
  {
    match s
    case Detached => "Detached"
    case Unchanged => "Unchanged"
    case Deleted => "Deleted"
    case Modified => "Modified"
    case Added => "Added"
  }

  /** Reads a state name back; the inverse of `StateName`. */
  function ParseState(name: string): Option<EntityState>
  {
    if name == "Detached" then Some(Detached)
    else if name == "Unchanged" then Some(Unchanged)
    else if name == "Deleted" then Some(Deleted)
    else if name == "Modified" then Some(Modified)
    else if name == "Added" then Some(Added)
    else None
  }

  lemma ParseStateName(s: EntityState)
    ensures ParseState(StateName(s)) == Some(s)
  {
  }

  /**
   * The stamping step of `SaveChangesAsync` for one base entity: an added
   * entity gets its creation time, a modified one its update time.
   */
  function Stamp(times: Times, state: EntityState, now: Timestamp): Times
  {
    match state
    case Added => times.(createdAtUtc := now)
    case Modified => times.(updatedAtUtc := Some(now))
    case _ => times
  }

  /** The state the change tracker assigns to the row `id` of `after`, given the saved rows `before`. */
  function StateIn<E(==)>(before: map<Id, E>, after: map<Id, E>, id: Id): EntityState
    requires id in after
  {
    if id !in before then Added else if after[id] != before[id] then Modified else Unchanged
  }

  /**
   * The pending state `pending` of a save, stamped against the saved state
   * `before`: new rows carry `now` as creation time, changed rows as update
   * time, and every other row is left as it is.
   */
  function StampTables(before: Tables, pending: Tables, now: Timestamp): (r: Tables)
    ensures r.authors.Keys == pending.authors.Keys
    ensures r.books.Keys == pending.books.Keys
    ensures r.stores.Keys == pending.stores.Keys
    ensures r.bookAuthors == pending.bookAuthors && r.storeBooks == pending.storeBooks
  {
    Tables(
      map id | id in pending.authors ::
        pending.authors[id].(times := Stamp(pending.authors[id].times, StateIn(before.authors, pending.authors, id), now)),
      map id | id in pending.books ::
        pending.books[id].(times := Stamp(pending.books[id].times, StateIn(before.books, pending.books, id), now)),
      map id | id in pending.stores ::
        pending.stores[id].(times := Stamp(pending.stores[id].times, StateIn(before.stores, pending.stores, id), now)),
      pending.bookAuthors,
      pending.storeBooks)
  }

  /**
   * Stamping touches nothing but the audit columns: every book keeps its
   * ISBN, title and description; an added book is created at `now`, a
   * modified one updated at `now`, and an unchanged one keeps its row.
   * (Authors and stores follow the same rule, proved alongside.)
   */
  lemma StampTablesBooks(before: Tables, pending: Tables, now: Timestamp, id: Id)
    requires id in pending.books
    ensures var b := StampTables(before, pending, now).books[id]; var p := pending.books[id];
      b.isbn == p.isbn && b.title == p.title && b.description == p.description
      && (id !in before.books ==> b.times == p.times.(createdAtUtc := now))
      && (id in before.books && p != before.books[id] ==> b.times == p.times.(updatedAtUtc := Some(now)))
      && (id in before.books && p == before.books[id] ==> b == p)
  {
  }

  lemma StampTablesAuthors(before: Tables, pending: Tables, now: Timestamp, id: Id)
    requires id in pending.authors
    ensures var a := StampTables(before, pending, now).authors[id]; var p := pending.authors[id];
      a.firstName == p.firstName && a.lastName == p.lastName
      && (id !in before.authors ==> a.times == p.times.(createdAtUtc := now))
      && (id in before.authors && p == before.authors[id] ==> a == p)
  {
  }

  lemma StampTablesStores(before: Tables, pending: Tables, now: Timestamp, id: Id)
    requires id in pending.stores
    ensures var s := StampTables(before, pending, now).stores[id]; var p := pending.stores[id];
      s.name == p.name && s.location == p.location
      && (id !in before.stores ==> s.times == p.times.(createdAtUtc := now))
      && (id in before.stores && p == before.stores[id] ==> s == p)
  {
  }

  /** Saving a state that changes no entity row stamps nothing. */
  lemma StampUnchangedEntities(before: Tables, pending: Tables, now: Timestamp)
    requires pending.authors == before.authors && pending.books == before.books && pending.stores == before.stores
    ensures StampTables(before, pending, now) == pending
  {
    var r := StampTables(before, pending, now);
    assert r.authors == pending.authors;
    assert r.books == pending.books;
    assert r.stores == pending.stores;
  }

  /** The constraints do not look at the audit columns, so stamping cannot break or repair them. */
  lemma {:induction false} StampKeepsConstraints(before: Tables, pending: Tables, now: Timestamp)
    ensures Constraints(StampTables(before, pending, now)) <==> Constraints(pending)
    ensures forall n: nat :: KeysBelow(StampTables(before, pending, now), n) <==> KeysBelow(pending, n)
  {
    var r := StampTables(before, pending, now);
    forall x | x in pending.books
      ensures r.books[x].isbn == pending.books[x].isbn
    {
      StampTablesBooks(before, pending, now, x);
    }
    forall x | x in pending.authors
      ensures r.authors[x].firstName == pending.authors[x].firstName
      ensures r.authors[x].lastName == pending.authors[x].lastName
    {
      StampTablesAuthors(before, pending, now, x);
    }
  }

  // ---------------------------------------------------------------------
  // Audit records

  /** One property of a tracked entity, its values already formatted as text. */
  datatype PropertyEntry = PropertyEntry(name: string, originalValue: Option<string>, currentValue: Option<string>, isModified: bool)

  /**
   * A change-tracker entry: the entity's type name, whether it is a base
   * entity (join rows are not), its key, its state, its audit columns and
   * its properties in metadata order.
   */
  datatype Entry = Entry(
    entityName: string, isBaseEntity: bool, id: Id, state: EntityState,
    times: Times, properties: seq<PropertyEntry>)

  datatype AuditLog = AuditLog(entityName: string, entityId: Id, action: string, changes: Option<string>, timestampUtc: Timestamp)

  /** `Guid.Empty`, the key recorded for an entity that is not a base entity. */
  const EmptyGuid: Id := 0

  /** String interpolation of a possibly null value. */
  function Formatted(v: Option<string>): string
  {
    if v.Some? then v.value else ""
  }

  /** "Name:original -> current" for one property. */
  function ChangeText(p: PropertyEntry): string
  {
    p.name + ":" + Formatted(p.originalValue) + " -> " + Formatted(p.currentValue)
  }

  /** The change texts of the modified properties, in property order. */
  function ModifiedChanges(ps: seq<PropertyEntry>): (r: seq<string>)
    ensures |r| <= |ps|
  {
    if ps == [] then []
    else if ps[0].isModified then [ChangeText(ps[0])] + ModifiedChanges(ps[1..])
    else ModifiedChanges(ps[1..])
  }

  /** `CreateAuditLog`: the audit record for one entry. */
  function CreateAuditLog(e: Entry, now: Timestamp): AuditLog
  {
    var changes :=
      if e.state == Modified then Some(Text.Join(";", ModifiedChanges(e.properties)))
      else if e.state == Added || e.state == Deleted then Some("State:" + StateName(e.state))
      else None;
    AuditLog(e.entityName, if e.isBaseEntity then e.id else EmptyGuid, StateName(e.state), changes, now)
  }

  /** The record names the entity, and its action names the state the entry was in. */
  lemma AuditLogIdentifiesEntry(e: Entry, now: Timestamp)
    requires e.isBaseEntity
    ensures var a := CreateAuditLog(e, now);
      a.entityName == e.entityName && a.entityId == e.id && a.timestampUtc == now
      && ParseState(a.action) == Some(e.state)
  {
  }

  /** An added or deleted entity's record says only which of the two happened. */
  lemma AuditLogAddedOrDeleted(e: Entry, now: Timestamp)
    requires e.state == Added || e.state == Deleted
    ensures CreateAuditLog(e, now).changes == Some("State:" + CreateAuditLog(e, now).action)
  {
  }

  /**
   * A modified entity's record lists one "Name:original -> current" piece
   * per modified property, in order, and nothing for the others: splitting
   * the text at ';' gives them back (when no piece contains ';').
   */
  lemma AuditLogModified(e: Entry, now: Timestamp)
    requires e.state == Modified
    requires exists i :: 0 <= i < |e.properties| && e.properties[i].isModified
    requires forall i :: 0 <= i < |e.properties| ==> ';' !in ChangeText(e.properties[i])
    ensures Text.Split(CreateAuditLog(e, now).changes.value, ';') == ModifiedChanges(e.properties)
  {
    ModifiedChangesPieces(e.properties, ';');
    Text.SplitJoin(ModifiedChanges(e.properties), ';');
  }

  lemma {:induction false} ModifiedChangesPieces(ps: seq<PropertyEntry>, sep: char)
    requires forall i :: 0 <= i < |ps| ==> sep !in ChangeText(ps[i])
    ensures (exists i :: 0 <= i < |ps| && ps[i].isModified) ==> ModifiedChanges(ps) != []
    ensures forall j :: 0 <= j < |ModifiedChanges(ps)| ==> sep !in ModifiedChanges(ps)[j]
  {
    if ps != [] {
      ModifiedChangesPieces(ps[1..], sep);
      if exists i :: 0 <= i < |ps| && ps[i].isModified {
        var i :| 0 <= i < |ps| && ps[i].isModified;
        if i > 0 {
          assert ps[1..][i - 1].isModified;
        }
      }
    }
  }

  /** Whether `SaveChangesAsync` writes an audit record for an entry. */
  predicate Audited(e: Entry)
  {
    e.isBaseEntity && (e.state == Added || e.state == Modified || e.state == Deleted)
  }

  /** A timestamp interpolated into an audit text, written as its decimal tick count. */
  function TimestampText(t: Timestamp): string
  {
    if t < 0 then "-" + Text.NatText(-t) else Text.NatText(t)
  }

  /** The audit column the stamping loop sets for an entity in `state`. */
  function StampedColumn(state: EntityState): string
  {
    if state == Added then "CreatedAtUtc" else "UpdatedAtUtc"
  }

  /**
   * The property entry `p` after its entity's property `name` was set to
   * `value`; with `detect`, change detection then marks it modified when the
   * value differs from the original one.
   */
  function SetProperty(p: PropertyEntry, name: string, value: string, detect: bool): PropertyEntry
  {
    if p.name != name then p
    else p.(currentValue := Some(value), isModified := p.isModified || (detect && p.originalValue != Some(value)))
  }

  function SetProperties(ps: seq<PropertyEntry>, name: string, value: string, detect: bool): seq<PropertyEntry>
  {
    seq(|ps|, i requires 0 <= i < |ps| => SetProperty(ps[i], name, value, detect))
  }

  /**
   * The stamping loop's effect on one entry, as the change tracker then sees
   * it: an added base entity gets its creation time, a modified one its
   * update time, and the property entry of that column carries the new value.
   * Enumerating the entries runs change detection, so a modified entity's
   * `UpdatedAtUtc` becomes a modified property whenever its value changed.
   */
  function StampEntry(e: Entry, now: Timestamp): Entry
  {
    if e.isBaseEntity && (e.state == Added || e.state == Modified) then
      e.(times := Stamp(e.times, e.state, now),
         properties := SetProperties(e.properties, StampedColumn(e.state), TimestampText(now), e.state == Modified))
    else e
  }

  /**
   * Stamping changes only the times and the stamped column's property entry,
   * keeps the property names, is idempotent, and does not change whether
   * the entry is audited.
   */
  lemma StampEntryProperties(e: Entry, now: Timestamp)
    ensures StampEntry(e, now).(times := e.times, properties := e.properties) == e
    ensures |StampEntry(e, now).properties| == |e.properties|
    ensures forall i :: 0 <= i < |e.properties| ==> StampEntry(e, now).properties[i].name == e.properties[i].name
    ensures forall i :: 0 <= i < |e.properties| && e.properties[i].name != StampedColumn(e.state) ==>
      StampEntry(e, now).properties[i] == e.properties[i]
    ensures StampEntry(StampEntry(e, now), now) == StampEntry(e, now)
    ensures Audited(StampEntry(e, now)) == Audited(e)
  {
  }

  /** A modified property's change text is among the modified changes. */
  lemma {:induction false} ModifiedChangesHas(ps: seq<PropertyEntry>, i: nat)
    requires i < |ps| && ps[i].isModified
    ensures ChangeText(ps[i]) in ModifiedChanges(ps)
  {
    if i > 0 {
      ModifiedChangesHas(ps[1..], i - 1);
    }
  }

  /**
   * The audit record of a stamped modified entity reports its update time:
   * when the stored `UpdatedAtUtc` differs from the new one (or was already
   * modified), "UpdatedAtUtc:<original> -> <now>" is one of its changes.
   */
  lemma StampedUpdateIsAudited(e: Entry, now: Timestamp, i: nat)
    requires e.isBaseEntity && e.state == Modified
    requires i < |e.properties| && e.properties[i].name == "UpdatedAtUtc"
    requires e.properties[i].isModified || e.properties[i].originalValue != Some(TimestampText(now))
    ensures var s := StampEntry(e, now);
      s.properties[i].currentValue == Some(TimestampText(now))
      && ChangeText(s.properties[i]) == "UpdatedAtUtc:" + Formatted(e.properties[i].originalValue) + " -> " + TimestampText(now)
      && ChangeText(s.properties[i]) in ModifiedChanges(s.properties)
  {
    ModifiedChangesHas(StampEntry(e, now).properties, i);
  }

  /**
   * A book whose only edit is its title, saved at time 5 with no earlier
   * update time: its audit text lists the title change and then the update
   * time the stamp set.
   */
  lemma RetitleAuditText(id: Id)
    ensures var e := Entry("Book", true, id, Modified, Times(1, None),
        [PropertyEntry("Title", Some("a"), Some("b"), true), PropertyEntry("UpdatedAtUtc", None, None, false)]);
      CreateAuditLog(StampEntry(e, 5), 5).changes == Some("Title:a -> b;UpdatedAtUtc: -> 5")
  {
    var title := PropertyEntry("Title", Some("a"), Some("b"), true);
    var e := Entry("Book", true, id, Modified, Times(1, None), [title, PropertyEntry("UpdatedAtUtc", None, None, false)]);
    var ps := [title, PropertyEntry("UpdatedAtUtc", None, Some("5"), true)];
    RetitleStamp(e, title);
    RetitleChanges(ps);
    RetitleJoin(ModifiedChanges(ps));
    assert StampEntry(e, 5).properties == ps;
  }

  /** The steps of `RetitleAuditText`: the stamp, the change texts and their join. */
  lemma RetitleStamp(e: Entry, title: PropertyEntry)
    requires title == PropertyEntry("Title", Some("a"), Some("b"), true)
    requires e.isBaseEntity && e.state == Modified && e.properties == [title, PropertyEntry("UpdatedAtUtc", None, None, false)]
    ensures StampEntry(e, 5).properties == [title, PropertyEntry("UpdatedAtUtc", None, Some("5"), true)]
  {
    assert TimestampText(5) == "5";
    assert "Title" != "UpdatedAtUtc" by { assert "Title"[0] != "UpdatedAtUtc"[0]; }
  }

  lemma RetitleJoin(changes: seq<string>)
    requires changes == ["Title:a -> b", "UpdatedAtUtc: -> 5"]
    ensures Text.Join(";", changes) == "Title:a -> b;UpdatedAtUtc: -> 5"
  {
    assert Text.Join(";", changes) == changes[0] + ";" + changes[1];
  }

  lemma RetitleChanges(ps: seq<PropertyEntry>)
    requires ps == [PropertyEntry("Title", Some("a"), Some("b"), true), PropertyEntry("UpdatedAtUtc", None, Some("5"), true)]
    ensures ModifiedChanges(ps) == ["Title:a -> b", "UpdatedAtUtc: -> 5"]
  {
    assert ModifiedChanges(ps[1..][1..]) == [] by { assert ps[1..][1..] == []; }
    assert ModifiedChanges(ps) == [ChangeText(ps[0]), ChangeText(ps[1])];
    assert ChangeText(ps[0]) == "Title:a -> b";
    assert ChangeText(ps[1]) == "UpdatedAtUtc: -> 5";
  }


  /** The audit records for a list of entries, in entry order. */
  function AuditsOf(es: seq<Entry>, now: Timestamp): seq<AuditLog>
  {
    if es == [] then []
    else if Audited(es[0]) then [CreateAuditLog(es[0], now)] + AuditsOf(es[1..], now)
    else AuditsOf(es[1..], now)
  }

  /**
   * Exactly one record per audited entry: as many records as audited
   * entries, each the record of an audited entry, and every audited entry's
   * record among them. Join rows, which are not base entities, get none.
   */
  lemma {:induction false} AuditsOfOnePerEntry(es: seq<Entry>, now: Timestamp)
    ensures |AuditsOf(es, now)| == |Where(es, Audited)|
    ensures forall a :: a in AuditsOf(es, now) <==> exists e :: e in es && Audited(e) && a == CreateAuditLog(e, now)
  {
    if es != [] {
      AuditsOfOnePerEntry(es[1..], now);
      assert es == [es[0]] + es[1..];
      assert forall e :: e in es <==> e == es[0] || e in es[1..];
    }
  }

  // ---------------------------------------------------------------------

  /**
   * The database context: the saved tables, the next fresh key and the
   * audit log table.
   */
  class BookStoreDbContext {
    var tables: Tables
    var nextId: nat
    var auditLogs: seq<AuditLog>

    ghost predicate Valid()
      reads this
    {
      Constraints(tables) && KeysBelow(tables, nextId)
    }

    constructor()
      ensures Valid() && tables == EmptyTables && auditLogs == []
    {
      tables := EmptyTables;
      nextId := 1;
      auditLogs := [];
    }

    /** A key no row uses, standing in for a generated Guid. */
    method NewId() returns (id: Id)
      requires Valid()
      modifies this`nextId
      ensures Valid()
      ensures id == old(nextId) && nextId == id + 1
      ensures id !in tables.authors && id !in tables.books && id !in tables.stores
    {
      id := nextId;
      nextId := nextId + 1;
    }

    /**
     * The base save: stamps the pending state against the saved one and
     * writes it if it satisfies the unique indexes and foreign keys;
     * otherwise throws `DbUpdateException` and leaves the saved state as it was.
     */
    method SaveChanges(pending: Tables, now: Timestamp) returns (error: Option<Exception>)
      requires Valid() && KeysBelow(pending, nextId)
      modifies this`tables
      ensures Valid()
      ensures error.None? <==> Constraints(pending)
      ensures error.Some? ==> error.value == DbUpdate(DbUpdateMessage) && tables == old(tables)
      ensures error.None? ==> tables == StampTables(old(tables), pending, now)
    {
      StampKeepsConstraints(tables, pending, now);
      if Constraints(pending) {
        tables := StampTables(tables, pending, now);
        error := None;
      } else {
        error := Some(DbUpdate(DbUpdateMessage));
      }
    }

    /**
     * The stamping loop and audit selection of `SaveChangesAsync` over an
     * explicit list of change-tracker entries: each base entity is stamped
     * in place, then one audit record per audited entry is appended.
     */
    method StampAndAudit(entries: array<Entry>, now: Timestamp)
      modifies entries, this`auditLogs
      ensures forall i :: 0 <= i < entries.Length ==> entries[i] == StampEntry(old(entries[i]), now)
      ensures auditLogs == old(auditLogs) + AuditsOf(entries[..], now)
    {
      for i := 0 to entries.Length
        invariant forall j :: 0 <= j < i ==> entries[j] == StampEntry(old(entries[j]), now)
        invariant forall j :: i <= j < entries.Length ==> entries[j] == old(entries[j])
        invariant auditLogs == old(auditLogs)
      {
        var e := entries[i];
        if e.isBaseEntity && e.state == Added {
          entries[i] := e.(times := e.times.(createdAtUtc := now),
                           properties := SetProperties(e.properties, "CreatedAtUtc", TimestampText(now), false));
        } else if e.isBaseEntity && e.state == Modified {
          entries[i] := e.(times := e.times.(updatedAtUtc := Some(now)),
                           properties := SetProperties(e.properties, "UpdatedAtUtc", TimestampText(now), true));
        }
      }
      var all := entries[..];
      for i := 0 to entries.Length
        invariant entries[..] == all
        invariant auditLogs == old(auditLogs) + AuditsOf(all[..i], now)
      {
        AuditsOfSnoc(all[..i], entries[i], now);
        assert all[..i + 1] == all[..i] + [entries[i]];
        if Audited(entries[i]) {
          auditLogs := auditLogs + [CreateAuditLog(entries[i], now)];
        }
      }
      assert all[..entries.Length] == all;
    }
  }

  lemma {:induction false} AuditsOfSnoc(es: seq<Entry>, e: Entry, now: Timestamp)
    ensures AuditsOf(es + [e], now) == AuditsOf(es, now) + (if Audited(e) then [CreateAuditLog(e, now)] else [])
  {
    if es == [] {
      assert es + [e] == [e];
    } else {
      assert (es + [e])[1..] == es[1..] + [e];
      AuditsOfSnoc(es[1..], e, now);
    }
  }
}
