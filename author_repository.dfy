/**
 * The author queries (src/DataAccess/BookStore.DataAccess/Repositories/AuthorRepository.cs).
 */
module AuthorRepository {
  import opened Results
  import opened Entities
  import opened Sequences
  import opened Persistence
  import Text

  /** `ExistsByNameAsync`: some author has both this first and this last name. */
  predicate ExistsByName(t: Tables, firstName: string, lastName: string)
  {
    exists id | id in t.authors :: t.authors[id].firstName == firstName && t.authors[id].lastName == lastName
  }

  /**
   * The name check decides the unique index: with a fresh key, inserting an
   * author keeps (FirstName, LastName) unique exactly when no author has
   * that name yet.
   */
  lemma ExistsByNameDecidesUniqueness(t: Tables, id: Id, a: Author)
    requires UniqueAuthorName(t) && id !in t.authors
    ensures !ExistsByName(t, a.firstName, a.lastName) <==> UniqueAuthorName(t.(authors := t.authors[id := a]))
  {
    var t' := t.(authors := t.authors[id := a]);
    if ExistsByName(t, a.firstName, a.lastName) {
      var x :| x in t.authors && t.authors[x].firstName == a.firstName && t.authors[x].lastName == a.lastName;
      assert x in t'.authors && id in t'.authors && x != id;
      assert t'.authors[x].firstName == t'.authors[id].firstName && t'.authors[x].lastName == t'.authors[id].lastName;
    }
  }

  /** `OrderBy(a => a.LastName).ThenBy(a => a.FirstName)`, ordinal comparison. */
  predicate NameOrder(a: Keyed<Author>, b: Keyed<Author>)
  {
    Text.StrLt(a.entity.lastName, b.entity.lastName)
    || (a.entity.lastName == b.entity.lastName && Text.StrLe(a.entity.firstName, b.entity.firstName))
  }

  lemma NameOrderTotal()
    ensures Total(NameOrder)
  {
    forall a: Keyed<Author>, b: Keyed<Author>
      ensures NameOrder(a, b) || NameOrder(b, a)
    {
      Text.StrLeTotal(a.entity.lastName, b.entity.lastName);
      Text.StrLeTotal(a.entity.firstName, b.entity.firstName);
    }
  }

  /** `GetAllAsync`: every author once, ordered by last name and then first name. */
  function GetAll(rows: seq<Keyed<Author>>): (r: seq<Keyed<Author>>)
    ensures multiset(r) == multiset(rows)
    ensures Sorted(r, NameOrder)
  {
    NameOrderTotal();
    SortBySorted(rows, NameOrder);
    SortBy(rows, NameOrder)
  }
}
