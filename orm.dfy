/** The entity manager over the two tables: loading entities, inserting and writing them
    back, and deleting books by identity. Every write is flushed at once. */
module Orm {
  import opened Values
  import opened Rows
  import opened Entities
  import opened AuthorRepository
  import opened BookRepository

  class Database {
    var books: seq<BookRow>
    var authors: seq<AuthorRow>
    var nextBookId: int
    var nextAuthorId: int

    function State(): Tables
      reads this
    {
      Tables(books, authors, nextBookId, nextAuthorId)
    }

    ghost predicate Valid()
      reads this
    {
      WellFormed(State())
    }

    /** An empty store whose identities start at 1. */
    constructor ()
      ensures Valid() && State() == Tables([], [], 1, 1)
    {
      books, authors, nextBookId, nextAuthorId := [], [], 1, 1;
    }

    /** Hydrates an author row into a new entity. */
    static method LoadAuthor(row: AuthorRow) returns (a: Author)
      ensures fresh(a) && a.id.Some? && a.createDate.Some? && a.Row() == row
    {
      a := new Author();
      a.SetId(row.id);
      a.SetName(row.name);
      var _ := a.SetCreateDate(row.createDate);
    }

    /** `getBookById`, hydrated: the book entity with its author entity, or null. */
    method FindBook(id: int) returns (book: Book?)
      requires Valid()
      ensures book == null <==> GetBookById(books, id).None?
      ensures book != null ==> fresh(book) && book.author != null && fresh(book.author)
      ensures book != null ==> book.Storable() && book.Row() == GetBookById(books, id).value
      ensures book != null ==> book.author.createDate.Some? && book.author.Row() in authors
                               && book.id.value in BookIds(books)
    {
      var found := GetBookById(books, id);
      if found.None? {
        return null;
      }
      var row := found.value;
      assert row in books;
      var authorRow := FindAuthor(authors, row.authorId).value;
      var a := LoadAuthor(authorRow);
      book := new Book();
      book.SetId(row.id);
      book.SetTitle(row.title);
      book.SetAuthor(a);
      if row.description.Some? {
        book.SetDescription(row.description.value);
      }
      book.SetPrice(row.price);
    }

    /** `getAuthorByName`, hydrated: the first author with that name, or null. */
    method FindAuthorByName(name: string) returns (a: Author?)
      ensures a == null <==> GetAuthorByName(authors, name).None?
      ensures a != null ==> fresh(a) && a.id.Some? && a.createDate.Some?
                            && a.Row() == GetAuthorByName(authors, name).value
    {
      var found := GetAuthorByName(authors, name);
      if found.None? {
        return null;
      }
      a := LoadAuthor(found.value);
    }

    /** `persist` then `flush` of a new author: the pre-persist hook stamps the creation
        date, and the insert hands out the next identity. */
    method PersistAuthor(a: Author, now: Instant)
      requires Valid() && a.id.None?
      modifies this, a
      ensures Valid()
      ensures a.id.Some? && a.createDate.Some? && a.name == old(a.name)
      ensures (State(), a.Row()) == InsertAuthor(old(State()), old(a.name), now)
    {
      a.BeforeSave(now);
      a.SetId(nextAuthorId);
      InsertAuthorWellFormed(State(), a.name, now);
      authors := authors + [a.Row()];
      nextAuthorId := nextAuthorId + 1;
    }

    /** `persist` then `flush` of a new book whose author is stored. */
    method PersistBook(b: Book)
      requires Valid() && b.id.None? && b.author != null && b.author.id.Some?
      requires b.author.id.value in AuthorIds(authors)
      modifies this, b
      ensures Valid() && b.Storable() && b.author == old(b.author)
      ensures (State(), b.Row())
              == InsertBook(old(State()), old(b.title), b.author.id.value, old(b.description), old(b.price))
    {
      b.SetId(nextBookId);
      InsertBookWellFormed(State(), b.title, b.author.id.value, b.description, b.price);
      books := books + [b.Row()];
      nextBookId := nextBookId + 1;
    }

    /** `flush` of a managed book: its row takes the entity's current values. */
    method FlushBook(b: Book)
      requires Valid() && b.Storable()
      requires b.id.value in BookIds(books) && b.author.id.value in AuthorIds(authors)
      modifies this
      ensures Valid() && State() == WriteBookIn(old(State()), b.Row())
      ensures BookIds(books) == BookIds(old(books))
    {
      WriteBookWellFormed(State(), b.Row());
      WriteBookKeepsIds(books, b.Row());
      books := WriteBook(books, b.Row());
    }

    /** `deleteBookById`: removes every row with that identity and returns how many. */
    method DeleteBookById(id: int) returns (count: nat)
      requires Valid()
      modifies this
      ensures Valid()
      ensures State() == old(State()).(books := WithoutId(old(books), id))
      ensures count == CountId(old(books), id)
    {
      count := CountId(books, id);
      WithoutIdUnique(books, id);
      books := WithoutId(books, id);
    }
  }
}
