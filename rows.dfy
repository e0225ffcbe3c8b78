/** The two tables the catalogue persists, their integrity conditions, the flattened book
    projection, and the elementary writes the ORM performs on them. */
module Rows {
  import opened Values

  /** A row of the `Authors` table. */
  datatype AuthorRow = AuthorRow(id: int, name: string, createDate: Instant)

  /** A row of the `Books` table; `authorId` is the `author_id` join column and a missing
      description is NULL. */
  datatype BookRow = BookRow(
    id: int,
    title: string,
    authorId: int,
    description: Option<string>,
    price: real)

  /** The whole store: both tables, in storage order, and the next identity each table
      will hand out. */
  datatype Tables = Tables(
    books: seq<BookRow>,
    authors: seq<AuthorRow>,
    nextBookId: int,
    nextAuthorId: int)

  function AuthorIds(authors: seq<AuthorRow>): set<int>
  {
    set a | a in authors :: a.id
  }

  function BookIds(books: seq<BookRow>): set<int>
  {
    set b | b in books :: b.id
  }

  predicate UniqueIds(books: seq<BookRow>)
  {
    forall j, k :: 0 <= j < k < |books| ==> books[j].id != books[k].id
  }

  /** Integrity of the store: identities are unique and below the next one handed out, and
      every book refers to a stored author. */
  ghost predicate WellFormed(t: Tables)
  {
    && UniqueIds(t.books)
    && (forall i, j :: 0 <= i < j < |t.authors| ==> t.authors[i].id != t.authors[j].id)
    && (forall b :: b in t.books ==> b.id < t.nextBookId && b.authorId in AuthorIds(t.authors))
    && (forall a :: a in t.authors ==> a.id < t.nextAuthorId)
  }

  /** The first author with identity `id`, or none. */
  function FindAuthor(authors: seq<AuthorRow>, id: int): (r: Option<AuthorRow>)
    ensures r.None? <==> id !in AuthorIds(authors)
    ensures r.Some? ==> r.value in authors && r.value.id == id
  {
    if |authors| == 0 then None
    else if authors[0].id == id then Some(authors[0])
    else
      assert AuthorIds(authors) == {authors[0].id} + AuthorIds(authors[1..]);
      FindAuthor(authors[1..], id)
  }

  /** The author's name reached through the join column, or null when no author has that
      identity (a left join). */
  function AuthorNameOf(authors: seq<AuthorRow>, id: int): (v: Value)
    ensures v.Null? <==> id !in AuthorIds(authors)
    ensures v.Str? ==> exists a :: a in authors && a.id == id && a.name == v.s
    ensures v.Null? || v.Str?
  {
    match FindAuthor(authors, id)
    case Some(a) => Str(a.name)
    case None => Null
  }

  /** The description column as a PHP value. */
  function DescriptionValue(d: Option<string>): (v: Value)
    ensures d.None? <==> v.Null?
  {
    if d.Some? then Str(d.value) else Null
  }

  /** The flattened five-key shape every book answer has: the author appears by name only. */
  function Projection(id: Value, title: string, author: Value, description: Option<string>, price: real): (p: Fields)
    ensures p.Keys == {"id", "title", "author", "description", "price"}
    ensures p["id"] == id && p["title"] == Str(title) && p["author"] == author
    ensures p["description"] == DescriptionValue(description) && p["price"] == Float(price)
  {
    map["id" := id, "title" := Str(title), "author" := author,
        "description" := DescriptionValue(description), "price" := Float(price)]
  }

  /** A stored book projected with its author's name. */
  function BookProjection(b: BookRow, authors: seq<AuthorRow>): Fields
  {
    Projection(Int(b.id), b.title, AuthorNameOf(authors, b.authorId), b.description, b.price)
  }

  /** Inserting a new author: it gets the next identity and the given creation date. */
  function InsertAuthor(t: Tables, name: string, now: Instant): (r: (Tables, AuthorRow))
    ensures r.1 == AuthorRow(t.nextAuthorId, name, now)
    ensures r.0 == t.(authors := t.authors + [r.1], nextAuthorId := t.nextAuthorId + 1)
  {
    var a := AuthorRow(t.nextAuthorId, name, now);
    (t.(authors := t.authors + [a], nextAuthorId := t.nextAuthorId + 1), a)
  }

  /** Inserting a new book: it gets the next identity. */
  function InsertBook(t: Tables, title: string, authorId: int, description: Option<string>, price: real): (r: (Tables, BookRow))
    ensures r.1 == BookRow(t.nextBookId, title, authorId, description, price)
    ensures r.0 == t.(books := t.books + [r.1], nextBookId := t.nextBookId + 1)
  {
    var b := BookRow(t.nextBookId, title, authorId, description, price);
    (t.(books := t.books + [b], nextBookId := t.nextBookId + 1), b)
  }

  /** Writing a managed book back: every row with its identity takes its new values. */
  function WriteBook(books: seq<BookRow>, row: BookRow): (r: seq<BookRow>)
    ensures |r| == |books|
    ensures forall i :: 0 <= i < |r| ==> r[i] == (if books[i].id == row.id then row else books[i])
  {
    seq(|books|, i requires 0 <= i < |books| => if books[i].id == row.id then row else books[i])
  }

  function WriteBookIn(t: Tables, row: BookRow): Tables
  {
    t.(books := WriteBook(t.books, row))
  }

  lemma InsertAuthorWellFormed(t: Tables, name: string, now: Instant)
    requires WellFormed(t)
    ensures WellFormed(InsertAuthor(t, name, now).0)
    ensures AuthorIds(InsertAuthor(t, name, now).0.authors) == AuthorIds(t.authors) + {t.nextAuthorId}
  {
    var t' := InsertAuthor(t, name, now).0;
    assert AuthorIds(t'.authors) == AuthorIds(t.authors) + {t.nextAuthorId} by {
      assert forall a :: a in t'.authors <==> a in t.authors || a == InsertAuthor(t, name, now).1;
    }
  }

  lemma InsertBookWellFormed(t: Tables, title: string, authorId: int, description: Option<string>, price: real)
    requires WellFormed(t) && authorId in AuthorIds(t.authors)
    ensures WellFormed(InsertBook(t, title, authorId, description, price).0)
  {
  }

  lemma WriteBookWellFormed(t: Tables, row: BookRow)
    requires WellFormed(t) && row.id in BookIds(t.books) && row.authorId in AuthorIds(t.authors)
    ensures WellFormed(WriteBookIn(t, row))
  {
    var r := WriteBook(t.books, row);
    forall b | b in r ensures b.id < t.nextBookId && b.authorId in AuthorIds(t.authors) {
      var i :| 0 <= i < |r| && r[i] == b;
      assert t.books[i] in t.books;
    }
  }

  /** Writing a stored book back keeps the set of identities. */
  lemma WriteBookKeepsIds(books: seq<BookRow>, row: BookRow)
    requires row.id in BookIds(books)
    ensures BookIds(WriteBook(books, row)) == BookIds(books)
  {
    var r := WriteBook(books, row);
    forall x | x in BookIds(r) ensures x in BookIds(books) {
      var b :| b in r && b.id == x;
      var i :| 0 <= i < |r| && r[i] == b;
      assert books[i] in books;
    }
    forall x | x in BookIds(books) ensures x in BookIds(r) {
      var b :| b in books && b.id == x;
      var i :| 0 <= i < |books| && books[i] == b;
      assert r[i] in r;
    }
  }

  /** Writing the same row twice is writing it once. */
  lemma WriteBookIdempotent(books: seq<BookRow>, row: BookRow)
    ensures WriteBook(WriteBook(books, row), row) == WriteBook(books, row)
  {
  }

  /** Writing back a row exactly as stored changes nothing when identities are unique. */
  lemma WriteBookUnchanged(t: Tables, i: int)
    requires WellFormed(t) && 0 <= i < |t.books|
    ensures WriteBook(t.books, t.books[i]) == t.books
  {
  }
}
