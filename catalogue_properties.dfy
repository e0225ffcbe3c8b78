/** What the book endpoints promise, stated over their specification functions: paging,
    creation with its author upsert, partial updates and deletion. */
module CatalogueProperties {
  import opened Values
  import opened ResponseCodes
  import opened Envelopes
  import opened Validation
  import opened Rows
  import opened AuthorRepository
  import opened BookRepository
  import opened BookController

  // ----- paging -----

  /** The page query `n` selects index `n - 1`, except that "0" selects index 0 as "1" does. */
  lemma PageIndexOfDecimal(n: int)
    ensures PageIndex(Some(DecimalText(n))) == Ok(if n == 0 then 0 else n - 1)
  {
    DecimalTextTruthy(n);
    if n != 0 {
      DecimalTextRoundTrip(n);
    }
  }

  /** Page `n` (from 1) lists the projections of the stored books from position `10 * (n - 1)`,
      at most ten of them and as many as there are up to ten. */
  lemma GetBooksPage(t: Tables, n: int)
    requires n >= 1
    ensures var r := GetBooksSpec(t, Some(DecimalText(n)));
            var offset := DefaultPageSize * (n - 1);
            && r.Reply? && r.status == HttpOk && r.body.List?
            && |r.body.items| == (if offset >= |t.books| then 0
                                  else if |t.books| - offset < DefaultPageSize then |t.books| - offset
                                  else DefaultPageSize)
            && forall i :: 0 <= i < |r.body.items| ==>
                 offset + i < |t.books| && r.body.items[i] == Arr(BookProjection(t.books[offset + i], t.authors))
  {
    PageIndexOfDecimal(n);
  }

  /** No page query, page "0" and page "1" all give the first page. */
  lemma FirstPageAliases(t: Tables)
    ensures GetBooksSpec(t, None) == GetBooksSpec(t, Some(DecimalText(0)))
    ensures GetBooksSpec(t, Some(DecimalText(0))) == GetBooksSpec(t, Some(DecimalText(1)))
  {
    PageIndexOfDecimal(0);
    PageIndexOfDecimal(1);
  }

  /** A negative page number reaches the query as a negative offset, which is refused. */
  lemma NegativePageRefused(t: Tables, n: int)
    requires n < 0
    ensures GetBooksSpec(t, Some(DecimalText(n))) == Uncaught(QueryError)
  {
    PageIndexOfDecimal(n);
  }

  // ----- creation -----

  /** Creating a book depends on the validator's report only through whether it is empty: the
      messages and their order never reach the answer. */
  lemma CreateIgnoresReportOrder(t: Tables, b: Fields, e1: seq<Violation>, e2: seq<Violation>, now: Instant)
    requires Reports(e1, Violations(BookConstraint(), b))
    requires Reports(e2, Violations(BookConstraint(), b))
    ensures CreateBookSpec(t, Some(b), e1, now) == CreateBookSpec(t, Some(b), e2, now)
  {
    if Conforms(BookConstraint(), b) {
      CreateAcceptsConforming(t, b, e1, now);
      CreateAcceptsConforming(t, b, e2, now);
    } else {
      CreateRefusesNonConforming(t, b, e1, now);
      CreateRefusesNonConforming(t, b, e2, now);
    }
  }

  /** The author upsert: an author of that name is reused, otherwise exactly one author is
      added with the next identity and the current time. The store stays well formed and the
      returned author is stored under its own identity. */
  lemma UpsertAuthorFacts(t: Tables, name: string, now: Instant)
    requires WellFormed(t)
    ensures var (t1, a) := UpsertAuthor(t, name, now);
            && WellFormed(t1) && t1.books == t.books && t1.nextBookId == t.nextBookId
            && a in t1.authors && a.name == name
            && AuthorNameOf(t1.authors, a.id) == Str(name)
            && GetAuthorByName(t1.authors, name) == Some(a)
            && (GetAuthorByName(t.authors, name).Some? ==> t1 == t)
            && (GetAuthorByName(t.authors, name).None? ==>
                  t1.authors == t.authors + [AuthorRow(t.nextAuthorId, name, now)])
  {
    if GetAuthorByName(t.authors, name).Some? {
      UpsertFound(t, name, now);
    } else {
      UpsertAdded(t, name, now);
    }
  }

  lemma UpsertFound(t: Tables, name: string, now: Instant)
    requires WellFormed(t) && GetAuthorByName(t.authors, name).Some?
    ensures UpsertAuthor(t, name, now) == (t, GetAuthorByName(t.authors, name).value)
    ensures AuthorNameOf(t.authors, GetAuthorByName(t.authors, name).value.id) == Str(name)
  {
    FindAuthorOfMember(t.authors, GetAuthorByName(t.authors, name).value);
  }

  lemma UpsertAdded(t: Tables, name: string, now: Instant)
    requires WellFormed(t) && GetAuthorByName(t.authors, name).None?
    ensures var a := AuthorRow(t.nextAuthorId, name, now);
            var t1 := t.(authors := t.authors + [a], nextAuthorId := t.nextAuthorId + 1);
            && UpsertAuthor(t, name, now) == (t1, a)
            && WellFormed(t1) && a in t1.authors
            && AuthorNameOf(t1.authors, a.id) == Str(name)
            && GetAuthorByName(t1.authors, name) == Some(a)
  {
    var (t1, a) := InsertAuthor(t, name, now);
    InsertAuthorWellFormed(t, name, now);
    GetAuthorByNameAppended(t.authors, a);
    FindAuthorOfMember(t1.authors, a);
  }

  /** A conforming body adds exactly one book, at the end, with the next identity, the
      submitted title and price, no description and the author named in the body; every
      earlier book is kept, and the store stays well formed. */
  lemma CreateAddsOneBook(t: Tables, b: Fields, errors: seq<Violation>, now: Instant)
    requires WellFormed(t)
    requires Reports(errors, Violations(BookConstraint(), b)) && Conforms(BookConstraint(), b)
    ensures b["title"].Str? && b["price"].Float? && b["author_name"].Str?
    ensures var (r, t2) := CreateBookSpec(t, Some(b), errors, now);
            && r == Reply(HttpCreated, Arr(SuccessResponse(Created)))
            && WellFormed(t2)
            && |t2.books| == |t.books| + 1 && t2.books[..|t.books|] == t.books
            && t2.books[|t.books|].id == t.nextBookId
            && BookRepository.GetBookById(t2.books, t.nextBookId) == Some(t2.books[|t.books|])
            && BookProjection(t2.books[|t.books|], t2.authors)
               == Projection(Int(t.nextBookId), b["title"].s, Str(b["author_name"].s), None, b["price"].f)
  {
    BookConstraintAccepts(b);
    CreateAcceptsConforming(t, b, errors, now);
    StoredBookFacts(t, b["title"].s, b["author_name"].s, b["price"].f, now);
  }

  /** Storing a book under an upserted author: the store stays well formed, gains that one
      book last under the next identity, and projects it with the author's name. */
  lemma StoredBookFacts(t: Tables, title: string, name: string, price: real, now: Instant)
    requires WellFormed(t)
    ensures var (t1, a) := UpsertAuthor(t, name, now);
            var t2 := InsertBook(t1, title, a.id, None, price).0;
            && WellFormed(t2)
            && |t2.books| == |t.books| + 1 && t2.books[..|t.books|] == t.books
            && t2.books[|t.books|].id == t.nextBookId
            && BookRepository.GetBookById(t2.books, t.nextBookId) == Some(t2.books[|t.books|])
            && BookProjection(t2.books[|t.books|], t2.authors)
               == Projection(Int(t.nextBookId), title, Str(name), None, price)
  {
    UpsertAuthorFacts(t, name, now);
    var (t1, a) := UpsertAuthor(t, name, now);
    InsertBookFacts(t1, title, a.id, price);
  }

  /** Inserting a book into a well-formed store appends it, keeps the store well formed and
      makes it the book found under the new identity. */
  lemma InsertBookFacts(t: Tables, title: string, authorId: int, price: real)
    requires WellFormed(t) && authorId in AuthorIds(t.authors)
    ensures var (t2, row) := InsertBook(t, title, authorId, None, price);
            && WellFormed(t2)
            && |t2.books| == |t.books| + 1 && t2.books[..|t.books|] == t.books && t2.books[|t.books|] == row
            && BookRepository.GetBookById(t2.books, t.nextBookId) == Some(row)
  {
    var (t2, row) := InsertBook(t, title, authorId, None, price);
    InsertBookWellFormed(t, title, authorId, None, price);
    assert t2.books[..|t.books|] == t.books;
    assert row in t2.books;
    var found := BookRepository.GetBookById(t2.books, t.nextBookId).value;
    assert forall j :: 0 <= j < |t.books| ==> t2.books[j] in t.books;
    var k :| 0 <= k < |t2.books| && t2.books[k] == found;
    assert k == |t.books|;
  }

  /** The author upsert of a creation, seen from the store: the authors are unchanged when
      one of that name exists, and gain exactly one otherwise. */
  lemma CreateUpsertsAuthor(t: Tables, b: Fields, errors: seq<Violation>, now: Instant)
    requires WellFormed(t)
    requires Reports(errors, Violations(BookConstraint(), b)) && Conforms(BookConstraint(), b)
    ensures b["author_name"].Str?
    ensures var t2 := CreateBookSpec(t, Some(b), errors, now).1;
            && (GetAuthorByName(t.authors, b["author_name"].s).Some? ==> t2.authors == t.authors)
            && (GetAuthorByName(t.authors, b["author_name"].s).None? ==>
                  t2.authors == t.authors + [AuthorRow(t.nextAuthorId, b["author_name"].s, now)])
  {
    BookConstraintAccepts(b);
    CreateAcceptsConforming(t, b, errors, now);
    UpsertAuthorFacts(t, b["author_name"].s, now);
  }

  /** Two creations naming the same new or existing author share one author row: the second
      adds no author and its book points where the first one's does. */
  lemma CreateTwiceSharesAuthor(t: Tables, b1: Fields, b2: Fields, e1: seq<Violation>, e2: seq<Violation>,
                                now1: Instant, now2: Instant)
    requires WellFormed(t)
    requires Reports(e1, Violations(BookConstraint(), b1)) && Conforms(BookConstraint(), b1)
    requires Reports(e2, Violations(BookConstraint(), b2)) && Conforms(BookConstraint(), b2)
    requires "author_name" in b1 && "author_name" in b2 && b1["author_name"] == b2["author_name"]
    ensures var t1 := CreateBookSpec(t, Some(b1), e1, now1).1;
            var t2 := CreateBookSpec(t1, Some(b2), e2, now2).1;
            && |t1.books| == |t.books| + 1 && |t2.books| == |t1.books| + 1
            && t2.authors == t1.authors
            && t2.books[|t1.books|].authorId == t1.books[|t.books|].authorId
  {
    BookConstraintAccepts(b1);
    BookConstraintAccepts(b2);
    var name := b1["author_name"].s;
    CreateAcceptsConforming(t, b1, e1, now1);
    CreateAddsOneBook(t, b1, e1, now1);
    UpsertAuthorFacts(t, name, now1);
    var (ta, a) := UpsertAuthor(t, name, now1);
    var t1 := CreateBookSpec(t, Some(b1), e1, now1).1;
    assert t1.authors == ta.authors;
    CreateAcceptsConforming(t1, b2, e2, now2);
    assert UpsertAuthor(t1, name, now2) == (t1, a);
  }

  // ----- deletion -----

  /** Deleting an identity no book has answers 404 and changes nothing. */
  lemma DeleteMissing(t: Tables, id: int)
    requires id !in BookIds(t.books)
    ensures DeleteBookSpec(t, id) == (Reply(HttpNotFound, Arr(FailedResponse(NotFound))), t)
  {
    DeleteCount(t.books, id);
    forall b | b in t.books ensures b.id != id {
    }
    WithoutIdAbsent(t.books, id);
  }

  /** Deleting the identity of a stored book answers 200 and removes exactly that row, keeping
      the others in order and the store well formed. */
  lemma DeleteExisting(t: Tables, i: int)
    requires WellFormed(t) && 0 <= i < |t.books|
    ensures var (r, t1) := DeleteBookSpec(t, t.books[i].id);
            && r == Reply(HttpOk, Arr(SuccessResponse(Success)))
            && t1 == t.(books := t.books[..i] + t.books[i + 1..])
            && WellFormed(t1)
  {
    var id := t.books[i].id;
    assert t.books[i] in t.books;
    DeleteCount(t.books, id);
    DeleteRemovesExactlyOne(t.books, i);
    WithoutIdUnique(t.books, id);
    var t1 := DeleteBookSpec(t, id).1;
    forall b | b in t1.books ensures b.id < t1.nextBookId && b.authorId in AuthorIds(t1.authors) {
      assert b in t.books;
    }
  }

  /** A delete answers 404 exactly when no stored book has that identity; a second delete of
      the same identity always answers 404 and changes nothing. */
  lemma DeleteTwice(t: Tables, id: int)
    ensures DeleteBookSpec(t, id).0.status == HttpNotFound <==> id !in BookIds(t.books)
    ensures var t1 := DeleteBookSpec(t, id).1;
            DeleteBookSpec(t1, id) == (Reply(HttpNotFound, Arr(FailedResponse(NotFound))), t1)
  {
    DeleteCount(t.books, id);
    var t1 := DeleteBookSpec(t, id).1;
    assert id !in BookIds(t1.books);
    DeleteMissing(t1, id);
  }
}
