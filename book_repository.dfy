/** Queries over the `Books` table: paged projections, lookup by identity, paged lookup by
    author name, and the rows a delete by identity removes. */
module BookRepository {
  import opened Values
  import opened Rows

  const DefaultPageSize := 10

  /** `setFirstResult(offset)->setMaxResults(limit)` over rows in storage order. */
  function Window<T>(rows: seq<T>, offset: nat, limit: nat): (r: seq<T>)
    ensures |r| <= limit
    ensures offset >= |rows| ==> r == []
    ensures offset < |rows| ==> |r| == (if |rows| - offset < limit then |rows| - offset else limit)
    ensures forall i :: 0 <= i < |r| ==> offset + i < |rows| && r[i] == rows[offset + i]
  {
    if offset >= |rows| then []
    else if |rows| - offset < limit then rows[offset..]
    else rows[offset..offset + limit]
  }

  /** Every stored book, projected with its author's name. */
  function Projections(books: seq<BookRow>, authors: seq<AuthorRow>): (r: seq<Fields>)
    ensures |r| == |books|
    ensures forall i :: 0 <= i < |r| ==> r[i] == BookProjection(books[i], authors)
  {
    seq(|books|, i requires 0 <= i < |books| => BookProjection(books[i], authors))
  }

  /** One page of projected books. The offset is `elementsPerPage * page`; the database layer
      refuses a negative offset. There is no ORDER BY: pages follow storage order. */
  function GetBooks(t: Tables, page: int, elementsPerPage: nat): (r: Result<seq<Fields>, Fault>)
    ensures r.Err? <==> elementsPerPage * page < 0
    ensures r.Err? ==> r.error == QueryError
    ensures r.Ok? ==> |r.value| <= elementsPerPage
    ensures r.Ok? ==> |r.value| == (if elementsPerPage * page >= |t.books| then 0
                                    else if |t.books| - elementsPerPage * page < elementsPerPage
                                    then |t.books| - elementsPerPage * page
                                    else elementsPerPage)
    ensures r.Ok? ==> forall i :: 0 <= i < |r.value| ==>
              elementsPerPage * page + i < |t.books|
              && r.value[i] == BookProjection(t.books[elementsPerPage * page + i], t.authors)
  {
    var offset := elementsPerPage * page;
    if offset < 0 then Err(QueryError)
    else Ok(Window(Projections(t.books, t.authors), offset, elementsPerPage))
  }

  /** The first book with identity `id`, or none. */
  function GetBookById(books: seq<BookRow>, id: int): (r: Option<BookRow>)
    ensures r.None? <==> id !in BookIds(books)
    ensures r.Some? ==> r.value.id == id && r.value in books
    ensures r.Some? ==> exists i :: 0 <= i < |books| && books[i] == r.value
                                    && forall j :: 0 <= j < i ==> books[j].id != id
  {
    if |books| == 0 then None
    else if books[0].id == id then Some(books[0])
    else
      assert BookIds(books) == {books[0].id} + BookIds(books[1..]);
      var r := GetBookById(books[1..], id);
      if r.Some? then
        var i :| 0 <= i < |books[1..]| && books[1..][i] == r.value
                 && forall j :: 0 <= j < i ==> books[1..][j].id != id;
        assert books[i + 1] == r.value;
        r
      else r
  }

  /** The stored books whose author's name is `name`, in storage order. */
  function ByAuthorName(books: seq<BookRow>, authors: seq<AuthorRow>, name: string): (r: seq<BookRow>)
    ensures |r| <= |books|
    ensures forall b :: b in r <==> b in books && AuthorNameOf(authors, b.authorId) == Str(name)
  {
    if |books| == 0 then []
    else
      var rest := ByAuthorName(books[1..], authors, name);
      assert forall b :: b in books <==> b == books[0] || b in books[1..];
      if AuthorNameOf(authors, books[0].authorId) == Str(name) then [books[0]] + rest else rest
  }

  /** The filter keeps storage order and multiplicity: filtering a concatenation filters each
      part in turn. */
  lemma {:induction false} ByAuthorNameSplit(a: seq<BookRow>, b: seq<BookRow>, authors: seq<AuthorRow>, name: string)
    ensures ByAuthorName(a + b, authors, name) == ByAuthorName(a, authors, name) + ByAuthorName(b, authors, name)
  {
    if |a| > 0 {
      var ab := a + b;
      assert ab[0] == a[0];
      assert ab[1..] == a[1..] + b;
      ByAuthorNameSplit(a[1..], b, authors, name);
      var head := if AuthorNameOf(authors, a[0].authorId) == Str(name) then [a[0]] else [];
      assert ByAuthorName(ab, authors, name) == head + ByAuthorName(ab[1..], authors, name);
      assert ByAuthorName(a, authors, name) == head + ByAuthorName(a[1..], authors, name);
    } else {
      assert a + b == b;
    }
  }

  /** A single row is kept exactly when its author's name matches. */
  lemma ByAuthorNameSingle(x: BookRow, authors: seq<AuthorRow>, name: string)
    ensures ByAuthorName([x], authors, name) == (if AuthorNameOf(authors, x.authorId) == Str(name) then [x] else [])
  {
    assert [x][1..] == [];
  }

  /** One page of the projected books of one author, by exact name: the window at offset
      `elementsPerPage * page` over the matching books in storage order. */
  function GetBookByAuthorName(t: Tables, authorName: string, page: int, elementsPerPage: nat): (r: Result<seq<Fields>, Fault>)
    ensures r.Err? <==> elementsPerPage * page < 0
    ensures r.Err? ==> r.error == QueryError
    ensures var m := ByAuthorName(t.books, t.authors, authorName);
            var offset := elementsPerPage * page;
            r.Ok? ==> |r.value| == (if offset >= |m| then 0
                                    else if |m| - offset < elementsPerPage then |m| - offset
                                    else elementsPerPage)
    ensures var m := ByAuthorName(t.books, t.authors, authorName);
            r.Ok? ==> forall i :: 0 <= i < |r.value| ==>
              elementsPerPage * page + i < |m|
              && r.value[i] == BookProjection(m[elementsPerPage * page + i], t.authors)
              && r.value[i]["author"] == Str(authorName)
  {
    var offset := elementsPerPage * page;
    if offset < 0 then Err(QueryError)
    else
      var matching := ByAuthorName(t.books, t.authors, authorName);
      MatchingPage(t, authorName, offset, elementsPerPage);
      Ok(Window(Projections(matching, t.authors), offset, elementsPerPage))
  }

  lemma MatchingPage(t: Tables, authorName: string, offset: nat, elementsPerPage: nat)
    ensures var m := ByAuthorName(t.books, t.authors, authorName);
            var r := Window(Projections(m, t.authors), offset, elementsPerPage);
            forall i :: 0 <= i < |r| ==>
              offset + i < |m| && r[i] == BookProjection(m[offset + i], t.authors)
              && r[i]["author"] == Str(authorName)
  {
    var m := ByAuthorName(t.books, t.authors, authorName);
    var r := Window(Projections(m, t.authors), offset, elementsPerPage);
    forall i | 0 <= i < |r|
      ensures offset + i < |m| && r[i] == BookProjection(m[offset + i], t.authors)
      ensures r[i]["author"] == Str(authorName)
    {
      assert m[offset + i] in m;
    }
  }

  /** The rows left after `DELETE ... WHERE id = :id`, in storage order. */
  function WithoutId(books: seq<BookRow>, id: int): (r: seq<BookRow>)
    ensures forall b :: b in r <==> b in books && b.id != id
  {
    if |books| == 0 then []
    else
      var rest := WithoutId(books[1..], id);
      assert forall b :: b in books <==> b == books[0] || b in books[1..];
      if books[0].id == id then rest else [books[0]] + rest
  }

  /** How many rows have identity `id`. */
  function CountId(books: seq<BookRow>, id: int): nat
  {
    if |books| == 0 then 0
    else (if books[0].id == id then 1 else 0) + CountId(books[1..], id)
  }

  /** The count a delete returns is the number of rows it removes. */
  lemma {:induction false} DeleteCount(books: seq<BookRow>, id: int)
    ensures |WithoutId(books, id)| + CountId(books, id) == |books|
    ensures CountId(books, id) == 0 <==> id !in BookIds(books)
  {
    if |books| > 0 {
      DeleteCount(books[1..], id);
      assert BookIds(books) == {books[0].id} + BookIds(books[1..]);
    }
  }

  lemma UniqueIdsTail(books: seq<BookRow>)
    requires |books| > 0 && UniqueIds(books)
    ensures UniqueIds(books[1..])
    ensures forall b :: b in books[1..] ==> b.id != books[0].id
  {
    var tail := books[1..];
    forall j, k | 0 <= j < k < |tail| ensures tail[j].id != tail[k].id {
      assert tail[j] == books[j + 1] && tail[k] == books[k + 1];
    }
    forall b | b in tail ensures b.id != books[0].id {
      var k :| 0 <= k < |tail| && tail[k] == b;
      assert books[k + 1] == b;
    }
  }

  /** With unique identities, deleting the identity of row `i` removes that row and keeps
      every other row in place. */
  lemma {:induction false} DeleteRemovesExactlyOne(books: seq<BookRow>, i: int)
    requires 0 <= i < |books| && UniqueIds(books)
    ensures WithoutId(books, books[i].id) == books[..i] + books[i + 1..]
  {
    var tail := books[1..];
    var id := books[i].id;
    UniqueIdsTail(books);
    if i == 0 {
      WithoutIdAbsent(tail, id);
      assert books[..0] + books[1..] == tail;
    } else {
      assert tail[i - 1] == books[i];
      WithoutIdKeepsHead(books, id);
      DeleteRemovesExactlyOne(tail, i - 1);
      SpliceAfterHead(books, i);
    }
  }

  lemma WithoutIdKeepsHead(books: seq<BookRow>, id: int)
    requires |books| > 0 && books[0].id != id
    ensures WithoutId(books, id) == [books[0]] + WithoutId(books[1..], id)
  {
  }

  lemma SpliceAfterHead(books: seq<BookRow>, i: int)
    requires 0 < i < |books|
    ensures [books[0]] + (books[1..][..i - 1] + books[1..][i..]) == books[..i] + books[i + 1..]
  {
    var tail := books[1..];
    assert [books[0]] + tail[..i - 1] == books[..i];
    assert tail[i..] == books[i + 1..];
  }

  /** Deleting keeps identities unique. */
  lemma {:induction false} WithoutIdUnique(books: seq<BookRow>, id: int)
    requires UniqueIds(books)
    ensures UniqueIds(WithoutId(books, id))
  {
    if |books| > 0 {
      UniqueIdsTail(books);
      WithoutIdUnique(books[1..], id);
      var rest := WithoutId(books[1..], id);
      if books[0].id != id {
        var r := [books[0]] + rest;
        forall j, k | 0 <= j < k < |r| ensures r[j].id != r[k].id {
          if j == 0 {
            assert r[k] == rest[k - 1] && rest[k - 1] in rest;
          } else {
            assert r[j] == rest[j - 1] && r[k] == rest[k - 1];
          }
        }
      }
    }
  }

  /** Deleting an identity no row has changes nothing. */
  lemma {:induction false} WithoutIdAbsent(books: seq<BookRow>, id: int)
    requires forall b :: b in books ==> b.id != id
    ensures WithoutId(books, id) == books
  {
    if |books| > 0 {
      assert books[0] in books;
      WithoutIdAbsent(books[1..], id);
    }
  }
}
