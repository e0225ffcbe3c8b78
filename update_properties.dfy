/** What PUT /api/books/{id} promises, stated over `UpdateBookSpec`: the store stays well
    formed and only the addressed book changes, each present field is applied, an update
    with nothing to apply is a read, and repeating an update changes nothing more. */
module UpdateProperties {
  import opened Values
  import opened ResponseCodes
  import opened Envelopes
  import opened Rows
  import opened AuthorRepository
  import opened BookRepository
  import opened BookController

  /** What holds between the steps of an update of book `id` that began on `t0`: the store is
      well formed, no book other than `id` has moved or changed, and a working row still has
      its identity and a stored author. */
  ghost predicate StepInv(t0: Tables, id: int, p: Progress)
  {
    && WellFormed(p.t)
    && |p.t.books| == |t0.books| && p.t.nextBookId == t0.nextBookId
    && (forall i :: 0 <= i < |t0.books| && t0.books[i].id != id ==> p.t.books[i] == t0.books[i])
    && BookIds(p.t.books) == BookIds(t0.books)
    && (p.Working? ==> p.row.id == id && id in BookIds(p.t.books) && p.row.authorId in AuthorIds(p.t.authors))
  }

  /** The author step keeps the invariant; it is the only step that can write. */
  lemma AuthorStepInv(t0: Tables, id: int, p: Progress, f: Fields, php: Coercion, createAuthors: bool, now: Instant)
    requires StepInv(t0, id, p)
    ensures StepInv(t0, id, UpdateAuthor(p, f, php, createAuthors, now))
  {
    if p.Working? && Isset(f, "author_name") && php.toString(f["author_name"]).Some? {
      var name := php.toString(f["author_name"]).value;
      match GetAuthorByName(p.t.authors, name)
      case Some(a) =>
        assert a in p.t.authors;
      case None =>
        if createAuthors {
          var (t1, a) := InsertAuthor(p.t, name, now);
          InsertAuthorWellFormed(p.t, name, now);
          WriteBookWellFormed(t1, p.row);
          WriteBookKeepsIds(t1.books, p.row);
        }
    }
  }

  lemma StepsInv(t0: Tables, id: int, p: Progress, f: Fields, php: Coercion, createAuthors: bool, now: Instant)
    requires StepInv(t0, id, p)
    ensures StepInv(t0, id, UpdateSteps(p, f, php, createAuthors, now))
  {
    var p1 := UpdateTitle(p, f, php);
    assert StepInv(t0, id, p1);
    AuthorStepInv(t0, id, p1, f, php, createAuthors, now);
  }

  /** Every update, whatever its outcome, keeps the store well formed, keeps the identities
      and the next book identity, and leaves every other book as it was. */
  lemma UpdateKeepsOtherBooks(t: Tables, id: int, body: Option<Fields>, php: Coercion, createAuthors: bool, now: Instant)
    requires WellFormed(t)
    ensures var t1 := UpdateBookSpec(t, id, body, php, createAuthors, now).1;
            && WellFormed(t1)
            && |t1.books| == |t.books| && BookIds(t1.books) == BookIds(t.books)
            && t1.nextBookId == t.nextBookId
            && forall i :: 0 <= i < |t.books| && t.books[i].id != id ==> t1.books[i] == t.books[i]
  {
    var found := BookRepository.GetBookById(t.books, id);
    if found.Some? {
      var p0 := Working(t, found.value);
      assert StepInv(t, id, p0);
      StepsInv(t, id, p0, KeysOf(body), php, createAuthors, now);
      var p := UpdateSteps(p0, KeysOf(body), php, createAuthors, now);
      if p.Working? {
        WriteBookWellFormed(p.t, p.row);
        WriteBookKeepsIds(p.t.books, p.row);
      }
    }
  }

  /** An update of an identity no book has answers 404 and changes nothing. */
  lemma UpdateMissing(t: Tables, id: int, body: Option<Fields>, php: Coercion, createAuthors: bool, now: Instant)
    requires id !in BookIds(t.books)
    ensures UpdateBookSpec(t, id, body, php, createAuthors, now)
            == (Reply(HttpNotFound, Arr(FailedResponse(NotFound))), t)
  {
  }

  /** Written back, a stored book is the one found under its identity. */
  lemma WrittenBookFound(books: seq<BookRow>, row: BookRow)
    requires row.id in BookIds(books)
    ensures BookRepository.GetBookById(WriteBook(books, row), row.id) == Some(row)
  {
    WriteBookKeepsIds(books, row);
    var r := WriteBook(books, row);
    var found := BookRepository.GetBookById(r, row.id).value;
    var k :| 0 <= k < |r| && r[k] == found;
  }

  /** The author step, when it goes on: the row is pointed at the first author of that name
      (added when there was none), whose name the join then gives; nothing else of the row
      changes. */
  lemma AuthorStepNames(t: Tables, row: BookRow, name: string, createAuthors: bool, now: Instant)
    requires WellFormed(t) && row.id in BookIds(t.books) && row.authorId in AuthorIds(t.authors)
    requires AuthorStep(t, row, name, createAuthors, now).Working?
    ensures var q := AuthorStep(t, row, name, createAuthors, now);
            && q.row == row.(authorId := q.row.authorId)
            && AuthorNameOf(q.t.authors, q.row.authorId) == Str(name)
            && GetAuthorByName(q.t.authors, name).Some?
            && GetAuthorByName(q.t.authors, name).value.id == q.row.authorId
            && (GetAuthorByName(t.authors, name).Some? ==> q.t == t)
            && (GetAuthorByName(t.authors, name).None? ==>
                  q.t.authors == t.authors + [AuthorRow(t.nextAuthorId, name, now)])
  {
    if GetAuthorByName(t.authors, name).Some? {
      AuthorStepFound(t, row, name, createAuthors, now);
    } else {
      AuthorStepCreated(t, row, name, now);
    }
  }

  lemma AuthorStepFound(t: Tables, row: BookRow, name: string, createAuthors: bool, now: Instant)
    requires forall i, j :: 0 <= i < j < |t.authors| ==> t.authors[i].id != t.authors[j].id
    requires GetAuthorByName(t.authors, name).Some?
    ensures var a := GetAuthorByName(t.authors, name).value;
            && AuthorStep(t, row, name, createAuthors, now) == Working(t, row.(authorId := a.id))
            && AuthorNameOf(t.authors, a.id) == Str(name)
  {
    FindAuthorOfMember(t.authors, GetAuthorByName(t.authors, name).value);
  }

  lemma AuthorStepCreated(t: Tables, row: BookRow, name: string, now: Instant)
    requires WellFormed(t) && GetAuthorByName(t.authors, name).None?
    ensures var (t1, a) := InsertAuthor(t, name, now);
            && AuthorStep(t, row, name, true, now) == Working(WriteBookIn(t1, row), row.(authorId := a.id))
            && GetAuthorByName(t1.authors, name) == Some(a)
            && AuthorNameOf(t1.authors, a.id) == Str(name)
  {
    var (t1, a) := InsertAuthor(t, name, now);
    InsertAuthorWellFormed(t, name, now);
    GetAuthorByNameAppended(t.authors, a);
    FindAuthorOfMember(t1.authors, a);
  }

  /** A successful update (200) applies exactly the fields the body sets: the title, the
      description and the price take the coerced values, the author is the first one of the
      given name (created when missing), and every absent field keeps its stored value. The
      answer carries the projection of the book as stored afterwards. */
  lemma UpdateAppliesPresentFields(t: Tables, id: int, body: Option<Fields>, php: Coercion, createAuthors: bool, now: Instant)
    requires WellFormed(t)
    requires UpdateBookSpec(t, id, body, php, createAuthors, now).0.Reply?
    requires UpdateBookSpec(t, id, body, php, createAuthors, now).0.status == HttpOk
    ensures id in BookIds(t.books)
    ensures BookRepository.GetBookById(UpdateBookSpec(t, id, body, php, createAuthors, now).1.books, id).Some?
    ensures var t1 := UpdateBookSpec(t, id, body, php, createAuthors, now).1;
            WriteBookIn(t1, BookRepository.GetBookById(t1.books, id).value) == t1
    ensures var f := KeysOf(body);
            var before := BookRepository.GetBookById(t.books, id).value;
            var (r, t1) := UpdateBookSpec(t, id, body, php, createAuthors, now);
            var row := BookRepository.GetBookById(t1.books, id).value;
            && r == Reply(HttpOk, Arr(SuccessResponseWithData(Success, BookProjection(row, t1.authors))))
            && row.id == id
            && (if Isset(f, "title") then php.toString(f["title"]) == Some(row.title)
                else row.title == before.title)
            && (if Isset(f, "description")
                then row.description.Some? && php.toString(f["description"]) == Some(row.description.value)
                else row.description == before.description)
            && (if Isset(f, "price") then php.toFloat(f["price"]) == Some(row.price)
                else row.price == before.price)
            && (if Isset(f, "author_name")
                then && php.toString(f["author_name"]).Some?
                     && AuthorNameOf(t1.authors, row.authorId) == Str(php.toString(f["author_name"]).value)
                     && GetAuthorByName(t1.authors, php.toString(f["author_name"]).value).Some?
                     && GetAuthorByName(t1.authors, php.toString(f["author_name"]).value).value.id == row.authorId
                else row.authorId == before.authorId && t1.authors == t.authors)
  {
    var f := KeysOf(body);
    var found := BookRepository.GetBookById(t.books, id);
    assert found.Some?;
    var p0 := Working(t, found.value);
    assert found.value in t.books;
    assert StepInv(t, id, p0);
    var q := UpdateSteps(p0, f, php, createAuthors, now);
    assert q.Working?;
    StepsInv(t, id, p0, f, php, createAuthors, now);
    StepsApply(p0, f, php, createAuthors, now);
    if Isset(f, "author_name") {
      StepsNameAuthor(p0, f, php, createAuthors, now);
    }
    WrittenBookFound(q.t.books, q.row);
    WriteBookIdempotent(q.t.books, q.row);
  }

  /** The four steps, when none of them stops: the title, the description and the price
      take the coerced values of the keys that are set and keep the row's otherwise; without
      an author name the tables and the author stay as they were. */
  lemma StepsApply(p: Progress, f: Fields, php: Coercion, createAuthors: bool, now: Instant)
    requires p.Working?
    requires UpdateSteps(p, f, php, createAuthors, now).Working?
    ensures var q := UpdateSteps(p, f, php, createAuthors, now);
            && q.row.id == p.row.id
            && (if Isset(f, "title") then php.toString(f["title"]) == Some(q.row.title)
                else q.row.title == p.row.title)
            && (if Isset(f, "description")
                then q.row.description.Some? && php.toString(f["description"]) == Some(q.row.description.value)
                else q.row.description == p.row.description)
            && (if Isset(f, "price") then php.toFloat(f["price"]) == Some(q.row.price)
                else q.row.price == p.row.price)
            && (!Isset(f, "author_name") ==> q.row.authorId == p.row.authorId && q.t == p.t)
  {
    var p1 := UpdateTitle(p, f, php);
    var p2 := UpdateAuthor(p1, f, php, createAuthors, now);
    var p3 := UpdateDescription(p2, f, php);
    assert p1.Working? && p2.Working? && p3.Working?;
    if Isset(f, "author_name") {
      assert p2 == AuthorStep(p1.t, p1.row, php.toString(f["author_name"]).value, createAuthors, now);
      AuthorStepKeepsRow(p1.t, p1.row, php.toString(f["author_name"]).value, createAuthors, now);
    }
  }

  /** The author step changes no field of the row but the author. */
  lemma AuthorStepKeepsRow(t: Tables, row: BookRow, name: string, createAuthors: bool, now: Instant)
    requires AuthorStep(t, row, name, createAuthors, now).Working?
    ensures var q := AuthorStep(t, row, name, createAuthors, now);
            q.row == row.(authorId := q.row.authorId)
  {
  }

  /** The four steps, when none of them stops and an author name is set: the row ends up
      pointed at the first author of that name, whose name the join gives. */
  lemma StepsNameAuthor(p: Progress, f: Fields, php: Coercion, createAuthors: bool, now: Instant)
    requires p.Working? && WellFormed(p.t)
    requires p.row.id in BookIds(p.t.books) && p.row.authorId in AuthorIds(p.t.authors)
    requires Isset(f, "author_name")
    requires UpdateSteps(p, f, php, createAuthors, now).Working?
    ensures var q := UpdateSteps(p, f, php, createAuthors, now);
            && php.toString(f["author_name"]).Some?
            && AuthorNameOf(q.t.authors, q.row.authorId) == Str(php.toString(f["author_name"]).value)
            && GetAuthorByName(q.t.authors, php.toString(f["author_name"]).value).Some?
            && GetAuthorByName(q.t.authors, php.toString(f["author_name"]).value).value.id == q.row.authorId
  {
    var p1 := UpdateTitle(p, f, php);
    var p2 := UpdateAuthor(p1, f, php, createAuthors, now);
    var p3 := UpdateDescription(p2, f, php);
    assert p1.Working? && p2.Working? && p3.Working?;
    assert p1.t == p.t && p1.row.id == p.row.id && p1.row.authorId == p.row.authorId;
    var name := php.toString(f["author_name"]).value;
    assert p2 == AuthorStep(p1.t, p1.row, name, createAuthors, now);
    AuthorStepNames(p1.t, p1.row, name, createAuthors, now);
    LastStepsKeepAuthor(p2, f, php);
  }

  /** The description and price steps touch neither the tables nor the author. */
  lemma LastStepsKeepAuthor(p: Progress, f: Fields, php: Coercion)
    requires UpdatePrice(UpdateDescription(p, f, php), f, php).Working?
    ensures var q := UpdatePrice(UpdateDescription(p, f, php), f, php);
            p.Working? && q.t == p.t && q.row.authorId == p.row.authorId
  {
  }

  /** Steps that find every set field already holding its value leave the row as it is. */
  lemma StepsFixed(t: Tables, row: BookRow, f: Fields, php: Coercion, createAuthors: bool, now: Instant)
    requires Isset(f, "title") ==> php.toString(f["title"]) == Some(row.title)
    requires Isset(f, "description") ==>
               row.description.Some? && php.toString(f["description"]) == Some(row.description.value)
    requires Isset(f, "price") ==> php.toFloat(f["price"]) == Some(row.price)
    requires Isset(f, "author_name") ==>
               && php.toString(f["author_name"]).Some?
               && GetAuthorByName(t.authors, php.toString(f["author_name"]).value).Some?
               && GetAuthorByName(t.authors, php.toString(f["author_name"]).value).value.id == row.authorId
    ensures UpdateSteps(Working(t, row), f, php, createAuthors, now) == Working(t, row)
  {
    var q0 := Working(t, row);
    assert UpdateTitle(q0, f, php) == q0;
    assert UpdateAuthor(q0, f, php, createAuthors, now) == q0;
    assert UpdateDescription(q0, f, php) == q0;
  }

  /** Repeating a successful update, at any later time, answers the same and changes nothing:
      the author it named now exists, so no second author is created. */
  lemma UpdateIdempotent(t: Tables, id: int, body: Option<Fields>, php: Coercion, createAuthors: bool,
                         now1: Instant, now2: Instant)
    requires WellFormed(t)
    requires UpdateBookSpec(t, id, body, php, createAuthors, now1).0.Reply?
    requires UpdateBookSpec(t, id, body, php, createAuthors, now1).0.status == HttpOk
    ensures var (r1, t1) := UpdateBookSpec(t, id, body, php, createAuthors, now1);
            UpdateBookSpec(t1, id, body, php, createAuthors, now2) == (r1, t1)
  {
    var f := KeysOf(body);
    UpdateAppliesPresentFields(t, id, body, php, createAuthors, now1);
    var (r1, t1) := UpdateBookSpec(t, id, body, php, createAuthors, now1);
    var row := BookRepository.GetBookById(t1.books, id).value;
    StepsFixed(t1, row, f, php, createAuthors, now2);
    assert UpdateBookSpec(t1, id, body, php, createAuthors, now2) == UpdateFinish(Working(t1, row));
  }

  /** A body that sets none of the four fields turns the update into a read: 200 with the
      stored book's projection, and the store as it was. */
  lemma UpdateWithNothingToApply(t: Tables, id: int, body: Option<Fields>, php: Coercion, createAuthors: bool, now: Instant)
    requires WellFormed(t) && id in BookIds(t.books)
    requires var f := KeysOf(body);
             !Isset(f, "title") && !Isset(f, "author_name") && !Isset(f, "description") && !Isset(f, "price")
    ensures BookRepository.GetBookById(t.books, id).Some?
    ensures var row := BookRepository.GetBookById(t.books, id).value;
            UpdateBookSpec(t, id, body, php, createAuthors, now)
            == (Reply(HttpOk, Arr(SuccessResponseWithData(Success, BookProjection(row, t.authors)))), t)
  {
    var row := BookRepository.GetBookById(t.books, id).value;
    var i :| 0 <= i < |t.books| && t.books[i] == row;
    WriteBookUnchanged(t, i);
    assert WriteBookIn(t, row) == t;
  }

  /** When authors may not be created, naming an unknown author answers 404 and writes
      nothing, the new title included (it was only set on the entity). */
  lemma UpdateUnknownAuthorRefused(t: Tables, id: int, body: Option<Fields>, php: Coercion, now: Instant, name: string)
    requires id in BookIds(t.books)
    requires var f := KeysOf(body);
             && (Isset(f, "title") ==> php.toString(f["title"]).Some?)
             && Isset(f, "author_name") && php.toString(f["author_name"]) == Some(name)
    requires GetAuthorByName(t.authors, name).None?
    ensures UpdateBookSpec(t, id, body, php, false, now) == (Reply(HttpNotFound, Arr(FailedResponse(NotFound))), t)
  {
    var row := BookRepository.GetBookById(t.books, id).value;
    var p1 := UpdateTitle(Working(t, row), KeysOf(body), php);
    assert p1.Working? && p1.t == t;
  }

  /** The flush that stores a new author also stores the book's pending title. When a later
      field then fails to coerce, the request ends with that error, yet the new author and
      the new title stay written while the book keeps its old author. */
  lemma UpdateFailureKeepsEarlierWrites(t: Tables, id: int, body: Option<Fields>, php: Coercion, now: Instant,
                                        title: string, name: string)
    requires WellFormed(t) && id in BookIds(t.books)
    requires var f := KeysOf(body);
             && Isset(f, "title") && php.toString(f["title"]) == Some(title)
             && Isset(f, "author_name") && php.toString(f["author_name"]) == Some(name)
             && Isset(f, "description") && php.toString(f["description"]).None?
    requires GetAuthorByName(t.authors, name).None?
    ensures BookRepository.GetBookById(t.books, id).Some?
    ensures var before := BookRepository.GetBookById(t.books, id).value;
            var (r, t1) := UpdateBookSpec(t, id, body, php, true, now);
            && r == Uncaught(TypeError)
            && t1.authors == t.authors + [AuthorRow(t.nextAuthorId, name, now)]
            && BookRepository.GetBookById(t1.books, id) == Some(before.(title := title))
  {
    var before := BookRepository.GetBookById(t.books, id).value;
    var row := before.(title := title);
    var (t1, a) := InsertAuthor(t, name, now);
    var p2 := UpdateAuthor(UpdateTitle(Working(t, before), KeysOf(body), php), KeysOf(body), php, true, now);
    assert p2 == Working(WriteBookIn(t1, row), row.(authorId := a.id));
    WrittenBookFound(t1.books, row);
  }
}
