/** The book endpoints: each controller operation is a method of `BookController` over the
    entity manager, proved equal to a specification function of the old store state. */
module BookController {
  import opened Values
  import opened ResponseCodes
  import opened Envelopes
  import opened Validation
  import opened Rows
  import opened Entities
  import opened AuthorRepository
  import opened BookRepository
  import opened Orm

  const HttpOk := 200
  const HttpCreated := 201
  const HttpNotFound := 404
  const HttpNotAcceptable := 406

  /** What a request ends with: a view with its HTTP status, or an error no `catch` handles. */
  datatype Response = Reply(status: int, body: Value) | Uncaught(fault: Fault)

  /** PHP's coercion of a request value to the `string` and `float` parameters of the setters
      and of the author lookup; `None` is the TypeError PHP raises instead. */
  datatype Coercion = Coercion(toString: Value -> Option<string>, toFloat: Value -> Option<real>)

  // ----- page conversion -----

  /** `$page ? $page - 1 : 0` on the `page` query text, which defaults to "0". Falsy text
      gives page 0; integer text gives its value minus one, unclamped; other text cannot
      take part in the subtraction. */
  function PageIndex(page: Option<string>): (r: Result<int, Fault>)
    ensures page.None? ==> r == Ok(0)
    ensures page.Some? && !Truthy(page.value) ==> r == Ok(0)
  {
    var text := if page.Some? then page.value else "0";
    if !Truthy(text) then Ok(0)
    else match IntegerText(text)
      case Some(n) => Ok(n - 1)
      case None => Err(TypeError)
  }

  // ----- the rule set for creation -----

  function TitleConstraint(): map<string, FieldRules>
  {
    map["title" := FieldRules("The title parameter cannot be null.", StringType,
                              "The title parameter must be an string.")]
  }

  function PriceConstraint(): map<string, FieldRules>
  {
    map["price" := FieldRules("The price parameter cannot be null.", FloatType,
                              "The price parameter must be an float.")]
  }

  function AuthorConstraint(): map<string, FieldRules>
  {
    map["author_name" := FieldRules("The author_name parameter cannot be null.", StringType,
                                    "The author_name parameter must be an string.")]
  }

  /** The closed collection of the three fields, no extra fields allowed. */
  function BookConstraint(): (c: Collection)
    ensures c.fields.Keys == {"title", "price", "author_name"} && !c.allowExtraFields
  {
    Collection(TitleConstraint() + PriceConstraint() + AuthorConstraint(), false,
               "The field {{ field }} is missing.")
  }

  /** A body passes the rule set exactly when its keys are title, price and author_name,
      with a string title, a float price and a string author name. */
  lemma BookConstraintAccepts(body: Fields)
    ensures Conforms(BookConstraint(), body)
            <==> body.Keys == {"title", "price", "author_name"}
                 && body["title"].Str? && body["price"].Float? && body["author_name"].Str?
  {
    var c := BookConstraint();
    if Conforms(c, body) {
      assert "title" in c.fields && "price" in c.fields && "author_name" in c.fields;
      assert body.Keys == {"title", "price", "author_name"};
    }
  }

  // ----- specification of the operations -----

  /** The rows of a page as the list the view renders. */
  function RowsValue(rows: seq<Fields>): (v: Value)
    ensures v.List? && |v.items| == |rows|
    ensures forall i :: 0 <= i < |rows| ==> v.items[i] == Arr(rows[i])
  {
    List(seq(|rows|, i requires 0 <= i < |rows| => Arr(rows[i])))
  }

  /** GET /api/books: one page of projected books, 200, with no envelope. */
  function GetBooksSpec(t: Tables, page: Option<string>): Response
  {
    match PageIndex(page)
    case Err(f) => Uncaught(f)
    case Ok(p) =>
      match BookRepository.GetBooks(t, p, DefaultPageSize)
      case Err(f) => Uncaught(f)
      case Ok(rows) => Reply(HttpOk, RowsValue(rows))
  }

  /** Upsert by name: the first author with that name, or a new one inserted at once. */
  function UpsertAuthor(t: Tables, name: string, now: Instant): (r: (Tables, AuthorRow))
    ensures r.1.name == name
  {
    match GetAuthorByName(t.authors, name)
    case Some(a) => (t, a)
    case None => InsertAuthor(t, name, now)
  }

  /** POST /api/books. `errors` is what the validator reports for the body. */
  function CreateBookSpec(t: Tables, body: Option<Fields>, errors: seq<Violation>, now: Instant): (Response, Tables)
    requires body.Some? ==> Reports(errors, Violations(BookConstraint(), body.value))
  {
    if body.None? then (Uncaught(TypeError), t)
    else if ValidateParam(body.value, BookConstraint(), errors).Err? then
      (Reply(HttpNotAcceptable, Arr(FailedResponse(ValidationFail))), t)
    else
      var b := body.value;
      BookConstraintAccepts(b);
      var (t1, author) := UpsertAuthor(t, b["author_name"].s, now);
      var (t2, _) := InsertBook(t1, b["title"].s, author.id, None, b["price"].f);
      (Reply(HttpCreated, Arr(SuccessResponse(Created))), t2)
  }

  /** A body that fails the rule set is refused with 406 and the store is left as it was,
      whatever the validator's messages and their order. */
  lemma CreateRefusesNonConforming(t: Tables, b: Fields, errors: seq<Violation>, now: Instant)
    requires Reports(errors, Violations(BookConstraint(), b))
    requires !Conforms(BookConstraint(), b)
    ensures CreateBookSpec(t, Some(b), errors, now)
            == (Reply(HttpNotAcceptable, Arr(FailedResponse(ValidationFail))), t)
  {
  }

  /** A conforming body upserts its author by name and inserts one book with the submitted
      title and price, no description, and that author; the reply is 201. */
  lemma CreateAcceptsConforming(t: Tables, b: Fields, errors: seq<Violation>, now: Instant)
    requires Reports(errors, Violations(BookConstraint(), b))
    requires Conforms(BookConstraint(), b)
    ensures b["title"].Str? && b["price"].Float? && b["author_name"].Str?
    ensures var (t1, a) := UpsertAuthor(t, b["author_name"].s, now);
            CreateBookSpec(t, Some(b), errors, now)
            == (Reply(HttpCreated, Arr(SuccessResponse(Created))),
                InsertBook(t1, b["title"].s, a.id, None, b["price"].f).0)
  {
    BookConstraintAccepts(b);
  }

  /** The state of an update between its steps: still working on the loaded row, or stopped
      with a response. Either way the store may already hold flushed writes. */
  datatype Progress = Working(t: Tables, row: BookRow) | Stopped(response: Response, t: Tables)

  function UpdateTitle(p: Progress, f: Fields, php: Coercion): Progress
  {
    if p.Stopped? || !Isset(f, "title") then p
    else match php.toString(f["title"])
      case None => Stopped(Uncaught(TypeError), p.t)
      case Some(s) => Working(p.t, p.row.(title := s))
  }

  /** The author step. Creating the author flushes, and that flush also writes the book's
      pending changes, before the book is pointed at the new author. */
  function UpdateAuthor(p: Progress, f: Fields, php: Coercion, createAuthors: bool, now: Instant): Progress
  {
    if p.Stopped? || !Isset(f, "author_name") then p
    else match php.toString(f["author_name"])
      case None => Stopped(Uncaught(TypeError), p.t)
      case Some(name) => AuthorStep(p.t, p.row, name, createAuthors, now)
  }

  /** Pointing `row` at the author named `name`: the first one found, or, when creation is
      allowed, a new one whose flush also writes `row` as it stands. */
  function AuthorStep(t: Tables, row: BookRow, name: string, createAuthors: bool, now: Instant): Progress
  {
    match GetAuthorByName(t.authors, name)
    case Some(a) => Working(t, row.(authorId := a.id))
    case None =>
      if !createAuthors then Stopped(Reply(HttpNotFound, Arr(FailedResponse(NotFound))), t)
      else
        var (t1, a) := InsertAuthor(t, name, now);
        Working(WriteBookIn(t1, row), row.(authorId := a.id))
  }

  function UpdateDescription(p: Progress, f: Fields, php: Coercion): Progress
  {
    if p.Stopped? || !Isset(f, "description") then p
    else match php.toString(f["description"])
      case None => Stopped(Uncaught(TypeError), p.t)
      case Some(s) => Working(p.t, p.row.(description := Some(s)))
  }

  function UpdatePrice(p: Progress, f: Fields, php: Coercion): Progress
  {
    if p.Stopped? || !Isset(f, "price") then p
    else match php.toFloat(f["price"])
      case None => Stopped(Uncaught(TypeError), p.t)
      case Some(x) => Working(p.t, p.row.(price := x))
  }

  /** The four field steps in the order the controller runs them. */
  function UpdateSteps(p: Progress, f: Fields, php: Coercion, createAuthors: bool, now: Instant): Progress
  {
    UpdatePrice(UpdateDescription(UpdateAuthor(UpdateTitle(p, f, php), f, php, createAuthors, now), f, php), f, php)
  }

  /** PUT /api/books/{id}. No validation: each recognised key that is set is applied. */
  function UpdateBookSpec(t: Tables, id: int, body: Option<Fields>, php: Coercion, createAuthors: bool, now: Instant): (Response, Tables)
  {
    match BookRepository.GetBookById(t.books, id)
    case None => (Reply(HttpNotFound, Arr(FailedResponse(NotFound))), t)
    case Some(row) => UpdateFinish(UpdateSteps(Working(t, row), KeysOf(body), php, createAuthors, now))
  }

  /** How an update ends: with the response a step stopped at, or with the final flush of
      the book and 200 carrying its projection. */
  function UpdateFinish(p: Progress): (Response, Tables)
  {
    match p
    case Stopped(r, t1) => (r, t1)
    case Working(t1, row1) =>
      var t2 := WriteBookIn(t1, row1);
      (Reply(HttpOk, Arr(SuccessResponseWithData(Success, BookProjection(row1, t2.authors)))), t2)
  }

  /** DELETE /api/books/{id}. */
  function DeleteBookSpec(t: Tables, id: int): (Response, Tables)
  {
    var t1 := t.(books := WithoutId(t.books, id));
    if CountId(t.books, id) == 0 then (Reply(HttpNotFound, Arr(FailedResponse(NotFound))), t1)
    else (Reply(HttpOk, Arr(SuccessResponse(Success))), t1)
  }

  /** With unique author identities, the join finds each stored author by its own identity. */
  lemma FindAuthorOfMember(authors: seq<AuthorRow>, a: AuthorRow)
    requires a in authors
    requires forall i, j :: 0 <= i < j < |authors| ==> authors[i].id != authors[j].id
    ensures FindAuthor(authors, a.id) == Some(a)
  {
    var r := FindAuthor(authors, a.id).value;
    var i :| 0 <= i < |authors| && authors[i] == a;
    var j :| 0 <= j < |authors| && authors[j] == r;
  }

  // ----- the controller -----

  class BookController {
    const entityManager: Database

    constructor (db: Database)
      ensures entityManager == db
    {
      entityManager := db;
    }

    /** GET /api/books?page= */
    method GetBooks(page: Option<string>) returns (r: Response)
      ensures r == GetBooksSpec(entityManager.State(), page)
    {
      var p := PageIndex(page);
      if p.Err? {
        return Uncaught(p.error);
      }
      var rows := BookRepository.GetBooks(entityManager.State(), p.value, DefaultPageSize);
      if rows.Err? {
        return Uncaught(rows.error);
      }
      r := Reply(HttpOk, RowsValue(rows.value));
    }

    /** GET /api/books/{id}. The controller does not check for a missing book, so only
        stored identities are admitted. */
    method GetBookById(id: int) returns (r: Response)
      requires entityManager.Valid() && id in BookIds(entityManager.books)
      ensures r == Reply(HttpOk, Arr(BookProjection(BookRepository.GetBookById(entityManager.books, id).value,
                                                    entityManager.authors)))
    {
      var book := entityManager.FindBook(id);
      FindAuthorOfMember(entityManager.authors, book.author.Row());
      r := Reply(HttpOk, Arr(book.JsonSerialize()));
    }

    /** POST /api/books. `errors` is what the validator reports for the body. */
    method CreateBook(body: Option<Fields>, errors: seq<Violation>, now: Instant) returns (r: Response)
      requires entityManager.Valid()
      requires body.Some? ==> Reports(errors, Violations(BookConstraint(), body.value))
      modifies entityManager
      ensures entityManager.Valid()
      ensures (r, entityManager.State()) == CreateBookSpec(old(entityManager.State()), body, errors, now)
    {
      var db := entityManager;
      ghost var t0 := db.State();
      if body.None? {
        // validateParam demands an array
        return Uncaught(TypeError);
      }
      var jsonData := body.value;
      var valid := ValidateParam(jsonData, BookConstraint(), errors);
      if valid.Err? {
        CreateRefusesNonConforming(t0, jsonData, errors, now);
        return Reply(HttpNotAcceptable, Arr(FailedResponse(ValidationFail)));
      }
      CreateAcceptsConforming(t0, jsonData, errors, now);
      BookConstraintAccepts(jsonData);
      // the test of title and price always holds once the body conforms, and a conforming
      // body has no description key
      assert Isset(jsonData, "title") && Isset(jsonData, "price") && !Isset(jsonData, "description");
      StoreNewBook(jsonData["title"].s, jsonData["price"].f, jsonData["author_name"].s, now);
      r := Reply(HttpCreated, Arr(SuccessResponse(Created)));
    }

    /** The persisting half of POST /api/books (the body of the `isset` test in `createBook`): a book with the submitted
        title and price, its author found by name or persisted first, then the book itself. */
    method StoreNewBook(title: string, price: real, name: string, now: Instant)
      requires entityManager.Valid()
      modifies entityManager
      ensures entityManager.Valid()
      ensures var (t1, a) := UpsertAuthor(old(entityManager.State()), name, now);
              entityManager.State() == InsertBook(t1, title, a.id, None, price).0
    {
      var db := entityManager;
      ghost var upsert := UpsertAuthor(db.State(), name, now);
      var book := new Book();
      book.SetTitle(title);
      book.SetPrice(price);
      var author := db.FindAuthorByName(name);
      if author == null {
        author := new Author();
        author.SetName(name);
        db.PersistAuthor(author, now);
        assert author.Row() in db.authors;
      } else {
        assert author.Row() in db.authors;
      }
      assert (db.State(), author.Row()) == upsert;
      book.SetAuthor(author);
      db.PersistBook(book);
    }

    /** An update in progress on `book` is tracked by `p`: the entity is the row `p` holds,
        stored with its author, and the store is the one `p` holds. */
    ghost predicate Tracks(book: Book, p: Progress)
      reads this, entityManager, book, book.author
    {
      && entityManager.Valid() && book.Storable() && book.author.createDate.Some?
      && book.id.value in BookIds(entityManager.books)
      && book.author.Row() in entityManager.authors
      && p == Working(entityManager.State(), book.Row())
    }

    /** The title block of `updateBook`. */
    method UpdateTitleField(book: Book, f: Fields, php: Coercion, ghost p: Progress) returns (stop: Option<Response>)
      requires Tracks(book, p)
      modifies book
      ensures entityManager.Valid()
      ensures stop.None? ==> Tracks(book, UpdateTitle(p, f, php))
      ensures stop.Some? ==> UpdateTitle(p, f, php) == Stopped(stop.value, entityManager.State())
    {
      stop := None;
      if Isset(f, "title") {
        var title := php.toString(f["title"]);
        if title.None? {
          return Some(Uncaught(TypeError));
        }
        book.SetTitle(title.value);
      }
    }

    /** The author block of `updateBook`: the book gets the author
        found by name or, when creation is available, a newly persisted one, whose flush
        also writes the book's pending changes; otherwise the answer is 404. */
    method UpdateAuthorField(book: Book, f: Fields, php: Coercion, createAuthors: bool, now: Instant, ghost p: Progress)
      returns (stop: Option<Response>)
      requires Tracks(book, p)
      modifies entityManager, book
      ensures entityManager.Valid()
      ensures stop.None? ==> Tracks(book, UpdateAuthor(p, f, php, createAuthors, now))
      ensures stop.Some? ==>
                UpdateAuthor(p, f, php, createAuthors, now) == Stopped(stop.value, entityManager.State())
    {
      stop := None;
      if Isset(f, "author_name") {
        var name := php.toString(f["author_name"]);
        if name.None? {
          return Some(Uncaught(TypeError));
        }
        assert UpdateAuthor(p, f, php, createAuthors, now)
               == AuthorStep(p.t, p.row, name.value, createAuthors, now);
        stop := AssignAuthor(book, name.value, createAuthors, now, p);
      }
    }

    /** Pointing the book at the author named `name`, as the author block of `updateBook` does. */
    method AssignAuthor(book: Book, name: string, createAuthors: bool, now: Instant, ghost p: Progress) returns (stop: Option<Response>)
      requires Tracks(book, p)
      modifies entityManager, book
      ensures entityManager.Valid()
      ensures stop.None? ==> Tracks(book, AuthorStep(p.t, p.row, name, createAuthors, now))
      ensures stop.Some? ==>
                AuthorStep(p.t, p.row, name, createAuthors, now) == Stopped(stop.value, entityManager.State())
    {
      var db := entityManager;
      ghost var row := book.Row();
      var author := db.FindAuthorByName(name);
      if author == null {
        if !createAuthors {
          return Some(Reply(HttpNotFound, Arr(FailedResponse(NotFound))));
        }
        author := new Author();
        author.SetName(name);
        db.PersistAuthor(author, now);
        assert book.Row() == row;
        // the same flush writes the book's pending changes
        db.FlushBook(book);
        assert db.State() == WriteBookIn(InsertAuthor(p.t, name, now).0, row);
      } else {
        assert author.Row() == GetAuthorByName(p.t.authors, name).value;
      }
      ghost var t1 := db.State();
      assert author.Row() in db.authors;
      book.SetAuthor(author);
      assert book.Row() == row.(authorId := author.id.value);
      assert AuthorStep(p.t, p.row, name, createAuthors, now) == Working(t1, book.Row());
      FindAuthorOfMember(db.authors, author.Row());
      stop := None;
    }

    /** The description block of `updateBook`. */
    method UpdateDescriptionField(book: Book, f: Fields, php: Coercion, ghost p: Progress) returns (stop: Option<Response>)
      requires Tracks(book, p)
      modifies book
      ensures entityManager.Valid()
      ensures stop.None? ==> Tracks(book, UpdateDescription(p, f, php))
      ensures stop.Some? ==> UpdateDescription(p, f, php) == Stopped(stop.value, entityManager.State())
    {
      stop := None;
      if Isset(f, "description") {
        var description := php.toString(f["description"]);
        if description.None? {
          return Some(Uncaught(TypeError));
        }
        book.SetDescription(description.value);
      }
    }

    /** The price block of `updateBook`. */
    method UpdatePriceField(book: Book, f: Fields, php: Coercion, ghost p: Progress) returns (stop: Option<Response>)
      requires Tracks(book, p)
      modifies book
      ensures entityManager.Valid()
      ensures stop.None? ==> Tracks(book, UpdatePrice(p, f, php))
      ensures stop.Some? ==> UpdatePrice(p, f, php) == Stopped(stop.value, entityManager.State())
    {
      stop := None;
      if Isset(f, "price") {
        var price := php.toFloat(f["price"]);
        if price.None? {
          return Some(Uncaught(TypeError));
        }
        book.SetPrice(price.value);
      }
    }

    /** PUT /api/books/{id}. */
    method UpdateBook(id: int, body: Option<Fields>, php: Coercion, now: Instant) returns (r: Response)
      requires entityManager.Valid()
      modifies entityManager
      ensures entityManager.Valid()
      ensures (r, entityManager.State())
              == UpdateBookSpec(old(entityManager.State()), id, body, php, true, now)
    {
      var availableToCreateAuthor := true;
      var db := entityManager;
      ghost var t0 := db.State();
      var book := db.FindBook(id);
      if book == null {
        return Reply(HttpNotFound, Arr(FailedResponse(NotFound)));
      }
      var jsonData := KeysOf(body);
      ghost var p := Working(t0, book.Row());
      assert Tracks(book, p);
      r := ApplyFields(book, jsonData, php, availableToCreateAuthor, now, p);
    }

    /** The field blocks of PUT /api/books/{id} in order, stopping at the first that answers,
        then the final flush and view. */
    method ApplyFields(book: Book, f: Fields, php: Coercion, createAuthors: bool, now: Instant, ghost p0: Progress) returns (r: Response)
      requires Tracks(book, p0)
      modifies entityManager, book
      ensures entityManager.Valid()
      ensures (r, entityManager.State()) == UpdateFinish(UpdateSteps(p0, f, php, createAuthors, now))
    {
      ghost var p := p0;
      var stop := UpdateTitleField(book, f, php, p);
      p := UpdateTitle(p, f, php);
      if stop.Some? {
        return stop.value;
      }
      stop := UpdateAuthorField(book, f, php, createAuthors, now, p);
      p := UpdateAuthor(p, f, php, createAuthors, now);
      if stop.Some? {
        return stop.value;
      }
      stop := UpdateDescriptionField(book, f, php, p);
      p := UpdateDescription(p, f, php);
      if stop.Some? {
        return stop.value;
      }
      stop := UpdatePriceField(book, f, php, p);
      p := UpdatePrice(p, f, php);
      if stop.Some? {
        return stop.value;
      }
      r := FlushAndShow(book, p);
    }

    /** The end of `updateBook`: the book is flushed and shown. */
    method FlushAndShow(book: Book, ghost p: Progress) returns (r: Response)
      requires Tracks(book, p)
      modifies entityManager
      ensures entityManager.Valid()
      ensures (r, entityManager.State()) == UpdateFinish(p)
    {
      var db := entityManager;
      ghost var shown := book.JsonSerialize();
      assert shown == BookProjection(book.Row(), db.authors);
      db.FlushBook(book);
      r := Reply(HttpOk, Arr(SuccessResponseWithData(Success, book.JsonSerialize())));
    }

    /** DELETE /api/books/{id}. */
    method DeleteBook(id: int) returns (r: Response)
      requires entityManager.Valid()
      modifies entityManager
      ensures entityManager.Valid()
      ensures (r, entityManager.State()) == DeleteBookSpec(old(entityManager.State()), id)
    {
      var count := entityManager.DeleteBookById(id);
      if count == 0 {
        return Reply(HttpNotFound, Arr(FailedResponse(NotFound)));
      }
      r := Reply(HttpOk, Arr(SuccessResponse(Success)));
    }
  }
}
