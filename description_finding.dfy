/** The book's description as the entity declares it: a `string` property with no default,
    read through a getter declared to return `string`. A created book never receives a
    description, so reading it back fails where the rest of the model, like a nullable
    getter would, shows null. */
module DescriptionFinding {
  import opened Values
  import opened ResponseCodes
  import opened Envelopes
  import opened Validation
  import opened Rows
  import opened BookRepository
  import opened BookController
  import opened CatalogueProperties
  import opened UpdateProperties

  /** `getDescription()` as declared: the stored text, or the error of reading a typed
      property nothing was assigned to. */
  function GetDescriptionAsWritten(b: BookRow): (r: Result<string, Fault>)
    ensures r.Err? <==> b.description.None?
    ensures r.Err? ==> r.error == UnsetProperty
    ensures r.Ok? ==> Some(r.value) == b.description
  {
    match b.description
    case None => Err(UnsetProperty)
    case Some(d) => Ok(d)
  }

  /** The response array `getBookById` and `updateBook` build from the getters, as written:
      it fails exactly when the description is unset, and otherwise is the projection. */
  function ShowAsWritten(b: BookRow, authors: seq<AuthorRow>): (r: Result<Fields, Fault>)
    ensures r.Err? <==> b.description.None?
    ensures r.Ok? ==> r.value == BookProjection(b, authors)
  {
    match GetDescriptionAsWritten(b)
    case Err(e) => Err(e)
    case Ok(_) => Ok(BookProjection(b, authors))
  }

  /** Every book POST creates has an unset description, so showing it as written fails,
      while the model's projection shows its description as null. */
  lemma CreatedBookUnreadableAsWritten(t: Tables, b: Fields, errors: seq<Violation>, now: Instant)
    requires WellFormed(t)
    requires Reports(errors, Violations(BookConstraint(), b)) && Conforms(BookConstraint(), b)
    ensures var t2 := CreateBookSpec(t, Some(b), errors, now).1;
            && |t2.books| == |t.books| + 1
            && ShowAsWritten(t2.books[|t.books|], t2.authors) == Err(UnsetProperty)
            && BookProjection(t2.books[|t.books|], t2.authors)["description"] == Null
  {
    CreateAcceptsConforming(t, b, errors, now);
    var (t1, a) := UpsertAuthor(t, b["author_name"].s, now);
    var (t2, row) := InsertBook(t1, b["title"].s, a.id, None, b["price"].f);
    CreateAddsOneBook(t, b, errors, now);
    assert t2.books[|t.books|] == row;
  }

  /** A successful update that sets no description of a book without one ends, as written,
      by failing to show the book, after its flush has already written the changes. */
  lemma UpdateUnreadableAsWritten(t: Tables, id: int, body: Option<Fields>, php: Coercion, now: Instant)
    requires WellFormed(t)
    requires UpdateBookSpec(t, id, body, php, true, now).0.Reply?
    requires UpdateBookSpec(t, id, body, php, true, now).0.status == HttpOk
    requires !Isset(KeysOf(body), "description")
    requires BookRepository.GetBookById(t.books, id).Some?
    requires BookRepository.GetBookById(t.books, id).value.description.None?
    ensures var t1 := UpdateBookSpec(t, id, body, php, true, now).1;
            && BookRepository.GetBookById(t1.books, id).Some?
            && ShowAsWritten(BookRepository.GetBookById(t1.books, id).value, t1.authors) == Err(UnsetProperty)
  {
    UpdateAppliesPresentFields(t, id, body, php, true, now);
  }
}
