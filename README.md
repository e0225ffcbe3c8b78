# Book catalogue REST API — a Dafny model

This project models the book endpoints of a small Symfony REST service. Books and authors
are stored through Doctrine, and the model covers:

- `GET /api/books?page=`, a page of flattened book projections;
- `GET /api/books/{id}`, one book;
- `POST /api/books`, creation with a closed, validated field set, which upserts the author by name;
- `PUT /api/books/{id}`, a partial update that may create the named author;
- `DELETE /api/books/{id}`.

The model also covers the repositories, the two entities, the response-code enum, the three
response envelopes and the parameter validator they use.

The layers follow the program:

- `Values`: PHP values, `isset` and string truthiness, and the integer reading of query text.
- `ResponseCodes` and `Envelopes`: the backed enum and `ReponseController`'s three array builders, each with a reader that recovers the code from an envelope.
- `Validation`: the `Collection` constraint, the violations a validator reports for it, and `validateParam`.
- `Rows`: the two tables as rows, plus the writes the ORM performs.
- `AuthorRepository` and `BookRepository`: the queries over the rows.
- `Entities`: `Author` and `Book` as classes whose setters update fields in place.
- `Orm.Database`: the entity manager as a class over the tables. It hydrates entities, persists and flushes them, and deletes by identity.
- `BookController`: the controller class. Each endpoint is a method over the entity manager, proved equal to a specification function of the old store state.
- `CatalogueProperties` and `UpdateProperties`: lemmas stating what the endpoints promise, over those specification functions.

The model follows the code as written, including where it departs from what the endpoints are meant to do:

- A create body is validated against a closed set of exactly `title`, `price` and `author_name`. A body that also carries a `description` is refused with 406, so the description branch of `createBook` never runs. A created book has no description.
- A create answers `{code, message}` with no data. It does not return the new identity.
- `getBooks` does not clamp the page. Page "0" reads as page 1, but a negative page reaches the query as a negative offset.
- An empty page is a 200 with an empty list.
- `getBooks` has no author filter. `getBookByAuthorName` exists only in the repository.
- An update validates nothing. A body with no recognised field is a plain read answering 200, not a missing-parameters error.
- Type errors in an update surface as uncaught errors.
- An update that creates an author flushes at that point. The flush writes the book's pending changes too, so a later failing field leaves those writes in place.
- Whether an update may create a missing author is a local constant set to true in `updateBook`. The model passes it down as `createAuthors`, and the update lemmas hold for either value.
- Pages by author name are taken from the matching books in storage order.

Inputs that are not part of the program's logic are parameters:

- the current time (`Instant`);
- the validator's reported list (`errors`, constrained to report exactly the violation set);
- PHP's coercion of request values to the setters' `string` and `float` parameters (`Coercion`).

## Model

| member | source | states |
|---|---|---|
| ResponseCodes.ResponseCode.Code | src/Enums/ResponseCode.php:7-14 | the backing values lie in 1000..1406, and a value is below 1400 exactly for SUCCESS and CREATED |
| ResponseCodes.ResponseCode.Message | src/Enums/ResponseCode.php:16-27 | every case carries a non-empty message |
| ResponseCodes.FromCode | src/Enums/ResponseCode.php:5-14 | reading a value gives a case with that value, and no case at all only when no case has it |
| ResponseCodes.CodeValues | src/Enums/ResponseCode.php:7-14 | the set of backing values is exactly {1000, 1001, 1400, 1404, 1405, 1406} |
| ResponseCodes.CodeInjective | src/Enums/ResponseCode.php:5-14 | distinct cases have distinct backing values |
| ResponseCodes.FromCodeRoundTrip | src/Enums/ResponseCode.php:5-14 | reading back the value of any case gives that case |
| ResponseCodes.MessageInjective | src/Enums/ResponseCode.php:16-27 | distinct cases carry distinct messages |
| Envelopes.FailedResponse | src/Controller/Api/v1/ReponseController.php:9-15 | the envelope has exactly the keys error_code and error_message, holding the code's value and its message |
| Envelopes.SuccessResponse | src/Controller/Api/v1/ReponseController.php:17-23 | the envelope has exactly the keys code and message, holding the code's value and its message |
| Envelopes.SuccessResponseWithData | src/Controller/Api/v1/ReponseController.php:25-32 | the envelope is the success envelope plus a data key holding the data unchanged |
| Envelopes.FailedResponseRead | src/Controller/Api/v1/ReponseController.php:9-15 | a client reading a failure envelope recovers its code |
| Envelopes.SuccessResponseRead | src/Controller/Api/v1/ReponseController.php:17-23 | a client reading a success envelope recovers its code |
| Envelopes.SuccessResponseWithDataRead | src/Controller/Api/v1/ReponseController.php:25-32 | a client reading a data envelope recovers its code and the data |
| Envelopes.FailedIsNotSuccess | src/Controller/Api/v1/ReponseController.php:9-32 | no failure envelope equals any success envelope, with or without data |
| Validation.NoViolationsIffConforms | src/Controller/Api/v1/UtilityController.php:17-22 | the validator reports no violation exactly when every declared field is present with its type and no undeclared key is present |
| Validation.ValidateParam | src/Controller/Api/v1/UtilityController.php:15-25 | success (always true) exactly for a conforming array; otherwise the error carries the first reported violation's message, which is one of the violations |
| Values.DecimalTextRoundTrip | src/Controller/Api/v1/BookController.php:34-36 | the integer read from any integer's decimal text is that integer |
| Values.DecimalTextTruthy | src/Controller/Api/v1/BookController.php:36 | the decimal text of an integer is falsy exactly when the integer is zero |
| Rows.AuthorNameOf | src/Repository/BookRepository.php:20-22 | the joined author name is null exactly when no author has the book's author id, and otherwise is the name of such an author |
| Rows.InsertAuthorWellFormed | src/Controller/Api/v1/BookController.php:94-100 | persisting a new author keeps the store well formed and adds exactly the next author identity |
| Rows.WriteBookWellFormed | src/Controller/Api/v1/BookController.php:182-184 | flushing a stored book whose author exists keeps the store well formed |
| Rows.WriteBookKeepsIds | src/Controller/Api/v1/BookController.php:182-184 | flushing a stored book keeps the set of book identities |
| AuthorRepository.GetAuthorByName | src/Repository/AuthorRepository.php:16-28 | none exactly when no author has the name; otherwise an author with that name such that no earlier author has it |
| AuthorRepository.GetAuthors | src/Repository/AuthorRepository.php:30-38 | every author, in storage order |
| AuthorRepository.GetAuthorByNameStable | src/Repository/AuthorRepository.php:16-28 | once a name is found, adding authors never changes which author it finds |
| AuthorRepository.GetAuthorByNameAppended | src/Repository/AuthorRepository.php:16-28 | an author appended under a name nobody had is the one found by that name |
| BookRepository.Window | src/Repository/BookRepository.php:23-24 | the first-result/max-results window: at most `limit` rows, empty past the end, exactly the rows from the offset |
| BookRepository.Projections | src/Repository/BookRepository.php:20-22 | one flattened projection per stored book, in storage order |
| BookRepository.GetBooks | src/Repository/BookRepository.php:16-27 | refused exactly when the offset page × size is negative; otherwise exactly the projections of the books from that offset, at most `size` of them and as many as remain up to `size` |
| BookRepository.GetBookById | src/Repository/BookRepository.php:34-46 | none exactly when no book has the identity; otherwise the first stored book with it |
| BookRepository.ByAuthorName | src/Repository/BookRepository.php:57-61 | exactly the stored books whose joined author name equals the given name, no more rows than stored |
| BookRepository.ByAuthorNameSplit | src/Repository/BookRepository.php:57-61 | the filter keeps storage order and multiplicity: filtering a concatenation filters each part in turn |
| BookRepository.ByAuthorNameSingle | src/Repository/BookRepository.php:57-61 | a single row is kept exactly when its joined author name is the given name |
| BookRepository.GetBookByAuthorName | src/Repository/BookRepository.php:53-66 | refused exactly for a negative offset; otherwise exactly the projections of the matching books from that offset, as many as remain up to `size`, each showing the given author name |
| BookRepository.DeleteCount | src/Repository/BookRepository.php:72-81 | the delete's row count plus the rows left is the original number, and the count is zero exactly when no book has the identity |
| BookRepository.DeleteRemovesExactlyOne | src/Repository/BookRepository.php:72-81 | with unique identities, deleting row i's identity removes that row and keeps the others in order |
| BookRepository.WithoutIdUnique | src/Repository/BookRepository.php:72-81 | a delete keeps book identities unique |
| BookRepository.WithoutIdAbsent | src/Repository/BookRepository.php:72-81 | deleting an identity no row has changes nothing |
| Entities.Author.constructor | src/Entity/Author.php:14-32 | a new author has no identity and no creation date |
| Entities.Author.SetId | src/Entity/Author.php:44-47 | the identity is set and the other fields are unchanged |
| Entities.Author.SetName | src/Entity/Author.php:60-63 | getName returns the new name and the other fields are unchanged |
| Entities.Author.SetCreateDate | src/Entity/Author.php:77-81 | the date is set and the same object is returned for chaining |
| Entities.Author.BeforeSave | src/Entity/Author.php:83-90 | the pre-persist hook stamps the creation date with the current time and changes nothing else |
| Entities.Author.JsonSerialize | src/Entity/Author.php:99-106 | exactly the keys id, name and created_date, holding the current fields |
| Entities.Book.constructor | src/Entity/Book.php:14-45 | a new book has no identity, no author and no description |
| Entities.Book.SetId | src/Entity/Book.php:58-61 | getId returns the new identity and the other fields are unchanged |
| Entities.Book.SetTitle | src/Entity/Book.php:74-77 | getTitle returns the new title and the other fields are unchanged |
| Entities.Book.SetAuthor | src/Entity/Book.php:90-93 | getAuthor returns the new author and the other fields are unchanged |
| Entities.Book.SetDescription | src/Entity/Book.php:106-109 | getDescription returns the new description and the other fields are unchanged |
| Entities.Book.SetPrice | src/Entity/Book.php:122-125 | getPrice returns the new price and the other fields are unchanged |
| Entities.Book.JsonSerialize | src/Entity/Book.php:134-143 | exactly the keys id, title, author, description and price, the author given by its name |
| Orm.Database.FindBook | src/Repository/BookRepository.php:34-46 | null exactly when no book has the identity; otherwise a fresh entity for the first such row, whose author is the stored author it refers to |
| Orm.Database.FindAuthorByName | src/Repository/AuthorRepository.php:16-28 | null exactly when no author has the name; otherwise a fresh entity for the first such author |
| Orm.Database.PersistAuthor | src/Controller/Api/v1/BookController.php:94-100 | the pre-persist hook dates the author, the insert gives it the next identity, and the author table gains exactly that row |
| Orm.Database.PersistBook | src/Controller/Api/v1/BookController.php:110-112 | the book gets the next identity and the book table gains exactly its row |
| Orm.Database.FlushBook | src/Controller/Api/v1/BookController.php:182-184 | every row with the book's identity takes the entity's current values; identities are kept |
| Orm.Database.DeleteBookById | src/Repository/BookRepository.php:72-81 | removes every row with the identity and returns how many there were |
| BookController.PageIndex | src/Controller/Api/v1/BookController.php:34-36 | a missing or falsy page gives index 0 |
| BookController.BookConstraint | src/Controller/Api/v1/BookController.php:221-232 | the collection declares exactly title, price and author_name and allows no other key |
| BookController.BookConstraintAccepts | src/Controller/Api/v1/BookController.php:221-277 | a body conforms exactly when its keys are title, price and author_name, with a string title, a float price and a string author name |
| BookController.RowsValue | src/Controller/Api/v1/BookController.php:38-40 | the view lists one array per row, in order |
| BookController.UpsertAuthor | src/Controller/Api/v1/BookController.php:92-101 | the author the book is given has the submitted name |
| BookController.CreateRefusesNonConforming | src/Controller/Api/v1/BookController.php:72-82 | a body that fails the rule set answers 406 with VALIDATION_FAIL and leaves the store unchanged |
| BookController.CreateAcceptsConforming | src/Controller/Api/v1/BookController.php:84-118 | a conforming body upserts its author by name and inserts one book with its title, its price and no description; the answer is 201 CREATED |
| BookController.BookController.constructor | src/Controller/Api/v1/BookController.php:22-25 | the controller works on the given entity manager |
| BookController.BookController.GetBooks | src/Controller/Api/v1/BookController.php:30-41 | the answer is the page specification on the current store |
| BookController.BookController.GetBookById | src/Controller/Api/v1/BookController.php:46-61 | 200 with the projection of the first book with the identity, its author given by name |
| BookController.BookController.CreateBook | src/Controller/Api/v1/BookController.php:66-119 | answer and new store are those of the creation specification on the old store; the store stays well formed |
| BookController.BookController.StoreNewBook | src/Controller/Api/v1/BookController.php:86-112 | the store becomes the author upsert followed by the insert of the book under that author |
| BookController.BookController.UpdateTitleField | src/Controller/Api/v1/BookController.php:139-144 | performs the title step of the update specification, stopping exactly when it stops |
| BookController.BookController.UpdateAuthorField | src/Controller/Api/v1/BookController.php:146-170 | performs the author step of the update specification, stopping exactly when it stops |
| BookController.BookController.AssignAuthor | src/Controller/Api/v1/BookController.php:148-169 | finds the author by name, or persists one (flushing the book's pending changes with it) when creation is available, or stops with 404 |
| BookController.BookController.UpdateDescriptionField | src/Controller/Api/v1/BookController.php:172-175 | performs the description step of the update specification, stopping exactly when it stops |
| BookController.BookController.UpdatePriceField | src/Controller/Api/v1/BookController.php:177-180 | performs the price step of the update specification, stopping exactly when it stops |
| BookController.BookController.UpdateBook | src/Controller/Api/v1/BookController.php:124-198 | answer and new store are those of the update specification on the old store, with author creation available; the store stays well formed |
| BookController.BookController.ApplyFields | src/Controller/Api/v1/BookController.php:139-197 | runs the four field steps in order, stopping at the first that answers, then flushes and shows |
| BookController.BookController.FlushAndShow | src/Controller/Api/v1/BookController.php:182-197 | flushes the book and answers 200 with its projection |
| BookController.BookController.DeleteBook | src/Controller/Api/v1/BookController.php:203-219 | answer and new store are those of the delete specification on the old store; the store stays well formed |
| CatalogueProperties.PageIndexOfDecimal | src/Controller/Api/v1/BookController.php:34-36 | page n selects index n-1, except that "0" selects index 0 |
| CatalogueProperties.GetBooksPage | src/Controller/Api/v1/BookController.php:30-41 | page n ≥ 1 answers 200 with the projections of the stored books from position 10(n-1): as many as remain, up to ten |
| CatalogueProperties.FirstPageAliases | src/Controller/Api/v1/BookController.php:34-36 | no page, page "0" and page "1" give the same answer |
| CatalogueProperties.NegativePageRefused | src/Controller/Api/v1/BookController.php:34-38 | a negative page reaches the query as a negative offset and the request fails |
| CatalogueProperties.CreateIgnoresReportOrder | src/Controller/Api/v1/BookController.php:72-82 | creation depends on the validator's report only through whether it is empty |
| CatalogueProperties.UpsertAuthorFacts | src/Controller/Api/v1/BookController.php:92-101 | an author of the name is reused and the store is unchanged; otherwise exactly one author is added with the next identity and the current time; either way the store stays well formed and the name finds that author |
| CatalogueProperties.CreateAddsOneBook | src/Controller/Api/v1/BookController.php:84-118 | a conforming body answers 201 and appends exactly one book with the next identity, found by it and projecting as the submitted title, author name and price with no description; earlier books are kept and the store stays well formed |
| CatalogueProperties.CreateUpsertsAuthor | src/Controller/Api/v1/BookController.php:92-101 | the authors are unchanged when the name exists and gain exactly the new author otherwise |
| CatalogueProperties.CreateTwiceSharesAuthor | src/Controller/Api/v1/BookController.php:92-103 | two creations naming the same author add at most one author, and both books point at it |
| CatalogueProperties.DeleteMissing | src/Controller/Api/v1/BookController.php:207-213 | deleting an absent identity answers 404 NOT_FOUND and changes nothing |
| CatalogueProperties.DeleteExisting | src/Controller/Api/v1/BookController.php:203-219 | deleting a stored book's identity answers 200 SUCCESS and removes exactly that row, keeping the others in order and the store well formed |
| CatalogueProperties.DeleteTwice | src/Controller/Api/v1/BookController.php:203-219 | a delete answers 404 exactly when the identity is absent, and a second delete answers 404 and changes nothing |
| UpdateProperties.AuthorStepInv | src/Controller/Api/v1/BookController.php:146-170 | the author step keeps the store well formed and leaves every other book, every identity and the book count as they were |
| UpdateProperties.UpdateKeepsOtherBooks | src/Controller/Api/v1/BookController.php:124-198 | whatever its outcome, an update keeps the store well formed, keeps every identity and every other book, and keeps the next book identity |
| UpdateProperties.UpdateMissing | src/Controller/Api/v1/BookController.php:132-138 | updating an absent identity answers 404 NOT_FOUND and changes nothing |
| UpdateProperties.AuthorStepNames | src/Controller/Api/v1/BookController.php:146-170 | the book is pointed at the first author of the name, added when missing, whose name the join then gives; no other field of the book changes |
| UpdateProperties.UpdateAppliesPresentFields | src/Controller/Api/v1/BookController.php:124-198 | a 200 update sets exactly the present fields to the coerced values and keeps the absent ones; the author is the first one of the name; the answer carries the projection of the book as stored afterwards |
| UpdateProperties.UpdateIdempotent | src/Controller/Api/v1/BookController.php:124-198 | repeating a successful update at any later time gives the same answer and changes nothing more |
| UpdateProperties.UpdateWithNothingToApply | src/Controller/Api/v1/BookController.php:139-197 | a body with none of the four fields answers 200 with the stored projection and changes nothing |
| UpdateProperties.UpdateUnknownAuthorRefused | src/Controller/Api/v1/BookController.php:146-166 | without author creation, an unknown author name answers 404 and writes nothing, not even a new title |
| UpdateProperties.UpdateFailureKeepsEarlierWrites | src/Controller/Api/v1/BookController.php:141-175 | when a new author is created and a later field fails, the request fails, yet the new author and the new title stay written under the book's old author |
| DescriptionFinding.GetDescriptionAsWritten | src/Entity/Book.php:98-101 | the getter declared to return `string` fails exactly when the description was never set, and otherwise returns it |
| DescriptionFinding.ShowAsWritten | src/Controller/Api/v1/BookController.php:52-58 | the response array built from the getters fails exactly for an unset description, and otherwise is the projection |
| DescriptionFinding.CreatedBookUnreadableAsWritten | src/Controller/Api/v1/BookController.php:84-112 | every book POST creates has an unset description, so showing it as written fails, where the projection shows null |
| DescriptionFinding.UpdateUnreadableAsWritten | src/Controller/Api/v1/BookController.php:182-191 | a successful update that sets no description of a book without one fails, as written, when it shows the book after the flush |

## Left out

- The HTTP layer is not modelled: routing, request parsing, views and status rendering. JSON decoding is reduced to an optional array of PHP values.
- The other controllers are not part of this model: the author listing, the documentation page and the catalogue export.
- Doctrine internals are not modelled. The unit of work is reduced to the rows each flush writes, and AUTO identities to a counter per table.
- Column constraints are not modelled, and a book is stored with a NULL description. This is the intended behaviour in the Findings row, not the behaviour as written. As written, every book POST creates has no description, and one of two failures always follows. If the column is NOT NULL (the mapping's default), the book insert fails after the author insert has already been flushed. If the column is nullable, reading the book back through `getDescription(): string` fails. So the 201 and 200 answers of these lemmas hold for the intended store only: CatalogueProperties.CreateAddsOneBook, UpdateProperties.UpdateAppliesPresentFields, UpdateProperties.UpdateWithNothingToApply, UpdateProperties.UpdateIdempotent and BookController.BookController.GetBookById.
- Author names are compared with exact string equality. The source compares them in SQL, so the column's collation decides what matches; common MySQL collations ignore case and trailing spaces. That decides whether an upsert reuses an author or creates one.
- PHP's coercion of request values is a parameter, not PHP's own rules. The setters' scalar parameters accept whatever the parameter accepts.
- BookController.PageIndex: reads only integer text with an optional sign; PHP's other numeric forms ("1.5", " 3", "5abc") are treated as a type error rather than their leading-number reading.
- Integer widths are not modelled: identities, pages and offsets are unbounded.
- Floats are reals and are never computed with. The price's round trip through the `string`-typed property is not modelled.
- The clock is the `now` parameter.
- Concurrent requests are not modelled. Each request runs alone on the store.
- A negative query offset is modelled as refused by the database layer (`QueryError`).
- The validator's own reporting order is not modelled. Its violations are a set, and any report listing exactly them is admitted.
- BookController.BookController.GetBookById: admits only stored identities. The controller does not check for null, and the resulting error on a missing book is not modelled.
- Uninitialised typed properties of a fresh entity are not modelled. The constructors give them placeholders.

## Findings

| source | as written | input that shows it | evidently intended | confidence | as-written member | corrected member |
|---|---|---|---|---|---|---|
| src/Entity/Book.php:36-39 | `description` is a `string` property with no default, read by `getDescription(): string` (lines 98-101). POST never sets it, because the closed rule set refuses a description key. With a NOT NULL column, the book insert fails after the author row is flushed. With a nullable column, reading the book back fails. | POST `{"title":"Dune","price":12.5,"author_name":"Frank Herbert"}`, then GET of the new identity | a nullable description, shown as null for a book created without one | high (not executed) | DescriptionFinding.CreatedBookUnreadableAsWritten | CatalogueProperties.CreateAddsOneBook |
