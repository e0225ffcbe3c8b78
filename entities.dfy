/** The two persisted entities as objects whose setters update their fields in place. */
module Entities {
  import opened Values
  import opened Rows

  /** An author. `id` stays null until the row is inserted; `createDate` is set by the
      pre-persist hook. */
  class Author {
    var id: Option<int>
    var createDate: Option<Instant>
    var name: string

    /** A fresh author with nothing set (the name is a placeholder until `SetName`). */
    constructor ()
      ensures id.None? && createDate.None? && name == ""
    {
      id, createDate, name := None, None, "";
    }

    function GetId(): int
      reads this
      requires id.Some?
    {
      id.value
    }

    method SetId(v: int)
      modifies this
      ensures id.Some? && GetId() == v
      ensures name == old(name) && createDate == old(createDate)
    {
      id := Some(v);
    }

    function GetName(): string
      reads this
    {
      name
    }

    method SetName(n: string)
      modifies this
      ensures GetName() == n
      ensures id == old(id) && createDate == old(createDate)
    {
      name := n;
    }

    function GetCreateDate(): Option<Instant>
      reads this
    {
      createDate
    }

    /** Stores the date and returns the same object, for chaining. */
    method SetCreateDate(d: Instant) returns (self: Author)
      modifies this
      ensures self == this && GetCreateDate() == Some(d)
      ensures id == old(id) && name == old(name)
    {
      createDate := Some(d);
      self := this;
    }

    /** The pre-persist hook: stamps the creation date with the current time. */
    method BeforeSave(now: Instant)
      modifies this
      ensures GetCreateDate() == Some(now)
      ensures id == old(id) && name == old(name)
    {
      createDate := Some(now);
    }

    /** `{id, name, created_date}` from the current fields. */
    function JsonSerialize(): (m: Fields)
      reads this
      requires id.Some?
      ensures m.Keys == {"id", "name", "created_date"}
      ensures m["id"] == Int(GetId()) && m["name"] == Str(GetName())
      ensures m["created_date"] == (if createDate.Some? then Date(createDate.value) else Null)
    {
      map["id" := Int(GetId()), "name" := Str(GetName()),
          "created_date" := if createDate.Some? then Date(createDate.value) else Null]
    }

    /** The row this entity is stored as. */
    function Row(): AuthorRow
      reads this
      requires id.Some? && createDate.Some?
    {
      AuthorRow(id.value, name, createDate.value)
    }
  }

  /** A book. `id` stays null until the row is inserted; an unset description is null. */
  class Book {
    var id: Option<int>
    var title: string
    var author: Author?
    var description: Option<string>
    var price: real

    /** A fresh book with nothing set (title and price are placeholders until set). */
    constructor ()
      ensures id.None? && author == null && description.None?
    {
      id, title, author, description, price := None, "", null, None, 0.0;
    }

    /** The identity as the untyped getter returns it: an integer, or null before insert. */
    function GetId(): Value
      reads this
    {
      if id.Some? then Int(id.value) else Null
    }

    method SetId(v: int)
      modifies this
      ensures GetId() == Int(v) && id == Some(v)
      ensures title == old(title) && author == old(author)
      ensures description == old(description) && price == old(price)
    {
      id := Some(v);
    }

    function GetTitle(): string
      reads this
    {
      title
    }

    method SetTitle(t: string)
      modifies this
      ensures GetTitle() == t
      ensures id == old(id) && author == old(author)
      ensures description == old(description) && price == old(price)
    {
      title := t;
    }

    function GetAuthor(): Author?
      reads this
    {
      author
    }

    method SetAuthor(a: Author?)
      modifies this
      ensures GetAuthor() == a
      ensures id == old(id) && title == old(title)
      ensures description == old(description) && price == old(price)
    {
      author := a;
    }

    function GetDescription(): Option<string>
      reads this
    {
      description
    }

    method SetDescription(d: string)
      modifies this
      ensures GetDescription() == Some(d)
      ensures id == old(id) && title == old(title) && author == old(author) && price == old(price)
    {
      description := Some(d);
    }

    function GetPrice(): real
      reads this
    {
      price
    }

    method SetPrice(p: real)
      modifies this
      ensures GetPrice() == p
      ensures id == old(id) && title == old(title) && author == old(author)
      ensures description == old(description)
    {
      price := p;
    }

    /** The flattened projection of the current fields, the author by name. */
    function JsonSerialize(): (m: Fields)
      reads this, author
      requires author != null
      ensures m.Keys == {"id", "title", "author", "description", "price"}
      ensures m["id"] == GetId() && m["title"] == Str(GetTitle()) && m["author"] == Str(author.GetName())
      ensures m["description"] == DescriptionValue(GetDescription()) && m["price"] == Float(GetPrice())
    {
      Projection(GetId(), GetTitle(), Str(GetAuthor().GetName()), GetDescription(), GetPrice())
    }

    /** Whether the entity can be written as a row: it has an identity and a stored author. */
    predicate Storable()
      reads this, author
    {
      id.Some? && author != null && author.id.Some?
    }

    /** The row this entity is stored as. */
    function Row(): BookRow
      reads this, author
      requires Storable()
    {
      BookRow(id.value, title, author.id.value, description, price)
    }
  }
}
