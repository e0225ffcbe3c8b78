/** Read-only queries over the `Authors` table. */
module AuthorRepository {
  import opened Values
  import opened Rows

  /** The first author (in storage order) whose name equals `name` exactly, or none. */
  function GetAuthorByName(authors: seq<AuthorRow>, name: string): (r: Option<AuthorRow>)
    ensures r.None? <==> forall a :: a in authors ==> a.name != name
    ensures r.Some? ==> r.value.name == name
    ensures r.Some? ==> exists i :: 0 <= i < |authors| && authors[i] == r.value
                                    && forall j :: 0 <= j < i ==> authors[j].name != name
  {
    if |authors| == 0 then None
    else if authors[0].name == name then Some(authors[0])
    else
      var r := GetAuthorByName(authors[1..], name);
      assert forall a :: a in authors ==> a == authors[0] || a in authors[1..];
      if r.Some? then
        var i :| 0 <= i < |authors[1..]| && authors[1..][i] == r.value
                 && forall j :: 0 <= j < i ==> authors[1..][j].name != name;
        assert authors[i + 1] == r.value;
        r
      else r
  }

  /** Every author, unfiltered and unpaged, in storage order. */
  function GetAuthors(authors: seq<AuthorRow>): (r: seq<AuthorRow>)
    ensures |r| == |authors|
    ensures forall i :: 0 <= i < |r| ==> r[i] == authors[i]
  {
    authors
  }

  /** Once an author with the name is stored, lookups by that name keep finding the same
      author however many authors are added after it. */
  lemma {:induction false} GetAuthorByNameStable(authors: seq<AuthorRow>, more: seq<AuthorRow>, name: string)
    requires GetAuthorByName(authors, name).Some?
    ensures GetAuthorByName(authors + more, name) == GetAuthorByName(authors, name)
  {
    if authors[0].name != name {
      assert (authors + more)[1..] == authors[1..] + more;
      GetAuthorByNameStable(authors[1..], more, name);
    }
  }

  /** An author appended under a name no stored author has is the one found by that name. */
  lemma GetAuthorByNameAppended(authors: seq<AuthorRow>, a: AuthorRow)
    requires GetAuthorByName(authors, a.name).None?
    ensures GetAuthorByName(authors + [a], a.name) == Some(a)
  {
    assert a in authors + [a];
    assert forall j :: 0 <= j < |authors| ==> (authors + [a])[j] == authors[j] && authors[j] in authors;
  }
}
