/** Book records and the fetch step that builds them from the documents of an
    Open Library search response (`fetch_books_from_openlibrary`). */
module Records {
  import opened Wrappers
  import opened Text

  const UnknownTitle: string := "Unknown Title"
  const UnknownAuthor: string := "Unknown Author"
  const UnknownGenre: string := "Unknown Genre"
  const ListSeparator: string := ", "

  /** One document of the search response; every field may be absent. */
  datatype RawDoc = RawDoc(
    title: Option<string>,
    authorName: Option<seq<string>>,
    subject: Option<seq<string>>,
    firstPublishYear: Option<int>,
    editionCount: Option<int>)

  /** One row of the book table. `genres` is optional because a table read back
      from its file may hold a missing genres cell; a freshly fetched record
      always has one. */
  datatype Book = Book(
    title: string,
    authors: string,
    genres: Option<string>,
    year: Option<int>,
    editions: int)

  /** The outcome of the single HTTP request: a transport failure of any kind,
      or a decoded body that may or may not carry a `docs` array. */
  datatype Response = NetworkError | Body(docs: Option<seq<RawDoc>>)

  /** The record built for one document: each absent field takes its default,
      each list is joined with ", ", and a present list passes through joined
      even when it is empty. */
  function Normalize(d: RawDoc): (b: Book)
    ensures d.title.None? ==> b.title == UnknownTitle
    ensures d.title.Some? ==> b.title == d.title.value
    ensures d.authorName.None? ==> b.authors == UnknownAuthor
    ensures d.authorName.Some? ==> b.authors == Join(d.authorName.value, ListSeparator)
    ensures b.genres.Some?
    ensures d.subject.None? ==> b.genres.value == UnknownGenre
    ensures d.subject.Some? ==> b.genres.value == Join(d.subject.value, ListSeparator)
    ensures b.year == d.firstPublishYear
    ensures d.editionCount.None? ==> b.editions == 0
    ensures d.editionCount.Some? ==> b.editions == d.editionCount.value
  {
    Book(
      d.title.GetOr(UnknownTitle),
      Join(d.authorName.GetOr([UnknownAuthor]), ListSeparator),
      Some(if d.subject.Some? then Join(d.subject.value, ListSeparator) else UnknownGenre),
      d.firstPublishYear,
      d.editionCount.GetOr(0))
  }

  /** A present but empty author or subject list gives the empty string, not the
      default text. */
  lemma NormalizeEmptyLists(d: RawDoc)
    ensures d.authorName == Some([]) ==> Normalize(d).authors == ""
    ensures d.subject == Some([]) ==> Normalize(d).genres == Some("")
  {
  }

  /** The joined authors split back into the author names, provided no name
      holds a comma or edge whitespace. */
  lemma NormalizedAuthorsRoundTrip(d: RawDoc)
    requires d.authorName.Some? && |d.authorName.value| >= 1
    requires forall i :: 0 <= i < |d.authorName.value| ==>
               ',' !in d.authorName.value[i] && IsStripped(d.authorName.value[i])
    ensures |Split(Normalize(d).authors, ',')| == |d.authorName.value|
    ensures forall i :: 0 <= i < |d.authorName.value| ==>
              Strip(Split(Normalize(d).authors, ',')[i]) == d.authorName.value[i]
  {
    SplitStripJoin(d.authorName.value);
  }

  /** The documents a response holds: none on failure or without a `docs` key. */
  function DocsOf(response: Response): seq<RawDoc>
  {
    match response
    case NetworkError => []
    case Body(docs) => docs.GetOr([])
  }

  /** The fetch loop: one record per document, in document order, and none when
      the request failed or the body had no documents. */
  method FetchBooks(response: Response) returns (books: seq<Book>)
    ensures response.NetworkError? ==> books == []
    ensures response.Body? && response.docs.None? ==> books == []
    ensures |books| == |DocsOf(response)|
    ensures forall i :: 0 <= i < |books| ==> books[i] == Normalize(DocsOf(response)[i])
  {
    books := [];
    if response.NetworkError? {
      return;
    }
    var docs := response.docs.GetOr([]);
    var k := 0;
    while k < |docs|
      invariant 0 <= k <= |docs|
      invariant |books| == k
      invariant forall i :: 0 <= i < k ==> books[i] == Normalize(docs[i])
    {
      books := books + [Normalize(docs[k])];
      k := k + 1;
    }
  }
}
