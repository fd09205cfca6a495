/** `random_book_suggestion` and the suggestion step of a filter round. The
    random draw is modelled as an unconstrained choice of one row. */
module Sampler {
  import opened Wrappers
  import opened Records
  import opened Filters

  /** Nothing for an empty table, otherwise one of its rows. */
  method RandomSuggestion(books: seq<Book>) returns (r: Option<Book>)
    ensures r.None? <==> |books| == 0
    ensures r.Some? ==> r.value in books
    ensures |books| == 1 ==> r == Some(books[0])
  {
    if |books| == 0 {
      return None;
    }
    var i :| 0 <= i < |books|;
    r := Some(books[i]);
  }

  /** One filter round's suggestion: drawn from the filtered rows, or from the
      whole table when no row meets the criteria. */
  method SuggestFor(books: seq<Book>, c: Criteria) returns (r: Option<Book>)
    ensures r.None? <==> |books| == 0
    ensures r.Some? ==> r.value in books
    ensures (exists b :: b in books && Admits(c, b)) ==> r.Some? && Admits(c, r.value)
  {
    var filtered := FilterBooks(books, c);
    FilterKeepsAdmitted(books, c);
    if |filtered| == 0 {
      r := RandomSuggestion(books);
    } else {
      r := RandomSuggestion(filtered);
    }
  }
}
