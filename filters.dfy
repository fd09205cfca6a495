/** `filter_books`: narrowing the book table by up to four optional criteria. */
module Filters {
  import opened Wrappers
  import opened Text
  import opened Records

  /** The criteria of one filter round; an absent criterion filters nothing. */
  datatype Criteria = Criteria(
    genre: Option<string>,
    minEditions: Option<int>,
    minYear: Option<int>,
    maxYear: Option<int>)

  /** One selection the filter can apply to the table. */
  datatype Test =
    | GenreContains(text: string)
    | MinEditions(count: int)
    | MinYear(year: int)
    | MaxYear(year: int)

  /** Whether one row survives one selection. A missing genres cell never
      contains the text, and a missing year is neither at least nor at most the
      bound: both comparisons are false. */
  predicate Passes(b: Book, t: Test)
  {
    match t
    case GenreContains(text) => b.genres.Some? && ContainsIgnoringCase(b.genres.value, text)
    case MinEditions(count) => b.editions >= count
    case MinYear(year) => b.year.Some? && b.year.value >= year
    case MaxYear(year) => b.year.Some? && b.year.value <= year
  }

  /** One boolean-mask selection `filtered[mask]`: the rows that pass `t`, in order. */
  function Select(books: seq<Book>, t: Test): seq<Book>
  {
    if |books| == 0 then []
    else (if Passes(books[0], t) then [books[0]] else []) + Select(books[1..], t)
  }

  /** `filter_books` as written: the four selections one after the other, each
      only when its criterion is given (the genre only when it is non-empty). */
  function FilterBooks(books: seq<Book>, c: Criteria): seq<Book>
  {
    var byGenre :=
      if c.genre.Some? && c.genre.value != "" then Select(books, GenreContains(c.genre.value))
      else books;
    var byEditions :=
      if c.minEditions.Some? then Select(byGenre, MinEditions(c.minEditions.value)) else byGenre;
    var byMinYear :=
      if c.minYear.Some? then Select(byEditions, MinYear(c.minYear.value)) else byEditions;
    if c.maxYear.Some? then Select(byMinYear, MaxYear(c.maxYear.value)) else byMinYear
  }

  // ---------------------------------------------------------------------------
  // The reference: keep a row exactly when it meets every given criterion
  // ---------------------------------------------------------------------------

  /** The criteria a row must meet, stated field by field. */
  predicate Admits(c: Criteria, b: Book)
  {
    && (c.genre.Some? && c.genre.value != "" ==>
          b.genres.Some? && ContainsIgnoringCase(b.genres.value, c.genre.value))
    && (c.minEditions.Some? ==> b.editions >= c.minEditions.value)
    && (c.minYear.Some? ==> b.year.Some? && b.year.value >= c.minYear.value)
    && (c.maxYear.Some? ==> b.year.Some? && b.year.value <= c.maxYear.value)
  }

  /** The selections that the given criteria switch on. */
  function TestsOf(c: Criteria): seq<Test>
  {
    (if c.genre.Some? && c.genre.value != "" then [GenreContains(c.genre.value)] else [])
    + (if c.minEditions.Some? then [MinEditions(c.minEditions.value)] else [])
    + (if c.minYear.Some? then [MinYear(c.minYear.value)] else [])
    + (if c.maxYear.Some? then [MaxYear(c.maxYear.value)] else [])
  }

  predicate PassesAll(b: Book, ts: seq<Test>)
  {
    forall i :: 0 <= i < |ts| ==> Passes(b, ts[i])
  }

  /** The rows that pass every test in `ts`, in order. */
  function Keep(books: seq<Book>, ts: seq<Test>): seq<Book>
  {
    if |books| == 0 then []
    else (if PassesAll(books[0], ts) then [books[0]] else []) + Keep(books[1..], ts)
  }

  /** `a` is `b` with some elements left out and the rest in their order. */
  predicate IsSubsequence(a: seq<Book>, b: seq<Book>)
    decreases |b|
  {
    if |a| == 0 then true
    else if |b| == 0 then false
    else (a[0] == b[0] && IsSubsequence(a[1..], b[1..])) || IsSubsequence(a, b[1..])
  }

  lemma AdmitsIffPassesAll(c: Criteria, b: Book)
    ensures Admits(c, b) <==> PassesAll(b, TestsOf(c))
  {
    var g := if c.genre.Some? && c.genre.value != "" then [GenreContains(c.genre.value)] else [];
    var e := if c.minEditions.Some? then [MinEditions(c.minEditions.value)] else [];
    var lo := if c.minYear.Some? then [MinYear(c.minYear.value)] else [];
    var hi := if c.maxYear.Some? then [MaxYear(c.maxYear.value)] else [];
    assert TestsOf(c) == g + e + lo + hi;
    PassesAllConcat(b, g, e);
    PassesAllConcat(b, g + e, lo);
    PassesAllConcat(b, g + e + lo, hi);
    PassesAllSingle(b, GenreContains(c.genre.GetOr("")));
    PassesAllSingle(b, MinEditions(c.minEditions.GetOr(0)));
    PassesAllSingle(b, MinYear(c.minYear.GetOr(0)));
    PassesAllSingle(b, MaxYear(c.maxYear.GetOr(0)));
  }

  lemma PassesAllConcat(b: Book, ts: seq<Test>, us: seq<Test>)
    ensures PassesAll(b, ts + us) <==> PassesAll(b, ts) && PassesAll(b, us)
  {
    if PassesAll(b, ts) && PassesAll(b, us) {
      forall i | 0 <= i < |ts + us| ensures Passes(b, (ts + us)[i]) {
        if i >= |ts| { assert (ts + us)[i] == us[i - |ts|]; }
      }
    }
    if PassesAll(b, ts + us) {
      forall i | 0 <= i < |ts| ensures Passes(b, ts[i]) {
        assert (ts + us)[i] == ts[i];
      }
      forall i | 0 <= i < |us| ensures Passes(b, us[i]) {
        assert (ts + us)[|ts| + i] == us[i];
      }
    }
  }

  lemma PassesAllSingle(b: Book, t: Test)
    ensures PassesAll(b, [t]) <==> Passes(b, t)
  {
    assert [t][0] == t;
  }

  /** No tests keep every row. */
  lemma {:induction false} KeepNothingRequired(books: seq<Book>)
    ensures Keep(books, []) == books
  {
    if |books| > 0 {
      KeepNothingRequired(books[1..]);
      assert [books[0]] + books[1..] == books;
    }
  }

  /** One more selection after `Keep` is keeping with that test added, which is
      why the chained selections of the source compute a conjunction. */
  lemma {:induction false} SelectAfterKeep(books: seq<Book>, ts: seq<Test>, t: Test)
    ensures Select(Keep(books, ts), t) == Keep(books, ts + [t])
  {
    if |books| > 0 {
      var b := books[0];
      SelectAfterKeep(books[1..], ts, t);
      PassesAllConcat(b, ts, [t]);
      PassesAllSingle(b, t);
      if PassesAll(b, ts) {
        var k := Keep(books, ts);
        assert k == [b] + Keep(books[1..], ts);
        assert k[0] == b && k[1..] == Keep(books[1..], ts);
        assert Select(k, t) == (if Passes(b, t) then [b] else []) + Select(k[1..], t);
        assert Select(k, t) == (if Passes(b, t) then [b] else []) + Keep(books[1..], ts + [t]);
      } else {
        assert Keep(books, ts) == Keep(books[1..], ts);
      }
      assert Keep(books, ts + [t])
          == (if PassesAll(b, ts + [t]) then [b] else []) + Keep(books[1..], ts + [t]);
    }
  }

  /** Keep a test list that is switched on or off: adding nothing changes nothing. */
  lemma StepKeep(books: seq<Book>, ts: seq<Test>, on: bool, t: Test, now: seq<Book>)
    requires now == Keep(books, ts)
    ensures (if on then Select(now, t) else now) == Keep(books, ts + (if on then [t] else []))
  {
    if on {
      SelectAfterKeep(books, ts, t);
    } else {
      assert ts + [] == ts;
    }
  }

  /** The chained selections of `filter_books` are one `Keep` with the switched-on tests. */
  lemma FilterIsKeep(books: seq<Book>, c: Criteria)
    ensures FilterBooks(books, c) == Keep(books, TestsOf(c))
  {
    var g := if c.genre.Some? && c.genre.value != "" then [GenreContains(c.genre.value)] else [];
    var e := if c.minEditions.Some? then [MinEditions(c.minEditions.value)] else [];
    var lo := if c.minYear.Some? then [MinYear(c.minYear.value)] else [];
    var hi := if c.maxYear.Some? then [MaxYear(c.maxYear.value)] else [];
    KeepNothingRequired(books);
    assert [] + g == g;
    StepKeep(books, [], c.genre.Some? && c.genre.value != "", GenreContains(c.genre.GetOr("")), books);
    var byGenre :=
      if c.genre.Some? && c.genre.value != "" then Select(books, GenreContains(c.genre.value))
      else books;
    assert byGenre == Keep(books, g);
    StepKeep(books, g, c.minEditions.Some?, MinEditions(c.minEditions.GetOr(0)), byGenre);
    var byEditions :=
      if c.minEditions.Some? then Select(byGenre, MinEditions(c.minEditions.value)) else byGenre;
    StepKeep(books, g + e, c.minYear.Some?, MinYear(c.minYear.GetOr(0)), byEditions);
    var byMinYear :=
      if c.minYear.Some? then Select(byEditions, MinYear(c.minYear.value)) else byEditions;
    StepKeep(books, g + e + lo, c.maxYear.Some?, MaxYear(c.maxYear.GetOr(0)), byMinYear);
    assert TestsOf(c) == g + e + lo + hi;
  }

  // ---------------------------------------------------------------------------
  // Properties of Keep
  // ---------------------------------------------------------------------------

  lemma {:induction false} KeepMembership(books: seq<Book>, ts: seq<Test>, b: Book)
    ensures b in Keep(books, ts) <==> b in books && PassesAll(b, ts)
  {
    if |books| > 0 {
      KeepMembership(books[1..], ts, b);
      assert books == [books[0]] + books[1..];
    }
  }

  lemma {:induction false} KeepIsSubsequence(books: seq<Book>, ts: seq<Test>)
    ensures IsSubsequence(Keep(books, ts), books)
  {
    if |books| > 0 {
      KeepIsSubsequence(books[1..], ts);
      var k := Keep(books, ts);
      if PassesAll(books[0], ts) {
        assert k[0] == books[0] && k[1..] == Keep(books[1..], ts);
      } else {
        assert k == Keep(books[1..], ts);
        if |k| > 0 {
          assert IsSubsequence(k, books[1..]);
        }
      }
    }
  }

  lemma {:induction false} KeepIdempotent(books: seq<Book>, ts: seq<Test>)
    ensures Keep(Keep(books, ts), ts) == Keep(books, ts)
  {
    if |books| > 0 {
      KeepIdempotent(books[1..], ts);
      if PassesAll(books[0], ts) {
        var k := Keep(books, ts);
        assert k == [books[0]] + Keep(books[1..], ts);
        assert k[0] == books[0] && k[1..] == Keep(books[1..], ts);
        assert Keep(k, ts) == [k[0]] + Keep(k[1..], ts);
        assert Keep(k, ts) == [books[0]] + Keep(books[1..], ts);
      } else {
        assert Keep(books, ts) == Keep(books[1..], ts);
      }
    }
  }

  /** Test lists with the same tests as members, in whatever order and with
      whatever repeats, keep the same rows. */
  lemma {:induction false} KeepSameTests(books: seq<Book>, ts: seq<Test>, us: seq<Test>)
    requires forall t :: t in ts <==> t in us
    ensures Keep(books, ts) == Keep(books, us)
  {
    if |books| > 0 {
      KeepSameTests(books[1..], ts, us);
      var b := books[0];
      if PassesAll(b, ts) {
        forall i | 0 <= i < |us| ensures Passes(b, us[i]) {
          assert us[i] in us;
        }
      }
      if PassesAll(b, us) {
        forall i | 0 <= i < |ts| ensures Passes(b, ts[i]) {
          assert ts[i] in ts;
        }
      }
    }
  }

  lemma {:induction false} KeepConcat(xs: seq<Book>, ys: seq<Book>, ts: seq<Test>)
    ensures Keep(xs + ys, ts) == Keep(xs, ts) + Keep(ys, ts)
  {
    if |xs| == 0 {
      assert xs + ys == ys;
    } else {
      var x, rest := xs[0], xs[1..];
      KeepConcat(rest, ys, ts);
      assert xs + ys == [x] + (rest + ys);
      assert xs == [x] + rest;
      KeepFirst(x, rest + ys, ts);
      KeepFirst(x, rest, ts);
    }
  }

  lemma KeepFirst(x: Book, rest: seq<Book>, ts: seq<Test>)
    ensures Keep([x] + rest, ts) == (if PassesAll(x, ts) then [x] else []) + Keep(rest, ts)
  {
    assert ([x] + rest)[1..] == rest;
  }

  // ---------------------------------------------------------------------------
  // Properties of filter_books
  // ---------------------------------------------------------------------------

  /** The result is the input with the rows that fail some criterion removed:
      filtering an empty table gives an empty one, and over a longer table the
      first row is kept exactly when it meets every given criterion. */
  lemma FilterCons(b: Book, rest: seq<Book>, c: Criteria)
    ensures FilterBooks([], c) == []
    ensures FilterBooks([b] + rest, c) ==
            (if Admits(c, b) then [b] else []) + FilterBooks(rest, c)
  {
    FilterIsKeep([], c);
    FilterIsKeep([b] + rest, c);
    FilterIsKeep(rest, c);
    AdmitsIffPassesAll(c, b);
    assert ([b] + rest)[1..] == rest;
  }

  /** Filtering a concatenation is concatenating the filtered parts. */
  lemma FilterConcat(xs: seq<Book>, ys: seq<Book>, c: Criteria)
    ensures FilterBooks(xs + ys, c) == FilterBooks(xs, c) + FilterBooks(ys, c)
  {
    FilterIsKeep(xs + ys, c);
    FilterIsKeep(xs, c);
    FilterIsKeep(ys, c);
    KeepConcat(xs, ys, TestsOf(c));
  }

  /** A row is in the result exactly when it is in the input and meets every
      given criterion, and the result keeps the input's order. */
  lemma FilterKeepsAdmitted(books: seq<Book>, c: Criteria)
    ensures forall b :: b in FilterBooks(books, c) <==> b in books && Admits(c, b)
    ensures IsSubsequence(FilterBooks(books, c), books)
    ensures |FilterBooks(books, c)| <= |books|
  {
    FilterIsKeep(books, c);
    forall b ensures b in FilterBooks(books, c) <==> b in books && Admits(c, b) {
      KeepMembership(books, TestsOf(c), b);
      AdmitsIffPassesAll(c, b);
    }
    KeepIsSubsequence(books, TestsOf(c));
    SubsequenceNoLonger(FilterBooks(books, c), books);
  }

  lemma {:induction false} SubsequenceNoLonger(a: seq<Book>, b: seq<Book>)
    requires IsSubsequence(a, b)
    ensures |a| <= |b|
    decreases |b|
  {
    if |a| > 0 {
      if a[0] == b[0] && IsSubsequence(a[1..], b[1..]) {
        SubsequenceNoLonger(a[1..], b[1..]);
      } else {
        SubsequenceNoLonger(a, b[1..]);
      }
    }
  }

  /** Filtering the result again with the same criteria changes nothing. */
  lemma FilterIdempotent(books: seq<Book>, c: Criteria)
    ensures FilterBooks(FilterBooks(books, c), c) == FilterBooks(books, c)
  {
    FilterIsKeep(books, c);
    FilterIsKeep(FilterBooks(books, c), c);
    KeepIdempotent(books, TestsOf(c));
  }

  /** With no criteria, or with only an empty genre text, every row is kept. */
  lemma FilterNoCriteria(books: seq<Book>, genre: Option<string>)
    requires genre.None? || genre == Some("")
    ensures FilterBooks(books, Criteria(genre, None, None, None)) == books
  {
  }

  /** A row with no genres never meets a non-empty genre criterion; a row with no
      year never meets a year bound. */
  lemma FilterDropsMissing(books: seq<Book>, c: Criteria, b: Book)
    requires (c.genre.Some? && c.genre.value != "" && b.genres.None?)
             || ((c.minYear.Some? || c.maxYear.Some?) && b.year.None?)
    ensures b !in FilterBooks(books, c)
  {
    FilterKeepsAdmitted(books, c);
  }

  /** A minimum year above the maximum year leaves nothing. */
  lemma FilterInvertedYears(books: seq<Book>, c: Criteria)
    requires c.minYear.Some? && c.maxYear.Some? && c.minYear.value > c.maxYear.value
    ensures FilterBooks(books, c) == []
  {
    FilterIsKeep(books, c);
    forall b | b in books ensures !PassesAll(b, TestsOf(c)) {
      AdmitsIffPassesAll(c, b);
    }
    KeepNone(books, TestsOf(c));
  }

  lemma {:induction false} KeepNone(books: seq<Book>, ts: seq<Test>)
    requires forall b :: b in books ==> !PassesAll(b, ts)
    ensures Keep(books, ts) == []
  {
    if |books| > 0 {
      assert books[0] in books;
      forall b | b in books[1..] ensures !PassesAll(b, ts) {
        assert b in books;
      }
      KeepNone(books[1..], ts);
    }
  }

  /** The selections of `ts` chained one after the other, first test first. */
  function SelectAll(books: seq<Book>, ts: seq<Test>): seq<Book>
    decreases |ts|
  {
    if |ts| == 0 then books
    else Select(SelectAll(books, ts[..|ts| - 1]), ts[|ts| - 1])
  }

  /** Chaining selections is keeping the rows that pass all of them. */
  lemma {:induction false} SelectAllIsKeep(books: seq<Book>, ts: seq<Test>)
    ensures SelectAll(books, ts) == Keep(books, ts)
    decreases |ts|
  {
    if |ts| == 0 {
      KeepNothingRequired(books);
    } else {
      var n := |ts| - 1;
      SelectAllIsKeep(books, ts[..n]);
      SelectAfterKeep(books, ts[..n], ts[n]);
      assert ts[..n] + [ts[n]] == ts;
    }
  }

  /** Chaining the switched-on selections in any order, with repeats or not,
      gives the rows `filter_books` gives. */
  lemma FilterOrderFree(books: seq<Book>, c: Criteria, ts: seq<Test>)
    requires forall t :: t in ts <==> t in TestsOf(c)
    ensures SelectAll(books, ts) == FilterBooks(books, c)
  {
    FilterIsKeep(books, c);
    SelectAllIsKeep(books, ts);
    KeepSameTests(books, ts, TestsOf(c));
  }

  /** The selections applied in the reverse of the source's order. */
  lemma FilterReversed(books: seq<Book>, c: Criteria)
    ensures SelectAll(books, Reversed(TestsOf(c))) == FilterBooks(books, c)
  {
    forall t ensures t in Reversed(TestsOf(c)) <==> t in TestsOf(c) {
      ReversedMembers(TestsOf(c), t);
    }
    FilterOrderFree(books, c, Reversed(TestsOf(c)));
  }

  function Reversed(ts: seq<Test>): seq<Test>
  {
    if |ts| == 0 then [] else Reversed(ts[1..]) + [ts[0]]
  }

  lemma {:induction false} ReversedMembers(ts: seq<Test>, t: Test)
    ensures t in Reversed(ts) <==> t in ts
  {
    if |ts| > 0 {
      ReversedMembers(ts[1..], t);
      assert ts == [ts[0]] + ts[1..];
    }
  }

  /** The genre criterion does not depend on the case of its text: the text and
      its lower-cased form keep the same rows. */
  lemma FilterGenreCaseFree(books: seq<Book>, c: Criteria)
    requires c.genre.Some? && NoRegexMeta(c.genre.value)
    ensures FilterBooks(books, c) == FilterBooks(books, c.(genre := Some(Lower(c.genre.value))))
  {
    var c' := c.(genre := Some(Lower(c.genre.value)));
    forall b ensures Admits(c, b) <==> Admits(c', b) {
      if b.genres.Some? {
        ContainsIgnoresTextCase(b.genres.value, c.genre.value);
      }
    }
    FilterSameAdmits(books, c, c');
  }

  /** Criteria that admit the same rows give the same result. */
  lemma {:induction false} FilterSameAdmits(books: seq<Book>, c: Criteria, c': Criteria)
    requires forall b :: Admits(c, b) <==> Admits(c', b)
    ensures FilterBooks(books, c) == FilterBooks(books, c')
  {
    if |books| == 0 {
      FilterIsKeep(books, c);
      FilterIsKeep(books, c');
    } else {
      FilterSameAdmits(books[1..], c, c');
      FilterCons(books[0], books[1..], c);
      FilterCons(books[0], books[1..], c');
      assert [books[0]] + books[1..] == books;
    }
  }

  /** A freshly fetched record is found by a genre filter set to any one of its
      subjects that has no regular-expression metacharacter. */
  lemma FetchedMatchesOwnSubject(d: RawDoc, i: nat, books: seq<Book>)
    requires d.subject.Some? && i < |d.subject.value|
    requires NoRegexMeta(d.subject.value[i])
    requires Normalize(d) in books
    ensures Passes(Normalize(d), GenreContains(d.subject.value[i]))
    ensures Normalize(d) in FilterBooks(books, Criteria(Some(d.subject.value[i]), None, None, None))
  {
    JoinContainsPart(d.subject.value, ListSeparator, i);
    FilterKeepsAdmitted(books, Criteria(Some(d.subject.value[i]), None, None, None));
  }

  /** A row is found by a genre filter set to its own genres text, when that text
      has no regular-expression metacharacter. */
  lemma RowMatchesOwnGenres(b: Book, books: seq<Book>)
    requires b.genres.Some? && NoRegexMeta(b.genres.value)
    requires b in books
    ensures b in FilterBooks(books, Criteria(b.genres, None, None, None))
  {
    ContainsItself(b.genres.value);
    FilterKeepsAdmitted(books, Criteria(b.genres, None, None, None));
  }
}

/** The two-row scenario: a genre and edition criterion picks the first row, a
    year window picks the second. */
module FilterScenario {
  import opened Wrappers
  import opened Text
  import opened Records
  import opened Filters

  const RowA: Book := Book("A", UnknownAuthor, Some("Fiction, Drama"), Some(2001), 5)
  const RowB: Book := Book("B", UnknownAuthor, Some("Science"), Some(1995), 2)

  lemma ScenarioGenreAndEditions()
    ensures FilterBooks([RowA, RowB], Criteria(Some("fiction"), Some(3), None, None)) == [RowA]
  {
    var c := Criteria(Some("fiction"), Some(3), None, None);
    assert Lower("fiction") <= Lower("Fiction, Drama")[0..];
    assert ContainsIgnoringCase("Fiction, Drama", "fiction");
    FilterCons(RowA, [RowB], c);
    FilterCons(RowB, [], c);
    assert [RowB] == [RowB] + [];
  }

  lemma ScenarioYearWindow()
    ensures FilterBooks([RowA, RowB], Criteria(None, None, Some(1990), Some(2000))) == [RowB]
  {
    var c := Criteria(None, None, Some(1990), Some(2000));
    FilterCons(RowA, [RowB], c);
    FilterCons(RowB, [], c);
    assert [RowB] == [RowB] + [];
  }

  /** "Science" does not contain "fiction" in any case. */
  lemma ScenarioGenreMismatch()
    ensures !ContainsIgnoringCase("Science", "fiction")
  {
    assert Lower("Science")[0] == 's';
    assert Lower("fiction")[0] == 'f';
  }
}
