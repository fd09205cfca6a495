# Book suggestion bot — verified model of its core

The bot asks the Open Library search API for books, turns every returned
document into a five-field book record, lists the genres in its table, narrows
the table by up to four optional criteria and suggests one matching book at
random. This project models that core in Dafny and proves what it promises:

- **Records** (`records.dfy`): the raw search document (`RawDoc`, every field
  optional), the book record (`Book`), the per-document normaliser with its
  defaults (`Normalize`) and the fetch loop that maps it over the `docs` array
  (`FetchBooks`). The HTTP request is a parameter: a `Response` is either a
  transport failure or a decoded body with or without `docs`.
- **Filters** (`filters.dfy`): `filter_books` as the source writes it, four
  selections applied one after the other (`FilterBooks`), proved equal to a
  reference filter that keeps a row exactly when it meets every given
  criterion (`Admits`, `Keep`). From that follow: the result is an
  order-preserving subsequence, membership is "in the input and admitted",
  filtering is idempotent and distributes over concatenation, the order of the
  selections does not matter, absent criteria (and an empty genre text) filter
  nothing, missing genres and missing years never pass their tests, and
  inverted year bounds give an empty table. Module `FilterScenario` works the
  two-row example through.
- **Genres** (`genres.dfy`): the genre listing built by nested loops
  (`CollectGenres`) against its specification `GenresOf`, with the
  membership characterisation and the round trip from a fetched document's
  subjects to the listed genres.
- **Sampler** (`sampler.dfy`): `random_book_suggestion` (`RandomSuggestion`)
  and the suggestion step of a filter round, which falls back to the whole
  table when no row matches (`SuggestFor`).
- **Text** (`text.dfy`) and **Wrappers** (`wrappers.dfy`): `", ".join`,
  `split(',')`, `strip()`, ASCII lower-casing, substring search, and `Option`.

Modelling decisions:

- The random draw of `df.sample(1)` is an unconstrained choice (`:|`): the
  model promises "some row of the input", not a distribution.
- The genre test of `str.contains(genre, case=False, na=False)` is modelled as
  a literal substring test after ASCII lower-casing. This assumes the genre
  text has no regular-expression metacharacters.
- `strip()` removes the ASCII characters Python counts as whitespace: tab,
  line feed, vertical tab, form feed, carriage return, the four separators
  U+001C to U+001F, and space.
- `Book.genres` is optional. A fetched record always has genres
  (`Normalize` ensures it), but a table read back from its file can have a
  missing genres cell, and both the filter and the listing must skip it.
- A subject list that is present but empty is joined to the empty string, not
  replaced by "Unknown Genre" (`book_suggestion_bot.py:26`); the same holds
  for an empty author list (`NormalizeEmptyLists`, `NormalizedGenresEmpty`).

## Model

| member | source | states |
|---|---|---|
| Records.Normalize | book_suggestion_bot.py:23-29 | each absent field takes its default ("Unknown Title", "Unknown Author", "Unknown Genre", no year, 0 editions); each present field passes through, lists joined with ", "; genres is always present |
| Records.NormalizeEmptyLists | book_suggestion_bot.py:25-26 | a present but empty author or subject list gives the empty string, not the default |
| Records.NormalizedAuthorsRoundTrip | book_suggestion_bot.py:25 | the joined authors split on ',' and stripped give back the author names, when no name holds a comma or edge whitespace |
| Records.DocsOf | book_suggestion_bot.py:22 | the documents of a response, none without a `docs` key or after a failure; used by FetchBooks's contract |
| Records.FetchBooks | book_suggestion_bot.py:18-36 | one record per document, in document order; none after a transport failure or when the body has no `docs` |
| Filters.FilterBooks | book_suggestion_bot.py:58-76 | `filter_books` as written, four conditional selections; specified by FilterIsKeep, FilterKeepsAdmitted, FilterCons and the lemmas below |
| Filters.Passes | book_suggestion_bot.py:65-74 | the per-row mask of the four selections: missing genres never contain the text (`na=False`), a missing year fails both bounds; specified by AdmitsIffPassesAll and FilterDropsMissing |
| Filters.Select | book_suggestion_bot.py:65-74 | one boolean-mask selection; specified by SelectAfterKeep and SelectAllIsKeep |
| Filters.FilterIsKeep | book_suggestion_bot.py:62-76 | the four chained selections equal one filter by the list of criteria that are switched on |
| Filters.AdmitsIffPassesAll | book_suggestion_bot.py:64-74 | passing every switched-on selection is the same as meeting every given criterion, field by field |
| Filters.FilterKeepsAdmitted | book_suggestion_bot.py:58-76 | a row is in the result if and only if it is in the input and meets every given criterion; the result is an order-preserving subsequence of the input and no longer than it |
| Filters.FilterCons | book_suggestion_bot.py:58-76 | an empty table filters to an empty one; the first row is kept exactly when admitted and the rest are filtered alike |
| Filters.FilterConcat | book_suggestion_bot.py:58-76 | filtering a concatenation concatenates the filtered parts |
| Filters.FilterIdempotent | book_suggestion_bot.py:62-76 | filtering the result again with the same criteria returns it unchanged |
| Filters.FilterNoCriteria | book_suggestion_bot.py:62-64 | with no criteria, or only an empty genre text, the table comes back unchanged |
| Filters.FilterDropsMissing | book_suggestion_bot.py:64-74 | a row without genres is dropped by a non-empty genre criterion; a row without a year is dropped by either year bound |
| Filters.FilterInvertedYears | book_suggestion_bot.py:70-74 | a minimum year above the maximum year leaves nothing, whatever the input |
| Filters.FilterOrderFree | book_suggestion_bot.py:62-76 | chaining the switched-on selections one after the other in any order (`SelectAll`) gives exactly what `filter_books` gives |
| Filters.SelectAllIsKeep | book_suggestion_bot.py:64-74 | chaining the selections of a test list equals keeping the rows that pass every test |
| Filters.FilterReversed | book_suggestion_bot.py:62-76 | the four selections applied in reverse order give the same rows |
| Filters.FilterGenreCaseFree | book_suggestion_bot.py:64-65 | a genre criterion without regular-expression metacharacters and its lower-cased form filter alike |
| Filters.FilterSameAdmits | book_suggestion_bot.py:58-76 | criteria that admit the same rows give the same result |
| Filters.FetchedMatchesOwnSubject | book_suggestion_bot.py:26 | a fetched record passes a genre filter set to any one of its subjects that has no regular-expression metacharacter, and stays in the filtered table |
| Filters.RowMatchesOwnGenres | book_suggestion_bot.py:64-65 | a row stays in the table filtered by its own genres text, when that text has no regular-expression metacharacter |
| Filters.SelectAfterKeep | book_suggestion_bot.py:64-74 | one more selection after a filter is the filter with that test added |
| Filters.KeepMembership | book_suggestion_bot.py:62-76 | a row is kept exactly when it is in the input and passes every test |
| Filters.KeepIsSubsequence | book_suggestion_bot.py:62-76 | the kept rows are a subsequence of the input |
| Filters.KeepIdempotent | book_suggestion_bot.py:62-76 | keeping twice with the same tests is keeping once |
| Filters.KeepSameTests | book_suggestion_bot.py:62-76 | test lists with the same tests keep the same rows |
| Filters.KeepConcat | book_suggestion_bot.py:62-76 | keeping distributes over concatenation |
| Filters.KeepNone | book_suggestion_bot.py:62-76 | when no row passes, nothing is kept |
| Filters.KeepNothingRequired | book_suggestion_bot.py:62 | with no tests every row is kept (the copy is the table itself) |
| FilterScenario.ScenarioGenreAndEditions | book_suggestion_bot.py:64-68 | genre "fiction" with at least 3 editions keeps the "Fiction, Drama" row with 5 editions and drops the "Science" row |
| FilterScenario.ScenarioYearWindow | book_suggestion_bot.py:70-74 | the window 1990 to 2000 keeps the 1995 row and drops the 2001 row |
| FilterScenario.ScenarioGenreMismatch | book_suggestion_bot.py:65 | "Science" does not contain "fiction" ignoring case |
| Genres.GenresOf | book_suggestion_bot.py:116-119 | the genre set of a table; characterised by GenresOfMembership and GenresListed |
| Genres.CollectGenres | book_suggestion_bot.py:116-119 | the nested loops compute exactly `GenresOf` of the table |
| Genres.GenresOfMembership | book_suggestion_bot.py:116-119 | a genre is listed exactly when it is among the stripped pieces of some row with genres |
| Genres.GenresListed | book_suggestion_bot.py:116-119 | a genre is listed exactly when it is the stripped form of some comma-separated piece of some row's genres |
| Genres.StrippedSetMembership | book_suggestion_bot.py:118-119 | the stripped pieces of one row are exactly the strip of each piece |
| Genres.SinglePiece | book_suggestion_bot.py:116-119 | a genres text with no comma and no edge whitespace lists exactly itself |
| Genres.NormalizedGenresDefault | book_suggestion_bot.py:26 | a fetched document without subjects lists exactly "Unknown Genre" |
| Genres.NormalizedGenresEmpty | book_suggestion_bot.py:26 | a fetched document with an empty subject list lists exactly the empty genre |
| Genres.NormalizedGenresRoundTrip | book_suggestion_bot.py:26 | the genres listed for a fetched document are exactly its subjects, when no subject holds a comma or edge whitespace |
| Sampler.RandomSuggestion | book_suggestion_bot.py:78-84 | nothing exactly when the table is empty; otherwise a row of the table, and the only row of a one-row table |
| Sampler.SuggestFor | book_suggestion_bot.py:135-146 | nothing exactly when the table is empty; always a row of the table; an admitted row whenever some row is admitted |
| Text.Join | book_suggestion_bot.py:25-26 | `", ".join`; specified by JoinSplit, SplitJoin, SplitStripJoin and JoinContainsPart |
| Text.Split | book_suggestion_bot.py:118 | `str.split(',')`; specified by SplitPieces, JoinSplit, SplitAt and SplitJoin |
| Text.Strip | book_suggestion_bot.py:119 | `str.strip()`; specified by StripShape, StripPadded and StripIdempotent |
| Text.SplitPieces | book_suggestion_bot.py:118 | at least one piece, and no piece contains the separator |
| Text.JoinSplit | book_suggestion_bot.py:118 | joining the pieces with the separator gives back the string |
| Text.SplitJoin | book_suggestion_bot.py:25-26 | splitting a joined list on the separator's first character gives back the parts, each after the first with the rest of the separator in front |
| Text.SplitStripJoin | book_suggestion_bot.py:26 | a list joined with ", ", split on ',' and stripped gives back each element, when none holds a comma or edge whitespace |
| Text.SplitAt | book_suggestion_bot.py:118 | splitting cuts at the first occurrence of the separator |
| Text.StripLeftShape | book_suggestion_bot.py:119 | left stripping drops a prefix that is all whitespace and leaves a string not starting with whitespace |
| Text.StripRightShape | book_suggestion_bot.py:119 | right stripping drops a suffix that is all whitespace and leaves a string not ending with whitespace |
| Text.StripShape | book_suggestion_bot.py:119 | stripping returns a contiguous middle of the string with only whitespace cut from either side, and no edge whitespace |
| Text.StripPadded | book_suggestion_bot.py:119 | whitespace around an already stripped string is exactly what stripping removes |
| Text.StripIdempotent | book_suggestion_bot.py:119 | stripping twice is stripping once |
| Text.LowerConcat | book_suggestion_bot.py:65 | lower-casing distributes over concatenation |
| Text.LowerIdempotent | book_suggestion_bot.py:65 | lower-casing twice is lower-casing once |
| Text.ContainsIgnoresTextCase | book_suggestion_bot.py:65 | searching for the lower-cased text finds exactly what searching for the text finds |
| Text.JoinAroundPart | book_suggestion_bot.py:25-26 | each part of a joined list stands inside the joined text, between some prefix and suffix |
| Text.JoinContainsPart | book_suggestion_bot.py:25-26 | a joined list contains each of its parts, ignoring case |
| Text.ContainsIgnoringCase | book_suggestion_bot.py:65 | `str.contains(genre, case=False)` as a literal ASCII case-insensitive substring test, which agrees with the source only for a genre text without regular-expression metacharacters (`NoRegexMeta`); specified by ContainsIgnoresTextCase, JoinContainsPart and ContainsItself |
| Text.ContainsItself | book_suggestion_bot.py:65 | every string contains itself ignoring case |

## Left out

- HTTP transport (`requests.get`, `raise_for_status`, `response.json()`): the
  response is a parameter; every `RequestException` is the one `NetworkError`
  case, which gives an empty list. The query and result limit only shape the
  request and are not modelled.
- JSON nulls and wrongly typed fields: a `None` field of `RawDoc` stands for a
  missing key only. The source passes some such values through (a null
  `title` or `edition_count` stays null, a string `author_name` is joined
  letter by letter) and raises on others (`"docs": null` fails at line 22);
  none of this is modelled, and `Body(None)` means a body without a `docs`
  key.
- Saving to and loading from CSV through pandas: file I/O, with type inference
  this model cannot see. Rows read back are simply `Book` values.
- The regular-expression and Unicode case-folding semantics of
  `str.contains`: the model uses a literal ASCII case-insensitive substring
  test, which agrees with the source only when the genre text has none of the
  metacharacters `.^$*+?{}[]\|()`. A subject such as "Paris (France)" is
  found by the model but not by the source.
- Filters.FetchedMatchesOwnSubject: promised only for a subject without
  regular-expression metacharacters (`NoRegexMeta`), because with one the
  source's pattern search no longer matches the subject's own text.
- Filters.RowMatchesOwnGenres: promised only for a genres text without
  regular-expression metacharacters, for the same reason.
- Filters.FilterGenreCaseFree: promised only without regular-expression
  metacharacters, because lower-casing an escape changes the pattern (`\S`
  becomes `\s`).
- Python's `strip()` also removes non-ASCII whitespace (U+0085, U+00A0 and
  the Unicode space characters); the model strips only the ASCII whitespace
  listed above.
- The uniform distribution of the random draw: only "some row" is modelled.
- The interactive loop: prompts, printing, sorting the genre list for display,
  `int(...)` parsing with its retry on `ValueError`, and the fetch-or-load
  choice.
- `df.copy()` and pandas NaN and dtype handling: rows are immutable values
  with `Option` fields.
