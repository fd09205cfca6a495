/** The genre listing shown before each filter round: every non-missing genres
    cell is split on ',' and each piece, stripped, goes into one set. */
module Genres {
  import opened Wrappers
  import opened Text
  import opened Records

  /** The comma-separated pieces of a row's genres; none when the cell is missing. */
  function Pieces(b: Book): seq<string>
  {
    if b.genres.Some? then Split(b.genres.value, ',') else []
  }

  /** The stripped forms of some pieces, added one after the other. */
  function StrippedSet(pieces: seq<string>): set<string>
    decreases |pieces|
  {
    if |pieces| == 0 then {}
    else StrippedSet(pieces[..|pieces| - 1]) + {Strip(pieces[|pieces| - 1])}
  }

  lemma {:induction false} StrippedSetMembership(pieces: seq<string>, g: string)
    ensures g in StrippedSet(pieces) <==> exists k :: 0 <= k < |pieces| && g == Strip(pieces[k])
    decreases |pieces|
  {
    if |pieces| > 0 {
      var n := |pieces| - 1;
      StrippedSetMembership(pieces[..n], g);
      if exists k :: 0 <= k < |pieces| && g == Strip(pieces[k]) {
        var k :| 0 <= k < |pieces| && g == Strip(pieces[k]);
        if k < n {
          assert pieces[..n][k] == pieces[k];
        }
      }
    }
  }

  /** The stripped pieces of one row. */
  function PieceSet(b: Book): set<string>
  {
    StrippedSet(Pieces(b))
  }

  /** The union of some sets, taken one after the other. */
  function UnionOf(sets: seq<set<string>>): set<string>
    decreases |sets|
  {
    if |sets| == 0 then {}
    else UnionOf(sets[..|sets| - 1]) + sets[|sets| - 1]
  }

  lemma {:induction false} UnionOfMembership(sets: seq<set<string>>, g: string)
    ensures g in UnionOf(sets) <==> exists i :: 0 <= i < |sets| && g in sets[i]
    decreases |sets|
  {
    if |sets| > 0 {
      var n := |sets| - 1;
      var front := sets[..n];
      UnionOfMembership(front, g);
      if g in UnionOf(front) {
        var i :| 0 <= i < |front| && g in front[i];
        assert front[i] == sets[i];
      }
      if exists i :: 0 <= i < |sets| && g in sets[i] {
        var i :| 0 <= i < |sets| && g in sets[i];
        if i < n {
          assert front[i] == sets[i];
        }
      }
    }
  }

  /** The piece set of every row, in table order. */
  function PieceSets(books: seq<Book>): (r: seq<set<string>>)
    ensures |r| == |books|
    ensures forall i :: 0 <= i < |books| ==> r[i] == PieceSet(books[i])
  {
    seq(|books|, i requires 0 <= i < |books| => PieceSet(books[i]))
  }

  /** The genres of a table. */
  function GenresOf(books: seq<Book>): set<string>
  {
    UnionOf(PieceSets(books))
  }

  /** A genre is listed exactly when it is among the stripped pieces of some row. */
  lemma GenresOfMembership(books: seq<Book>, g: string)
    ensures g in GenresOf(books) <==> exists i :: 0 <= i < |books| && g in PieceSet(books[i])
  {
    UnionOfMembership(PieceSets(books), g);
  }

  /** Spelled out: a genre is listed exactly when it is the stripped form of some
      comma-separated piece of some row's genres. */
  lemma GenresListed(books: seq<Book>, g: string)
    ensures g in GenresOf(books) <==>
            exists i, k :: 0 <= i < |books| && 0 <= k < |Pieces(books[i])| && g == Strip(Pieces(books[i])[k])
  {
    GenresOfMembership(books, g);
    forall i | 0 <= i < |books| {
      StrippedSetMembership(Pieces(books[i]), g);
    }
  }

  /** The nested loops of the listing: for each row with genres, for each piece,
      add the stripped piece. */
  method CollectGenres(books: seq<Book>) returns (genres: set<string>)
    ensures genres == GenresOf(books)
  {
    genres := {};
    var i := 0;
    while i < |books|
      invariant 0 <= i <= |books|
      invariant genres == GenresOf(books[..i])
    {
      var b := books[i];
      if b.genres.Some? {
        var pieces := Split(b.genres.value, ',');
        var j := 0;
        while j < |pieces|
          invariant 0 <= j <= |pieces|
          invariant genres == GenresOf(books[..i]) + StrippedSet(pieces[..j])
        {
          assert pieces[..j + 1][..j] == pieces[..j];
          genres := genres + {Strip(pieces[j])};
          j := j + 1;
        }
        assert pieces[..|pieces|] == pieces;
      }
      assert PieceSets(books[..i + 1]) == PieceSets(books[..i]) + [PieceSet(b)];
      assert PieceSets(books[..i + 1])[..i] == PieceSets(books[..i]);
      i := i + 1;
    }
    assert books[..|books|] == books;
  }

  /** The genres listed for one row are its piece set. */
  lemma GenresOfOne(b: Book)
    ensures GenresOf([b]) == PieceSet(b)
  {
    var sets := PieceSets([b]);
    assert sets == [PieceSet(b)];
    assert sets[..0] == [];
    assert UnionOf(sets) == UnionOf(sets[..0]) + sets[0];
  }

  /** A genres text without commas or edge whitespace is its own only genre. */
  lemma SinglePiece(b: Book)
    requires b.genres.Some? && ',' !in b.genres.value && IsStripped(b.genres.value)
    ensures GenresOf([b]) == {b.genres.value}
  {
    var x := b.genres.value;
    GenresOfOne(b);
    assert Pieces(b) == [x];
    assert Pieces(b)[..0] == [];
    assert "" + x + "" == x;
    StripPadded("", x, "");
    assert PieceSet(b) == StrippedSet([]) + {Strip(x)};
  }

  /** A document without subjects lists just the default genre. */
  lemma NormalizedGenresDefault(d: RawDoc)
    requires d.subject.None?
    ensures GenresOf([Normalize(d)]) == {UnknownGenre}
  {
    assert ',' !in UnknownGenre && IsStripped(UnknownGenre);
    SinglePiece(Normalize(d));
  }

  /** A document whose subject list is present but empty lists one empty genre. */
  lemma NormalizedGenresEmpty(d: RawDoc)
    requires d.subject == Some([])
    ensures GenresOf([Normalize(d)]) == {""}
  {
    SinglePiece(Normalize(d));
  }

  /** A document's subjects come back as the listed genres, provided no subject
      holds a comma or edge whitespace: splitting undoes the join. */
  lemma NormalizedGenresRoundTrip(d: RawDoc)
    requires d.subject.Some? && |d.subject.value| >= 1
    requires forall i :: 0 <= i < |d.subject.value| ==>
               ',' !in d.subject.value[i] && IsStripped(d.subject.value[i])
    ensures GenresOf([Normalize(d)]) == set x | x in d.subject.value
  {
    var b := Normalize(d);
    var xs := d.subject.value;
    GenresOfOne(b);
    SplitStripJoin(xs);
    assert Pieces(b) == Split(Join(xs, ", "), ',');
    forall g ensures g in PieceSet(b) <==> g in xs {
      StrippedSetMembership(Pieces(b), g);
      if g in xs {
        var k :| 0 <= k < |xs| && xs[k] == g;
        assert Strip(Pieces(b)[k]) == g;
      }
    }
  }
}
