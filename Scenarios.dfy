/** The six-book fixture of catalog/tests.py and what the list view shows
    for the queries the tests make. */
module Scenarios {
  import opened Wrappers
  import opened Records
  import opened Filters

  /** Genres 1 "fantasy", 2 "novel", 3 "poem". */
  function FixtureGenres(): map<nat, Genre> {
    map[1 := Genre(1, "Fantasy", "fantasy"), 2 := Genre(2, "Novel", "novel"), 3 := Genre(3, "Poem", "poem")]
  }

  /** Books 1..6, created in that order by authors 1, 2, 3, 1, 1, 3 in
      genres 1, 2, 3, 1, 1, 2; books 2, 4 and 5 are read. */
  function FixtureBooks(): seq<Book> {
    [ Book(1, "b1", "b1", "d", 1, 1, 100, 1, false),
      Book(2, "b2", "b2", "d", 2, 2, 1000, 2, true),
      Book(3, "b3", "b3", "d", 3, 3, 250, 3, false),
      Book(4, "b4", "b4", "d", 1, 1, 370, 4, true),
      Book(5, "b5", "b5", "d", 1, 1, 560, 5, true),
      Book(6, "b6", "b6", "d", 3, 2, 250, 6, false) ]
  }

  function Kept(b: Book, cs: seq<Cond>, genres: map<nat, Genre>): seq<Book> {
    if HoldsAll(cs, b, genres) then [b] else []
  }

  /** Filtering six books, one book at a time. */
  lemma SelectSix(rows: seq<Book>, cs: seq<Cond>, genres: map<nat, Genre>)
    requires |rows| == 6
    ensures Select(rows, cs, genres)
         == Kept(rows[0], cs, genres) + Kept(rows[1], cs, genres) + Kept(rows[2], cs, genres)
          + Kept(rows[3], cs, genres) + Kept(rows[4], cs, genres) + Kept(rows[5], cs, genres)
  {
    forall k | 0 <= k < 6 ensures Select([rows[k]], cs, genres) == Kept(rows[k], cs, genres) {
      assert [rows[k]][1..] == [];
    }
    assert rows == [rows[0]] + [rows[1]] + [rows[2]] + [rows[3]] + [rows[4]] + [rows[5]];
    SelectConcat([rows[0]] + [rows[1]] + [rows[2]] + [rows[3]] + [rows[4]], [rows[5]], cs, genres);
    SelectConcat([rows[0]] + [rows[1]] + [rows[2]] + [rows[3]], [rows[4]], cs, genres);
    SelectConcat([rows[0]] + [rows[1]] + [rows[2]], [rows[3]], cs, genres);
    SelectConcat([rows[0]] + [rows[1]], [rows[2]], cs, genres);
    SelectConcat([rows[0]], [rows[1]], cs, genres);
  }

  /** The view filters the newest-first list, which holds the same books. */
  lemma ViewListsSameBooks(p: Params)
    ensures multiset(Query(OrderNewestFirst(FixtureBooks()), FixtureGenres(), p))
         == multiset(Query(FixtureBooks(), FixtureGenres(), p))
    ensures |Query(OrderNewestFirst(FixtureBooks()), FixtureGenres(), p)| == |Query(FixtureBooks(), FixtureGenres(), p)|
  {
    SelectPermutation(OrderNewestFirst(FixtureBooks()), FixtureBooks(), Compose(p), FixtureGenres());
  }

  /** `genre=novel` lists books 2 and 6. */
  lemma FixtureGenreNovel()
    ensures Query(FixtureBooks(), FixtureGenres(), Params(Some("novel"), None, None))
         == [FixtureBooks()[1], FixtureBooks()[5]]
  {
    var rows, g, c := FixtureBooks(), FixtureGenres(), GenreIs("novel");
    assert Compose(Params(Some("novel"), None, None)) == [c];
    assert c in [c];
    SelectSix(rows, [c], g);
  }

  /** `author=3` lists books 3 and 6. */
  lemma FixtureAuthorThree()
    ensures Query(FixtureBooks(), FixtureGenres(), Params(None, Some(3), None))
         == [FixtureBooks()[2], FixtureBooks()[5]]
  {
    var rows, g, c := FixtureBooks(), FixtureGenres(), AuthorIs(3);
    assert Compose(Params(None, Some(3), None)) == [c];
    assert c in [c];
    SelectSix(rows, [c], g);
  }

  /** `read=True` lists the three read books. */
  lemma FixtureReadTrue()
    ensures Query(FixtureBooks(), FixtureGenres(), Params(None, None, Some("True")))
         == [FixtureBooks()[1], FixtureBooks()[3], FixtureBooks()[4]]
  {
    var rows, g, c := FixtureBooks(), FixtureGenres(), ReadIs(true);
    assert Lower("True") == "true";
    assert Compose(Params(None, None, Some("True"))) == [c];
    assert c in [c];
    SelectSix(rows, [c], g);
  }

  /** `author=1&genre=fantasy&read=False` lists book 1 alone. */
  lemma FixtureCombined()
    ensures Query(FixtureBooks(), FixtureGenres(), Params(Some("fantasy"), Some(1), Some("False")))
         == [FixtureBooks()[0]]
  {
    var rows, g := FixtureBooks(), FixtureGenres();
    var cs := [GenreIs("fantasy"), AuthorIs(1), ReadIs(false)];
    assert Lower("False") == "false";
    assert Compose(Params(Some("fantasy"), Some(1), Some("False"))) == cs;
    assert cs[0] in cs && cs[1] in cs && cs[2] in cs;
    assert Kept(rows[0], cs, g) == [rows[0]];
    assert !Holds(cs[0], rows[1], g) && !Holds(cs[0], rows[2], g) && !Holds(cs[0], rows[5], g);
    assert !Holds(cs[2], rows[3], g) && !Holds(cs[2], rows[4], g);
    SelectSix(rows, cs, g);
  }

  /** Any ordering of six books, listed without filters, fills page 1 with
      five books and page 2 with one. */
  lemma SixBooksTwoPages(rows: seq<Book>, base: seq<Book>, genres: map<nat, Genre>)
    requires multiset(rows) == multiset(base) && |base| == 6
    ensures Page(Query(rows, genres, Params(None, None, None)), 1).Some?
    ensures Page(Query(rows, genres, Params(None, None, None)), 2).Some?
    ensures |Page(Query(rows, genres, Params(None, None, None)), 1).value| == 5
    ensures |Page(Query(rows, genres, Params(None, None, None)), 2).value| == 1
  {
    assert |rows| == 6 by {
      assert |multiset(rows)| == |multiset(base)|;
    }
    QueryUnrestricted(rows, genres, Params(None, None, None));
  }

  /** Without filters the first page of the newest-first list holds five of
      the six books and the second page the remaining one. */
  lemma FixtureFirstPage()
    ensures Page(Query(OrderNewestFirst(FixtureBooks()), FixtureGenres(), Params(None, None, None)), 2).Some?
    ensures |Page(Query(OrderNewestFirst(FixtureBooks()), FixtureGenres(), Params(None, None, None)), 1).value| == 5
    ensures |Page(Query(OrderNewestFirst(FixtureBooks()), FixtureGenres(), Params(None, None, None)), 2).value| == 1
  {
    SixBooksTwoPages(OrderNewestFirst(FixtureBooks()), FixtureBooks(), FixtureGenres());
  }

  /** The counts the tests check, on the newest-first list the view filters:
      2 novels, 2 books by author 3, 3 read books. */
  lemma FixtureViewCounts()
    ensures |Query(OrderNewestFirst(FixtureBooks()), FixtureGenres(), Params(Some("novel"), None, None))| == 2
    ensures |Query(OrderNewestFirst(FixtureBooks()), FixtureGenres(), Params(None, Some(3), None))| == 2
    ensures |Query(OrderNewestFirst(FixtureBooks()), FixtureGenres(), Params(None, None, Some("True")))| == 3
  {
    FixtureGenreNovel();
    FixtureAuthorThree();
    FixtureReadTrue();
    ViewListsSameBooks(Params(Some("novel"), None, None));
    ViewListsSameBooks(Params(None, Some(3), None));
    ViewListsSameBooks(Params(None, None, Some("True")));
  }

  /** A query that selects a single book selects that book alone from any
      reordering of its input. */
  lemma SingleResultInAnyOrder(rows: seq<Book>, base: seq<Book>, genres: map<nat, Genre>, p: Params, b: Book)
    requires multiset(rows) == multiset(base)
    requires Query(base, genres, p) == [b]
    ensures Query(rows, genres, p) == [b]
  {
    SelectPermutation(rows, base, Compose(p), genres);
    var q := Query(rows, genres, p);
    assert multiset(q) == multiset{b};
    assert q[0] in multiset(q);
    assert q == [q[0]];
  }

  /** The combined query on the newest-first list the view filters. */
  lemma FixtureViewCombined()
    ensures Query(OrderNewestFirst(FixtureBooks()), FixtureGenres(), Params(Some("fantasy"), Some(1), Some("False")))
         == [FixtureBooks()[0]]
  {
    FixtureCombined();
    SingleResultInAnyOrder(OrderNewestFirst(FixtureBooks()), FixtureBooks(), FixtureGenres(),
                           Params(Some("fantasy"), Some(1), Some("False")), FixtureBooks()[0]);
  }
}
