/** The book-list query (catalog/views.py, BookListView): up to three GET
    parameters become a conjunction of conditions, the conjunction is applied
    to the newest-first book list, and the result is cut into pages of five. */
module Filters {
  import opened Wrappers
  import opened Records

  /** `paginate_by`. */
  const PageSize: nat := 5

  /** The three GET parameters. `None` is an absent parameter; `genre` and
      `read` are the raw strings, `author` is the id already parsed. */
  datatype Params = Params(genre: Option<string>, author: Option<int>, read: Option<string>)

  /** One conjunct of the filter. */
  datatype Cond = GenreIs(slug: string) | AuthorIs(id: int) | ReadIs(flag: bool)

  /** ASCII lowercasing of one character. */
  function LowerChar(c: char): char {
    if 'A' <= c <= 'Z' then (c as int + 32) as char else c
  }

  function Lower(s: string): (r: string)
    ensures |r| == |s|
    ensures forall i :: 0 <= i < |s| ==> r[i] == LowerChar(s[i])
  {
    if s == [] then [] else [LowerChar(s[0])] + Lower(s[1..])
  }

  /** Equality up to the case of ASCII letters. */
  predicate EqualsIgnoringCase(a: string, b: string) {
    |a| == |b| && forall i :: 0 <= i < |a| ==> LowerChar(a[i]) == LowerChar(b[i])
  }

  /** The `read` parameter: honoured only when non-empty and, once lowercased,
      exactly "true" or "false"; every other value is ignored. */
  function ReadFlag(raw: string): Option<bool> {
    if raw == "" then None
    else
      var lowered := Lower(raw);
      if lowered == "true" then Some(true)
      else if lowered == "false" then Some(false)
      else None
  }

  function GenreConds(genre: Option<string>): seq<Cond> {
    if genre.Some? && genre.value != "" then [GenreIs(genre.value)] else []
  }

  function AuthorConds(author: Option<int>): seq<Cond> {
    if author.Some? then [AuthorIs(author.value)] else []
  }

  function ReadConds(read: Option<string>): seq<Cond> {
    if read.None? then []
    else match ReadFlag(read.value)
      case Some(flag) => [ReadIs(flag)]
      case None => []
  }

  /** The `filters &= Q(...)` chain of `get_queryset`, conjuncts in the order
      the code adds them. */
  function Compose(p: Params): seq<Cond> {
    GenreConds(p.genre) + AuthorConds(p.author) + ReadConds(p.read)
  }

  /** Whether one conjunct holds of a book; the genre conjunct goes through
      the book's genre record to its slug. */
  predicate Holds(c: Cond, b: Book, genres: map<nat, Genre>) {
    match c
    case GenreIs(slug) => b.genre in genres && genres[b.genre].slug == slug
    case AuthorIs(id) => b.author == id
    case ReadIs(flag) => b.isRead == flag
  }

  predicate HoldsAll(cs: seq<Cond>, b: Book, genres: map<nat, Genre>) {
    forall c :: c in cs ==> Holds(c, b, genres)
  }

  /** `queryset.filter(...)`: the books satisfying every conjunct, in the
      order they came in. */
  function Select(rows: seq<Book>, cs: seq<Cond>, genres: map<nat, Genre>): seq<Book> {
    if rows == [] then []
    else (if HoldsAll(cs, rows[0], genres) then [rows[0]] else []) + Select(rows[1..], cs, genres)
  }

  /** `get_queryset` applied to the (already ordered) book list. */
  function Query(rows: seq<Book>, genres: map<nat, Genre>, p: Params): seq<Book> {
    Select(rows, Compose(p), genres)
  }

  /** What a book must satisfy to be listed, stated from the parameters
      directly: a non-empty genre slug matched exactly, an author id matched
      by equality, and a read flag in any letter case. */
  predicate Wanted(p: Params, b: Book, genres: map<nat, Genre>) {
    && (p.genre.Some? && p.genre.value != "" ==> b.genre in genres && genres[b.genre].slug == p.genre.value)
    && (p.author.Some? ==> b.author == p.author.value)
    && (p.read.Some? && EqualsIgnoringCase(p.read.value, "true") ==> b.isRead)
    && (p.read.Some? && EqualsIgnoringCase(p.read.value, "false") ==> !b.isRead)
  }

  /** No parameter restricts anything: genre absent or empty, author absent,
      read absent or not a spelling of "true" or "false". */
  predicate Unrestricted(p: Params) {
    && (p.genre.None? || p.genre.value == "")
    && p.author.None?
    && (p.read.None? || (!EqualsIgnoringCase(p.read.value, "true") && !EqualsIgnoringCase(p.read.value, "false")))
  }

  // ---------------------------------------------------------------------
  // The read flag

  lemma LowerMatches(raw: string, word: string)
    requires forall i :: 0 <= i < |word| ==> LowerChar(word[i]) == word[i]
    ensures Lower(raw) == word <==> EqualsIgnoringCase(raw, word)
  {
    if EqualsIgnoringCase(raw, word) {
      assert forall i :: 0 <= i < |raw| ==> Lower(raw)[i] == word[i];
    }
  }

  /** Any letter case of "true" selects read books, any letter case of
      "false" unread ones, and nothing else (the empty string included) is
      honoured. */
  lemma ReadFlagMeaning(raw: string)
    ensures ReadFlag(raw) == Some(true) <==> EqualsIgnoringCase(raw, "true")
    ensures ReadFlag(raw) == Some(false) <==> EqualsIgnoringCase(raw, "false")
    ensures ReadFlag(raw) == None <==> !EqualsIgnoringCase(raw, "true") && !EqualsIgnoringCase(raw, "false")
  {
    LowerMatches(raw, "true");
    LowerMatches(raw, "false");
  }

  // ---------------------------------------------------------------------
  // Filtering

  /** Filtering distributes over concatenation, so it keeps the input order. */
  lemma {:induction false} SelectConcat(a: seq<Book>, b: seq<Book>, cs: seq<Cond>, genres: map<nat, Genre>)
    ensures Select(a + b, cs, genres) == Select(a, cs, genres) + Select(b, cs, genres)
  {
    if a == [] {
      assert a + b == b;
    } else {
      assert (a + b)[1..] == a[1..] + b;
      SelectConcat(a[1..], b, cs, genres);
    }
  }

  /** Each book occurs in the result as often as in the input when it
      satisfies every conjunct, and not at all otherwise. */
  lemma {:induction false} SelectCount(rows: seq<Book>, cs: seq<Cond>, genres: map<nat, Genre>, x: Book)
    ensures multiset(Select(rows, cs, genres))[x] == if HoldsAll(cs, x, genres) then multiset(rows)[x] else 0
  {
    if rows != [] {
      assert rows == [rows[0]] + rows[1..];
      SelectCount(rows[1..], cs, genres, x);
    }
  }

  lemma SelectMembers(rows: seq<Book>, cs: seq<Cond>, genres: map<nat, Genre>, x: Book)
    ensures x in Select(rows, cs, genres) <==> x in rows && HoldsAll(cs, x, genres)
  {
    SelectCount(rows, cs, genres, x);
    assert x in Select(rows, cs, genres) <==> x in multiset(Select(rows, cs, genres));
    assert x in rows <==> x in multiset(rows);
  }

  /** Filtering only removes books. */
  lemma SelectShrinks(rows: seq<Book>, cs: seq<Cond>, genres: map<nat, Genre>)
    ensures multiset(Select(rows, cs, genres)) <= multiset(rows)
    ensures |Select(rows, cs, genres)| <= |rows|
  {
    forall x ensures multiset(Select(rows, cs, genres))[x] <= multiset(rows)[x] {
      SelectCount(rows, cs, genres, x);
    }
    assert |multiset(Select(rows, cs, genres))| <= |multiset(rows)| by {
      var d := multiset(rows) - multiset(Select(rows, cs, genres));
      assert multiset(rows) == multiset(Select(rows, cs, genres)) + d;
    }
  }

  /** Filtering two orderings of the same books selects the same books. */
  lemma SelectPermutation(a: seq<Book>, b: seq<Book>, cs: seq<Cond>, genres: map<nat, Genre>)
    requires multiset(a) == multiset(b)
    ensures multiset(Select(a, cs, genres)) == multiset(Select(b, cs, genres))
    ensures |Select(a, cs, genres)| == |Select(b, cs, genres)|
  {
    forall x ensures multiset(Select(a, cs, genres))[x] == multiset(Select(b, cs, genres))[x] {
      SelectCount(a, cs, genres, x);
      SelectCount(b, cs, genres, x);
    }
    assert multiset(Select(a, cs, genres)) == multiset(Select(b, cs, genres));
    assert |multiset(Select(a, cs, genres))| == |multiset(Select(b, cs, genres))|;
  }

  /** A conjunction that holds of every book removes nothing. */
  lemma {:induction false} SelectKeepsAll(rows: seq<Book>, cs: seq<Cond>, genres: map<nat, Genre>)
    requires forall b :: b in rows ==> HoldsAll(cs, b, genres)
    ensures Select(rows, cs, genres) == rows
  {
    if rows != [] {
      assert forall b :: b in rows[1..] ==> b in rows;
      SelectKeepsAll(rows[1..], cs, genres);
    }
  }

  /** Filtering by a conjunction is filtering by its first part and then by
      the rest. */
  lemma {:induction false} SelectAnd(rows: seq<Book>, cs1: seq<Cond>, cs2: seq<Cond>, genres: map<nat, Genre>)
    ensures Select(rows, cs1 + cs2, genres) == Select(Select(rows, cs1, genres), cs2, genres)
  {
    if rows != [] {
      var b := rows[0];
      assert HoldsAll(cs1 + cs2, b, genres) <==> HoldsAll(cs1, b, genres) && HoldsAll(cs2, b, genres) by {
        assert forall c :: c in cs1 + cs2 <==> c in cs1 || c in cs2;
      }
      SelectAnd(rows[1..], cs1, cs2, genres);
      var head := if HoldsAll(cs1, b, genres) then [b] else [];
      SelectConcat(head, Select(rows[1..], cs1, genres), cs2, genres);
    }
  }

  /** Two conjunctions with the same conjuncts, in whatever order or
      multiplicity, select the same books. */
  lemma {:induction false} SelectSameConds(rows: seq<Book>, cs1: seq<Cond>, cs2: seq<Cond>, genres: map<nat, Genre>)
    requires forall c :: c in cs1 <==> c in cs2
    ensures Select(rows, cs1, genres) == Select(rows, cs2, genres)
  {
    if rows != [] {
      assert HoldsAll(cs1, rows[0], genres) == HoldsAll(cs2, rows[0], genres);
      SelectSameConds(rows[1..], cs1, cs2, genres);
    }
  }

  /** Filters commute. */
  lemma SelectCommutes(rows: seq<Book>, cs1: seq<Cond>, cs2: seq<Cond>, genres: map<nat, Genre>)
    ensures Select(Select(rows, cs1, genres), cs2, genres) == Select(Select(rows, cs2, genres), cs1, genres)
  {
    SelectAnd(rows, cs1, cs2, genres);
    SelectAnd(rows, cs2, cs1, genres);
    assert forall c :: c in cs1 + cs2 <==> c in cs2 + cs1;
    SelectSameConds(rows, cs1 + cs2, cs2 + cs1, genres);
  }

  /** Filtering a newest-first list leaves it newest first. */
  lemma {:induction false} SelectNewestFirst(rows: seq<Book>, cs: seq<Cond>, genres: map<nat, Genre>)
    requires NewestFirst(rows)
    ensures NewestFirst(Select(rows, cs, genres))
  {
    if rows != [] {
      var rest := Select(rows[1..], cs, genres);
      SelectNewestFirst(rows[1..], cs, genres);
      if HoldsAll(cs, rows[0], genres) {
        forall k | 0 <= k < |rest| ensures rows[0].createdAt >= rest[k].createdAt {
          SelectMembers(rows[1..], cs, genres, rest[k]);
          var m :| 0 <= m < |rows[1..]| && rows[1..][m] == rest[k];
          assert rows[m + 1] == rest[k];
        }
        var r := [rows[0]] + rest;
        forall i, j | 0 <= i < j < |r| ensures r[i].createdAt >= r[j].createdAt {
          assert r[j] == rest[j - 1];
          if i > 0 { assert r[i] == rest[i - 1]; }
        }
      }
    }
  }

  // ---------------------------------------------------------------------
  // The composed query

  /** The composed conjunction holds of a book exactly when the book is
      wanted by the parameters. */
  lemma ComposeMeaning(p: Params, b: Book, genres: map<nat, Genre>)
    ensures HoldsAll(Compose(p), b, genres) <==> Wanted(p, b, genres)
  {
    var g, a, r := GenreConds(p.genre), AuthorConds(p.author), ReadConds(p.read);
    assert forall c :: c in Compose(p) <==> c in g || c in a || c in r;
    if p.genre.Some? && p.genre.value != "" {
      assert GenreIs(p.genre.value) in g;
    }
    if p.author.Some? {
      assert AuthorIs(p.author.value) in a;
    }
    if p.read.Some? {
      ReadFlagMeaning(p.read.value);
      if ReadFlag(p.read.value).Some? {
        assert ReadIs(ReadFlag(p.read.value).value) in r;
      }
    }
  }

  /** The listed books are exactly the wanted ones, each as often as in the
      input. */
  lemma QueryExactly(rows: seq<Book>, genres: map<nat, Genre>, p: Params, x: Book)
    ensures multiset(Query(rows, genres, p))[x] == if Wanted(p, x, genres) then multiset(rows)[x] else 0
    ensures x in Query(rows, genres, p) <==> x in rows && Wanted(p, x, genres)
  {
    ComposeMeaning(p, x, genres);
    SelectCount(rows, Compose(p), genres, x);
    SelectMembers(rows, Compose(p), genres, x);
  }

  /** Without a restricting parameter the whole list is returned. */
  lemma QueryUnrestricted(rows: seq<Book>, genres: map<nat, Genre>, p: Params)
    requires Unrestricted(p)
    ensures Query(rows, genres, p) == rows
  {
    forall b | b in rows ensures HoldsAll(Compose(p), b, genres) {
      ComposeMeaning(p, b, genres);
    }
    SelectKeepsAll(rows, Compose(p), genres);
  }

  /** A `read` value that is no spelling of "true" or "false" gives the same
      list as no `read` parameter at all. */
  lemma QueryIgnoresBadRead(rows: seq<Book>, genres: map<nat, Genre>, p: Params, raw: string)
    requires !EqualsIgnoringCase(raw, "true") && !EqualsIgnoringCase(raw, "false")
    ensures Query(rows, genres, p.(read := Some(raw))) == Query(rows, genres, p.(read := None))
  {
    ReadFlagMeaning(raw);
    assert Compose(p.(read := Some(raw))) == Compose(p.(read := None));
  }

  /** An empty `genre` parameter gives the same list as none. */
  lemma QueryIgnoresEmptyGenre(rows: seq<Book>, genres: map<nat, Genre>, p: Params)
    ensures Query(rows, genres, p.(genre := Some(""))) == Query(rows, genres, p.(genre := None))
  {
    assert Compose(p.(genre := Some(""))) == Compose(p.(genre := None));
  }

  /** The per-parameter filters may be applied one after another in any
      order: each order gives the composed query. */
  lemma QueryAnyOrder(rows: seq<Book>, genres: map<nat, Genre>, p: Params)
    ensures Query(rows, genres, p)
         == Select(Select(Select(rows, GenreConds(p.genre), genres), AuthorConds(p.author), genres), ReadConds(p.read), genres)
    ensures Query(rows, genres, p)
         == Select(Select(Select(rows, ReadConds(p.read), genres), AuthorConds(p.author), genres), GenreConds(p.genre), genres)
    ensures Query(rows, genres, p)
         == Select(Select(Select(rows, AuthorConds(p.author), genres), ReadConds(p.read), genres), GenreConds(p.genre), genres)
    ensures Query(rows, genres, p)
         == Select(Select(Select(rows, GenreConds(p.genre), genres), ReadConds(p.read), genres), AuthorConds(p.author), genres)
    ensures Query(rows, genres, p)
         == Select(Select(Select(rows, AuthorConds(p.author), genres), GenreConds(p.genre), genres), ReadConds(p.read), genres)
    ensures Query(rows, genres, p)
         == Select(Select(Select(rows, ReadConds(p.read), genres), GenreConds(p.genre), genres), AuthorConds(p.author), genres)
  {
    var g, a, r := GenreConds(p.genre), AuthorConds(p.author), ReadConds(p.read);
    SelectAnd(rows, g + a, r, genres);
    SelectAnd(rows, g, a, genres);
    SelectAnd(rows, r + a, g, genres);
    SelectAnd(rows, r, a, genres);
    SelectAnd(rows, a + r, g, genres);
    SelectAnd(rows, a, r, genres);
    assert forall c :: c in g + a + r <==> c in r + a + g;
    assert forall c :: c in g + a + r <==> c in a + r + g;
    SelectSameConds(rows, g + a + r, r + a + g, genres);
    SelectSameConds(rows, g + a + r, a + r + g, genres);
    SelectCommutes(Select(rows, g, genres), a, r, genres);
    SelectCommutes(rows, g, a, genres);
    SelectCommutes(Select(rows, r, genres), a, g, genres);
    SelectCommutes(rows, r, a, genres);
  }

  /** Adding a parameter only removes books from the list. */
  lemma QueryNarrows(rows: seq<Book>, genres: map<nat, Genre>, p: Params)
    ensures multiset(Query(rows, genres, p)) <= multiset(Query(rows, genres, p.(genre := None)))
    ensures multiset(Query(rows, genres, p)) <= multiset(Query(rows, genres, p.(author := None)))
    ensures multiset(Query(rows, genres, p)) <= multiset(Query(rows, genres, p.(read := None)))
    ensures multiset(Query(rows, genres, p)) <= multiset(rows)
  {
    forall x
      ensures multiset(Query(rows, genres, p))[x] <= multiset(Query(rows, genres, p.(genre := None)))[x]
      ensures multiset(Query(rows, genres, p))[x] <= multiset(Query(rows, genres, p.(author := None)))[x]
      ensures multiset(Query(rows, genres, p))[x] <= multiset(Query(rows, genres, p.(read := None)))[x]
      ensures multiset(Query(rows, genres, p))[x] <= multiset(rows)[x]
    {
      QueryExactly(rows, genres, p, x);
      QueryExactly(rows, genres, p.(genre := None), x);
      QueryExactly(rows, genres, p.(author := None), x);
      QueryExactly(rows, genres, p.(read := None), x);
    }
  }

  // ---------------------------------------------------------------------
  // Pagination

  /** Number of pages of `n` books; an empty list still has its first page. */
  function PageCount(n: nat): nat {
    if n == 0 then 1 else (n + PageSize - 1) / PageSize
  }

  /** Page `number` (counted from 1) of the list; a number outside
      1..PageCount is no page. */
  function Page(rows: seq<Book>, number: int): Option<seq<Book>> {
    if 1 <= number <= PageCount(|rows|) then
      var start := (number - 1) * PageSize;
      var end := if start + PageSize <= |rows| then start + PageSize else |rows|;
      Some(rows[start..end])
    else None
  }

  /** The first page always exists; no page holds more than five books, and
      every page before the last holds exactly five. */
  lemma PageSizes(rows: seq<Book>, number: int)
    ensures Page(rows, 1).Some?
    ensures Page(rows, number).Some? ==> |Page(rows, number).value| <= PageSize
    ensures 1 <= number < PageCount(|rows|) ==> Page(rows, number).Some? && |Page(rows, number).value| == PageSize
    ensures number == PageCount(|rows|) && rows != [] ==> |Page(rows, number).value| > 0
  {
  }

  /** Every book of the list is on exactly one page: book `i` is item
      `i % 5` of page `i / 5 + 1`, and item `k` of page `n` is book
      `(n - 1) * 5 + k`. */
  lemma PageLocates(rows: seq<Book>, i: nat)
    requires i < |rows|
    ensures Page(rows, i / PageSize + 1).Some?
    ensures i % PageSize < |Page(rows, i / PageSize + 1).value|
    ensures Page(rows, i / PageSize + 1).value[i % PageSize] == rows[i]
  {
  }

  lemma PageItems(rows: seq<Book>, number: int, k: nat)
    requires Page(rows, number).Some? && k < |Page(rows, number).value|
    ensures (number - 1) * PageSize + k < |rows|
    ensures Page(rows, number).value[k] == rows[(number - 1) * PageSize + k]
  {
  }

  /** A page of the filtered newest-first list holds at most five books,
      newest first, each from the list and wanted by the parameters. */
  lemma ListedPage(rows: seq<Book>, genres: map<nat, Genre>, p: Params, number: int)
    requires NewestFirst(rows)
    ensures Page(Query(rows, genres, p), number).Some? ==>
      var items := Page(Query(rows, genres, p), number).value;
      && |items| <= PageSize
      && NewestFirst(items)
      && forall b :: b in items ==> b in rows && Wanted(p, b, genres)
  {
    var listed := Query(rows, genres, p);
    PageSizes(listed, number);
    SelectNewestFirst(rows, Compose(p), genres);
    if Page(listed, number).Some? {
      var items := Page(listed, number).value;
      forall b | b in items ensures b in rows && Wanted(p, b, genres) {
        QueryExactly(rows, genres, p, b);
      }
    }
  }
}
