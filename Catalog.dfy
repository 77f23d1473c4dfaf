/** The catalog store: the author, genre and book tables with the constraints
    catalog/models.py declares (unique slugs, PROTECT references, a
    non-negative page count, `is_read` defaulting to false, `created_at` set
    once), and the operations the views perform on it: creating and updating
    books through the form, deleting books, toggling the read flag, deleting
    authors and genres, the book list and the author page. */
module Catalog {
  import opened Wrappers
  import opened Records
  import Forms
  import Filters

  datatype StoreError =
    | NotFound
    | DuplicateSlug
    | UnknownAuthor
    | UnknownGenre
    | NegativeQuantity
    | Protected
    | Invalid(fields: set<Forms.FieldName>)

  /** What the author page shows: the author, the full name built for the
      template and the author's books. */
  datatype AuthorPage = AuthorPage(author: Author, fullName: string, bookList: seq<Book>)

  predicate UniqueSlugs(books: seq<Book>) {
    forall i, j :: 0 <= i < j < |books| ==> books[i].slug != books[j].slug
  }

  predicate UniqueIds(books: seq<Book>) {
    forall i, j :: 0 <= i < j < |books| ==> books[i].id != books[j].id
  }

  predicate UniqueGenreSlugs(genres: map<nat, Genre>) {
    forall a, b :: a in genres && b in genres && a != b ==> genres[a].slug != genres[b].slug
  }

  predicate GenreSlugTaken(genres: map<nat, Genre>, slug: string) {
    exists id :: id in genres && genres[id].slug == slug
  }

  predicate AuthorInUse(books: seq<Book>, id: nat) {
    exists i :: 0 <= i < |books| && books[i].author == id
  }

  predicate GenreInUse(books: seq<Book>, id: nat) {
    exists i :: 0 <= i < |books| && books[i].genre == id
  }

  /** The position of the first book with the given slug: the lookup of the
      detail, update and delete views. */
  function IndexOfSlug(books: seq<Book>, slug: string): (r: Option<nat>)
    ensures r.Some? ==> r.value < |books| && books[r.value].slug == slug
    ensures r.Some? ==> forall j :: 0 <= j < r.value ==> books[j].slug != slug
    ensures r.None? <==> forall j :: 0 <= j < |books| ==> books[j].slug != slug
  {
    if books == [] then None
    else if books[0].slug == slug then Some(0)
    else match IndexOfSlug(books[1..], slug)
      case None => None
      case Some(k) => Some(k + 1)
  }

  /** With unique slugs the book found is the only one with that slug. */
  lemma IndexOfSlugUnique(books: seq<Book>, slug: string, j: nat)
    requires UniqueSlugs(books)
    requires j < |books| && books[j].slug == slug
    ensures IndexOfSlug(books, slug) == Some(j)
  {
  }

  /** The lookup depends on the slugs alone. */
  lemma {:induction false} IndexOfSlugSameSlugs(a: seq<Book>, b: seq<Book>, slug: string)
    requires |a| == |b|
    requires forall i :: 0 <= i < |a| ==> a[i].slug == b[i].slug
    ensures IndexOfSlug(a, slug) == IndexOfSlug(b, slug)
  {
    if a != [] {
      IndexOfSlugSameSlugs(a[1..], b[1..], slug);
    }
  }

  /** `is_read = not is_read`: the read flag changes and nothing else. */
  function Flip(b: Book): (r: Book)
    ensures r.isRead == !b.isRead
    ensures r.(isRead := b.isRead) == b
  {
    b.(isRead := !b.isRead)
  }

  /** The book table after the toggle POST on the book with `slug`; `None`
      when no book has that slug. */
  function Toggled(books: seq<Book>, slug: string): (r: Option<seq<Book>>)
    ensures r.Some? <==> exists i :: 0 <= i < |books| && books[i].slug == slug
    ensures r.Some? ==> |r.value| == |books|
  {
    match IndexOfSlug(books, slug)
    case None => None
    case Some(i) => Some(books[i := Flip(books[i])])
  }

  /** With unique slugs, the toggle flips the read flag of the book with that
      slug and leaves every other book as it was. */
  lemma ToggleMeaning(books: seq<Book>, slug: string)
    requires UniqueSlugs(books)
    requires Toggled(books, slug).Some?
    ensures forall j :: 0 <= j < |books| ==>
      Toggled(books, slug).value[j] == if books[j].slug == slug then Flip(books[j]) else books[j]
  {
  }

  /** Toggling twice restores the table. */
  lemma ToggleTwiceRestores(books: seq<Book>, slug: string)
    requires Toggled(books, slug).Some?
    ensures Toggled(Toggled(books, slug).value, slug) == Some(books)
  {
    var i := IndexOfSlug(books, slug).value;
    var once := books[i := Flip(books[i])];
    IndexOfSlugSameSlugs(books, once, slug);
    assert once[i := Flip(once[i])] == books;
  }

  /** The book table's constraints: ids below the next one to hand out,
      unique ids and slugs, existing author and genre, non-negative page
      count. */
  predicate TableValid(books: seq<Book>, authors: map<nat, Author>, genres: map<nat, Genre>, nextBookId: nat) {
    && (forall i :: 0 <= i < |books| ==> books[i].id < nextBookId)
    && UniqueIds(books)
    && UniqueSlugs(books)
    && (forall i :: 0 <= i < |books| ==> books[i].author in authors && books[i].genre in genres)
    && (forall i :: 0 <= i < |books| ==> books[i].quantity >= 0)
  }

  /** Removing a row keeps the table's constraints. */
  lemma RemoveKeepsTableValid(books: seq<Book>, i: nat, authors: map<nat, Author>, genres: map<nat, Genre>, nextBookId: nat)
    requires TableValid(books, authors, genres, nextBookId)
    requires i < |books|
    ensures TableValid(books[..i] + books[i + 1..], authors, genres, nextBookId)
  {
    var rest := books[..i] + books[i + 1..];
    assert forall k :: 0 <= k < |rest| ==> rest[k] == books[if k < i then k else k + 1];
  }

  /** Which constraint refuses a book row, checked in this order. */
  function CreateRefusal(data: Forms.BookForm, authors: map<nat, Author>, genres: map<nat, Genre>): StoreError {
    if data.quantity < 0 then NegativeQuantity
    else if data.author !in authors then UnknownAuthor
    else if data.genre !in genres then UnknownGenre
    else DuplicateSlug
  }

  class Store {
    var authors: map<nat, Author>
    var genres: map<nat, Genre>
    /** The book table in insertion order. */
    var books: seq<Book>
    var nextAuthorId: nat
    var nextGenreId: nat
    var nextBookId: nat

    /** The table constraints: ids match their keys and lie below the next
        id to hand out, book and genre slugs are unique, every book refers
        to an existing author and genre, and no page count is negative. */
    ghost predicate Valid()
      reads this
    {
      && (forall id :: id in authors ==> authors[id].id == id && id < nextAuthorId)
      && (forall id :: id in genres ==> genres[id].id == id && id < nextGenreId)
      && UniqueGenreSlugs(genres)
      && TableValid(books, authors, genres, nextBookId)
    }

    constructor ()
      ensures Valid()
      ensures authors == map[] && genres == map[] && books == []
    {
      authors, genres, books := map[], map[], [];
      nextAuthorId, nextGenreId, nextBookId := 1, 1, 1;
    }

    method AddAuthor(name: string, surname: string, birthDate: Option<Timestamp>) returns (a: Author)
      requires Valid()
      modifies this
      ensures Valid()
      ensures a.id !in old(authors) && authors == old(authors)[a.id := a]
      ensures a.name == name && a.surname == surname && a.birthDate == birthDate
      ensures genres == old(genres) && books == old(books)
    {
      a := Author(nextAuthorId, name, surname, birthDate);
      authors := authors[a.id := a];
      nextAuthorId := nextAuthorId + 1;
    }

    /** Adding a genre whose slug is taken is refused. */
    method AddGenre(name: string, slug: string) returns (r: Result<Genre, StoreError>)
      requires Valid()
      modifies this
      ensures Valid()
      ensures r.Success? <==> !GenreSlugTaken(old(genres), slug)
      ensures r.Failure? ==> r.error == DuplicateSlug && genres == old(genres)
      ensures r.Success? ==> r.value.id !in old(genres) && genres == old(genres)[r.value.id := r.value]
      ensures r.Success? ==> r.value.name == name && r.value.slug == slug
      ensures authors == old(authors) && books == old(books)
    {
      if exists id :: id in genres && genres[id].slug == slug {
        r := Failure(DuplicateSlug);
      } else {
        var g := Genre(nextGenreId, name, slug);
        genres := genres[g.id := g];
        nextGenreId := nextGenreId + 1;
        r := Success(g);
      }
    }

    /** Inserting a book row. The creation time is the clock reading `now`,
        the read flag is false unless one is supplied, and the row is refused,
        leaving the store unchanged, when the page count is negative, a
        reference is dangling or the slug is taken. */
    method CreateBook(data: Forms.BookForm, slug: string, isRead: Option<bool>, now: Timestamp)
      returns (r: Result<Book, StoreError>)
      requires Valid()
      modifies this
      ensures Valid()
      ensures authors == old(authors) && genres == old(genres)
      ensures r.Success? <==>
        data.quantity >= 0 && data.author in old(authors) && data.genre in old(genres)
        && IndexOfSlug(old(books), slug).None?
      ensures r.Failure? ==> books == old(books)
      ensures r.Failure? ==> r.error == CreateRefusal(data, old(authors), old(genres))
      ensures r.Success? ==> books == old(books) + [r.value]
      ensures r.Success? ==>
        && r.value.title == data.title && r.value.slug == slug && r.value.description == data.description
        && r.value.author == data.author && r.value.genre == data.genre && r.value.quantity == data.quantity
        && r.value.createdAt == now && r.value.isRead == isRead.GetOr(false)
        && forall i :: 0 <= i < |old(books)| ==> old(books)[i].id != r.value.id
    {
      if data.quantity < 0 {
        r := Failure(NegativeQuantity);
      } else if data.author !in authors {
        r := Failure(UnknownAuthor);
      } else if data.genre !in genres {
        r := Failure(UnknownGenre);
      } else if IndexOfSlug(books, slug).Some? {
        r := Failure(DuplicateSlug);
      } else {
        var b := Book(nextBookId, data.title, slug, data.description, data.author, data.genre,
                      data.quantity, now, isRead.GetOr(false));
        books := books + [b];
        nextBookId := nextBookId + 1;
        r := Success(b);
      }
    }

    /** The create view: the form is validated against the existing authors
        and genres, and a valid form is stored with the default read flag. */
    method SubmitCreateForm(data: Forms.BookForm, slug: string, now: Timestamp) returns (r: Result<Book, StoreError>)
      requires Valid()
      modifies this
      ensures Valid()
      ensures authors == old(authors) && genres == old(genres)
      ensures r.Failure? ==> books == old(books)
      ensures Forms.Validate(data, old(authors).Keys, old(genres).Keys).Failure? ==>
        r == Failure(Invalid(Forms.Validate(data, old(authors).Keys, old(genres).Keys).error))
      ensures Forms.Validate(data, old(authors).Keys, old(genres).Keys).Success? ==>
        (r.Success? <==> IndexOfSlug(old(books), slug).None?)
      ensures Forms.Validate(data, old(authors).Keys, old(genres).Keys).Success? && IndexOfSlug(old(books), slug).Some? ==>
        r == Failure(DuplicateSlug)
      ensures r.Success? ==> books == old(books) + [r.value] && !r.value.isRead && r.value.createdAt == now
      ensures r.Success? ==>
        && r.value.title == data.title && r.value.description == data.description
        && r.value.author == data.author && r.value.genre == data.genre && r.value.quantity == data.quantity
        && r.value.slug == slug
        && forall i :: 0 <= i < |old(books)| ==> old(books)[i].id != r.value.id
    {
      var v := Forms.Validate(data, authors.Keys, genres.Keys);
      if v.Failure? {
        r := Failure(Invalid(v.error));
      } else {
        r := CreateBook(data, slug, None, now);
      }
    }

    /** The update view: the book is looked up by slug and the validated form
        rewrites its five bound fields; slug, id, creation time and read flag
        are kept. */
    method SubmitUpdateForm(slug: string, data: Forms.BookForm) returns (r: Result<Book, StoreError>)
      requires Valid()
      modifies this
      ensures Valid()
      ensures authors == old(authors) && genres == old(genres)
      ensures r.Failure? ==> books == old(books)
      ensures IndexOfSlug(old(books), slug).None? ==> r == Failure(NotFound)
      ensures IndexOfSlug(old(books), slug).Some? && Forms.Validate(data, old(authors).Keys, old(genres).Keys).Failure? ==>
        r == Failure(Invalid(Forms.Validate(data, old(authors).Keys, old(genres).Keys).error))
      ensures IndexOfSlug(old(books), slug).Some? && Forms.Validate(data, old(authors).Keys, old(genres).Keys).Success? ==>
        var i := IndexOfSlug(old(books), slug).value;
        r.Success? && r.value == Forms.Apply(old(books)[i], data) && books == old(books)[i := r.value]
    {
      var found := IndexOfSlug(books, slug);
      if found.None? {
        r := Failure(NotFound);
        return;
      }
      var v := Forms.Validate(data, authors.Keys, genres.Keys);
      if v.Failure? {
        r := Failure(Invalid(v.error));
        return;
      }
      var i := found.value;
      var b := Forms.Apply(books[i], data);
      books := books[i := b];
      r := Success(b);
    }

    /** The delete view: the book with `slug` is removed. */
    method DeleteBook(slug: string) returns (r: Result<Book, StoreError>)
      requires Valid()
      modifies this
      ensures Valid()
      ensures authors == old(authors) && genres == old(genres)
      ensures IndexOfSlug(old(books), slug).None? ==> r == Failure(NotFound) && books == old(books)
      ensures IndexOfSlug(old(books), slug).Some? ==>
        var i := IndexOfSlug(old(books), slug).value;
        r == Success(old(books)[i]) && books == old(books)[..i] + old(books)[i + 1..]
    {
      var found := IndexOfSlug(books, slug);
      if found.None? {
        r := Failure(NotFound);
      } else {
        var i := found.value;
        r := Success(books[i]);
        RemoveKeepsTableValid(books, i, authors, genres, nextBookId);
        books := books[..i] + books[i + 1..];
      }
    }

    /** The POST of the book detail view: flip the read flag of the book with
        `slug` and save it. */
    method ToggleRead(slug: string) returns (r: Result<Book, StoreError>)
      requires Valid()
      modifies this
      ensures Valid()
      ensures authors == old(authors) && genres == old(genres)
      ensures Toggled(old(books), slug).None? ==> r == Failure(NotFound) && books == old(books)
      ensures Toggled(old(books), slug).Some? ==>
        books == Toggled(old(books), slug).value && r.Success? && r.value.slug == slug && r.value in books
    {
      var found := IndexOfSlug(books, slug);
      if found.None? {
        r := Failure(NotFound);
      } else {
        var i := found.value;
        var b := Flip(books[i]);
        books := books[i := b];
        assert books[i] == b;
        r := Success(b);
      }
    }

    /** Deleting an author: refused while any book refers to it. */
    method DeleteAuthor(id: nat) returns (r: Result<Author, StoreError>)
      requires Valid()
      modifies this
      ensures Valid()
      ensures genres == old(genres) && books == old(books)
      ensures r.Success? <==> id in old(authors) && !AuthorInUse(old(books), id)
      ensures r.Failure? ==> authors == old(authors)
      ensures r.Failure? ==> r.error == if id !in old(authors) then NotFound else Protected
      ensures r.Success? ==> r.value == old(authors)[id] && authors == old(authors) - {id}
    {
      if id !in authors {
        r := Failure(NotFound);
      } else if exists i :: 0 <= i < |books| && books[i].author == id {
        r := Failure(Protected);
      } else {
        r := Success(authors[id]);
        authors := authors - {id};
      }
    }

    /** Deleting a genre: refused while any book refers to it. */
    method DeleteGenre(id: nat) returns (r: Result<Genre, StoreError>)
      requires Valid()
      modifies this
      ensures Valid()
      ensures authors == old(authors) && books == old(books)
      ensures r.Success? <==> id in old(genres) && !GenreInUse(old(books), id)
      ensures r.Failure? ==> genres == old(genres)
      ensures r.Failure? ==> r.error == if id !in old(genres) then NotFound else Protected
      ensures r.Success? ==> r.value == old(genres)[id] && genres == old(genres) - {id}
    {
      if id !in genres {
        r := Failure(NotFound);
      } else if exists i :: 0 <= i < |books| && books[i].genre == id {
        r := Failure(Protected);
      } else {
        r := Success(genres[id]);
        genres := genres - {id};
      }
    }

    /** The book list view: page `page` of the newest-first list filtered by
        the GET parameters. A page holds at most five books, newest first,
        each stored and wanted by the parameters. */
    method ListBooks(p: Filters.Params, page: int) returns (r: Option<seq<Book>>)
      ensures r == Filters.Page(Filters.Query(OrderNewestFirst(books), genres, p), page)
      ensures page == 1 ==> r.Some?
      ensures r.Some? ==> |r.value| <= Filters.PageSize && NewestFirst(r.value)
      ensures r.Some? ==> forall b :: b in r.value ==> b in books && Filters.Wanted(p, b, genres)
    {
      var ordered := OrderNewestFirst(books);
      r := Filters.Page(Filters.Query(ordered, genres, p), page);
      Filters.PageSizes(Filters.Query(ordered, genres, p), page);
      Filters.ListedPage(ordered, genres, p, page);
      OrderedSameMembers(books);
    }

    /** The author page: the author, the full name "name surname", and the
        author's books newest first, which is the book list filtered by that
        author. */
    method AuthorDetail(id: nat) returns (r: Option<AuthorPage>)
      ensures r.Some? <==> id in authors
      ensures r.Some? ==> r.value.author == authors[id] && r.value.fullName == AuthorStr(authors[id])
      ensures r.Some? ==> r.value.bookList == Filters.Query(OrderNewestFirst(books), genres, Filters.Params(None, Some(id), None))
      ensures r.Some? ==> NewestFirst(r.value.bookList)
      ensures r.Some? ==> forall b :: b in r.value.bookList <==> b in books && b.author == id
    {
      if id !in authors {
        return None;
      }
      var a := authors[id];
      var ordered := OrderNewestFirst(books);
      var mine := Filters.Select(ordered, [Filters.AuthorIs(id)], genres);
      r := Some(AuthorPage(a, a.name + " " + a.surname, mine));
      assert Filters.Compose(Filters.Params(None, Some(id), None)) == [Filters.AuthorIs(id)];
      Filters.SelectNewestFirst(ordered, [Filters.AuthorIs(id)], genres);
      forall b ensures b in mine <==> b in books && b.author == id {
        Filters.SelectMembers(ordered, [Filters.AuthorIs(id)], genres, b);
        assert b in ordered <==> b in multiset(ordered);
        assert b in books <==> b in multiset(books);
        assert Filters.HoldsAll([Filters.AuthorIs(id)], b, genres) <==> b.author == id by {
          assert Filters.AuthorIs(id) in [Filters.AuthorIs(id)];
        }
      }
    }
  }

  /** Toggling the same book twice through the store restores the table. */
  method ToggleTwice(s: Store, slug: string)
    requires s.Valid()
    modifies s
    ensures s.Valid()
    ensures s.books == old(s.books) && s.authors == old(s.authors) && s.genres == old(s.genres)
  {
    ghost var before := s.books;
    var first := s.ToggleRead(slug);
    var second := s.ToggleRead(slug);
    if Toggled(before, slug).Some? {
      ToggleTwiceRestores(before, slug);
    }
  }
}
