/** The three record shapes of the catalog (catalog/models.py), their string
    forms, and the default ordering of book collections. */
module Records {
  import opened Wrappers

  /** Dates and datetimes are integer timestamps. */
  type Timestamp = int

  datatype Author = Author(id: nat, name: string, surname: string, birthDate: Option<Timestamp>)

  datatype Genre = Genre(id: nat, name: string, slug: string)

  /** `quantity` is the page count; `author` and `genre` hold the ids of the
      referenced records. */
  datatype Book = Book(
    id: nat,
    title: string,
    slug: string,
    description: string,
    author: nat,
    genre: nat,
    quantity: int,
    createdAt: Timestamp,
    isRead: bool)

  /** An author's string form: name, one space, surname. */
  function AuthorStr(a: Author): (s: string)
    ensures |s| == |a.name| + 1 + |a.surname|
    ensures s[..|a.name|] == a.name && s[|a.name|] == ' ' && s[|a.name| + 1..] == a.surname
  {
    a.name + " " + a.surname
  }

  /** A genre's string form is its name. */
  function GenreStr(g: Genre): string {
    g.name
  }

  /** A book's string form is its title. */
  function BookStr(b: Book): string {
    b.title
  }

  /** Newest first: creation times never increase along the sequence. */
  predicate NewestFirst(s: seq<Book>) {
    forall i, j :: 0 <= i < j < |s| ==> s[i].createdAt >= s[j].createdAt
  }

  /** Puts `b` in front of the first book that is not newer than it. */
  function InsertNewestFirst(b: Book, s: seq<Book>): seq<Book> {
    if s == [] || b.createdAt >= s[0].createdAt then [b] + s
    else [s[0]] + InsertNewestFirst(b, s[1..])
  }

  /** Inserting adds exactly the one book. */
  lemma {:induction false} InsertAddsOne(b: Book, s: seq<Book>)
    ensures multiset(InsertNewestFirst(b, s)) == multiset(s) + multiset{b}
  {
    if s != [] && b.createdAt < s[0].createdAt {
      InsertAddsOne(b, s[1..]);
      assert s == [s[0]] + s[1..];
    }
  }

  /** Inserting into a newest-first sequence keeps it newest first. */
  lemma {:induction false} InsertKeepsOrder(b: Book, s: seq<Book>)
    requires NewestFirst(s)
    ensures NewestFirst(InsertNewestFirst(b, s))
  {
    if s != [] && b.createdAt < s[0].createdAt {
      var rest := InsertNewestFirst(b, s[1..]);
      InsertKeepsOrder(b, s[1..]);
      InsertAddsOne(b, s[1..]);
      forall k | 0 <= k < |rest| ensures rest[k].createdAt <= s[0].createdAt {
        assert rest[k] in multiset(rest);
        if rest[k] != b {
          assert rest[k] in multiset(s[1..]);
          var m :| 0 <= m < |s[1..]| && s[1..][m] == rest[k];
          assert s[m + 1] == rest[k];
        }
      }
      var r := [s[0]] + rest;
      forall i, j | 0 <= i < j < |r| ensures r[i].createdAt >= r[j].createdAt {
        assert r[j] == rest[j - 1];
        if i > 0 { assert r[i] == rest[i - 1]; }
      }
    }
  }

  /** The book collection in the order of `Meta.ordering = ['-created_at']`.
      Books with equal creation times keep no particular order. */
  function OrderNewestFirst(s: seq<Book>): (r: seq<Book>)
    ensures NewestFirst(r)
    ensures multiset(r) == multiset(s)
  {
    if s == [] then []
    else
      var rest := OrderNewestFirst(s[1..]);
      InsertAddsOne(s[0], rest);
      InsertKeepsOrder(s[0], rest);
      assert s == [s[0]] + s[1..];
      InsertNewestFirst(s[0], rest)
  }

  /** Ordering neither adds nor drops a book. */
  lemma OrderedSameMembers(s: seq<Book>)
    ensures forall b :: b in OrderNewestFirst(s) <==> b in s
  {
    forall b ensures b in OrderNewestFirst(s) <==> b in s {
      assert b in OrderNewestFirst(s) <==> b in multiset(OrderNewestFirst(s));
      assert b in s <==> b in multiset(s);
    }
  }
}
