# Book catalog model

A Dafny model of the core of a small Django book catalog. The catalog keeps
authors, genres and books. Each book refers to one author and one genre and
has a page count, a creation time and a read flag. The model covers:

- the record shapes and table constraints declared in `catalog/models.py`;
- the book form of `catalog/forms.py`;
- the logic of the views in `catalog/views.py`: the filtered, newest-first
  and paginated book list, the read-flag toggle, and the author page.

Files, one module each:

- `Wrappers.dfy`: `Option` and `Result`.
- `Records.dfy`: `Author`, `Genre` and `Book` as datatypes. Also the string
  forms (`AuthorStr`, `GenreStr`, `BookStr`) and the default ordering
  `-created_at`. That ordering is an insertion sort, `OrderNewestFirst`,
  proved to sort newest first and to be a permutation of its input.
- `Forms.dfy`: the five bound fields, `clean_title`, `clean_quantity` and
  whole-form validation. Also what saving the form writes into a record.
- `Filters.dfy`: the three GET parameters, the conjunction `get_queryset`
  builds from them, the ORM filter as `Select`, and pages of five books.
  `Wanted` is a separate reference predicate stated from the parameters
  alone. `ComposeMeaning` and `QueryExactly` tie the composed query to it.
- `Catalog.dfy`: the class `Store`. It holds the author and genre tables as
  maps keyed by id and the book table as a sequence in insertion order. Its
  invariant `Valid()` states that ids match their keys, book and genre slugs
  are unique, every book refers to an existing author and genre, and no
  page count is negative. Every method keeps `Valid()`. Each method that
  changes the store states every table after the call. For a new book it
  states every field, but the id only as one no other book holds.
- `Scenarios.dfy`: the six-book fixture of `catalog/tests.py` and the
  results its list-view tests expect.

Conventions:

- Strings are `seq<char>`.
- Timestamps are integers. The clock reading is a parameter (`now`) of
  book creation.
- GET parameter `genre` or `read` is an `Option<string>`. `None` means the
  parameter is absent. Like Python's `if value:`, the code treats an empty
  string the same as an absent parameter.
- The `author` parameter is the id already parsed to an integer. `None`
  means it is absent or empty. Any integer that is present filters, `0`
  included: the raw string `"0"` is truthy in Python.
- The form's `description` must be non-empty. Its model field is a
  `TextField` without `blank=True` (catalog/models.py:24). Django therefore
  makes it a required form field, though `forms.py` has no check of its own
  for it.
- Page numbers start at 1. Page 1 always exists, even for an empty list.
  Any other number outside 1..PageCount gives `None`, which stands for the
  paginator's "page not found".

## Model

| member | source | states |
|---|---|---|
| `Records.AuthorStr` | catalog/models.py:9-10 | an author's string is the name, one space, then the surname |
| `Records.InsertAddsOne` | catalog/models.py:39-40 | inserting into the ordered list adds exactly that book |
| `Records.InsertKeepsOrder` | catalog/models.py:39-40 | inserting into a newest-first list keeps it newest first |
| `Records.OrderNewestFirst` | catalog/models.py:39-40 | the default ordering returns the same books (as a multiset), sorted by creation time descending |
| `Records.NewestFirst` | catalog/models.py:39-40 | no contract; the sortedness predicate that `OrderNewestFirst`, `SelectNewestFirst` and `ListedPage` establish |
| `Records.OrderedSameMembers` | catalog/models.py:39-40 | ordering neither adds nor drops a book |
| `Forms.CleanTitle` | catalog/forms.py:20-26 | a title is accepted iff it is non-empty; an accepted title is returned unchanged; a rejection is keyed `title` |
| `Forms.CleanQuantity` | catalog/forms.py:28-34 | a quantity is accepted iff it is strictly positive; an accepted one is returned unchanged; a rejection is keyed `quantity` |
| `Forms.Validate` | catalog/forms.py:8-34 | the form is valid iff title and description are non-empty, author and genre exist and quantity > 0; the cleaned data equals the input; each field's error is present iff that field's condition fails |
| `Forms.FieldVerdictsAreLocal` | catalog/forms.py:20-34 | the title verdict depends only on the title and the quantity verdict only on the quantity |
| `Forms.Apply` | catalog/forms.py:10 | saving the form writes exactly title, description, author, genre and quantity; id, slug, created_at and is_read are unchanged |
| `Filters.Lower` | catalog/views.py:34 | lowercasing keeps the length and lowercases each ASCII letter in place |
| `Filters.ReadFlag` | catalog/views.py:32-37 | no contract; meaning in `ReadFlagMeaning` |
| `Filters.Compose` | catalog/views.py:22-37 | no contract; meaning in `ComposeMeaning`, order of the conjuncts irrelevant by `QueryAnyOrder` |
| `Filters.Select` | catalog/views.py:39 | no contract; meaning in `SelectCount`, `SelectConcat` and `SelectMembers` |
| `Filters.Query` | catalog/views.py:19-39 | no contract; meaning in `QueryExactly` and `QueryUnrestricted` |
| `Filters.PageCount` | catalog/views.py:16 | no contract; meaning in `PageSizes` |
| `Filters.Page` | catalog/views.py:16 | no contract; meaning in `PageSizes`, `PageLocates` and `PageItems` |
| `Filters.ReadFlagMeaning` | catalog/views.py:32-37 | `read` selects read books iff it is "true" in any letter case, and unread books iff it is "false" in any letter case; every other value, the empty string included, is ignored |
| `Filters.ComposeMeaning` | catalog/views.py:22-37 | the composed conjunction holds of a book iff the book satisfies every present, honoured parameter (`Wanted`) |
| `Filters.QueryExactly` | catalog/views.py:19-39 | the list holds exactly the wanted books, each as often as in the input |
| `Filters.SelectConcat` | catalog/views.py:39 | filtering distributes over concatenation, so it keeps the input order |
| `Filters.SelectCount` | catalog/views.py:39 | a book occurs in the filtered list as often as in the input if it satisfies the conjunction, otherwise not at all |
| `Filters.SelectMembers` | catalog/views.py:39 | a book is in the filtered list iff it is in the input and satisfies every conjunct |
| `Filters.SelectShrinks` | catalog/views.py:39 | filtering only removes books |
| `Filters.SelectPermutation` | catalog/views.py:39 | two orderings of the same books give filtered results with the same books |
| `Filters.SelectKeepsAll` | catalog/views.py:22 | a conjunction that every book satisfies (the empty `Q()` included) keeps the whole list |
| `Filters.SelectAnd` | catalog/views.py:26-39 | filtering by `c1 & c2` equals filtering by `c1` and then by `c2` |
| `Filters.SelectSameConds` | catalog/views.py:22-37 | conjunctions with the same conjuncts, in any order, select the same books |
| `Filters.SelectCommutes` | catalog/views.py:22-37 | two filters applied in either order give the same list |
| `Filters.SelectNewestFirst` | catalog/views.py:17 | filtering a newest-first list leaves it newest first |
| `Filters.QueryUnrestricted` | catalog/views.py:17-39 | with no restricting parameter the whole list is returned |
| `Filters.QueryIgnoresBadRead` | catalog/views.py:32-37 | a `read` value that spells neither "true" nor "false" gives the same list as no `read` |
| `Filters.QueryIgnoresEmptyGenre` | catalog/views.py:24-26 | an empty `genre` gives the same list as no `genre` |
| `Filters.QueryAnyOrder` | catalog/views.py:22-39 | the genre, author and read filters applied one after another, in each of the six orders, give the composed query |
| `Filters.QueryNarrows` | catalog/views.py:22-39 | adding any one parameter only removes books from the list |
| `Filters.PageSizes` | catalog/views.py:16 | page 1 always exists; a page holds at most 5 books; every page before the last holds exactly 5; the last page of a non-empty list is non-empty |
| `Filters.PageLocates` | catalog/views.py:16 | book `i` is item `i % 5` of page `i / 5 + 1` |
| `Filters.PageItems` | catalog/views.py:16 | item `k` of page `n` is book `(n - 1) * 5 + k` |
| `Filters.ListedPage` | catalog/views.py:16-39 | a page of the filtered newest-first list holds at most 5 books, newest first, each from the list and wanted by the parameters |
| `Catalog.TableValid` | catalog/models.py:23-35 | no contract; the book table's constraints, kept by every `Store` method and by `RemoveKeepsTableValid` |
| `Catalog.Store.Valid` | catalog/models.py:15-35 | no contract; the store invariant (unique genre and book slugs, existing references, non-negative page counts), required and ensured by every `Store` method |
| `Catalog.RemoveKeepsTableValid` | catalog/models.py:21-37 | removing a book row keeps unique ids and slugs, valid references and non-negative page counts |
| `Catalog.IndexOfSlug` | catalog/views.py:42-54 | the slug lookup finds the first book with that slug, or none exactly when no book has it |
| `Catalog.IndexOfSlugUnique` | catalog/models.py:23 | with unique slugs, the lookup finds the only book with that slug |
| `Catalog.IndexOfSlugSameSlugs` | catalog/views.py:54 | the lookup depends on the slugs only |
| `Catalog.Flip` | catalog/views.py:55 | the read flag is negated and no other field changes |
| `Catalog.Toggled` | catalog/views.py:52-56 | the toggle succeeds iff some book has the slug, and keeps the table length |
| `Catalog.ToggleMeaning` | catalog/views.py:52-56 | with unique slugs, the toggle flips that book's read flag and leaves all other books as they were |
| `Catalog.ToggleTwiceRestores` | catalog/views.py:52-56 | two toggles of the same slug restore the table |
| `Catalog.Store.constructor` | catalog/models.py:4-43 | an empty catalog satisfies the invariant |
| `Catalog.Store.AddAuthor` | catalog/models.py:4-7 | a new author gets a fresh id and nothing else changes |
| `Catalog.Store.AddGenre` | catalog/models.py:13-15 | a genre is added iff its slug is free; a refusal leaves the store unchanged |
| `Catalog.Store.CreateBook` | catalog/models.py:21-37 | a book is stored iff quantity >= 0, author and genre exist and the slug is free; it gets created_at = now and is_read false unless supplied; a refusal names the failed constraint and leaves the store unchanged |
| `Catalog.Store.SubmitCreateForm` | catalog/views.py:60-64 | an invalid form is refused with its field errors; a valid one with a taken slug is refused with DuplicateSlug; otherwise the new row holds the form's five fields, the given slug, a fresh id, is_read false and created_at now, and is appended to the table |
| `Catalog.Store.SubmitUpdateForm` | catalog/views.py:71-75 | a missing slug gives NotFound; an invalid form is refused; a valid one rewrites the five bound fields of that book and nothing else |
| `Catalog.Store.DeleteBook` | catalog/views.py:82-86 | the book with the slug is removed, or NotFound with the store unchanged |
| `Catalog.Store.ToggleRead` | catalog/views.py:52-56 | the store's books become `Toggled(old books, slug)`: only that book's read flag changes; a missing slug gives NotFound with the store unchanged |
| `Catalog.Store.DeleteAuthor` | catalog/models.py:25-29 | an author is deleted iff it exists and no book refers to it; otherwise NotFound or Protected, store unchanged |
| `Catalog.Store.DeleteGenre` | catalog/models.py:30-34 | a genre is deleted iff it exists and no book refers to it; otherwise NotFound or Protected, store unchanged |
| `Catalog.Store.ListBooks` | catalog/views.py:11-39 | the page is the requested page of the filtered newest-first list; page 1 always exists; at most 5 books, newest first, each stored and wanted |
| `Catalog.Store.AuthorDetail` | catalog/views.py:89-104 | found iff the author exists; full name equals the author's string form; the books are exactly those of that author, newest first, the same as the list filtered by that author |
| `Catalog.ToggleTwice` | catalog/views.py:52-56 | toggling the same slug twice through the store leaves all tables as they were |
| `Scenarios.ViewListsSameBooks` | catalog/views.py:17-39 | on the fixture, the newest-first list gives the same books as the table order for every query |
| `Scenarios.FixtureGenreNovel` | catalog/tests.py:138-143 | `genre=novel` lists books 2 and 6 |
| `Scenarios.FixtureAuthorThree` | catalog/tests.py:145-150 | `author=3` lists books 3 and 6 |
| `Scenarios.FixtureReadTrue` | catalog/tests.py:152-157 | `read=True` lists the three read books |
| `Scenarios.FixtureCombined` | catalog/tests.py:159-168 | author 1, genre fantasy and `read=False` together list book 1 alone |
| `Scenarios.SixBooksTwoPages` | catalog/views.py:16 | any ordering of six books, listed without filters, gives pages of 5 and 1 |
| `Scenarios.FixtureFirstPage` | catalog/tests.py:131-136 | without filters, page 1 of the newest-first fixture list holds 5 books and page 2 holds 1 |
| `Scenarios.SingleResultInAnyOrder` | catalog/views.py:39 | a query that selects one book selects it alone from any reordering of its input |
| `Scenarios.FixtureViewCounts` | catalog/tests.py:138-157 | on the newest-first list the counts are 2, 2 and 3, as the tests expect |
| `Scenarios.FixtureViewCombined` | catalog/tests.py:159-168 | on the newest-first list the combined query lists book 1 alone |

## Left out

- Slug derivation. `catalog/models.py` has no code that fills a book's
  slug, so creation takes the slug as an argument and only its uniqueness is
  enforced. As declared, the tests.py fixture (catalog/tests.py:85-129)
  would create six books that all have the default empty slug. That would
  break the unique constraint, so the tests depend on a save hook that is
  not part of this model.
- Non-numeric `author` parameters. The code passes the raw string to the
  ORM, which raises for a non-integer. These values are not ignored, so the
  model takes the id already parsed.
- Unparsable page numbers and the paginator's other options. Only page size
  5, page slicing and "no such page" are modelled.
- HTTP: routing, templates, redirects and status codes. The model returns
  `NotFound` where a view answers 404.
- The admin panel (catalog/admin.py), and `select_related`, which only
  affects performance.
- Transactions and concurrency.
- Python's full-Unicode `str.lower()`. The model lowercases ASCII letters
  only.
- `CharField` maximum lengths, whitespace stripping, and the text of the
  error messages. Errors are identified by the field they belong to.
- `Forms.Validate`: accepts any positive quantity. It does not model the
  upper bound that the database backend's range check puts on a
  `PositiveIntegerField` (catalog/models.py:35), 2147483647 on the usual
  backends.
- `Forms.Validate`: takes author, genre and quantity already parsed to
  integers, and all five fields present. A non-numeric or missing value is
  rejected by the form fields before the checks modelled here, and the model
  does not cover that.
- Ties in creation time. `OrderNewestFirst` puts books created at the same
  time in one fixed order, but the database promises no order for them. The
  ordering lemmas state only "newest first" and "same books".
  `Catalog.Store.ListBooks` and `Catalog.Store.AuthorDetail` say their result
  equals a function of `OrderNewestFirst`, so those clauses also fix that
  tie order. Their "newest first", size and membership clauses hold for any
  order the database picks.
- `Catalog.Store.CreateBook` reports the first failed constraint in a fixed
  order: page count, author, genre, slug. The database reports one
  integrity error without that order.
- `GenreStr` and `BookStr` (catalog/models.py:17-18, 42-43) are plain
  functions that return the name and the title. They have no contract of
  their own.
