# Bookstore inventory: a verified model of its two record stores

The repository is a single-page bookstore inventory written in TypeScript/React. Its
logic is two record stores over an ordered list of book records (title, author, genre,
price). This project models both in Dafny and proves what each operation does.

- **`Bookstore` class** (`src/Bookstore.tsx`, module `Store`, file `bookstore.dfy`). A class
  with a mutable `inventory`. It is keyed by **title**:
  - `addBook` appends.
  - `editBook` and `deleteBook` act on the FIRST record with the given title. They return
    `false` and change nothing when no record has that title.
  - `filterBooks` keeps the records whose genre and author contain the query as a
    case-insensitive substring. An empty query matches everything.
  - `getAllBooks` lists the inventory.

  The class `Store.Bookstore` has a `seq<Book>` field. Its methods state the new inventory
  through the functions `EditByTitle` and `DeleteByTitle`. The lemmas about those functions
  say what changes.
- **The `App` component's list** (`src/App.tsx`, module `App`, file `app.dfy`). A list
  keyed by a numeric **id**. Each transition builds a new list, so they are pure functions:
  - Add assigns `last id + 1`, or `1` for an empty list, and appends.
  - Update maps over the list. It gives the record with the edited id the form's fields
    and keeps its id.
  - Delete filters out every record with the id.
  - The filter keeps exact genre/author matches. An empty criterion matches everything.
  - The filter dropdowns list the distinct genres and authors.

  The edit-mode flag (`editingBook`) and the form payload (`newBook`) are parameters. The
  central invariant is that ids increase strictly along the list. Every add, update and
  delete keeps it (`ReplayKeepsIdsIncreasing`), so ids stay pairwise distinct.

Shared helpers:
- `text.dfy` (module `Text`) models `toLowerCase` and `includes`.
- `seqs.dfy` (module `Seqs`) models `filter`, `splice(k, 1)` and `[...new Set(xs)]`.

Three points about the code that the model keeps as written:
- **New id.** The code (`src/App.tsx:23`) gives a new record the LAST record's id + 1,
  not the largest id + 1. `NextIdIsMaxPlusOne` proves the two agree on every list with
  increasing ids. `ReplayKeepsIdsIncreasing` proves that every list reachable from the
  empty one has increasing ids.
- **Two filter semantics.** `Bookstore.filterBooks` matches a case-insensitive substring.
  The `App` filter matches exactly. Each is modelled as written.
- **First match versus every match.** The title-keyed class edits and deletes only the
  first record with the title (`findIndex`). The `App` update and delete act on EVERY
  record with the id (`map` and `filter`). The model keeps that difference. With unique
  ids the two readings coincide.

## Model

| member | source | states |
|---|---|---|
| `Store.Bookstore.constructor` | src/Bookstore.tsx:11 | a new store's inventory is empty |
| `Store.Bookstore.AddBook` | src/Bookstore.tsx:14-16 | the inventory becomes the old one with the book appended: one longer, new book last, earlier entries unchanged |
| `Store.Bookstore.EditBook` | src/Bookstore.tsx:19-24 | returns true exactly when some record has the title; the new inventory is `EditByTitle` of the old one (unchanged on a miss) |
| `Store.Bookstore.DeleteBook` | src/Bookstore.tsx:27-32 | returns true exactly when some record has the title; the new inventory is `DeleteByTitle` of the old one (unchanged on a miss) |
| `Store.Bookstore.FilterBooks` | src/Bookstore.tsx:35-40 | reads the inventory without changing it; the result is an order-preserving subsequence of it; a record is in the result iff it is in the inventory and matches both criteria; every matching record appears as many times as in the inventory and no other record appears; with both queries empty the result is the whole inventory |
| `Store.Bookstore.GetAllBooks` | src/Bookstore.tsx:43-45 | returns the current inventory in stored order |
| `Store.FindIndex` | src/Bookstore.tsx:20 | `findIndex` by title: -1 exactly when no record has the title, otherwise the position of the first record with it |
| `Store.EditByTitle` | src/Bookstore.tsx:19-24 | same length; unchanged when no record has the title; otherwise the first record with the title is replaced by the update at the same position and every other position is unchanged |
| `Store.DeleteByTitle` | src/Bookstore.tsx:27-32 | unchanged when no record has the title; otherwise one shorter, with the records before the first match and those after it kept in place and order |
| `Store.DeleteByTitleRemovesOnlyFirst` | src/Bookstore.tsx:28-31 | a successful delete leaves an order-preserving subsequence, loses exactly the first matching record (multiset difference), and every later record with the same title survives |
| `Store.FieldMatches` | src/Bookstore.tsx:37-38 | one criterion: an empty query matches every field, a field matches itself, and a non-empty query longer than the field never matches |
| `Store.Matches` | src/Bookstore.tsx:36-39 | both criteria: two empty queries match every record, and a record matches its own genre and author |
| `Store.FieldMatchesSpec` | src/Bookstore.tsx:37-38 | a criterion matches a field iff the query is empty or the lower-cased query occurs as a substring of the lower-cased field |
| `Store.FieldMatchesIgnoresQueryCase` | src/Bookstore.tsx:37-38 | a query matches a field exactly as its lower-cased form does |
| `Store.FieldMatchesIgnoresFieldCase` | src/Bookstore.tsx:37-38 | a field is matched exactly as its lower-cased form is |
| `Store.AddThenEdit` | src/Bookstore.tsx:14-23 | editing the title of a book just added, when no earlier record has that title, puts the replacement in its place at the end |
| `Store.AddThenDelete` | src/Bookstore.tsx:14-31 | deleting the title of a book just added, when no earlier record has that title, restores the inventory before the add |
| `Text.LowerChar` | src/Bookstore.tsx:37-38 | the folded character is never an upper-case ASCII letter; a character changes only when it is 'A'..'Z', and then to the letter 32 code points later |
| `Text.Includes` | src/Bookstore.tsx:37-38 | `includes` finds nothing longer than the string; it finds the empty string and the string itself |
| `Text.Lower` | src/Bookstore.tsx:37-38 | `toLowerCase` keeps the length and folds each character |
| `Text.LowerIdempotent` | src/Bookstore.tsx:37-38 | lower-casing twice equals lower-casing once |
| `Text.IncludesSpec` | src/Bookstore.tsx:37-38 | the `includes` scan succeeds iff the query occurs at some position of the string |
| `Seqs.Filter` | src/App.tsx:30 | `filter` never lengthens the sequence |
| `Seqs.FilterMembers` | src/App.tsx:38-43 | an element is in a filter's result iff it is in the input and satisfies the predicate |
| `Seqs.FilterMultiset` | src/Bookstore.tsx:36-39 | a filter keeps every copy of an element that passes and no copy of one that fails |
| `Seqs.FilterIsSubseq` | src/Bookstore.tsx:36-39 | a filter's result keeps the input's order (it is a subsequence) |
| `Seqs.FilterAll` | src/App.tsx:38-43 | a filter every element passes returns the input unchanged |
| `Seqs.FilterAppend` | src/App.tsx:30 | filtering `s + [x]` is filtering `s`, followed by `x` when `x` passes |
| `Seqs.RemoveAt` | src/Bookstore.tsx:30 | `splice(k, 1)` is one shorter; positions before `k` are kept and later ones shift down by one |
| `Seqs.RemoveAtIsSubseq` | src/Bookstore.tsx:30 | `splice(k, 1)` keeps the other elements in order |
| `Seqs.RemoveAtMultiset` | src/Bookstore.tsx:30 | `splice(k, 1)` removes exactly the element at `k` |
| `Seqs.Distinct` | src/App.tsx:92 | `[...new Set(xs)]` holds every value of `xs`, only values of `xs`, and no value twice |
| `Seqs.DistinctInFirstOccurrenceOrder` | src/App.tsx:92 | the values of `[...new Set(xs)]` come in the order of their first occurrence in `xs` |
| `App.IncreasingIdsAreUnique` | src/App.tsx:23-24 | strictly increasing ids are pairwise distinct |
| `App.NextId` | src/App.tsx:23 | the id for an add is 1 on an empty list; on a list with increasing ids it is greater than every existing id |
| `App.MaxId` | src/App.tsx:23 | the largest id of a non-empty list: at least every id and equal to one of them |
| `App.NextIdIsMaxPlusOne` | src/App.tsx:23 | on a list with increasing ids the assigned id (last + 1, or 1 when empty) equals largest id + 1 (or 1 when empty) |
| `App.AddBook` | src/App.tsx:23-24 | one longer with the old list as prefix; the new last record has the form's fields and id 1 on an empty list, otherwise last id + 1; with increasing ids the new id differs from every existing id and ids stay increasing |
| `App.Merge` | src/App.tsx:20 | `{ ...editingBook, ...newBook }` keeps the edited book's id and takes all four fields from the form payload |
| `App.UpdateBook` | src/App.tsx:20 | same length and the same id at every position; records with the edited id get the form's title, author, genre and price; all others are unchanged; with the id absent the list is unchanged; increasing ids stay increasing |
| `App.AddOrUpdateBook` | src/App.tsx:18-25 | in add mode the list grows by one and in edit mode keeps its length; either way increasing ids stay increasing |
| `App.FilterKeepsIdsIncreasing` | src/App.tsx:30 | any filter of a list with increasing ids has increasing ids |
| `App.DeleteBook` | src/App.tsx:29-31 | after delete no record has the id; a record remains iff it was there with another id; every record with another id keeps all its copies |
| `App.DeleteBookSpec` | src/App.tsx:29-31 | the remaining records keep their relative order; an absent id leaves the list unchanged; increasing ids stay increasing |
| `App.AddThenDelete` | src/App.tsx:23-30 | on a list with increasing ids, deleting the id just assigned by add restores the list |
| `App.MatchesFilter` | src/App.tsx:40-41 | two empty criteria match every record; a record matches its own genre and author; a non-empty genre (author) criterion matches only records with exactly that genre (author) |
| `App.FilteredBooks` | src/App.tsx:38-43 | an order-preserving subsequence holding exactly the records whose genre and author equal the non-empty criteria, each with all its copies; with both criteria empty, the whole list |
| `App.GenreColumn` | src/App.tsx:92 | `books.map(book => book.genre)`: one entry per book, the i-th being the i-th book's genre |
| `App.AuthorColumn` | src/App.tsx:104 | `books.map(book => book.author)`: one entry per book, the i-th being the i-th book's author |
| `App.Genres` | src/App.tsx:92 | every genre present in the list, only those, each once, in order of first occurrence |
| `App.Authors` | src/App.tsx:104 | every author present in the list, only those, each once, in order of first occurrence |
| `App.Apply` | src/App.tsx:18-31 | one `setBooks` transition: an add grows the list by one, an update keeps its length, a delete leaves no record with the id; each keeps increasing ids increasing |
| `App.Replay` | src/App.tsx:18-31 | applying a sequence of transitions in order keeps increasing ids increasing |
| `App.ReplayKeepsIdsIncreasing` | src/App.tsx:18-31 | from a list with increasing ids (the empty initial list included), any sequence of adds, updates and deletes yields a list whose ids are strictly increasing and pairwise distinct |

## Left out

- JSX rendering, CSS, the `useState` setters and the `onChange`/`onClick` handlers
  (`src/App.tsx:45-126`) are user interface. The model applies each transition to the list
  directly. `App.Replay` stands in for the sequence of `setBooks` calls.
- Form-field state, the reset of `newBook` after a submit, and the `startEditing`/cancel
  toggling (`src/App.tsx:14-16`, `26`, `33-36`, `81`) are presentation state. Edit mode and
  the payload are parameters of `App.AddOrUpdateBook`.
- Price coercion `parseFloat(e.target.value) || 0` (`src/App.tsx:78`) parses floating point
  inside a UI handler and is not modelled. `price` is a `real` that is only stored and copied.
- Ids are unbounded integers. JavaScript numbers lose integer precision above 2^53, and the
  model does not capture that.
- `Text.Lower`: does not model full Unicode `toLowerCase`, only ASCII case folding.
  Characters outside 'A'..'Z' are left unchanged.
- `Store.Bookstore.GetAllBooks`: does not model that the source returns the live internal
  array, through which a caller could mutate the store. It returns the inventory's value.
- The concrete walk-through `Store.ExampleSession` covers add, edit, delete and a repeated
  delete on literal books. It has no filter step. The filter is covered for all inputs by
  `Store.Bookstore.FilterBooks` and `Store.FieldMatchesSpec`.
