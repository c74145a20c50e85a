/**
 * The id-keyed book list of the App component (src/App.tsx). Every transition builds a
 * new list: add appends with a fresh id, update maps over the list, delete filters it.
 * The edit-mode flag (`editingBook`) and the form payload (`newBook`) are parameters.
 */
module App {
  import Seqs

  /** A book as the App component keeps it; `price` is only stored and copied. */
  datatype Book = Book(id: int, title: string, author: string, genre: string, price: real)

  /** The form payload: a book without its id (`Omit<Book, 'id'>`). */
  datatype Draft = Draft(title: string, author: string, genre: string, price: real)

  /** `Book | null`: the book being edited, if any. */
  datatype Option<T> = None | Some(value: T)

  /** Ids increase strictly along the list. */
  predicate IdsIncreasing(books: seq<Book>)
  {
    forall i, j :: 0 <= i < j < |books| ==> books[i].id < books[j].id
  }

  /** No two records share an id. */
  predicate IdsUnique(books: seq<Book>)
  {
    forall i, j :: 0 <= i < |books| && 0 <= j < |books| && i != j ==> books[i].id != books[j].id
  }

  lemma IncreasingIdsAreUnique(books: seq<Book>)
    requires IdsIncreasing(books)
    ensures IdsUnique(books)
  {
  }

  /** The id the add branch assigns: one past the LAST book's id, or 1 for an empty list. */
  function NextId(books: seq<Book>): (id: int)
    ensures books == [] ==> id == 1
    ensures IdsIncreasing(books) ==> forall i :: 0 <= i < |books| ==> books[i].id < id
  {
    if |books| > 0 then books[|books| - 1].id + 1 else 1
  }

  /** The largest id in a non-empty list. */
  function MaxId(books: seq<Book>): (m: int)
    requires books != []
    ensures forall i :: 0 <= i < |books| ==> books[i].id <= m
    ensures exists i :: 0 <= i < |books| && books[i].id == m
  {
    if |books| == 1 then books[0].id
    else
      var m := MaxId(books[1..]);
      assert forall i :: 1 <= i < |books| ==> books[i] == books[1..][i - 1];
      if books[0].id > m then books[0].id else m
  }

  /** On a list with increasing ids, "last id + 1" is "largest id + 1". */
  lemma NextIdIsMaxPlusOne(books: seq<Book>)
    requires IdsIncreasing(books)
    ensures NextId(books) == if books == [] then 1 else MaxId(books) + 1
  {
  }

  /** The add branch: `[...books, { ...newBook, id }]`. */
  function AddBook(books: seq<Book>, draft: Draft): (r: seq<Book>)
    ensures |r| == |books| + 1 && r[..|books|] == books
    ensures r[|books|] == Book(NextId(books), draft.title, draft.author, draft.genre, draft.price)
    ensures IdsIncreasing(books) ==> IdsIncreasing(r)
    ensures IdsIncreasing(books) ==> forall i :: 0 <= i < |books| ==> books[i].id != r[|books|].id
  {
    var id := NextId(books);
    books + [Book(id, draft.title, draft.author, draft.genre, draft.price)]
  }

  /** `{ ...editingBook, ...newBook }`: the draft's fields over the edited book, which keeps its id. */
  function Merge(editing: Book, draft: Draft): (r: Book)
    ensures r.id == editing.id
    ensures Draft(r.title, r.author, r.genre, r.price) == draft
  {
    Book(editing.id, draft.title, draft.author, draft.genre, draft.price)
  }

  /** The update branch: `books.map(book => book.id === editingBook.id ? merged : book)`. */
  function UpdateBook(books: seq<Book>, editing: Book, draft: Draft): (r: seq<Book>)
    ensures |r| == |books|
    ensures forall i :: 0 <= i < |books| ==> r[i].id == books[i].id
    ensures forall i :: 0 <= i < |books| && books[i].id == editing.id ==>
      r[i].title == draft.title && r[i].author == draft.author &&
      r[i].genre == draft.genre && r[i].price == draft.price
    ensures forall i :: 0 <= i < |books| && books[i].id != editing.id ==> r[i] == books[i]
    ensures (forall i :: 0 <= i < |books| ==> books[i].id != editing.id) ==> r == books
    ensures IdsIncreasing(books) ==> IdsIncreasing(r)
  {
    seq(|books|, i requires 0 <= i < |books| =>
      if books[i].id == editing.id then Merge(editing, draft) else books[i])
  }

  /** `addOrUpdateBook`: update in edit mode, add otherwise. */
  function AddOrUpdateBook(books: seq<Book>, editing: Option<Book>, draft: Draft): (r: seq<Book>)
    ensures editing.None? ==> |r| == |books| + 1
    ensures editing.Some? ==> |r| == |books|
    ensures IdsIncreasing(books) ==> IdsIncreasing(r)
  {
    match editing
    case None => AddBook(books, draft)
    case Some(e) => UpdateBook(books, e, draft)
  }

  /** `deleteBook(id)`: `books.filter(book => book.id !== id)`. */
  function DeleteBook(books: seq<Book>, id: int): (r: seq<Book>)
    ensures forall b :: b in r ==> b.id != id
    ensures forall b :: b in r <==> b in books && b.id != id
    ensures forall b :: multiset(r)[b] == if b.id != id then multiset(books)[b] else 0
  {
    var keep := (b: Book) => b.id != id;
    Seqs.FilterMembers(books, keep);
    Seqs.FilterMultiset(books, keep);
    Seqs.Filter(books, keep)
  }

  /** A filter keeps increasing ids increasing. */
  lemma {:induction false} FilterKeepsIdsIncreasing(books: seq<Book>, p: Book -> bool)
    requires IdsIncreasing(books)
    ensures IdsIncreasing(Seqs.Filter(books, p))
  {
    if books != [] {
      var rest := books[1..];
      assert forall i :: 1 <= i < |books| ==> books[i] == rest[i - 1];
      FilterKeepsIdsIncreasing(rest, p);
      if p(books[0]) {
        var kept := Seqs.Filter(rest, p);
        var r := [books[0]] + kept;
        Seqs.FilterMembers(rest, p);
        forall j | 1 <= j < |r|
          ensures books[0].id < r[j].id
        {
          assert r[j] == kept[j - 1] && r[j] in kept;
          var k :| 0 <= k < |rest| && rest[k] == r[j];
        }
      }
    }
  }

  /**
   * Delete keeps the remaining records in their relative order, changes nothing when the
   * id is absent, and keeps ids increasing.
   */
  lemma {:induction false} DeleteBookSpec(books: seq<Book>, id: int)
    ensures Seqs.IsSubseq(DeleteBook(books, id), books)
    ensures (forall i :: 0 <= i < |books| ==> books[i].id != id) ==> DeleteBook(books, id) == books
    ensures IdsIncreasing(books) ==> IdsIncreasing(DeleteBook(books, id))
  {
    var keep := (b: Book) => b.id != id;
    Seqs.FilterIsSubseq(books, keep);
    if forall i :: 0 <= i < |books| ==> books[i].id != id {
      Seqs.FilterAll(books, keep);
    }
    if IdsIncreasing(books) {
      FilterKeepsIdsIncreasing(books, keep);
    }
  }

  /** On a list with increasing ids, deleting the id a book was just added under undoes the add. */
  lemma AddThenDelete(books: seq<Book>, draft: Draft)
    requires IdsIncreasing(books)
    ensures DeleteBook(AddBook(books, draft), NextId(books)) == books
  {
    var id := NextId(books);
    var keep := (b: Book) => b.id != id;
    var added := Book(id, draft.title, draft.author, draft.genre, draft.price);
    assert AddBook(books, draft) == books + [added];
    Seqs.FilterAppend(books, added, keep);
    forall i | 0 <= i < |books|
      ensures keep(books[i])
    {
      assert books[i].id <= books[|books| - 1].id;
    }
    Seqs.FilterAll(books, keep);
  }

  /** The criterion `filter.genre ? book.genre === filter.genre : true`, and likewise for the author. */
  predicate MatchesFilter(b: Book, genre: string, author: string)
    ensures genre == "" && author == "" ==> MatchesFilter(b, genre, author)
    ensures genre == b.genre && author == b.author ==> MatchesFilter(b, genre, author)
    ensures genre != "" && MatchesFilter(b, genre, author) ==> b.genre == genre
    ensures author != "" && MatchesFilter(b, genre, author) ==> b.author == author
  {
    (if genre != "" then b.genre == genre else true) &&
    (if author != "" then b.author == author else true)
  }

  /** `filteredBooks`: the books matching both criteria exactly, in list order. */
  function FilteredBooks(books: seq<Book>, genre: string, author: string): (r: seq<Book>)
    ensures Seqs.IsSubseq(r, books)
    ensures forall b :: b in r <==> b in books && MatchesFilter(b, genre, author)
    ensures forall b :: multiset(r)[b] == if MatchesFilter(b, genre, author) then multiset(books)[b] else 0
    ensures genre == "" && author == "" ==> r == books
  {
    var keep := (b: Book) => MatchesFilter(b, genre, author);
    Seqs.FilterMultiset(books, keep);
    Seqs.FilterIsSubseq(books, keep);
    Seqs.FilterMembers(books, keep);
    if genre == "" && author == "" then
      Seqs.FilterAll(books, keep);
      Seqs.Filter(books, keep)
    else
      Seqs.Filter(books, keep)
  }

  /** `books.map(book => book.genre)`. */
  function GenreColumn(books: seq<Book>): (r: seq<string>)
    ensures |r| == |books| && forall i :: 0 <= i < |books| ==> r[i] == books[i].genre
  {
    seq(|books|, i requires 0 <= i < |books| => books[i].genre)
  }

  /** `books.map(book => book.author)`. */
  function AuthorColumn(books: seq<Book>): (r: seq<string>)
    ensures |r| == |books| && forall i :: 0 <= i < |books| ==> r[i] == books[i].author
  {
    seq(|books|, i requires 0 <= i < |books| => books[i].author)
  }

  /** The genre options of the filter: every genre present, once, in order of first occurrence. */
  function Genres(books: seq<Book>): (r: seq<string>)
    ensures forall i :: 0 <= i < |books| ==> books[i].genre in r
    ensures forall g :: g in r ==> exists i :: 0 <= i < |books| && books[i].genre == g
    ensures forall i, j :: 0 <= i < j < |r| ==> r[i] != r[j]
    ensures forall k :: 0 <= k < |r| ==> r[k] in GenreColumn(books)
    ensures forall i, j :: 0 <= i < j < |r| ==>
      Seqs.IndexOf(GenreColumn(books), r[i]) < Seqs.IndexOf(GenreColumn(books), r[j])
  {
    var column := GenreColumn(books);
    Seqs.DistinctInFirstOccurrenceOrder(column);
    Seqs.Distinct(column)
  }

  /** The author options of the filter: every author present, once, in order of first occurrence. */
  function Authors(books: seq<Book>): (r: seq<string>)
    ensures forall i :: 0 <= i < |books| ==> books[i].author in r
    ensures forall a :: a in r ==> exists i :: 0 <= i < |books| && books[i].author == a
    ensures forall i, j :: 0 <= i < j < |r| ==> r[i] != r[j]
    ensures forall k :: 0 <= k < |r| ==> r[k] in AuthorColumn(books)
    ensures forall i, j :: 0 <= i < j < |r| ==>
      Seqs.IndexOf(AuthorColumn(books), r[i]) < Seqs.IndexOf(AuthorColumn(books), r[j])
  {
    var column := AuthorColumn(books);
    Seqs.DistinctInFirstOccurrenceOrder(column);
    Seqs.Distinct(column)
  }

  /** A user action that changes the list: submitting the form, or deleting a book. */
  datatype Action = Submit(editing: Option<Book>, draft: Draft) | Delete(id: int)

  /** The list after one action: the `setBooks` call of `addOrUpdateBook` or of `deleteBook`. */
  function Apply(books: seq<Book>, action: Action): (r: seq<Book>)
    ensures action.Submit? && action.editing.None? ==> |r| == |books| + 1
    ensures action.Submit? && action.editing.Some? ==> |r| == |books|
    ensures action.Delete? ==> forall b :: b in r ==> b.id != action.id
    ensures IdsIncreasing(books) ==> IdsIncreasing(r)
  {
    match action
    case Submit(editing, draft) => AddOrUpdateBook(books, editing, draft)
    case Delete(id) =>
      DeleteBookSpec(books, id);
      DeleteBook(books, id)
  }

  /** The list after a sequence of actions, applied in order. */
  function Replay(books: seq<Book>, actions: seq<Action>): (r: seq<Book>)
    ensures IdsIncreasing(books) ==> IdsIncreasing(r)
    decreases |actions|
  {
    if actions == [] then books else Replay(Apply(books, actions[0]), actions[1..])
  }

  /**
   * Every list the component can reach from the initial empty list, by any sequence of adds,
   * updates and deletes, has strictly increasing and hence pairwise distinct ids.
   */
  lemma {:induction false} ReplayKeepsIdsIncreasing(books: seq<Book>, actions: seq<Action>)
    requires IdsIncreasing(books)
    ensures IdsIncreasing(Replay(books, actions))
    ensures IdsUnique(Replay(books, actions))
    decreases |actions|
  {
    IncreasingIdsAreUnique(Replay(books, actions));
  }
}
