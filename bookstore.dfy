/**
 * The title-keyed record store of src/Bookstore.tsx: a class that owns an ordered
 * inventory of books, appends with `push`, edits and deletes the FIRST record with a
 * given title, and filters by case-insensitive substring match on genre and author.
 */
module Store {
  import Text
  import Seqs

  /** A book record; `price` is only stored and copied. */
  datatype Book = Book(title: string, author: string, genre: string, price: real)

  /** Some record in `s` carries `title`. */
  predicate HasTitle(s: seq<Book>, title: string)
  {
    exists i :: 0 <= i < |s| && s[i].title == title
  }

  /** `k` is the position of the first record in `s` titled `title`. */
  predicate IsFirst(s: seq<Book>, title: string, k: int)
  {
    0 <= k < |s| && s[k].title == title && forall i :: 0 <= i < k ==> s[i].title != title
  }

  /** `findIndex(book => book.title === title)`: the first matching position, or -1. */
  function FindIndex(s: seq<Book>, title: string): (k: int)
    ensures k == -1 <==> !HasTitle(s, title)
    ensures k != -1 ==> IsFirst(s, title, k)
  {
    if s == [] then -1
    else if s[0].title == title then 0
    else
      var k := FindIndex(s[1..], title);
      assert forall i :: 1 <= i < |s| ==> s[i] == s[1..][i - 1];
      if k == -1 then -1 else k + 1
  }

  /** The inventory after `editBook(title, updated)`. */
  function EditByTitle(s: seq<Book>, title: string, updated: Book): (r: seq<Book>)
    ensures |r| == |s|
    ensures !HasTitle(s, title) ==> r == s
    ensures forall k :: IsFirst(s, title, k) ==>
      r[k] == updated && forall i :: 0 <= i < |s| && i != k ==> r[i] == s[i]
  {
    var k := FindIndex(s, title);
    if k == -1 then s else s[k := updated]
  }

  /** The inventory after `deleteBook(title)`. */
  function DeleteByTitle(s: seq<Book>, title: string): (r: seq<Book>)
    ensures !HasTitle(s, title) ==> r == s
    ensures HasTitle(s, title) ==> |r| == |s| - 1
    ensures forall k :: IsFirst(s, title, k) ==>
      (forall i :: 0 <= i < k ==> r[i] == s[i]) && (forall i :: k < i < |s| ==> r[i - 1] == s[i])
  {
    var k := FindIndex(s, title);
    if k == -1 then s else Seqs.RemoveAt(s, k)
  }

  /**
   * A successful delete removes the first record with that title and no other: the rest
   * keep their order, and later records with the same title survive.
   */
  lemma DeleteByTitleRemovesOnlyFirst(s: seq<Book>, title: string, k: int)
    requires IsFirst(s, title, k)
    ensures Seqs.IsSubseq(DeleteByTitle(s, title), s)
    ensures multiset(DeleteByTitle(s, title)) + multiset{s[k]} == multiset(s)
    ensures forall j :: k < j < |s| && s[j].title == title ==> s[j] in DeleteByTitle(s, title)
  {
    assert FindIndex(s, title) == k;
    Seqs.RemoveAtIsSubseq(s, k);
    Seqs.RemoveAtMultiset(s, k);
  }

  /** `query ? field.toLowerCase().includes(query.toLowerCase()) : true` */
  predicate FieldMatches(field: string, query: string)
    ensures query == "" ==> FieldMatches(field, query)
    ensures query == field ==> FieldMatches(field, query)
    ensures FieldMatches(field, query) ==> query == "" || |query| <= |field|
  {
    if query != "" then Text.Includes(Text.Lower(field), Text.Lower(query)) else true
  }

  /** The predicate `filterBooks(genre, author)` keeps a record by. */
  predicate Matches(b: Book, genre: string, author: string)
    ensures genre == "" && author == "" ==> Matches(b, genre, author)
    ensures genre == b.genre && author == b.author ==> Matches(b, genre, author)
  {
    FieldMatches(b.genre, genre) && FieldMatches(b.author, author)
  }

  /**
   * A non-empty query matches a field exactly when the lower-cased query occurs in the
   * lower-cased field; an empty query matches every field.
   */
  lemma FieldMatchesSpec(field: string, query: string)
    ensures FieldMatches(field, query) <==> query == "" || Text.Occurs(Text.Lower(field), Text.Lower(query))
  {
    Text.IncludesSpec(Text.Lower(field), Text.Lower(query));
  }

  /** Matching ignores the case of the query: a query matches as its lower-cased form does. */
  lemma FieldMatchesIgnoresQueryCase(field: string, query: string)
    ensures FieldMatches(field, query) == FieldMatches(field, Text.Lower(query))
  {
    Text.LowerIdempotent(query);
    assert |Text.Lower(query)| == |query|;
  }

  /** Matching ignores the case of the field as well. */
  lemma FieldMatchesIgnoresFieldCase(field: string, query: string)
    ensures FieldMatches(field, query) == FieldMatches(Text.Lower(field), query)
  {
    Text.LowerIdempotent(field);
  }

  class Bookstore {
    var inventory: seq<Book>

    /** A new store has an empty inventory. */
    constructor ()
      ensures inventory == []
    {
      inventory := [];
    }

    /** `addBook`: append the book at the end; no uniqueness of titles is enforced. */
    method AddBook(book: Book)
      modifies this
      ensures inventory == old(inventory) + [book]
    {
      inventory := inventory + [book];
    }

    /**
     * `editBook`: replace the first record titled `title` in place and report true,
     * or report false and leave the inventory alone when no record has that title.
     */
    method EditBook(title: string, updated: Book) returns (found: bool)
      modifies this
      ensures found <==> HasTitle(old(inventory), title)
      ensures inventory == EditByTitle(old(inventory), title, updated)
    {
      var k := FindIndex(inventory, title);
      if k == -1 {
        return false;
      }
      inventory := inventory[k := updated];
      return true;
    }

    /**
     * `deleteBook`: remove the first record titled `title` and report true,
     * or report false and leave the inventory alone when no record has that title.
     */
    method DeleteBook(title: string) returns (found: bool)
      modifies this
      ensures found <==> HasTitle(old(inventory), title)
      ensures inventory == DeleteByTitle(old(inventory), title)
    {
      var k := FindIndex(inventory, title);
      if k == -1 {
        return false;
      }
      inventory := Seqs.RemoveAt(inventory, k);
      return true;
    }

    /**
     * `filterBooks`: a new sequence of the records matching both criteria, in inventory
     * order. It reads the inventory and changes nothing.
     */
    function FilterBooks(genre: string, author: string): (r: seq<Book>)
      reads this
      ensures Seqs.IsSubseq(r, inventory)
      ensures forall b :: b in r <==> b in inventory && Matches(b, genre, author)
      ensures forall b :: multiset(r)[b] == if Matches(b, genre, author) then multiset(inventory)[b] else 0
      ensures genre == "" && author == "" ==> r == inventory
    {
      var keep := (b: Book) => Matches(b, genre, author);
      Seqs.FilterMultiset(inventory, keep);
      Seqs.FilterIsSubseq(inventory, keep);
      Seqs.FilterMembers(inventory, keep);
      if genre == "" && author == "" then
        Seqs.FilterAll(inventory, keep);
        Seqs.Filter(inventory, keep)
      else
        Seqs.Filter(inventory, keep)
    }

    /** `getAllBooks`: the current inventory, in stored order. */
    function GetAllBooks(): (r: seq<Book>)
      reads this
      ensures r == inventory
    {
      inventory
    }
  }

  /** Editing the title of a book just added, when no earlier record has it, replaces that book. */
  lemma AddThenEdit(s: seq<Book>, b: Book, x: Book)
    requires !HasTitle(s, b.title)
    ensures EditByTitle(s + [b], b.title, x) == s + [x]
  {
  }

  /** Deleting the title of a book just added, when no earlier record has it, undoes the add. */
  lemma AddThenDelete(s: seq<Book>, b: Book)
    requires !HasTitle(s, b.title)
    ensures DeleteByTitle(s + [b], b.title) == s
  {
    assert IsFirst(s + [b], b.title, |s|);
  }

  /**
   * The session of adding two books, editing the second, deleting the first and then
   * deleting it again, with the inventory and the reported flag after each step.
   */
  method ExampleSession()
  {
    var a := Book("A", "X", "SciFi", 10.0);
    var b := Book("B", "Y", "Fantasy", 15.0);
    var b2 := Book("B2", "Y", "Fantasy", 20.0);
    var store := new Bookstore();
    store.AddBook(a);
    store.AddBook(b);
    assert store.GetAllBooks() == [a, b];

    var found := store.EditBook("B", b2);
    assert IsFirst([a, b], "B", 1);
    assert found && store.GetAllBooks() == [a, b2];

    found := store.DeleteBook("A");
    assert IsFirst([a, b2], "A", 0);
    assert found && store.GetAllBooks() == [b2];

    found := store.DeleteBook("A");
    assert !found && store.GetAllBooks() == [b2];
  }
}
