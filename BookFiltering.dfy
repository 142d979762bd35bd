/** List utilities over inventory items and books: order-preserving map,
    filter and distinct, as stream pipelines compute them. */
module BookFiltering {
  import opened Catalog
  import opened Items
  import opened Seqs

  /** `createBookList`: the items' books, same length and order. */
  function CreateBookList(items: seq<Entry>): (r: seq<Book>)
    ensures |r| == |items|
    ensures forall i :: 0 <= i < |items| ==> r[i] == items[i].book
  {
    Map(items, (e: Entry) => e.book)
  }

  function InStock(e: Entry): bool {
    e.quantity > 0
  }

  /** `getItemsInStock`: the items with a positive quantity. Items holding 0
      copies are dropped too. */
  function GetItemsInStock(items: seq<Entry>): (r: seq<Entry>)
    ensures |r| <= |items|
    ensures forall i :: 0 <= i < |r| ==> r[i] in items && r[i].quantity > 0
    ensures forall i :: 0 <= i < |items| && items[i].quantity > 0 ==> items[i] in r
  {
    Filter(items, InStock)
  }

  /** Keeping the original order: selecting from a concatenation is
      selecting from each part, and a single item stays exactly when it has
      stock. */
  lemma GetItemsInStockOrder(a: seq<Entry>, b: seq<Entry>, e: Entry)
    ensures GetItemsInStock(a + b) == GetItemsInStock(a) + GetItemsInStock(b)
    ensures GetItemsInStock([e]) == if e.quantity > 0 then [e] else []
  {
    FilterAppend(a, b, InStock);
    assert [e][1..] == [];
  }

  /** Every author of every book, in book order and then list order
      (`flatMap` over the author lists). */
  function AllAuthorsOf(books: seq<Book>): (r: seq<Author>)
    ensures forall i, k :: 0 <= i < |books| && 0 <= k < |books[i].authors| ==> books[i].authors[k] in r
    ensures forall j :: 0 <= j < |r| ==> exists i :: 0 <= i < |books| && r[j] in books[i].authors
  {
    if books == [] then []
    else
      var rest := AllAuthorsOf(books[1..]);
      assert forall j :: 0 <= j < |rest| ==> exists i :: 1 <= i < |books| && rest[j] in books[i].authors by {
        forall j | 0 <= j < |rest|
          ensures exists i :: 1 <= i < |books| && rest[j] in books[i].authors
        {
          var i :| 0 <= i < |books[1..]| && rest[j] in books[1..][i].authors;
          assert books[1..][i] == books[i + 1];
        }
      }
      assert forall i :: 1 <= i < |books| ==> books[i] == books[1..][i - 1];
      books[0].authors + rest
  }

  /** `flatMap` keeps the order of the books. */
  lemma {:induction false} AllAuthorsAppend(a: seq<Book>, b: seq<Book>)
    ensures AllAuthorsOf(a + b) == AllAuthorsOf(a) + AllAuthorsOf(b)
  {
    if a == [] {
      assert a + b == b;
    } else {
      assert (a + b)[1..] == a[1..] + b;
      AllAuthorsAppend(a[1..], b);
    }
  }

  /** The full names of all authors, in order, duplicates included. */
  function AuthorNames(books: seq<Book>, fullName: Author -> string): seq<string> {
    Map(AllAuthorsOf(books), fullName)
  }

  /** `getAllAuthors`: the full names of all authors, each once, in order of
      first occurrence, and no other name. `Author.getFullName` is not part of
      this model, so the naming function is a parameter. */
  function GetAllAuthors(books: seq<Book>, fullName: Author -> string): (r: seq<string>)
    ensures forall i, j :: 0 <= i < j < |r| ==> r[i] != r[j]
    ensures forall i, k :: 0 <= i < |books| && 0 <= k < |books[i].authors| ==>
              fullName(books[i].authors[k]) in r
    ensures forall j :: 0 <= j < |r| ==> r[j] in AuthorNames(books, fullName)
    ensures forall i, j :: 0 <= i < j < |r| ==>
              Pos(AuthorNames(books, fullName), r[i]) < Pos(AuthorNames(books, fullName), r[j])
  {
    var all := AllAuthorsOf(books);
    var names := AuthorNames(books, fullName);
    var r := Distinct(names);
    forall i, k | 0 <= i < |books| && 0 <= k < |books[i].authors|
      ensures fullName(books[i].authors[k]) in r
    {
      var a := books[i].authors[k];
      assert a in all;
      var m :| 0 <= m < |all| && all[m] == a;
      assert names[m] == fullName(a);
    }
    r
  }

  function Genres(books: seq<Book>): seq<string> {
    Map(books, (b: Book) => b.genre)
  }

  function Publishers(books: seq<Book>): seq<string> {
    Map(books, (b: Book) => b.publisher)
  }

  /** `getAllGenres`: every genre that occurs, once each, in order of first
      occurrence, and nothing else. */
  function GetAllGenres(books: seq<Book>): (r: seq<string>)
    ensures |r| <= |books|
    ensures forall i, j :: 0 <= i < j < |r| ==> r[i] != r[j]
    ensures forall i :: 0 <= i < |books| ==> books[i].genre in r
    ensures forall j :: 0 <= j < |r| ==> exists i :: 0 <= i < |books| && r[j] == books[i].genre
    ensures forall i, j :: 0 <= i < j < |r| ==> Pos(Genres(books), r[i]) < Pos(Genres(books), r[j])
  {
    var g := Genres(books);
    assert forall j :: 0 <= j < |g| ==> g[j] == books[j].genre;
    Distinct(g)
  }

  /** `getAllPublishers`: every publisher that occurs, once each, in order of
      first occurrence, and nothing else. */
  function GetAllPublishers(books: seq<Book>): (r: seq<string>)
    ensures |r| <= |books|
    ensures forall i, j :: 0 <= i < j < |r| ==> r[i] != r[j]
    ensures forall i :: 0 <= i < |books| ==> books[i].publisher in r
    ensures forall j :: 0 <= j < |r| ==> exists i :: 0 <= i < |books| && r[j] == books[i].publisher
    ensures forall i, j :: 0 <= i < j < |r| ==> Pos(Publishers(books), r[i]) < Pos(Publishers(books), r[j])
  {
    var p := Publishers(books);
    assert forall j :: 0 <= j < |p| ==> p[j] == books[j].publisher;
    Distinct(p)
  }
}
