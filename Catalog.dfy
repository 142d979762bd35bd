/** Books and their authors. `Book` is a plain data holder, so it is a value
    here; `Author` keeps a bibliography list that it changes in place, so it is
    a class. They refer to each other, so they share one module. */
module Catalog {

  /** The identity of a Java `Book` object. `Book` does not override `equals`,
      so two books are equal exactly when they are the same object. */
  type BookRef = nat

  /** A book. The ISBN is an opaque key compared by string equality, and the
      price is an ordered key (cents). */
  datatype Book = Book(
    ref: BookRef,
    isbn: string,
    title: string,
    authors: seq<Author>,
    publisher: string,
    genre: string,
    price: int)

  /** `a.equals(b)` on two books: reference identity. */
  predicate SameBook(a: Book, b: Book) {
    a.ref == b.ref
  }

  /** An author and the list of works written by them. */
  class Author {
    const firstName: string
    const lastName: string
    var bibliography: seq<Book>

    constructor (firstName: string, lastName: string)
      ensures this.firstName == firstName && this.lastName == lastName
      ensures bibliography == []
    {
      this.firstName := firstName;
      this.lastName := lastName;
      bibliography := [];
    }

    function GetBibliography(): seq<Book>
      reads this
    {
      bibliography
    }

    /** `ArrayList.add`: the book goes at the end. */
    method AddBook(book: Book)
      modifies this
      ensures bibliography == old(bibliography) + [book]
      ensures |bibliography| == |old(bibliography)| + 1
    {
      bibliography := bibliography + [book];
    }

    /** `ArrayList.remove(Object)`: only the first element equal to the book goes. */
    method RemoveBook(book: Book)
      modifies this
      ensures bibliography == RemoveFirst(old(bibliography), book)
    {
      bibliography := RemoveFirst(bibliography, book);
    }
  }

  /** The list without its first element that is the same object as `b`. */
  function RemoveFirst(s: seq<Book>, b: Book): (r: seq<Book>)
  {
    if s == [] then []
    else if SameBook(s[0], b) then s[1..]
    else [s[0]] + RemoveFirst(s[1..], b)
  }

  /** Removing a book that occurs cuts out exactly its first occurrence, so
      the list is one shorter and keeps the order of the rest. */
  lemma {:induction false} RemoveFirstPresent(s: seq<Book>, b: Book, i: nat)
    requires i < |s| && SameBook(s[i], b)
    requires forall j :: 0 <= j < i ==> !SameBook(s[j], b)
    ensures RemoveFirst(s, b) == s[..i] + s[i + 1..]
    ensures |RemoveFirst(s, b)| == |s| - 1
  {
    if i > 0 {
      RemoveFirstPresent(s[1..], b, i - 1);
      assert s[1..][..i - 1] == s[1..i];
      assert s[1..][i..] == s[i + 1..];
      assert s[..i] == [s[0]] + s[1..i];
    }
  }

  /** Removing a book that does not occur leaves the list as it was. */
  lemma {:induction false} RemoveFirstAbsent(s: seq<Book>, b: Book)
    requires forall j :: 0 <= j < |s| ==> !SameBook(s[j], b)
    ensures RemoveFirst(s, b) == s
  {
    if s != [] {
      RemoveFirstAbsent(s[1..], b);
    }
  }
}
