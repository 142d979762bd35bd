/** `Item`, the (book, quantity) pair that inventory entries and cart lines
    share. The class models the Java object and its guarded setters; `Entry`
    is the same pair as a value, which is how the inventory and the cart store
    their lists. */
module Items {
  import opened JavaInt
  import opened Catalog

  datatype Entry = Entry(book: Book, quantity: int32) {

    /** `setQuantity(q)`: a negative quantity is ignored. */
    function SetQuantity(q: int32): (e: Entry)
      ensures e.book == book
      ensures q >= 0 ==> e.quantity == q
      ensures q < 0 ==> e.quantity == quantity
    {
      if q >= 0 then this.(quantity := q) else this
    }
  }

  class Item {
    var book: Book
    var quantity: int32

    /** The constructor stores what it is given; unlike the setter it accepts
        a negative quantity. */
    constructor (book: Book, quantity: int32)
      ensures this.book == book && this.quantity == quantity
    {
      this.book := book;
      this.quantity := quantity;
    }

    function GetBook(): Book
      reads this
    {
      book
    }

    function GetQuantity(): int32
      reads this
    {
      quantity
    }

    /** The pair this item currently holds. */
    function Value(): Entry
      reads this
    {
      Entry(book, quantity)
    }

    method SetBook(book: Book)
      modifies this
      ensures this.book == book
      ensures quantity == old(quantity)
    {
      this.book := book;
    }

    method SetQuantity(q: int32)
      modifies this
      ensures book == old(book)
      ensures q >= 0 ==> quantity == q
      ensures q < 0 ==> quantity == old(quantity)
      ensures Value() == old(Value()).SetQuantity(q)
    {
      if q >= 0 {
        quantity := q;
      }
    }
  }
}
