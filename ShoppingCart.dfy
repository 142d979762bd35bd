/** The shopping cart: a list of cart lines that draws stock from an
    inventory. Adding matches a line by ISBN and takes the stock from the
    inventory; removing matches a line by book identity and never gives the
    stock back. */
module Cart {
  import opened Wrappers
  import opened JavaInt
  import opened Catalog
  import opened Items
  import opened Seqs
  import opened Stock

  /** The exact number of copies in a list of lines (no wrap-around). */
  function Sum(lines: seq<Entry>): int {
    if lines == [] then 0 else Sum(lines[..|lines| - 1]) + lines[|lines| - 1].quantity as int
  }

  /** The cart lines, the inventory ledger and the returned value after one
      `addToCart` call. */
  datatype AddResult = AddResult(lines: seq<Entry>, ledger: Ledger, outcome: Outcome<bool>)

  /** `addToCart(book, q)` on the cart `lines` drawing from `ledger`. The
      inventory lookup happens before the quantity check; a line with the
      book's ISBN whose ISBN the inventory does not stock makes the loop
      dereference null. */
  function CartAdd(lines: seq<Entry>, ledger: Ledger, book: Book, q: int32): AddResult {
    var inv := FirstIndex(ledger, HasIsbn(book.isbn));
    if q <= 0 then AddResult(lines, ledger, Returned(false))
    else match FirstIndex(lines, HasIsbn(book.isbn))
      case Some(j) =>
        if inv.None? then AddResult(lines, ledger, Thrown(NullPointer))
        else if ledger[inv.value].quantity >= q then
          AddResult(lines[j := lines[j].SetQuantity(Add(lines[j].quantity, q))],
                    Reduced(ledger, book.isbn, q), Returned(true))
        else AddResult(lines, ledger, Returned(false))
      case None =>
        if inv.Some? && ledger[inv.value].quantity >= q then
          AddResult(lines + [Entry(book, q)], Reduced(ledger, book.isbn, q), Returned(true))
        else AddResult(lines, ledger, Returned(false))
  }

  /** The cart lines after `removeFromCart(book, q)`: the same list operation
      as removing from the inventory (first line of that book object holding
      at least `q`, deleted when it reaches zero). */
  function CartRemoved(lines: seq<Entry>, book: Book, q: int32): seq<Entry> {
    Removed(lines, Entry(book, q))
  }

  class ShoppingCart {
    var booksInCart: seq<Entry>
    var inventory: Inventory

    /** A new cart is empty and shops from the given inventory. */
    constructor (inventory: Inventory)
      ensures booksInCart == [] && this.inventory == inventory
    {
      booksInCart := [];
      this.inventory := inventory;
    }

    function GetBooksInCart(): seq<Entry>
      reads this
    {
      booksInCart
    }

    method AddToCart(book: Book, quantity: int32) returns (r: Outcome<bool>)
      modifies this, inventory
      ensures inventory == old(inventory)
      ensures var res := CartAdd(old(booksInCart), old(inventory.availableBooks), book, quantity);
              booksInCart == res.lines && inventory.availableBooks == res.ledger && r == res.outcome
    {
      var inventoryItem := inventory.FindAvailableBook(book.isbn);
      if quantity <= 0 {
        return Returned(false);
      }
      var bookAdded := false;
      var itemAdded := false;
      var i := 0;
      while i < |booksInCart|
        invariant 0 <= i <= |booksInCart|
        invariant booksInCart == old(booksInCart)
        invariant inventory.availableBooks == old(inventory.availableBooks)
        invariant forall k :: 0 <= k < i && HasIsbn(book.isbn)(booksInCart[k]) ==>
                    inventoryItem.Some? && inventory.availableBooks[inventoryItem.value].quantity < quantity
      {
        if booksInCart[i].book.isbn == book.isbn {
          if inventoryItem.None? {
            assert FirstIndex(booksInCart, HasIsbn(book.isbn)) == Some(i) by {
              assert HasIsbn(book.isbn)(booksInCart[i]);
            }
            return Thrown(NullPointer);
          }
          if inventory.availableBooks[inventoryItem.value].quantity >= quantity {
            assert FirstIndex(booksInCart, HasIsbn(book.isbn)) == Some(i) by {
              assert HasIsbn(book.isbn)(booksInCart[i]);
            }
            var line := booksInCart[i];
            booksInCart := booksInCart[i := line.SetQuantity(Add(line.quantity, quantity))];
            inventory.ReduceFromInventory(book, quantity);
            bookAdded := true;
            itemAdded := true;
            break;
          }
        }
        i := i + 1;
      }
      if !itemAdded {
        if inventoryItem.Some? && inventory.availableBooks[inventoryItem.value].quantity >= quantity {
          booksInCart := booksInCart + [Entry(book, quantity)];
          inventory.ReduceFromInventory(book, quantity);
          bookAdded := true;
        }
      }
      r := Returned(bookAdded);
    }

    /** Only the cart changes. The source's "put back into inventory" loop
        compares each inventory item with a cart item by object identity, and
        an inventory item is never the same object as a cart item, so it
        never restores any stock; it is therefore not written out here. */
    method RemoveFromCart(book: Book, quantity: int32) returns (removed: bool)
      modifies this
      ensures removed == RemoveSucceeds(old(booksInCart), Entry(book, quantity))
      ensures booksInCart == CartRemoved(old(booksInCart), book, quantity)
      ensures inventory == old(inventory) && inventory.availableBooks == old(inventory.availableBooks)
    {
      removed := false;
      ghost var item := Entry(book, quantity);
      if quantity > 0 {
        var i := 0;
        while i < |booksInCart|
          invariant 0 <= i <= |booksInCart|
          invariant booksInCart == old(booksInCart)
          invariant forall k :: 0 <= k < i ==> !CanSupply(item)(booksInCart[k])
        {
          var line := booksInCart[i];
          if SameBook(line.book, book) && quantity <= line.quantity {
            assert CanSupply(item)(line);
            line := line.SetQuantity((line.quantity as int - quantity as int) as int32);
            if line.quantity == 0 {
              booksInCart := WithoutEntry(booksInCart, i);
            } else {
              booksInCart := booksInCart[i := line];
            }
            removed := true;
            break;
          }
          i := i + 1;
        }
      }
    }

    method Checkout()
      modifies this
      ensures booksInCart == []
      ensures inventory == old(inventory)
    {
      booksInCart := [];
    }

    /** The running total in an `int`, which wraps around like Java's. */
    method GetTotalQuantityOfCart() returns (total: int32)
      ensures total == Wrap(Sum(booksInCart))
    {
      total := 0;
      var i := 0;
      while i < |booksInCart|
        invariant 0 <= i <= |booksInCart|
        invariant total == Wrap(Sum(booksInCart[..i]))
      {
        assert booksInCart[..i + 1][..i] == booksInCart[..i];
        AddOfWrap(Sum(booksInCart[..i]), booksInCart[i].quantity);
        total := Add(total, booksInCart[i].quantity);
        i := i + 1;
      }
      assert booksInCart[..i] == booksInCart;
    }
  }

  /** Changing one line changes the sum by the difference. */
  lemma {:induction false} SumUpdate(lines: seq<Entry>, j: nat, e: Entry)
    requires j < |lines|
    ensures Sum(lines[j := e]) == Sum(lines) - lines[j].quantity as int + e.quantity as int
  {
    var n := |lines|;
    if j == n - 1 {
      assert lines[j := e][..n - 1] == lines[..n - 1];
    } else {
      assert lines[j := e][..n - 1] == lines[..n - 1][j := e];
      SumUpdate(lines[..n - 1], j, e);
    }
  }

  /** Deleting a line removes its quantity from the sum. */
  lemma {:induction false} SumWithout(lines: seq<Entry>, j: nat)
    requires j < |lines|
    ensures Sum(WithoutEntry(lines, j)) == Sum(lines) - lines[j].quantity as int
  {
    var n := |lines|;
    if j == n - 1 {
      assert WithoutEntry(lines, j) == lines[..n - 1];
    } else {
      assert WithoutEntry(lines, j) == WithoutEntry(lines[..n - 1], j) + [lines[n - 1]];
      assert WithoutEntry(lines, j)[..n - 2] == WithoutEntry(lines[..n - 1], j);
      SumWithout(lines[..n - 1], j);
    }
  }

  lemma SumAppend(lines: seq<Entry>, e: Entry)
    ensures Sum(lines + [e]) == Sum(lines) + e.quantity as int
  {
    assert (lines + [e])[..|lines|] == lines;
  }

  /** `addToCart` succeeds exactly when the quantity is positive and the
      inventory has at least that many copies under the book's ISBN; it
      throws exactly when the inventory does not stock the ISBN but the cart
      already has a line with it; whenever it does not succeed, the cart and
      the inventory are left as they were. */
  lemma CartAddOutcome(lines: seq<Entry>, ledger: Ledger, book: Book, q: int32)
    ensures var res := CartAdd(lines, ledger, book, q);
            (res.outcome == Returned(true) <==> 0 < q as int <= StockOfIsbn(ledger, book.isbn)) &&
            (res.outcome.Thrown? <==>
               q > 0 && FirstIndex(ledger, HasIsbn(book.isbn)).None? && FirstIndex(lines, HasIsbn(book.isbn)).Some?) &&
            (res.outcome != Returned(true) ==> res.lines == lines && res.ledger == ledger)
  {
  }

  /** A successful add puts the book in the cart (merged into the first line
      with its ISBN, or appended as a new line of exactly `q` copies), raises
      the cart's total by `q` when no line overflows, lowers the inventory's
      stock for that ISBN by `q`, and leaves every other ISBN's stock alone. */
  lemma CartAddTotals(lines: seq<Entry>, ledger: Ledger, book: Book, q: int32, isbn: string)
    requires NonNegative(lines)
    requires forall k :: 0 <= k < |lines| ==> lines[k].quantity as int + q as int <= MAX
    requires CartAdd(lines, ledger, book, q).outcome == Returned(true)
    ensures Sum(CartAdd(lines, ledger, book, q).lines) == Sum(lines) + q as int
    ensures FirstIndex(lines, HasIsbn(book.isbn)).None? ==>
              CartAdd(lines, ledger, book, q).lines == lines + [Entry(book, q)]
    ensures FirstIndex(lines, HasIsbn(book.isbn)).Some? ==>
              var j := FirstIndex(lines, HasIsbn(book.isbn)).value;
              CartAdd(lines, ledger, book, q).lines ==
                lines[j := Entry(lines[j].book, (lines[j].quantity as int + q as int) as int32)]
    ensures StockOfIsbn(CartAdd(lines, ledger, book, q).ledger, isbn) ==
              if isbn == book.isbn then StockOfIsbn(ledger, isbn) - q as int else StockOfIsbn(ledger, isbn)
  {
    if FirstIndex(lines, HasIsbn(book.isbn)).Some? {
      MergedLine(lines, ledger, book, q);
    } else {
      AppendedLine(lines, ledger, book, q);
    }
    CartAddStock(lines, ledger, book, q, isbn);
  }

  /** A successful add onto an existing line raises exactly that line by
      `q` when the sum fits in an `int`, leaves every other line alone, and
      so raises the cart's total by `q`. */
  lemma MergedLine(lines: seq<Entry>, ledger: Ledger, book: Book, q: int32)
    requires FirstIndex(lines, HasIsbn(book.isbn)).Some?
    requires var j := FirstIndex(lines, HasIsbn(book.isbn)).value;
             0 <= lines[j].quantity as int && lines[j].quantity as int + q as int <= MAX
    requires CartAdd(lines, ledger, book, q).outcome == Returned(true)
    ensures var j := FirstIndex(lines, HasIsbn(book.isbn)).value;
            CartAdd(lines, ledger, book, q).lines ==
              lines[j := Entry(lines[j].book, (lines[j].quantity as int + q as int) as int32)]
    ensures Sum(CartAdd(lines, ledger, book, q).lines) == Sum(lines) + q as int
  {
    var j := FirstIndex(lines, HasIsbn(book.isbn)).value;
    var sum := Add(lines[j].quantity, q);
    assert sum as int == lines[j].quantity as int + q as int;
    var inv := FirstIndex(ledger, HasIsbn(book.isbn));
    assert q > 0 && inv.Some? && ledger[inv.value].quantity >= q;
    assert CartAdd(lines, ledger, book, q).lines == lines[j := lines[j].SetQuantity(sum)];
    SumUpdate(lines, j, lines[j].SetQuantity(sum));
    var merged := Entry(lines[j].book, (lines[j].quantity as int + q as int) as int32);
    assert sum == merged.quantity;
    assert lines[j].SetQuantity(sum) == merged;
  }

  /** A successful add of a book whose ISBN has no line yet appends exactly
      one new line of `q` copies, and so raises the cart's total by `q`. */
  lemma AppendedLine(lines: seq<Entry>, ledger: Ledger, book: Book, q: int32)
    requires FirstIndex(lines, HasIsbn(book.isbn)).None?
    requires CartAdd(lines, ledger, book, q).outcome == Returned(true)
    ensures CartAdd(lines, ledger, book, q).lines == lines + [Entry(book, q)]
    ensures Sum(CartAdd(lines, ledger, book, q).lines) == Sum(lines) + q as int
  {
    SumAppend(lines, Entry(book, q));
  }

  /** A successful add lowers the inventory's stock for the book's ISBN by
      `q` and leaves every other ISBN's stock alone. */
  lemma CartAddStock(lines: seq<Entry>, ledger: Ledger, book: Book, q: int32, isbn: string)
    requires CartAdd(lines, ledger, book, q).outcome == Returned(true)
    ensures StockOfIsbn(CartAdd(lines, ledger, book, q).ledger, isbn) ==
              if isbn == book.isbn then StockOfIsbn(ledger, isbn) - q as int else StockOfIsbn(ledger, isbn)
  {
    CartAddOutcome(lines, ledger, book, q);
    assert CartAdd(lines, ledger, book, q).ledger == Reduced(ledger, book.isbn, q);
    ReducedStock(ledger, book.isbn, q, isbn);
  }

  /** Adding keeps every quantity in the cart and in the inventory
      non-negative. */
  lemma CartAddNonNegative(lines: seq<Entry>, ledger: Ledger, book: Book, q: int32)
    requires NonNegative(lines) && NonNegative(ledger)
    ensures NonNegative(CartAdd(lines, ledger, book, q).lines)
    ensures NonNegative(CartAdd(lines, ledger, book, q).ledger)
  {
    CartAddOutcome(lines, ledger, book, q);
    if CartAdd(lines, ledger, book, q).outcome == Returned(true) {
      ReducedNonNegative(ledger, book.isbn, q);
    }
  }

  /** A successful remove lowers the cart's total by exactly `q`: the first
      line of that book holding at least `q` copies is decremented, and
      deleted when nothing is left in it. Otherwise the cart is unchanged. */
  lemma CartRemovedTotal(lines: seq<Entry>, book: Book, q: int32)
    ensures !RemoveSucceeds(lines, Entry(book, q)) ==> CartRemoved(lines, book, q) == lines
    ensures RemoveSucceeds(lines, Entry(book, q)) ==>
              Sum(CartRemoved(lines, book, q)) == Sum(lines) - q as int
    ensures RemoveSucceeds(lines, Entry(book, q)) ==>
              var j := FirstIndex(lines, CanSupply(Entry(book, q))).value;
              if lines[j].quantity == q then CartRemoved(lines, book, q) == WithoutEntry(lines, j)
              else CartRemoved(lines, book, q) == lines[j := Entry(lines[j].book, lines[j].quantity - q)]
  {
    if RemoveSucceeds(lines, Entry(book, q)) {
      var j := FirstIndex(lines, CanSupply(Entry(book, q))).value;
      var rest := Entry(lines[j].book, lines[j].quantity - q);
      assert lines[j].SetQuantity((lines[j].quantity as int - q as int) as int32) == rest;
      if lines[j].quantity == q {
        SumWithout(lines, j);
      } else {
        SumUpdate(lines, j, rest);
      }
    }
  }

  /** Removing keeps every quantity in the cart non-negative. */
  lemma CartRemovedNonNegative(lines: seq<Entry>, book: Book, q: int32)
    requires NonNegative(lines)
    ensures NonNegative(CartRemoved(lines, book, q))
  {
    if RemoveSucceeds(lines, Entry(book, q)) {
      var j := FirstIndex(lines, CanSupply(Entry(book, q))).value;
      var r := CartRemoved(lines, book, q);
      if lines[j].quantity != q {
        assert forall k :: 0 <= k < |r| ==> r[k] == lines[k] || k == j;
      }
    }
  }

  /** Reducing an entry by at most its stock takes exactly `q` copies out of
      the ledger. */
  lemma ReducedSum(ledger: Ledger, isbn: string, q: int32)
    requires 0 <= q as int <= StockOfIsbn(ledger, isbn)
    ensures Sum(Reduced(ledger, isbn, q)) == Sum(ledger) - q as int
  {
    match FirstIndex(ledger, HasIsbn(isbn))
    case None =>
    case Some(i) =>
      SumUpdate(ledger, i, ledger[i].SetQuantity(Wrap(ledger[i].quantity as int - q as int)));
  }

  /** Every line could still take `h` more copies without overflowing. */
  ghost predicate Headroom(lines: seq<Entry>, h: int) {
    forall k :: 0 <= k < |lines| ==> lines[k].quantity as int + h <= MAX
  }

  /** `addToCart` moves copies from the inventory to the cart and creates
      none: the copies in cart and inventory together stay the same, and the
      cart gains `q` copies exactly when the call succeeds. */
  lemma CartAddConserves(lines: seq<Entry>, ledger: Ledger, book: Book, q: int32)
    requires NonNegative(lines) && Headroom(lines, q as int)
    ensures var res := CartAdd(lines, ledger, book, q);
            Sum(res.lines) + Sum(res.ledger) == Sum(lines) + Sum(ledger) &&
            Sum(res.lines) == Sum(lines) + (if res.outcome == Returned(true) then q as int else 0)
  {
    CartAddOutcome(lines, ledger, book, q);
    if CartAdd(lines, ledger, book, q).outcome == Returned(true) {
      CartAddTotals(lines, ledger, book, q, book.isbn);
      ReducedSum(ledger, book.isbn, q);
    }
  }

  /** A successful add of `q` copies leaves every line room for `h - q` more. */
  lemma CartAddHeadroom(lines: seq<Entry>, ledger: Ledger, book: Book, q: int32, h: int)
    requires Headroom(lines, h) && 0 <= q as int <= h <= MAX
    ensures Headroom(CartAdd(lines, ledger, book, q).lines, h - q as int)
  {
    CartAddOutcome(lines, ledger, book, q);
    var r := CartAdd(lines, ledger, book, q).lines;
    if CartAdd(lines, ledger, book, q).outcome == Returned(true) {
      match FirstIndex(lines, HasIsbn(book.isbn))
      case Some(j) =>
        var merged := lines[j].SetQuantity(Add(lines[j].quantity, q));
        assert lines[j].quantity as int + h <= MAX;
        assert merged.quantity as int <= lines[j].quantity as int + q as int;
        assert r == lines[j := merged];
      case None =>
        assert r == lines + [Entry(book, q)];
        assert forall k :: 0 <= k < |r| ==> (k < |lines| && r[k] == lines[k]) || r[k] == Entry(book, q);
    }
  }

  /** Removing from the cart never puts copies back: after a successful
      remove of `q` copies, cart and inventory together hold `q` copies
      fewer than before. */
  lemma CartRemoveLosesCopies(lines: seq<Entry>, ledger: Ledger, book: Book, q: int32)
    requires RemoveSucceeds(lines, Entry(book, q))
    ensures Sum(CartRemoved(lines, book, q)) + Sum(ledger) == Sum(lines) + Sum(ledger) - q as int
  {
    CartRemovedTotal(lines, book, q);
  }
}
