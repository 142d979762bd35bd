/** The stock ledger: a list of (book, quantity) entries. Adding merges into
    the entry of the same book object or appends; removing decrements the first
    entry of that book that holds enough and deletes it when it reaches zero. */
module Stock {
  import opened Wrappers
  import opened JavaInt
  import opened Catalog
  import opened Items
  import opened Seqs

  type Ledger = seq<Entry>

  /** The entry is for the same book object as `b` (`Book.equals`). */
  function IsBook(b: Book): Entry -> bool {
    (e: Entry) => SameBook(e.book, b)
  }

  /** The entry is for the same book as `item` and holds at least its quantity. */
  function CanSupply(item: Entry): Entry -> bool {
    (e: Entry) => SameBook(e.book, item.book) && item.quantity <= e.quantity
  }

  /** The entry's book has the given ISBN. */
  function HasIsbn(isbn: string): Entry -> bool {
    (e: Entry) => e.book.isbn == isbn
  }

  /** At most one entry per book object. */
  ghost predicate UniqueBooks(ledger: Ledger) {
    forall i, j :: 0 <= i < j < |ledger| ==> !SameBook(ledger[i].book, ledger[j].book)
  }

  ghost predicate NonNegative(ledger: Ledger) {
    forall i :: 0 <= i < |ledger| ==> ledger[i].quantity >= 0
  }

  /** The invariant that adding and removing preserve. */
  ghost predicate Valid(ledger: Ledger) {
    UniqueBooks(ledger) && NonNegative(ledger)
  }

  /** How many copies of `b` the ledger records (0 when it has no entry). */
  function StockOf(ledger: Ledger, b: Book): int {
    match FirstIndex(ledger, IsBook(b))
    case None => 0
    case Some(i) => ledger[i].quantity as int
  }

  /** The ledger after `addItemToInventory(item)`. */
  function Added(ledger: Ledger, item: Entry): Ledger {
    if item.quantity <= 0 then ledger
    else match FirstIndex(ledger, IsBook(item.book))
      case Some(i) => ledger[i := ledger[i].SetQuantity(Add(ledger[i].quantity, item.quantity))]
      case None => ledger + [item]
  }

  /** Whether `removeItemFromInventory(item)` reports success. */
  function RemoveSucceeds(ledger: Ledger, item: Entry): bool {
    item.quantity > 0 && FirstIndex(ledger, CanSupply(item)).Some?
  }

  /** The ledger after `removeItemFromInventory(item)`. */
  function Removed(ledger: Ledger, item: Entry): Ledger {
    if item.quantity <= 0 then ledger
    else match FirstIndex(ledger, CanSupply(item))
      case None => ledger
      case Some(i) =>
        // item.quantity <= ledger[i].quantity, so the difference is an int
        var rest := ledger[i].SetQuantity((ledger[i].quantity as int - item.quantity as int) as int32);
        if rest.quantity == 0 then WithoutEntry(ledger, i) else ledger[i := rest]
  }

  /** `list.remove(entry)` on the entry at index `i`. */
  function WithoutEntry(ledger: Ledger, i: nat): (r: Ledger)
    requires i < |ledger|
    ensures |r| == |ledger| - 1
    ensures forall k :: 0 <= k < |r| ==> r[k] == ledger[if k < i then k else k + 1]
  {
    ledger[..i] + ledger[i + 1..]
  }

  /** In a ledger with one entry per book, a book's stock is the quantity of
      its entry, wherever that entry is. */
  lemma StockAt(ledger: Ledger, b: Book, j: nat)
    requires UniqueBooks(ledger) && j < |ledger| && SameBook(ledger[j].book, b)
    ensures FirstIndex(ledger, IsBook(b)) == Some(j)
    ensures StockOf(ledger, b) == ledger[j].quantity as int
  {
    assert IsBook(b)(ledger[j]);
  }

  /** A book with no entry has stock 0. */
  lemma StockOfAbsent(ledger: Ledger, b: Book)
    requires forall j :: 0 <= j < |ledger| ==> !SameBook(ledger[j].book, b)
    ensures StockOf(ledger, b) == 0
  {
    assert forall j :: 0 <= j < |ledger| ==> !IsBook(b)(ledger[j]);
  }

  /** A non-positive quantity is rejected and nothing changes; otherwise the
      book's entry grows by the quantity (same length), or a new entry is
      appended at the end when the book is not stocked. */
  lemma AddedShape(ledger: Ledger, item: Entry)
    ensures item.quantity <= 0 ==> Added(ledger, item) == ledger
    ensures item.quantity > 0 && (forall j :: 0 <= j < |ledger| ==> !SameBook(ledger[j].book, item.book)) ==>
              Added(ledger, item) == ledger + [item]
    ensures item.quantity > 0 && (exists j :: 0 <= j < |ledger| && SameBook(ledger[j].book, item.book)) ==>
              |Added(ledger, item)| == |ledger|
  {
    if item.quantity > 0 && forall j :: 0 <= j < |ledger| ==> !SameBook(ledger[j].book, item.book) {
      assert forall j :: 0 <= j < |ledger| ==> !IsBook(item.book)(ledger[j]);
    }
    if item.quantity > 0 && exists j :: 0 <= j < |ledger| && SameBook(ledger[j].book, item.book) {
      var j :| 0 <= j < |ledger| && SameBook(ledger[j].book, item.book);
      assert IsBook(item.book)(ledger[j]);
    }
  }

  /** Adding a positive quantity to a valid ledger raises the book's stock by
      exactly that quantity (when the sum fits in an `int`) and leaves every
      other book's stock alone. */
  lemma AddedStock(ledger: Ledger, item: Entry, b: Book)
    requires Valid(ledger) && item.quantity > 0
    requires StockOf(ledger, item.book) + item.quantity as int <= MAX
    ensures StockOf(Added(ledger, item), b) ==
              StockOf(ledger, b) + (if SameBook(b, item.book) then item.quantity as int else 0)
  {
    var r := Added(ledger, item);
    AddedValid(ledger, item);
    match FirstIndex(ledger, IsBook(item.book))
    case Some(i) =>
      assert r == ledger[i := ledger[i].SetQuantity(Add(ledger[i].quantity, item.quantity))];
      StockAt(ledger, item.book, i);
      if SameBook(b, item.book) {
        StockAt(ledger, b, i);
        StockAt(r, b, i);
      } else {
        AddedOtherBook(ledger, r, i, b);
      }
    case None =>
      assert r == ledger + [item];
      if SameBook(b, item.book) {
        StockOfAbsent(ledger, b);
        StockAt(r, b, |ledger|);
      } else {
        AddedOtherBook(ledger, r, |ledger|, b);
      }
  }

  /** Changing or appending the entry at `i` does not move another book's stock. */
  lemma AddedOtherBook(ledger: Ledger, r: Ledger, i: nat, b: Book)
    requires UniqueBooks(ledger) && UniqueBooks(r)
    requires i <= |ledger| && |r| == |ledger| + (if i == |ledger| then 1 else 0)
    requires forall k :: 0 <= k < |ledger| && k != i ==> r[k] == ledger[k]
    requires !SameBook(r[i].book, b)
    requires i < |ledger| ==> SameBook(ledger[i].book, r[i].book)
    ensures StockOf(r, b) == StockOf(ledger, b)
  {
    if j :| 0 <= j < |ledger| && SameBook(ledger[j].book, b) {
      StockAt(ledger, b, j);
      StockAt(r, b, j);
    } else {
      StockOfAbsent(ledger, b);
      StockOfAbsent(r, b);
    }
  }

  /** Adding keeps the ledger valid: still one entry per book, and no
      quantity becomes negative (a sum that would overflow is refused by the
      setter's guard). */
  lemma AddedValid(ledger: Ledger, item: Entry)
    requires Valid(ledger)
    ensures Valid(Added(ledger, item))
  {
    var r := Added(ledger, item);
    if item.quantity > 0 {
      match FirstIndex(ledger, IsBook(item.book))
      case Some(i) =>
        forall x, y | 0 <= x < y < |r| ensures !SameBook(r[x].book, r[y].book) {
          assert r[x].book == ledger[x].book && r[y].book == ledger[y].book;
        }
      case None =>
        forall x, y | 0 <= x < y < |r| ensures !SameBook(r[x].book, r[y].book) {
          if y == |ledger| {
            assert !IsBook(item.book)(ledger[x]);
          } else {
            assert r[x] == ledger[x] && r[y] == ledger[y];
          }
        }
    }
  }

  /** The entry that `item` is removed from, in a ledger with one entry per
      book: the book's own entry, provided it holds enough. */
  lemma SupplierIsEntry(ledger: Ledger, item: Entry, j: nat)
    requires UniqueBooks(ledger) && j < |ledger| && SameBook(ledger[j].book, item.book)
    ensures FirstIndex(ledger, CanSupply(item)) ==
              if item.quantity <= ledger[j].quantity then Some(j) else None
  {
    if item.quantity <= ledger[j].quantity {
      assert CanSupply(item)(ledger[j]);
    } else {
      forall k | 0 <= k < |ledger| ensures !CanSupply(item)(ledger[k]) {
        if k != j {
          assert !SameBook(ledger[k].book, ledger[j].book);
        }
      }
    }
  }

  /** Removing succeeds exactly when the quantity is positive and no more than
      the book's stock; a failed removal leaves the ledger unchanged. */
  lemma RemoveSucceedsIff(ledger: Ledger, item: Entry)
    requires UniqueBooks(ledger)
    ensures RemoveSucceeds(ledger, item) <==> 0 < item.quantity as int <= StockOf(ledger, item.book)
    ensures !RemoveSucceeds(ledger, item) ==> Removed(ledger, item) == ledger
  {
    if j :| 0 <= j < |ledger| && SameBook(ledger[j].book, item.book) {
      SupplierIsEntry(ledger, item, j);
      StockAt(ledger, item.book, j);
    } else {
      StockOfAbsent(ledger, item.book);
      assert forall k :: 0 <= k < |ledger| ==> !CanSupply(item)(ledger[k]);
    }
  }

  /** Removing keeps the ledger valid. */
  lemma RemovedValid(ledger: Ledger, item: Entry)
    requires Valid(ledger)
    ensures Valid(Removed(ledger, item))
  {
    var r := Removed(ledger, item);
    if RemoveSucceeds(ledger, item) {
      var i := FirstIndex(ledger, CanSupply(item)).value;
      assert CanSupply(item)(ledger[i]);
      if ledger[i].quantity == item.quantity {
        assert r == WithoutEntry(ledger, i);
        forall x, y | 0 <= x < y < |r| ensures !SameBook(r[x].book, r[y].book) {
          var x' := if x < i then x else x + 1;
          var y' := if y < i then y else y + 1;
          assert r[x] == ledger[x'] && r[y] == ledger[y'];
        }
      } else {
        forall x, y | 0 <= x < y < |r| ensures !SameBook(r[x].book, r[y].book) {
          assert r[x].book == ledger[x].book && r[y].book == ledger[y].book;
        }
      }
    }
  }

  /** A successful removal lowers the book's stock by exactly the quantity
      and leaves every other book's stock alone. The entry is deleted when it
      reaches zero (one entry fewer, and the book is no longer listed) and is
      kept otherwise. */
  lemma RemovedStock(ledger: Ledger, item: Entry, b: Book)
    requires Valid(ledger) && RemoveSucceeds(ledger, item)
    ensures StockOf(Removed(ledger, item), b) ==
              StockOf(ledger, b) - (if SameBook(b, item.book) then item.quantity as int else 0)
    ensures StockOf(ledger, item.book) == item.quantity as int ==>
              |Removed(ledger, item)| == |ledger| - 1 &&
              forall k :: 0 <= k < |Removed(ledger, item)| ==> !SameBook(Removed(ledger, item)[k].book, item.book)
    ensures StockOf(ledger, item.book) > item.quantity as int ==> |Removed(ledger, item)| == |ledger|
  {
    var r := Removed(ledger, item);
    var i := FirstIndex(ledger, CanSupply(item)).value;
    assert CanSupply(item)(ledger[i]);
    StockAt(ledger, item.book, i);
    RemovedValid(ledger, item);
    if ledger[i].quantity == item.quantity {
      assert r == WithoutEntry(ledger, i);
      DeletedEntry(ledger, i, b);
    } else {
      assert r == ledger[i := ledger[i].(quantity := (ledger[i].quantity as int - item.quantity as int) as int32)];
      if SameBook(b, item.book) {
        StockAt(ledger, b, i);
        StockAt(r, b, i);
      } else {
        AddedOtherBook(ledger, r, i, b);
      }
    }
  }

  /** Deleting the entry at `i` removes its book from the ledger and keeps
      every other book's stock. */
  lemma DeletedEntry(ledger: Ledger, i: nat, b: Book)
    requires UniqueBooks(ledger) && i < |ledger|
    ensures forall k :: 0 <= k < |ledger| - 1 ==> !SameBook(WithoutEntry(ledger, i)[k].book, ledger[i].book)
    ensures StockOf(WithoutEntry(ledger, i), b) ==
              if SameBook(b, ledger[i].book) then 0 else StockOf(ledger, b)
  {
    var r := WithoutEntry(ledger, i);
    if SameBook(b, ledger[i].book) {
      StockOfAbsent(r, b);
    } else if j :| 0 <= j < |ledger| && SameBook(ledger[j].book, b) {
      StockAt(ledger, b, j);
      var j' := if j < i then j else j - 1;
      assert r[j'] == ledger[j];
      assert UniqueBooks(r);
      StockAt(r, b, j');
    } else {
      StockOfAbsent(ledger, b);
      StockOfAbsent(r, b);
    }
  }

  /** The inventory: the list of available books, changed in place. */
  class Inventory {
    var availableBooks: Ledger

    /** `new Inventory(list)` takes the caller's list as it is. */
    constructor (availableBooks: Ledger)
      ensures this.availableBooks == availableBooks
    {
      this.availableBooks := availableBooks;
    }

    constructor Empty()
      ensures availableBooks == []
    {
      availableBooks := [];
    }

    /** `getAvailableBooks` hands out the live list, so a caller that sorts
        it reorders the inventory itself (see the checkout controller). */
    function GetAvailableBooks(): Ledger
      reads this
    {
      availableBooks
    }

    /** `findAvailableBook(isbn)`, whose body is not in Inventory.java (only
        its call sites are): taken to be the first entry whose book has that
        ISBN. */
    function FindAvailableBook(isbn: string): (r: Option<nat>)
      reads this
      ensures r.Some? ==> r.value < |availableBooks| && availableBooks[r.value].book.isbn == isbn
      ensures r.Some? ==> forall j :: 0 <= j < r.value ==> availableBooks[j].book.isbn != isbn
      ensures r.None? ==> forall j :: 0 <= j < |availableBooks| ==> availableBooks[j].book.isbn != isbn
    {
      FirstIndex(availableBooks, HasIsbn(isbn))
    }

    method AddItemToInventory(newItem: Item) returns (added: bool)
      modifies this
      ensures added == (newItem.quantity > 0)
      ensures availableBooks == Added(old(availableBooks), newItem.Value())
    {
      var bookExists := false;
      added := false;
      if newItem.quantity > 0 {
        var i := 0;
        while i < |availableBooks|
          invariant 0 <= i <= |availableBooks|
          invariant availableBooks == old(availableBooks)
          invariant forall j :: 0 <= j < i ==> !SameBook(availableBooks[j].book, newItem.book)
        {
          if SameBook(availableBooks[i].book, newItem.book) {
            var existing := availableBooks[i];
            availableBooks := availableBooks[i := existing.SetQuantity(Add(existing.quantity, newItem.quantity))];
            bookExists := true;
            assert FirstIndex(old(availableBooks), IsBook(newItem.book)) == Some(i) by {
              assert IsBook(newItem.book)(old(availableBooks)[i]);
            }
            break;
          }
          i := i + 1;
        }
        if !bookExists {
          assert forall j :: 0 <= j < |availableBooks| ==> !IsBook(newItem.book)(availableBooks[j]);
          availableBooks := availableBooks + [newItem.Value()];
        }
        added := true;
      }
    }

    method RemoveItemFromInventory(removeItem: Item) returns (removed: bool)
      modifies this
      ensures removed == RemoveSucceeds(old(availableBooks), removeItem.Value())
      ensures availableBooks == Removed(old(availableBooks), removeItem.Value())
    {
      var bookExists := false;
      removed := false;
      ghost var item := removeItem.Value();
      if removeItem.quantity > 0 {
        var i := 0;
        while i < |availableBooks|
          invariant 0 <= i <= |availableBooks|
          invariant availableBooks == old(availableBooks)
          invariant forall j :: 0 <= j < i ==> !CanSupply(item)(availableBooks[j])
        {
          var existing := availableBooks[i];
          if SameBook(existing.book, removeItem.book) && removeItem.quantity <= existing.quantity {
            assert CanSupply(item)(existing);
            existing := existing.SetQuantity((existing.quantity as int - removeItem.quantity as int) as int32);
            if existing.quantity == 0 {
              availableBooks := WithoutEntry(availableBooks, i);
            } else {
              availableBooks := availableBooks[i := existing];
            }
            removed := true;
            bookExists := true;
            break;
          }
          i := i + 1;
        }
        if !bookExists {
          return false;
        }
      }
    }

    /** `reduceFromInventory(book, q)`, whose body is not in Inventory.java
        (only its call sites are): taken to subtract `q` from the entry that
        `findAvailableBook(book.isbn)` returns, keeping the entry. */
    method ReduceFromInventory(book: Book, quantity: int32)
      modifies this
      ensures availableBooks == Reduced(old(availableBooks), book.isbn, quantity)
    {
      availableBooks := Reduced(availableBooks, book.isbn, quantity);
    }
  }

  /** The ledger after subtracting `q` from the entry with the given ISBN,
      through the guarded setter. */
  function Reduced(ledger: Ledger, isbn: string, q: int32): (r: Ledger)
    ensures |r| == |ledger|
    ensures forall k :: 0 <= k < |r| ==> r[k].book == ledger[k].book
  {
    match FirstIndex(ledger, HasIsbn(isbn))
    case None => ledger
    case Some(i) => ledger[i := ledger[i].SetQuantity(Wrap(ledger[i].quantity as int - q as int))]
  }

  /** The quantity of the first entry with this ISBN (0 when there is none):
      the stock `findAvailableBook` reports. */
  function StockOfIsbn(ledger: Ledger, isbn: string): int {
    match FirstIndex(ledger, HasIsbn(isbn))
    case None => 0
    case Some(i) => ledger[i].quantity as int
  }

  /** Two ledgers listing the same books find the same entry by ISBN. */
  lemma FirstIndexSameBooks(a: Ledger, b: Ledger, isbn: string)
    requires |a| == |b| && forall k :: 0 <= k < |a| ==> a[k].book == b[k].book
    ensures FirstIndex(a, HasIsbn(isbn)) == FirstIndex(b, HasIsbn(isbn))
  {
    assert forall k :: 0 <= k < |a| ==> HasIsbn(isbn)(a[k]) == HasIsbn(isbn)(b[k]);
  }

  /** Reducing by at most the stock lowers that ISBN's stock by exactly `q`
      and leaves the stock of every other ISBN as it was. */
  lemma ReducedStock(ledger: Ledger, isbn: string, q: int32, other: string)
    requires 0 <= q as int <= StockOfIsbn(ledger, isbn)
    ensures StockOfIsbn(Reduced(ledger, isbn, q), other) ==
              if other == isbn then StockOfIsbn(ledger, isbn) - q as int else StockOfIsbn(ledger, other)
  {
    var r := Reduced(ledger, isbn, q);
    FirstIndexSameBooks(r, ledger, other);
    match FirstIndex(ledger, HasIsbn(isbn))
    case None =>
    case Some(i) =>
      assert r[i].quantity as int == ledger[i].quantity as int - q as int;
      if other != isbn {
        match FirstIndex(ledger, HasIsbn(other))
        case None =>
        case Some(j) =>
          assert j != i by { assert HasIsbn(isbn)(ledger[i]); }
      }
  }

  /** Reducing by at most the stock keeps every quantity non-negative. */
  lemma ReducedNonNegative(ledger: Ledger, isbn: string, q: int32)
    requires NonNegative(ledger) && 0 <= q as int <= StockOfIsbn(ledger, isbn)
    ensures NonNegative(Reduced(ledger, isbn, q))
  {
  }
}
