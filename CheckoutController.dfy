/** The listing and checkout pages: search-or-all selection and sorting of
    the listed items, the `checkoutFlag` that tells `removeFromCart` which
    page it was called from, and the loops that add and remove one copy per
    selected id through the user's cart. */
module Checkout {
  import opened Wrappers
  import opened JavaInt
  import opened Catalog
  import opened Items
  import opened Seqs
  import opened Stock
  import opened Cart
  import opened Sorting
  import opened BookFiltering
  import opened Users

  const AccessDenied := "access-denied"

  /** The book page and the add and remove forms: anyone not logged in is
      denied; otherwise the page is shown (`page` is "book-info" for a
      book, "home" for the two forms). */
  function GuardedPage(loggedIn: Option<User>, page: string): (view: string)
    ensures loggedIn.None? ==> view == AccessDenied
    ensures loggedIn.Some? ==> view == page
  {
    if loggedIn.None? then AccessDenied else page
  }

  /** `viewBook`: the book with that ISBN, if it exists, for a logged-in
      user; the page is shown even when there is no such book. */
  function ViewBook(loggedIn: Option<User>, books: map<string, Book>, isbn: string): (r: (string, Option<Book>))
    ensures r.0 == GuardedPage(loggedIn, "book-info")
    ensures r.1.Some? <==> loggedIn.Some? && isbn in books
    ensures r.1.Some? ==> r.1.value == books[isbn]
  {
    if loggedIn.None? then (AccessDenied, None)
    else if isbn in books then ("book-info", Some(books[isbn]))
    else ("book-info", None)
  }

  /** The items the listing starts from: all available books for an empty
      search value, otherwise the search results. */
  function Selection(available: Ledger, searchValue: string, searchResults: seq<Entry>): seq<Entry> {
    if searchValue == "" then available else searchResults
  }

  /** The listed items before the price, author, genre and publisher filters:
      the selection in the order the sort label asks for. */
  function Listed(available: Ledger, searchValue: string, sort: string, searchResults: seq<Entry>): seq<Entry> {
    SortByLabel(sort, Selection(available, searchValue, searchResults))
  }

  /** The error attribute of the listing page. */
  function SearchError(searchValue: string, searchResults: seq<Entry>): (r: Option<string>)
    ensures r.Some? <==> searchValue != "" && searchResults == []
    ensures r.Some? ==> r.value == "No items match \"" + searchValue + "\"."
  {
    if searchValue != "" && searchResults == [] then Some("No items match \"" + searchValue + "\".") else None
  }

  /** An empty search lists exactly the available books and a non-empty one
      exactly the search results, each reordered only by the sort label; an
      unknown label keeps the selection's order. */
  lemma ListedSelection(available: Ledger, searchValue: string, sort: string, searchResults: seq<Entry>, e: Entry)
    ensures var r := Listed(available, searchValue, sort, searchResults);
            (searchValue == "" ==> multiset(r) == multiset(available)) &&
            (searchValue != "" ==> multiset(r) == multiset(searchResults)) &&
            (CriterionOf(sort).None? ==> r == Selection(available, searchValue, searchResults))
  {
    SortByLabelOrders(sort, Selection(available, searchValue, searchResults), e);
  }

  /** What the listing page shows, apart from the filtered item list and the
      price bounds. */
  datatype Listing = Listing(view: string, listed: seq<Entry>, error: Option<string>,
                             authors: seq<string>, genres: seq<string>, publishers: seq<string>)

  /** The result of the `addToCart` loop: the cart lines, the inventory
      ledger, and the exception that ended the loop early, if any. */
  datatype Batch = Batch(lines: seq<Entry>, ledger: Ledger, thrown: Option<string>)

  /** The `addToCart` loop: one copy of each selected id's book, in order; a
      missing id dereferences a null inventory item, and an exception from
      the cart ends the loop. A cart add that returns false is ignored. */
  function AddEach(lines: seq<Entry>, ledger: Ledger, ids: seq<int>, byId: map<int, Book>): Batch
    decreases |ids|
  {
    if ids == [] then Batch(lines, ledger, None)
    else if ids[0] !in byId then Batch(lines, ledger, Some(NullPointer))
    else
      var step := CartAdd(lines, ledger, byId[ids[0]], 1);
      if step.outcome.Thrown? then Batch(step.lines, step.ledger, Some(step.outcome.exception))
      else AddEach(step.lines, step.ledger, ids[1..], byId)
  }

  /** The result of the `removeFromCart` loop: the cart lines and the
      exception that ended the loop early, if any. */
  datatype Removal = Removal(lines: seq<Entry>, thrown: Option<string>)

  /** The `removeFromCart` loop. From the checkout page an id names a cart
      item, and an unknown one is skipped; from the listing page it names an
      inventory item, and an unknown one dereferences null. Either way one
      copy of that book object is removed from the cart. */
  function RemoveEach(lines: seq<Entry>, ids: seq<int>, fromCheckout: bool,
                      itemsById: map<int, Book>, cartItemsById: map<int, Book>): Removal
    decreases |ids|
  {
    if ids == [] then Removal(lines, None)
    else if fromCheckout then
      if ids[0] in cartItemsById then RemoveEach(CartRemoved(lines, cartItemsById[ids[0]], 1), ids[1..], fromCheckout, itemsById, cartItemsById)
      else RemoveEach(lines, ids[1..], fromCheckout, itemsById, cartItemsById)
    else if ids[0] !in itemsById then Removal(lines, Some(NullPointer))
    else RemoveEach(CartRemoved(lines, itemsById[ids[0]], 1), ids[1..], fromCheckout, itemsById, cartItemsById)
  }

  /** Adding a batch of ids is adding the first part and then, unless it
      threw, the rest. */
  lemma {:induction false} AddEachSplit(lines: seq<Entry>, ledger: Ledger, a: seq<int>, b: seq<int>, byId: map<int, Book>)
    ensures var x := AddEach(lines, ledger, a, byId);
            AddEach(lines, ledger, a + b, byId) ==
              if x.thrown.Some? then x else AddEach(x.lines, x.ledger, b, byId)
    decreases |a|
  {
    if a != [] {
      assert (a + b)[0] == a[0] && (a + b)[1..] == a[1..] + b;
      if a[0] in byId {
        var step := CartAdd(lines, ledger, byId[a[0]], 1);
        if !step.outcome.Thrown? {
          AddEachSplit(step.lines, step.ledger, a[1..], b, byId);
        }
      }
    } else {
      assert a + b == b;
    }
  }

  /** The `addToCart` loop moves copies from the inventory into the cart and
      creates none: cart and inventory together hold as many copies as before,
      the cart gains at most one copy per id, and no quantity goes negative,
      provided no cart line can overflow. */
  lemma {:induction false} AddEachConserves(lines: seq<Entry>, ledger: Ledger, ids: seq<int>, byId: map<int, Book>)
    requires NonNegative(lines) && NonNegative(ledger)
    requires Headroom(lines, |ids|) && |ids| <= MAX
    ensures var b := AddEach(lines, ledger, ids, byId);
            Sum(b.lines) + Sum(b.ledger) == Sum(lines) + Sum(ledger) &&
            Sum(lines) <= Sum(b.lines) <= Sum(lines) + |ids| &&
            NonNegative(b.lines) && NonNegative(b.ledger)
    decreases |ids|
  {
    if ids != [] && ids[0] in byId {
      var book := byId[ids[0]];
      assert Headroom(lines, 1);
      CartAddConserves(lines, ledger, book, 1);
      CartAddNonNegative(lines, ledger, book, 1);
      CartAddHeadroom(lines, ledger, book, 1, |ids|);
      var step := CartAdd(lines, ledger, book, 1);
      if !step.outcome.Thrown? {
        AddEachConserves(step.lines, step.ledger, ids[1..], byId);
      }
    }
  }

  /** The `removeFromCart` loop removes at most one copy per id, keeps every
      quantity non-negative, and never throws from the checkout page. */
  lemma {:induction false} RemoveEachTotals(lines: seq<Entry>, ids: seq<int>, fromCheckout: bool,
                                            itemsById: map<int, Book>, cartItemsById: map<int, Book>)
    requires NonNegative(lines)
    ensures var r := RemoveEach(lines, ids, fromCheckout, itemsById, cartItemsById);
            Sum(lines) - |ids| <= Sum(r.lines) <= Sum(lines) &&
            NonNegative(r.lines) &&
            (fromCheckout ==> r.thrown.None?)
    decreases |ids|
  {
    if ids != [] {
      var found := if fromCheckout then ids[0] in cartItemsById else ids[0] in itemsById;
      if found {
        var book := if fromCheckout then cartItemsById[ids[0]] else itemsById[ids[0]];
        CartRemovedTotal(lines, book, 1);
        CartRemovedNonNegative(lines, book, 1);
        RemoveEachTotals(CartRemoved(lines, book, 1), ids[1..], fromCheckout, itemsById, cartItemsById);
      } else if fromCheckout {
        RemoveEachTotals(lines, ids[1..], fromCheckout, itemsById, cartItemsById);
      }
    }
  }

  class CheckoutController {
    /** Whether the last page shown was the checkout page. */
    var checkoutFlag: bool
    /** The single inventory the listing shows. */
    const inventory: Inventory

    constructor (inventory: Inventory)
      ensures !checkoutFlag && this.inventory == inventory
    {
      checkoutFlag := false;
      this.inventory := inventory;
    }

    /** The listing. An empty search sorts the inventory's own list, which
        `getAvailableBooks` hands out live; search results are a separate
        list. The author names come from `fullName`. */
    method ListAvailableBooks(loggedIn: Option<User>, searchValue: string, sort: string,
                              searchResults: seq<Entry>, fullName: Author -> string) returns (page: Listing)
      modifies this, inventory
      ensures !checkoutFlag
      ensures loggedIn.None? ==> page.view == AccessDenied && inventory.availableBooks == old(inventory.availableBooks)
      ensures loggedIn.Some? ==>
                var listed := Listed(old(inventory.availableBooks), searchValue, sort, searchResults);
                var books := CreateBookList(listed);
                page == Listing("home", listed, SearchError(searchValue, searchResults),
                                GetAllAuthors(books, fullName), GetAllGenres(books), GetAllPublishers(books)) &&
                inventory.availableBooks == if searchValue == "" then listed else old(inventory.availableBooks)
    {
      checkoutFlag := false;
      if loggedIn.None? {
        return Listing(AccessDenied, [], None, [], [], []);
      }
      var items: seq<Entry>;
      var error: Option<string> := None;
      if searchValue == "" {
        items := inventory.GetAvailableBooks();
      } else {
        items := searchResults;
        if items == [] {
          error := Some("No items match \"" + searchValue + "\".");
        }
      }
      items := SortByLabel(sort, items);
      if searchValue == "" {
        inventory.availableBooks := items;
      }
      var books := CreateBookList(items);
      page := Listing("home", items, error, GetAllAuthors(books, fullName), GetAllGenres(books), GetAllPublishers(books));
    }

    /** The checkout page; it sets the flag only past the login check, and a
        user without a cart dereferences null. */
    method ViewCart(loggedIn: Option<User>) returns (r: Outcome<string>, items: seq<Entry>)
      modifies this
      ensures checkoutFlag == (loggedIn.Some? || old(checkoutFlag))
      ensures loggedIn.None? ==> r == Returned(AccessDenied)
      ensures loggedIn.Some? && loggedIn.value.cart == null ==> r == Thrown(NullPointer)
      ensures loggedIn.Some? && loggedIn.value.cart != null ==>
                r == Returned("checkout") && items == loggedIn.value.cart.booksInCart
    {
      items := [];
      if loggedIn.None? {
        return Returned(AccessDenied), items;
      }
      checkoutFlag := true;
      var cart := loggedIn.value.cart;
      if cart == null {
        return Thrown(NullPointer), items;
      }
      items := cart.GetBooksInCart();
      r := Returned("checkout");
    }

    /** The cart total shown by the page header; `cart` is the logged-in
        user's cart, null when there is none. */
    method GetTotalInCart(cart: ShoppingCart?) returns (r: Outcome<int32>)
      ensures cart == null ==> r == Thrown(NullPointer)
      ensures cart != null ==> r == Returned(Wrap(Sum(cart.booksInCart)))
    {
      if cart == null {
        return Thrown(NullPointer);
      }
      var total := cart.GetTotalQuantityOfCart();
      r := Returned(total);
    }

    /** Adds one copy of each selected inventory item's book to the logged-in
        user's cart. Without a user the handler dereferences null at once; a
        user without a cart dereferences it only at the first selected id. */
    method AddToCart(loggedIn: Option<User>, selectedItems: Option<seq<int>>, itemsById: map<int, Book>)
      returns (r: Outcome<string>)
      modifies if loggedIn.Some? && loggedIn.value.cart != null
               then {loggedIn.value.cart, loggedIn.value.cart.inventory} else {}
      ensures loggedIn.None? ==> r == Thrown(NullPointer)
      ensures loggedIn.Some? && loggedIn.value.cart == null ==>
                r == if selectedItems.Some? && selectedItems.value != [] then Thrown(NullPointer)
                     else Returned(ListingRedirect)
      ensures loggedIn.Some? && loggedIn.value.cart != null ==>
                var cart := loggedIn.value.cart;
                var ids := if selectedItems.Some? then selectedItems.value else [];
                var b := AddEach(old(cart.booksInCart), old(cart.inventory.availableBooks), ids, itemsById);
                cart.inventory == old(cart.inventory) &&
                cart.booksInCart == b.lines && cart.inventory.availableBooks == b.ledger &&
                r == if b.thrown.Some? then Thrown(b.thrown.value) else Returned(ListingRedirect)
    {
      if loggedIn.None? {
        return Thrown(NullPointer);
      }
      var cart := loggedIn.value.cart;
      var ids := if selectedItems.Some? then selectedItems.value else [];
      if cart == null {
        // the first selected id reaches `shoppingCart.addToCart`, or a null
        // inventory item just before it
        return if ids != [] then Thrown(NullPointer) else Returned(ListingRedirect);
      }
      var i := 0;
      while i < |ids|
        invariant 0 <= i <= |ids|
        invariant cart.inventory == old(cart.inventory)
        invariant AddEach(cart.booksInCart, cart.inventory.availableBooks, ids[i..], itemsById) ==
                  AddEach(old(cart.booksInCart), old(cart.inventory.availableBooks), ids, itemsById)
      {
        assert ids[i..][0] == ids[i] && ids[i..][1..] == ids[i + 1..];
        if ids[i] !in itemsById {
          return Thrown(NullPointer);
        }
        var added := cart.AddToCart(itemsById[ids[i]], 1);
        if added.Thrown? {
          return Thrown(added.exception);
        }
        i := i + 1;
      }
      r := Returned(ListingRedirect);
    }

    /** Removes one copy per selected id from the logged-in user's cart; the
        ids name cart items when the checkout page was the last one shown,
        inventory items otherwise. The inventory is left as it was. Without a
        user the handler dereferences null at once. A user without a cart
        dereferences it at the first id from the listing page, at the first
        known cart item or the closing price loop from the checkout page, and
        not at all for an empty selection from the listing page. */
    method RemoveFromCart(loggedIn: Option<User>, selectedItems: Option<seq<int>>,
                          itemsById: map<int, Book>, cartItemsById: map<int, Book>)
      returns (r: Outcome<string>, items: seq<Entry>)
      modifies if loggedIn.Some? && loggedIn.value.cart != null then {loggedIn.value.cart} else {}
      ensures loggedIn.None? ==> r == Thrown(NullPointer)
      ensures loggedIn.Some? && loggedIn.value.cart == null ==>
                r == if checkoutFlag || (selectedItems.Some? && selectedItems.value != []) then Thrown(NullPointer)
                     else Returned(ListingRedirect)
      ensures loggedIn.Some? && loggedIn.value.cart != null ==>
                var cart := loggedIn.value.cart;
                var ids := if selectedItems.Some? then selectedItems.value else [];
                var b := RemoveEach(old(cart.booksInCart), ids, checkoutFlag, itemsById, cartItemsById);
                cart.inventory == old(cart.inventory) &&
                cart.inventory.availableBooks == old(cart.inventory.availableBooks) &&
                cart.booksInCart == b.lines && items == b.lines &&
                r == if b.thrown.Some? then Thrown(b.thrown.value)
                     else if checkoutFlag then Returned("checkout") else Returned(ListingRedirect)
    {
      items := [];
      if loggedIn.None? {
        return Thrown(NullPointer), items;
      }
      var cart := loggedIn.value.cart;
      var ids := if selectedItems.Some? then selectedItems.value else [];
      if cart == null {
        return if checkoutFlag || ids != [] then Thrown(NullPointer) else Returned(ListingRedirect), items;
      }
      var i := 0;
      while i < |ids|
        invariant 0 <= i <= |ids|
        invariant cart.inventory == old(cart.inventory)
        invariant cart.inventory.availableBooks == old(cart.inventory.availableBooks)
        invariant RemoveEach(cart.booksInCart, ids[i..], checkoutFlag, itemsById, cartItemsById) ==
                  RemoveEach(old(cart.booksInCart), ids, checkoutFlag, itemsById, cartItemsById)
      {
        assert ids[i..][0] == ids[i] && ids[i..][1..] == ids[i + 1..];
        if checkoutFlag {
          if ids[i] in cartItemsById {
            var _ := cart.RemoveFromCart(cartItemsById[ids[i]], 1);
          }
        } else {
          if ids[i] !in itemsById {
            items := cart.booksInCart;
            return Thrown(NullPointer), items;
          }
          var _ := cart.RemoveFromCart(itemsById[ids[i]], 1);
        }
        i := i + 1;
      }
      items := cart.booksInCart;
      r := if checkoutFlag then Returned("checkout") else Returned(ListingRedirect);
    }

    /** Placing the order empties `cart`, the logged-in user's cart (null
        when there is none), and leaves the inventory as it was. */
    method ConfirmOrder(cart: ShoppingCart?) returns (r: Outcome<string>)
      modifies cart
      ensures cart == null ==> r == Thrown(NullPointer)
      ensures cart != null ==>
                r == Returned("order-confirmation") && cart.booksInCart == [] &&
                cart.inventory == old(cart.inventory) &&
                cart.inventory.availableBooks == old(cart.inventory.availableBooks)
    {
      if cart == null {
        return Thrown(NullPointer);
      }
      cart.Checkout();
      r := Returned("order-confirmation");
    }
  }
}
