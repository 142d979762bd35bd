# Online bookstore: domain model in Dafny

A model of the domain layer of a small Spring bookstore. Owners upload and
edit books; users register, log in, browse a sorted listing, put copies into
a shopping cart and check out. The model keeps the Java code's own objects
and behaviour:

- **Inventory** (`Stock`). The ledger of inventory items is a list mutated in
  place. Adding merges a positive quantity into the entry for the same book
  object or appends it. Removing takes a quantity from the first entry that
  can supply it and deletes an entry that reaches zero. The lookup by ISBN
  and the reduction that the cart calls have no body in Inventory.java; the
  model takes the lookup to find the first entry with the ISBN and the
  reduction to subtract from that entry (see "Left out").
- **Shopping cart** (`Cart`). `addToCart` looks the book up in the inventory
  by ISBN. It merges into the first cart line with that ISBN or appends a new
  line, and takes the copies out of the inventory. `removeFromCart` matches
  lines by book identity and never gives stock back. The cart's total
  quantity is a Java `int` sum that wraps around.
- **Items and authors** (`Items`, `Catalog`). `Item` has setters, and its
  `setQuantity` ignores negative values. An `Author` has a bibliography list
  that is appended to and removed from.
- **List utilities** (`BookFiltering`). Order-preserving map, filter and
  first-occurrence distinct over book lists.
- **Sorting** (`Sorting`). The three sort labels of the listing. Each label
  sorts stably by price up, price down or title; any other label keeps the
  order.
- **Users and sessions** (`Users`):
  - the registration and login decisions and the `userAccess` flag;
  - the "username" cookie: the last live one names the session;
  - logout, which sends a removal cookie.
- **Book forms** (`BookForms`):
  - owner-only access;
  - parsing the "First Last, First Last" author field with Java's
    `String.split` and `trim` (`JavaStrings`);
  - reuse-or-create of authors in a store;
  - the ", "-joined display string.
- **Listing and checkout** (`Checkout`):
  - search-or-all selection, and sorting the listed items;
  - the `checkoutFlag` that tells `removeFromCart` which page called it;
  - the loops that add or remove one copy per selected id.

Java object identity is modelled explicitly. A `Book` value carries a
reference number `ref`, and `SameBook` (Java's default `equals`) compares
those numbers. The ISBN is an opaque string and the price an integer number
of cents. Exceptions the code lets escape are `Thrown` outcomes:
`NullPointerException` from a missing inventory entry, a missing repository
row or a null cart. Repository lookups are parameters: maps from id or ISBN,
and sequences of stored users or authors.

## Model

| member | source | states |
|---|---|---|
| Seqs.FirstIndex | src/main/java/bookstore/inventory/Inventory.java:49-57 | the index of the first element satisfying the predicate, or None exactly when no element does: the for-each-with-break search the inventory and cart loops share |
| Seqs.FirstIndexAppend | src/main/java/bookstore/inventory/Inventory.java:49-62 | appending after a found element does not change where the first match is |
| Seqs.FirstIndexAfter | src/main/java/bookstore/inventory/Inventory.java:49-62 | when the prefix has no match, the first match of the concatenation is the suffix's, shifted by the prefix length |
| Seqs.FilterAppend | src/main/java/bookstore/inventory/BookFiltering.java:19-24 | a stream filter distributes over concatenation |
| Seqs.Map | src/main/java/bookstore/inventory/BookFiltering.java:13-17 | a stream map keeps the length and maps each position |
| Seqs.Pos | src/main/java/bookstore/inventory/BookFiltering.java:30 | the position of the first occurrence of an element |
| Seqs.Distinct | src/main/java/bookstore/inventory/BookFiltering.java:30 | `distinct()`: no duplicates, no longer than the input, exactly the input's elements, in order of first occurrence |
| Catalog.Author.constructor | src/main/java/bookstore/inventory/Author.java:31-34 | stores both names and starts with an empty bibliography |
| Catalog.Author.AddBook | src/main/java/bookstore/inventory/Author.java:96-98 | appends the book to the bibliography |
| Catalog.Author.RemoveBook | src/main/java/bookstore/inventory/Author.java:104-106 | `ArrayList.remove`: deletes the first equal book, if any |
| Catalog.RemoveFirstPresent | src/main/java/bookstore/inventory/Author.java:104-106 | with a first equal book at i, removal deletes exactly position i and shortens the list by one |
| Catalog.RemoveFirstAbsent | src/main/java/bookstore/inventory/Author.java:104-106 | with no equal book, removal leaves the bibliography unchanged |
| Items.Entry.SetQuantity | src/main/java/bookstore/inventory/Item.java:79-83 | a non-negative value replaces the quantity, a negative one is ignored, and the book is kept |
| Items.Item.constructor | src/main/java/bookstore/inventory/Item.java:30-33 | stores book and quantity unguarded (a negative quantity is accepted) |
| Items.Item.SetBook | src/main/java/bookstore/inventory/Item.java:63-65 | replaces the book and keeps the quantity |
| Items.Item.SetQuantity | src/main/java/bookstore/inventory/Item.java:79-83 | the guarded setter on the object, agreeing with `Entry.SetQuantity` on its value |
| Stock.WithoutEntry | src/main/java/bookstore/inventory/Inventory.java:88 | `List.remove` of one entry: one shorter, the others in order |
| Stock.StockAt | src/main/java/bookstore/inventory/Inventory.java:49-57 | in a ledger with one entry per book, the search finds that book's entry and its stock is that entry's quantity |
| Stock.StockOfAbsent | src/main/java/bookstore/inventory/Inventory.java:60-62 | a book with no entry has no stock |
| Stock.AddedShape | src/main/java/bookstore/inventory/Inventory.java:48-67 | a non-positive quantity changes nothing; a new book is appended as given; a known book keeps the ledger length |
| Stock.AddedStock | src/main/java/bookstore/inventory/Inventory.java:48-67 | adding raises the added book's stock by exactly the quantity and leaves every other book's stock alone, when the sum fits in an `int` |
| Stock.AddedValid | src/main/java/bookstore/inventory/Inventory.java:48-67 | adding keeps one entry per book and no negative quantity |
| Stock.SupplierIsEntry | src/main/java/bookstore/inventory/Inventory.java:82-85 | with one entry per book, the entry that can supply a removal is the book's entry if it holds enough, otherwise there is none |
| Stock.RemoveSucceedsIff | src/main/java/bookstore/inventory/Inventory.java:80-102 | the removal reports success exactly when 0 < quantity <= stock, and a failed removal changes nothing |
| Stock.RemovedValid | src/main/java/bookstore/inventory/Inventory.java:80-102 | removing keeps one entry per book and no negative quantity |
| Stock.RemovedStock | src/main/java/bookstore/inventory/Inventory.java:80-102 | a successful removal lowers that book's stock by the quantity, leaves other books alone, and deletes the entry exactly when it reaches zero |
| Stock.DeletedEntry | src/main/java/bookstore/inventory/Inventory.java:87-89 | deleting an entry removes that book from the ledger and leaves other stocks alone |
| Stock.Inventory.constructor | src/main/java/bookstore/inventory/Inventory.java:27-29 | stores the given list |
| Stock.Inventory.Empty | src/main/java/bookstore/inventory/Inventory.java:34-36 | starts with an empty list |
| Stock.Inventory.FindAvailableBook | src/main/java/bookstore/inventory/ShoppingCart.java:66 | (assumed body) the index of the first entry with the ISBN, or None exactly when there is none |
| Stock.Inventory.AddItemToInventory | src/main/java/bookstore/inventory/Inventory.java:43-67 | returns whether the quantity is positive, and the list becomes `Added` of the old list |
| Stock.Inventory.RemoveItemFromInventory | src/main/java/bookstore/inventory/Inventory.java:75-102 | returns `RemoveSucceeds` and the list becomes `Removed` of the old list |
| Stock.Inventory.ReduceFromInventory | src/main/java/bookstore/inventory/ShoppingCart.java:79 | (assumed body) the list becomes `Reduced` of the old list |
| Stock.Reduced | src/main/java/bookstore/inventory/ShoppingCart.java:79 | reducing keeps the length and every entry's book |
| Stock.FirstIndexSameBooks | src/main/java/bookstore/inventory/ShoppingCart.java:66 | ledgers with the same books in the same places find the same entry by ISBN |
| Stock.ReducedStock | src/main/java/bookstore/inventory/ShoppingCart.java:79 | reducing by at most the stock lowers that ISBN's stock by exactly q and no other ISBN's |
| Stock.ReducedNonNegative | src/main/java/bookstore/inventory/ShoppingCart.java:79 | reducing by at most the stock keeps every quantity non-negative |
| Cart.ShoppingCart.constructor | src/main/java/bookstore/inventory/ShoppingCart.java:26-38 | a new cart is empty and draws on the given inventory |
| Cart.ShoppingCart.AddToCart | src/main/java/bookstore/inventory/ShoppingCart.java:60-104 | the loop's result, cart and inventory are those of `CartAdd` on the old state |
| Cart.ShoppingCart.RemoveFromCart | src/main/java/bookstore/inventory/ShoppingCart.java:113-141 | returns `RemoveSucceeds`, the cart becomes `CartRemoved`, and the inventory is untouched |
| Cart.ShoppingCart.Checkout | src/main/java/bookstore/inventory/ShoppingCart.java:174-176 | empties the cart and keeps its inventory |
| Cart.ShoppingCart.GetTotalQuantityOfCart | src/main/java/bookstore/inventory/ShoppingCart.java:202-208 | the loop's total is the exact sum of the quantities, wrapped to 32 bits |
| Cart.SumUpdate | src/main/java/bookstore/inventory/ShoppingCart.java:76 | replacing one line changes the total by the difference of the two quantities |
| Cart.SumWithout | src/main/java/bookstore/inventory/ShoppingCart.java:123 | deleting a line lowers the total by its quantity |
| Cart.SumAppend | src/main/java/bookstore/inventory/ShoppingCart.java:92 | appending a line raises the total by its quantity |
| Cart.CartAddOutcome | src/main/java/bookstore/inventory/ShoppingCart.java:66-103 | true exactly when 0 < q <= the ISBN's stock; a null-pointer exception exactly when q > 0, the inventory has no entry and the cart has a line with the ISBN; otherwise nothing changes |
| Cart.CartAddTotals | src/main/java/bookstore/inventory/ShoppingCart.java:73-100 | on success with no line able to overflow: when the cart has a line with the ISBN, exactly the first such line rises by q and every other line is unchanged; otherwise exactly `Entry(book, q)` is appended; the cart total rises by q; that ISBN's stock falls by q and no other ISBN's stock changes |
| Cart.MergedLine | src/main/java/bookstore/inventory/ShoppingCart.java:73-76 | a successful add onto the first line with the ISBN sets exactly that line to its quantity plus q, leaves the other lines, and raises the total by q |
| Cart.AppendedLine | src/main/java/bookstore/inventory/ShoppingCart.java:87-92 | a successful add of an ISBN with no line appends exactly one line of q copies and raises the total by q |
| Cart.CartAddStock | src/main/java/bookstore/inventory/ShoppingCart.java:79 | a successful add lowers the stock of the book's ISBN by q and leaves every other ISBN's stock alone |
| Cart.CartAddNonNegative | src/main/java/bookstore/inventory/ShoppingCart.java:73-100 | adding keeps cart and inventory quantities non-negative |
| Cart.CartRemovedTotal | src/main/java/bookstore/inventory/ShoppingCart.java:117-127 | a failed removal leaves the cart as it was; a successful one lowers the total by q and deletes the line exactly when it reaches zero |
| Cart.CartRemovedNonNegative | src/main/java/bookstore/inventory/ShoppingCart.java:117-127 | removing keeps the cart's quantities non-negative |
| Cart.ReducedSum | src/main/java/bookstore/inventory/ShoppingCart.java:79 | reducing by at most the stock takes exactly q copies out of the inventory |
| Cart.CartAddConserves | src/main/java/bookstore/inventory/ShoppingCart.java:73-100 | adding creates no copies: cart plus inventory keep their total, and the cart gains q exactly on success |
| Cart.CartAddHeadroom | src/main/java/bookstore/inventory/ShoppingCart.java:76 | after adding q, every line still has room for the remaining adds without overflow |
| Cart.CartRemoveLosesCopies | src/main/java/bookstore/inventory/ShoppingCart.java:119-135 | a successful removal makes q copies disappear from cart plus inventory, because the put-back loop never matches |
| BookFiltering.CreateBookList | src/main/java/bookstore/inventory/BookFiltering.java:13-17 | the items' books, same length, same order |
| BookFiltering.GetItemsInStock | src/main/java/bookstore/inventory/BookFiltering.java:19-24 | keeps exactly the items with quantity > 0 (zero-quantity items are dropped) |
| BookFiltering.GetItemsInStockOrder | src/main/java/bookstore/inventory/BookFiltering.java:19-24 | the filter distributes over concatenation, so the original order is kept |
| BookFiltering.AllAuthorsOf | src/main/java/bookstore/inventory/BookFiltering.java:28 | the flattened author list holds every book's authors and nothing else |
| BookFiltering.AllAuthorsAppend | src/main/java/bookstore/inventory/BookFiltering.java:28 | flattening distributes over concatenation, so authors keep book order |
| BookFiltering.GetAllAuthors | src/main/java/bookstore/inventory/BookFiltering.java:26-32 | every author's full name once, nothing else, in order of first occurrence |
| BookFiltering.GetAllGenres | src/main/java/bookstore/inventory/BookFiltering.java:34-39 | every genre once, nothing else, no longer than the input, in order of first occurrence |
| BookFiltering.GetAllPublishers | src/main/java/bookstore/inventory/BookFiltering.java:41-46 | every publisher once, nothing else, no longer than the input, in order of first occurrence |
| Sorting.LexLessIrreflexive | src/main/java/bookstore/inventory/CheckoutController.java:91 | no title sorts before itself |
| Sorting.LexLessTransitive | src/main/java/bookstore/inventory/CheckoutController.java:91 | title order is transitive |
| Sorting.LexLessTotal | src/main/java/bookstore/inventory/CheckoutController.java:91 | of two different titles, one sorts first |
| Sorting.CriterionOf | src/main/java/bookstore/inventory/CheckoutController.java:86-94 | the criterion whose label is the string, and None exactly when no label matches |
| Sorting.BeforeOrder | src/main/java/bookstore/inventory/CheckoutController.java:86-91 | each comparator is a strict weak order: asymmetric, with transitive incomparability |
| Sorting.InsertPermutes | src/main/java/bookstore/inventory/CheckoutController.java:87 | insertion adds exactly the element |
| Sorting.InsertSorted | src/main/java/bookstore/inventory/CheckoutController.java:87 | insertion into a sorted list keeps it sorted |
| Sorting.InsertStable | src/main/java/bookstore/inventory/CheckoutController.java:87 | insertion goes after every element with an equal key |
| Sorting.SortPermutes | src/main/java/bookstore/inventory/CheckoutController.java:87-91 | `List.sort` is a permutation |
| Sorting.SortSorted | src/main/java/bookstore/inventory/CheckoutController.java:87-91 | `List.sort` leaves no element after one that sorts before it |
| Sorting.SortStable | src/main/java/bookstore/inventory/CheckoutController.java:87-91 | `List.sort` keeps the relative order of elements with equal keys |
| Sorting.SortByLabelOrders | src/main/java/bookstore/inventory/CheckoutController.java:86-94 | "low_to_high": prices never decrease; "high_to_low": they never increase; "alphabetical": titles never decrease; an unknown label keeps the order; always a stable permutation |
| Users.FindByUsername | src/main/java/bookstore/users/UserController.java:117 | exactly the stored users with that username |
| Users.Register | src/main/java/bookstore/users/UserController.java:116-137 | saves exactly when the lookup succeeds empty and both fields are non-empty; otherwise "register" with the duplicate, empty-field or unexpected-error message, checked in that order |
| Users.RegisterKeepsUnique | src/main/java/bookstore/users/UserController.java:117-131 | saving what registration accepts keeps usernames unique |
| Users.Login | src/main/java/bookstore/users/UserController.java:171-204 | grants access exactly when the first user found has the form's password, then sets the "username" session cookie with path "/" and redirects; otherwise "login" with the unknown-user, invalid or unexpected-error message |
| Users.LastSessionValueIsLast | src/main/java/bookstore/users/UserController.java:231-235 | the session value is that of a live "username" cookie with no live one after it, and None exactly when none is live |
| Users.LoggedInUser | src/main/java/bookstore/users/UserController.java:207-224 | a stored user named by the session cookie, and None exactly when there is no session or no such user |
| Users.RetreiveCookie | src/main/java/bookstore/users/UserController.java:226-237 | the loop's result is the session username, None for a missing cookie array |
| Users.EntryPage | src/main/java/bookstore/users/UserController.java:66-81 | the register, login and start pages send a logged-in user to the listing and show anyone else the form |
| Users.UserController.constructor | src/main/java/bookstore/users/UserController.java:35-49 | access starts false |
| Users.UserController.SaveUser | src/main/java/bookstore/users/UserController.java:89-102 | keeps id, name, password and type, gives the user a fresh empty cart on the inventory, and appends the user to the store |
| Users.UserController.CreateAccountSubmit | src/main/java/bookstore/users/UserController.java:112-138 | shows the `Register` decision; when it saves, appends exactly one user with the form's id, name, password and type and a fresh empty cart on the inventory, and otherwise stores nothing |
| Users.UserController.HandleUserLogin | src/main/java/bookstore/users/UserController.java:169-205 | shows the `Login` decision; access becomes true on success and is otherwise kept |
| Users.UserController.GetLoggedInUser | src/main/java/bookstore/users/UserController.java:207-224 | the loop-based lookup agrees with `LoggedInUser` |
| Users.UserController.HandleUserLogout | src/main/java/bookstore/users/UserController.java:245-271 | clears access, redirects to "/", and sends one removal cookie exactly when a "username" cookie came in |
| JavaStrings.TrimStart | src/main/java/bookstore/inventory/BookController.java:81 | the leading part of `trim`: the suffix of the string reached by dropping characters <= ' ' only, which does not start with one |
| JavaStrings.TrimEnd | src/main/java/bookstore/inventory/BookController.java:81 | the trailing part of `trim`: the prefix of the string reached by dropping characters <= ' ' only, which does not end with one |
| JavaStrings.Trim | src/main/java/bookstore/inventory/BookController.java:81 | `String.trim`: neither end of the result is a character <= ' ' (that it is the string between a blank prefix and a blank suffix is `TrimSubstring`) |
| JavaStrings.TrimSubstring | src/main/java/bookstore/inventory/BookController.java:81 | `trim` returns the substring between a prefix and a suffix made only of characters <= ' ' |
| JavaStrings.DropTrailingEmpty | src/main/java/bookstore/inventory/BookController.java:77 | `split` drops exactly the trailing empty strings |
| JavaStrings.SkipSpaces | src/main/java/bookstore/inventory/BookController.java:81 | the suffix reached by dropping `\s` characters only, which does not start with one |
| JavaStrings.Segments | src/main/java/bookstore/inventory/BookController.java:81 | at least one segment, the first non-empty when the string starts with a non-space (what the segments are is `SegmentsAreRuns` and `SegmentsCollapse`) |
| JavaStrings.SegmentsAreRuns | src/main/java/bookstore/inventory/BookController.java:81 | no segment holds a `\s` character and only the first and last can be empty |
| JavaStrings.SegmentsCollapse | src/main/java/bookstore/inventory/BookController.java:81 | the segments joined with single spaces are the string with each whitespace run collapsed to one space, so together with `SegmentsAreRuns` they are exactly the maximal non-space runs |
| JavaStrings.SplitSpaces | src/main/java/bookstore/inventory/BookController.java:81 | `split("\\s+")`: the string itself when it has no whitespace, otherwise the segments without the trailing empty ones; no part holds a space, and there is at least one part when the string is empty or starts with a non-space |
| JavaStrings.PiecesAt | src/main/java/bookstore/inventory/BookController.java:77 | a separator after a separator-free prefix cuts exactly there |
| JavaStrings.PiecesNone | src/main/java/bookstore/inventory/BookController.java:77 | a string without the separator is one piece |
| JavaStrings.SegmentsWord | src/main/java/bookstore/inventory/BookController.java:81 | a leading word stays in the first segment |
| JavaStrings.SegmentsSpaceWord | src/main/java/bookstore/inventory/BookController.java:81 | a space then a word gives an empty segment and the word |
| JavaStrings.SplitTwoWords | src/main/java/bookstore/inventory/BookController.java:81-83 | "First Last" splits into exactly the two names |
| JavaStrings.SplitOneWord | src/main/java/bookstore/inventory/BookController.java:81-83 | a single word splits into itself, so the last name is empty |
| BookForms.ParseAuthors | src/main/java/bookstore/inventory/BookController.java:77-83 | one (first, last) name per comma-separated piece, in order |
| BookForms.NoSpaces | src/main/java/bookstore/inventory/BookController.java:81 | a plain name contains no whitespace |
| BookForms.PiecesOfJoin | src/main/java/bookstore/inventory/BookController.java:131-133 | the comma pieces of the ", "-joined names are the names, each after the first with its leading space |
| BookForms.TrimDisplayed | src/main/java/bookstore/inventory/BookController.java:131-133 | trimming a displayed name, with or without its leading space, gives "First Last" back |
| BookForms.ParseDisplayed | src/main/java/bookstore/inventory/BookController.java:81-83 | parsing a displayed name gives the author's (first, last) names |
| BookForms.SplitOfJoin | src/main/java/bookstore/inventory/BookController.java:77 | `split(",")` of the joined names drops nothing when no name is empty |
| BookForms.DisplayNoComma | src/main/java/bookstore/inventory/BookController.java:132 | a displayed name with plain first and last names has no comma and is not empty |
| BookForms.ReadSegment | src/main/java/bookstore/inventory/BookController.java:131-133 | the i-th comma piece of the display string (the first as it is, each later one with the space that follows ", ") parses back as the i-th author's (first, last) names |
| BookForms.ParseAuthorsOfDisplay | src/main/java/bookstore/inventory/BookController.java:131-133 | parsing the edit page's author string gives back every author's (first, last) names, in order, for a non-empty list of non-empty names without whitespace or commas |
| BookForms.ParseAuthorsOfNoAuthors | src/main/java/bookstore/inventory/BookController.java:131-133 | a book with no authors displays as "", and "" parses back as one author with empty names, not as no authors: the one exception to the round trip |
| BookForms.ShowUploadForm | src/main/java/bookstore/inventory/BookController.java:56-66 | "uploadBook" exactly for a logged-in owner, otherwise "access-denied" |
| BookForms.ShowEditForm | src/main/java/bookstore/inventory/BookController.java:120-139 | "access-denied" exactly for a non-owner, "editBook" with the joined author string exactly when the ISBN is stored, otherwise "redirect:/" |
| BookForms.ShowBookDetails | src/main/java/bookstore/inventory/BookController.java:191-214 | "access-denied" exactly without a user, "book-info" with the joined author string exactly when the ISBN is stored, otherwise "redirect:/" |
| BookForms.ResolvedKept | src/main/java/bookstore/inventory/BookController.java:85-93 | an author resolved against the store stays resolved when authors are added later |
| BookForms.ResolvedAll | src/main/java/bookstore/inventory/BookController.java:80-95 | resolved authors are stored, repeated names get the same author, and a name already stored gets the first stored author with it |
| BookForms.ResolvedNew | src/main/java/bookstore/inventory/BookController.java:87-89 | a new author for an unstored name is resolved once appended |
| BookForms.BookController.constructor | src/main/java/bookstore/inventory/BookController.java:41-45 | stores the repositories it is given |
| BookForms.BookController.FindOrCreateAuthor | src/main/java/bookstore/inventory/BookController.java:85-93 | reuses the first stored author with the name, otherwise creates one with that name and appends it to the store |
| BookForms.BookController.ResolveNames | src/main/java/bookstore/inventory/BookController.java:80-95 | one author per name with that name, resolved against the store: a name already stored gets its first stored author, and repeated names share one author; the store keeps its old authors in front and gains only fresh, pairwise distinct authors, each one of the returned authors and named by a name the old store lacked |
| BookForms.BookController.ResolveAuthors | src/main/java/bookstore/inventory/BookController.java:77-95 | `ResolveNames` on the parsed author field, with the same guarantees: every added author is a distinct fresh author created for a parsed name missing from the old store |
| BookForms.BookController.HandleUploadForm | src/main/java/bookstore/inventory/BookController.java:75-111 | stores the book under its ISBN with one author per parsed name, each the first stored author with that name or a new stored one, repeated names sharing one author; the author store gains only distinct fresh authors of the stored book, each for a name the old store lacked; the freshly bound book gets a new inventory entry with one copy at the end of the list; redirects to the listing |
| BookForms.BookController.HandleEditForm | src/main/java/bookstore/inventory/BookController.java:149-175 | stores the book under its ISBN with one author per parsed name, each the first stored author with that name or a new stored one, repeated names sharing one author; the author store gains only distinct fresh authors of the stored book, each for a name the old store lacked; redirects to the book's detail page |
| BookForms.UploadAppendsEntry | src/main/java/bookstore/inventory/BookController.java:103-106 | an upload appends a new one-copy entry and keeps the ledger valid; other books' stock is unchanged, and an older entry with the same ISBN still comes first for the lookup by ISBN |
| Checkout.GuardedPage | src/main/java/bookstore/inventory/CheckoutController.java:150-161 | the add and remove forms and the book page deny anyone not logged in |
| Checkout.ViewBook | src/main/java/bookstore/inventory/CheckoutController.java:132-142 | "book-info" for a logged-in user, with the book exactly when the ISBN is stored |
| Checkout.SearchError | src/main/java/bookstore/inventory/CheckoutController.java:74-81 | an error exactly when a non-empty search finds nothing, with the quoted search value |
| Checkout.ListedSelection | src/main/java/bookstore/inventory/CheckoutController.java:74-94 | an empty search lists a permutation of all available books, a non-empty one a permutation of the search results, and an unknown label keeps their order |
| Checkout.AddEachSplit | src/main/java/bookstore/inventory/CheckoutController.java:182-200 | the loop over a list of ids is the loop over its first part followed, unless it threw, by the loop over the rest |
| Checkout.AddEachConserves | src/main/java/bookstore/inventory/CheckoutController.java:182-200 | the add loop creates no copies: cart plus inventory keep their total, the cart gains at most one copy per id, and quantities stay non-negative |
| Checkout.RemoveEachTotals | src/main/java/bookstore/inventory/CheckoutController.java:257-291 | the remove loop takes at most one copy per id, keeps quantities non-negative, and never throws from the checkout page |
| Checkout.CheckoutController.constructor | src/main/java/bookstore/inventory/CheckoutController.java:27-45 | the flag starts false |
| Checkout.CheckoutController.ListAvailableBooks | src/main/java/bookstore/inventory/CheckoutController.java:56-124 | resets the flag; "access-denied" without a user, touching nothing; otherwise "home" with the sorted selection, the search error and the distinct authors, genres and publishers of the listed books; an empty search sorts the inventory's own list in place |
| Checkout.CheckoutController.ViewCart | src/main/java/bookstore/inventory/CheckoutController.java:316-340 | sets the flag only past the login check, then shows the cart's lines, or throws for a user without a cart |
| Checkout.CheckoutController.GetTotalInCart | src/main/java/bookstore/inventory/CheckoutController.java:209-218 | the cart's wrapped total, or a null-pointer exception without a cart |
| Checkout.CheckoutController.AddToCart | src/main/java/bookstore/inventory/CheckoutController.java:171-202 | without a user, a null-pointer exception; for a user without a cart, a redirect to the listing when nothing is selected and a null-pointer exception otherwise; with a cart, the loop's cart, inventory and outcome are those of `AddEach`, and no selection changes nothing and redirects |
| Checkout.CheckoutController.RemoveFromCart | src/main/java/bookstore/inventory/CheckoutController.java:245-308 | without a user, a null-pointer exception; for a user without a cart, a redirect to the listing when the flag is unset and nothing is selected, a null-pointer exception otherwise; with a cart, the loop's cart and outcome are those of `RemoveEach` on the flag's path, the inventory is untouched, and the view is "checkout" when the flag is set, the listing otherwise |
| Checkout.CheckoutController.ConfirmOrder | src/main/java/bookstore/inventory/CheckoutController.java:348-365 | empties the cart, keeps the inventory, and shows "order-confirmation" |
| JavaInt.Wrap | src/main/java/bookstore/inventory/ShoppingCart.java:205 | truncation to a 32-bit signed `int`: the identity on the range, and congruent modulo 2^32 |
| JavaInt.Add | src/main/java/bookstore/inventory/ShoppingCart.java:76 | Java's `int` addition: exact in range, one modulus off on overflow |
| JavaInt.AddOfWrap | src/main/java/bookstore/inventory/ShoppingCart.java:202-208 | adding to a wrapped running total equals wrapping the exact total |

## Left out

- Floating-point money is not modelled: the cart's `updateTotalPrice` and its `totalPrice` field (`float` cast, ShoppingCart.java:146-152), the rounded checkout totals (CheckoutController.java:295-303, 329-334), `Double.parseDouble` of the price filter (CheckoutController.java:110), and `calculateJaccardDistance` (UserController.java:299-307).
- `getItemsMatchingFilters`, `getBookWithLowestPrice` and `getBookWithHighestPrice` are not part of this model, their bodies are not available, so the listing's final filtered list and its min/max price attributes are not modelled; `Listing.listed` is the sorted list before those filters.
- Stock.Inventory.FindAvailableBook and Stock.Inventory.ReduceFromInventory: Inventory.java declares neither body; only their call sites exist (ShoppingCart.java:66 and 79). The model assumes `findAvailableBook` returns the first entry whose book has the ISBN, and `reduceFromInventory` subtracts the quantity from that same entry through the guarded setter, keeps an entry that reaches zero, and checks no book identity. `Cart.CartAddOutcome`, `Cart.CartAddConserves`, `Cart.ReducedSum`, `Stock.ReducedStock` and the checkout lemmas built on them hold for that assumed behaviour only.
- `getBooksMatchingSearch` is not part of this model; its result is the `searchResults` parameter, taken to be a list separate from the inventory's own.
- `Author.getFullName` is not part of this model; `GetAllAuthors` and the listing take the naming function as a parameter.
- `findByFirstNameAndLastName` is modelled as the first author in the store with both names, which is what the reuse-or-create loop needs; the repository's ordering is not known.
- Persistence: every `*Repository` save, delete and find is a field or parameter (the user store, the author store, book and id maps); saving is assignment, and the deletion of zero-quantity cart rows from the repository (CheckoutController.java:279-282, 360) is not modelled separately since the cart list already drops lines that reach zero.
- HTTP plumbing: request and response objects, `Model` attributes other than returned values, and Spring annotations; the cookie array is an `Option<seq<Cookie>>` and the response cookie a returned value.
- `System.out` logging is not modelled.
- The UUID confirmation number in `confirmOrder` is randomness and is not modelled.
- `Integer.parseInt` of the selected ids is not modelled (ids are integers); a malformed id's `NumberFormatException` is left out.
- The `handleEditForm` exception path (BookController.java:176-180) and its transaction rollback are not modelled, because no modelled step of the handler throws.
- `Book` is a value, and its `authors` are a snapshot sequence of author references; the model does not track later changes to a stored book through another reference. `Item` in the cart and inventory is an `Entry` value inside the list, so two lists sharing one item object are not modelled.
- The ISBN is a string key, as the tests and call sites use it, where `Book` declares an `Integer`; the price is integer cents where `Book` declares a `Float`.
- `char` is a Unicode scalar value where Java's `String` is UTF-16 code units; `trim` and `\s` are modelled on those characters. The title sort (CheckoutController.java:91) orders by `String.compareTo`, which compares UTF-16 code units; `Sorting.LexLess` compares scalar values instead, so the model's order differs from Java's for titles with characters outside the Basic Multilingual Plane.
- Cart.CartAddTotals: the cart total rises by exactly q only when no line overflows a Java `int`; with an overflowing line the total wraps and the lemma does not apply.
- Checkout.AddEachConserves: states conservation only under the same no-overflow hypothesis (every line has room for one copy per selected id).
- BookForms.BookController.HandleUploadForm: requires that no inventory entry holds the uploaded `Book` object. Spring binds the form to a new `Book`, and `Book` compares by identity, so this always holds in the program; the model does not cover a caller that passes a stocked object.
- BookForms.BookController.ResolveAuthors: the author field is parsed in full before the reuse-or-create loop runs, where the code parses each segment inside the loop; since parsing changes no state this gives the same authors.
- The `userController` reference of the book and checkout controllers is replaced by passing the logged-in user (`Option<User>`) to each handler. `getTotalInCart` and `confirmOrder` take that user's cart instead (`ShoppingCart?`, null when there is no user or no cart): both dereference the user and then the cart before anything else, so the two null cases end alike.
- The no-argument constructors of `Author`, `Item`, `ShoppingCart` and the two-argument `ShoppingCart(inventory, user)` are not modelled (only `Inventory.Empty` is); they exist for JPA and are not called by the modelled code.
