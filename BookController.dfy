/** The book forms: owner-only access to the upload and edit forms, reading
    the comma-separated `authorsInput` into (first, last) names, reusing or
    creating authors in the author store, and showing a book's authors as
    "First Last" joined by ", ". */
module BookForms {
  import opened Wrappers
  import opened Catalog
  import opened Items
  import opened Seqs
  import opened Stock
  import opened Users
  import opened JavaStrings

  datatype Name = Name(first: string, last: string)

  /** One comma-separated segment: trimmed and split on runs of whitespace;
      the first token is the first name, the second (or "") the last name,
      and any further tokens are dropped. */
  function ParseName(segment: string): Name {
    var parts := SplitSpaces(Trim(segment));
    Name(parts[0], if |parts| > 1 then parts[1] else "")
  }

  /** Every segment of `authorsInput.split(",")` gives one name, in order.
      The ensures only unfold the `Map` for callers; what the parse means is
      stated by `ParseAuthorsOfDisplay`, which reads the edit page's author
      string back into the authors' names. */
  function ParseAuthors(authorsInput: string): (r: seq<Name>)
    ensures |r| == |Split(authorsInput, ',')|
    ensures forall i :: 0 <= i < |r| ==> r[i] == ParseName(Split(authorsInput, ',')[i])
  {
    Map(Split(authorsInput, ','), ParseName)
  }

  function DisplayName(a: Author): string {
    a.firstName + " " + a.lastName
  }

  /** The author list shown on the edit and details pages. */
  function DisplayAuthors(authors: seq<Author>): string {
    Join(Map(authors, DisplayName), ", ")
  }

  function NameOf(a: Author): Name {
    Name(a.firstName, a.lastName)
  }

  /** A name that survives the display string: non-empty, with no character
      that `trim` or `\s` would take and no comma. */
  predicate PlainName(s: string) {
    s != [] && forall k :: 0 <= k < |s| ==> !IsTrimmed(s[k]) && s[k] != ','
  }

  /** An author whose names can be read back: a plain first name and a plain
      or empty last name. */
  predicate Readable(a: Author) {
    PlainName(a.firstName) && (a.lastName == "" || PlainName(a.lastName))
  }

  lemma NoSpaces(s: string)
    requires PlainName(s)
    ensures SpaceFree(s)
  {
  }

  function Pad(x: string): string {
    " " + x
  }

  /** The pieces of a ", "-joined list are the items, each after the first
      keeping the space that followed the comma. */
  lemma {:induction false} PiecesOfJoin(xs: seq<string>)
    requires |xs| >= 1
    requires forall i :: 0 <= i < |xs| ==> ',' !in xs[i]
    ensures Pieces(Join(xs, ", "), ',') == [xs[0]] + Map(xs[1..], Pad)
  {
    if |xs| == 1 {
      PiecesNone(xs[0], ',');
    } else {
      var rest := Join(xs[1..], ", ");
      assert Join(xs, ", ") == xs[0] + [','] + ([' '] + rest);
      PiecesAt(xs[0], [' '] + rest, ',');
      PiecesOfJoin(xs[1..]);
      var p := Pieces(rest, ',');
      assert ([' '] + rest)[1..] == rest;
      assert Pieces([' '] + rest, ',') == [[' '] + p[0]] + p[1..];
      assert xs[1..][1..] == xs[2..];
      assert Map(xs[1..], Pad) == [Pad(xs[1])] + Map(xs[2..], Pad);
    }
  }

  lemma TrimStartLead(lead: string, w: string)
    requires lead == "" || lead == " "
    requires w != [] && !IsTrimmed(w[0])
    ensures TrimStart(lead + w) == w
  {
    if lead == " " {
      assert (lead + w)[1..] == w;
    } else {
      assert lead + w == w;
    }
  }

  lemma TrimEndSpace(f: string)
    requires f != [] && !IsTrimmed(f[|f| - 1])
    ensures TrimEnd(f + [' ']) == f
  {
    assert (f + [' '])[..|f|] == f;
  }

  /** Trimming a displayed name, with or without the space after a comma. */
  lemma TrimDisplayed(a: Author, lead: string)
    requires Readable(a) && (lead == "" || lead == " ")
    ensures Trim(lead + DisplayName(a)) ==
              if a.lastName == "" then a.firstName else a.firstName + [' '] + a.lastName
  {
    var f, l := a.firstName, a.lastName;
    var body := f + [' '] + l;
    assert DisplayName(a) == body;
    assert body[0] == f[0];
    TrimStartLead(lead, body);
    if l == "" {
      assert body == f + [' '];
      TrimEndSpace(f);
    } else {
      assert body[|body| - 1] == l[|l| - 1];
    }
  }

  /** A displayed name reads back as the author's names. */
  lemma ParseDisplayed(a: Author, lead: string)
    requires Readable(a) && (lead == "" || lead == " ")
    ensures ParseName(lead + DisplayName(a)) == NameOf(a)
  {
    var f, l := a.firstName, a.lastName;
    NoSpaces(f);
    TrimDisplayed(a, lead);
    var t := Trim(lead + DisplayName(a));
    if l == "" {
      assert t == f;
      SplitOneWord(f);
      assert SplitSpaces(t) == [f];
    } else {
      NoSpaces(l);
      assert t == f + [' '] + l;
      SplitTwoWords(f, l);
      assert SplitSpaces(t) == [f, l];
    }
  }

  /** Splitting a ", "-joined list of non-empty items without commas gives
      the items back, each after the first with its leading space. */
  lemma SplitOfJoin(xs: seq<string>)
    requires |xs| >= 1
    requires forall i :: 0 <= i < |xs| ==> ',' !in xs[i] && xs[i] != ""
    ensures Split(Join(xs, ", "), ',') == [xs[0]] + Map(xs[1..], Pad)
  {
    PiecesOfJoin(xs);
    var want := [xs[0]] + Map(xs[1..], Pad);
    if |xs| > 1 {
      assert want[|want| - 1] == Map(xs[1..], Pad)[|xs| - 2];
    }
    SplitAllPieces(Join(xs, ", "), ',');
  }

  lemma DisplayNoComma(a: Author)
    requires Readable(a)
    ensures ',' !in DisplayName(a) && DisplayName(a) != ""
  {
    var f, l := a.firstName, a.lastName;
    assert DisplayName(a) == f + [' '] + l;
    assert forall k :: 0 <= k < |DisplayName(a)| ==> DisplayName(a)[k] != ',' by {
      forall k | 0 <= k < |DisplayName(a)|
        ensures DisplayName(a)[k] != ','
      {
        if k < |f| {
          assert DisplayName(a)[k] == f[k];
        } else if k > |f| {
          assert DisplayName(a)[k] == l[k - |f| - 1];
        }
      }
    }
  }

  /** The `i`-th piece of the display string reads back as the `i`-th author. */
  lemma ReadSegment(authors: seq<Author>, i: nat)
    requires i < |authors| && Readable(authors[i])
    ensures var xs := Map(authors, DisplayName);
            ParseName(([xs[0]] + Map(xs[1..], Pad))[i]) == NameOf(authors[i])
  {
    var xs := Map(authors, DisplayName);
    if i == 0 {
      assert ([xs[0]] + Map(xs[1..], Pad))[i] == "" + DisplayName(authors[0]);
      ParseDisplayed(authors[0], "");
    } else {
      assert ([xs[0]] + Map(xs[1..], Pad))[i] == " " + DisplayName(authors[i]);
      ParseDisplayed(authors[i], " ");
    }
  }

  /** Reading back the display string of a non-empty list of readable
      authors gives their (first, last) names, in order. The one exception,
      the empty list, is `ParseAuthorsOfNoAuthors`. */
  lemma ParseAuthorsOfDisplay(authors: seq<Author>)
    requires |authors| > 0
    requires forall i :: 0 <= i < |authors| ==> Readable(authors[i])
    ensures ParseAuthors(DisplayAuthors(authors)) == Map(authors, NameOf)
  {
    var xs := Map(authors, DisplayName);
    forall i | 0 <= i < |xs|
      ensures ',' !in xs[i] && xs[i] != ""
    {
      DisplayNoComma(authors[i]);
    }
    SplitOfJoin(xs);
    var r := ParseAuthors(DisplayAuthors(authors));
    assert |r| == |authors|;
    forall i | 0 <= i < |authors|
      ensures r[i] == NameOf(authors[i])
    {
      ReadSegment(authors, i);
    }
  }

  /** A book without authors displays as "", and "" reads back as one
      author with empty first and last names, not as no authors. */
  lemma ParseAuthorsOfNoAuthors()
    ensures DisplayAuthors([]) == ""
    ensures ParseAuthors("") == [Name("", "")]
  {
  }

  /** The upload and edit forms are shown only to a logged-in owner. */
  predicate OwnerAccess(loggedIn: Option<User>) {
    loggedIn.Some? && loggedIn.value.userType == BookOwnerType
  }

  function ShowUploadForm(loggedIn: Option<User>): (view: string)
    ensures view == "uploadBook" <==> OwnerAccess(loggedIn)
    ensures view != "uploadBook" ==> view == "access-denied"
  {
    if !OwnerAccess(loggedIn) then "access-denied" else "uploadBook"
  }

  /** A page and the author list it shows, if any. */
  datatype BookPage = BookPage(view: string, authors: Option<string>)

  /** `showEditForm`: the owner check first, then the lookup by ISBN. */
  function ShowEditForm(loggedIn: Option<User>, books: map<string, Book>, isbn: string): (r: BookPage)
    ensures r.view == "access-denied" <==> !OwnerAccess(loggedIn)
    ensures r.view == "editBook" <==> OwnerAccess(loggedIn) && isbn in books
    ensures r.view == "redirect:/" <==> OwnerAccess(loggedIn) && isbn !in books
    ensures r.authors.Some? <==> r.view == "editBook"
    ensures r.view == "editBook" ==> r.authors == Some(DisplayAuthors(books[isbn].authors))
  {
    if !OwnerAccess(loggedIn) then BookPage("access-denied", None)
    else if isbn in books then BookPage("editBook", Some(DisplayAuthors(books[isbn].authors)))
    else BookPage("redirect:/", None)
  }

  /** `showBookDetails`: any logged-in user may see a stored book. */
  function ShowBookDetails(loggedIn: Option<User>, books: map<string, Book>, isbn: string): (r: BookPage)
    ensures r.view == "access-denied" <==> loggedIn.None?
    ensures r.view == "book-info" <==> loggedIn.Some? && isbn in books
    ensures r.view == "redirect:/" <==> loggedIn.Some? && isbn !in books
    ensures r.authors.Some? <==> r.view == "book-info"
    ensures r.view == "book-info" ==> r.authors == Some(DisplayAuthors(books[isbn].authors))
  {
    if loggedIn.None? then BookPage("access-denied", None)
    else if isbn in books then BookPage("book-info", Some(DisplayAuthors(books[isbn].authors)))
    else BookPage("redirect:/", None)
  }

  /** The author is stored under that (first, last) name. */
  function Named(n: Name): Author -> bool {
    (a: Author) => a.firstName == n.first && a.lastName == n.last
  }

  /** `a` is the first stored author named `n`. */
  ghost predicate ResolvedIn(store: seq<Author>, a: Author, n: Name) {
    FirstIndex(store, Named(n)).Some? && a == store[FirstIndex(store, Named(n)).value]
  }

  /** Appending to the store keeps every name resolved to the same author. */
  lemma ResolvedKept(store: seq<Author>, added: seq<Author>, a: Author, n: Name)
    requires ResolvedIn(store, a, n)
    ensures ResolvedIn(store + added, a, n)
  {
    FirstIndexAppend(store, added, Named(n));
    assert (store + added)[FirstIndex(store, Named(n)).value] == a;
  }

  /** When every name resolves to its author in the grown store, equal names
      have one author, every author is stored, and a name already stored
      before resolves to the author stored before. */
  lemma ResolvedAll(previous: seq<Author>, added: seq<Author>, authors: seq<Author>, names: seq<Name>)
    requires |authors| == |names|
    requires forall k :: 0 <= k < |names| ==> ResolvedIn(previous + added, authors[k], names[k])
    ensures forall i :: 0 <= i < |names| ==> authors[i] in previous + added
    ensures forall i, j :: 0 <= i < |names| && 0 <= j < |names| && names[i] == names[j] ==> authors[i] == authors[j]
    ensures forall i :: 0 <= i < |names| && FirstIndex(previous, Named(names[i])).Some? ==>
              authors[i] == previous[FirstIndex(previous, Named(names[i])).value]
  {
    forall i | 0 <= i < |names| && FirstIndex(previous, Named(names[i])).Some?
      ensures authors[i] == previous[FirstIndex(previous, Named(names[i])).value]
    {
      FirstIndexAppend(previous, added, Named(names[i]));
    }
  }

  /** A new author stored under a name that was not stored resolves it. */
  lemma ResolvedNew(store: seq<Author>, a: Author, n: Name)
    requires FirstIndex(store, Named(n)).None? && NameOf(a) == n
    ensures ResolvedIn(store + [a], a, n)
  {
    FirstIndexAfter(store, [a], Named(n));
    assert Named(n)([a][0]);
  }

  /** The form-handling side: the book store (keyed by ISBN, the book's
      identifier), the author store and the single inventory. */
  class BookController {
    var books: map<string, Book>
    var authorStore: seq<Author>
    const inventory: Inventory

    constructor (books: map<string, Book>, authorStore: seq<Author>, inventory: Inventory)
      ensures this.books == books && this.authorStore == authorStore && this.inventory == inventory
    {
      this.books := books;
      this.authorStore := authorStore;
      this.inventory := inventory;
    }

    /** One turn of the author-input loop: the first stored author with the
        name, or a new author that is stored. */
    method FindOrCreateAuthor(name: Name) returns (author: Author)
      modifies this
      ensures NameOf(author) == name && ResolvedIn(authorStore, author, name)
      ensures FirstIndex(old(authorStore), Named(name)).Some? ==> authorStore == old(authorStore)
      ensures FirstIndex(old(authorStore), Named(name)).None? ==>
                authorStore == old(authorStore) + [author] && fresh(author)
      ensures books == old(books)
    {
      var found := FirstIndex(authorStore, Named(name));
      if found.None? {
        author := new Author(name.first, name.last);
        ResolvedNew(authorStore, author, name);
        authorStore := authorStore + [author];
      } else {
        author := authorStore[found.value];
        assert Named(name)(author);
      }
    }

    /** The author-input loop of the upload and edit handlers, over the names
        read from the segments (reading a segment is pure, so reading them all
        first changes nothing). The author lookup by name, which is not part
        of this model's sources, is taken to find the first stored author
        with both names. Each name gives one author, in order: the first
        stored one with that name, or a new one that is stored. So repeated
        names give one stored author. */
    method ResolveNames(names: seq<Name>) returns (authors: seq<Author>)
      modifies this
      ensures
              |authors| == |names| &&
              (forall i :: 0 <= i < |names| ==> NameOf(authors[i]) == names[i] && authors[i] in authorStore) &&
              (forall i, j :: 0 <= i < |names| && 0 <= j < |names| && names[i] == names[j] ==> authors[i] == authors[j])
      ensures
              forall i :: 0 <= i < |names| && FirstIndex(old(authorStore), Named(names[i])).Some? ==>
                authors[i] == old(authorStore)[FirstIndex(old(authorStore), Named(names[i])).value]
      ensures |old(authorStore)| <= |authorStore| && authorStore[..|old(authorStore)|] == old(authorStore)
      ensures forall k :: |old(authorStore)| <= k < |authorStore| ==> fresh(authorStore[k])
      ensures forall k :: |old(authorStore)| <= k < |authorStore| ==>
                authorStore[k] in authors && FirstIndex(old(authorStore), Named(NameOf(authorStore[k]))).None?
      ensures forall k, l :: |old(authorStore)| <= k < l < |authorStore| ==> authorStore[k] != authorStore[l]
      ensures books == old(books)
    {
      authors := [];
      ghost var added: seq<Author> := [];
      var i := 0;
      while i < |names|
        invariant 0 <= i <= |names| && |authors| == i
        invariant authorStore == old(authorStore) + added
        invariant forall k :: 0 <= k < |added| ==> fresh(added[k])
        invariant forall k :: 0 <= k < |added| ==>
                    added[k] in authors && FirstIndex(old(authorStore), Named(NameOf(added[k]))).None?
        invariant forall k, l :: 0 <= k < l < |added| ==> added[k] != added[l]
        invariant forall k :: 0 <= k < i ==> NameOf(authors[k]) == names[k]
        invariant forall k :: 0 <= k < i ==> ResolvedIn(authorStore, authors[k], names[k])
        invariant books == old(books)
      {
        ghost var before := authorStore;
        var author := FindOrCreateAuthor(names[i]);
        if |authorStore| != |before| {
          forall k | 0 <= k < i
            ensures ResolvedIn(authorStore, authors[k], names[k])
          {
            ResolvedKept(before, [author], authors[k], names[k]);
          }
          assert FirstIndex(old(authorStore), Named(NameOf(author))).None? by {
            assert forall j :: 0 <= j < |old(authorStore)| ==> old(authorStore)[j] == before[j];
          }
          added := added + [author];
        }
        authors := authors + [author];
        i := i + 1;
      }
      assert authorStore[..|old(authorStore)|] == old(authorStore);
      ResolvedAll(old(authorStore), added, authors, names);
    }

    /** The authors for the form's `authorsInput`: one per comma-separated
        segment, as `ResolveNames` finds or creates them. */
    method ResolveAuthors(authorsInput: string) returns (authors: seq<Author>)
      modifies this
      ensures var names := ParseAuthors(authorsInput);
              |authors| == |names| &&
              (forall i :: 0 <= i < |names| ==> NameOf(authors[i]) == names[i] && authors[i] in authorStore) &&
              (forall i, j :: 0 <= i < |names| && 0 <= j < |names| && names[i] == names[j] ==> authors[i] == authors[j])
      ensures var names := ParseAuthors(authorsInput);
              forall i :: 0 <= i < |names| && FirstIndex(old(authorStore), Named(names[i])).Some? ==>
                authors[i] == old(authorStore)[FirstIndex(old(authorStore), Named(names[i])).value]
      ensures |old(authorStore)| <= |authorStore| && authorStore[..|old(authorStore)|] == old(authorStore)
      ensures forall k :: |old(authorStore)| <= k < |authorStore| ==> fresh(authorStore[k])
      ensures forall k :: |old(authorStore)| <= k < |authorStore| ==>
                authorStore[k] in authors && FirstIndex(old(authorStore), Named(NameOf(authorStore[k]))).None?
      ensures forall k, l :: |old(authorStore)| <= k < l < |authorStore| ==> authorStore[k] != authorStore[l]
      ensures books == old(books)
    {
      authors := ResolveNames(ParseAuthors(authorsInput));
    }

    /** `handleUploadForm`: the book is stored with the authors read from the
        form, and one copy of it is added to the inventory. The form binds a
        new `Book` object and `Book` has no `equals` of its own, so no entry
        already holds that object and the copy is always a new entry, even
        beside an entry with the same ISBN. */
    method HandleUploadForm(book: Book, authorsInput: string) returns (view: string, stored: Book)
      requires forall j :: 0 <= j < |inventory.availableBooks| ==> !SameBook(inventory.availableBooks[j].book, book)
      modifies this, inventory
      ensures stored == book.(authors := stored.authors)
      ensures var names := ParseAuthors(authorsInput);
              |stored.authors| == |names| &&
              (forall i :: 0 <= i < |names| ==> NameOf(stored.authors[i]) == names[i] && stored.authors[i] in authorStore) &&
              (forall i, j :: 0 <= i < |names| && 0 <= j < |names| && names[i] == names[j] ==> stored.authors[i] == stored.authors[j])
      ensures var names := ParseAuthors(authorsInput);
              forall i :: 0 <= i < |names| && FirstIndex(old(authorStore), Named(names[i])).Some? ==>
                stored.authors[i] == old(authorStore)[FirstIndex(old(authorStore), Named(names[i])).value]
      ensures |old(authorStore)| <= |authorStore| && authorStore[..|old(authorStore)|] == old(authorStore)
      ensures forall k :: |old(authorStore)| <= k < |authorStore| ==> fresh(authorStore[k])
      ensures forall k :: |old(authorStore)| <= k < |authorStore| ==>
                authorStore[k] in stored.authors && FirstIndex(old(authorStore), Named(NameOf(authorStore[k]))).None?
      ensures forall k, l :: |old(authorStore)| <= k < l < |authorStore| ==> authorStore[k] != authorStore[l]
      ensures books == old(books)[book.isbn := stored]
      ensures inventory.availableBooks == old(inventory.availableBooks) + [Entry(stored, 1)]
      ensures view == ListingRedirect
    {
      var authors := ResolveAuthors(authorsInput);
      stored := book.(authors := authors);
      books := books[book.isbn := stored];
      var inventoryItem := new Item(stored, 1);
      AddedShape(inventory.availableBooks, Entry(stored, 1));
      var added := inventory.AddItemToInventory(inventoryItem);
      view := ListingRedirect;
    }

    /** `handleEditForm`: the book is stored (replacing the one with its
        ISBN) with the authors read from the form, and the details page of
        that ISBN follows. */
    method HandleEditForm(book: Book, authorsInput: string) returns (view: string, stored: Book)
      modifies this
      ensures stored == book.(authors := stored.authors)
      ensures var names := ParseAuthors(authorsInput);
              |stored.authors| == |names| &&
              (forall i :: 0 <= i < |names| ==> NameOf(stored.authors[i]) == names[i] && stored.authors[i] in authorStore) &&
              (forall i, j :: 0 <= i < |names| && 0 <= j < |names| && names[i] == names[j] ==> stored.authors[i] == stored.authors[j])
      ensures var names := ParseAuthors(authorsInput);
              forall i :: 0 <= i < |names| && FirstIndex(old(authorStore), Named(names[i])).Some? ==>
                stored.authors[i] == old(authorStore)[FirstIndex(old(authorStore), Named(names[i])).value]
      ensures |old(authorStore)| <= |authorStore| && authorStore[..|old(authorStore)|] == old(authorStore)
      ensures forall k :: |old(authorStore)| <= k < |authorStore| ==> fresh(authorStore[k])
      ensures forall k :: |old(authorStore)| <= k < |authorStore| ==>
                authorStore[k] in stored.authors && FirstIndex(old(authorStore), Named(NameOf(authorStore[k]))).None?
      ensures forall k, l :: |old(authorStore)| <= k < l < |authorStore| ==> authorStore[k] != authorStore[l]
      ensures books == old(books)[book.isbn := stored]
      ensures view == "redirect:/book/info/" + book.isbn
    {
      var authors := ResolveAuthors(authorsInput);
      stored := book.(authors := authors);
      books := books[book.isbn := stored];
      view := "redirect:/book/info/" + book.isbn;
    }
  }

  /** An upload appends a new entry with one copy: the ledger stays valid,
      the uploaded object's stock is 1, every other book's stock is
      unchanged, and an older entry with the same ISBN still comes first, so
      the cart's lookup by ISBN keeps finding that older entry. */
  lemma UploadAppendsEntry(ledger: Ledger, stored: Book, b: Book)
    requires Valid(ledger)
    requires forall j :: 0 <= j < |ledger| ==> !SameBook(ledger[j].book, stored)
    ensures Added(ledger, Entry(stored, 1)) == ledger + [Entry(stored, 1)]
    ensures Valid(Added(ledger, Entry(stored, 1)))
    ensures StockOf(Added(ledger, Entry(stored, 1)), b) == if SameBook(b, stored) then 1 else StockOf(ledger, b)
    ensures FirstIndex(ledger, HasIsbn(stored.isbn)).Some? ==>
              FirstIndex(Added(ledger, Entry(stored, 1)), HasIsbn(stored.isbn)) == FirstIndex(ledger, HasIsbn(stored.isbn))
  {
    AddedShape(ledger, Entry(stored, 1));
    AddedValid(ledger, Entry(stored, 1));
    StockOfAbsent(ledger, stored);
    AddedStock(ledger, Entry(stored, 1), b);
    if FirstIndex(ledger, HasIsbn(stored.isbn)).Some? {
      FirstIndexAppend(ledger, [Entry(stored, 1)], HasIsbn(stored.isbn));
    }
  }
}
