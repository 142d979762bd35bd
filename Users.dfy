/** Accounts and sessions: the registration and login decisions over a store
    of users looked up by username, the `userAccess` flag, and the
    "username" session cookie. */
module Users {
  import opened Wrappers
  import opened Seqs
  import opened Stock
  import opened Cart

  datatype UserType = BookUserType | BookOwnerType

  /** A `BookUser` (or `BookOwner`) record. Only the user type tells the two
      classes apart anywhere in the model. */
  datatype User = User(id: int, username: string, password: string, userType: UserType, cart: ShoppingCart?)

  /** An HTTP cookie; a negative `maxAge` is the servlet default (a session
      cookie), 0 asks the browser to delete it. */
  datatype Cookie = Cookie(name: string, value: string, maxAge: int, path: string)

  const CookieUsername := "username"

  /** `findByUsername`: the stored users with that username, in store order. */
  function FindByUsername(users: seq<User>, name: string): (r: seq<User>)
    ensures forall i :: 0 <= i < |r| ==> r[i] in users && r[i].username == name
    ensures forall i :: 0 <= i < |users| && users[i].username == name ==> users[i] in r
  {
    Filter(users, (u: User) => u.username == name)
  }

  /** No two stored users share a username. */
  ghost predicate UniqueUsernames(users: seq<User>) {
    forall i, j :: 0 <= i < j < |users| ==> users[i].username != users[j].username
  }

  /** What `createAccountSubmit` shows, and whether it saves the form's user. */
  datatype RegisterOutcome = RegisterOutcome(view: string, error: Option<string>, save: bool)

  const DuplicateError := "Username already exists. Please use a new username or login with the current username."
  const EmptyError := "Username or password cannot be empty."
  const UnexpectedError := "An unexpected error occurred: "

  /** The registration decision on the result of looking up the form's
      username (a `Failure` is an exception thrown by the lookup): the
      duplicate check comes first, then the empty-field check, and
      otherwise the user is saved. */
  function Register(lookup: Result<seq<User>>, form: User): (r: RegisterOutcome)
    ensures r.save <==> lookup == Success([]) && form.username != "" && form.password != ""
    ensures r.save ==> r.view == "redirect:/login" && r.error.None?
    ensures !r.save ==> r.view == "register" && r.error.Some?
    ensures lookup.Failure? ==> r.error == Some(UnexpectedError + lookup.message)
    ensures lookup.Success? && lookup.value != [] ==> r.error == Some(DuplicateError)
    ensures lookup == Success([]) && (form.username == "" || form.password == "") ==> r.error == Some(EmptyError)
  {
    match lookup
    case Failure(message) => RegisterOutcome("register", Some(UnexpectedError + message), false)
    case Success(existing) =>
      if existing != [] then RegisterOutcome("register", Some(DuplicateError), false)
      else if form.username == "" || form.password == "" then RegisterOutcome("register", Some(EmptyError), false)
      else RegisterOutcome("redirect:/login", None, true)
  }

  /** Saving what registration accepts keeps usernames unique. */
  lemma RegisterKeepsUnique(users: seq<User>, form: User, saved: User)
    requires UniqueUsernames(users)
    requires Register(Success(FindByUsername(users, form.username)), form).save
    requires saved.username == form.username
    ensures UniqueUsernames(users + [saved])
  {
    var all := users + [saved];
    forall i, j | 0 <= i < j < |all|
      ensures all[i].username != all[j].username
    {
      if j == |users| {
        assert users[i] in FindByUsername(users, users[i].username);
      }
    }
  }

  /** What `handleUserLogin` shows, the cookie it adds, and whether it grants
      access. */
  datatype LoginOutcome = LoginOutcome(view: string, error: Option<string>, cookie: Option<Cookie>, grantsAccess: bool)

  const InvalidLogin := "Invalid username/password"

  function UnknownUser(name: string): string {
    "Username " + name + " does not exist. Please register for a new account or use a different username"
  }

  /** The login decision on the result of looking up the form's username. It
      compares the password of the first user found only; empty fields are not
      checked. */
  function Login(lookup: Result<seq<User>>, form: User): (r: LoginOutcome)
    ensures r.grantsAccess <==> lookup.Success? && lookup.value != [] && lookup.value[0].password == form.password
    ensures r.grantsAccess ==>
              r.view == ListingRedirect && r.error.None? &&
              r.cookie == Some(Cookie(CookieUsername, lookup.value[0].username, -1, "/"))
    ensures !r.grantsAccess ==> r.view == "login" && r.cookie.None? && r.error.Some?
    ensures lookup.Failure? ==> r.error == Some(UnexpectedError + lookup.message)
    ensures lookup == Success([]) ==> r.error == Some(UnknownUser(form.username))
    ensures lookup.Success? && lookup.value != [] && !r.grantsAccess ==> r.error == Some(InvalidLogin)
  {
    match lookup
    case Failure(message) => LoginOutcome("login", Some(UnexpectedError + message), None, false)
    case Success(existing) =>
      if existing == [] then LoginOutcome("login", Some(UnknownUser(form.username)), None, false)
      else if existing[0].password == form.password then
        LoginOutcome(ListingRedirect, None, Some(Cookie(CookieUsername, existing[0].username, -1, "/")), true)
      else LoginOutcome("login", Some(InvalidLogin), None, false)
  }

  /** A live "username" cookie. */
  predicate IsSessionCookie(c: Cookie) {
    c.name == CookieUsername && c.maxAge != 0
  }

  /** The value `retreiveCookie` ends with: that of the last live "username"
      cookie, None for a missing array or when there is none. */
  function SessionUsername(cookies: Option<seq<Cookie>>): Option<string> {
    match cookies
    case None => None
    case Some(cs) => LastSessionValue(cs)
  }

  function LastSessionValue(cs: seq<Cookie>): Option<string> {
    if cs == [] then None
    else if IsSessionCookie(cs[|cs| - 1]) then Some(cs[|cs| - 1].value)
    else LastSessionValue(cs[..|cs| - 1])
  }

  /** The session value is that of a live "username" cookie with no live one
      after it, and there is none exactly when no cookie is live. */
  lemma {:induction false} LastSessionValueIsLast(cs: seq<Cookie>)
    ensures LastSessionValue(cs).None? <==> forall k :: 0 <= k < |cs| ==> !IsSessionCookie(cs[k])
    ensures LastSessionValue(cs).Some? ==>
              exists i :: 0 <= i < |cs| && IsSessionCookie(cs[i]) && cs[i].value == LastSessionValue(cs).value &&
                          forall k :: i < k < |cs| ==> !IsSessionCookie(cs[k])
  {
    if cs != [] {
      var n := |cs| - 1;
      if !IsSessionCookie(cs[n]) {
        LastSessionValueIsLast(cs[..n]);
        assert forall k :: 0 <= k < n ==> cs[..n][k] == cs[k];
        if LastSessionValue(cs[..n]).Some? {
          var i :| 0 <= i < n && IsSessionCookie(cs[..n][i]) && cs[..n][i].value == LastSessionValue(cs[..n]).value &&
                   forall k :: i < k < n ==> !IsSessionCookie(cs[..n][k]);
          assert forall k :: i < k < |cs| ==> !IsSessionCookie(cs[k]);
        }
      }
    }
  }

  /** `getLoggedInUser`: the first stored user named by the session cookie. */
  function LoggedInUser(users: seq<User>, cookies: Option<seq<Cookie>>): (r: Option<User>)
    ensures r.Some? ==> r.value in users && SessionUsername(cookies) == Some(r.value.username)
    ensures r.None? <==>
              SessionUsername(cookies).None? ||
              forall i :: 0 <= i < |users| ==> users[i].username != SessionUsername(cookies).value
  {
    match SessionUsername(cookies)
    case None => None
    case Some(name) =>
      var found := FindByUsername(users, name);
      if found == [] then None else Some(found[0])
  }

  /** `retreiveCookie`: scans every cookie, keeping the value of each live
      "username" cookie it meets. */
  method RetreiveCookie(cookies: Option<seq<Cookie>>) returns (result: Option<string>)
    ensures result == SessionUsername(cookies)
  {
    result := None;
    if cookies.None? {
      return None;
    }
    var cs := cookies.value;
    var i := 0;
    while i < |cs|
      invariant 0 <= i <= |cs|
      invariant result == LastSessionValue(cs[..i])
    {
      assert cs[..i + 1][..i] == cs[..i];
      if cs[i].name == CookieUsername && cs[i].maxAge != 0 {
        result := Some(cs[i].value);
      }
      i := i + 1;
    }
    assert cs[..i] == cs;
  }

  const ListingRedirect := "redirect:/listAvailableBooks"

  /** The register form, the login form and the start page: a logged-in
      user is sent on to the listing, anyone else is shown the page itself
      (`page` is "register", "login" or "register-login"). */
  function EntryPage(loggedIn: Option<User>, page: string): (view: string)
    ensures loggedIn.Some? ==> view == ListingRedirect
    ensures loggedIn.None? ==> view == page
  {
    if loggedIn.Some? then ListingRedirect else page
  }

  /** The removal cookie logout sends when a "username" cookie is present. */
  const RemoveCookie := Cookie(CookieUsername, "", 0, "/")

  function HasUsernameCookie(c: Cookie): bool {
    c.name == CookieUsername
  }

  class UserController {
    var userAccess: bool
    var users: seq<User>
    /** The single inventory every new cart shops from. */
    const inventory: Inventory

    constructor (users: seq<User>, inventory: Inventory)
      ensures !userAccess && this.users == users && this.inventory == inventory
    {
      userAccess := false;
      this.users := users;
      this.inventory := inventory;
    }

    function GetUserAccess(): bool
      reads this
    {
      userAccess
    }

    /** `saveUser`: an owner is rebuilt as a `BookOwner` with the same id,
        username and password; either way the user gets a new, empty cart on
        the inventory and is appended to the store. */
    method SaveUser(form: User) returns (saved: User)
      modifies this
      ensures saved.id == form.id && saved.username == form.username && saved.password == form.password
      ensures saved.userType == form.userType
      ensures saved.cart != null && fresh(saved.cart)
      ensures saved.cart.booksInCart == [] && saved.cart.inventory == inventory
      ensures users == old(users) + [saved]
      ensures userAccess == old(userAccess)
    {
      var user := form;
      if form.userType == BookOwnerType {
        user := User(form.id, form.username, form.password, BookOwnerType, form.cart);
      }
      var cart := new ShoppingCart(inventory);
      user := user.(cart := cart);
      users := users + [user];
      saved := user;
    }

    /** `createAccountSubmit`. `failure` is the message of an exception thrown
        by the username lookup, if it throws. */
    method CreateAccountSubmit(form: User, failure: Option<string>) returns (view: string, error: Option<string>)
      modifies this
      ensures var lookup := if failure.Some? then Failure(failure.value) else Success(FindByUsername(old(users), form.username));
              var d := Register(lookup, form);
              view == d.view && error == d.error &&
              (d.save ==> |users| == |old(users)| + 1 && users[..|old(users)|] == old(users)) &&
              (!d.save ==> users == old(users))
      ensures |users| > |old(users)| ==>
                var u := users[|old(users)|];
                u.id == form.id && u.username == form.username && u.password == form.password &&
                u.userType == form.userType &&
                u.cart != null && fresh(u.cart) && u.cart.booksInCart == [] && u.cart.inventory == inventory
      ensures userAccess == old(userAccess)
    {
      var lookup := if failure.Some? then Failure(failure.value) else Success(FindByUsername(users, form.username));
      var d := Register(lookup, form);
      if d.save {
        var saved := SaveUser(form);
      }
      view, error := d.view, d.error;
    }

    /** `handleUserLogin`: a successful login sets `userAccess`; a failed one
        leaves it as it was. */
    method HandleUserLogin(form: User, failure: Option<string>) returns (view: string, error: Option<string>, cookie: Option<Cookie>)
      modifies this
      ensures var lookup := if failure.Some? then Failure(failure.value) else Success(FindByUsername(users, form.username));
              var d := Login(lookup, form);
              view == d.view && error == d.error && cookie == d.cookie &&
              userAccess == (d.grantsAccess || old(userAccess))
      ensures users == old(users)
    {
      var lookup := if failure.Some? then Failure(failure.value) else Success(FindByUsername(users, form.username));
      var d := Login(lookup, form);
      if d.grantsAccess {
        userAccess := true;
      }
      view, error, cookie := d.view, d.error, d.cookie;
    }

    method GetLoggedInUser(cookies: Option<seq<Cookie>>) returns (user: Option<User>)
      ensures user == LoggedInUser(users, cookies)
    {
      var name := RetreiveCookie(cookies);
      user := None;
      if name.Some? {
        var found := FindByUsername(users, name.value);
        if found != [] {
          user := Some(found[0]);
        }
      }
    }

    /** `handleUserLogout`: access is withdrawn, and one removal cookie is sent
        if any "username" cookie came with the request. */
    method HandleUserLogout(cookies: Option<seq<Cookie>>) returns (view: string, sent: seq<Cookie>)
      modifies this
      ensures !userAccess && users == old(users)
      ensures view == "redirect:/"
      ensures sent == if cookies.Some? && FirstIndex(cookies.value, HasUsernameCookie).Some? then [RemoveCookie] else []
    {
      userAccess := false;
      sent := [];
      if cookies.Some? {
        var cs := cookies.value;
        var i := 0;
        while i < |cs|
          invariant 0 <= i <= |cs|
          invariant forall k :: 0 <= k < i ==> !HasUsernameCookie(cs[k])
        {
          if cs[i].name == CookieUsername {
            sent := sent + [RemoveCookie];
            break;
          }
          i := i + 1;
        }
      }
      view := "redirect:/";
    }
  }
}
