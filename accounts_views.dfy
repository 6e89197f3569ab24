/** The account endpoints that touch the social store: registration of a user row, the
    `is_online` flag that login and logout set, and the user search. Passwords and tokens
    are outside the model: `authenticate` and the refresh-token blacklist are parameters. */
module AccountsViews {
  import opened Common
  import opened Text
  import opened AccountsModels
  import opened PostsModels
  import opened Db

  /** `User.__str__`. */
  function UserLabel(u: User): string
  {
    u.username
  }

  /** Usernames are unique, so two users never share a label. */
  lemma UserLabelsDistinct(t: Tables, a: UserId, b: UserId)
    requires TablesValid(t) && a in t.users && b in t.users && a != b
    ensures UserLabel(t.users[a]) != UserLabel(t.users[b])
  {
    if UserLabel(t.users[a]) == UserLabel(t.users[b]) {
      assert UsernameClash(t.users, a, b);
    }
  }

  /** The two unique columns of a user row that a lookup can search. */
  datatype Column = EmailColumn | UsernameColumn

  function ColumnValue(u: User, c: Column): string
  {
    match c
    case EmailColumn => u.email
    case UsernameColumn => u.username
  }

  /** `User.objects.get(email=...)` or `get(username=...)`: the user whose column holds
      `value`, if any. */
  function Owner(t: Tables, c: Column, value: string): (r: Option<UserId>)
    ensures r.Some? ==> r.value in t.users && ColumnValue(t.users[r.value], c) == value
    ensures r.None? ==> forall id :: id in t.users && id < t.nextUserId ==> ColumnValue(t.users[id], c) != value
    ensures r.None? && c == EmailColumn ==> forall id :: id in t.users && id < t.nextUserId ==> t.users[id].email != value
    ensures r.None? && c == UsernameColumn ==> forall id :: id in t.users && id < t.nextUserId ==> t.users[id].username != value
  {
    var keep := (id: nat) => id in t.users && ColumnValue(t.users[id], c) == value;
    var r := Latest(t.nextUserId, keep);
    assert r.Some? ==> keep(r.value);
    assert r.None? ==> forall id :: id in t.users && id < t.nextUserId ==> !keep(id);
    r
  }

  /** In a valid store the account found for an email, or for a username, is the only one
      with it. */
  lemma OwnerIsUnique(t: Tables, c: Column, id: UserId)
    requires UsersValid(t.users, t.nextUserId) && id in t.users
    ensures Owner(t, c, ColumnValue(t.users[id], c)) == Some(id)
  {
    var o := Owner(t, c, ColumnValue(t.users[id], c));
    if o.Some? {
      match c
      case EmailColumn => assert EmailClash(t.users, o.value, id);
      case UsernameColumn => assert UsernameClash(t.users, o.value, id);
    }
  }

  /** The row registration stores: username, email and names as the serializer's
      `CharField`s hand them over, trimmed of surrounding whitespace; counters at 0, offline. */
  function RegisteredUser(username: string, email: string, firstName: string, lastName: string): User
  {
    NewUser(Strip(username), Strip(email), Strip(firstName), Strip(lastName))
  }

  /** The four text fields of a registration, once trimmed, hold no U+0000. */
  predicate FieldsNulFree(username: string, email: string, firstName: string, lastName: string)
  {
    NulFree(Strip(username)) && NulFree(Strip(email)) && NulFree(Strip(firstName)) && NulFree(Strip(lastName))
  }

  /** The registration serializer's verdict: the password checks (`validate_password` and
      `password == password2`, outside the model) passed, username and email are not blank
      once trimmed, no trimmed field holds a U+0000, and no user has the trimmed email or the
      trimmed username yet. */
  function RegistrationCheck(t: Tables, username: string, email: string, firstName: string, lastName: string, passwordOk: bool): (r: Result<()>)
    ensures r.Ok? <==>
      passwordOk && !AllSpace(username) && !AllSpace(email) && FieldsNulFree(username, email, firstName, lastName) &&
      Owner(t, EmailColumn, Strip(email)).None? && Owner(t, UsernameColumn, Strip(username)).None?
    ensures r == Err(Duplicate) <==>
      passwordOk && !AllSpace(username) && !AllSpace(email) && FieldsNulFree(username, email, firstName, lastName) &&
      (Owner(t, EmailColumn, Strip(email)).Some? || Owner(t, UsernameColumn, Strip(username)).Some?)
    ensures r.Err? ==> r.error == Invalid || r.error == Duplicate
  {
    var user, mail := Strip(username), Strip(email);
    if !passwordOk || user == [] || mail == [] || !FieldsNulFree(username, email, firstName, lastName) then Err(Invalid)
    else if Owner(t, EmailColumn, mail).Some? || Owner(t, UsernameColumn, user).Some? then Err(Duplicate)
    else Ok(())
  }

  /** A registration whose username, email, first or last name holds a U+0000 anywhere is
      refused and saves nothing. */
  lemma NulFieldRefused(t: Tables, username: string, email: string, firstName: string, lastName: string, passwordOk: bool)
    ensures FieldsNulFree(username, email, firstName, lastName) <==>
      NulFree(username) && NulFree(email) && NulFree(firstName) && NulFree(lastName)
    ensures RegistrationCheck(t, username, email, firstName, lastName, passwordOk).Ok? ==>
      NulFree(username) && NulFree(email) && NulFree(firstName) && NulFree(lastName)
  {
    StripKeepsNul(username);
    StripKeepsNul(email);
    StripKeepsNul(firstName);
    StripKeepsNul(lastName);
  }

  /** The database after a new user row is saved under the next id. */
  function AfterRegister(t: Tables, user: User): Tables
  {
    t.(users := t.users[t.nextUserId := user], nextUserId := t.nextUserId + 1)
  }

  /** A new user row with a fresh email and username and no posts keeps the post tables
      consistent. */
  lemma RegisterKeepsPosts(t: Tables, user: User)
    requires PostsOk(t) && UsersValid(t.users, t.nextUserId) && user.postsCount == 0
    ensures PostsOk(AfterRegister(t, user))
  {
    assert t.nextUserId !in t.users;
    NewUserKeepsPostCounts(t.users, t.posts, t.nextPostId, t.nextUserId, user);
  }

  lemma RegisterKeepsValid(t: Tables, user: User)
    requires TablesValid(t) && user.postsCount == 0
    requires Owner(t, EmailColumn, user.email).None? && Owner(t, UsernameColumn, user.username).None?
    ensures TablesValid(AfterRegister(t, user))
  {
    var t' := AfterRegister(t, user);
    NewUserKeepsUsersValid(t.users, t.nextUserId, user);
    RegisterKeepsPosts(t, user);
    FriendsOkAfter(t, t');
    CommentsOkAfter(t, t');
    ChatOkAfter(t, t');
    GroupsMakeValid(t');
  }

  /** `RegisterView.create`: a valid request saves a new user with the trimmed fields, every
      counter at 0 and offline, under the next id (201); a refused one changes nothing (400). */
  method Register(s: Store, username: string, email: string, firstName: string, lastName: string, passwordOk: bool)
    returns (r: Result<UserId>)
    requires s.Valid()
    modifies s
    ensures s.Valid()
    ensures r.Err? ==> RegistrationCheck(old(s.db), username, email, firstName, lastName, passwordOk) == Err(r.error) && s.db == old(s.db)
    ensures r.Ok? ==>
      RegistrationCheck(old(s.db), username, email, firstName, lastName, passwordOk).Ok? && r.value == old(s.db).nextUserId &&
      s.db == AfterRegister(old(s.db), RegisteredUser(username, email, firstName, lastName))
  {
    var checked := RegistrationCheck(s.db, username, email, firstName, lastName, passwordOk);
    if checked.Err? {
      return Err(checked.error);
    }
    var user := RegisteredUser(username, email, firstName, lastName);
    RegisterKeepsValid(s.db, user);
    r := Ok(s.db.nextUserId);
    s.db := AfterRegister(s.db, user);
  }

  /** After a registration the trimmed email and the trimmed username both lead to the new
      user. */
  lemma RegisteredUserIsFound(t: Tables, username: string, email: string, firstName: string, lastName: string, passwordOk: bool)
    requires UsersValid(t.users, t.nextUserId) && RegistrationCheck(t, username, email, firstName, lastName, passwordOk).Ok?
    ensures var t' := AfterRegister(t, RegisteredUser(username, email, firstName, lastName));
      Owner(t', EmailColumn, Strip(email)) == Some(t.nextUserId) &&
      Owner(t', UsernameColumn, Strip(username)) == Some(t.nextUserId)
  {
    NewUserIsFound(t, RegisteredUser(username, email, firstName, lastName));
  }

  /** A user row saved with an email and a username nobody has is the one both lead to. */
  lemma NewUserIsFound(t: Tables, user: User)
    requires UsersValid(t.users, t.nextUserId)
    requires forall id :: id in t.users && id < t.nextUserId ==> t.users[id].email != user.email
    requires forall id :: id in t.users && id < t.nextUserId ==> t.users[id].username != user.username
    ensures Owner(AfterRegister(t, user), EmailColumn, user.email) == Some(t.nextUserId)
    ensures Owner(AfterRegister(t, user), UsernameColumn, user.username) == Some(t.nextUserId)
  {
    NewUserKeepsUsersValid(t.users, t.nextUserId, user);
    var t' := AfterRegister(t, user);
    OwnerIsUnique(t', EmailColumn, t.nextUserId);
    OwnerIsUnique(t', UsernameColumn, t.nextUserId);
  }

  /** A field Python reads as false: absent or empty. */
  predicate Blank(field: Option<string>)
  {
    field.None? || field.value == []
  }

  /** The user `authenticate` accepts: first with the email given as the username; failing
      that, with the username of the account registered with that email, if there is one. */
  function LoginUser(t: Tables, email: string, password: string, authenticate: (string, string) -> Option<UserId>): Option<UserId>
  {
    match authenticate(email, password)
    case Some(u) => Some(u)
    case None =>
      match Owner(t, EmailColumn, email)
      case None => None
      case Some(o) => authenticate(t.users[o].username, password)
  }

  /** When `authenticate` refuses the email itself (the login field, `USERNAME_FIELD` being
      the email), the outcome is that of a second call with the username of the account
      registered with that email. */
  lemma LoginFallsBackToUsername(t: Tables, id: UserId, password: string, authenticate: (string, string) -> Option<UserId>)
    requires TablesValid(t) && id in t.users
    requires authenticate(t.users[id].email, password).None?
    ensures LoginUser(t, t.users[id].email, password, authenticate) == authenticate(t.users[id].username, password)
  {
    OwnerIsUnique(t, EmailColumn, id);
  }

  /** The database with the `is_online` flag of u set to `on`. */
  function WithOnline(t: Tables, u: UserId, on: bool): (r: Tables)
    requires u in t.users
    ensures r.users.Keys == t.users.Keys && r.users[u].isOnline == on
    ensures forall v :: v in t.users && v != u ==> r.users[v] == t.users[v]
    ensures r.users[u] == t.users[u].(isOnline := on) && r == t.(users := r.users)
  {
    t.(users := t.users[u := t.users[u].(isOnline := on)])
  }

  lemma OnlineKeepsValid(t: Tables, u: UserId, on: bool)
    requires TablesValid(t) && u in t.users
    ensures TablesValid(WithOnline(t, u, on))
  {
    UserRecordsKeepValid(t, WithOnline(t, u, on).users);
  }

  /** `LoginView.post`: a missing or empty email or password is refused (400) before any
      authentication; otherwise the accepted user is marked online (200), and a rejected
      login is 401 with no change. */
  method Login(s: Store, email: Option<string>, password: Option<string>, authenticate: (string, string) -> Option<UserId>)
    returns (r: Result<UserId>)
    requires s.Valid()
    requires forall a, b :: authenticate(a, b).Some? ==> authenticate(a, b).value in s.db.users
    modifies s
    ensures s.Valid()
    ensures r == Err(MissingField) <==> Blank(email) || Blank(password)
    ensures r == Err(Unauthorized) <==>
      !Blank(email) && !Blank(password) && LoginUser(old(s.db), email.value, password.value, authenticate).None?
    ensures r.Err? ==> s.db == old(s.db)
    ensures r.Ok? ==>
      !Blank(email) && !Blank(password) && LoginUser(old(s.db), email.value, password.value, authenticate) == Some(r.value) &&
      r.value in old(s.db).users && s.db == WithOnline(old(s.db), r.value, true)
  {
    if Blank(email) || Blank(password) {
      return Err(MissingField);
    }
    var user := LoginUser(s.db, email.value, password.value, authenticate);
    if user.None? {
      return Err(Unauthorized);
    }
    OnlineKeepsValid(s.db, user.value, true);
    r := Ok(user.value);
    s.db := WithOnline(s.db, user.value, true);
  }

  /** `LogoutView.post`: the caller is marked offline and saved first; then a non-empty
      refresh token is blacklisted, and a token the blacklist refuses makes the answer 400
      although the caller stays offline. */
  method Logout(s: Store, caller: UserId, refresh: Option<string>, blacklist: string -> bool) returns (r: Result<UserId>)
    requires s.Valid() && caller in s.db.users
    modifies s
    ensures s.Valid()
    ensures s.db == WithOnline(old(s.db), caller, false)
    ensures r.Err? <==> !Blank(refresh) && !blacklist(refresh.value)
    ensures r.Err? ==> r.error == Invalid
    ensures r.Ok? ==> r.value == caller
  {
    OnlineKeepsValid(s.db, caller, false);
    s.db := WithOnline(s.db, caller, false);
    if !Blank(refresh) && !blacklist(refresh.value) {
      return Err(Invalid);
    }
    r := Ok(caller);
  }

  /** A user matches a search when the query occurs, ignoring case, in their username, first
      name or last name. */
  predicate Matches(u: User, q: string)
  {
    ContainsIgnoreCase(u.username, q) || ContainsIgnoreCase(u.firstName, q) || ContainsIgnoreCase(u.lastName, q)
  }

  /** `UserSearchView.get_queryset`: no user for an empty query; otherwise the union of the
      three `icontains` filters, in the default order of users (newest first). */
  function SearchUsers(t: Tables, q: string): (r: seq<UserId>)
    ensures q == [] ==> r == []
    ensures q != [] ==> forall id :: id in r <==> id < t.nextUserId && id in t.users && Matches(t.users[id], q)
    ensures forall i, j :: 0 <= i < j < |r| ==> r[i] > r[j]
  {
    if q == [] then [] else Descending(t.nextUserId, id => id in t.users && Matches(t.users[id], q))
  }

  /** Searching for a user's own username, in any letter case, finds them. */
  lemma SearchFindsUsername(t: Tables, id: UserId, q: string)
    requires TablesValid(t) && id in t.users && q != [] && Lower(q) == Lower(t.users[id].username)
    ensures id in SearchUsers(t, q)
  {
    assert IsPrefix(Lower(q), Lower(t.users[id].username)[0..]);
  }
}
