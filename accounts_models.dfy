/** The custom user row: identity fields, the cached social counters and the online flag. */
module AccountsModels {
  import opened Text

  type UserId = nat

  datatype User = User(
    username: string,
    email: string,
    firstName: string,
    lastName: string,
    followersCount: int,
    followingCount: int,
    postsCount: int,
    isOnline: bool)

  /** A user row as registration stores it: every counter at its default of zero, offline. */
  function NewUser(username: string, email: string, firstName: string, lastName: string): User
  {
    User(username, email, firstName, lastName, 0, 0, 0, false)
  }

  /** The first and last name joined by one space, before stripping. */
  function SpacedName(u: User): string
  {
    u.firstName + " " + u.lastName
  }

  /** `get_full_name`: first and last name joined by a space and stripped, or the username
      when that leaves nothing. */
  function FullName(u: User): (r: string)
    ensures AllSpace(SpacedName(u)) ==> r == u.username
    ensures !AllSpace(SpacedName(u)) ==>
      r != [] && !IsSpace(r[0]) && !IsSpace(r[|r| - 1]) && exists i: nat :: SpaceFramed(r, SpacedName(u), i)
    ensures u.username != [] ==> r != []
  {
    var stripped := Strip(SpacedName(u));
    if stripped == [] then u.username else stripped
  }

  /** Two records share an identity when they agree on the unique columns. */
  predicate SameIdentity(a: User, b: User)
  {
    a.username == b.username && a.email == b.email
  }

  /** `c` is an in-memory copy of the row `u`, possibly read before some friend-counter update:
      it agrees with the row on the unique columns and on `posts_count`. */
  predicate CopyOf(c: User, u: User)
  {
    SameIdentity(c, u) && c.postsCount == u.postsCount
  }

  /** Every user id was issued by the id counter, which starts at 1 as an auto-increment key
      does, so no user has id 0; email and username are unique columns. */
  ghost predicate UsersValid(users: map<UserId, User>, next: nat)
  {
    1 <= next && (forall id :: id in users ==> 1 <= id < next) &&
    (forall a, b :: EmailClash(users, a, b) ==> a == b) &&
    (forall a, b :: UsernameClash(users, a, b) ==> a == b)
  }

  /** Two user ids whose rows share an email, and two whose rows share a username. */
  predicate EmailClash(users: map<UserId, User>, a: UserId, b: UserId)
  {
    a in users && b in users && users[a].email == users[b].email
  }

  predicate UsernameClash(users: map<UserId, User>, a: UserId, b: UserId)
  {
    a in users && b in users && users[a].username == users[b].username
  }

  /** The user records with `posts_count` of u moved by `delta`; nothing else changes. */
  function PostsCountMoved(users: map<UserId, User>, u: UserId, delta: int): (r: map<UserId, User>)
    requires u in users
    ensures r.Keys == users.Keys
    ensures forall v :: v in users ==> SameIdentity(r[v], users[v])
    ensures forall v :: v in users && v != u ==> r[v] == users[v]
    ensures r[u].postsCount == users[u].postsCount + delta
  {
    users[u := users[u].(postsCount := users[u].postsCount + delta)]
  }

  /** Rewriting user records without touching their unique columns keeps the table valid. */
  lemma UsersValidAfterCounters(users: map<UserId, User>, users': map<UserId, User>, next: nat)
    requires UsersValid(users, next)
    requires users'.Keys == users.Keys && forall u :: u in users ==> SameIdentity(users'[u], users[u])
    ensures UsersValid(users', next)
  {
    forall a, b | EmailClash(users', a, b) ensures a == b {
      assert EmailClash(users, a, b);
    }
    forall a, b | UsernameClash(users', a, b) ensures a == b {
      assert UsernameClash(users, a, b);
    }
  }

  /** A new row under the next id whose email and username no existing row has keeps the
      table valid. */
  lemma NewUserKeepsUsersValid(users: map<UserId, User>, next: nat, user: User)
    requires UsersValid(users, next)
    requires forall id :: id in users && id < next ==> users[id].email != user.email
    requires forall id :: id in users && id < next ==> users[id].username != user.username
    ensures UsersValid(users[next := user], next + 1)
  {
    var users' := users[next := user];
    forall a, b | EmailClash(users', a, b) ensures a == b {
      if a != next && b != next {
        assert EmailClash(users, a, b);
      }
    }
    forall a, b | UsernameClash(users', a, b) ensures a == b {
      if a != next && b != next {
        assert UsernameClash(users, a, b);
      }
    }
  }
}
