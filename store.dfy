/** The entity store: the three tables as one value (`Tables`), the store
    invariant, the mutable `Database` whose primitive operations stand for
    the ORM calls the controllers make, and the per-request session. */
module Store {
  import opened Wrappers
  import opened Models

  /** The whole store as a value. `nextUserId` is the next auto-increment key. */
  datatype Tables = Tables(
    users: map<string, User>,
    memberships: seq<Membership>,
    tokens: seq<LoginToken>,
    nextUserId: nat)

  const EMPTY: Tables := Tables(map[], [], [], 1)

  /** Failures of the collaborators the core calls: a write to one of the
      tables throws, or the e-mail provider rejects a delivery. */
  datatype Faults = Faults(userWrite: bool, membershipWrite: bool, tokenWrite: bool, delivery: bool)

  const NO_FAULTS: Faults := Faults(false, false, false, false)

  function UserIds(users: map<string, User>): set<nat> {
    set e | e in users :: users[e].id
  }

  /** The store invariant: users are keyed by their (unique) email and have
      distinct ids below the next key; an active user has an expiry; every
      membership belongs to an existing user and covers a non-empty window;
      every token lives exactly TOKEN_LIFETIME and belongs to an existing
      user through its email (the foreign key `login_tokens.email` to
      `users.email`). */
  predicate Valid(t: Tables) {
    && (forall e :: e in t.users ==> t.users[e].email == e && t.users[e].id < t.nextUserId)
    && (forall e1, e2 :: e1 in t.users && e2 in t.users && t.users[e1].id == t.users[e2].id ==> e1 == e2)
    && (forall e :: e in t.users && t.users[e].status == Active ==> t.users[e].expiresAt.Some?)
    && (forall m :: m in t.memberships ==> m.userId in UserIds(t.users) && m.activeFrom < m.activeTo)
    && (forall tok :: tok in t.tokens ==> tok.expiresAt == tok.createdAt + TOKEN_LIFETIME && tok.email in t.users)
  }

  lemma EmptyValid()
    ensures Valid(EMPTY)
  {
  }

  /** Replacing a user's record by one with the same id and email, whose
      status is active only with an expiry, keeps the store valid. */
  lemma UpdateUserValid(t: Tables, u: User)
    requires Valid(t) && u.email in t.users
    requires u.id == t.users[u.email].id
    requires u.status == Active ==> u.expiresAt.Some?
    ensures Valid(t.(users := t.users[u.email := u]))
  {
    var users' := t.users[u.email := u];
    forall id | id in UserIds(users') ensures id in UserIds(t.users) {
      var e :| e in users' && users'[e].id == id;
      assert t.users[e].id == id;
    }
    forall id | id in UserIds(t.users) ensures id in UserIds(users') {
      var e :| e in t.users && t.users[e].id == id;
      assert users'[e].id == id;
    }
    assert UserIds(users') == UserIds(t.users);
  }

  /** Inserting a new user under the next id keeps the store valid. */
  lemma CreateUserValid(t: Tables, u: User)
    requires Valid(t) && u.email !in t.users && u.id == t.nextUserId
    requires u.status == Active ==> u.expiresAt.Some?
    ensures Valid(t.(users := t.users[u.email := u], nextUserId := t.nextUserId + 1))
  {
    var users' := t.users[u.email := u];
    forall id | id in UserIds(users') ensures id in UserIds(t.users) + {u.id} {
      var e :| e in users' && users'[e].id == id;
    }
    forall id | id in UserIds(t.users) ensures id in UserIds(users') {
      var e :| e in t.users && t.users[e].id == id;
      assert users'[e].id == id;
    }
  }

  /** Appending a membership of an existing user with a non-empty window
      keeps the store valid. */
  lemma AppendMembershipValid(t: Tables, m: Membership)
    requires Valid(t) && m.userId in UserIds(t.users) && m.activeFrom < m.activeTo
    ensures Valid(t.(memberships := t.memberships + [m]))
  {
  }

  class Database {
    var users: map<string, User>
    var memberships: seq<Membership>
    var tokens: seq<LoginToken>
    var nextUserId: nat

    function State(): Tables
      reads this
    {
      Tables(users, memberships, tokens, nextUserId)
    }

    constructor ()
      ensures State() == EMPTY
    {
      users, memberships, tokens, nextUserId := map[], [], [], 1;
    }

    /** `User.findOrCreate({where: {email}, defaults})`: the existing row, or a
        new row with the next id and the given defaults. */
    method FindOrCreateUser(email: string, customerId: Option<string>, status: Status, expiresAt: Option<int>)
      returns (user: User, created: bool)
      modifies this
      ensures created <==> email !in old(users)
      ensures !created ==> user == old(users)[email] && State() == old(State())
      ensures created ==> user == User(old(nextUserId), email, customerId, status, expiresAt)
      ensures created ==> State() == old(State()).(users := old(users)[email := user], nextUserId := old(nextUserId) + 1)
    {
      if email in users {
        user, created := users[email], false;
      } else {
        user := User(nextUserId, email, customerId, status, expiresAt);
        users := users[email := user];
        nextUserId := nextUserId + 1;
        created := true;
      }
    }

    /** `user.update({...})` on the row found under `email`. */
    method UpdateUser(email: string, user: User)
      requires email in users
      modifies this
      ensures State() == old(State()).(users := old(users)[email := user])
    {
      users := users[email := user];
    }

    /** `Membership.create({...})`: appends a row. */
    method CreateMembership(m: Membership)
      modifies this
      ensures State() == old(State()).(memberships := old(memberships) + [m])
    {
      memberships := memberships + [m];
    }

    /** `LoginToken.create({...})`: appends a row. */
    method CreateLoginToken(tok: LoginToken)
      modifies this
      ensures State() == old(State()).(tokens := old(tokens) + [tok])
    {
      tokens := tokens + [tok];
    }

    /** `loginToken.update({used: true})` on the row at index `i`. */
    method MarkTokenUsed(i: nat)
      requires i < |tokens|
      modifies this
      ensures State() == old(State()).(tokens := old(tokens)[i := old(tokens)[i].(used := true)])
    {
      tokens := tokens[i := tokens[i].(used := true)];
    }
  }

  /** The server-side session of one browser: the email bound at login. */
  class Session {
    var email: Option<string>

    constructor ()
      ensures email == None
    {
      email := None;
    }
  }
}
