/** `/admin`: the paginated user listing and the three per-user actions
    (extend by 30 days, deactivate, resend a magic link). */
module AdminController {
  import opened Wrappers
  import opened Http
  import opened Models
  import opened Store
  import opened EmailService
  import MeController

  const DEFAULT_PAGE: int := 1
  const DEFAULT_LIMIT: int := 25

  /** `parseInt(param) || fallback`, with `None` standing for `NaN`: both
      `NaN` and `0` are falsy and give the fallback. */
  function ParsedOr(parsed: Option<int>, fallback: int): int {
    if parsed.None? || parsed.value == 0 then fallback else parsed.value
  }

  /** `Math.ceil(a / b)` for a positive divisor. */
  function CeilDiv(a: nat, b: int): nat
    requires b > 0
  {
    (a + b - 1) / b
  }

  /** `CeilDiv(a, b)` is the least count of `b`-sized pages that holds `a`
      rows. */
  lemma CeilDivIsCeiling(a: nat, b: int)
    requires b > 0
    ensures (CeilDiv(a, b) - 1) * b < a <= CeilDiv(a, b) * b
  {
    var q := CeilDiv(a, b);
    var r := (a + b - 1) % b;
    assert a + b - 1 == q * b + r && 0 <= r < b;
  }

  /** `(page - 1) * limit` */
  function Offset(page: int, limit: int): int {
    (page - 1) * limit
  }

  datatype Pagination = Pagination(page: int, limit: int, total: nat, pages: nat)

  /** A listed user together with the memberships it owns. */
  datatype UserRow = UserRow(user: User, memberships: seq<Membership>)

  datatype UsersResult = UsersListed(rows: seq<UserRow>, pagination: Pagination) | UsersFailed

  /** The memberships whose `user_id` is `id`, in table order. */
  function OwnedBy(ms: seq<Membership>, id: nat): (r: seq<Membership>)
    ensures forall m :: m in r <==> m in ms && m.userId == id
    ensures |r| <= |ms|
    decreases |ms|
  {
    if |ms| == 0 then []
    else
      var rest := OwnedBy(ms[1..], id);
      assert forall m :: m in ms <==> m == ms[0] || m in ms[1..];
      if ms[0].userId == id then [ms[0]] + rest else rest
  }

  /** Each user of `users` with the memberships it owns. */
  function WithMemberships(users: seq<User>, ms: seq<Membership>): (r: seq<UserRow>)
    ensures |r| == |users|
    ensures forall i :: 0 <= i < |users| ==> r[i] == UserRow(users[i], OwnedBy(ms, users[i].id))
    decreases |users|
  {
    if |users| == 0 then []
    else [UserRow(users[0], OwnedBy(ms, users[0].id))] + WithMemberships(users[1..], ms)
  }

  /** One page of the listing order, each user with its memberships: the
      rows from `offset` on, at most `limit` of them. */
  function ListPage(ordered: seq<User>, ms: seq<Membership>, offset: nat, limit: nat): (rows: seq<UserRow>)
    ensures |rows| <= limit
    ensures offset + limit <= |ordered| ==> |rows| == limit
    ensures forall k :: 0 <= k < |rows| ==> offset + k < |ordered| && rows[k].user == ordered[offset + k]
    ensures forall k :: 0 <= k < |rows| ==> rows[k].memberships == OwnedBy(ms, rows[k].user.id)
  {
    var n := |ordered|;
    var lo := if offset < n then offset else n;
    var hi := if offset + limit < n then offset + limit else n;
    var rows := WithMemberships(ordered[lo..hi], ms);
    assert forall k :: 0 <= k < |rows| ==> rows[k].user == ordered[lo..hi][k];
    rows
  }

  /** Row `i` lies on page `i / limit + 1`, and that page is among the
      first `ceil(n / limit)` pages. */
  lemma PageArithmetic(n: nat, limit: int, i: int)
    requires limit >= 1 && 0 <= i < n
    ensures 1 <= i / limit + 1 <= CeilDiv(n, limit)
    ensures Offset(i / limit + 1, limit) <= i < Offset(i / limit + 1, limit) + limit
  {
    var q := i / limit;
    assert q * limit <= i < q * limit + limit;
    assert Offset(q + 1, limit) == q * limit;
    CeilDivIsCeiling(n, limit);
  }

  /** Row `i` of the listing order is listed on page `i / limit + 1`. */
  lemma PageOfRow(ordered: seq<User>, ms: seq<Membership>, limit: int, i: int)
    requires limit >= 1 && 0 <= i < |ordered|
    ensures 1 <= i / limit + 1 <= CeilDiv(|ordered|, limit)
    ensures 0 <= Offset(i / limit + 1, limit) <= i < Offset(i / limit + 1, limit) + limit
    ensures ListPage(ordered, ms, Offset(i / limit + 1, limit), limit)[i - Offset(i / limit + 1, limit)].user == ordered[i]
  {
    PageArithmetic(|ordered|, limit, i);
    var off: nat := Offset(i / limit + 1, limit);
    var rows := ListPage(ordered, ms, off, limit);
    var hi := if off + limit < |ordered| then off + limit else |ordered|;
    assert |rows| == hi - off by {
      assert rows == WithMemberships(ordered[off..hi], ms);
    }
  }

  /** `ordered` is the user table as the database returns it: every stored
      user exactly once, in some order (newest first in the source). */
  predicate ListsTable(t: Tables, ordered: seq<User>) {
    && |ordered| == |t.users|
    && (forall i :: 0 <= i < |ordered| ==> ordered[i].email in t.users && t.users[ordered[i].email] == ordered[i])
    && t.users.Keys <= Emails(ordered)
  }

  /** The e-mails of a sequence of users. */
  function Emails(s: seq<User>): (r: set<string>)
    ensures |r| <= |s|
    ensures forall i :: 0 <= i < |s| ==> s[i].email in r
    decreases |s|
  {
    if |s| == 0 then {} else {s[0].email} + Emails(s[1..])
  }

  /** Every e-mail of `Emails(s)` is that of some entry of `s`. */
  lemma {:induction false} EmailOfSomeEntry(s: seq<User>, e: string)
    requires e in Emails(s)
    ensures exists i :: 0 <= i < |s| && s[i].email == e
    decreases |s|
  {
    if s[0].email != e {
      EmailOfSomeEntry(s[1..], e);
      var i :| 0 <= i < |s[1..]| && s[1..][i].email == e;
      assert s[i + 1].email == e;
    }
  }

  /** A repeated e-mail leaves fewer e-mails than entries. */
  lemma {:induction false} RepeatShrinksEmails(s: seq<User>, i: int, j: int)
    requires 0 <= i < j < |s| && s[i].email == s[j].email
    ensures |Emails(s)| < |s|
    decreases |s|
  {
    if i == 0 {
      assert s[j].email == s[1..][j - 1].email;
      assert Emails(s) == Emails(s[1..]);
    } else {
      assert s[i].email == s[1..][i - 1].email && s[j].email == s[1..][j - 1].email;
      RepeatShrinksEmails(s[1..], i - 1, j - 1);
    }
  }

  /** The listing names every user once: as many entries as stored users
      and every stored user among them leave no room for a repeat. */
  lemma ListedOnce(t: Tables, ordered: seq<User>, i: int, j: int)
    requires ListsTable(t, ordered) && 0 <= i < j < |ordered|
    ensures ordered[i].email != ordered[j].email
  {
    if ordered[i].email == ordered[j].email {
      RepeatShrinksEmails(ordered, i, j);
      SubsetSize(t.users.Keys, Emails(ordered));
      assert false;
    }
  }

  lemma SubsetSize(a: set<string>, b: set<string>)
    requires a <= b
    ensures |a| <= |b|
  {
    assert b == a + (b - a);
  }

  /** `getUsers(req, res)` over the table listed as `ordered`. A page or
      limit below 1 makes the query's offset or row count negative, which
      the database rejects. */
  function GetUsers(t: Tables, ordered: seq<User>, pageParam: Option<int>, limitParam: Option<int>): (r: UsersResult)
    requires ListsTable(t, ordered)
    ensures r.UsersListed? <==> ParsedOr(pageParam, DEFAULT_PAGE) >= 1 && ParsedOr(limitParam, DEFAULT_LIMIT) >= 1
    ensures r.UsersListed? ==> r.pagination.total == |t.users| && |r.rows| <= r.pagination.limit
    ensures r.UsersListed? ==> forall k :: 0 <= k < |r.rows| ==>
      r.rows[k].user.email in t.users && t.users[r.rows[k].user.email] == r.rows[k].user
  {
    var page := ParsedOr(pageParam, DEFAULT_PAGE);
    var limit := ParsedOr(limitParam, DEFAULT_LIMIT);
    if page < 1 || limit < 1 then UsersFailed
    else
      var offset: nat := Offset(page, limit);
      UsersListed(ListPage(ordered, t.memberships, offset, limit), Pagination(page, limit, |t.users|, CeilDiv(|t.users|, limit)))
  }

  /** The listing answers for every defaulted or positive page and limit,
      and fails otherwise; it reports the page, the limit, the number of
      stored users and `pages = ceil(total / limit)`, and lists at most
      `limit` users. */
  lemma GetUsersPagination(t: Tables, ordered: seq<User>, pageParam: Option<int>, limitParam: Option<int>)
    requires ListsTable(t, ordered)
    ensures var page := if pageParam.None? || pageParam.value == 0 then 1 else pageParam.value;
      var limit := if limitParam.None? || limitParam.value == 0 then 25 else limitParam.value;
      var r := GetUsers(t, ordered, pageParam, limitParam);
      && (r.UsersListed? <==> page >= 1 && limit >= 1)
      && (r.UsersListed? ==>
            && r.pagination == Pagination(page, limit, |t.users|, r.pagination.pages)
            && (r.pagination.pages - 1) * limit < |t.users| <= r.pagination.pages * limit
            && |r.rows| <= limit)
  {
    var limit := ParsedOr(limitParam, DEFAULT_LIMIT);
    if limit >= 1 {
      CeilDivIsCeiling(|t.users|, limit);
    }
  }

  /** Row `i` of a page is entry `offset + i` of the listing order, a
      stored user, with exactly the memberships it owns. */
  lemma ListedRow(t: Tables, ordered: seq<User>, offset: nat, limit: nat, i: int)
    requires ListsTable(t, ordered)
    requires 0 <= i < |ListPage(ordered, t.memberships, offset, limit)|
    ensures var row := ListPage(ordered, t.memberships, offset, limit)[i];
      && offset + i < |ordered|
      && row.user == ordered[offset + i]
      && t.users[row.user.email] == row.user
      && (forall m :: m in row.memberships <==> m in t.memberships && m.userId == row.user.id)
  {
    var row := ListPage(ordered, t.memberships, offset, limit)[i];
    assert row.memberships == OwnedBy(t.memberships, row.user.id);
  }

  /** A listed page is the slice from `(page - 1) * limit`. */
  lemma GetUsersIsListPage(t: Tables, ordered: seq<User>, page: int, limit: int)
    requires ListsTable(t, ordered) && page >= 1 && limit >= 1
    ensures 0 <= Offset(page, limit)
    ensures GetUsers(t, ordered, Some(page), Some(limit)).UsersListed?
    ensures GetUsers(t, ordered, Some(page), Some(limit)).rows == ListPage(ordered, t.memberships, Offset(page, limit), limit)
  {
  }

  /** The listed rows are the page's slice of the table, starting at
      `(page - 1) * limit`, each a stored user with exactly its own
      memberships. */
  lemma GetUsersRows(t: Tables, ordered: seq<User>, page: int, limit: int)
    requires ListsTable(t, ordered) && page >= 1 && limit >= 1
    ensures var r := GetUsers(t, ordered, Some(page), Some(limit));
      && r.UsersListed?
      && 0 <= Offset(page, limit)
      && (forall i :: 0 <= i < |r.rows| ==>
            && Offset(page, limit) + i < |ordered|
            && r.rows[i].user == ordered[Offset(page, limit) + i]
            && r.rows[i].user.email in t.users
            && t.users[r.rows[i].user.email] == r.rows[i].user
            && (forall m :: m in r.rows[i].memberships <==> m in t.memberships && m.userId == r.rows[i].user.id))
  {
    GetUsersIsListPage(t, ordered, page, limit);
    var offset: nat := Offset(page, limit);
    var rows := ListPage(ordered, t.memberships, offset, limit);
    forall i | 0 <= i < |rows|
      ensures offset + i < |ordered| && rows[i].user == ordered[offset + i]
      ensures rows[i].user.email in t.users && t.users[rows[i].user.email] == rows[i].user
      ensures forall m :: m in rows[i].memberships <==> m in t.memberships && m.userId == rows[i].user.id
    {
      ListedRow(t, ordered, offset, limit, i);
    }
  }

  /** With a positive limit, row `i` of the listing order is listed on
      page `i / limit + 1`, a page between 1 and `pages`. */
  lemma EveryRowOnItsPage(t: Tables, ordered: seq<User>, limit: int, i: int)
    requires ListsTable(t, ordered) && limit >= 1 && 0 <= i < |ordered|
    ensures var page := i / limit + 1;
      var r := GetUsers(t, ordered, Some(page), Some(limit));
      && r.UsersListed?
      && 1 <= page <= r.pagination.pages
      && Offset(page, limit) <= i < Offset(page, limit) + limit
      && i - Offset(page, limit) < |r.rows|
      && r.rows[i - Offset(page, limit)].user == ordered[i]
  {
    PageOfRow(ordered, t.memberships, limit, i);
    var page := i / limit + 1;
    var offset: nat := Offset(page, limit);
    assert GetUsers(t, ordered, Some(page), Some(limit))
        == UsersListed(ListPage(ordered, t.memberships, offset, limit), Pagination(page, limit, |t.users|, CeilDiv(|t.users|, limit)));
  }

  /** The pages cover the table: every stored user is listed on some page
      between 1 and `pages`. */
  lemma EveryUserListed(t: Tables, ordered: seq<User>, limit: int, email: string)
    requires ListsTable(t, ordered) && limit >= 1 && email in t.users
    ensures exists page ::
      && 1 <= page
      && GetUsers(t, ordered, Some(page), Some(limit)).UsersListed?
      && page <= GetUsers(t, ordered, Some(page), Some(limit)).pagination.pages
      && (exists k :: 0 <= k < |GetUsers(t, ordered, Some(page), Some(limit)).rows|
           && GetUsers(t, ordered, Some(page), Some(limit)).rows[k].user == t.users[email])
  {
    EmailOfSomeEntry(ordered, email);
    var i :| 0 <= i < |ordered| && ordered[i].email == email;
    EveryRowOnItsPage(t, ordered, limit, i);
    var page := i / limit + 1;
    var r := GetUsers(t, ordered, Some(page), Some(limit));
    assert r.rows[i - Offset(page, limit)].user == t.users[email];
  }

  /** The user after `extendMembership` at `now`: active until 30 days from
      now, whatever the previous expiry. */
  function ExtendedUser(u: User, now: int): User {
    u.(status := Active, expiresAt := Some(now + MEMBERSHIP_PERIOD))
  }

  /** The store and the reply after `extendMembership(email)` at `now`. */
  function Extend(t: Tables, email: string, now: int, faults: Faults): (r: (Tables, Reply))
    ensures r.1.status == 404 <==> email !in t.users
    ensures r.1.status != 200 ==> r.0 == t
    ensures r.0.users.Keys == t.users.Keys
    ensures r.1.status == 200 ==> MeController.IsActive(r.0.users[email], now)
  {
    if email !in t.users then (t, Json(404, false, "User not found"))
    else if faults.userWrite then (t, Json(500, false, "Failed to extend membership"))
    else (t.(users := t.users[email := ExtendedUser(t.users[email], now)]), Json(200, true, "Membership extended by 30 days"))
  }

  /** Unknown email: 404 and nothing changes. Success: the user is active
      with expiry `now + 30 days`; no membership row, no token, no other
      user is touched. */
  lemma ExtendOutcome(t: Tables, email: string, now: int, faults: Faults)
    ensures var (t', r) := Extend(t, email, now, faults);
      && (r.status == 404 <==> email !in t.users)
      && (r.status != 200 ==> t' == t)
      && (r.status == 200 <==> email in t.users && !faults.userWrite)
      && t'.memberships == t.memberships && t'.tokens == t.tokens && t'.nextUserId == t.nextUserId
      && t'.users.Keys == t.users.Keys
      && (forall e :: e in t.users && e != email ==> t'.users[e] == t.users[e])
      && (r.status == 200 ==>
            && t'.users[email].status == Active && t'.users[email].expiresAt == Some(now + MEMBERSHIP_PERIOD)
            && t'.users[email].id == t.users[email].id && t'.users[email].shopifyCustomerId == t.users[email].shopifyCustomerId)
  {
  }

  /** Renewal is not cumulative: extending at `n1` and then at `n2` leaves
      the store as the single extension at `n2`. */
  lemma ExtendNonCumulative(t: Tables, email: string, n1: int, n2: int)
    ensures Extend(Extend(t, email, n1, NO_FAULTS).0, email, n2, NO_FAULTS).0 == Extend(t, email, n2, NO_FAULTS).0
  {
    if email in t.users {
      var t1 := Extend(t, email, n1, NO_FAULTS).0;
      assert ExtendedUser(t1.users[email], n2) == ExtendedUser(t.users[email], n2);
      assert t1.users[email := ExtendedUser(t.users[email], n2)] == t.users[email := ExtendedUser(t.users[email], n2)];
    }
  }

  /** An extended user is entitled at exactly the instants before
      `now + 30 days`. */
  lemma ExtendEntitles(t: Tables, email: string, now: int, at: int)
    requires email in t.users
    ensures MeController.IsActive(Extend(t, email, now, NO_FAULTS).0.users[email], at) <==> at < now + MEMBERSHIP_PERIOD
  {
  }

  lemma ExtendValid(t: Tables, email: string, now: int, faults: Faults)
    requires Valid(t)
    ensures Valid(Extend(t, email, now, faults).0)
  {
    if email in t.users && !faults.userWrite {
      UpdateUserValid(t, ExtendedUser(t.users[email], now));
    }
  }

  /** The store and the reply after `deactivateUser(email)`: status
      inactive, expiry kept. */
  function Deactivate(t: Tables, email: string, faults: Faults): (r: (Tables, Reply))
    ensures r.1.status == 404 <==> email !in t.users
    ensures r.1.status != 200 ==> r.0 == t
    ensures r.0.users.Keys == t.users.Keys
    ensures r.1.status == 200 ==> forall at :: !MeController.IsActive(r.0.users[email], at)
  {
    if email !in t.users then (t, Json(404, false, "User not found"))
    else if faults.userWrite then (t, Json(500, false, "Failed to deactivate user"))
    else (t.(users := t.users[email := t.users[email].(status := Inactive)]), Json(200, true, "User deactivated successfully"))
  }

  /** Unknown email: 404 and nothing changes. Success: only the status of
      that user changes, to inactive; its expiry is kept. */
  lemma DeactivateOutcome(t: Tables, email: string, faults: Faults)
    ensures var (t', r) := Deactivate(t, email, faults);
      && (r.status == 404 <==> email !in t.users)
      && (r.status != 200 ==> t' == t)
      && (r.status == 200 <==> email in t.users && !faults.userWrite)
      && t'.memberships == t.memberships && t'.tokens == t.tokens && t'.nextUserId == t.nextUserId
      && t'.users.Keys == t.users.Keys
      && (forall e :: e in t.users && e != email ==> t'.users[e] == t.users[e])
      && (r.status == 200 ==>
            && t'.users[email].status == Inactive
            && t'.users[email] == t.users[email].(status := Inactive))
  {
  }

  /** A deactivated user is entitled at no time, and a later status read
      leaves it inactive and writes nothing, despite the expiry it keeps. */
  lemma DeactivatedStaysOut(t: Tables, email: string, at: int)
    requires email in t.users && email != ""
    ensures var t' := Deactivate(t, email, NO_FAULTS).0;
      && !MeController.IsActive(t'.users[email], at)
      && MeController.Me(t', Some(email), at).0 == t'
      && MeController.Me(t', Some(email), at).1 == MeController.Known(false, t.users[email].email, t.users[email].expiresAt, Inactive)
  {
    assert Present(Some(email));
  }

  lemma DeactivateValid(t: Tables, email: string, faults: Faults)
    requires Valid(t)
    ensures Valid(Deactivate(t, email, faults).0)
  {
    if email in t.users && !faults.userWrite {
      UpdateUserValid(t, t.users[email].(status := Inactive));
    }
  }

  /** `extendMembership(req, res)` for the route's `email` at `now`. */
  method ExtendMembership(db: Database, email: string, now: int, faults: Faults) returns (r: Reply)
    modifies db
    ensures (db.State(), r) == Extend(old(db.State()), email, now, faults)
  {
    if email !in db.users {
      return Json(404, false, "User not found");
    }
    if faults.userWrite {
      return Json(500, false, "Failed to extend membership");
    }
    var user := db.users[email];
    db.UpdateUser(email, user.(status := Active, expiresAt := Some(now + MEMBERSHIP_PERIOD)));
    r := Json(200, true, "Membership extended by 30 days");
  }

  /** `deactivateUser(req, res)` for the route's `email`. */
  method DeactivateUser(db: Database, email: string, faults: Faults) returns (r: Reply)
    modifies db
    ensures (db.State(), r) == Deactivate(old(db.State()), email, faults)
  {
    if email !in db.users {
      return Json(404, false, "User not found");
    }
    if faults.userWrite {
      return Json(500, false, "Failed to deactivate user");
    }
    var user := db.users[email];
    db.UpdateUser(email, user.(status := Inactive));
    r := Json(200, true, "User deactivated successfully");
  }

  /** `resendMagicLink(req, res)`: a token is issued only to an existing
      user; an unknown email is answered 404 with no token. */
  method ResendMagicLink(db: Database, mailer: EmailService, email: string, now: int, token: string, faults: Faults)
    returns (r: Reply)
    modifies db
    ensures email !in old(db.users) ==> r == Json(404, false, "User not found") && db.State() == old(db.State())
    ensures email in old(db.users) ==>
      db.State() == (if InsertRejected(old(db.State()), email, faults) then old(db.State()) else Issued(old(db.State()), email, token, now))
    ensures email in old(db.users) ==>
      r == if SendFails(old(db.State()), mailer.resendApiKey, email, faults) then Json(500, false, "Failed to send magic link")
           else Json(200, true, "Magic link sent successfully")
  {
    if email !in db.users {
      return Json(404, false, "User not found");
    }
    var sent := mailer.SendMagicLoginEmail(db, email, token, now, faults);
    if sent.SendFailed? {
      return Json(500, false, "Failed to send magic link");
    }
    r := Json(200, true, "Magic link sent successfully");
  }
}
