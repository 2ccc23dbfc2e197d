/** The magic-link token service: issuing a single-use, 15-minute login
    token (only its hash is stored) and redeeming it. */
module EmailService {
  import opened Wrappers
  import opened Http
  import opened Strings
  import opened Models
  import opened Store

  const VERIFY_PATH: string := "/auth/magic/verify?token="

  /** The row stored when `token` is issued to `email` at `now`: the hash of
      the token, expiry 15 minutes later, not used. */
  function IssuedRow(email: string, token: string, now: int): LoginToken {
    LoginToken(email, Hash(token), now + TOKEN_LIFETIME, false, now)
  }

  /** The store after issuing: one row appended, nothing else touched. */
  function Issued(t: Tables, email: string, token: string, now: int): Tables {
    t.(tokens := t.tokens + [IssuedRow(email, token, now)])
  }

  /** The link handed to the mail provider: the dashboard URL with its first
      "/dashboard" removed, followed by the verify path and the token. */
  function MagicLink(publicDashboardUrl: string, token: string): string {
    ReplaceFirst(publicDashboardUrl, "/dashboard", "") + VERIFY_PATH + token
  }

  /** A row the lookup in `verifyToken` accepts at time `now`. */
  predicate Redeemable(tok: LoginToken, h: Digest, now: int) {
    tok.tokenHash == h && !tok.used && tok.expiresAt > now
  }

  /** `LoginToken.findOne` with hash, unused and unexpired conditions: the
      first such row in insertion order. */
  function FirstRedeemable(tokens: seq<LoginToken>, h: Digest, now: int): (r: Option<nat>)
    ensures r.Some? ==> r.value < |tokens| && Redeemable(tokens[r.value], h, now)
    ensures r.Some? ==> forall j :: 0 <= j < r.value ==> !Redeemable(tokens[j], h, now)
    ensures r.None? <==> forall j :: 0 <= j < |tokens| ==> !Redeemable(tokens[j], h, now)
    decreases |tokens|
  {
    if |tokens| == 0 then None
    else if Redeemable(tokens[0], h, now) then Some(0)
    else
      match FirstRedeemable(tokens[1..], h, now)
      case None => None
      case Some(i) => Some(i + 1)
  }

  /** The store and the result after `verifyToken(token)` at `now`. */
  function Redeemed(t: Tables, token: string, now: int): (r: (Tables, Option<string>))
    ensures r.0.users == t.users && r.0.memberships == t.memberships && |r.0.tokens| == |t.tokens|
    ensures r.1.None? ==> r.0 == t
    ensures r.1.Some? ==> exists i :: 0 <= i < |t.tokens| && Redeemable(t.tokens[i], Hash(token), now) && r.1.value == t.tokens[i].email
  {
    match FirstRedeemable(t.tokens, Hash(token), now)
    case None => (t, None)
    case Some(i) => (t.(tokens := t.tokens[i := t.tokens[i].(used := true)]), Some(t.tokens[i].email))
  }

  /** `verifyToken` at `now`: a failing write of the used flag is caught and
      reported like every other failure, with nothing changed. */
  function Verified(t: Tables, token: string, now: int, faults: Faults): (Tables, Option<string>) {
    if faults.tokenWrite then (t, None) else Redeemed(t, token, now)
  }

  /** Whether the insert of a token row for `email` throws: the write fails,
      or the foreign key to `users.email` finds no user with that email. */
  predicate InsertRejected(t: Tables, email: string, faults: Faults) {
    faults.tokenWrite || email !in t.users
  }

  /** Whether `sendMagicLoginEmail` throws: the token row could not be
      inserted, or a configured mail provider rejected the delivery. */
  predicate SendFails(t: Tables, resendApiKey: Option<string>, email: string, faults: Faults) {
    InsertRejected(t, email, faults) || (Present(resendApiKey) && faults.delivery)
  }

  /** No stored row carries hash `h`: the token is fresh. */
  predicate FreshHash(tokens: seq<LoginToken>, h: Digest) {
    forall i :: 0 <= i < |tokens| ==> tokens[i].tokenHash != h
  }

  /** At most one stored row carries hash `h`. */
  predicate AtMostOneRow(tokens: seq<LoginToken>, h: Digest) {
    forall i, j :: 0 <= i < |tokens| && 0 <= j < |tokens| && tokens[i].tokenHash == h && tokens[j].tokenHash == h ==> i == j
  }

  lemma IssuedValid(t: Tables, email: string, token: string, now: int)
    requires Valid(t) && email in t.users
    ensures Valid(Issued(t, email, token, now))
  {
  }

  lemma RedeemedValid(t: Tables, token: string, now: int)
    requires Valid(t)
    ensures Valid(Redeemed(t, token, now).0)
  {
    match FirstRedeemable(t.tokens, Hash(token), now)
    case None =>
    case Some(i) =>
      var tokens' := t.tokens[i := t.tokens[i].(used := true)];
      forall tok | tok in tokens' ensures tok.expiresAt == tok.createdAt + TOKEN_LIFETIME {
        var k :| 0 <= k < |tokens'| && tokens'[k] == tok;
        assert t.tokens[k] in t.tokens;
      }
  }

  /** In a valid store a redeemed token always names an existing user. */
  lemma RedeemedOwnerHasAccount(t: Tables, token: string, now: int)
    requires Valid(t)
    ensures Redeemed(t, token, now).1.Some? ==> Redeemed(t, token, now).1.value in t.users
  {
    var r := FirstRedeemable(t.tokens, Hash(token), now);
    if r.Some? {
      assert t.tokens[r.value] in t.tokens;
    }
  }

  /** Redemption succeeds exactly when some row with the token's hash is
      unused and unexpired; not found, used and expired are one outcome. */
  lemma RedeemSucceedsIff(t: Tables, token: string, now: int)
    ensures Redeemed(t, token, now).1.Some? <==>
      exists i :: 0 <= i < |t.tokens| && t.tokens[i].tokenHash == Hash(token) && !t.tokens[i].used && t.tokens[i].expiresAt > now
    ensures Redeemed(t, token, now).1.None? ==> Redeemed(t, token, now).0 == t
  {
    var r := FirstRedeemable(t.tokens, Hash(token), now);
    if r.None? {
      forall i | 0 <= i < |t.tokens|
        ensures !(t.tokens[i].tokenHash == Hash(token) && !t.tokens[i].used && t.tokens[i].expiresAt > now)
      {
        assert !Redeemable(t.tokens[i], Hash(token), now);
      }
    }
  }

  /** A successful redemption returns the owner of the matching row, marks
      exactly that row used, and changes nothing else. */
  lemma RedeemMarksOnlyThatRow(t: Tables, token: string, now: int)
    requires Redeemed(t, token, now).1.Some?
    ensures exists i :: (0 <= i < |t.tokens| && Redeemable(t.tokens[i], Hash(token), now)
      && Redeemed(t, token, now).1 == Some(t.tokens[i].email)
      && Redeemed(t, token, now).0 == t.(tokens := t.tokens[i := t.tokens[i].(used := true)]))
  {
    var i := FirstRedeemable(t.tokens, Hash(token), now).value;
    assert Redeemable(t.tokens[i], Hash(token), now);
  }

  /** Single use: when at most one row carries the token's hash, a token
      that was redeemed once can never be redeemed again, at any time. */
  lemma RedeemSingleUse(t: Tables, token: string, now: int, later: int)
    requires AtMostOneRow(t.tokens, Hash(token))
    requires Redeemed(t, token, now).1.Some?
    ensures Redeemed(Redeemed(t, token, now).0, token, later).1 == None
  {
    var h := Hash(token);
    var i := FirstRedeemable(t.tokens, h, now).value;
    var t1 := Redeemed(t, token, now).0;
    assert t1.tokens == t.tokens[i := t.tokens[i].(used := true)];
    forall j | 0 <= j < |t1.tokens| ensures !Redeemable(t1.tokens[j], h, later) {
      if j != i {
        assert t1.tokens[j] == t.tokens[j];
        assert t.tokens[i].tokenHash == h;
      }
    }
  }

  /** Issuing only appends: every row redeemable before stays redeemable
      (earlier tokens of the same email stay valid), and the users and
      memberships are untouched. */
  lemma IssueKeepsEarlierTokens(t: Tables, email: string, token: string, now: int, h: Digest, at: int)
    ensures var t' := Issued(t, email, token, now);
      && t'.users == t.users && t'.memberships == t.memberships
      && |t'.tokens| == |t.tokens| + 1
      && (forall i :: 0 <= i < |t.tokens| ==> t'.tokens[i] == t.tokens[i])
      && (FirstRedeemable(t.tokens, h, at).Some? ==> FirstRedeemable(t'.tokens, h, at) == FirstRedeemable(t.tokens, h, at))
  {
    var t' := Issued(t, email, token, now);
    var r := FirstRedeemable(t.tokens, h, at);
    if r.Some? {
      assert t'.tokens[r.value] == t.tokens[r.value];
      forall j | 0 <= j < r.value ensures !Redeemable(t'.tokens[j], h, at) {
        assert t'.tokens[j] == t.tokens[j];
      }
    }
  }

  /** A freshly issued token is the only row with its hash, redeems to its
      email strictly before `now + 15 minutes` and fails from then on. */
  lemma FreshTokenLifetime(t: Tables, email: string, token: string, now: int, at: int)
    requires FreshHash(t.tokens, Hash(token))
    ensures AtMostOneRow(Issued(t, email, token, now).tokens, Hash(token))
    ensures Redeemed(Issued(t, email, token, now), token, at).1 ==
      if at < now + TOKEN_LIFETIME then Some(email) else None
  {
    var t' := Issued(t, email, token, now);
    var h := Hash(token);
    var n := |t.tokens|;
    assert t'.tokens[n] == IssuedRow(email, token, now);
    forall j | 0 <= j < n ensures !Redeemable(t'.tokens[j], h, at) {
      assert t'.tokens[j] == t.tokens[j];
    }
    var r := FirstRedeemable(t'.tokens, h, at);
    if at < now + TOKEN_LIFETIME {
      assert Redeemable(t'.tokens[n], h, at);
      assert r.Some? && r.value == n;
    } else {
      assert !Redeemable(t'.tokens[n], h, at);
      assert r.None?;
    }
  }

  /** The hash column is not unique, so single use rests on tokens never
      repeating: a secret issued twice can be redeemed twice. */
  lemma RepeatedTokenRedeemsTwice(t: Tables, email: string, token: string, now: int)
    requires FreshHash(t.tokens, Hash(token))
    ensures var t2 := Issued(Issued(t, email, token, now), email, token, now);
      var (t3, first) := Redeemed(t2, token, now);
      && first == Some(email)
      && Redeemed(t3, token, now).1 == Some(email)
  {
    var h := Hash(token);
    var n := |t.tokens|;
    var t2 := Issued(Issued(t, email, token, now), email, token, now);
    assert t2.tokens[n] == IssuedRow(email, token, now) && t2.tokens[n + 1] == IssuedRow(email, token, now);
    forall j | 0 <= j < n ensures !Redeemable(t2.tokens[j], h, now) {
      assert t2.tokens[j] == t.tokens[j];
    }
    assert Redeemable(t2.tokens[n], h, now);
    assert FirstRedeemable(t2.tokens, h, now) == Some(n);
    var t3 := Redeemed(t2, token, now).0;
    forall j | 0 <= j <= n ensures !Redeemable(t3.tokens[j], h, now) {
      if j < n {
        assert t3.tokens[j] == t.tokens[j];
      }
    }
    assert Redeemable(t3.tokens[n + 1], h, now);
    assert FirstRedeemable(t3.tokens, h, now) == Some(n + 1);
  }

  /** Outcome of `sendMagicLoginEmail`: the link was handed to the mail
      provider, only logged (no provider key), or an error was thrown. */
  datatype SendResult = Emailed(link: string) | LinkLogged(link: string) | SendFailed

  class EmailService {
    const resendApiKey: Option<string>
    const publicDashboardUrl: string

    constructor (resendApiKey: Option<string>, publicDashboardUrl: string)
      ensures this.resendApiKey == resendApiKey && this.publicDashboardUrl == publicDashboardUrl
    {
      this.resendApiKey := resendApiKey;
      this.publicDashboardUrl := publicDashboardUrl;
    }

    /** `sendMagicLoginEmail(email)` with `token` the random secret: the row
        is stored first, then the link is delivered (or logged). A failed
        delivery still leaves the row stored. */
    method SendMagicLoginEmail(db: Database, email: string, token: string, now: int, faults: Faults)
      returns (r: SendResult)
      modifies db
      ensures db.State() == if InsertRejected(old(db.State()), email, faults) then old(db.State()) else Issued(old(db.State()), email, token, now)
      ensures r == if InsertRejected(old(db.State()), email, faults) then SendFailed
        else if !Present(resendApiKey) then LinkLogged(MagicLink(publicDashboardUrl, token))
        else if faults.delivery then SendFailed
        else Emailed(MagicLink(publicDashboardUrl, token))
      ensures r.SendFailed? <==> SendFails(old(db.State()), resendApiKey, email, faults)
    {
      if faults.tokenWrite || email !in db.users {
        return SendFailed;
      }
      db.CreateLoginToken(IssuedRow(email, token, now));
      var link := MagicLink(publicDashboardUrl, token);
      if Present(resendApiKey) {
        if faults.delivery {
          return SendFailed;
        }
        return Emailed(link);
      }
      return LinkLogged(link);
    }

    /** `verifyToken(token)`: the email of the first unused, unexpired row
        with the token's hash, which is marked used; `None` otherwise. A
        failing write is caught and also yields `None`. */
    method VerifyToken(db: Database, token: string, now: int, faults: Faults)
      returns (email: Option<string>)
      modifies db
      ensures (db.State(), email) == Verified(old(db.State()), token, now, faults)
    {
      var found := FirstRedeemable(db.tokens, Hash(token), now);
      if found.None? || faults.tokenWrite {
        return None;
      }
      var row := db.tokens[found.value];
      db.MarkTokenUsed(found.value);
      email := Some(row.email);
    }
  }
}
