/** `GET /api/me`: who the caller is and whether their membership is
    entitled now, correcting a lapsed `active` status to `expired` on read. */
module MeController {
  import opened Wrappers
  import opened Http
  import opened Models
  import opened Store

  /** Entitlement: status active, an expiry set, and the expiry still ahead. */
  predicate IsActive(u: User, now: int) {
    u.status == Active && u.expiresAt.Some? && u.expiresAt.value > now
  }

  /** Status says active but the expiry has passed. */
  predicate Lapsed(u: User, now: int) {
    u.status == Active && u.expiresAt.Some? && u.expiresAt.value <= now
  }

  /** The lazy correction applied by a status read at `now`. */
  function Corrected(u: User, now: int): User {
    if Lapsed(u, now) then u.(status := Expired) else u
  }

  /** The JSON body of `/api/me`. */
  datatype MeResponse =
    | StatusFailed
    | Anonymous
    | UnknownUser(email: string)
    | Known(active: bool, email: string, expiresAt: Option<int>, status: Status)

  /** The store and the response after `getMe` with the session's email. */
  function Me(t: Tables, sessionEmail: Option<string>, now: int): (r: (Tables, MeResponse))
    ensures r.1.Anonymous? <==> !Present(sessionEmail)
    ensures r.1.UnknownUser? <==> Present(sessionEmail) && sessionEmail.value !in t.users
    ensures !r.1.StatusFailed?
    ensures r.0.memberships == t.memberships && r.0.tokens == t.tokens && r.0.users.Keys == t.users.Keys
  {
    if !Present(sessionEmail) then (t, Anonymous)
    else
      var e := sessionEmail.value;
      if e !in t.users then (t, UnknownUser(e))
      else
        var u := t.users[e];
        var t' := if Lapsed(u, now) then t.(users := t.users[e := Corrected(u, now)]) else t;
        (t', Known(IsActive(u, now), u.email, u.expiresAt, Corrected(u, now).status))
  }

  /** `getMe` when the store's writes may throw: a failing correction is
      caught and answered 500 "Failed to get user status", with the store
      unchanged. Without a correction to make, no write is attempted. */
  function MeUnder(t: Tables, sessionEmail: Option<string>, now: int, faults: Faults): (r: (Tables, MeResponse))
    ensures r.1.StatusFailed? <==>
      Present(sessionEmail) && sessionEmail.value in t.users && Lapsed(t.users[sessionEmail.value], now) && faults.userWrite
    ensures r.1.StatusFailed? ==> r.0 == t
    ensures !faults.userWrite ==> r == Me(t, sessionEmail, now)
  {
    if Present(sessionEmail) && sessionEmail.value in t.users && Lapsed(t.users[sessionEmail.value], now) && faults.userWrite
    then (t, StatusFailed)
    else Me(t, sessionEmail, now)
  }

  /** `active` is reported exactly for a logged-in, known, entitled user. */
  lemma MeActiveIff(t: Tables, sessionEmail: Option<string>, now: int)
    ensures var r := Me(t, sessionEmail, now).1;
      (r.Known? && r.active) <==>
      (Present(sessionEmail) && sessionEmail.value in t.users && IsActive(t.users[sessionEmail.value], now))
  {
  }

  /** The read changes at most the caller's own row, and only its status,
      only from active to expired, only when the expiry has passed; the
      reported status is the corrected one. */
  lemma MeWrites(t: Tables, sessionEmail: Option<string>, now: int)
    ensures var (t', r) := Me(t, sessionEmail, now);
      && t'.memberships == t.memberships && t'.tokens == t.tokens && t'.nextUserId == t.nextUserId
      && t'.users.Keys == t.users.Keys
      && (forall e :: e in t.users && (!Present(sessionEmail) || e != sessionEmail.value) ==> t'.users[e] == t.users[e])
      && (Present(sessionEmail) && sessionEmail.value in t.users ==>
            var u := t.users[sessionEmail.value];
            && t'.users[sessionEmail.value] == (if u.status == Active && u.expiresAt.Some? && u.expiresAt.value <= now then u.(status := Expired) else u)
            && r.status == t'.users[sessionEmail.value].status)
  {
  }

  /** The correction never changes whether the user is entitled from the
      moment of the read onwards. */
  lemma CorrectionKeepsEntitlement(u: User, now: int, at: int)
    requires now <= at
    ensures IsActive(Corrected(u, now), at) <==> IsActive(u, at)
  {
  }

  /** Reading at `t1` then at a later `t2` leaves the user as one read at `t2`
      would; once a read has corrected the user, later reads change nothing. */
  lemma CorrectionIdempotent(u: User, t1: int, t2: int)
    requires t1 <= t2
    ensures Corrected(Corrected(u, t1), t2) == Corrected(u, t2)
    ensures Lapsed(u, t1) ==> Corrected(Corrected(u, t1), t2) == Corrected(u, t1)
  {
  }

  /** Two reads of the same session leave the store as a single later read. */
  lemma MeTwice(t: Tables, sessionEmail: Option<string>, t1: int, t2: int)
    requires t1 <= t2
    ensures Me(Me(t, sessionEmail, t1).0, sessionEmail, t2).0 == Me(t, sessionEmail, t2).0
  {
    if Present(sessionEmail) && sessionEmail.value in t.users {
      var e := sessionEmail.value;
      var u := t.users[e];
      CorrectionIdempotent(u, t1, t2);
      var ta := Me(t, sessionEmail, t1).0;
      assert ta.users[e] == Corrected(u, t1);
      if !Lapsed(u, t1) {
        assert ta == t;
      } else {
        assert ta.users[e := Corrected(u, t2)] == t.users[e := Corrected(u, t2)];
      }
    }
  }

  /** The status read keeps the store valid, and in a valid store the
      reported status is active exactly when `active` is reported. */
  lemma MeValid(t: Tables, sessionEmail: Option<string>, now: int)
    requires Valid(t)
    ensures Valid(Me(t, sessionEmail, now).0)
    ensures var r := Me(t, sessionEmail, now).1; r.Known? ==> (r.active <==> r.status == Active)
  {
    if Present(sessionEmail) && sessionEmail.value in t.users {
      var u := t.users[sessionEmail.value];
      if Lapsed(u, now) {
        UpdateUserValid(t, Corrected(u, now));
      }
    }
  }

  /** `getMe(req, res)` with the request's session. */
  method GetMe(db: Database, session: Session, now: int, faults: Faults) returns (r: MeResponse)
    modifies db
    ensures (db.State(), r) == MeUnder(old(db.State()), session.email, now, faults)
  {
    var email := session.email;
    if !Present(email) {
      return Anonymous;
    }
    if email.value !in db.users {
      return UnknownUser(email.value);
    }
    var user := db.users[email.value];
    var active := IsActive(user, now);
    if user.status == Active && user.expiresAt.Some? && user.expiresAt.value <= now {
      if faults.userWrite {
        return StatusFailed;
      }
      db.UpdateUser(email.value, user.(status := Expired));
      user := user.(status := Expired);
    }
    r := Known(active, user.email, user.expiresAt, user.status);
  }
}
