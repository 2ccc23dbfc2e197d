/** `/auth`: requesting a magic link, redeeming it into a session, and
    logging out. */
module AuthController {
  import opened Wrappers
  import opened Http
  import opened Store
  import opened EmailService

  /** `sendMagicLink(req, res)` with the body's `email`. */
  method SendMagicLink(db: Database, mailer: EmailService, email: Option<string>, now: int, token: string, faults: Faults)
    returns (r: Reply)
    modifies db
    ensures !Present(email) ==> r == Json(400, false, "Email is required") && db.State() == old(db.State())
    ensures Present(email) ==>
      db.State() == (if InsertRejected(old(db.State()), email.value, faults) then old(db.State()) else Issued(old(db.State()), email.value, token, now))
    ensures Present(email) ==>
      r == if SendFails(old(db.State()), mailer.resendApiKey, email.value, faults) then Json(500, false, "Failed to send magic link")
           else Json(200, true, "Magic link sent successfully")
  {
    if !Present(email) {
      return Json(400, false, "Email is required");
    }
    var sent := mailer.SendMagicLoginEmail(db, email.value, token, now, faults);
    if sent.SendFailed? {
      return Json(500, false, "Failed to send magic link");
    }
    r := Json(200, true, "Magic link sent successfully");
  }

  /** `verifyMagicLink(req, res)` with the query's `token`: on success the
      session is bound to the token's email and the client is redirected to
      the configured dashboard URL, the one the mailer builds links from. */
  method VerifyMagicLink(db: Database, mailer: EmailService, session: Session, token: Option<string>, now: int, faults: Faults)
    returns (r: Reply)
    modifies db, session
    ensures !Present(token) ==>
      r == Json(400, false, "Token is required") && db.State() == old(db.State()) && session.email == old(session.email)
    ensures Present(token) ==>
      var (t', email) := Verified(old(db.State()), token.value, now, faults);
      && db.State() == t'
      && (!Present(email) ==> r == Json(400, false, "Invalid or expired token") && session.email == old(session.email))
      && (Present(email) ==> r == Redirect(302, mailer.publicDashboardUrl) && session.email == email)
  {
    if !Present(token) {
      return Json(400, false, "Token is required");
    }
    var email := mailer.VerifyToken(db, token.value, now, faults);
    if !Present(email) {
      return Json(400, false, "Invalid or expired token");
    }
    session.email := email;
    r := Redirect(302, mailer.publicDashboardUrl);
  }

  /** `logout(req, res)`: the session is destroyed unless the session store
      reports an error. */
  method Logout(session: Session, destroyFails: bool) returns (r: Reply)
    modifies session
    ensures destroyFails ==> r == Json(500, false, "Logout failed") && session.email == old(session.email)
    ensures !destroyFails ==> r == Json(200, true, "Logged out successfully") && session.email == None
  {
    if destroyFails {
      return Json(500, false, "Logout failed");
    }
    session.email := None;
    r := Json(200, true, "Logged out successfully");
  }
}
