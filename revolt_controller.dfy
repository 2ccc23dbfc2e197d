/** `/api/revolt`: the community-join gate, which uses the same entitlement
    test as the status read but never corrects the user, and the mapping of
    message-fetch failures to status codes. */
module RevoltController {
  import opened Wrappers
  import opened Http
  import opened Strings
  import opened Models
  import opened Store
  import MeController

  /** The user row found for `email`, if any. */
  function FindUser(t: Tables, email: string): Option<User> {
    if email in t.users then Some(t.users[email]) else None
  }

  /** The refusal test of `joinCommunity`, clause by clause: no user, a
      status other than active, no expiry, or an expiry not after `now`. */
  predicate Refused(user: Option<User>, now: int) {
    || user.None?
    || user.value.status != Active
    || user.value.expiresAt.None?
    || user.value.expiresAt.value <= now
  }

  /** The reply of `joinCommunity` for the session's email at `now`, with
      `inviteUrl` the configured invite link. An unset link makes the lookup
      of the link throw, which is answered 500. */
  function JoinCommunity(t: Tables, sessionEmail: Option<string>, now: int, inviteUrl: Option<string>): (r: Reply)
    ensures r.status == 401 <==> !Present(sessionEmail)
    ensures r.Redirect? ==>
      && Present(sessionEmail) && sessionEmail.value in t.users
      && MeController.IsActive(t.users[sessionEmail.value], now)
      && Present(inviteUrl) && r == Redirect(302, inviteUrl.value)
  {
    if !Present(sessionEmail) then Json(401, false, "Authentication required")
    else if Refused(FindUser(t, sessionEmail.value), now) then Json(403, false, "Active membership required")
    else if !Present(inviteUrl) then Json(500, false, "Failed to join community")
    else Redirect(302, inviteUrl.value)
  }

  /** The gate refuses exactly the users the status read reports as not
      active: anonymous callers get 401, every other caller whose `/api/me`
      would say `active: false` gets 403, and an entitled caller is
      redirected unless the invite link is unset. */
  lemma JoinGateIsMeActive(t: Tables, sessionEmail: Option<string>, now: int, inviteUrl: Option<string>)
    ensures var r := JoinCommunity(t, sessionEmail, now, inviteUrl);
      var me := MeController.Me(t, sessionEmail, now).1;
      && (r.status == 401 <==> me.Anonymous?)
      && (r.status == 403 <==> me.UnknownUser? || (me.Known? && !me.active))
      && (r.Redirect? <==> me.Known? && me.active && Present(inviteUrl))
      && (r.Redirect? ==> r == Redirect(302, inviteUrl.value))
      && (r.status == 500 <==> me.Known? && me.active && !Present(inviteUrl))
  {
    if Present(sessionEmail) && sessionEmail.value in t.users {
      assert Refused(FindUser(t, sessionEmail.value), now) <==> !MeController.IsActive(t.users[sessionEmail.value], now);
    }
  }

  /** The gate reads only: a status read before it (which may correct a
      lapsed user) never changes its answer at the same or a later time. */
  lemma JoinUnaffectedByCorrection(t: Tables, sessionEmail: Option<string>, now: int, later: int, inviteUrl: Option<string>)
    requires now <= later
    ensures JoinCommunity(MeController.Me(t, sessionEmail, now).0, sessionEmail, later, inviteUrl)
         == JoinCommunity(t, sessionEmail, later, inviteUrl)
  {
    if Present(sessionEmail) && sessionEmail.value in t.users {
      var u := t.users[sessionEmail.value];
      MeController.CorrectionKeepsEntitlement(u, now, later);
      assert MeController.Me(t, sessionEmail, now).0.users[sessionEmail.value] == MeController.Corrected(u, now);
    }
  }

  /** A message of the Revolt channel, as the service formats it. */
  datatype RevoltMessage = RevoltMessage(id: string, content: string, authorId: string, createdAt: string)

  /** What the message fetch produced: the messages, or an error message. */
  datatype Fetch = Fetched(messages: seq<RevoltMessage>) | FetchFailed(message: string)

  datatype MessagesReply =
    | MessagesOk(data: seq<RevoltMessage>)
    | MessagesError(status: nat, error: string, message: string)
  {
    function Status(): nat {
      if MessagesOk? then 200 else status
    }
  }

  /** The status for a failed fetch: the substring tests run in order and
      the first that matches decides. */
  function ClassifyError(message: string): (status: nat)
    ensures status in {404, 401, 403, 500}
    ensures Contains(message, "Channel not found") || Contains(message, "404") ==> status == 404
    ensures status == 500 ==> forall pat :: pat in ["Channel not found", "404", "Bot token is invalid", "401", "permission", "403"] ==> !Contains(message, pat)
  {
    if Contains(message, "Channel not found") || Contains(message, "404") then 404
    else if Contains(message, "Bot token is invalid") || Contains(message, "401") then 401
    else if Contains(message, "permission") || Contains(message, "403") then 403
    else 500
  }

  /** The error title paired with each status. */
  function ErrorTitle(status: nat): string {
    if status == 404 then "Channel not found"
    else if status == 401 then "Invalid bot token"
    else if status == 403 then "Permission denied"
    else "Failed to fetch Revolt messages"
  }

  /** `getMessages(req, res)` given the outcome of the fetch. */
  function GetMessages(fetch: Fetch): (r: MessagesReply)
    ensures r.Status() == 200 <==> fetch.Fetched?
    ensures fetch.Fetched? ==> r.MessagesOk? && r.data == fetch.messages
    ensures fetch.FetchFailed? ==> r.MessagesError? && r.status in {404, 401, 403, 500} && r.message == fetch.message
  {
    match fetch
    case Fetched(ms) => MessagesOk(ms)
    case FetchFailed(m) => MessagesError(ClassifyError(m), ErrorTitle(ClassifyError(m)), m)
  }

  /** A successful fetch is answered 200 with the messages unchanged; a
      failure is answered with one of 404, 401, 403, 500 according to the
      first pattern occurring anywhere in its message, carrying the message. */
  lemma GetMessagesClassifies(fetch: Fetch)
    ensures var r := GetMessages(fetch);
      && (fetch.Fetched? <==> r.Status() == 200)
      && (fetch.Fetched? ==> r.data == fetch.messages)
      && (fetch.FetchFailed? ==>
            var m := fetch.message;
            var has := (pat: string) => exists j: nat :: OccursAt(m, pat, j);
            && r.message == m
            && (r.status == 404 <==> has("Channel not found") || has("404"))
            && (r.status == 401 <==> !(has("Channel not found") || has("404")) && (has("Bot token is invalid") || has("401")))
            && (r.status == 403 <==> !(has("Channel not found") || has("404")) && !(has("Bot token is invalid") || has("401"))
                                     && (has("permission") || has("403")))
            && (r.status == 500 <==> !(has("Channel not found") || has("404")) && !(has("Bot token is invalid") || has("401"))
                                     && !(has("permission") || has("403"))))
  {
    if fetch.FetchFailed? {
      var m := fetch.message;
      ContainsIff(m, "Channel not found");
      ContainsIff(m, "404");
      ContainsIff(m, "Bot token is invalid");
      ContainsIff(m, "401");
      ContainsIff(m, "permission");
      ContainsIff(m, "403");
    }
  }

  /** The message the service raises for a 404 from the Revolt API names
      the channel; whatever the channel id, it is answered 404. */
  lemma ServiceNotFound(channelId: string)
    ensures ClassifyError(NotFoundMessage(channelId)) == 404
  {
    var m := NotFoundMessage(channelId);
    assert m[0..17] == "Channel not found";
    assert OccursAt(m, "Channel not found", 0);
    ContainsIff(m, "Channel not found");
  }

  /** The service's error text for a 404 answer on channel `channelId`. */
  function NotFoundMessage(channelId: string): string {
    "Channel not found" + " (404). Please check your REVOLT_CHANNEL_ID: " + channelId
      + ". Make sure the bot has access to this channel."
  }
}
