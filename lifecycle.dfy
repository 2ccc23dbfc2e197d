/** A whole customer journey through the model: a paid membership order
    arrives, the activation mails a magic link, the link is redeemed into a
    session, and the status read and the community gate follow the
    entitlement. */
module Lifecycle {
  import opened Wrappers
  import opened Http
  import opened Models
  import opened Store
  import opened EmailService
  import opened WebhookController
  import MeController
  import RevoltController

  /** A user entitled until `expiry` who was just mailed a fresh link is
      logged in by it at any instant of its 15 minutes; the status read
      then reports the entitlement without writing, and the community gate
      lets the session through. */
  lemma LoginWithFreshLink(t0: Tables, email: string, token: string, issuedAt: int, expiry: int, at: int, inviteUrl: string)
    requires Valid(Issued(t0, email, token, issuedAt))
    requires email in t0.users && email != ""
    requires t0.users[email].status == Active && t0.users[email].expiresAt == Some(expiry)
    requires FreshHash(t0.tokens, Hash(token))
    requires issuedAt <= at < issuedAt + TOKEN_LIFETIME && at < expiry
    requires inviteUrl != ""
    ensures var (t2, session) := Redeemed(Issued(t0, email, token, issuedAt), token, at);
      var (t3, me) := MeController.Me(t2, session, at);
      && session == Some(email)
      && me == MeController.Known(true, email, Some(expiry), Active)
      && RevoltController.JoinCommunity(t3, session, at, Some(inviteUrl)) == Redirect(302, inviteUrl)
      && Valid(t3)
  {
    var t1 := Issued(t0, email, token, issuedAt);
    FreshTokenLifetime(t0, email, token, issuedAt, at);
    var (t2, session) := Redeemed(t1, token, at);
    RedeemedValid(t1, token, at);
    assert t2.users == t1.users by {
      RedeemMarksOnlyThatRow(t1, token, at);
    }
    assert MeController.IsActive(t2.users[email], at);
    var (t3, me) := MeController.Me(t2, session, at);
    assert t3 == t2;
    RevoltController.JoinGateIsMeActive(t3, session, at, Some(inviteUrl));
  }

  /** After a qualifying webhook, the link mailed by the activation logs the
      buyer in at any instant of its 15 minutes; the session is then
      entitled until 30 days after processing, the community gate lets it
      through, and the store stays valid. */
  lemma PurchaseThenLogin(
    t: Tables, h: Headers, order: Order, cfg: ShopifyConfig, paidAt: int, token: string, at: int, inviteUrl: string)
    requires Valid(t)
    requires HeadersWellFormed(h) && h.shopDomain == cfg.domain
    requires Present(order.email) && order.id.Some? && cfg.membershipSku.Some? && order.lineItems.Some?
    requires exists k :: 0 <= k < |order.lineItems.value| && order.lineItems.value[k].sku == ConfigValue(cfg.membershipSku)
    requires FreshHash(t.tokens, Hash(token))
    requires paidAt <= at < paidAt + TOKEN_LIFETIME
    requires inviteUrl != ""
    ensures var d := OrderPaid(h, order, cfg);
      var t1 := Activated(t, order, cfg, paidAt, token, NO_FAULTS);
      var (t2, session) := Redeemed(t1, token, at);
      var (t3, me) := MeController.Me(t2, session, at);
      && d.activate && d.response == Received(order.id, true)
      && session == order.email
      && me.Known? && me.active && me.status == Active && me.email == order.email.value
      && me.expiresAt == Some(paidAt + MEMBERSHIP_PERIOD)
      && RevoltController.JoinCommunity(t3, session, at, Some(inviteUrl)) == Redirect(302, inviteUrl)
      && Valid(t3)
  {
    var email := order.email.value;
    ActivationIffMembershipItem(h, order, cfg);
    var t1 := Activated(t, order, cfg, paidAt, token, NO_FAULTS);
    ActivationEntitles(t, order, cfg, paidAt, token, NO_FAULTS);
    ActivationAppends(t, order, cfg, paidAt, token);
    ActivatedValid(t, order, cfg, paidAt, token, NO_FAULTS);
    var t0 := t1.(tokens := t.tokens);
    assert t1 == Issued(t0, email, token, paidAt);
    LoginWithFreshLink(t0, email, token, paidAt, paidAt + MEMBERSHIP_PERIOD, at, inviteUrl);
  }
}
