/** `POST /webhooks/shopify/orders`: the header gate and SKU classification
    of an order-paid webhook, and the membership activation it triggers
    (user upsert, membership row, login token). No signature comparison is
    performed: any present HMAC header passes. */
module WebhookController {
  import opened Wrappers
  import opened Http
  import opened Models
  import opened Store
  import opened EmailService
  import MeController

  /** A string-typed JSON field as JavaScript sees it: a missing key, `null`,
      or a string. */
  datatype JsString = Undefined | Null | Str(s: string)

  datatype LineItem = LineItem(sku: JsString)

  /** The fields of the order payload the controller reads. `id` and
      `customerId` are their `toString()` forms (`None` when the value is
      missing); `lineItems` is `None` when `line_items` is missing. */
  datatype Order = Order(
    id: Option<string>,
    email: Option<string>,
    customerId: Option<string>,
    lineItems: Option<seq<LineItem>>)

  /** `x-shopify-hmac-sha256`, `x-shopify-shop-domain`, `x-shopify-topic` */
  datatype Headers = Headers(hmac: Option<string>, shopDomain: Option<string>, topic: Option<string>)

  /** The configured shop domain and membership SKU; either may be unset. */
  datatype ShopifyConfig = ShopifyConfig(domain: Option<string>, membershipSku: Option<string>)

  const ORDERS_PAID: string := "orders/paid"

  datatype WebhookResponse =
    | InvalidWebhook(hmacPresent: bool, shopPresent: bool, topicMatch: bool)
    | InvalidShopDomain
    | Received(orderId: Option<string>, isMembership: bool)
    | ProcessingFailed

  function StatusCode(r: WebhookResponse): nat {
    if r.InvalidWebhook? || r.InvalidShopDomain? then 400 else 200
  }

  /** The configured SKU as the JavaScript value the items are compared with. */
  function ConfigValue(sku: Option<string>): JsString {
    match sku
    case None => Undefined
    case Some(s) => Str(s)
  }

  /** `items.some(item => item.sku === membershipSku)` */
  function SomeMembershipItem(items: seq<LineItem>, sku: Option<string>): (r: bool)
    ensures r <==> exists k :: 0 <= k < |items| && items[k].sku == ConfigValue(sku)
    decreases |items|
  {
    if |items| == 0 then false
    else if items[0].sku == ConfigValue(sku) then true
    else
      var r := SomeMembershipItem(items[1..], sku);
      assert forall k :: 1 <= k < |items| ==> items[k] == items[1..][k - 1];
      r
  }

  /** What `handleOrderPaid` answers and whether it starts the activation. */
  datatype Decision = Decision(response: WebhookResponse, activate: bool)

  predicate HeadersWellFormed(h: Headers) {
    Present(h.hmac) && Present(h.shopDomain) && h.topic == Some(ORDERS_PAID)
  }

  function OrderPaid(h: Headers, order: Order, cfg: ShopifyConfig): (d: Decision)
    ensures d.activate ==> d.response == Received(order.id, true)
    ensures StatusCode(d.response) == 400 ==> !d.activate
    ensures d.response.InvalidWebhook? <==> !HeadersWellFormed(h)
  {
    if !HeadersWellFormed(h) then
      Decision(InvalidWebhook(Present(h.hmac), Present(h.shopDomain), h.topic == Some(ORDERS_PAID)), false)
    else if h.shopDomain != cfg.domain then
      Decision(InvalidShopDomain, false)
    else
      match order.lineItems
      case None => Decision(ProcessingFailed, false)
      case Some(items) =>
        var isMembership := SomeMembershipItem(items, cfg.membershipSku);
        Decision(Received(order.id, isMembership), isMembership)
  }

  /** An existing row after the activation's `user.update`: active with the
      new expiry; an `undefined` customer id is left out of the update, so
      the stored one is kept. */
  function Reactivated(u: User, customerId: Option<string>, expiry: int): User {
    u.(shopifyCustomerId := if customerId.Some? then customerId else u.shopifyCustomerId,
       status := Active, expiresAt := Some(expiry))
  }

  /** The user row after the upsert of an activation: created active, or
      rewritten as `Reactivated`. */
  function Upserted(t: Tables, email: string, customerId: Option<string>, expiry: int): Tables {
    if email in t.users then
      t.(users := t.users[email := Reactivated(t.users[email], customerId, expiry)])
    else
      t.(users := t.users[email := User(t.nextUserId, email, customerId, Active, Some(expiry))],
         nextUserId := t.nextUserId + 1)
  }

  /** The steps after the upsert: append the membership row for the buyer's
      row, then issue a login token. */
  function Recorded(t1: Tables, email: string, order: Order, cfg: ShopifyConfig, now: int, token: string, faults: Faults): Tables
    requires email in t1.users
  {
    if order.id.None? || cfg.membershipSku.None? || faults.membershipWrite then t1
    else
      var row := Membership(t1.users[email].id, order.id.value, cfg.membershipSku.value, now, now + MEMBERSHIP_PERIOD);
      var t2 := t1.(memberships := t1.memberships + [row]);
      if faults.tokenWrite then t2 else Issued(t2, email, token, now)
  }

  /** The store after `processMembershipAsync(order)` at `now`, step by step:
      upsert the user, append a membership row, issue a login token. A step
      that fails stops the run; the steps before it are not undone. */
  function Activated(t: Tables, order: Order, cfg: ShopifyConfig, now: int, token: string, faults: Faults): (t': Tables)
    ensures t.users.Keys <= t'.users.Keys
    ensures |t.memberships| <= |t'.memberships| && t'.memberships[..|t.memberships|] == t.memberships
    ensures |t.tokens| <= |t'.tokens| && t'.tokens[..|t.tokens|] == t.tokens
    ensures !Present(order.email) || faults.userWrite ==> t' == t
  {
    if !Present(order.email) || faults.userWrite then t
    else
      var email := order.email.value;
      Recorded(Upserted(t, email, order.customerId, now + MEMBERSHIP_PERIOD), email, order, cfg, now, token, faults)
  }

  /** The gate answers 400 exactly when a header is missing, the topic is
      not orders/paid, or the shop is not the configured one; every request
      past the gate is answered 200, even when the payload has no line items. */
  lemma GateStatus(h: Headers, order: Order, cfg: ShopifyConfig)
    ensures StatusCode(OrderPaid(h, order, cfg).response) == 400 <==> !HeadersWellFormed(h) || h.shopDomain != cfg.domain
    ensures StatusCode(OrderPaid(h, order, cfg).response) != 400 ==> StatusCode(OrderPaid(h, order, cfg).response) == 200
    ensures HeadersWellFormed(h) && h.shopDomain == cfg.domain && order.lineItems.None? ==>
      OrderPaid(h, order, cfg) == Decision(ProcessingFailed, false)
    ensures HeadersWellFormed(h) && h.shopDomain == cfg.domain && order.lineItems.Some? ==>
      OrderPaid(h, order, cfg).response == Received(order.id, SomeMembershipItem(order.lineItems.value, cfg.membershipSku))
  {
  }

  /** The HMAC header is only tested for presence: any two present values
      give the same answer. */
  lemma HmacValueIgnored(h: Headers, otherHmac: string, order: Order, cfg: ShopifyConfig)
    requires Present(h.hmac) && otherHmac != ""
    ensures OrderPaid(h.(hmac := Some(otherHmac)), order, cfg) == OrderPaid(h, order, cfg)
  {
  }

  /** Activation starts exactly when the gate passes and some line item's
      SKU is strictly equal to the configured one; it is then reported as a
      membership order. */
  lemma ActivationIffMembershipItem(h: Headers, order: Order, cfg: ShopifyConfig)
    ensures OrderPaid(h, order, cfg).activate <==>
      && HeadersWellFormed(h) && h.shopDomain == cfg.domain && order.lineItems.Some?
      && exists k :: 0 <= k < |order.lineItems.value| && order.lineItems.value[k].sku == ConfigValue(cfg.membershipSku)
    ensures OrderPaid(h, order, cfg).activate ==> OrderPaid(h, order, cfg).response == Received(order.id, true)
  {
  }

  /** With no SKU configured, `undefined === undefined` makes every order
      that has an item without a `sku` key a membership order. */
  lemma UnsetSkuMatchesItemsWithoutSku(items: seq<LineItem>)
    ensures SomeMembershipItem(items, None) <==> exists k :: 0 <= k < |items| && items[k].sku == Undefined
  {
  }

  /** After the upsert step the buyer's row is active until exactly 30 days
      after processing, whatever the earlier expiry, with the payload's
      customer id when it has one (the stored one otherwise); the row keeps
      its id and no other user changes. */
  lemma ActivationEntitles(t: Tables, order: Order, cfg: ShopifyConfig, now: int, token: string, faults: Faults)
    requires Present(order.email) && !faults.userWrite
    ensures var t' := Activated(t, order, cfg, now, token, faults);
      var email := order.email.value;
      && email in t'.users
      && t'.users[email].status == Active
      && t'.users[email].expiresAt == Some(now + MEMBERSHIP_PERIOD)
      && t'.users[email].shopifyCustomerId ==
           (if order.customerId.None? && email in t.users then t.users[email].shopifyCustomerId else order.customerId)
      && (email in t.users ==> t'.users[email].id == t.users[email].id)
      && (forall at :: MeController.IsActive(t'.users[email], at) <==> at < now + MEMBERSHIP_PERIOD)
      && (forall e :: e in t.users && e != email ==> e in t'.users && t'.users[e] == t.users[e])
  {
  }

  /** A fully successful activation appends exactly one membership row for
      the order, covering the new window, and exactly one login token. */
  lemma ActivationAppends(t: Tables, order: Order, cfg: ShopifyConfig, now: int, token: string)
    requires Present(order.email) && order.id.Some? && cfg.membershipSku.Some?
    ensures var t' := Activated(t, order, cfg, now, token, NO_FAULTS);
      var email := order.email.value;
      && t'.memberships == t.memberships + [Membership(t'.users[email].id, order.id.value, cfg.membershipSku.value, now, now + MEMBERSHIP_PERIOD)]
      && t'.tokens == t.tokens + [IssuedRow(email, token, now)]
  {
  }

  /** No rollback: when the membership write fails the user row is still
      updated; when the token write fails the membership row still stays. */
  lemma ActivationNoRollback(t: Tables, order: Order, cfg: ShopifyConfig, now: int, token: string, faults: Faults)
    requires Present(order.email) && !faults.userWrite
    ensures var t' := Activated(t, order, cfg, now, token, faults);
      var email := order.email.value;
      && t'.users == Upserted(t, email, order.customerId, now + MEMBERSHIP_PERIOD).users
      && (faults.membershipWrite ==> t'.memberships == t.memberships && t'.tokens == t.tokens)
      && (!faults.membershipWrite && order.id.Some? && cfg.membershipSku.Some? && faults.tokenWrite ==>
            |t'.memberships| == |t.memberships| + 1 && t'.tokens == t.tokens)
  {
  }

  /** Replaying an order: the user ends as if only the second delivery had
      been processed (last write wins on the expiry), and the membership
      table holds two new rows for the same order id. */
  lemma ReplayDuplicatesMemberships(t: Tables, order: Order, cfg: ShopifyConfig, now1: int, now2: int, token1: string, token2: string)
    requires Present(order.email) && order.id.Some? && cfg.membershipSku.Some?
    ensures var t1 := Activated(t, order, cfg, now1, token1, NO_FAULTS);
      var t2 := Activated(t1, order, cfg, now2, token2, NO_FAULTS);
      && t2.users == Activated(t, order, cfg, now2, token2, NO_FAULTS).users
      && t2.nextUserId == t1.nextUserId
      && |t2.memberships| == |t.memberships| + 2
      && t2.memberships[|t.memberships|].shopifyOrderId == order.id.value
      && t2.memberships[|t.memberships| + 1].shopifyOrderId == order.id.value
      && t2.memberships[|t.memberships|].userId == t2.memberships[|t.memberships| + 1].userId
  {
    var email := order.email.value;
    var t1 := Activated(t, order, cfg, now1, token1, NO_FAULTS);
    var t2 := Activated(t1, order, cfg, now2, token2, NO_FAULTS);
    assert email in t1.users;
    assert t2.memberships == t1.memberships + [Membership(t1.users[email].id, order.id.value, cfg.membershipSku.value, now2, now2 + MEMBERSHIP_PERIOD)];
    assert t2.users[email] == Reactivated(t1.users[email], order.customerId, now2 + MEMBERSHIP_PERIOD);
  }

  /** The upsert keeps the store valid and leaves the buyer's row in it. */
  lemma UpsertedValid(t: Tables, email: string, customerId: Option<string>, expiry: int)
    requires Valid(t)
    ensures Valid(Upserted(t, email, customerId, expiry))
    ensures email in Upserted(t, email, customerId, expiry).users
  {
    if email in t.users {
      UpdateUserValid(t, Reactivated(t.users[email], customerId, expiry));
    } else {
      CreateUserValid(t, User(t.nextUserId, email, customerId, Active, Some(expiry)));
    }
  }

  lemma RecordedValid(t1: Tables, email: string, order: Order, cfg: ShopifyConfig, now: int, token: string, faults: Faults)
    requires Valid(t1) && email in t1.users
    ensures Valid(Recorded(t1, email, order, cfg, now, token, faults))
  {
    if order.id.Some? && cfg.membershipSku.Some? && !faults.membershipWrite {
      var row := Membership(t1.users[email].id, order.id.value, cfg.membershipSku.value, now, now + MEMBERSHIP_PERIOD);
      assert row.userId in UserIds(t1.users);
      AppendMembershipValid(t1, row);
      IssuedValid(t1.(memberships := t1.memberships + [row]), email, token, now);
    }
  }

  /** Activation keeps the store valid: a created user gets a fresh id and
      the membership row refers to the buyer's row. */
  lemma ActivatedValid(t: Tables, order: Order, cfg: ShopifyConfig, now: int, token: string, faults: Faults)
    requires Valid(t)
    ensures Valid(Activated(t, order, cfg, now, token, faults))
  {
    if Present(order.email) && !faults.userWrite {
      var email := order.email.value;
      var t1 := Upserted(t, email, order.customerId, now + MEMBERSHIP_PERIOD);
      assert Valid(t1) && email in t1.users by {
        UpsertedValid(t, email, order.customerId, now + MEMBERSHIP_PERIOD);
      }
      var t2 := Recorded(t1, email, order, cfg, now, token, faults);
      assert Valid(t2) by {
        RecordedValid(t1, email, order, cfg, now, token, faults);
      }
      assert Activated(t, order, cfg, now, token, faults) == t2;
    }
  }

  /** `processMembershipAsync(orderData)`: every error is caught and logged,
      so a failed step simply ends the run. */
  method ProcessMembershipAsync(db: Database, mailer: EmailService, cfg: ShopifyConfig, order: Order, now: int, token: string, faults: Faults)
    modifies db
    ensures db.State() == Activated(old(db.State()), order, cfg, now, token, faults)
  {
    if !Present(order.email) || faults.userWrite {
      return;
    }
    var email := order.email.value;
    var expiresAt := now + MEMBERSHIP_PERIOD;
    var user, created := db.FindOrCreateUser(email, order.customerId, Active, Some(expiresAt));
    if !created {
      user := user.(status := Active, expiresAt := Some(expiresAt));
      if order.customerId.Some? {
        user := user.(shopifyCustomerId := order.customerId);
      }
      db.UpdateUser(email, user);
    }
    if order.id.None? || cfg.membershipSku.None? || faults.membershipWrite {
      return;
    }
    db.CreateMembership(Membership(user.id, order.id.value, cfg.membershipSku.value, now, expiresAt));
    var _ := mailer.SendMagicLoginEmail(db, email, token, now, faults);
  }

  /** `handleOrderPaid(req, res)`: the answer, then (when the order is a
      membership order) the activation, modelled as the next sequential step. */
  method HandleOrderPaid(db: Database, mailer: EmailService, cfg: ShopifyConfig, h: Headers, order: Order, now: int, token: string, faults: Faults)
    returns (response: WebhookResponse)
    modifies db
    ensures response == OrderPaid(h, order, cfg).response
    ensures db.State() == if OrderPaid(h, order, cfg).activate then Activated(old(db.State()), order, cfg, now, token, faults) else old(db.State())
  {
    if !Present(h.hmac) || !Present(h.shopDomain) || h.topic != Some(ORDERS_PAID) {
      return InvalidWebhook(Present(h.hmac), Present(h.shopDomain), h.topic == Some(ORDERS_PAID));
    }
    if h.shopDomain != cfg.domain {
      return InvalidShopDomain;
    }
    if order.lineItems.None? {
      return ProcessingFailed;
    }
    var isMembership := SomeMembershipItem(order.lineItems.value, cfg.membershipSku);
    response := Received(order.id, isMembership);
    if isMembership {
      ProcessMembershipAsync(db, mailer, cfg, order, now, token, faults);
    }
  }
}
