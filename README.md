# Membership entitlement model

A Dafny model of the membership-entitlement core of the NeverPayForAds
dashboard backend. This Node.js/Express service sells a 30-day community
membership through Shopify and gives buyers access through e-mailed magic
links.

The model covers:

- **The entity store.** There are three tables: users keyed by e-mail, an
  append-only membership table and the login-token table. They are one
  `Tables` value with a store invariant (`Store.Valid`), wrapped by a mutable
  `Database` class. The class's primitive operations stand for the ORM calls
  the controllers make. The per-browser session is a `Session` object
  holding the bound e-mail.
- **The order-paid webhook.** This is the header gate, the SKU
  classification and the response. It is followed by the membership
  activation: upsert the user as active for 30 days, append a membership row,
  then issue a login token. A failed step ends the run without undoing the
  earlier ones.
- **The magic-link token service.** Issuing stores only the token's hash,
  with a 15-minute lifetime. Redeeming marks the first unused, unexpired row
  with that hash as used and returns its e-mail.
- **The status read `/api/me`.** It computes the entitlement and lazily
  turns a lapsed `active` status into `expired`.
- **The login endpoints.** Requesting a link, redeeming it into a session,
  and logging out.
- **The admin endpoints.** The paginated listing, extending by 30 days,
  deactivating and re-sending a link. Also the Basic-auth guard in front of
  them.
- **The community-join gate.** It uses the same entitlement test as the
  status read. The model also covers how message-fetch failures map to
  status codes.

Each state-changing operation has two parts:

- A pure function on `Tables` gives the new store and the reply. For
  example, `WebhookController.Activated`, `EmailService.Redeemed`,
  `MeController.Me` and `AdminController.Extend`. The lemmas state their
  properties.
- A method in the controller module, or on the `EmailService` class, takes
  the shared `Database` and composes the primitive steps the source
  performs. Its postcondition ties the resulting state to that function.

Time is an integer count of milliseconds, with `DAY` and `MINUTE` constants.
The SHA-256 hash is an injective constructor (`Models.Hash`). The random
token, the current time and the configuration are parameters. A `Faults`
record says which store writes throw and whether the mail provider rejects a
delivery.

Where the code does not do what its own comments, schema or route names
announce, the model follows the code:

- **No signature check.** Any present `x-shopify-hmac-sha256` value passes,
  because the comparison is commented out. See
  `WebhookController.HmacValueIgnored`.
- **No link without an account.** The login-token table declares a foreign
  key from `login_tokens.email` to `users.email` (`LoginToken.belongsTo`
  with `targetKey: 'email'`, created by `sync({alter: true})`). So a link
  can only be issued to an e-mail that already has a user row. For an
  unknown e-mail, `sendMagicLink` answers 500 and stores nothing. The
  journey "link before purchase" therefore does not exist. The journey the
  controllers support is purchase, then the mailed link, then login
  (`Lifecycle.PurchaseThenLogin`). This holds for the controller code
  itself; the way the webhook route is registered stops the activation
  from running (see "Left out").
- **Duplicate membership rows on replay.** Replaying an order appends one
  more row for the same order id each time, since nothing makes the order id
  unique (`WebhookController.ReplayDuplicatesMemberships`).

## Model

| member | source | states |
|---|---|---|
| Strings.IndexOf | src/controllers/revoltController.js:17-31 | the result is the first index at which the pattern occurs, and `None` exactly when it occurs nowhere (what `includes` and `replace` rest on) |
| Strings.ContainsIff | src/controllers/revoltController.js:17-31 | `includes` holds exactly when the pattern occurs at some index |
| Strings.Split | src/routes/adminRoutes.js:19-20 | `split` on one character yields at least one piece, no piece holds the separator, and there are two or more pieces exactly when the separator occurs |
| Strings.JoinSplit | src/routes/adminRoutes.js:19-20 | joining the pieces of a split with the separator gives back the input |
| Strings.SplitJoin | src/routes/adminRoutes.js:19-20 | splitting the join of separator-free pieces gives back exactly those pieces |
| Store.EmptyValid | src/models/User.js:10-29 | the empty store satisfies the store invariant |
| Store.UpdateUserValid | src/models/User.js:10-29 | rewriting a user row under its own e-mail and id, with an expiry whenever it is active, keeps the invariant |
| Store.CreateUserValid | src/models/User.js:4-9 | inserting a user under a new e-mail with the next auto-increment id keeps the invariant |
| Store.AppendMembershipValid | src/models/Membership.js:10-34 | appending a membership of an existing user with `active_from < active_to` keeps the invariant |
| Store.Database.constructor | src/database/index.js:20-28 | a fresh store has no rows and the next user id is 1 |
| Store.Database.FindOrCreateUser | src/controllers/webhookController.js:168-175 | `findOrCreate` returns the existing row unchanged, or inserts a row with the next id and the defaults and reports it created |
| Store.Database.UpdateUser | src/controllers/webhookController.js:177-184 | `user.update` replaces only that e-mail's row |
| Store.Database.CreateMembership | src/controllers/webhookController.js:190-197 | `Membership.create` appends exactly one row |
| Store.Database.CreateLoginToken | src/services/emailService.js:22-26 | `LoginToken.create` appends exactly one row |
| Store.Database.MarkTokenUsed | src/services/emailService.js:84-85 | only the `used` flag of the found row becomes true |
| EmailService.Redeemed | src/services/emailService.js:68-87 | redemption touches no user or membership and adds no token; when it finds nothing the store is unchanged; when it returns an e-mail, some row with the token's hash was unused, unexpired and owned by that e-mail |
| EmailService.FirstRedeemable | src/services/emailService.js:70-78 | the lookup finds the first row with the hash that is unused and expires strictly after now, and finds nothing exactly when no such row exists |
| EmailService.IssuedValid | src/models/LoginToken.js:10-28 | issuing for an existing user keeps the invariant (15-minute lifetime, owner exists) |
| EmailService.RedeemedValid | src/services/emailService.js:84-85 | redeeming keeps the invariant |
| EmailService.RedeemedOwnerHasAccount | src/models/LoginToken.js:40-46 | in a valid store a redeemed token always names an existing user |
| EmailService.RedeemSucceedsIff | src/services/emailService.js:68-82 | an e-mail is returned exactly when some row has the hash, is unused and is unexpired; not found, used and expired all give the same `None` and change nothing |
| EmailService.RedeemMarksOnlyThatRow | src/services/emailService.js:84-87 | a successful redemption returns the owner of a matching row and marks exactly that row used |
| EmailService.RedeemSingleUse | src/services/emailService.js:84-87 | when only one row has the token's hash, a token redeemed once is never redeemed again, at any later time |
| EmailService.IssueKeepsEarlierTokens | src/services/emailService.js:11-44 | issuing only appends: users and memberships are untouched, earlier rows are unchanged, and an earlier redeemable token stays redeemable |
| EmailService.FreshTokenLifetime | src/services/emailService.js:17-26 | a fresh token redeems to its e-mail strictly before issue time + 15 minutes and fails from then on |
| EmailService.RepeatedTokenRedeemsTwice | src/models/LoginToken.js:17-20 | the hash column is not unique: a secret issued twice can be redeemed twice |
| EmailService.EmailService.constructor | src/services/emailService.js:6-9 | the service keeps the configured provider key and dashboard URL |
| EmailService.EmailService.SendMagicLoginEmail | src/services/emailService.js:11-44 | the row is stored before delivery; a rejected insert (write error or no such user) stores nothing and throws; without a provider key the link is only logged; a failed delivery throws but the row stays; the link is the dashboard URL without its first "/dashboard" plus the verify path and the token |
| EmailService.EmailService.VerifyToken | src/services/emailService.js:66-92 | the store and result are those of the redemption; an internal write error yields `None` and changes nothing |
| MeController.MeActiveIff | src/controllers/meController.js:39-43 | `active` is reported exactly for a logged-in, known user whose status is active with an expiry after now |
| MeController.MeWrites | src/controllers/meController.js:52-64 | the read changes at most the caller's own row, only from active to expired, only when the expiry has passed; the reported status is the corrected one |
| MeController.CorrectionKeepsEntitlement | src/controllers/meController.js:52-56 | the correction never changes entitlement from the read onwards |
| MeController.CorrectionIdempotent | src/controllers/meController.js:52-56 | a second read at a later time corrects nothing further |
| MeController.MeTwice | src/controllers/meController.js:52-56 | two reads leave the store as a single later read |
| MeController.MeValid | src/controllers/meController.js:52-64 | the read keeps the invariant, and the reported status is active exactly when `active` is reported |
| MeController.Me | src/controllers/meController.js:11-67 | no session e-mail is exactly the anonymous answer; an e-mail without a user row is exactly the authenticated-but-not-active answer; the read never fails without faults, adds or removes no user and writes no membership or token |
| MeController.MeUnder | src/controllers/meController.js:52-75 | the read answers 500 "Failed to get user status" exactly when the caller is known, lapsed and the status write throws, and then changes nothing; without that fault it is the plain read |
| MeController.GetMe | src/controllers/meController.js:4-75 | the store and the answer are those of the read under the given faults: anonymous, unknown user, the entitlement as of before the correction with the corrected status, or 500 when the correcting write throws |
| WebhookController.OrderPaid | src/controllers/webhookController.js:52-127 | activation is decided only together with a "received, membership order" reply; a 400 reply never activates; the reply is "invalid webhook" exactly when a required header is missing or the topic is not orders/paid |
| WebhookController.Activated | src/controllers/webhookController.js:153-210 | the activation only adds users and only appends membership and token rows, never rewriting earlier ones; an order without an e-mail, or a failing user write, changes nothing |
| WebhookController.SomeMembershipItem | src/controllers/webhookController.js:112-116 | an order is a membership order exactly when some line item's `sku` is strictly equal to the configured SKU |
| WebhookController.GateStatus | src/controllers/webhookController.js:52-127 | 400 exactly when a header is missing, the topic is not orders/paid or the shop differs from the configured domain; otherwise 200, even when the line items are missing; with line items present the reply reports whether some item matches the SKU, so a non-membership order is answered `isMembership: false` |
| WebhookController.HmacValueIgnored | src/controllers/webhookController.js:80-101 | any two present HMAC values give the same decision: no signature comparison |
| WebhookController.ActivationIffMembershipItem | src/controllers/webhookController.js:112-138 | activation starts exactly when the gate passes and some item matches the SKU, and the reply then reports a membership order |
| WebhookController.UnsetSkuMatchesItemsWithoutSku | src/controllers/webhookController.js:112-116 | with no SKU configured, every order holding an item without a `sku` key counts as a membership order |
| WebhookController.ActivationEntitles | src/controllers/webhookController.js:157-185 | after the upsert the buyer is active until exactly processing time + 30 days, replacing any earlier expiry; the customer id is the payload's, or the stored one when the payload has none, since the ORM skips an undefined attribute; the row keeps its id and no other user changes |
| WebhookController.ActivationAppends | src/controllers/webhookController.js:190-200 | a successful activation appends exactly one membership row (order id, SKU, 30-day window) and exactly one login token |
| WebhookController.ActivationNoRollback | src/controllers/webhookController.js:166-209 | a failing membership write leaves the user update in place, and a failing token write leaves the membership row in place |
| WebhookController.ReplayDuplicatesMemberships | src/controllers/webhookController.js:190-197 | replaying an order leaves the user as after the last delivery alone and adds a second row with the same order id |
| WebhookController.UpsertedValid | src/controllers/webhookController.js:168-185 | the upsert keeps the invariant and leaves the buyer's row in the store |
| WebhookController.RecordedValid | src/controllers/webhookController.js:190-200 | the membership and token steps keep the invariant |
| WebhookController.ActivatedValid | src/controllers/webhookController.js:153-210 | the whole activation, whichever step fails, keeps the invariant |
| WebhookController.ProcessMembershipAsync | src/controllers/webhookController.js:153-210 | the store after the run is the step-by-step activation |
| WebhookController.HandleOrderPaid | src/controllers/webhookController.js:22-150 | the reply is the gate's decision, and the store changes (by the activation) only for a membership order |
| AuthController.SendMagicLink | src/controllers/authController.js:5-31 | a missing or empty e-mail answers 400 and issues nothing; otherwise one token is issued and success is answered, or 500 when issuing throws |
| AuthController.VerifyMagicLink | src/controllers/authController.js:33-91 | no token answers 400 with the store and session untouched; a failed verification answers 400 "Invalid or expired token" with the session unchanged; success binds the session to the returned e-mail and redirects 302 to the configured dashboard URL |
| AuthController.Logout | src/controllers/authController.js:93-107 | the session is cleared and success answered, unless destroying it errors (500, session kept) |
| AdminController.CeilDivIsCeiling | src/controllers/adminController.js:26-31 | `Math.ceil(count / limit)` is the least page count whose pages hold all rows |
| AdminController.OwnedBy | src/controllers/adminController.js:16-20 | the included memberships are exactly the rows with that user's id |
| AdminController.WithMemberships | src/controllers/adminController.js:12-21 | each listed user comes with its own memberships, in listing order |
| AdminController.ListPage | src/controllers/adminController.js:10-21 | a page holds at most `limit` rows, exactly `limit` when the table reaches past it, and row k is entry `offset + k` of the listing order with that user's memberships |
| AdminController.ListedOnce | src/controllers/adminController.js:12-15 | a listing with as many entries as stored users that covers every stored user names each e-mail once |
| AdminController.GetUsers | src/controllers/adminController.js:6-43 | the listing answers exactly when the defaulted page and limit are positive; then the total is the number of stored users, at most `limit` rows are listed, and each row is a stored user as stored |
| AdminController.GetUsersIsListPage | src/controllers/adminController.js:8-21 | a listed page is the slice of the listing order starting at `(page-1)*limit` |
| AdminController.GetUsersPagination | src/controllers/adminController.js:6-43 | page and limit default to 1 and 25 on NaN or 0; the listing answers exactly for positive values; it reports page, limit, total and `pages = ceil(total/limit)` and lists at most `limit` users |
| AdminController.ListedRow | src/controllers/adminController.js:12-21 | row i of a page is entry `offset + i` of the listing order, is stored under its own e-mail, and carries exactly the memberships with its id |
| AdminController.GetUsersRows | src/controllers/adminController.js:10-21 | for a listing of the stored users, the listed rows are its slice starting at `(page-1)*limit`, each a stored user with exactly its own memberships |
| AdminController.PageOfRow | src/controllers/adminController.js:8-10 | entry i of the listing order lies on page `i / limit + 1`, which lies between 1 and `pages`, and is listed there |
| AdminController.EveryRowOnItsPage | src/controllers/adminController.js:8-31 | for a listing of the stored users, entry i is listed on page `i / limit + 1`, a page between 1 and `pages` |
| AdminController.EveryUserListed | src/controllers/adminController.js:8-31 | every stored user appears on some page between 1 and `pages`, so the pages cover the user table |
| AdminController.Extend | src/controllers/adminController.js:45-84 | 404 exactly for an unknown e-mail; any answer but 200 leaves the store as it was; no user is added or removed; after 200 the user is entitled at the extension time |
| AdminController.ExtendOutcome | src/controllers/adminController.js:45-84 | an unknown e-mail answers 404 and changes nothing; success sets active with expiry now + 30 days, writes no membership row or token, and touches no other user |
| AdminController.ExtendNonCumulative | src/controllers/adminController.js:60-66 | extending twice leaves the store as the last extension alone: the expiry is replaced, not added to |
| AdminController.ExtendEntitles | src/controllers/adminController.js:60-66 | an extended user is entitled exactly before now + 30 days |
| AdminController.ExtendValid | src/controllers/adminController.js:63-66 | extending keeps the invariant |
| AdminController.Deactivate | src/controllers/adminController.js:86-117 | 404 exactly for an unknown e-mail; any answer but 200 leaves the store as it was; no user is added or removed; after 200 the user is entitled at no time |
| AdminController.DeactivateOutcome | src/controllers/adminController.js:86-117 | an unknown e-mail answers 404 and changes nothing; success changes only that user's status, to inactive, keeping its expiry |
| AdminController.DeactivatedStaysOut | src/controllers/adminController.js:101-103 | a deactivated user is entitled at no time, and a later status read reports it inactive and writes nothing |
| AdminController.DeactivateValid | src/controllers/adminController.js:101-103 | deactivating keeps the invariant |
| AdminController.ExtendMembership | src/controllers/adminController.js:45-84 | the store and reply are those of the extension |
| AdminController.DeactivateUser | src/controllers/adminController.js:86-117 | the store and reply are those of the deactivation |
| AdminController.ResendMagicLink | src/controllers/adminController.js:119-148 | an unknown e-mail answers 404 and issues no token; otherwise a token is issued and success is answered, or 500 when issuing throws |
| RevoltController.JoinCommunity | src/controllers/revoltController.js:110-150 | 401 exactly without a session e-mail; a redirect happens only for a stored user entitled now, and goes 302 to the configured, non-empty invite URL |
| RevoltController.JoinGateIsMeActive | src/controllers/revoltController.js:110-150 | no session answers 401; every caller the status read reports as not active gets 403; an entitled caller is redirected 302 to the invite URL, or gets 500 when none is configured |
| RevoltController.JoinUnaffectedByCorrection | src/controllers/revoltController.js:122-133 | the gate never corrects the user, and a correction made by a status read does not change its answer |
| RevoltController.ClassifyError | src/controllers/revoltController.js:17-46 | the status is one of 404, 401, 403, 500; a message naming a missing channel or 404 is always 404; 500 only when none of the six patterns occurs |
| RevoltController.GetMessages | src/controllers/revoltController.js:5-46 | 200 exactly for a successful fetch, with the messages unchanged; a failure is answered 404, 401, 403 or 500 and carries its own message |
| RevoltController.GetMessagesClassifies | src/controllers/revoltController.js:5-46 | a fetch answers 200 with the messages; a failure answers 404, 401, 403 or 500, by the first of the patterns that occurs in its message, in that order |
| RevoltController.ServiceNotFound | src/services/revoltService.js:60-61 | the service's error for a 404 from the Revolt API is answered 404, whatever the channel id |
| AdminRoutes.BasicAuth | src/routes/adminRoutes.js:8-30 | a request is let through only with a header starting with "Basic "; every refusal is 401 with a Basic challenge |
| AdminRoutes.SchemeRequired | src/routes/adminRoutes.js:11-17 | a missing header, or one not starting with "Basic ", is exactly the case answered 401 "Authentication required" with a Basic challenge |
| AdminRoutes.EncodedIsSecondField | src/routes/adminRoutes.js:19 | the encoded credential is the second space-separated field of the header |
| AdminRoutes.OnlyPasswordChecked | src/routes/adminRoutes.js:19-30 | the request passes exactly when the second ':'-field equals the configured password; the username and anything after a second ':' play no part; otherwise it is 401 "Invalid credentials" |
| AdminRoutes.ColonFreeCredentials | src/routes/adminRoutes.js:19-30 | credentials without ':' leave the password undefined: they are let through exactly when no admin password is configured, and refused 401 "Invalid credentials" otherwise |
| Lifecycle.LoginWithFreshLink | src/services/emailService.js:66-92 | a user entitled until some expiry who was just mailed a fresh link is logged in by it during its 15 minutes; the status read then reports the entitlement unchanged, and the community gate redirects |
| Lifecycle.PurchaseThenLogin | src/controllers/webhookController.js:153-210 | after a qualifying webhook the mailed link logs the buyer in during its 15 minutes, the session is entitled until processing time + 30 days, and the community gate lets it through |

## Left out

- Cryptography: SHA-256 is an injective constructor, the random 32-byte token is a parameter, and base64 decoding is an uninterpreted function. No HMAC is modelled, since the source does not compute one.
- Delivery through the mail provider is a yes/no fault input. The message body and the sender address are not modelled.
- Concurrency: the fire-and-forget activation after the webhook reply is the next sequential step. The non-atomic find-then-update in token redemption, and `findOrCreate` races, are not modelled.
- Stored instants: `expires_at`, `active_from` and `active_to` are `DATE` columns, which MySQL keeps to the whole second. The model keeps milliseconds, so a 15-minute or 30-day boundary it states can lie up to one second away from the stored one. The members this affects are named on the next lines.
- EmailService.FreshTokenLifetime: the token redeems strictly before issue time + 15 minutes to the millisecond; the stored expiry is cut to the second.
- WebhookController.ActivationEntitles: the entitlement ends at processing time + 30 days to the millisecond; the stored expiry is cut to the second. The same holds for WebhookController.ActivationAppends (the membership window).
- AdminController.ExtendEntitles: the entitlement ends at extension time + 30 days to the millisecond; the stored expiry is cut to the second. The same holds for AdminController.ExtendOutcome.
- Lifecycle.LoginWithFreshLink and Lifecycle.PurchaseThenLogin: the login instant must lie within the 15 minutes to the millisecond, for the same reason.
- Calendar arithmetic: `setDate(+30)` and `setMinutes(+15)` in local time are fixed millisecond offsets, so daylight-saving shifts are not modelled. `active_from` is the processing time, not a second clock reading.
- E-mail comparison follows the code's exact string equality. The database's case-insensitive collation is not modelled. The `isEmail` validation is not modelled, except that an empty e-mail never reaches the store.
- WebhookController.OrderPaid: the payload arrives already parsed into the fields read. Line items that are not objects, which would also land in the catch branch, are not modelled.
- AdminController.GetUsers: the row order (`created_at` descending) is an input sequence, required to list every stored user once. The total is the number of stored users, so the count of the joined query is not modelled. A page or limit below 1 is taken to make the database reject the query. Any other failure of the query, which the source answers 500 "Failed to get users", is not modelled.
- AdminController.ExtendMembership and DeactivateUser: the reply body's `data` fields are not modelled. Lookup failures of the store are not modelled; only the update can fail.
- RevoltController.JoinCommunity: a failing user lookup (500) is not modelled.
- MeController.GetMe: a failing user lookup, which the source also answers 500 "Failed to get user status", is not modelled; only the failing status write is.
- RevoltController.GetMessages: the Revolt HTTP client and message sanitising are not modelled. The fetch outcome is an input.
- AuthController.VerifyMagicLink: the session `save` callback only logs, so it is not modelled. The query token is modelled as a string. A repeated or nested query parameter arrives as an array or object, and then `token.substring` throws and the outer catch answers 500 "Token verification failed"; that answer is not modelled.
- Route wiring is not modelled. `express.json` (src/app.js:33) consumes a JSON request body, and with it the stream's 'end' event, before the route's raw-body middleware waits for that event (src/routes/webhookRoutes.js:15-18). So for a JSON body the handler is never reached and no reply is sent. Even when reached, the handler is registered without binding `this` (src/routes/webhookRoutes.js:25), so `this.processMembershipAsync` throws after the 200 reply and the activation does not run. The model takes the parsed payload as input and runs the activation as the controller code describes it.
- Session storage, cookies, the raw-body middleware, configuration reading, health checks and logging are not modelled.
- `testWebhook`, `hasMembershipTag`, `getWebhookLogs` and `testConfiguration` are left out: they are placeholders or probes of external services.
- The schema default status `inactive` is not modelled, because every insert in the core sets the status explicitly.
