/** The three record types of the entity store (users, memberships, login
    tokens) and the fixed time constants of the membership policy. Clock
    values are integer milliseconds since the epoch. */
module Models {
  import opened Wrappers

  const MINUTE: int := 60 * 1000
  const DAY: int := 24 * 60 * MINUTE
  /** Length of the window granted by an activation or an admin extension. */
  const MEMBERSHIP_PERIOD: int := 30 * DAY
  /** Lifetime of a magic-link token. */
  const TOKEN_LIFETIME: int := 15 * MINUTE

  datatype Status = Active | Inactive | Expired

  /** A `users` row. `id` is the auto-increment key memberships refer to;
      `email` is the unique natural key; the customer id and the expiry may
      be null. The schema default for `status` is `Inactive`. */
  datatype User = User(
    id: nat,
    email: string,
    shopifyCustomerId: Option<string>,
    status: Status,
    expiresAt: Option<int>)

  /** A `memberships` row: one activation of one user for one order. The
      order id carries no uniqueness constraint. */
  datatype Membership = Membership(
    userId: nat,
    shopifyOrderId: string,
    sku: string,
    activeFrom: int,
    activeTo: int)

  /** A SHA-256 digest. The hash is modelled as an opaque injective function:
      a digest is a tag around its preimage, which no operation inspects. */
  datatype Digest = Sha256(preimage: string)

  function Hash(token: string): Digest {
    Sha256(token)
  }

  /** A `login_tokens` row: the owner's email, the hash of the secret, the
      expiry, the single-use flag and the creation time. */
  datatype LoginToken = LoginToken(
    email: string,
    tokenHash: Digest,
    expiresAt: int,
    used: bool,
    createdAt: int)
}
