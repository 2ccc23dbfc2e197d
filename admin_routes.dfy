/** The Basic-authentication guard in front of every `/admin` route. Only
    the password is compared; the username is never looked at. */
module AdminRoutes {
  import opened Wrappers
  import opened Http
  import opened Strings

  const SCHEME: string := "Basic "

  /** The guard lets the request through, or answers it itself with a
      status, an error text and a `WWW-Authenticate` challenge. */
  datatype Outcome = Next | Deny(status: nat, error: string, challenge: string)

  /** `const [username, password] = credentials.split(':')`: the second
      piece, `None` (undefined) when there is no ':'. */
  function PasswordOf(credentials: string): Option<string> {
    var fields := Split(credentials, ':');
    if |fields| >= 2 then Some(fields[1]) else None
  }

  /** `basicAuth` with the `Authorization` header, the configured admin
      password (`None` when unset) and `decode` the base64 decoding. */
  function BasicAuth(header: Option<string>, adminPassword: Option<string>, decode: string -> string): (o: Outcome)
    ensures o.Next? ==> Present(header) && StartsWith(header.value, SCHEME)
    ensures o.Deny? ==> o.status == 401 && o.challenge == "Basic"
  {
    if !Present(header) || !StartsWith(header.value, SCHEME) then Deny(401, "Authentication required", "Basic")
    else
      var parts := Split(header.value, ' ');
      assert header.value[..6][5] == ' ';
      assert ' ' in header.value;
      var credentials := decode(parts[1]);
      if PasswordOf(credentials) != adminPassword then Deny(401, "Invalid credentials", "Basic")
      else Next
  }

  /** A header missing, empty or without the "Basic " prefix is challenged. */
  lemma SchemeRequired(header: Option<string>, adminPassword: Option<string>, decode: string -> string)
    ensures (BasicAuth(header, adminPassword, decode) == Deny(401, "Authentication required", "Basic"))
        <==> (header.None? || !StartsWith(header.value, SCHEME))
  {
    if header.Some? && header.value == "" {
      assert !StartsWith(header.value, SCHEME);
    }
  }

  /** The encoded credential is the second space-separated field of the header. */
  lemma EncodedIsSecondField(encoded: string)
    requires ' ' !in encoded
    ensures Split(SCHEME + encoded, ' ') == ["Basic", encoded]
  {
    assert SCHEME + encoded == Join(["Basic", encoded], ' ');
    SplitJoin(["Basic", encoded], ' ');
  }

  /** For credentials `fields[0]:fields[1]:...` the request passes exactly
      when `fields[1]` is the configured password: the username `fields[0]`
      and everything after a second ':' play no part. */
  lemma OnlyPasswordChecked(encoded: string, fields: seq<string>, adminPassword: Option<string>, decode: string -> string)
    requires ' ' !in encoded
    requires |fields| >= 2 && forall k :: 0 <= k < |fields| ==> ':' !in fields[k]
    requires decode(encoded) == Join(fields, ':')
    ensures BasicAuth(Some(SCHEME + encoded), adminPassword, decode) == Next <==> adminPassword == Some(fields[1])
    ensures BasicAuth(Some(SCHEME + encoded), adminPassword, decode) != Next ==>
      BasicAuth(Some(SCHEME + encoded), adminPassword, decode) == Deny(401, "Invalid credentials", "Basic")
  {
    EncodedIsSecondField(encoded);
    SplitJoin(fields, ':');
    assert StartsWith(SCHEME + encoded, SCHEME) by {
      assert (SCHEME + encoded)[0..6] == SCHEME;
    }
  }

  /** Credentials without ':' have no password field (`undefined`): they
      are let through exactly when no admin password is configured, and
      are otherwise refused as invalid. */
  lemma ColonFreeCredentials(encoded: string, adminPassword: Option<string>, decode: string -> string)
    requires ' ' !in encoded
    requires ':' !in decode(encoded)
    ensures BasicAuth(Some(SCHEME + encoded), adminPassword, decode)
         == if adminPassword.None? then Next else Deny(401, "Invalid credentials", "Basic")
  {
    EncodedIsSecondField(encoded);
    assert (SCHEME + encoded)[0..6] == SCHEME;
  }
}
