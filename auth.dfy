/** src/auth.rs: the administrator check. The `ADMIN_TOKEN` secret, the
    `Authorization` header and the decoded query pairs of the request URL
    are parameters. */
module Auth {
  import opened Wrappers
  import opened Strings
  import opened Models
  import opened Http

  /** The decoded `key=value` pairs of a URL, in order. */
  type Query = seq<(string, string)>

  const BEARER: string := "Bearer "
  const TOKEN_KEY: string := "token"

  /** Some pair, at any position, is `token=value`. */
  ghost predicate HasToken(query: Query, value: string)
  {
    exists i :: 0 <= i < |query| && query[i].0 == TOKEN_KEY && query[i].1 == value
  }

  /** The decision `verify_admin_token` makes: without a secret nobody is
      admitted; a `Bearer ` header decides alone; otherwise any `token`
      pair equal to the secret admits. */
  ghost predicate Admitted(secret: Option<string>, authorization: Option<string>, query: Query)
  {
    if secret.None? then false
    else if authorization.Some? && StripPrefix(authorization.value, BEARER).Some? then
      StripPrefix(authorization.value, BEARER).value == secret.value
    else HasToken(query, secret.value)
  }

  /** `verify_admin_token`. */
  method VerifyAdminToken(secret: Option<string>, authorization: Option<string>, query: Query)
    returns (ok: bool)
    ensures ok == Admitted(secret, authorization, query)
  {
    if secret.None? {
      return false;
    }
    var expected := secret.value;
    if authorization.Some? {
      var token := StripPrefix(authorization.value, BEARER);
      if token.Some? {
        return token.value == expected;
      }
    }
    var i := 0;
    while i < |query|
      invariant 0 <= i <= |query|
      invariant forall j :: 0 <= j < i ==> !(query[j].0 == TOKEN_KEY && query[j].1 == expected)
    {
      if query[i].0 == TOKEN_KEY && query[i].1 == expected {
        return true;
      }
      i := i + 1;
    }
    return false;
  }

  /** `v` is the value of the leftmost `token` pair of `query`. */
  ghost predicate FirstTokenIs(query: Query, v: string)
  {
    exists i :: 0 <= i < |query| && query[i] == (TOKEN_KEY, v)
                && forall j :: 0 <= j < i ==> query[j].0 != TOKEN_KEY
  }

  lemma ShiftFirstToken(query: Query, v: string)
    requires |query| > 0 && query[0].0 != TOKEN_KEY && FirstTokenIs(query[1..], v)
    ensures FirstTokenIs(query, v)
  {
    var k :| 0 <= k < |query[1..]| && query[1..][k] == (TOKEN_KEY, v)
             && forall j :: 0 <= j < k ==> query[1..][j].0 != TOKEN_KEY;
    assert query[k + 1] == (TOKEN_KEY, v);
    forall j | 0 <= j < k + 1
      ensures query[j].0 != TOKEN_KEY
    {
      if j > 0 {
        assert query[j] == query[1..][j - 1];
      }
    }
  }

  /** The value of the leftmost `token` pair. */
  function FirstToken(query: Query): (r: Option<string>)
    ensures r.None? <==> forall i :: 0 <= i < |query| ==> query[i].0 != TOKEN_KEY
    ensures r.Some? ==> FirstTokenIs(query, r.value)
  {
    if |query| == 0 then None
    else if query[0].0 == TOKEN_KEY then
      assert query[0] == (TOKEN_KEY, query[0].1);
      Some(query[0].1)
    else
      var rest := FirstToken(query[1..]);
      assert forall i :: 0 < i < |query| ==> query[i] == query[1..][i - 1];
      if rest.Some? then
        ShiftFirstToken(query, rest.value);
        rest
      else rest
  }

  /** `get_token_from_query`. */
  method GetTokenFromQuery(query: Query) returns (r: Option<string>)
    ensures r == FirstToken(query)
  {
    var i := 0;
    while i < |query|
      invariant 0 <= i <= |query|
      invariant FirstToken(query) == FirstToken(query[i..])
    {
      if query[i].0 == TOKEN_KEY {
        return Some(query[i].1);
      }
      assert query[i..][1..] == query[i + 1..];
      i := i + 1;
    }
    return None;
  }

  /** `unauthorized_response`. */
  function UnauthorizedResponse(): (r: Reply)
    ensures r.status == 401 && r.body.ErrorBody? && r.body.error.code == "UNAUTHORIZED"
  {
    Reply(401, ErrorBody(ErrorResponse("Unauthorized", "UNAUTHORIZED")))
  }

  /** Without an `ADMIN_TOKEN` secret nobody is admitted. */
  lemma NoSecretNoAdmin(authorization: Option<string>, query: Query)
    ensures !Admitted(None, authorization, query)
  {
  }

  /** A `Bearer ` header decides alone: a wrong one rejects even when the
      query carries the right token, and a right one admits whatever the
      query holds. */
  lemma BearerIsDecisive(secret: string, presented: string, query: Query)
    ensures Admitted(Some(secret), Some(BEARER + presented), query) <==> presented == secret
  {
    var h := BEARER + presented;
    assert h[..|BEARER|] == BEARER && h[|BEARER|..] == presented;
  }

  /** Without a `Bearer ` header the query decides, by any `token` pair. */
  lemma QueryDecidesOtherwise(secret: string, authorization: Option<string>, query: Query)
    requires authorization.None? || StripPrefix(authorization.value, BEARER).None?
    ensures Admitted(Some(secret), authorization, query) <==> HasToken(query, secret)
  {
  }

  /** A second `token` pair can admit while `get_token_from_query` reports
      the first one. */
  lemma FirstTokenMayDiffer()
    ensures var q: Query := [(TOKEN_KEY, "guess"), (TOKEN_KEY, "secret")];
      Admitted(Some("secret"), None, q) && FirstToken(q) == Some("guess")
  {
    var q: Query := [(TOKEN_KEY, "guess"), (TOKEN_KEY, "secret")];
    assert q[1].0 == TOKEN_KEY && q[1].1 == "secret";
  }
}
