/** The `authenticateToken` middleware of `backend/server.js`: the session
    token is the second space-separated field of the `Authorization` header,
    and JWT verification is an uninterpreted function passed in. */
module Auth {
  import opened Wrappers

  /** The identity a session token carries: `{id, username}`. */
  datatype Claims = Claims(id: int, username: string)

  /** The middleware's verdict: 401 without a token, 403 when verification
      fails, otherwise the request proceeds with the token's identity. */
  datatype AuthResult = TokenMissing | TokenInvalid | Authorized(claims: Claims)

  /** `Array.prototype.join` with a one-character separator. */
  function Join(fields: seq<string>, sep: char): string
    decreases |fields|
  {
    if |fields| == 0 then ""
    else if |fields| == 1 then fields[0]
    else fields[0] + [sep] + Join(fields[1..], sep)
  }

  /** `String.prototype.split` with a one-character separator: one field more
      than there are separators, fields possibly empty. */
  function Split(s: string, sep: char): (r: seq<string>)
    ensures |r| >= 1
    ensures forall i :: 0 <= i < |r| ==> sep !in r[i]
    ensures Join(r, sep) == s
    decreases |s|
  {
    if |s| == 0 then [""]
    else
      var rest := Split(s[1..], sep);
      if s[0] == sep then
        assert ([""] + rest)[1..] == rest;
        [""] + rest
      else
        var r := [[s[0]] + rest[0]] + rest[1..];
        assert r[1..] == rest[1..];
        assert s == [s[0]] + s[1..];
        r
  }

  /** `authHeader && authHeader.split(" ")[1]`: `None` when the header is
      absent or empty, or its second field is absent or empty. */
  function BearerToken(header: Option<string>): (r: Option<string>)
    ensures header.None? ==> r.None?
    ensures r.Some? ==> r.value != "" && ' ' !in r.value
  {
    match header
    case None => None
    case Some(h) =>
      if h == "" then None
      else
        var fields := Split(h, ' ');
        if |fields| >= 2 && fields[1] != "" then Some(fields[1]) else None
  }

  /** A header laid out as `scheme token rest`, where `rest` is empty or starts
      a further space-separated field. */
  function BearerHeader(scheme: string, token: string, rest: string): string
  {
    scheme + " " + token + rest
  }

  /** `authenticateToken`. */
  function Authenticate(header: Option<string>, verify: string -> Option<Claims>): (r: AuthResult)
    ensures r.TokenMissing? <==> BearerToken(header).None?
    ensures r.TokenInvalid? <==> BearerToken(header).Some? && verify(BearerToken(header).value).None?
    ensures r.Authorized? ==> Some(r.claims) == verify(BearerToken(header).value)
  {
    match BearerToken(header)
    case None => TokenMissing
    case Some(token) =>
      match verify(token)
      case None => TokenInvalid
      case Some(claims) => Authorized(claims)
  }
}
