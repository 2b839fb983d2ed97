/**
 * `auth_middleware`: the bearer-token gate.  A request either goes on to the
 * downstream handler (`Forward`) or is answered at once with a JSON error.
 * The configured token is the `SECURITY_TOKEN` environment variable as read
 * when the request is checked, `None` when it is unset.
 */
module AuthMiddleware {

  import opened Wrappers

  /** Paths let through without looking at any header. */
  const AllowedPaths: seq<string> := ["/login", "/custom-login", "/"]
  const StaticPrefix := "/static"
  const BearerPrefix := "Bearer "
  const MissingOrInvalidHeader := "Missing or invalid Authorization header"
  const InvalidToken := "Invalid or expired token"

  /** `Forward`: `call_next` runs and its response is returned; `Reject`: a JSON error, the handler never runs. */
  datatype Decision = Forward | Reject(status: nat, error: string)

  /** The allow-list test; the prefix test has no trailing slash. */
  predicate Exempt(path: string)
  {
    path in AllowedPaths || StaticPrefix <= path
  }

  /** Python's `s[k:]` for `k >= 0`: empty when `s` is shorter than `k`. */
  function DropFirst(s: string, k: nat): string
  {
    if |s| <= k then [] else s[k..]
  }

  function Authenticate(path: string, header: Option<string>, securityToken: Option<string>): Decision
  {
    if Exempt(path) then Forward
    else if header.None? || header.value == [] || !(BearerPrefix <= header.value) then
      Reject(401, MissingOrInvalidHeader)
    else if Some(DropFirst(header.value, 7)) != securityToken then
      Reject(401, InvalidToken)
    else Forward
  }

  /** An allow-listed path is forwarded whatever the header and the configuration. */
  lemma ExemptPathsForward(path: string, header: Option<string>, securityToken: Option<string>)
    requires Exempt(path)
    ensures Authenticate(path, header, securityToken) == Forward
  {
  }

  /** The allow-list holds exactly the three paths and everything that begins with `/static`, such as `/staticx`. */
  lemma ExemptPaths(path: string)
    ensures Exempt(path) <==>
      path == "/login" || path == "/custom-login" || path == "/" ||
      (|path| >= 7 && path[..7] == "/static")
    ensures Exempt("/staticx") && Exempt("/static")
  {
  }

  /** Outside the allow-list, no header or one not starting with exactly `Bearer ` is refused. */
  lemma RejectsMissingOrNonBearer(path: string, header: Option<string>, securityToken: Option<string>)
    requires !Exempt(path)
    requires header.None? || !(BearerPrefix <= header.value)
    ensures Authenticate(path, header, securityToken) == Reject(401, MissingOrInvalidHeader)
  {
  }

  /** The scheme name is case-sensitive: `bearer` is refused as a missing header. */
  lemma SchemeIsCaseSensitive(path: string, t: string)
    requires !Exempt(path)
    ensures Authenticate(path, Some("bearer " + t), Some(t)) == Reject(401, MissingOrInvalidHeader)
  {
    assert ("bearer " + t)[0] == 'b';
  }

  /**
   * The token checked is the header with its first seven characters, the
   * `Bearer ` prefix, removed and nothing else: it must equal the
   * configuration exactly.
   */
  lemma CheckedTokenIsRest(path: string, t: string, securityToken: Option<string>)
    requires !Exempt(path)
    ensures Authenticate(path, Some(BearerPrefix + t), securityToken) ==
      if securityToken == Some(t) then Forward else Reject(401, InvalidToken)
  {
  }

  /** No white space is trimmed: an extra space after `Bearer` becomes part of the token. */
  lemma NoTrimming(path: string, t: string)
    requires !Exempt(path)
    ensures Authenticate(path, Some(BearerPrefix + " " + t), Some(t)) == Reject(401, InvalidToken)
  {
  }

  /** With `SECURITY_TOKEN` unset, every request outside the allow-list is refused. */
  lemma UnsetTokenRejectsAll(path: string, header: Option<string>)
    requires !Exempt(path)
    ensures Authenticate(path, header, None).Reject?
  {
  }

  /**
   * The handler runs exactly when the path is allow-listed or the header is
   * `Bearer ` followed by the configured token; every refusal is a 401.
   */
  lemma ForwardIff(path: string, header: Option<string>, securityToken: Option<string>)
    ensures Authenticate(path, header, securityToken) == Forward <==>
      Exempt(path) ||
      (header.Some? && securityToken.Some? && header.value == BearerPrefix + securityToken.value)
    ensures Authenticate(path, header, securityToken).Reject? ==>
      Authenticate(path, header, securityToken).status == 401
  {
  }
}
