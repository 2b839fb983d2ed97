/**
 * `selective_auth`, the application's HTTP middleware: only paths beginning
 * with `/api/` go through `auth_middleware`; every other request goes
 * straight to its handler.
 */
module App {

  import opened Wrappers
  import opened AuthMiddleware
  import CustomLoginRoute
  import Http

  const ApiPrefix := "/api/"

  function SelectiveAuth(path: string, header: Option<string>, securityToken: Option<string>): Decision
  {
    if ApiPrefix <= path then Authenticate(path, header, securityToken) else Forward
  }

  /** A path outside `/api/`, whatever the header, goes straight to its handler. */
  lemma OutsideApiForwards(path: string, header: Option<string>, securityToken: Option<string>)
    requires !(ApiPrefix <= path)
    ensures SelectiveAuth(path, header, securityToken) == Forward
  {
  }

  /** `/api` itself and the HTML pages `/students/...` are not protected. */
  lemma UnprotectedPages(id: string, header: Option<string>, securityToken: Option<string>)
    ensures SelectiveAuth("/api", header, securityToken) == Forward
    ensures SelectiveAuth("/students/" + id, header, securityToken) == Forward
  {
    assert ("/students/" + id)[1] == 's';
  }

  /** No path under `/api/` is on the allow-list of `auth_middleware`. */
  lemma ApiPathsNeverExempt(path: string)
    requires ApiPrefix <= path
    ensures !Exempt(path)
  {
    assert path[1] == 'a' && path[4] == '/';
  }

  /**
   * Every request under `/api/`, the student API included, reaches its
   * handler exactly when it carries `Bearer ` followed by the configured token.
   */
  lemma ApiRequiresToken(path: string, header: Option<string>, securityToken: Option<string>)
    requires ApiPrefix <= path
    ensures SelectiveAuth(path, header, securityToken) == Forward <==>
      header.Some? && securityToken.Some? && header.value == BearerPrefix + securityToken.value
  {
    ApiPathsNeverExempt(path);
    ForwardIff(path, header, securityToken);
  }

  /**
   * The mounted login route hands out the same token the gate checks: once
   * `SECURITY_TOKEN` is set, an `admin`/`admin` login yields a token that,
   * sent back as a bearer header, opens every `/api/` path; while it is
   * unset, the login yields `null` and no `/api/` request gets through.
   * One `securityToken` stands for both reads of the variable: the login
   * module reads it when it is imported, the gate at every request, and the
   * gate's module loads `.env` while it is imported, before the login module
   * is; nothing changes the environment afterwards.
   */
  lemma LoginTokenOpensApi(path: string, securityToken: Option<string>)
    requires ApiPrefix <= path
    ensures var reply := CustomLoginRoute.CustomLogin(securityToken, Http.Text("admin"), Http.Text("admin"));
      match securityToken
      case Some(t) =>
        reply.body == map["token" := Http.JString(t)] &&
        SelectiveAuth(path, Some(BearerPrefix + t), securityToken) == Forward
      case None =>
        reply.body == map["token" := Http.JNull] &&
        forall header :: SelectiveAuth(path, header, securityToken).Reject?
  {
    ApiPathsNeverExempt(path);
    if securityToken.Some? {
      ApiRequiresToken(path, Some(BearerPrefix + securityToken.value), securityToken);
    }
  }
}
