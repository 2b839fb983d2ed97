/**
 * The login route the application mounts: the literal pair `admin`/`admin`
 * yields the token read from `SECURITY_TOKEN` when the module loaded; any
 * other input, missing fields included, is a 401.
 */
module CustomLoginRoute {

  import opened Wrappers
  import opened Http
  import CustomAuth

  const InvalidCredentials := "Invalid credentials"

  /** The token as JSON: `null` when `SECURITY_TOKEN` was unset. */
  function TokenJson(securityToken: Option<string>): JsonValue
  {
    if securityToken.Some? then JString(securityToken.value) else JNull
  }

  function CustomLogin(securityToken: Option<string>, username: Field, password: Field): JsonReply
  {
    if username == Text("admin") && password == Text("admin") then
      JsonReply(200, map["token" := TokenJson(securityToken)])
    else
      JsonReply(401, map["error" := JString(InvalidCredentials)])
  }

  /**
   * Only `admin`/`admin` gets a token, and the success body holds nothing but
   * the token; every other input is the same 401, never a 400.
   */
  lemma LoginOutcomes(securityToken: Option<string>, username: Field, password: Field)
    ensures var r := CustomLogin(securityToken, username, password);
      && (r.status == 200 <==> username == Text("admin") && password == Text("admin"))
      && (r.status == 200 ==> r.body.Keys == {"token"} && r.body["token"] == TokenJson(securityToken))
      && (r.status != 200 ==> r == JsonReply(401, map["error" := JString(InvalidCredentials)]))
  {
  }

  /** Missing fields give 401, where the stricter variant gives 400. */
  lemma MissingFieldsUnauthorized(securityToken: Option<string>, cfg: CustomAuth.Config)
    ensures CustomLogin(securityToken, Missing, Missing).status == 401
    ensures CustomAuth.CustomLogin(cfg, Missing, Missing).status == 400
  {
  }

  /**
   * With the environment unset the two variants disagree: the mounted route
   * accepts `admin`/`admin` and refuses `admin`/`admin123`, the other one the
   * reverse.
   */
  lemma VariantsDisagree()
    ensures var cfg := CustomAuth.LoadConfig(None, None, None);
      && CustomLogin(None, Text("admin"), Text("admin")).status == 200
      && CustomAuth.CustomLogin(cfg, Text("admin"), Text("admin")).status == 401
      && CustomLogin(None, Text("admin"), Text("admin123")).status == 401
      && CustomAuth.CustomLogin(cfg, Text("admin"), Text("admin123")).status == 200
  {
  }
}
