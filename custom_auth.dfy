/**
 * The stricter login variant: credentials and token come from the
 * environment (with defaults), empty fields are a 400, wrong credentials a
 * 401.  Its router is not mounted by the application.
 */
module CustomAuth {

  import opened Wrappers
  import opened Http

  /** The module-level settings, read once when the module loads. */
  datatype Config = Config(adminUsername: string, adminPassword: string, securityToken: string)

  const RequiredDetail := "Username and password required"
  const InvalidCredentials := "Invalid credentials"

  /** `os.getenv(name, default)`: the default only when the variable is unset. */
  function GetEnv(value: Option<string>, default: string): string
  {
    if value.Some? then value.value else default
  }

  function LoadConfig(username: Option<string>, password: Option<string>, token: Option<string>): Config
  {
    Config(GetEnv(username, "admin"), GetEnv(password, "admin123"), GetEnv(token, "mytoken"))
  }

  function CustomLogin(cfg: Config, username: Field, password: Field): JsonReply
  {
    if Falsy(username) || Falsy(password) then
      JsonReply(400, map["detail" := JString(RequiredDetail)])
    else if username != Text(cfg.adminUsername) || password != Text(cfg.adminPassword) then
      JsonReply(401, map["detail" := JString(InvalidCredentials)])
    else
      JsonReply(200, map["token" := JString(cfg.securityToken), "username" := JString(username.s)])
  }

  /** Unset variables fall back to `admin`, `admin123` and `mytoken`; set ones, even empty, are taken as they are. */
  lemma ConfigDefaults(u: string, p: string, t: string)
    ensures LoadConfig(None, None, None) == Config("admin", "admin123", "mytoken")
    ensures LoadConfig(Some(u), Some(p), Some(t)) == Config(u, p, t)
  {
  }

  /** With the environment unset, exactly `admin`/`admin123` logs in, and it receives `mytoken`. */
  lemma DefaultConfigLogin(username: Field, password: Field)
    ensures var r := CustomLogin(LoadConfig(None, None, None), username, password);
      && (r.status == 200 <==> username == Text("admin") && password == Text("admin123"))
      && (r.status == 200 ==> r.body["token"] == JString("mytoken") && r.body["username"] == JString("admin"))
  {
    LoginOutcomes(LoadConfig(None, None, None), username, password);
  }

  /** A missing or empty username or password is a 400, checked before the credentials, so never a 401. */
  lemma RequiredFieldsFirst(cfg: Config, username: Field, password: Field)
    requires Falsy(username) || Falsy(password)
    ensures CustomLogin(cfg, username, password) == JsonReply(400, map["detail" := JString(RequiredDetail)])
  {
  }

  /**
   * The reply is 200 exactly for the configured pair (which must then be
   * non-empty), with the configured token and the username echoed back; two
   * present fields that are not that pair give 401.
   */
  lemma LoginOutcomes(cfg: Config, username: Field, password: Field)
    ensures var r := CustomLogin(cfg, username, password);
      && r.status in {200, 400, 401}
      && (r.status == 200 <==>
            cfg.adminUsername != [] && cfg.adminPassword != [] &&
            username == Text(cfg.adminUsername) && password == Text(cfg.adminPassword))
      && (r.status == 200 ==>
            r.body == map["token" := JString(cfg.securityToken), "username" := JString(cfg.adminUsername)])
      && (!Falsy(username) && !Falsy(password) &&
          (username != Text(cfg.adminUsername) || password != Text(cfg.adminPassword)) ==>
            r == JsonReply(401, map["detail" := JString(InvalidCredentials)]))
  {
  }
}
