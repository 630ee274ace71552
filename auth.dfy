/**
 * The shared credential check of src/api/mod.rs (`user_authentication`).
 *
 * Two credential pairs may be configured: a baseline pair and an admin pair.
 * An empty string means "not set". The check answers `Granted(true)` for the
 * admin, `Granted(false)` for an ordinary caller, or `Denied` (answered with the 401
 * basic-auth challenge the handlers propagate with `?`).
 */
module Auth {
  import opened Basics

  /** The four configured strings of `AppState`. */
  datatype Config = Config(username: string, password: string, adminAccount: string, adminPassword: string)

  datatype AuthResult = Granted(isAdmin: bool) | Denied

  predicate AdminConfigured(cfg: Config) {
    cfg.adminAccount != "" || cfg.adminPassword != ""
  }

  predicate BaselineConfigured(cfg: Config) {
    cfg.username != "" || cfg.password != ""
  }

  /** Both supplied fields equal the admin pair, and that pair is configured. */
  predicate IsAdminLogin(cfg: Config, username: string, password: string) {
    AdminConfigured(cfg) && username == cfg.adminAccount && password == cfg.adminPassword
  }

  /**
   * `user_authentication`. The baseline test accepts a caller whose username
   * OR password matches (as the code is written), not only one matching both.
   * Basic auth may omit the password; the checks then compare the empty string.
   */
  function UserAuthentication(cfg: Config, username: string, password: Option<string>): (r: AuthResult)
    // the admin tier is reached exactly by a full match of a configured admin pair
    ensures r == Granted(true) <==> IsAdminLogin(cfg, username, OrDefault(password, ""))
    // a configured baseline pair challenges a non-admin caller who matches neither field
    ensures r == Denied <==>
              !IsAdminLogin(cfg, username, OrDefault(password, "")) &&
              BaselineConfigured(cfg) &&
              username != cfg.username && OrDefault(password, "") != cfg.password
    // everybody else is an ordinary caller
    ensures r == Granted(false) <==>
              !IsAdminLogin(cfg, username, OrDefault(password, "")) &&
              (!BaselineConfigured(cfg) || username == cfg.username || OrDefault(password, "") == cfg.password)
  {
    var password := OrDefault(password, "");
    if (cfg.adminAccount != "" || cfg.adminPassword != "")
       && username == cfg.adminAccount && password == cfg.adminPassword then
      Granted(true)
    else if cfg.username != "" || cfg.password != "" then
      if username == cfg.username || password == cfg.password then Granted(false) else Denied
    else
      Granted(false)
  }

  /** With no admin pair configured, nobody reaches the admin tier. */
  lemma NoAdminWithoutAdminPair(cfg: Config, username: string, password: Option<string>)
    requires cfg.adminAccount == "" && cfg.adminPassword == ""
    ensures UserAuthentication(cfg, username, password) != Granted(true)
  {
  }

  /** With neither pair configured, every caller is an ordinary caller. */
  lemma OpenWhenUnconfigured(cfg: Config, username: string, password: Option<string>)
    requires cfg == Config("", "", "", "")
    ensures UserAuthentication(cfg, username, password) == Granted(false)
  {
  }

  /** A baseline username with a wrong password still passes (the OR test). */
  lemma BaselineUsernameAlonePasses(cfg: Config, password: Option<string>)
    requires BaselineConfigured(cfg)
    requires !IsAdminLogin(cfg, cfg.username, OrDefault(password, ""))
    ensures UserAuthentication(cfg, cfg.username, password) == Granted(false)
  {
  }

  /** The admin pair wins even when a different baseline pair is configured. */
  lemma AdminBeatsBaseline(cfg: Config)
    requires AdminConfigured(cfg)
    ensures UserAuthentication(cfg, cfg.adminAccount, Some(cfg.adminPassword)) == Granted(true)
  {
  }
}
