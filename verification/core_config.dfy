/** The server's configuration, loaded from the environment; a database URL is mandatory. */
module CoreConfig {
  import opened Wrappers
  import Env
  import Text

  datatype Config = Config(
    listenAddr: string,
    logLevel: string,
    logStyle: string,
    corsOrigins: seq<string>,
    databaseUrl: string)
  {
    /** `cors_is_permissive`: some configured origin is exactly `"*"`. */
    function CorsIsPermissive(): (permissive: bool)
      ensures permissive <==> exists i :: 0 <= i < |corsOrigins| && corsOrigins[i] == "*"
    {
      Env.AnyWildcard(corsOrigins)
    }
  }

  const DefaultListenAddr: string := "0.0.0.0:50051"
  const DefaultLogLevel: string := "info"
  const DefaultLogStyle: string := "auto"
  const DefaultCorsOrigins: string := "*"
  /** The panic text of `expect("DATABASE_URL must be set")` on a `VarError::NotPresent`: message, `": "`, then the error's `Debug` form. */
  const MissingDatabaseUrl: string := "DATABASE_URL must be set: NotPresent"

  /**
   * `Config::from_env`: every optional variable falls back to its default;
   * a missing `DATABASE_URL` aborts loading with the `expect` panic
   * "DATABASE_URL must be set: NotPresent".
   */
  function FromEnv(env: Env.Environment): (r: Result<Config, string>)
    ensures r.Err? <==> "DATABASE_URL" !in env
    ensures r.Err? ==> r.error == MissingDatabaseUrl
    ensures r.Ok? ==>
      && r.value.databaseUrl == env["DATABASE_URL"]
      && r.value.listenAddr == (if "LISTEN_ADDR" in env then env["LISTEN_ADDR"] else DefaultListenAddr)
      && r.value.logLevel == (if "LOG_LEVEL" in env then env["LOG_LEVEL"] else DefaultLogLevel)
      && r.value.logStyle == (if "LOG_STYLE" in env then env["LOG_STYLE"] else DefaultLogStyle)
      && r.value.corsOrigins == Env.ParseOrigins(if "CORS_ORIGINS" in env then env["CORS_ORIGINS"] else DefaultCorsOrigins)
  {
    if "DATABASE_URL" !in env then
      Err(MissingDatabaseUrl)
    else
      Ok(Config(
        Env.EnvOr(env, "LISTEN_ADDR", DefaultListenAddr),
        Env.EnvOr(env, "LOG_LEVEL", DefaultLogLevel),
        Env.EnvOr(env, "LOG_STYLE", DefaultLogStyle),
        Env.ParseOrigins(Env.EnvOr(env, "CORS_ORIGINS", DefaultCorsOrigins)),
        env["DATABASE_URL"]))
  }

  /** With only `DATABASE_URL` set, every other field takes its default and CORS allows every origin. */
  lemma DefaultsWithOnlyDatabaseUrl(url: string)
    ensures FromEnv(map["DATABASE_URL" := url])
         == Ok(Config("0.0.0.0:50051", "info", "auto", ["*"], url))
    ensures FromEnv(map["DATABASE_URL" := url]).value.CorsIsPermissive()
  {
    Env.DefaultOrigins();
    assert FromEnv(map["DATABASE_URL" := url]).value.corsOrigins[0] == "*";
  }

  /** A single specific origin (anything but `"*"`) makes CORS non-permissive. */
  lemma SpecificOriginNotPermissive(url: string, origin: string)
    requires ',' !in origin && Text.IsTrimmed(origin) && origin != "*"
    ensures FromEnv(map["DATABASE_URL" := url, "CORS_ORIGINS" := origin]).Ok?
    ensures FromEnv(map["DATABASE_URL" := url, "CORS_ORIGINS" := origin]).value.corsOrigins == [origin]
    ensures !FromEnv(map["DATABASE_URL" := url, "CORS_ORIGINS" := origin]).value.CorsIsPermissive()
  {
    Env.SingleOrigin(origin);
  }

  /** A missing `DATABASE_URL` fails whatever else is set, with the `expect` panic text. */
  lemma MissingDatabaseUrlFails(env: Env.Environment)
    requires "DATABASE_URL" !in env
    ensures FromEnv(env) == Err("DATABASE_URL must be set: NotPresent")
    ensures "DATABASE_URL must be set" <= FromEnv(env).error
  {
  }
}
