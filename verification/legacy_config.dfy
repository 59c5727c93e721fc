/**
 * The earlier configuration loader: no log style, and the database and Redis
 * URLs are optional, so loading never fails.
 */
module LegacyConfig {
  import opened Wrappers
  import Env

  datatype Config = Config(
    listenAddr: string,
    logLevel: string,
    corsOrigins: seq<string>,
    databaseUrl: Option<string>,
    redisUrl: Option<string>)
  {
    /** `cors_is_permissive`: some configured origin is exactly `"*"`. */
    function CorsIsPermissive(): (permissive: bool)
      ensures permissive <==> exists i :: 0 <= i < |corsOrigins| && corsOrigins[i] == "*"
    {
      Env.AnyWildcard(corsOrigins)
    }
  }

  /** `std::env::var(key).ok()`. */
  function Lookup(env: Env.Environment, key: string): (v: Option<string>)
    ensures v.Some? <==> key in env
    ensures v.Some? ==> v.value == env[key]
  {
    if key in env then Some(env[key]) else None
  }

  /** `Config::from_env`: defaults for the optional strings, and absent URLs left as None. */
  function FromEnv(env: Env.Environment): (c: Config)
    ensures c.listenAddr == (if "LISTEN_ADDR" in env then env["LISTEN_ADDR"] else "0.0.0.0:50051")
    ensures c.logLevel == (if "LOG_LEVEL" in env then env["LOG_LEVEL"] else "info")
    ensures c.corsOrigins == Env.ParseOrigins(if "CORS_ORIGINS" in env then env["CORS_ORIGINS"] else "*")
    ensures c.databaseUrl.None? <==> "DATABASE_URL" !in env
    ensures c.databaseUrl.Some? ==> c.databaseUrl.value == env["DATABASE_URL"]
    ensures c.redisUrl.None? <==> "REDIS_URL" !in env
    ensures c.redisUrl.Some? ==> c.redisUrl.value == env["REDIS_URL"]
  {
    Config(
      Env.EnvOr(env, "LISTEN_ADDR", "0.0.0.0:50051"),
      Env.EnvOr(env, "LOG_LEVEL", "info"),
      Env.ParseOrigins(Env.EnvOr(env, "CORS_ORIGINS", "*")),
      Lookup(env, "DATABASE_URL"),
      Lookup(env, "REDIS_URL"))
  }

  /** An empty environment loads successfully with all defaults and no URLs. */
  lemma EmptyEnvironmentDefaults()
    ensures FromEnv(map[]) == Config("0.0.0.0:50051", "info", ["*"], None, None)
  {
    Env.DefaultOrigins();
  }
}
