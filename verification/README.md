# Health registry and gRPC health service: a verified model

This project models the core of a small gRPC server written in Rust, in Dafny.

- **Health registry** (`src/core/health.rs`): a table of service health keyed by name, and the set of names that own a background probe task. It supports `register`, `deregister`, a background `tick`, `check`, `list` and `aggregate`.
- **Probe runner**: reduces one probe's outcome (completed, failed with a message, or timed out) to a status and an optional message.
- **gRPC `Check` handler** (`src/grpc/health.rs`): defaults an absent service name to `""`, asks the registry, and reports an unknown name as NotFound. It maps the registry's answer onto the response.
- **Error mapping** (`src/core/error.rs`): the `AppError` display strings, the gRPC code each variant becomes, and the log level used for each.
- **Configuration** (`src/core/config.rs`, `src/config.rs`): both loaders read an environment map. They use defaults, parse a comma-separated origin list with trimming, and provide the `cors_is_permissive` predicate.
- **Log style** (`src/core/logging.rs`, `src/logging.rs`): `LogStyle::from_str`, a case-insensitive keyword match with a build-dependent fallback.

## Layout

| file | module | models |
|---|---|---|
| `wrappers.dfy` | `Wrappers` | `Option`, `Result` |
| `text.dfy` | `Text` | `split(',')`, `join`, `trim`, ASCII `to_lowercase` |
| `health.dfy` | `Health` | `src/core/health.rs` |
| `errors.dfy` | `Errors` | `src/core/error.rs` |
| `grpc_health.dfy` | `GrpcHealth` | `src/grpc/health.rs` |
| `env.dfy` | `Env` | `env_or`, origin parsing and `cors_is_permissive`, which both config files share |
| `core_config.dfy` | `CoreConfig` | `src/core/config.rs` |
| `legacy_config.dfy` | `LegacyConfig` | `src/config.rs` |
| `logging.dfy` | `Logging` | `LogStyle::from_str` in `src/core/logging.rs` and `src/logging.rs` |

## Modelling choices

- **Registry state.** The registry is the datatype `Registry(services, tasks)`. `services` is a map from name to `ServiceHealth`. `tasks` is the set of names with a live background task; task handles are not modelled.
- **Operations.** Each operation is a pure function from one state to the next. `Valid` states the two invariants: the task keys equal the service keys, and every entry satisfies `NotServing <==> message present`.
- **Probes.** A probe is the datatype `ProbeOutcome = Completed | Failed(error) | TimedOut`. The 5-second timeout race is not modelled; it only decides which outcome occurs.
- **Ticks and abort.** The background loop becomes `Tick(r, name, outcome)`. Aborting a task is modelled as removing its key, so a name without a live task gets no ticks: `Tick` is a no-op for it.
- **Iteration order.** A `HashMap` has no defined iteration order. `Aggregate`, `List` and `Check` therefore take an `order: seq<string>`, and `Enumerates(order, keys)` requires it to list every key exactly once. Every property holds for every such order. The lemma `AggregateStatusIndependentOfOrder` states that the aggregate status does not depend on the order.
- **gRPC handler inputs.** The package version (`CARGO_PKG_VERSION`) and the server's uptime in seconds are parameters. The conversion `uptime_secs() as i64` is modelled as a reinterpretation of a `u64` as two's complement (`AsI64`).
- **Config failure.** The environment is a `map<string, string>`. In `src/core/config.rs` a missing `DATABASE_URL` panics through `expect("DATABASE_URL must be set")`. `Result::expect` panics with its message, `": "` and the error's `Debug` form, so the text is "DATABASE_URL must be set: NotPresent"; the model returns that text as `Err`.
- **Trimming.** `trim` strips exactly the Unicode White_Space characters, which are the ones `char::is_whitespace` tests.
- **Lowercasing.** Only ASCII letters are lowercased. The only non-ASCII characters whose lowercase form contains an ASCII letter are the Kelvin sign U+212A, which lowercases to `k`, and U+0130, which lowercases to `i` followed by the non-ASCII combining dot U+0307. No keyword contains `k`, and a lowercased U+0130 always leaves a non-ASCII character behind, so ASCII lowercasing gives the same `from_str` result as full Unicode `to_lowercase` for every input.
- **Build flag.** The `cfg!(debug_assertions)` flag is the parameter `debugAssertions`.

### Facts about the code the model relies on

- **Keys.** Entries are keyed by name. A second `register` under the same name replaces the entry and aborts the old task (`RegisterReplaces`).
- **The empty name.** `check("")` returns the aggregate of all entries, so an entry named `""` cannot be looked up on its own. `list` shows it, and its status and its `": <msg>"` segment still feed the aggregate (`EmptyNameFeedsAggregate`).
- **Per-entry fields.** `ServiceHealth` holds only a status and an optional message.

## Model

| member | source | states |
|---|---|---|
| Health.RunProbe | src/core/health.rs:123-143 | The probe result is always well formed. It is Serving exactly when the check completed. A failure keeps its error text unchanged, and a timeout carries "probe timed out". |
| Health.RunProbeDistinguishesOutcomes | src/core/health.rs:129-142 | Two outcomes with the same health are equal, except that `Failed("probe timed out")` is indistinguishable from a timeout. |
| Health.NewRegistry | src/core/health.rs:34-39 | A new registry has no entries and no tasks, and it is valid. |
| Health.Register | src/core/health.rs:41-71 | Afterwards `name` holds the first probe's result and owns a task. Every other name's entry is unchanged. The key sets grow by exactly `name`, and validity is preserved. |
| Health.Deregister | src/core/health.rs:73-78 | `name` loses its task and its entry, and every other entry is unchanged. It is a no-op when `name` is unknown, and validity is preserved. |
| Health.Tick | src/core/health.rs:58-66 | A live task's tick overwrites only its own entry with the probe result. With no live task nothing changes. The task set is untouched and validity is preserved. |
| Health.Segment | src/core/health.rs:102-105 | A failing entry's segment starts with its name. It is the bare name exactly when the entry has no message, and otherwise the name is followed by `": "` and the message. |
| Health.Segments | src/core/health.rs:98-107 | At most one segment per visited entry. |
| Health.SegmentsEmpty | src/core/health.rs:98-109 | There are no segments exactly when every entry is Serving. |
| Health.SegmentsCover | src/core/health.rs:100-106 | Every failing entry contributes its `name: msg` segment, or its bare `name` when it has no message. |
| Health.SegmentsSound | src/core/health.rs:100-106 | Every segment is the segment of some failing entry. |
| Health.SegmentsCount | src/core/health.rs:98-107 | Over a duplicate-free order the number of segments equals the number of failing names. The one-to-one match is `SegmentsInOrder`. |
| Health.SegmentsInOrder | src/core/health.rs:98-107 | The segments correspond one to one to the visited failing entries, in visiting order. Segment `k` is produced by the entry at index `w[k]`, the indexes strictly increase, each names a failing entry, and every failing entry's index occurs. This holds even when two entries give the same text. |
| Health.SegmentTextsCanCollide | src/core/health.rs:102-105 | Entry `a` with message `b: c` and entry `a: b` with message `c` produce the same segment text, so counting texts cannot show one segment per entry. |
| Health.Aggregate | src/core/health.rs:96-120 | Serving with no message exactly when no entry is NotServing. Otherwise NotServing with the `"; "`-join of the segments. `SegmentsInOrder` states that the segments correspond one to one to the failing entries. |
| Health.AggregateMentionsFailure | src/core/health.rs:101-117 | Each failing entry's `name: msg` (or bare name) occurs in the aggregate message. |
| Health.AggregateStatusIndependentOfOrder | src/core/health.rs:96-120 | The aggregate status is the same for every iteration order. |
| Health.Check | src/core/health.rs:80-85 | `check("")` is always the aggregate and never None. For any other name it is a lookup that is None exactly when the name is unknown. A valid registry only returns well-formed health. |
| Health.EmptyNameFeedsAggregate | src/core/health.rs:80-107 | A failing entry named `""` makes `check("")` NotServing, and its segment `": <msg>"` appears in the aggregate message. |
| Health.EmptyNameAloneExample | src/core/health.rs:80-117 | A registry holding only a failing `""` entry with message `m` answers `check("")` with NotServing and the message `": m"`. |
| Health.List | src/core/health.rs:87-94 | One `(name, health)` pair per entry, as stored, with no name twice. Its length is the table size. |
| Health.DistinctLength | src/core/health.rs:87-94 | A duplicate-free sequence is as long as the set of its elements, so an enumeration of the keys is as long as the table and `list` has one pair per key. |
| Health.RegisterThenCheck | src/core/health.rs:49-53 | Right after `register(n, o)` with `n` non-empty, `check(n)` returns `run_probe(o)`. |
| Health.DeregisterThenCheck | src/core/health.rs:73-78 | After `deregister(n)` with `n` non-empty, `check(n)` is None. |
| Health.RegisterReplaces | src/core/health.rs:50-53 | A second registration under the same name fully replaces the first. |
| Health.DeregisterUndoesRegister | src/core/health.rs:73-78 | Deregistering a freshly registered, previously unknown name restores the registry exactly. |
| Health.TickAfterDeregister | src/core/health.rs:74-77 | After `deregister(n)`, a tick for `n` changes nothing. |
| Health.TickRecovers | src/core/health.rs:61-65 | A failing tick gives NotServing with the error. A following successful tick gives Serving and clears the message. |
| Health.RunPreservesValid | src/core/health.rs:41-78 | Every sequence of register, deregister and tick events keeps the task keys equal to the service keys and every entry well formed. |
| Health.ReachableValid | src/core/health.rs:34-78 | Every registry reachable from a new one is valid. |
| Health.EmptyRegistryServing | src/core/health.rs:109-113 | An empty registry aggregates to Serving with no message and lists nothing. |
| Errors.Prefix | src/core/error.rs:5-24 | Each prefixed variant's display text begins with its own non-empty label, which holds no colon. |
| Errors.Display | src/core/error.rs:5-27 | Every variant except `Anyhow` displays as exactly its prefix, `": "` and the payload. `Anyhow` displays as its wrapped text, and every display ends with the payload. |
| Errors.ToStatus | src/core/error.rs:30-58 | The five client variants map to the gRPC code of the same name and log at warn level. Internal, Sqlx and Anyhow map to Internal and log at error level. The message is always the display text. |
| Errors.StatusMessageEndsWithPayload | src/core/error.rs:33-56 | The status message is the display text and ends with the error's payload. |
| Errors.ErrorLevelIffInternal | src/core/error.rs:32-57 | An error is logged at error level exactly when it becomes code Internal. |
| Errors.DisplayIdentifiesError | src/core/error.rs:5-24 | For the prefixed variants, the display text determines both the variant and the payload. |
| Errors.AnyhowIsTransparent | src/core/error.rs:26-27 | An `Anyhow` error can display exactly like a `NotFound` one, yet maps to a different code. |
| GrpcHealth.RequestedService | src/grpc/health.rs:26 | An absent service name becomes `""`, and a present one is used unchanged. |
| GrpcHealth.ToProtoStatus | src/grpc/health.rs:35-38 | Serving maps to Serving and NotServing to NotServing, in both directions. |
| GrpcHealth.AsI64 | src/grpc/health.rs:43 | The uptime is the `u64` read as an `i64`. It is in range, equal modulo 2^64, and unchanged below 2^63. |
| GrpcHealth.UnknownService | src/grpc/health.rs:29-31 | An unknown name becomes a NotFound error that displays as "not found: unknown service: " followed by the name. |
| GrpcHealth.UnknownServiceStatus | src/grpc/health.rs:29-31 | An unknown name surfaces with code NotFound and the message "not found: unknown service: " followed by the name. |
| GrpcHealth.HandleCheck | src/grpc/health.rs:22-48 | The handler fails exactly when a non-empty name is unknown, and then with NotFound. Otherwise the response status maps the registry's status, the message passes through unchanged, the version is the package version and the uptime is `AsI64`. |
| GrpcHealth.EmptyServiceNeverNotFound | src/grpc/health.rs:26-31 | An absent or empty name always succeeds and reports the aggregate. |
| GrpcHealth.AbsentIsEmpty | src/grpc/health.rs:26 | An absent name and `""` get the same answer. |
| GrpcHealth.VersionIndependentOfService | src/grpc/health.rs:42 | Any two successful responses carry the same version, whichever services were asked about. |
| GrpcHealth.ResponseMessageMatchesStatus | src/grpc/health.rs:35-44 | For a valid registry, a NotServing response carries a message and a Serving one does not. |
| Env.EnvOr | src/core/config.rs:29-31 | The variable's value when it is set, otherwise the default. |
| Env.ParseOrigins | src/core/config.rs:16-19 | Origins are the trimmed comma-free pieces of the raw string, in order. There is one more origin than there are commas, and none has whitespace at either end. |
| Env.ParseOriginsDetermined | src/config.rs:16-19 | Any comma-free decomposition of the string is its split, so the origins are exactly the trimmed split pieces. |
| Env.AnyWildcard | src/core/config.rs:24-26 | True exactly when some origin is exactly `"*"`. |
| Env.SingleOrigin | src/core/config.rs:16-19 | A trimmed value with no comma parses to exactly the one origin it names. |
| Env.DefaultOrigins | src/core/config.rs:16 | The default `"*"` yields the single origin `"*"`. |
| Env.TwoOrigins | src/core/config.rs:16-19 | Two comma-free pieces joined by one comma give the two trimmed pieces in order. |
| Env.PaddedOrigins | src/core/config.rs:16-19 | For comma-free, already-trimmed `a` and `b`, `" " + a + " , " + b + " "` parses to exactly `[a, b]`: the spaces around each origin are stripped and nothing else changes. |
| CoreConfig.FromEnv | src/core/config.rs:11-22 | Loading fails with the `expect` panic text "DATABASE_URL must be set: NotPresent" exactly when `DATABASE_URL` is unset. Otherwise every field is its variable or its default ("0.0.0.0:50051", "info", "auto", "*"), with origins parsed. |
| CoreConfig.Config.CorsIsPermissive | src/core/config.rs:24-26 | True exactly when some configured origin equals `"*"`. |
| CoreConfig.DefaultsWithOnlyDatabaseUrl | src/core/config.rs:13-26 | With only `DATABASE_URL` set, the config is ("0.0.0.0:50051", "info", "auto", ["*"], url), and it is CORS-permissive. |
| CoreConfig.SpecificOriginNotPermissive | src/core/config.rs:16-26 | Setting `CORS_ORIGINS` to one trimmed, comma-free origin other than `"*"` loads exactly that origin, and the config is not CORS-permissive. |
| CoreConfig.MissingDatabaseUrlFails | src/core/config.rs:20 | Without `DATABASE_URL` loading fails whatever else is set, and the failure text contains "DATABASE_URL must be set". |
| LegacyConfig.Lookup | src/config.rs:20-21 | `env::var(k).ok()` is None exactly when `k` is unset, and otherwise its value. |
| LegacyConfig.FromEnv | src/config.rs:12-23 | The address, level and origins default as in the core loader. The database and Redis URLs are None exactly when unset, and loading never fails. |
| LegacyConfig.Config.CorsIsPermissive | src/config.rs:25-27 | True exactly when some configured origin equals `"*"`. |
| LegacyConfig.EmptyEnvironmentDefaults | src/config.rs:14-21 | An empty environment gives ("0.0.0.0:50051", "info", ["*"], None, None). |
| Text.Trim | src/core/config.rs:18 | The result is the middle of the input left after stripping whitespace at both ends, and has no whitespace at either end. |
| Text.TrimIdempotent | src/config.rs:18 | Trimming twice is trimming once. |
| Text.TrimPadded | src/core/config.rs:18 | Trimming removes exactly the whitespace padding around an already-trimmed string. |
| Text.Split | src/core/config.rs:17 | There is one piece more than there are separators, and no piece contains the separator. |
| Text.JoinSplit | src/core/config.rs:17 | Joining the split pieces with the separator gives back the input. |
| Text.SplitJoin | src/config.rs:17 | Splitting a join of separator-free parts gives back the parts. |
| Text.JoinEnds | src/core/health.rs:117 | `join` of no parts is the empty string. Otherwise the joined string starts with the first part and ends with the last. |
| Text.JoinContainsPart | src/core/health.rs:117 | Every joined part occurs contiguously in the joined string. |
| Text.ToLower | src/core/logging.rs:17 | Lowercasing keeps the length, lowercases each ASCII letter in place and leaves every other character unchanged, so no upper-case ASCII letter remains. |
| Logging.FromStr | src/core/logging.rs:16-25 | A name whose lowercase form is a keyword selects the style with that keyword. Any other name selects Pretty in debug builds and Plain otherwise, and the function never fails. |
| Logging.FromStrKeyword | src/core/logging.rs:18-21 | "plain", "compact", "pretty" and "json" select Plain, Compact, Pretty and Json in either build. |
| Logging.FromStrCaseInsensitive | src/logging.rs:17 | A name parses exactly like its lowercase form. |
| Logging.BuildFlagOnlyAffectsUnrecognised | src/logging.rs:16-25 | Debug and release builds disagree exactly on names that are not keywords. |
| Logging.MixedCaseExample | src/core/logging.rs:17 | "PrEtTy" selects Pretty. |
| Logging.UnrecognisedExamples | src/logging.rs:22-23 | "auto" and "" select the build default. |

`src/logging.rs:16-25` is a character-for-character copy of `src/core/logging.rs:16-25`, so one `Logging.FromStr` models both. `env_or` and the origin parsing are likewise identical in `src/config.rs:16-19,30-32` and `src/core/config.rs:16-19,29-31`; both loaders use `Env`.

## Left out

- Concurrency: `tokio::spawn`, the interval ticker, the `RwLock`s, `JoinHandle::abort` and `Drop` with `try_write` are not modelled. The model runs register, deregister and ticks as atomic, sequential steps.
- The abort race: in the source, a task that is running between suspension points when `deregister` aborts it can still reach its unconditional `insert` after the entry was removed. That would re-create an entry with no task. `Tick` models abort as taking effect at once, so it cannot express that interleaving.
- Timing: the 5-second probe timeout, the `Instant`/`Duration` values, the probe interval and the clock behind `uptime_secs` are not modelled. The probe outcome and the uptime are inputs.
- Side effects: all `tracing` log emission, including the logged probe warnings and the debug line in the handler, is left out. The level each error would be logged at is returned by `Errors.ToStatus`.
- Logging setup: subscriber setup (`init` in both logging files) is library configuration.
- Environment encoding: `std::env::var` also fails for values that are not valid Unicode. The environment map holds only strings, so that case is not modelled.
- Wire encoding: the numeric wire values of `ServingStatus` and of the gRPC codes are left out, because the protocol definition is not part of this model.
- `request_timeout_secs`: the configuration tests refer to a `REQUEST_TIMEOUT_SECS` variable and a `request_timeout_secs` field, but `src/core/config.rs` has no such field. The model follows the code.
- Other files: `src/core/state.rs`, `src/core/db.rs`, `src/main.rs` and `build.rs` are not part of this model. They are a clock/config holder, a database pool, server wiring and build-time file copying.
- Logging.FromStr: lowercases ASCII letters only, not full Unicode. This gives the same result for every input as argued under "Modelling choices", but that argument is not proved.
