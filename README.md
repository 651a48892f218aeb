# flower-runner launcher, modelled in Dafny

The flower-runner launcher starts Flower, a dashboard for Celery brokers.
Before it starts Flower, it turns its own environment variables into the two
variables Flower reads. This project models the launcher's decision and
string logic and proves properties about it:

- **Email whitelist compiler** (`create_email_regex`, module `Utils`). It
  refuses an empty list. Otherwise it lowercases each address, escapes it
  the way `re.escape` does, joins the results with `|` and wraps them as
  `^(…)$`. The function is defined once, as `Utils.CreateEmailRegex`.
  `main.py:32-38` is a verbatim copy of `utils.py:4-10`, so the launcher
  (module `Runner`) calls that same function.
- **Authentication check** (`validate_auth_config_and_get_whitelist`,
  `Runner.ValidateAuthConfig`). It refuses the configuration unless basic
  authentication is set, or both a login provider and a non-empty whitelist
  are set. When it accepts a configuration with a non-empty whitelist, it
  returns the compiled pattern.
- **Broker URL builder** (`get_broker_url` and `_build_redis_url`,
  `Runner.GetBrokerUrl` and `Runner.BuildRedisUrl`). The base URL is taken
  from the first `redis` service binding if there is one, and from
  `REDIS_BASE_URL` otherwise. A `rediss://` base gets the query
  `ssl_cert_reqs=CERT_REQUIRED`. The result has the form `base/db?query`.
- **Startup** (`main`, `Runner.Process.Start`). The process environment is
  a `map<string, string>` field, and `Start` updates it in place. The
  authentication check runs before anything is written. After that only
  `FLOWER_AUTH` and `CELERY_BROKER_URL` can change.

Files: `wrappers.dfy` (Option and Result), `utils.dfy` (module `Utils`,
for `utils.py`) and `runner.dfy` (module `Runner`, for `main.py`).

The escaping rule is the one `re.escape` follows from Python 3.7 on. A
backslash goes before each of `( ) [ ] { } ? * + - | ^ $ \ . & ~ #`, the
space, tab, newline, carriage return, vertical tab and form feed. Letters,
digits, `@` and `_` are left alone, which is what the expected patterns in
`test_utils.py` need.

The pattern is read back by `Utils.DecodePattern`. It strips the anchors,
splits at the bars that are not escaped (a backslash and the character after
it form one unit) and unescapes each piece. The round trip through
`DecodePattern` is the proved stand-in for "the pattern matches exactly the
listed addresses". `Utils.FullMatch` is `re.fullmatch` for such a pattern:
the candidate is one of its alternatives, read literally. `Utils.ReMatch`
is `re.match`, which the tests use (`test_utils.py:48-49`). There `$` also holds just
before a final newline, so a listed address followed by one `\n` matches
too.

The error message at `main.py:47-49` reads as a choice: "set either
FLOWER_AUTH_PROVIDER and EMAIL_WHITELIST, or FLOWER_BASIC_AUTH". The test at
`main.py:46` is not exclusive, though. It also accepts basic authentication
and provider login configured together, and then still compiles and returns
the whitelist (`main.py:52-53`). The model follows the code.

## Model

| member | source | states |
|---|---|---|
| `Utils.CreateEmailRegex` | utils.py:4-10 | The result is the ValueError exactly when the list is empty. Otherwise it is a pattern of the form `^(` body `)$`. |
| `Utils.CreateEmailRegexRoundTrip` | utils.py:8-10 | The pattern reads back to exactly the lowercased input list: strip the anchors, split at the unescaped bars, unescape each piece. |
| `Utils.CreateEmailRegexAlternatives` | utils.py:8-9 | There are as many alternatives as addresses. In input order, the i-th alternative is the i-th address, lowercased and escaped. |
| `Utils.CreateEmailRegexSeparators` | utils.py:9 | With n addresses, the body holds exactly n − 1 unescaped bars. |
| `Utils.CreateEmailRegexLowercase` | utils.py:8 | The pattern holds no uppercase ASCII letter. |
| `Utils.CreateEmailRegexMatchesExactly` | utils.py:8-10 | Under `re.fullmatch`, a candidate matches the pattern exactly when it equals one of the lowercased addresses. So a superstring, a substring or a concatenation of two addresses does not match unless it is itself a listed address. |
| `Utils.CreateEmailRegexReMatch` | utils.py:8-10 | Under `re.match`, a candidate matches exactly when it is one of the lowercased addresses, alone or followed by a single newline. |
| `Utils.ReMatchDecoded` | utils.py:10 | For any anchored pattern that reads back as a list of words, `Utils.ReMatch` accepts exactly those words, each alone or followed by one newline. That is what `re.match` does only when every piece is an escaped literal, as the compiler's pieces are. A piece such as `a.b` reads back as `a.b` but is a wildcard pattern to Python. |
| `Utils.ReMatch` | test_utils.py:48-49 | `re.match` of a pattern built from escaped literals: a full match, or a full match followed by one final newline. Only an anchored pattern matches anything. Its meaning for the compiler's patterns is stated by `Utils.CreateEmailRegexReMatch`. |
| `Utils.Lower` | utils.py:8 | `email.lower()`: the same length, and each character lowercased in place. |
| `Utils.LowerAll` | utils.py:8 | The comprehension's lowercasing: one lowercased address per address, in order. |
| `Utils.EscapeAll` | utils.py:8 | The comprehension's escaping: one escaped string per string, in order. |
| `Utils.JoinBars` | utils.py:9 | The bar join of utils.py:9: the result starts with the first piece, and a bar follows it when there is a second piece. Its meaning is stated by `Utils.SplitJoinEscaped`. |
| `Utils.Escape` | utils.py:8 | `re.escape`: the result is at least as long as its input. Its meaning is stated by `Utils.UnescapeEscape` and `Utils.EscapeAppend`. |
| `Utils.EscapeChar` | utils.py:8 | One escaped character is one or two characters and ends with the character itself. It has two characters exactly when the character is special, and then starts with a backslash. Unescaping gives the character back. |
| `Utils.LowerChar` | utils.py:8 | A lowercased character is never a capital. It is unchanged exactly when it was not a capital; a capital becomes the same letter in lower case. |
| `Utils.UnescapeEscape` | utils.py:8 | Unescaping undoes `re.escape` on every string. |
| `Utils.EscapeOneChar` | utils.py:8 | `.` becomes `\.`. `@`, ASCII letters and digits are left unchanged. |
| `Utils.EscapeKeepsPlain` | utils.py:8 | A string without special characters is its own escaped form. |
| `Utils.EscapeAppend` | utils.py:8 | Escaping works character by character: it distributes over concatenation. |
| `Utils.SplitEscapedPrefix` | utils.py:8-9 | An escaped address holds no unescaped bar. Splitting it together with a following text only glues it to the first piece of that text. |
| `Utils.SplitJoinEscaped` | utils.py:9 | Splitting escaped strings joined with bars at the unescaped bars gives the escaped strings back, in order. |
| `Utils.EscapeJohnSmith` | utils.py:8 | `john.smith@example.com` is written `john\.smith@example\.com`. |
| `Utils.CreateEmailRegexExamples` | test_utils.py:10-27 | The one-, two- and three-address lists of the tests compile to the expected patterns. |
| `Utils.ReMatchExamples` | test_utils.py:33-49 | Against the John Smith and Roger Jones pattern, `re.match` accepts the two listed addresses. It rejects `john`, `manyjohn.…`, `….com.uk`, `….roger` and the concatenation of both addresses. The John Smith address followed by a newline is accepted too. |
| `Runner.ValidateAuthConfig` | main.py:41-55 | The configuration is accepted exactly when basic authentication is set, or both the provider and a non-empty whitelist are set. When accepted, a pattern is returned exactly when the whitelist is non-empty, and that pattern is the whitelist's compiled pattern. |
| `Runner.AcceptedWhitelistPattern` | main.py:32-38 | A pattern the authentication check returns is anchored, reads back to the lowercased whitelist, has one unescaped bar fewer than there are addresses, and holds no uppercase letter. |
| `Runner.ValidateAuthConfigExamples` | test_main.py:25-86 | The five configurations of the tests: nothing set, only the provider, or only the whitelist is refused. Provider plus whitelist gives `^(test@test\.com)$`. Only basic authentication gives no pattern. |
| `Runner.IntToDecimal` | main.py:75 | `str` of the database number: never empty, starts with `-` exactly for a negative number, and has no leading zero. |
| `Runner.ParseIntToDecimal` | main.py:75 | The database number written into the URL reads back as that number, negative numbers included. |
| `Runner.DecimalOfParseInt` | main.py:75 | A text reads back as `n` exactly when it is the text `str` writes for `n`. So `01`, `+1` and `-0` are not read as numbers. |
| `Runner.UrlEncode` | main.py:74 | `urlencode` of arguments that need no quoting: the text is empty exactly when there are no arguments. `Runner.TlsQuery` states the one query the launcher builds. |
| `Runner.BuildRedisUrl` | main.py:73-75 | The URL starts with `base/` and is longer than the base, the slash and the encoded query together. Its meaning is stated by `Runner.BuildRedisUrlRoundTrip` and `Runner.ParseRedisUrlExact`. |
| `Runner.ParseRedisUrlExact` | main.py:75 | A URL that reads back as a database number and a query is exactly `base/` + the number's text + `?` + the query. |
| `Runner.BuildRedisUrlRoundTrip` | main.py:73-75 | The URL starts with `base/`. The text before the first `?` after that reads back as the database number, and the text after it is the encoded query. |
| `Runner.TlsQueryArgs` | main.py:66-67 | There is at most one query argument, and there is one exactly for a `rediss://` base. |
| `Runner.TlsQuery` | main.py:66-67 | The query is `ssl_cert_reqs=CERT_REQUIRED` for a `rediss://` base, and empty otherwise. |
| `Runner.PlainRedisHasNoQuery` | main.py:66-67 | A `redis://` base is not a TLS base, and it gets an empty query. |
| `Runner.ResolveBaseUrl` | main.py:59-64 | With a `redis` binding, the base is the first entry's `credentials.uri`. An empty binding list is an error, and so is a first entry without a uri. Without a binding, the base is `REDIS_BASE_URL`, and it is an error if that is missing. |
| `Runner.BindingTakesPrecedence` | main.py:61-64 | When a `redis` binding exists, `REDIS_BASE_URL` has no effect on the base. |
| `Runner.BrokerDb` | main.py:68 | `REDIS_BROKER_DB` with default 0: the value when it is set, and 0 otherwise. |
| `Runner.GetBrokerUrl` | main.py:58-70 | The result fails exactly when the base cannot be resolved, with the same error. Otherwise it reads back against the resolved base as the database (0 by default) and the TLS query. |
| `Runner.GetBrokerUrlText` | main.py:58-75 | A built broker URL is exactly `base/db?query`: the database (0 by default) written as `str` writes it, and the TLS query. |
| `Runner.GetBrokerUrlExample` | test_main.py:142-151 | `redis://localhost` with database 1 gives `redis://localhost/1?`. |
| `Runner.StartupEffect` | main.py:78-83 | Startup is refused exactly when the authentication check refuses. It fails on the broker URL exactly when the check accepts and the URL cannot be built, with that error. No variable other than `FLOWER_AUTH` and `CELERY_BROKER_URL` is added. |
| `Runner.StartupFrame` | main.py:78-84 | Every variable other than `FLOWER_AUTH` and `CELERY_BROKER_URL` keeps its presence and its value. No variable other than these two is added. |
| `Runner.StartupValidatesFirst` | main.py:80-83 | Startup stops on the configuration error exactly when neither authentication mode is set up. It then leaves the environment as it was. |
| `Runner.StartupWrites` | main.py:81-83 | When Flower starts, `CELERY_BROKER_URL` holds the broker URL. With a non-empty whitelist, `FLOWER_AUTH` holds its compiled pattern. Without one, `FLOWER_AUTH` is left as it was. |
| `Runner.Process.Start` | main.py:78-84 | The environment and outcome are those of `StartupEffect`. Nothing but the two output variables changes. A refused configuration writes nothing. |
| `Runner.StartupExample` | test_main.py:137-151 | The run of the test sets `FLOWER_AUTH` to `^(test@example\.com)$` and `CELERY_BROKER_URL` to `redis://localhost/1?`. |

## Left out

- `init_sentry` (main.py:23-30) is not modelled, and the model starts after it returns. When `SENTRY_DSN` is set, it calls the external `sentry_sdk` and reads `SENTRY_ENVIRONMENT` with no default (main.py:27). If that variable is missing, `main` stops at main.py:79 with an error, before the authentication check and with nothing written. `Runner.StartupEffect`, `Runner.StartupValidatesFirst` and `Runner.Process.Start` describe only runs in which `init_sentry` returns.
- Flower's own entry point, `flower.__main__.main()` (main.py:84), takes over the process. It is modelled only as the `FlowerStarted` outcome.
- Environment parsing by django-environ is not modelled. This covers `env`, `env.list` (comma split), `env.json`, `env.int`, defaults and `$`-prefixed proxy values. `Runner.Settings` carries the values as that library hands them over. Parse failures (malformed JSON, a non-integer `REDIS_BROKER_DB`) are not modelled.
- `VCAP_SERVICES` shapes other than a list of bindings are not modelled: a `redis` value that is not a list, or a `uri` that is not a string.
- Exceptions that abort the process are modelled as values: `Utils.RegexError`, `Runner.AuthResult.ImproperlyConfigured`, `Runner.BrokerError` and `Runner.Outcome`.
- Python's regular-expression engine is not modelled. The round trip through `Utils.DecodePattern` is what is proved, and matching is defined on top of it.
- Utils.FullMatch: this is full-string matching (`re.fullmatch`). The tests (test_utils.py:48-49) match with `re.match`, where `$` also holds before one final newline, so each listed address followed by one `\n` matches too. That behaviour is `Utils.ReMatch`, and `Utils.CreateEmailRegexReMatch` states it.
- Utils.Lower: lowercases ASCII letters only. Unicode case mapping is not modelled, including mappings that change a string's length.
- Utils.IsSpecial: follows `re.escape` from Python 3.7 on. Earlier versions escape every non-alphanumeric character, including `@`, which contradicts the patterns the tests expect.
- Runner.UrlEncode: joins `key=value` pairs with `&` and does not percent-encode. The only arguments the launcher passes, `ssl_cert_reqs` and `CERT_REQUIRED`, need no quoting.
- How `os.environ` is passed on to the real process environment (`putenv`) is not modelled. The environment is a map field.
