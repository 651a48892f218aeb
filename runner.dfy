/** The launcher script: it checks that an authentication mode is
    configured, compiles the email whitelist, builds the Celery broker URL
    and writes both into the process environment before Flower starts. */
module Runner {
  import opened Wrappers
  import Utils

  /** The environment variable Flower reads its email whitelist pattern from. */
  const FlowerAuth: string := "FLOWER_AUTH"
  /** The environment variable Flower reads its broker URL from. */
  const CeleryBrokerUrl: string := "CELERY_BROKER_URL"

  // ---------------------------------------------------------------------
  // Authentication check
  // ---------------------------------------------------------------------

  /** Python truthiness of an optional string: present and not empty. */
  predicate IsSet(v: Option<string>) {
    v.Some? && v.value != ""
  }

  /** Python truthiness of an optional list: present and not empty. */
  predicate HasEntries(v: Option<seq<string>>) {
    v.Some? && v.value != []
  }

  /** Basic authentication is configured by a credential string. */
  predicate BasicAuthMode(basicAuth: Option<string>) {
    IsSet(basicAuth)
  }

  /** Login through a provider needs the provider and the whitelist. */
  predicate ProviderMode(authProvider: Option<string>, emailWhitelist: Option<seq<string>>) {
    IsSet(authProvider) && HasEntries(emailWhitelist)
  }

  /** What the authentication check returns: the configuration error, or the whitelist
      pattern when there is one. */
  datatype AuthResult = ImproperlyConfigured | Accepted(whitelist: Option<string>)

  /** `validate_auth_config_and_get_whitelist`: the configuration is refused
      unless one of the two modes is set up; an accepted configuration with
      a non-empty whitelist yields its compiled pattern, even when basic
      authentication is set too. */
  function ValidateAuthConfig(
    basicAuth: Option<string>,
    authProvider: Option<string>,
    emailWhitelist: Option<seq<string>>
  ): (r: AuthResult)
    ensures r.Accepted? <==> BasicAuthMode(basicAuth) || ProviderMode(authProvider, emailWhitelist)
    ensures r.Accepted? ==> (r.whitelist.Some? <==> HasEntries(emailWhitelist))
    ensures r.Accepted? && r.whitelist.Some? ==>
      Utils.CreateEmailRegex(emailWhitelist.value) == Ok(r.whitelist.value)
  {
    if !IsSet(basicAuth) && !(IsSet(authProvider) && HasEntries(emailWhitelist)) then
      ImproperlyConfigured
    else if HasEntries(emailWhitelist) then
      Accepted(Some(Utils.CreateEmailRegex(emailWhitelist.value).value))
    else
      Accepted(None)
  }

  /** An accepted pattern reads back as the lowercased whitelist, holds
      one unescaped bar fewer than there are addresses, and holds no
      uppercase letter. */
  lemma AcceptedWhitelistPattern(
    basicAuth: Option<string>,
    authProvider: Option<string>,
    emailWhitelist: Option<seq<string>>,
    pattern: string
  )
    requires ValidateAuthConfig(basicAuth, authProvider, emailWhitelist) == Accepted(Some(pattern))
    ensures HasEntries(emailWhitelist)
    ensures Utils.IsAnchored(pattern)
    ensures Utils.DecodePattern(pattern) == Some(Utils.LowerAll(emailWhitelist.value))
    ensures Utils.UnescapedBars(Utils.Body(pattern)) == |emailWhitelist.value| - 1
    ensures forall i :: 0 <= i < |pattern| ==> !Utils.IsAsciiUpper(pattern[i])
  {
    Utils.CreateEmailRegexRoundTrip(emailWhitelist.value);
    Utils.CreateEmailRegexSeparators(emailWhitelist.value);
    Utils.CreateEmailRegexLowercase(emailWhitelist.value);
  }

  /** The five configurations of test_main.py: nothing set, only the
      provider, only the whitelist (refused); provider and whitelist, only
      basic authentication (accepted). */
  lemma ValidateAuthConfigExamples(email: string)
    requires email == "test@test.com"
    ensures ValidateAuthConfig(None, None, None) == ImproperlyConfigured
    ensures ValidateAuthConfig(None, Some("flower.views.auth.GithubLoginHandler"), None)
      == ImproperlyConfigured
    ensures ValidateAuthConfig(None, None, Some([email])) == ImproperlyConfigured
    ensures ValidateAuthConfig(None, Some("flower.views.auth.GithubLoginHandler"), Some([email]))
      == Accepted(Some("^(test@test\\.com)$"))
    ensures ValidateAuthConfig(Some("username:password"), None, None) == Accepted(None)
  {
    Utils.SingleAddressPattern(email, "test@test", "com");
    TestAddressPatternText("^(" + ("test@test" + "\\." + "com") + ")$");
  }

  /** The pattern of `test@test.com`, assembled from its pieces, is the
      text the test expects. */
  lemma TestAddressPatternText(p: string)
    requires p == "^(" + ("test@test" + "\\." + "com") + ")$"
    ensures p == "^(test@test\\.com)$"
  {
  }

  // ---------------------------------------------------------------------
  // Decimal numerals (`str` of an `int`)
  // ---------------------------------------------------------------------

  predicate IsDigit(c: char) {
    '0' <= c <= '9'
  }

  predicate AllDigits(s: string) {
    forall i :: 0 <= i < |s| ==> IsDigit(s[i])
  }

  function DigitChar(d: nat): (c: char)
    requires d < 10
    ensures IsDigit(c)
  {
    ('0' as int + d) as char
  }

  function DigitValue(c: char): (d: nat)
    requires IsDigit(c)
    ensures d < 10
  {
    c as int - '0' as int
  }

  /** A numeral as `str` writes a natural number: digits only, and no
      leading zero unless the number is 0 itself. */
  predicate IsNumeral(s: string) {
    s != [] && AllDigits(s) && (s[0] == '0' ==> |s| == 1)
  }

  /** The decimal digits of a natural number, without leading zeros. */
  function NatToDecimal(n: nat): (s: string)
    ensures IsNumeral(s)
    ensures s[0] == '0' <==> n == 0
    decreases n
  {
    if n < 10 then [DigitChar(n)] else NatToDecimal(n / 10) + [DigitChar(n % 10)]
  }

  /** Python's `str` of an integer: a minus sign before a negative one. */
  function IntToDecimal(n: int): (s: string)
    ensures s != [] && (s[0] == '-' <==> n < 0)
    ensures n < 0 ==> IsNumeral(s[1..]) && s[1] != '0'
    ensures n >= 0 ==> IsNumeral(s)
  {
    if n < 0 then "-" + NatToDecimal(-n) else NatToDecimal(n)
  }

  /** The value of a string of decimal digits. */
  function ParseNat(s: string): (n: nat)
    requires AllDigits(s)
  {
    if s == [] then 0 else 10 * ParseNat(s[..|s| - 1]) + DigitValue(s[|s| - 1])
  }

  /** Reads an integer written as `str` writes it: an optional minus sign
      before a numeral, with no `-0`; anything else is `None`. */
  function ParseInt(s: string): (r: Option<int>)
  {
    if |s| >= 2 && s[0] == '-' && IsNumeral(s[1..]) && s[1] != '0' then
      var magnitude: int := ParseNat(s[1..]);
      Some(-magnitude)
    else if IsNumeral(s) then Some(ParseNat(s))
    else None
  }

  lemma {:induction false} ParseNatToDecimal(n: nat)
    ensures ParseNat(NatToDecimal(n)) == n
    decreases n
  {
    if n >= 10 {
      var p := NatToDecimal(n / 10);
      var s := p + [DigitChar(n % 10)];
      assert s[..|s| - 1] == p;
      ParseNatToDecimal(n / 10);
    }
  }

  /** A numeral that does not start with `0` has a positive value. */
  lemma {:induction false} ParseNatPositive(s: string)
    requires s != [] && AllDigits(s) && s[0] != '0'
    ensures ParseNat(s) > 0
    decreases |s|
  {
    if |s| > 1 {
      ParseNatPositive(s[..|s| - 1]);
    }
  }

  /** A numeral is the decimal form of its own value. */
  lemma {:induction false} DecimalOfParseNat(s: string)
    requires IsNumeral(s)
    ensures NatToDecimal(ParseNat(s)) == s
    decreases |s|
  {
    var init, last := s[..|s| - 1], s[|s| - 1];
    var n := ParseNat(s);
    if |s| == 1 {
      assert init == [];
      assert s == [last];
    } else {
      assert init[0] == s[0] != '0';
      DecimalOfParseNat(init);
      ParseNatPositive(init);
      var m := ParseNat(init);
      assert n == 10 * m + DigitValue(last);
      assert n / 10 == m && n % 10 == DigitValue(last);
      assert s == init + [last];
    }
  }

  /** Round trip: the numeral of `n` reads back as `n`. */
  lemma ParseIntToDecimal(n: int)
    ensures ParseInt(IntToDecimal(n)) == Some(n)
  {
    if n < 0 {
      ParseNatToDecimal(-n);
      assert IntToDecimal(n)[1..] == NatToDecimal(-n);
    } else {
      ParseNatToDecimal(n);
    }
  }

  /** The other direction: only the numeral of `n` reads back as `n`, so
      `str` and this reading are inverse bijections. */
  lemma DecimalOfParseInt(s: string, n: int)
    ensures ParseInt(s) == Some(n) <==> s == IntToDecimal(n)
  {
    ParseIntToDecimal(n);
    if ParseInt(s) == Some(n) {
      if |s| >= 2 && s[0] == '-' && IsNumeral(s[1..]) && s[1] != '0' {
        DecimalOfParseNat(s[1..]);
        assert s == "-" + s[1..];
      } else {
        DecimalOfParseNat(s);
      }
    }
  }

  // ---------------------------------------------------------------------
  // Broker URL
  // ---------------------------------------------------------------------

  predicate StartsWith(s: string, prefix: string) {
    |prefix| <= |s| && s[..|prefix|] == prefix
  }

  /** The scheme of a Redis server reached over TLS. */
  const RedissScheme: string := "rediss://"

  /** The first position of `c` in `s`, if any. */
  function IndexOf(s: string, c: char): (r: Option<nat>)
    ensures r.Some? ==> r.value < |s| && s[r.value] == c
    ensures r.Some? ==> forall j :: 0 <= j < r.value ==> s[j] != c
    ensures r.None? ==> forall j :: 0 <= j < |s| ==> s[j] != c
  {
    if s == [] then None
    else if s[0] == c then Some(0)
    else match IndexOf(s[1..], c)
      case None => None
      case Some(i) => Some(i + 1)
  }

  /** One query argument, `key=value`. */
  datatype QueryArg = QueryArg(key: string, value: string)

  /** `urlencode` of arguments whose keys and values need no quoting:
      `key=value` pairs joined by `&`. */
  function UrlEncode(args: seq<QueryArg>): (s: string)
    ensures s == "" <==> args == []
  {
    if args == [] then ""
    else if |args| == 1 then args[0].key + "=" + args[0].value
    else args[0].key + "=" + args[0].value + "&" + UrlEncode(args[1..])
  }

  /** The query arguments `get_broker_url` passes: strict certificate
      checking for a `rediss://` base, nothing otherwise. */
  function TlsQueryArgs(baseUrl: string): (args: seq<QueryArg>)
    ensures |args| <= 1
    ensures args != [] <==> StartsWith(baseUrl, RedissScheme)
  {
    if StartsWith(baseUrl, RedissScheme) then [QueryArg("ssl_cert_reqs", "CERT_REQUIRED")] else []
  }

  /** The query is `ssl_cert_reqs=CERT_REQUIRED` exactly for a `rediss://`
      base, and empty otherwise. */
  lemma TlsQuery(baseUrl: string)
    ensures StartsWith(baseUrl, RedissScheme) ==> UrlEncode(TlsQueryArgs(baseUrl)) == "ssl_cert_reqs=CERT_REQUIRED"
    ensures !StartsWith(baseUrl, RedissScheme) ==> UrlEncode(TlsQueryArgs(baseUrl)) == ""
  {
  }

  /** A plain `redis://` base is not a TLS one: it gets no query arguments. */
  lemma PlainRedisHasNoQuery(baseUrl: string)
    requires StartsWith(baseUrl, "redis://")
    ensures !StartsWith(baseUrl, RedissScheme)
    ensures UrlEncode(TlsQueryArgs(baseUrl)) == ""
  {
    assert baseUrl[5] == "redis://"[5] == ':';
    assert RedissScheme[5] == 's';
    if |RedissScheme| <= |baseUrl| {
      assert baseUrl[..|RedissScheme|][5] == baseUrl[5];
    }
  }

  /** `_build_redis_url`: `base/db?query`. */
  function BuildRedisUrl(baseUrl: string, dbNumber: int, queryArgs: seq<QueryArg>): (url: string)
    ensures StartsWith(url, baseUrl + "/")
    ensures |url| > |baseUrl| + 1 + |UrlEncode(queryArgs)|
  {
    baseUrl + "/" + IntToDecimal(dbNumber) + "?" + UrlEncode(queryArgs)
  }

  /** Reads a broker URL built on `baseUrl` back into its database number
      and its query. */
  function ParseRedisUrl(url: string, baseUrl: string): (r: Option<(int, string)>)
    ensures r.Some? ==> StartsWith(url, baseUrl + "/")
  {
    if !StartsWith(url, baseUrl + "/") then None
    else
      var rest := url[|baseUrl| + 1..];
      match IndexOf(rest, '?')
      case None => None
      case Some(i) =>
        match ParseInt(rest[..i])
        case None => None
        case Some(db) => Some((db, rest[i + 1..]))
  }

  /** Round trip: the URL reads back as the database number and the
      encoded query it was built from. */
  lemma BuildRedisUrlRoundTrip(baseUrl: string, dbNumber: int, queryArgs: seq<QueryArg>)
    ensures ParseRedisUrl(BuildRedisUrl(baseUrl, dbNumber, queryArgs), baseUrl)
      == Some((dbNumber, UrlEncode(queryArgs)))
  {
    var digits := IntToDecimal(dbNumber);
    var query := UrlEncode(queryArgs);
    var url := BuildRedisUrl(baseUrl, dbNumber, queryArgs);
    var rest := digits + "?" + query;
    assert url == (baseUrl + "/") + rest;
    assert url[..|baseUrl + "/"|] == baseUrl + "/";
    assert url[|baseUrl| + 1..] == rest;
    assert forall j :: 0 <= j < |digits| ==> digits[j] != '?' by {
      if dbNumber >= 0 {
        assert AllDigits(digits);
      } else {
        assert AllDigits(NatToDecimal(-dbNumber));
        assert forall j :: 1 <= j < |digits| ==> digits[j] == NatToDecimal(-dbNumber)[j - 1];
      }
    }
    assert rest[|digits|] == '?';
    assert IndexOf(rest, '?') == Some(|digits|);
    assert rest[..|digits|] == digits;
    assert rest[|digits| + 1..] == query;
    ParseIntToDecimal(dbNumber);
  }

  /** The reading is exact: a URL that reads back as a database number and
      a query is the one built from them, character for character. */
  lemma ParseRedisUrlExact(url: string, baseUrl: string, dbNumber: int, query: string)
    requires ParseRedisUrl(url, baseUrl) == Some((dbNumber, query))
    ensures url == baseUrl + "/" + IntToDecimal(dbNumber) + "?" + query
  {
    var rest := url[|baseUrl| + 1..];
    var i := IndexOf(rest, '?').value;
    DecimalOfParseInt(rest[..i], dbNumber);
    assert rest == rest[..i] + "?" + rest[i + 1..];
    assert url == url[..|baseUrl| + 1] + rest;
  }

  /** The part of a service binding the launcher reads: the `uri` of its
      `credentials`, when it has one. */
  datatype RedisService = RedisService(credentialsUri: Option<string>)

  /** Why no broker URL could be built. */
  datatype BrokerError =
    | EmptyRedisBinding    // `VCAP_SERVICES['redis']` is an empty list (IndexError)
    | MissingRedisUri      // its first entry has no `credentials.uri` (KeyError)
    | MissingRedisBaseUrl  // no binding and no `REDIS_BASE_URL` (ImproperlyConfigured)

  /** The base URL: the first `redis` service binding wins over
      `REDIS_BASE_URL`, which is read only when there is no binding. */
  function ResolveBaseUrl(vcapRedis: Option<seq<RedisService>>, redisBaseUrl: Option<string>)
    : (r: Result<string, BrokerError>)
    ensures vcapRedis.Some? ==> (r.Ok? <==> vcapRedis.value != [] && vcapRedis.value[0].credentialsUri.Some?)
    ensures vcapRedis.Some? && r.Ok? ==> r.value == vcapRedis.value[0].credentialsUri.value
    ensures vcapRedis.None? ==> (r.Ok? <==> redisBaseUrl.Some?)
    ensures vcapRedis.None? && r.Ok? ==> r.value == redisBaseUrl.value
  {
    match vcapRedis
    case Some(services) =>
      if services == [] then Err(EmptyRedisBinding)
      else if services[0].credentialsUri.None? then Err(MissingRedisUri)
      else Ok(services[0].credentialsUri.value)
    case None =>
      if redisBaseUrl.None? then Err(MissingRedisBaseUrl) else Ok(redisBaseUrl.value)
  }

  /** A service binding decides the base URL whatever `REDIS_BASE_URL` says. */
  lemma BindingTakesPrecedence(services: seq<RedisService>, one: Option<string>, other: Option<string>)
    ensures ResolveBaseUrl(Some(services), one) == ResolveBaseUrl(Some(services), other)
  {
  }

  /** `REDIS_BROKER_DB`, 0 when it is not set. */
  function BrokerDb(brokerDb: Option<int>): (db: int)
    ensures brokerDb.None? ==> db == 0
    ensures brokerDb.Some? ==> db == brokerDb.value
  {
    if brokerDb.Some? then brokerDb.value else 0
  }

  /** `get_broker_url`: the resolved base, the broker database (0 by
      default) and, for a `rediss://` base, strict certificate checking. */
  function GetBrokerUrl(
    vcapRedis: Option<seq<RedisService>>,
    redisBaseUrl: Option<string>,
    brokerDb: Option<int>
  ): (r: Result<string, BrokerError>)
    ensures r.Err? <==> ResolveBaseUrl(vcapRedis, redisBaseUrl).Err?
    ensures r.Err? ==> r.error == ResolveBaseUrl(vcapRedis, redisBaseUrl).error
    ensures r.Ok? ==>
      var base := ResolveBaseUrl(vcapRedis, redisBaseUrl).value;
      var db := if brokerDb.Some? then brokerDb.value else 0;
      var query := if StartsWith(base, RedissScheme) then "ssl_cert_reqs=CERT_REQUIRED" else "";
      ParseRedisUrl(r.value, base) == Some((db, query))
  {
    match ResolveBaseUrl(vcapRedis, redisBaseUrl)
    case Err(e) => Err(e)
    case Ok(base) =>
      var url := BuildRedisUrl(base, BrokerDb(brokerDb), TlsQueryArgs(base));
      BuildRedisUrlRoundTrip(base, BrokerDb(brokerDb), TlsQueryArgs(base));
      TlsQuery(base);
      Ok(url)
  }

  /** The broker URL is exactly `base/db?query`, with the database written
      as `str` writes it (no leading zero, no `+`). */
  lemma GetBrokerUrlText(
    vcapRedis: Option<seq<RedisService>>,
    redisBaseUrl: Option<string>,
    brokerDb: Option<int>
  )
    requires GetBrokerUrl(vcapRedis, redisBaseUrl, brokerDb).Ok?
    ensures var base := ResolveBaseUrl(vcapRedis, redisBaseUrl).value;
      var db := if brokerDb.Some? then brokerDb.value else 0;
      var query := if StartsWith(base, RedissScheme) then "ssl_cert_reqs=CERT_REQUIRED" else "";
      GetBrokerUrl(vcapRedis, redisBaseUrl, brokerDb).value == base + "/" + IntToDecimal(db) + "?" + query
  {
    var base := ResolveBaseUrl(vcapRedis, redisBaseUrl).value;
    var db := if brokerDb.Some? then brokerDb.value else 0;
    var query := if StartsWith(base, RedissScheme) then "ssl_cert_reqs=CERT_REQUIRED" else "";
    ParseRedisUrlExact(GetBrokerUrl(vcapRedis, redisBaseUrl, brokerDb).value, base, db, query);
  }

  /** The broker URL of test_main.py: `redis://localhost`, database 1. */
  lemma GetBrokerUrlExample()
    ensures GetBrokerUrl(None, Some("redis://localhost"), Some(1)) == Ok("redis://localhost/1?")
  {
    var base := "redis://localhost";
    PlainRedisHasNoQuery(base);
    assert TlsQueryArgs(base) == [];
    assert IntToDecimal(1) == "1";
    assert ResolveBaseUrl(None, Some(base)) == Ok(base);
    assert GetBrokerUrl(None, Some(base), Some(1)) == Ok(BuildRedisUrl(base, 1, []));
    assert BuildRedisUrl(base, 1, []) == base + "/" + "1" + "?" + "";
    assert base + "/" + "1" + "?" + "" == "redis://localhost/1?";
  }

  // ---------------------------------------------------------------------
  // Startup
  // ---------------------------------------------------------------------

  /** The settings `main` reads, as the environment parser hands them over:
      `FLOWER_BASIC_AUTH`, `FLOWER_AUTH_PROVIDER`, `EMAIL_WHITELIST` (split
      at commas), the `redis` entries of `VCAP_SERVICES`, `REDIS_BASE_URL`
      and `REDIS_BROKER_DB`. */
  datatype Settings = Settings(
    basicAuth: Option<string>,
    authProvider: Option<string>,
    emailWhitelist: Option<seq<string>>,
    vcapRedis: Option<seq<RedisService>>,
    redisBaseUrl: Option<string>,
    brokerDb: Option<int>
  )

  /** How startup ends: refused configuration, no broker URL, or Flower
      started with the updated environment. */
  datatype Outcome = AuthNotConfigured | BrokerUrlFailed(error: BrokerError) | FlowerStarted

  /** The environment after startup and how startup ended. */
  datatype Startup = Startup(environ: map<string, string>, outcome: Outcome)

  /** What `main` does to the environment: nothing when the configuration
      is refused; otherwise `FLOWER_AUTH` is set to a non-empty pattern,
      then `CELERY_BROKER_URL` to the broker URL (so a failing broker URL
      leaves `FLOWER_AUTH` written). */
  function StartupEffect(environ: map<string, string>, s: Settings): (r: Startup)
    ensures r.outcome == AuthNotConfigured
        <==> ValidateAuthConfig(s.basicAuth, s.authProvider, s.emailWhitelist).ImproperlyConfigured?
    ensures r.outcome.BrokerUrlFailed?
        <==> ValidateAuthConfig(s.basicAuth, s.authProvider, s.emailWhitelist).Accepted?
             && GetBrokerUrl(s.vcapRedis, s.redisBaseUrl, s.brokerDb).Err?
    ensures r.outcome.BrokerUrlFailed? ==> r.outcome.error == GetBrokerUrl(s.vcapRedis, s.redisBaseUrl, s.brokerDb).error
    ensures r.environ.Keys <= environ.Keys + {FlowerAuth, CeleryBrokerUrl}
  {
    match ValidateAuthConfig(s.basicAuth, s.authProvider, s.emailWhitelist)
    case ImproperlyConfigured => Startup(environ, AuthNotConfigured)
    case Accepted(whitelist) =>
      var withAuth := if IsSet(whitelist) then environ[FlowerAuth := whitelist.value] else environ;
      match GetBrokerUrl(s.vcapRedis, s.redisBaseUrl, s.brokerDb)
      case Err(e) => Startup(withAuth, BrokerUrlFailed(e))
      case Ok(url) => Startup(withAuth[CeleryBrokerUrl := url], FlowerStarted)
  }

  /** Nothing but `FLOWER_AUTH` and `CELERY_BROKER_URL` changes. */
  lemma StartupFrame(environ: map<string, string>, s: Settings)
    ensures StartupEffect(environ, s).environ - {FlowerAuth, CeleryBrokerUrl}
         == environ - {FlowerAuth, CeleryBrokerUrl}
    ensures StartupEffect(environ, s).environ.Keys <= environ.Keys + {FlowerAuth, CeleryBrokerUrl}
  {
  }

  /** The configuration is checked before anything is written: a refused
      configuration leaves the environment as it was. */
  lemma StartupValidatesFirst(environ: map<string, string>, s: Settings)
    ensures StartupEffect(environ, s).outcome == AuthNotConfigured
        <==> !BasicAuthMode(s.basicAuth) && !ProviderMode(s.authProvider, s.emailWhitelist)
    ensures StartupEffect(environ, s).outcome == AuthNotConfigured
        ==> StartupEffect(environ, s).environ == environ
  {
  }

  /** On success `CELERY_BROKER_URL` holds the broker URL, and
      `FLOWER_AUTH` holds the compiled whitelist when there is one and is
      left alone otherwise. */
  lemma StartupWrites(environ: map<string, string>, s: Settings)
    requires StartupEffect(environ, s).outcome == FlowerStarted
    ensures var e' := StartupEffect(environ, s).environ;
      && GetBrokerUrl(s.vcapRedis, s.redisBaseUrl, s.brokerDb).Ok?
      && CeleryBrokerUrl in e'
      && e'[CeleryBrokerUrl] == GetBrokerUrl(s.vcapRedis, s.redisBaseUrl, s.brokerDb).value
      && (HasEntries(s.emailWhitelist) ==>
            FlowerAuth in e' && Utils.CreateEmailRegex(s.emailWhitelist.value) == Ok(e'[FlowerAuth]))
      && (!HasEntries(s.emailWhitelist) ==>
            (FlowerAuth in e' <==> FlowerAuth in environ)
            && (FlowerAuth in environ ==> e'[FlowerAuth] == environ[FlowerAuth]))
  {
  }

  /** The process environment, which `main` updates in place. */
  class Process {
    var environ: map<string, string>

    constructor(environ: map<string, string>)
      ensures this.environ == environ
    {
      this.environ := environ;
    }

    /** `main`: check the authentication settings, write the whitelist
        pattern, write the broker URL, then hand over to Flower (the
        `FlowerStarted` outcome). */
    method Start(s: Settings) returns (outcome: Outcome)
      modifies this
      ensures environ == StartupEffect(old(environ), s).environ
      ensures outcome == StartupEffect(old(environ), s).outcome
      ensures environ - {FlowerAuth, CeleryBrokerUrl} == old(environ) - {FlowerAuth, CeleryBrokerUrl}
      ensures outcome == AuthNotConfigured ==> environ == old(environ)
    {
      StartupFrame(environ, s);
      var whitelist := ValidateAuthConfig(s.basicAuth, s.authProvider, s.emailWhitelist);
      if whitelist.ImproperlyConfigured? {
        return AuthNotConfigured;
      }
      if IsSet(whitelist.whitelist) {
        environ := environ[FlowerAuth := whitelist.whitelist.value];
      }
      var brokerUrl := GetBrokerUrl(s.vcapRedis, s.redisBaseUrl, s.brokerDb);
      if brokerUrl.Err? {
        return BrokerUrlFailed(brokerUrl.error);
      }
      environ := environ[CeleryBrokerUrl := brokerUrl.value];
      return FlowerStarted;
    }
  }

  /** The run of test_main.py: provider and whitelist `test@example.com`,
      `redis://localhost`, database 1. */
  lemma StartupExample(environ: map<string, string>, email: string)
    requires email == "test@example.com"
    ensures var r := StartupEffect(environ, Settings(None, Some("flower.views.auth.GithubLoginHandler"),
                                                     Some([email]), None, Some("redis://localhost"), Some(1)));
      && r.outcome == FlowerStarted
      && FlowerAuth in r.environ && r.environ[FlowerAuth] == "^(test@example\\.com)$"
      && CeleryBrokerUrl in r.environ && r.environ[CeleryBrokerUrl] == "redis://localhost/1?"
  {
    Utils.SingleAddressPattern(email, "test@example", "com");
    ExampleAddressPatternText("^(" + ("test@example" + "\\." + "com") + ")$");
    GetBrokerUrlExample();
    assert FlowerAuth != CeleryBrokerUrl;
  }

  /** The pattern of `test@example.com`, assembled from its pieces, is the
      text the test expects. */
  lemma ExampleAddressPatternText(p: string)
    requires p == "^(" + ("test@example" + "\\." + "com") + ")$"
    ensures p == "^(test@example\\.com)$"
  {
  }
}
