/** How the client-server engine's connection settings are derived from the
    environment: either one connection URI, to which an SSL parameter is
    appended, or discrete fields with defaults. */
module MysqlConfig {
  import opened Common
  import opened JsText
  import opened Sql

  datatype Ssl = Ssl(rejectUnauthorized: bool)

  datatype DbConfig =
    | UriConfig(uri: string, uriSsl: Ssl)
    | FieldsConfig(host: string, port: int, user: string, password: string, database: string, ssl: Option<Ssl>)

  const DefaultHost: string := "localhost"
  const DefaultPort: int := 3306
  const DefaultUser: string := "root"
  const DefaultPassword: string := ""
  const DefaultDatabase: string := "blog_db"

  /** `parseInt(DB_PORT) || 3306`: NaN (no digits, or no variable) and zero
      both fall back to the default. */
  function PortOf(v: Option<string>): int
  {
    if v.None? then DefaultPort
    else
      match ParseInt(v.value)
      case None => DefaultPort
      case Some(n) => if n == 0 then DefaultPort else n
  }

  /** `dbConfig`. A non-empty `DATABASE_URL` wins; otherwise each field is
      its variable when that is non-empty and its default otherwise, and SSL
      is requested exactly when `DB_HOST` is set. */
  function DeriveConfig(env: Env): DbConfig
  {
    var url := EnvVar(env, "DATABASE_URL");
    var host := EnvVar(env, "DB_HOST");
    if Present(url) then UriConfig(url.value, Ssl(false))
    else
      FieldsConfig(
        OrElse(host, DefaultHost),
        PortOf(EnvVar(env, "DB_PORT")),
        OrElse(EnvVar(env, "DB_USER"), DefaultUser),
        OrElse(EnvVar(env, "DB_PASSWORD"), DefaultPassword),
        OrElse(EnvVar(env, "DB_NAME"), DefaultDatabase),
        if Present(host) then Some(Ssl(false)) else None)
  }

  /** The fields each take their variable when it is non-empty, else their
      default; the port is `DB_PORT` as `PortOf` reads it, never zero; SSL
      is set exactly when `DB_HOST` is; the URI mode is chosen exactly when
      `DATABASE_URL` is non-empty. */
  lemma ConfigFields(env: Env)
    ensures DeriveConfig(env).UriConfig? <==> Present(EnvVar(env, "DATABASE_URL"))
    ensures var c := DeriveConfig(env);
      c.FieldsConfig? ==>
        (c.ssl.Some? <==> Present(EnvVar(env, "DB_HOST"))) &&
        (c.host == DefaultHost <== !Present(EnvVar(env, "DB_HOST"))) &&
        (Present(EnvVar(env, "DB_HOST")) ==> c.host == env["DB_HOST"]) &&
        (!Present(EnvVar(env, "DB_USER")) ==> c.user == DefaultUser) &&
        (Present(EnvVar(env, "DB_USER")) ==> c.user == env["DB_USER"]) &&
        (!Present(EnvVar(env, "DB_PASSWORD")) ==> c.password == DefaultPassword) &&
        (Present(EnvVar(env, "DB_PASSWORD")) ==> c.password == env["DB_PASSWORD"]) &&
        (!Present(EnvVar(env, "DB_NAME")) ==> c.database == DefaultDatabase) &&
        (Present(EnvVar(env, "DB_NAME")) ==> c.database == env["DB_NAME"]) &&
        c.port == PortOf(EnvVar(env, "DB_PORT")) && c.port != 0
  {
  }

  /** With nothing set, every default applies and there is no SSL. */
  lemma EmptyEnvironmentDefaults()
    ensures DeriveConfig(map[]) == FieldsConfig(DefaultHost, DefaultPort, DefaultUser, DefaultPassword, DefaultDatabase, None)
  {
  }

  /** A port written in decimal is used as it is (unless it is zero); a
      value with no digit at all falls back to the default. */
  lemma PortParsing(n: int, junk: string)
    requires forall i | 0 <= i < |junk| :: !IsDecimalDigit(junk[i])
    ensures n != 0 ==> PortOf(Some(IntToString(n))) == n
    ensures PortOf(Some(junk)) == DefaultPort
  {
    ParseIntOfIntToString(n);
    ParseIntWithoutDigits(junk);
  }

  // ---------------------------------------------------------------------
  // The pool

  const SslParameter: string := "ssl={\"rejectUnauthorized\":false}"

  /** The URI the pool is created from: the configured URI, one separator
      (`&` when it already has a query, `?` otherwise) and the SSL
      parameter. */
  function PoolUri(uri: string): (r: string)
    ensures |r| == |uri| + 1 + |SslParameter|
  {
    uri + [if '?' in uri then '&' else '?'] + SslParameter
  }

  datatype Pool =
    | UriPool(uri: string)
    | FieldsPool(host: string, port: int, user: string, password: string, database: string,
                 ssl: Option<Ssl>, waitForConnections: bool, connectionLimit: nat, queueLimit: nat)

  /** `createPool`: from the suffixed URI, or from the fields plus the pool
      options (wait for a free connection, at most ten connections, no cap
      on the wait queue). The configured SSL object of the URI mode is not
      passed on: the URI parameter carries it. */
  function CreatePool(c: DbConfig): Pool
  {
    match c
    case UriConfig(uri, _) => UriPool(PoolUri(uri))
    case FieldsConfig(host, port, user, password, database, ssl) =>
      FieldsPool(host, port, user, password, database, ssl, true, 10, 0)
  }

  lemma NoQueryMarkInParameter()
    ensures Occurrences(SslParameter, '?') == 0
  {
    assert forall i | 0 <= i < |SslParameter| :: SslParameter[i] != '?';
    assert '?' !in SslParameter;
    OccurrencesMember(SslParameter, '?');
  }

  /** The configured URI is kept intact as a prefix, followed by exactly one
      separator and the parameter; the separator is `&` exactly when the URI
      has a `?`. */
  lemma PoolUriShape(uri: string)
    ensures var r := PoolUri(uri);
      r[..|uri|] == uri && r[|uri| + 1..] == SslParameter &&
      (r[|uri|] == '&' <==> '?' in uri) && (r[|uri|] == '?' <==> '?' !in uri)
  {
  }

  /** Counting the `?` of a URI suffixed with a separator chosen as
      `PoolUri` chooses it and a parameter without one. */
  lemma QueryMarksAfterSeparator(uri: string, sep: char, param: string)
    requires sep == (if '?' in uri then '&' else '?')
    requires Occurrences(param, '?') == 0
    ensures var r := uri + [sep] + param;
      '?' in r && Occurrences(r, '?') == (if '?' in uri then Occurrences(uri, '?') else 1)
  {
    var suffix := [sep] + param;
    assert suffix[1..] == param;
    assert Occurrences(suffix, '?') == (if sep == '?' then 1 else 0);
    var r := uri + [sep] + param;
    assert r == uri + suffix;
    OccurrencesConcat(uri, suffix, '?');
    OccurrencesMember(uri, '?');
    OccurrencesMember(r, '?');
  }

  /** Suffixing never starts a second query string: the result has a `?`,
      exactly one when the URI had none and otherwise as many as the URI. */
  lemma PoolUriQueryMarks(uri: string)
    ensures var r := PoolUri(uri);
      '?' in r && Occurrences(r, '?') == (if '?' in uri then Occurrences(uri, '?') else 1)
  {
    NoQueryMarkInParameter();
    QueryMarksAfterSeparator(uri, if '?' in uri then '&' else '?', SslParameter);
  }

  /** Pools built from fields carry the configured fields unchanged with the
      fixed pool options; pools built from a URI use the suffixed URI. */
  lemma PoolFromConfig(env: Env)
    ensures var c := DeriveConfig(env);
      var p := CreatePool(c);
      (c.UriConfig? ==> p == UriPool(PoolUri(env["DATABASE_URL"]))) &&
      (c.FieldsConfig? ==>
         p.FieldsPool? && p.host == c.host && p.port == c.port && p.user == c.user &&
         p.password == c.password && p.database == c.database && p.ssl == c.ssl &&
         p.waitForConnections && p.connectionLimit == 10 && p.queueLimit == 0)
  {
  }
}
