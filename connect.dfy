/** `connect_sql`: resolving the connection parameters (optionally through the
    environment) and formatting the SQLAlchemy URL for one of three database
    systems. Creating the engine, creating the database and connecting are done
    by SQLAlchemy and are not part of this model. */
module Connect {
  import opened Wrappers
  import opened Text

  /** What `connect_sql` does before it hands a URL to SQLAlchemy: it raises
      `ValueError` when host or database is missing, returns `None` for an
      unknown database system, or goes on with a URL. */
  datatype Outcome = MissingHostOrDb | Unsupported | Url(url: string)

  /** Connection parameters after the optional environment lookup; `None` is what
      `os.getenv` returns for an unset variable. */
  datatype Params = Params(db: Option<string>, host: Option<string>, user: Option<string>, pw: Option<string>)

  /** `os.getenv(name)` over the environment after `.env` was loaded. */
  function Getenv(env: map<string, string>, name: string): Option<string>
  {
    if name in env then Some(env[name]) else None
  }

  /** Python truthiness of an optional string: neither `None` nor empty. */
  predicate Truthy(v: Option<string>)
  {
    v.Some? && v.value != ""
  }

  /** An optional string inside an f-string: `None` is rendered as `None`. */
  function Render(v: Option<string>): string
  {
    match v
    case Some(s) => s
    case None => "None"
  }

  /** With `use_env`, host and db are always replaced by the variables they name;
      user and pw are looked up only when non-empty. */
  function Resolve(db: string, host: string, user: string, pw: string, useEnv: bool, env: map<string, string>): Params
  {
    if useEnv then
      Params(Getenv(env, db), Getenv(env, host),
             if user != "" then Getenv(env, user) else Some(user),
             if pw != "" then Getenv(env, pw) else Some(pw))
    else Params(Some(db), Some(host), Some(user), Some(pw))
  }

  const MssqlScheme := "mssql://"
  const MssqlDriver := "?driver=ODBC Driver 17 for SQL Server"
  const SqliteScheme := "sqlite:///"
  const PostgresScheme := "postgresql+psycopg2://"

  /** `scheme + user:pw@host/db + suffix`, the shape shared by mssql and postgres. */
  function ServerUrl(scheme: string, p: Params, suffix: string): string
  {
    scheme + Render(p.user) + ":" + Render(p.pw) + "@" + Render(p.host) + "/" + Render(p.db) + suffix
  }

  /** The URL `connect_sql` builds, or why it stops before building one. Host and
      db are checked first, for every database system, sqlite included. */
  function ConnectionUrl(db: string, host: string, user: string, pw: string, useEnv: bool,
                         env: map<string, string>, dbms: string): (r: Outcome)
    ensures r.MissingHostOrDb? <==>
      !Truthy(Resolve(db, host, user, pw, useEnv, env).host) || !Truthy(Resolve(db, host, user, pw, useEnv, env).db)
    ensures r.Unsupported? <==> !r.MissingHostOrDb? && dbms != "mssql" && dbms != "sqlite" && dbms != "postgres"
    ensures r.Url? ==> MssqlScheme <= r.url || SqliteScheme <= r.url || PostgresScheme <= r.url
  {
    var p := Resolve(db, host, user, pw, useEnv, env);
    if !Truthy(p.host) || !Truthy(p.db) then MissingHostOrDb
    else if dbms == "mssql" then Url(ServerUrl(MssqlScheme, p, MssqlDriver))
    else if dbms == "sqlite" then Url(SqliteScheme + Render(p.db))
    else if dbms == "postgres" then Url(ServerUrl(PostgresScheme, p, ""))
    else Unsupported
  }

  /** The five parts of a server URL. */
  datatype UrlParts = UrlParts(user: string, pw: string, host: string, db: string)

  /** Reads `user:pw@host/db` back: user up to the first `:`, password up to the
      first `@`, host up to the first `/`, and the rest is the database. */
  function ParseAuthority(s: string): Option<UrlParts>
  {
    match SplitAtFirst(s, '@')
    case None => None
    case Some(userInfoAndRest) =>
      match SplitAtFirst(userInfoAndRest.0, ':')
      case None => None
      case Some(userPw) =>
        match SplitAtFirst(userInfoAndRest.1, '/')
        case None => None
        case Some(hostDb) => Some(UrlParts(userPw.0, userPw.1, hostDb.0, hostDb.1))
  }

  /** Reads a server URL with the given scheme and suffix back into its parts. */
  function ParseServerUrl(scheme: string, url: string, suffix: string): Option<UrlParts>
  {
    match DropPrefix(scheme, url)
    case None => None
    case Some(rest) =>
      match DropSuffix(rest, suffix)
      case None => None
      case Some(authority) => ParseAuthority(authority)
  }

  /** The parts a user name, password and host may hold without making the URL
      ambiguous. */
  predicate Unambiguous(user: string, pw: string, host: string)
  {
    ':' !in user && '@' !in user && '@' !in pw && '/' !in host
  }

  lemma AuthorityRoundTrip(user: string, pw: string, host: string, db: string)
    requires Unambiguous(user, pw, host)
    ensures ParseAuthority(user + ":" + pw + "@" + host + "/" + db) == Some(UrlParts(user, pw, host, db))
  {
    assert '@' !in user + ":" + pw;
    assert user + ":" + pw + "@" + host + "/" + db == (user + ":" + pw) + ['@'] + (host + "/" + db);
    SplitAtFirstGlued(user + ":" + pw, '@', host + "/" + db);
    assert user + ":" + pw == user + [':'] + pw;
    SplitAtFirstGlued(user, ':', pw);
    assert host + "/" + db == host + ['/'] + db;
    SplitAtFirstGlued(host, '/', db);
  }

  lemma ServerUrlRoundTrip(scheme: string, suffix: string, user: string, pw: string, host: string, db: string)
    requires Unambiguous(user, pw, host)
    ensures ParseServerUrl(scheme, scheme + user + ":" + pw + "@" + host + "/" + db + suffix, suffix)
         == Some(UrlParts(user, pw, host, db))
  {
    var authority := user + ":" + pw + "@" + host + "/" + db;
    assert scheme + user + ":" + pw + "@" + host + "/" + db + suffix == scheme + (authority + suffix);
    DropPrefixGlued(scheme, authority + suffix);
    DropSuffixGlued(authority, suffix);
    AuthorityRoundTrip(user, pw, host, db);
  }

  /** An mssql URL carries the resolved user, password, host and database, in
      that order, and can be read back into them. */
  lemma MssqlUrlRoundTrip(db: string, host: string, user: string, pw: string, useEnv: bool, env: map<string, string>)
    requires !ConnectionUrl(db, host, user, pw, useEnv, env, "mssql").MissingHostOrDb?
    requires var p := Resolve(db, host, user, pw, useEnv, env); Unambiguous(Render(p.user), Render(p.pw), Render(p.host))
    ensures var p := Resolve(db, host, user, pw, useEnv, env);
      && ConnectionUrl(db, host, user, pw, useEnv, env, "mssql").Url?
      && ParseServerUrl(MssqlScheme, ConnectionUrl(db, host, user, pw, useEnv, env, "mssql").url, MssqlDriver)
         == Some(UrlParts(Render(p.user), Render(p.pw), p.host.value, p.db.value))
  {
    var p := Resolve(db, host, user, pw, useEnv, env);
    ServerUrlRoundTrip(MssqlScheme, MssqlDriver, Render(p.user), Render(p.pw), Render(p.host), Render(p.db));
  }

  /** The same for a postgres URL, which has no suffix. */
  lemma PostgresUrlRoundTrip(db: string, host: string, user: string, pw: string, useEnv: bool, env: map<string, string>)
    requires !ConnectionUrl(db, host, user, pw, useEnv, env, "postgres").MissingHostOrDb?
    requires var p := Resolve(db, host, user, pw, useEnv, env); Unambiguous(Render(p.user), Render(p.pw), Render(p.host))
    ensures var p := Resolve(db, host, user, pw, useEnv, env);
      && ConnectionUrl(db, host, user, pw, useEnv, env, "postgres").Url?
      && ParseServerUrl(PostgresScheme, ConnectionUrl(db, host, user, pw, useEnv, env, "postgres").url, "")
         == Some(UrlParts(Render(p.user), Render(p.pw), p.host.value, p.db.value))
  {
    var p := Resolve(db, host, user, pw, useEnv, env);
    ServerUrlRoundTrip(PostgresScheme, "", Render(p.user), Render(p.pw), Render(p.host), Render(p.db));
  }

  /** A sqlite URL is the database path after `sqlite:///`; the host is ignored
      but must still be given. */
  lemma SqliteUrlIsPath(db: string, host: string, user: string, pw: string, useEnv: bool, env: map<string, string>)
    ensures var r := ConnectionUrl(db, host, user, pw, useEnv, env, "sqlite");
      && (r.Url? <==> Truthy(Resolve(db, host, user, pw, useEnv, env).host) && Truthy(Resolve(db, host, user, pw, useEnv, env).db))
      && (r.Url? ==> DropPrefix(SqliteScheme, r.url) == Resolve(db, host, user, pw, useEnv, env).db)
  {
    var r := ConnectionUrl(db, host, user, pw, useEnv, env, "sqlite");
    if r.Url? {
      DropPrefixGlued(SqliteScheme, Resolve(db, host, user, pw, useEnv, env).db.value);
    }
  }

  /** With the environment in use, a named user variable that is not set ends up
      in an mssql URL as the text `None`, whereas an empty user name stays empty. */
  lemma UnsetUserRendersNone(db: string, host: string, user: string, pw: string, env: map<string, string>)
    requires user != "" && user !in env
    requires !ConnectionUrl(db, host, user, pw, true, env, "mssql").MissingHostOrDb?
    ensures MssqlScheme + "None:" <= ConnectionUrl(db, host, user, pw, true, env, "mssql").url
  {
  }
}
