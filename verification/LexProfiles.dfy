/** How each SQL dialect or server mode tokenizes what the classifier must skip. */
module LexProfiles {
  import opened Wrappers

  datatype LexProfile = LexProfile(
    backslashInSingle: bool,
    backslashInDouble: bool,
    backslashInBacktick: bool,
    hashComments: bool,
    dashCommentNeedsSpace: bool,
    lineCommentEndsAtCr: bool,
    nestedBlockComments: bool,
    executableComments: bool,
    tripleQuotes: bool,
    eStrings: bool,
    dollarQuotes: bool,
    bracketIdentifiers: bool)

  datatype SqlDialect = Generic | Postgres | Mysql | Mssql | Sqlite | Oracle

  const BASE_PROFILE := LexProfile(false, false, false, false, false, false, false, false, false, false, false, false)
  const LEGACY_STANDARD := BASE_PROFILE.(eStrings := true, dollarQuotes := true)
  const LEGACY_BACKSLASH := BASE_PROFILE.(backslashInSingle := true, eStrings := true, dollarQuotes := true)
  const POSTGRES := BASE_PROFILE.(nestedBlockComments := true, lineCommentEndsAtCr := true,
                                  eStrings := true, dollarQuotes := true)
  const POSTGRES_BACKSLASH := POSTGRES.(backslashInSingle := true)
  const MYSQL := BASE_PROFILE.(backslashInSingle := true, backslashInDouble := true, hashComments := true,
                               dashCommentNeedsSpace := true, executableComments := true)
  const MYSQL_ANSI_QUOTES := MYSQL.(backslashInDouble := false)
  const MYSQL_NO_BACKSLASH := MYSQL.(backslashInSingle := false, backslashInDouble := false)
  const MSSQL := BASE_PROFILE.(bracketIdentifiers := true, nestedBlockComments := true, lineCommentEndsAtCr := true)
  const SQLITE := BASE_PROFILE.(bracketIdentifiers := true)
  const TRIPLE_QUOTED_BACKSLASH := BASE_PROFILE.(backslashInSingle := true, backslashInDouble := true,
                                                 backslashInBacktick := true, hashComments := true,
                                                 tripleQuotes := true)

  const POSTGRES_PROFILES := [LEGACY_STANDARD, LEGACY_BACKSLASH, POSTGRES, POSTGRES_BACKSLASH]
  const MYSQL_PROFILES := [MYSQL, MYSQL_ANSI_QUOTES, MYSQL_NO_BACKSLASH]
  const MSSQL_PROFILES := [MSSQL, SQLITE]
  const SQLITE_PROFILES := [SQLITE]
  const ALL_PROFILES := [LEGACY_STANDARD, LEGACY_BACKSLASH, POSTGRES, POSTGRES_BACKSLASH, MYSQL,
                         MYSQL_ANSI_QUOTES, MYSQL_NO_BACKSLASH, MSSQL, SQLITE, TRIPLE_QUOTED_BACKSLASH]

  /** The profiles a statement for `dialect` is lexed under; no dedicated set means all of them. */
  function LexProfilesFor(dialect: Option<SqlDialect>): seq<LexProfile> {
    match dialect
    case Some(Postgres) => POSTGRES_PROFILES
    case Some(Mysql) => MYSQL_PROFILES
    case Some(Mssql) => MSSQL_PROFILES
    case Some(Sqlite) => SQLITE_PROFILES
    case _ => ALL_PROFILES
  }

  /** A driver's capabilities, as far as lexing goes: its dialect and the profile of its declared syntax. */
  datatype Capabilities = Capabilities(dialect: Option<SqlDialect>, declaredSyntax: Option<LexProfile>)

  function LexProfilesForCapabilities(caps: Option<Capabilities>): seq<LexProfile> {
    match caps
    case None => ALL_PROFILES
    case Some(c) =>
      match c.declaredSyntax
      case None => LexProfilesFor(c.dialect)
      case Some(p) => LexProfilesFor(c.dialect) + [p]
  }
}
