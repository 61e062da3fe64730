/** How the answers of several profiles combine into the answer for a dialect or a driver. */
module ProfileSets {
  import opened Wrappers
  import opened Bytes
  import opened LexProfiles
  import opened Tokenizer
  import opened LexTheorems
  import opened Classifier
  import opened SourceText
  import opened ReadCertificate

  lemma {:induction false} ReadUnderEveryProfile(sql: Text, profiles: seq<LexProfile>)
    ensures ClassifyWithProfiles(sql, profiles) == Select <==>
            forall k | 0 <= k < |profiles| :: ClassifyWithProfile(sql, profiles[k]) == Select
  {
    if profiles != [] {
      ReadUnderEveryProfile(sql, profiles[1..]);
      assert forall k | 1 <= k < |profiles| :: profiles[k] == profiles[1..][k - 1];
    }
  }

  /** End to end: a dialect's answer is "select" for exactly the texts that all of its profiles certify. */
  lemma ReadForDialectExactly(sql: Text, dialect: Option<SqlDialect>)
    ensures ClassifyQueryKind(sql, dialect) == Select <==>
            forall k | 0 <= k < |LexProfilesFor(dialect)| :: Certified(LexProfilesFor(dialect)[k], sql)
  {
    CertifiedByAll(sql, LexProfilesFor(dialect));
  }

  /** The same for a driver's capabilities, with the profile of a declared syntax among them. */
  lemma ReadForCapabilitiesExactly(sql: Text, caps: Option<Capabilities>)
    ensures ClassifyForCapabilities(sql, caps) == Select <==>
            forall k | 0 <= k < |LexProfilesForCapabilities(caps)| ::
              Certified(LexProfilesForCapabilities(caps)[k], sql)
  {
    CertifiedByAll(sql, LexProfilesForCapabilities(caps));
  }

  lemma CertifiedByAll(sql: Text, profiles: seq<LexProfile>)
    ensures ClassifyWithProfiles(sql, profiles) == Select <==>
            forall k | 0 <= k < |profiles| :: Certified(profiles[k], sql)
  {
    ReadUnderEveryProfile(sql, profiles);
    forall k | 0 <= k < |profiles|
      ensures ClassifyWithProfile(sql, profiles[k]) == Select <==> Certified(profiles[k], sql)
    {
      SelectIffCertified(profiles[k], sql);
    }
  }

  /** Adding a profile keeps the kind of every non-read and turns no non-read into a read. */
  lemma {:induction false} AddedProfileOnlyTightens(sql: Text, profiles: seq<LexProfile>, p: LexProfile)
    ensures ClassifyWithProfiles(sql, profiles + [p]) ==
            if ClassifyWithProfiles(sql, profiles) == Select then ClassifyWithProfile(sql, p)
            else ClassifyWithProfiles(sql, profiles)
  {
    if profiles == [] {
      assert ([] + [p])[1..] == [];
    } else {
      AddedProfileOnlyTightens(sql, profiles[1..], p);
      assert (profiles + [p])[1..] == profiles[1..] + [p];
    }
  }

  /** A driver's declared syntax can only make its classifier stricter. */
  lemma DeclaredSyntaxOnlyTightens(sql: Text, dialect: Option<SqlDialect>, declared: LexProfile)
    ensures var kind := ClassifyQueryKind(sql, dialect);
            ClassifyForCapabilities(sql, Some(Capabilities(dialect, Some(declared)))) ==
            if kind == Select then ClassifyWithProfile(sql, declared) else kind
  {
    AddedProfileOnlyTightens(sql, LexProfilesFor(dialect), declared);
  }

  lemma DialectProfilesAreKnown(dialect: Option<SqlDialect>, k: nat)
    requires k < |LexProfilesFor(dialect)|
    ensures LexProfilesFor(dialect)[k] in ALL_PROFILES
  {
  }

  /** A read when the dialect is unknown is a read for every dialect. */
  lemma UnknownDialectIsStrictest(sql: Text, dialect: Option<SqlDialect>)
    requires ClassifyQueryKind(sql, None) == Select
    ensures ClassifyQueryKind(sql, dialect) == Select
  {
    ReadUnderEveryProfile(sql, ALL_PROFILES);
    var profiles := LexProfilesFor(dialect);
    forall k | 0 <= k < |profiles|
      ensures ClassifyWithProfile(sql, profiles[k]) == Select
    {
      DialectProfilesAreKnown(dialect, k);
    }
    ReadUnderEveryProfile(sql, profiles);
  }

  /** A text counts as several statements exactly when the code of some profile goes on after a semicolon. */
  lemma MultipleStatementsExactly(sql: Text, dialect: Option<SqlDialect>)
    ensures HasMultipleStatements(sql, dialect) <==>
            exists k | 0 <= k < |LexProfilesFor(dialect)| :: !Lex(LexProfilesFor(dialect)[k], sql).SingleStatement()
  {
    var profiles := LexProfilesFor(dialect);
    forall k | 0 <= k < |profiles|
      ensures HasTrailing(Strip(profiles[k], false, sql)) <==> !Lex(profiles[k], sql).SingleStatement()
    {
      TrailingInSource(profiles[k], sql);
    }
  }

  /** A read for a dialect is one statement for that dialect. */
  lemma ReadIsSingleStatement(sql: Text, dialect: Option<SqlDialect>)
    requires ClassifyQueryKind(sql, dialect) == Select
    ensures !HasMultipleStatements(sql, dialect)
  {
    var profiles := LexProfilesFor(dialect);
    ReadUnderEveryProfile(sql, profiles);
    forall k | 0 <= k < |profiles|
      ensures !HasTrailing(Strip(profiles[k], false, sql))
    {
      SelectNeedsNoCreate(Strip(profiles[k], false, sql), Strip(profiles[k], true, sql));
    }
  }

  /** Profiles that tokenize a statement alike give it the same kind. */
  lemma AgreeingProfilesClassifyAlike(p: LexProfile, q: LexProfile, s: Text)
    requires Agree(p, q, s)
    ensures ClassifyWithProfile(s, p) == ClassifyWithProfile(s, q)
  {
    SameTokenization(p, q, s, 0);
    assert Strip(p, false, s) == Strip(q, false, s);
    assert Strip(p, true, s) == Strip(q, true, s);
  }

  lemma {:induction false} AgreeingSetIsOneProfile(s: Text, profiles: seq<LexProfile>, p: LexProfile)
    requires profiles != [] && forall k | 0 <= k < |profiles| :: Agree(profiles[k], p, s)
    ensures ClassifyWithProfiles(s, profiles) == ClassifyWithProfile(s, p)
  {
    AgreeingProfilesClassifyAlike(profiles[0], p, s);
    if |profiles| > 1 {
      AgreeingSetIsOneProfile(s, profiles[1..], p);
    }
  }

  /** If all profiles of a dialect tokenize a text like `p`, then `p` decides. */
  lemma OneProfileDecides(s: Text, dialect: Option<SqlDialect>, p: LexProfile)
    requires LexProfilesFor(dialect) != []
    requires forall k | 0 <= k < |LexProfilesFor(dialect)| :: Agree(LexProfilesFor(dialect)[k], p, s)
    ensures ClassifyQueryKind(s, dialect) == ClassifyWithProfile(s, p)
  {
    AgreeingSetIsOneProfile(s, LexProfilesFor(dialect), p);
  }

  lemma MysqlSetAgrees(s: Text)
    requires BACKSLASH !in s
    ensures forall k | 0 <= k < |LexProfilesFor(Some(Mysql))| :: Agree(LexProfilesFor(Some(Mysql))[k], MYSQL, s)
  {
  }

  lemma PostgresSetAgrees(s: Text)
    requires BACKSLASH !in s && CR !in s && NoBlockComment(s)
    ensures forall k | 0 <= k < |LexProfilesFor(Some(Postgres))| ::
              Agree(LexProfilesFor(Some(Postgres))[k], POSTGRES, s)
  {
  }

  /** Without backslashes, one MySQL profile decides. */
  lemma MysqlNeedsOneProfile(s: Text)
    requires BACKSLASH !in s
    ensures ClassifyQueryKind(s, Some(Mysql)) == ClassifyWithProfile(s, MYSQL)
  {
    MysqlSetAgrees(s);
    OneProfileDecides(s, Some(Mysql), MYSQL);
  }

  /** Without backslashes, carriage returns and block comments, one Postgres profile decides. */
  lemma PostgresNeedsOneProfile(s: Text)
    requires BACKSLASH !in s && CR !in s && NoBlockComment(s)
    ensures ClassifyQueryKind(s, Some(Postgres)) == ClassifyWithProfile(s, POSTGRES)
  {
    PostgresSetAgrees(s);
    OneProfileDecides(s, Some(Postgres), POSTGRES);
  }
}
