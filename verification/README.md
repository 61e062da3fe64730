# Tabularis core, modelled and proved in Dafny

Tabularis is a desktop SQL client whose MCP server lets AI agents run queries. Agents may read freely; everything else
waits for a human. This project models the code that this promise rests on, and some of the stateful code around it,
and proves properties of it for all inputs, all runs and all failures.

* **Lexer and read classifier** (`Bytes`, `LexProfiles`, `Tokenizer`, `LexScanner`, `LexTheorems`, `Utf8`, `TokenLaws`,
  `WordSearch`, `Classifier`, `SourceText`, `SourceSlices`, `PragmaSource`, `ReadCertificate`, `KindLaws`,
  `ProfileSets`, `DialectLaws`). A byte scanner with a 12-flag profile blanks every literal, comment and quoted
  identifier. It is proved to refine a tokenizer; the theorems about the tokenizer lead to a certificate that says, both
  ways, what an answer "select" stands for in terms of the source bytes, and which kind any other text has; and to a law
  over bytes that no dialect lets a second statement pass behind text that one of its servers reads as closed. Literals
  and delimited identifiers are those of sections 5.2 and 5.3 of ISO/IEC 9075-2.
* **SQL builders** (`SqlQuoting`, `SqlBuilders`, `SqlStatements`, `InsertFits`, `InsertReading`, `GeneratedWrites`,
  `TableRefs`, `DumpDialects`). What the clipboard import writes is what the lexer reads: a printer/parser round trip
  lifted to whole INSERT statements, with the exact condition for the profiles where it can fail; an independent reader
  gets every name and cell back from the text; and for which identifier quotes a table reference names one table.
* **Connection groups** (`GroupForest`, `GroupStore`). Subtree fixpoint, ancestor walk, bounded cycle check, move,
  delete and import merge over data that may have cycles, dangling parents and repeated ids.
* **Plugin secrets** (`CredentialCache`, `PluginSecrets`, `SecretUpdates`, `SecretImport`, `SecretRuns`). Snapshot,
  apply, persist and roll back over a keychain and a file that may fail at any call, with a cache beside them; the
  import that defers its writes; and what runs of all of these keep.
* **Smaller state machines**: audit-log rotation (`AuditLog`), tag import (`ConnectionTags`), the approval file queue
  (`ApprovalQueue`, `ApprovalProtocol`).

Code that works in place is a method with loop invariants or a class; each is tied to a function or predicate about
which the theorems are proved. Calls that may fail (keychain, file save, query execution) choose their result freely
and change nothing when they fail but a count of failures, so that contracts can say that an operation succeeds exactly
if no call fails. The order in which hash maps are iterated is left open.

`dafny verify dfyconfig.toml` verifies everything.

## What the proofs found

* Stripping is not idempotent for profiles with dollar quotes or with MySQL's dash rule; it is for all others.
* Doubling quotes is enough exactly for names and values that fit the profile: where backslashes escape, every
  backslash escapes a byte of the value other than the quote; where three quotes open another string, the value does
  not start with its own quote. So the default sets can misread a doubled-quote literal; a generated INSERT still never
  passes as a read.
* The comment at ai_activity.rs:1314-1318 says the mark byte 0x01 cannot occur otherwise. It can, exactly when a code
  byte of the source is 0x01; such a byte before `(` then counts as a quoted call, which only rejects more.
* The step bound of the cycle check never decides for a group that exists. It does for a group that does not, exactly on
  one dangling chain, and then rejects a harmless move; the one caller (application/connections.rs:1249-1254) returns
  before the check in that case, so such an input reaches the function only in isolation.
* The import applies the tag remap once per id. One hop ends at a tag that is gone exactly when the tag that held the
  name was itself imported later, for the last time, under a name that was taken; following the remap always ends at a
  tag.
* A rollback that fails while a connection is saved can leave the cache behind the keychain, because only a successful
  save drops what the cache knows (application/connections.rs:979-1006): for exactly the updates that were to change an
  account the cache knows.
* A table reference determines schema and table for exactly the non-empty quotes that, with a dot appended, are no
  shorter text repeated. So a quote may contain dots (`.a`, `a..`), but not be `.`, `..` or `a.a`.
* The poller removes the decision file before the pending file; in between, the decided request is listed again.
* persist_secret_changes has no caller; the application saves through its own journal. Both are modelled.

## Model

| member | source | states |
|---|---|---|
| LexScanner.StripWithProfile | src-tauri/src/ai_activity.rs:1080-1240 | the byte scanner ends for every byte string and all 12 profile flags, and its buffer is the blanking of the tokenization: one fill byte per non-code byte, source bytes elsewhere |
| LexScanner.ScanDelimitedWith | src-tauri/src/ai_activity.rs:1263-1295 | a delimited token ends at its first close byte that is neither doubled nor backslash-escaped, or at the end of input, and exactly that many fill bytes are pushed |
| LexScanner.ScanLineComment | src-tauri/src/ai_activity.rs:1093-1106 | a line comment ends before the first line break the profile accepts |
| LexScanner.ScanBlockComment | src-tauri/src/ai_activity.rs:1107-1140 | the depth counter of nested block comments never goes below zero, and the comment ends where the outermost one is closed |
| LexScanner.ScanDollarString | src-tauri/src/ai_activity.rs:1164-1180 | a dollar string ends after the next occurrence of its own tag |
| LexScanner.ScanTripleString | src-tauri/src/ai_activity.rs:1182-1208 | a triple-quoted string ends after the next unescaped triple quote |
| LexScanner.DollarQuoteTagEnd | src-tauri/src/ai_activity.rs:1331-1347 | a dollar tag is an empty or identifier-like run between two dollars |
| LexScanner.ExecutableCommentOpenerEnd | src-tauri/src/ai_activity.rs:1300-1312 | an executable comment opener is `/*!` or `/*M!` with its version digits |
| TokenLaws.LineCommentExactly | src-tauri/src/ai_activity.rs:1093-1106 | a line comment token ends exactly at the first byte that ends a line for the profile, or at the end of the text |
| TokenLaws.LineEndSurvives | src-tauri/src/ai_activity.rs:1093-1106 | lifted to the blanked text: the comment becomes blanks, the byte that ends its line stays, and what follows is scanned from there |
| TokenLaws.BlockCommentExactly | src-tauri/src/ai_activity.rs:1107-1140 | by an independent count of openers and closers: a block comment ends where the depth first drops to zero, or never |
| TokenLaws.FlatCommentEndsFirst | src-tauri/src/ai_activity.rs:1107-1140 | where comments do not nest, that is after the first `*/` |
| TokenLaws.DollarStringExactly | src-tauri/src/ai_activity.rs:1164-1180 | a dollar string ends after the first occurrence of its tag behind the opening one, or never |
| TokenLaws.DollarTagExactly | src-tauri/src/ai_activity.rs:1331-1347 | what a dollar tag is: two dollars with nothing or an identifier without dollars between them |
| TokenLaws.ExecutableOpenerExactly | src-tauri/src/ai_activity.rs:1300-1312 | what the opener of an executable comment is, with all digits that follow |
| TokenLaws.QuotedRunExactly | src-tauri/src/ai_activity.rs:1246-1295 | any quoted run ends after the first close byte that is in no pair: doublings and escapes are counted off from its start |
| TokenLaws.TripleStringExactly | src-tauri/src/ai_activity.rs:1182-1208 | a triple-quoted string ends after the first three quotes of its own that start at no escaped byte, or never |
| Bytes.CharacterClasses | src-tauri/src/ai_activity.rs:1320-1326 | which bytes are letters, digits, word bytes, identifier bytes, control bytes and white space; the two tests for white space differ in the vertical tab alone |
| Bytes.NamedBytes | src-tauri/src/ai_activity.rs:1080-1240 | which bytes the named constants stand for |
| Tokenizer.TokensPartition | src-tauri/src/ai_activity.rs:1080-1240 | the tokens concatenate back to the input, and none is empty |
| LexTheorems.StripStep | src-tauri/src/ai_activity.rs:1090-1239 | composition at token boundaries: blanking from a boundary is blanking one token and then the rest |
| LexTheorems.StripByte | src-tauri/src/ai_activity.rs:1080-1240 | length and offsets are kept: each byte is the source byte under a code token and the fill byte of the covering token otherwise |
| LexTheorems.StrippedIsClean | src-tauri/src/ai_activity.rs:1080-1240 | no quote byte and no `/*` survives; no `--` unless the MySQL dash rule is on; no `#` or `[` where the profile gives it a meaning |
| LexTheorems.IdempotentExactly | src-tauri/src/ai_activity.rs:889-984 | stripping twice is stripping once for every text if and only if the profile has neither dollar quotes nor the dash rule |
| LexTheorems.DollarsAreNotIdempotent | src-tauri/src/ai_activity.rs:1164-1180 | the text of six dollars shows it for every profile with dollar quotes |
| LexTheorems.DashesAreNotIdempotent | src-tauri/src/ai_activity.rs:1093-1106 | the text `--'` shows it for every profile with the dash rule |
| LexTheorems.SameTokenization | src-tauri/src/ai_activity.rs:1080-1295 | two profiles that differ only in rules about bytes a text does not have tokenize it alike |
| LexTheorems.BackslashFreeFamiliesCollapse | src-tauri/src/ai_activity.rs:906-957 | without backslashes the three MySQL profiles strip alike, and so do the two Postgres and the two legacy ones |
| LexTheorems.PostgresSetCollapses | src-tauri/src/ai_activity.rs:986-992 | without backslash, CR and `/*` all four profiles of the Postgres set strip alike |
| Utf8.BlankAllKeepsUtf8 | src-tauri/src/ai_activity.rs:1090-1239 | blanking any token list whose tokens are cut next to ASCII bytes keeps UTF-8 valid (section 4 of RFC 3629) |
| Utf8.StripKeepsUtf8 | src-tauri/src/ai_activity.rs:1090-1240 | for every profile, valid UTF-8 in gives valid UTF-8 out, so the fallback to an empty string is never taken |
| Utf8.ValidExactly | src-tauri/src/ai_activity.rs:1238-1240 | valid is exactly what encodes a list of Unicode scalar values (section 3 of RFC 3629) |
| WordSearch.KeywordIndex | src-tauri/src/ai_activity.rs:734-752 | returns the first whole-word occurrence, or none if there is none |
| WordSearch.HasWordExactly | src-tauri/src/ai_activity.rs:727-732 | a keyword is contained exactly when it occurs somewhere with no word byte on either side |
| WordSearch.WordsDoNotOverlap | src-tauri/src/ai_activity.rs:662-672 | two whole-word occurrences neither overlap nor touch |
| WordSearch.SliceKeepsWords | src-tauri/src/ai_activity.rs:662-672 | after an occurrence, the slice that is searched next has exactly the later occurrences of the whole text |
| WordSearch.CallsFunction | src-tauri/src/ai_activity.rs:662-672 | restarting on slices is sound and complete: true exactly when some whole-word occurrence in the full text is followed by optional whitespace and `(` |
| WordSearch.HasWordIffInWords | src-tauri/src/ai_activity.rs:638-660 | whole-word search agrees with membership in the word split that the locking clauses use |
| Classifier.HasTrailingStatements | src-tauri/src/ai_activity.rs:560-571 | true exactly when something other than whitespace follows a semicolon |
| Classifier.HasQuotedFunctionCall | src-tauri/src/ai_activity.rs:1357-1375 | true exactly when a run of mark bytes is followed by optional whitespace and `(` |
| Classifier.FindClosingParen | src-tauri/src/ai_activity.rs:783-805 | finds the first place where the parentheses of the option list balance; up to there, or to the end if there is none, the depth is at least one |
| Classifier.ClosingParenBalances | src-tauri/src/ai_activity.rs:783-805 | the same for the scan from any position and depth |
| SourceText.WordInSource | src-tauri/src/ai_activity.rs:727-752 | the blanked text has a word exactly when it stands somewhere, as a whole word and in any case, in code bytes of the source |
| SourceText.CallInSource | src-tauri/src/ai_activity.rs:662-672 | it has a call exactly when name and parenthesis are code bytes of the source with only blanks, comments or literals between |
| SourceText.TrailingInSource | src-tauri/src/ai_activity.rs:560-571 | a second statement is found exactly when a code byte other than whitespace follows a code semicolon |
| SourceText.IdentifierCallInSource | src-tauri/src/ai_activity.rs:1357-1375 | a quoted call is found exactly when a quoted identifier (or a stray mark byte) is followed by `(` |
| SourceText.MarksAreIdentifiersExactly | src-tauri/src/ai_activity.rs:1314-1318 | every mark byte stands for a quoted identifier if and only if no code byte of the source is 0x01 |
| SourceText.StrayMarkIsACall | src-tauri/src/ai_activity.rs:1314-1318 | the text 0x01 `(` is taken for a quoted call by every profile |
| SourceSlices.SliceHasWord | src-tauri/src/ai_activity.rs:765-806 | a slice between clean cuts has a word exactly when the code of the source has it there |
| SourceSlices.RestHasCall | src-tauri/src/ai_activity.rs:662-672 | the rest of the text from a clean cut on has a call exactly when the code has one there |
| SourceSlices.WordsHaveRow | src-tauri/src/ai_activity.rs:638-652 | the word split has given words side by side exactly when the code has them one after the other with no word between |
| PragmaSource.PragmaAnswer | src-tauri/src/ai_activity.rs:706-725 | a PRAGMA is a read exactly when its code assigns nothing, has a name after an optional qualifier, names no action, and takes an argument only if it just reports |
| PragmaSource.PragmaKind | src-tauri/src/ai_activity.rs:706-725 | and which kind a PRAGMA has that is no read: unknown if it assigns nothing and has no name, else a write |
| ReadCertificate.LockingAnswer | src-tauri/src/ai_activity.rs:638-652 | a locking clause is found exactly when FOR is directly followed by one of four words, or LOCK IN SHARE MODE stands in the code |
| ReadCertificate.QueryAnswer | src-tauri/src/ai_activity.rs:632-660 | a query is a read exactly when its code has no INTO, no locking clause and no call of a listed function |
| ReadCertificate.CteAnswer | src-tauri/src/ai_activity.rs:580-598 | a CTE is a read exactly when its code has none of these and none of the ten modifying words |
| ReadCertificate.WrappedAnswer | src-tauri/src/ai_activity.rs:823-836 | what an executing EXPLAIN wraps is classified by its own code, after peeling |
| ReadCertificate.ExplainAnswer | src-tauri/src/ai_activity.rs:765-836 | an EXPLAIN is a read exactly when ANALYZE in its options (up to the balanced parenthesis, or to the first word that can start a statement) implies that the wrapped statement reads, and options that never end do not name ANALYZE |
| ReadCertificate.SelectNeedsNoCreate | src-tauri/src/ai_activity.rs:426-489 | the guards before the keyword chain only ever take reads away |
| ReadCertificate.SelectIffCertified | src-tauri/src/ai_activity.rs:426-490 | the read certificate, both ways and over source bytes: a profile answers "select" if and only if the code is one statement, no quoted identifier is called, and the statement after opening parentheses is a query, CTE, SHOW, PRAGMA or EXPLAIN that reads as above |
| KindLaws.CompoundExactly | src-tauri/src/ai_activity.rs:492-558 | which texts are the CREATE of a routine with a body: a routine word before any BEGIN, END at the end, and no END before it that is followed by a semicolon and another statement |
| KindLaws.ExplainKindIs | src-tauri/src/ai_activity.rs:765-836 | which kind an EXPLAIN has: that of what it runs if ANALYZE is among its options, unknown if these never end, else a read |
| KindLaws.StatementKindIs | src-tauri/src/ai_activity.rs:444-488 | which kind every statement has, by its first code keyword and, for queries, CTEs, PRAGMAs and EXPLAINs, by its other code |
| KindLaws.KindExactly | src-tauri/src/ai_activity.rs:426-490 | not only reads: the kind that a profile gives to any text, in terms of the code bytes of the source |
| KindLaws.ListsAreThese | src-tauri/src/ai_activity.rs:580-598 | the words that modify data, change the schema, name routines, lock rows and may follow EXPLAIN, spelled out |
| KindLaws.PragmaListsAreThese | src-tauri/src/ai_activity.rs:677-704 | the PRAGMAs that act and those that report, spelled out |
| KindLaws.FunctionsAreThese | src-tauri/src/ai_activity.rs:600-625 | the functions with side effects, spelled out |
| DialectLaws.ProfileSetsExactly | src-tauri/src/ai_activity.rs:986-1033 | the profiles of a dialect are exactly the ways in which its servers may read a text, stated rule by rule; an unknown dialect has those of all |
| DialectLaws.CapabilityProfilesExactly | src-tauri/src/ai_activity.rs:1036-1049 | the same for the capabilities of a driver, a declared syntax among them |
| DialectLaws.DecoyPasses | src-tauri/src/ai_activity.rs:889-984 | every lexical rule, written as text in both ways: what a profile reads as closed it scans to its end and then goes on in code, whatever other profiles make of it |
| DialectLaws.SecondStatementIsSeen | src-tauri/src/ai_activity.rs:390-423 | so for no dialect is a text a read if some server of the dialect may read it as a start of a statement, any number of such closed texts, and a second statement; it counts as several statements |
| DialectLaws.SecondStatementIsSeenFor | src-tauri/src/ai_activity.rs:398-414 | the same for the capabilities of a driver |
| DialectLaws.CapabilitiesAreDialects | src-tauri/src/ai_activity.rs:1036-1049 | no capabilities are an unknown dialect, and no declared syntax is the declared dialect |
| DialectLaws.HashOnMysql | src-tauri/src/ai_activity.rs:937-957 | byte for byte: a statement behind `#`, any line and a line feed is seen on MySQL |
| DialectLaws.HashElsewhere | src-tauri/src/ai_activity.rs:906-975 | and on Postgres, SQL Server and SQLite one on the same line |
| DialectLaws.DashesOnMysql | src-tauri/src/ai_activity.rs:937-957 | two dashes before a letter or digit hide nothing on MySQL |
| DialectLaws.ExecutableOnMysql | src-tauri/src/ai_activity.rs:937-957 | nor does the opener of an executable comment |
| DialectLaws.ReturnEndsComment | src-tauri/src/ai_activity.rs:921-967 | on Postgres and SQL Server a statement behind a line comment and a carriage return is seen |
| DialectLaws.CommentsNest | src-tauri/src/ai_activity.rs:921-975 | and one behind nested comments, whether the inner closer ends the comment or not |
| DialectLaws.BackslashBothWays | src-tauri/src/ai_activity.rs:906-957 | and on Postgres and MySQL one behind a string with a backslash before a quote, whether it escapes the quote or not |
| DialectLaws.BracketsHide | src-tauri/src/ai_activity.rs:960-975 | and on SQLite and SQL Server one behind a bracketed name, whatever quotes and comments it holds |
| ProfileSets.ReadUnderEveryProfile | src-tauri/src/ai_activity.rs:406-414 | the combined answer is "select" exactly when every profile answers so |
| ProfileSets.ReadForDialectExactly | src-tauri/src/ai_activity.rs:390-414 | end to end: a dialect answers "select" exactly for the texts that all of its profiles certify |
| ProfileSets.ReadForCapabilitiesExactly | src-tauri/src/ai_activity.rs:398-414 | the same for the capabilities of a driver, declared syntax included |
| ProfileSets.AddedProfileOnlyTightens | src-tauri/src/ai_activity.rs:406-414 | an added profile turns no non-read into a read and leaves the kind of a non-read as it was |
| ProfileSets.DeclaredSyntaxOnlyTightens | src-tauri/src/ai_activity.rs:1036-1049 | a declared syntax, as any profile, can only make the classifier of its dialect stricter |
| ProfileSets.UnknownDialectIsStrictest | src-tauri/src/ai_activity.rs:986-1033 | a read when the dialect is unknown is a read for every dialect |
| ProfileSets.MultipleStatementsExactly | src-tauri/src/ai_activity.rs:416-423 | a text counts as several statements exactly when, for some profile, a code byte other than white space follows a code semicolon |
| ProfileSets.ReadIsSingleStatement | src-tauri/src/ai_activity.rs:416-423 | a read for a dialect is not multiple statements for that dialect |
| ProfileSets.AgreeingProfilesClassifyAlike | src-tauri/src/ai_activity.rs:426-490 | profiles that tokenize a text alike give it the same kind |
| ProfileSets.MysqlNeedsOneProfile | src-tauri/src/ai_activity.rs:937-957 | without backslashes one MySQL profile decides the MySQL answer |
| ProfileSets.PostgresNeedsOneProfile | src-tauri/src/ai_activity.rs:986-991 | without backslash, CR and `/*` one Postgres profile decides the Postgres answer |
| SqlQuoting.UnquoteRoundTrip | src-tauri/src/clipboard_import.rs:159-161 | undoubling a quoted name gives the name back, for a quote of any length |
| SqlQuoting.QuotedIsOneToken | src-tauri/src/clipboard_import.rs:159-161 | a quoted name or literal that no further quote follows is consumed as one token, up to its last byte, by every profile it fits |
| SqlQuoting.IdentifierIsOneToken | src-tauri/src/ai_activity.rs:986-994 | every profile of the Postgres, SQLite, SQL Server (`"`) and MySQL (backtick) sets consumes a name in the dialect's identifier quotes as one token, whatever its bytes |
| SqlQuoting.ClosedRunIsDoubled | src-tauri/src/ai_activity.rs:1263-1295 | the converse: what the scan consumes up to a closing quote is the doubling of exactly one name |
| SqlQuoting.ScanBodyExactly | src-tauri/src/ai_activity.rs:1263-1295 | with backslash escapes the scan stops at the closing quote if and only if every backslash of the value escapes a byte of the value other than the quote |
| SqlQuoting.QuotedIsOneTokenExactly | src-tauri/src/clipboard_import.rs:40-46 | with more text after it, it is one token of exactly the profiles it fits: no backslash of it escapes beyond it where backslashes escape, and it does not start with its own quote where three quotes open another string |
| SqlQuoting.QuoteInjective | src-tauri/src/clipboard_import.rs:159-161 | different names are quoted differently, by any quote |
| SqlQuoting.NoLoneQuoteAtEnd | src-tauri/src/clipboard_import.rs:159-161 | no doubled name is another doubled name with a single quote after it |
| TableRefs.TableRefInjectiveExactly | src-tauri/src/clipboard_import.rs:163-172 | a table reference determines schema and table for exactly the non-empty identifier quotes that, with a dot appended, are no shorter text repeated |
| TableRefs.TableRefInjective | src-tauri/src/clipboard_import.rs:163-172 | two references by such a quote are equal only for the same schema and table, whatever bytes, dots included, quote and names have |
| TableRefs.LongerNameMeansDots | src-tauri/src/clipboard_import.rs:159-172 | a doubled name that starts like a shorter doubled schema and the separator after it needs a quote of dots only |
| TableRefs.OtherQuotesAreAmbiguous | src-tauri/src/clipboard_import.rs:163-172 | by every other quote, two tables of non-empty schemas share a reference (by the empty quote one of them is unqualified) |
| TableRefs.RepeatsExactly | src-tauri/src/clipboard_import.rs:163-172 | whether a text repeats a block can be checked on its rotations |
| DumpDialects.DumpTableRefInjective | src-tauri/src/dump_utils.rs:87-105 | two references of a dump are equal exactly for the same table in the same qualifying schema |
| DumpDialects.DumpTableRefExactly | src-tauri/src/dump_utils.rs:36-105 | what a reference is for the declared capabilities: the quoted name, behind the quoted schema and a dot if there is one and the driver qualifies; double quotes if it declares none |
| DumpDialects.DumpRefersUniquelyExactly | src-tauri/src/dump_utils.rs:36-105 | for the declared capabilities of a driver: its dumps refer to tables uniquely if and only if they do not qualify, or the quote with a dot repeats no block |
| SqlBuilders.TokenizesAsIntended | src-tauri/src/clipboard_import.rs:314-324 | text built from bare and quoted pieces is read back as exactly those pieces |
| SqlBuilders.TokenizesAsIntendedExactly | src-tauri/src/clipboard_import.rs:314-324 | this holds if and only if every quoted piece fits the profile |
| SqlBuilders.StripsToSkeleton | src-tauri/src/clipboard_import.rs:314-324 | stripping such text leaves its bare pieces and blanks: no byte of a name or value |
| SqlStatements.RenderInsert | src-tauri/src/clipboard_import.rs:132-151 | the INSERT text is the rendering of its intended pieces, for all names, rows, NULLs and boolean columns |
| SqlStatements.InsertTokenizesAsIntended | src-tauri/src/clipboard_import.rs:288-324 | every name and value of a generated INSERT is one quoted token and nothing else is |
| SqlStatements.InsertTokenizesAsIntendedExactly | src-tauri/src/clipboard_import.rs:288-324 | every profile reads it so if and only if all its pieces fit |
| InsertFits.InsertReadAsMeantExactly | src-tauri/src/clipboard_import.rs:288-324 | the same in terms of the request: every name and every value written as a literal fits the profile, triple quotes and backslash escapes included |
| SqlStatements.InsertIsOneWriteWhateverTheValues | src-tauri/src/clipboard_import.rs:288-324 | for every schema, table, column name and value, a profile that knows only doubling strips the statement to its skeleton and classifies it as one write |
| SqlStatements.InsertIsOneWrite | src-tauri/src/clipboard_import.rs:288-324 | the same for any profile that the names and values fit |
| SqlStatements.StandardProfilesOnlyDouble | src-tauri/src/ai_activity.rs:906-975 | which built-in profiles know only doubling |
| SqlStatements.InsertIsOneWriteForDialect | src-tauri/src/clipboard_import.rs:288-324 | for SQLite and SQL Server every generated INSERT is a write and never multiple statements |
| SqlStatements.BackslashValueIsMisread | src-tauri/src/clipboard_import.rs:40-46 | the law fails where backslashes escape: a value of one backslash is misread |
| GeneratedWrites.InsertIsNeverRead | src-tauri/src/clipboard_import.rs:319-324 | under every profile, even one that misreads a value, a generated INSERT is a write, or unknown exactly when more seems to follow |
| GeneratedWrites.InsertNeedsApproval | src-tauri/src/ai_activity.rs:406-414 | so no dialect and no declared syntax classifies it as a read |
| SqlStatements.BatchesPartitionRows | src-tauri/src/clipboard_import.rs:311-335 | every row is in exactly one batch, in order; every batch but the last has exactly 500 rows, and that one 1 to 500 |
| SqlStatements.InsertRows | src-tauri/src/clipboard_import.rs:278-347 | executes one INSERT per batch, in order, and succeeds exactly if no execution fails; a failure leaves executed exactly the batches of the first rows, and reports their number |
| InsertReading.InsertReadsBack | src-tauri/src/clipboard_import.rs:132-151 | an independent reader of the tokens gets back the request for every profile it fits: schema, table, columns and every cell in order; NULL exactly for no value and the empty one, TRUE/FALSE or 1/0 exactly for what spells a boolean in a boolean column, else the bytes of the cell |
| InsertReading.InsertReadsBackWhateverTheValues | src-tauri/src/clipboard_import.rs:132-151 | and for profiles that know only doubling, whatever the names and values |
| InsertReading.BatchesReadBack | src-tauri/src/clipboard_import.rs:311-335 | and so does it for every statement of a large import |
| GroupForest.CollectGroupSubtree | src-tauri/src/models.rs:17-32 | ends on any data, cycles included, with the least set that contains the root and is closed under children |
| GroupForest.SubtreeIsDescendants | src-tauri/src/models.rs:11-32 | with unique ids that set is everything that walks up to the root |
| GroupForest.CollectGroupAncestors | src-tauri/src/models.rs:38-57 | ends on any data with exactly the union of the known parts of the chains, although a walk stops at an id already kept |
| GroupForest.SubtreeAncestorDuality | src-tauri/src/models.rs:11-57 | with unique ids: known r is an ancestor of l exactly when known l is in the subtree of r |
| GroupForest.RejectIfWouldCreateCycle | src-tauri/src/commands.rs:1840-1878 | each answer says what the walk up from the new parent does within the step bound, and the two cycle answers exclude each other |
| GroupForest.VerdictIsExact | src-tauri/src/commands.rs:1840-1878 | accepted exactly when the walk ends within the bound without meeting the group; after either cycle answer it never ends so, at no step |
| GroupForest.ReasonIsExact | src-tauri/src/commands.rs:1850-1875 | and of the two cycle answers it is the own descendant exactly if the walk ever meets the group |
| GroupForest.FirstParentIsFirst | src-tauri/src/commands.rs:1865-1870 | with repeated ids, the check goes by the first record of an id |
| GroupForest.LastParentIsLast | src-tauri/src/models.rs:38-46 | and the ancestor walk by the last |
| GroupForest.BoundNeverDecides | src-tauri/src/commands.rs:1850-1875 | for a group that exists the step bound is never the reason (pigeonhole) |
| GroupForest.EndsWithinBound | src-tauri/src/commands.rs:1850-1875 | and a walk that ends at all ends within it |
| GroupForest.BoundDecidesExactly | src-tauri/src/commands.rs:1850-1875 | the bound decides if and only if the groups are one chain from the new parent up whose last parent is no group, and the moved group is not on it; the move is then harmless |
| GroupForest.LoneDanglingGroup | src-tauri/src/commands.rs:1850-1875 | one group whose parent is gone is such a chain |
| GroupForest.MoveKeepsForestExactly | src-tauri/src/commands.rs:1835-1878 | in a forest a move keeps it one exactly when the walk from the new parent ends without the group |
| GroupForest.AcceptedMoveKeepsForest | src-tauri/src/commands.rs:1835-1878 | an accepted move keeps an acyclic forest acyclic |
| GroupForest.RefusedMoveWouldCycle | src-tauri/src/commands.rs:1835-1878 | a move into the own subtree would create a walk that never ends |
| GroupForest.RefusedExactlyIntoSubtree | src-tauri/src/commands.rs:1835-1878 | in a forest of unique ids the check refuses a known new parent exactly when it is in the subtree that deleting the group would delete |
| GroupStore.GroupList.MergeGroups | src-tauri/src/commands.rs:171-192 | the list becomes the merge of old and incoming records with parents repaired |
| GroupStore.MergeKeepsOrder | src-tauri/src/commands.rs:171-185 | existing groups keep their positions, new ids follow in first-seen order |
| GroupStore.MergeIsMerge | src-tauri/src/commands.rs:171-185 | each record is the last incoming one of its id, or the existing one |
| GroupStore.LastIncomingWins | src-tauri/src/commands.rs:163-192 | after the repair, spelled out: each record has all fields but the parent of the last incoming one of its id or of the untouched old one, and its parent too if that names a group of the result, else none |
| GroupStore.MergedParentsResolve | src-tauri/src/commands.rs:186-191 | every parent names a group of the result |
| GroupStore.MergeIdempotent | src-tauri/src/commands.rs:171-192 | merging the same list again changes nothing |
| GroupStore.GroupList.MoveGroup | src-tauri/src/application/connections.rs:1243-1264 | the list changes only in the parent of the moved group, and only if group and parent exist and the check accepts; which of these fails decides the error, and the reason in it |
| GroupStore.MoveIsExact | src-tauri/src/application/connections.rs:1243-1264 | in an acyclic list a move of a group that exists is accepted by the check if and only if the result is acyclic |
| GroupStore.SetParentUpdatesMap | src-tauri/src/application/connections.rs:1256-1261 | setting the parent of the first record of an id changes the parent map at that id alone |
| GroupStore.DeletingSubtreeOrphansNothing | src-tauri/src/application/connections.rs:1266-1277 | deleting a subtree leaves no group whose parent is gone |
| GroupStore.WithoutConcat | src-tauri/src/application/connections.rs:1266-1277 | and keeps the others in their order: deletion from two lists in a row is deletion from each |
| GroupStore.WithoutOne | src-tauri/src/application/connections.rs:1266-1277 | with the single group kept exactly if its id is not deleted |
| CredentialCache.Cache.GetPluginSecretCached | src-tauri/src/credential_cache.rs:104-130 | answers what the cache knows, else what the keychain holds, which it then remembers, but never an error; it fails exactly if the keychain call fails; a coherent cache stays so and answers what the keychain holds |
| CredentialCache.AccountNameInjective | src-tauri/src/keychain_utils.rs:180-182 | different secrets have different account names if ids and keys have no colon |
| CredentialCache.AccountNameParts | src-tauri/src/keychain_utils.rs:180-182 | the name can be taken apart again: connection before the first colon, key after the last one, driver in between |
| CredentialCache.CacheKeyInjective | src-tauri/src/credential_cache.rs:42-44 | and different cache keys if ids and keys have no NUL |
| CredentialCache.CacheKeyParts | src-tauri/src/credential_cache.rs:42-44 | and so can the cache key, at its first and last NUL |
| PluginSecrets.NextSecretKeys | src-tauri/src/plugin_secrets.rs:52-73 | refuses exactly the invalid changes; else lists, sorted and once each, the keys set by the changes and the untouched existing ones |
| PluginSecrets.ValidChangeExactly | src-tauri/src/plugin_secrets.rs:18-50 | what a valid change is: a key of 1 to 64 letters, digits, underscores, dashes and dots, and a value of at most one mebibyte |
| PluginSecrets.SortedExactly | src-tauri/src/plugin_secrets.rs:60-73 | sorted is in order pairwise |
| PluginSecrets.BeforeExactly | src-tauri/src/plugin_secrets.rs:60-73 | and the order is that of the first byte that differs, a prefix first |
| PluginSecrets.ApplyChanges | src-tauri/src/plugin_secrets.rs:256-293 | on success every account holds what the update wants; on the first failure every account holds its old or its wanted value; the cache stays coherent |
| PluginSecrets.RollBack | src-tauri/src/plugin_secrets.rs:299-336 | goes on past failures: no more accounts are left than calls failed, and if none failed the keychain is as before |
| PluginSecrets.PersistSecretChanges | src-tauri/src/plugin_secrets.rs:217-336 | four outcomes: updated (exactly the wanted entries, file saved; exactly if the changes are valid and no call fails), refused (nothing changed), rolled back (keychain and file as before; exactly one call failed), rollback failed (each account old or wanted, file as before; at least two calls failed); the cache is coherent after each |
| PluginSecrets.UpdateIsExact | src-tauri/src/plugin_secrets.rs:52-73 | a successful update leaves stored exactly what it lists, also when the driver changes |
| SecretUpdates.SecretWrites.Write | src-tauri/src/application/connection_secret_writes.rs:7-28 | a write that succeeds is journaled with what it replaced: undoing the journal always leads back to the same entries |
| SecretUpdates.SecretWrites.Rollback | src-tauri/src/application/connection_secret_writes.rs:34-44 | undoes the journal from its end, past failures; if none failed, the entries are those before the first write, and else no more accounts are left than calls failed |
| SecretUpdates.PersistPluginSecrets | src-tauri/src/application/connections.rs:693-718 | old secrets out, changes in, all journaled; on success every account holds what it should and the keys to list are sorted; invalid changes touch nothing |
| SecretUpdates.SaveWithSecrets | src-tauri/src/application/connections.rs:823-865 | all or nothing over keychain and file: updated exactly if the changes are valid, the credentials are stored and no call fails; refused exactly if the changes are invalid; else rolled back to exactly the old state, or, only if another call fails, left with each account at its old or its wanted value, and at the old one but for as many accounts as further calls failed |
| SecretUpdates.UpdateConnection | src-tauri/src/application/connections.rs:925-1008 | the same for an edited connection, of which the cache forgets everything once the save succeeded |
| SecretUpdates.SaveConnection | src-tauri/src/application/connections.rs:811-865 | the same for a new connection |
| SecretUpdates.DeletePluginSecrets | src-tauri/src/application/connections.rs:749-756 | deletes every listed secret, going on past failures, and no other entry; no more are left than calls failed |
| SecretUpdates.DeleteConnection | src-tauri/src/application/connections.rs:1010-1042 | nothing if the save fails; else listing, listed secrets and cached entries of the connection go, but for no more secrets than deletes failed |
| SecretUpdates.DeleteIsExact | src-tauri/src/application/connections.rs:1010-1042 | after a deletion stored is listed if and only if none of its deletes failed for good |
| SecretUpdates.CacheSurvivesFailedRollbackExactly | src-tauri/src/application/connections.rs:979-1006 | a condition on the request: however its rollback fails, an update leaves the cache up to date if and only if it was to change no account that the cache knows |
| SecretUpdates.FailedRollbackCanStaleTheCache | src-tauri/src/application/connections.rs:979-1006 | an update after whose failed rollback it is not |
| SecretRuns.Application.Update | src-tauri/src/application/connections.rs:925-1008 | the save of an edited connection is a step of a run, with any outcome, and succeeds if it can and no call fails |
| SecretRuns.Application.Create | src-tauri/src/application/connections.rs:811-865 | so is the save of a new connection, and so it does |
| SecretRuns.Application.ReadSecret | src-tauri/src/credential_cache.rs:104-130 | so is a read through the cache, even a stale one |
| SecretRuns.Application.Remove | src-tauri/src/application/connections.rs:1010-1042 | so is a deletion |
| SecretRuns.Application.ImportAll | src-tauri/src/application/connection_files.rs:492-546 | so is an import |
| SecretRuns.RunKeepsSecretsExact | src-tauri/src/application/connections.rs:811-1042 | over every run of saves, reads, deletions and imports, whatever calls fail: the stored entries are exactly the listed ones while no rollback, deletion or imported write fails for good, and no cached entry contradicts the keychain while no failed rollback was of an update of a cached account |
| SecretRuns.ReadsAreCurrent | src-tauri/src/credential_cache.rs:104-130 | so a successful read of such a run answers what the keychain holds, and finds a secret exactly if one is listed |
| SecretRuns.SavedStays | src-tauri/src/application/connections.rs:811-1042 | what a save stored is what the keychain holds until its connection is saved, deleted or imported again |
| SecretRuns.SavedIsRead | src-tauri/src/credential_cache.rs:104-130 | and what a read of it answers: end to end, from the form of a connection to its use |
| SecretImport.PlanImportedSecrets | src-tauri/src/plugin_secrets.rs:410-469 | no declared or imported key stays in `extra`; the keys are sorted and exactly those to list; the writes are exactly the deletes of dropped secrets, in order, and then the accepted values by key |
| SecretImport.CommitSecretWrites | src-tauri/src/plugin_secrets.rs:476-531 | a failed save changes nothing; after a save every write is tried, exactly the failing calls are skipped, and the cache stays coherent |
| SecretImport.PlanIsOneImport | src-tauri/src/plugin_secrets.rs:410-469 | the planned writes of one connection, all made, give each account what the import promises and leave all others alone |
| SecretImport.FailuresStayLocal | src-tauri/src/plugin_secrets.rs:484-528 | an account none of whose writes failed holds what it would if no write had failed |
| SecretImport.ImportConnections | src-tauri/src/application/connection_files.rs:492-546 | plans for a whole payload, then one save, then all writes: the listings are those of a full import, and so is every account but those of failed writes, no more than calls failed |
| SecretImport.ImportIsExact | src-tauri/src/application/connection_files.rs:492-546 | a full import keeps stored equal to listed for any payload, even with repeated ids |
| SecretImport.OneImportExactly | src-tauri/src/plugin_secrets.rs:410-469 | what becomes of each account: a valid imported value is stored and listed, a valid key of the same driver stays, one of another driver is deleted, and nothing else changes |
| SecretImport.ImportedIsStored | src-tauri/src/application/connection_files.rs:492-546 | so every valid secret of a payload is stored and listed, unless its connection is imported again later |
| AuditLog.LogDirectory.RotateIfNeeded | src-tauri/src/ai_activity.rs:131-156 | rotates exactly when the limit is positive and reached; no rename finds a file in its way; every file moves one place |
| AuditLog.LogDirectory.AppendAndRotate | src-tauri/src/ai_activity.rs:158-168 | append, then rotate |
| AuditLog.LogDirectory.ReadAllEvents | src-tauri/src/ai_activity.rs:174-211 | reads the archives from the oldest on and the active file last |
| AuditLog.OnlyOldestArchiveIsLost | src-tauri/src/ai_activity.rs:131-168 | from any state and with any limit, old content plus the event is what is lost plus the new content, and only the fifth archive is ever lost |
| AuditLog.LogIsHistorySuffix | src-tauri/src/ai_activity.rs:158-211 | whatever the limits were, the log is the end of the history, without gaps |
| AuditLog.RetainedExactly | src-tauri/src/ai_activity.rs:158-211 | after k appends with limit m >= 1 exactly the last min(k/m, 5)*m + k mod m events are read back, in order |
| AuditLog.UnlimitedKeepsEverything | src-tauri/src/ai_activity.rs:131-134 | with limit zero nothing is ever lost |
| ConnectionTags.TagList.CreateTag | src-tauri/src/connection_tags.rs:39-60 | creates exactly when name and color are valid and the name is new up to ASCII case; uniqueness is kept |
| ConnectionTags.TagList.UpdateTag | src-tauri/src/connection_tags.rs:62-85 | changes one tag exactly when the input is valid, no other tag has the name and the id exists; uniqueness is kept |
| ConnectionTags.ValidTagExactly | src-tauri/src/connection_tags.rs:9-35 | what valid means: 1 to 32 characters in the trimmed name, and a hash with 3, 6 or 8 hex digits |
| ConnectionTags.TrimExactly | src-tauri/src/connection_tags.rs:22-35 | and trimmed: all but the white space around it |
| ConnectionTags.SameNameExactly | src-tauri/src/connection_tags.rs:39-60 | two names are the same if they differ in nothing but the case of ASCII letters |
| ConnectionTags.TagList.MergeImportedTags | src-tauri/src/connection_tags.rs:142-168 | list and remap become those of the merge |
| ConnectionTags.MergeKeepsUnique | src-tauri/src/connection_tags.rs:133-168 | any imported list keeps ids unique and names unique up to ASCII case |
| ConnectionTags.RemapResolves | src-tauri/src/connection_tags.rs:142-168 | following the remap from any remapped id, or from its target, reaches a tag that is still there in at most as many hops as tags were imported |
| ConnectionTags.ImportedResolves | src-tauri/src/connection_tags.rs:142-168 | no imported tag is lost: its id is in the list or leads to one that is |
| ConnectionTags.ExistingResolves | src-tauri/src/connection_tags.rs:142-168 | nor is an existing one |
| ConnectionTags.OneHopIsNotEnough | src-tauri/src/application/connection_files.rs:808-823 | one hop, as the import applies the remap, can end at a tag that is gone |
| ConnectionTags.PresentExactly | src-tauri/src/connection_tags.rs:142-168 | an id is in the list after any import if and only if its last import found its name free, or it was never imported and was in the old list |
| ConnectionTags.MergedExactly | src-tauri/src/connection_tags.rs:142-168 | and with all its fields: the list holds exactly the tags whose last import found their name free, as imported, and the old ones that were never imported, as they were |
| ConnectionTags.MergedInOrder | src-tauri/src/connection_tags.rs:142-168 | tags stay in the order in which they came into the list: the old ones first, new ones as they were imported |
| ConnectionTags.RemapIsLastHolder | src-tauri/src/connection_tags.rs:142-168 | an id is remapped exactly if some import of it found its name taken, and to the tag that held the name at the last such import |
| ConnectionTags.OneHopEnoughExactly | src-tauri/src/application/connection_files.rs:808-823 | for any import: one hop ends at a tag of the list, unless the tag that held the name was itself imported later, for the last time, under a name that was taken |
| ApprovalQueue.ApprovalDirectory.ListPending | src-tauri/src/ai_approval.rs:108-137 | lists each request with a pending and no decision file once, ordered by creation time |
| ApprovalQueue.ApprovalDirectory.CleanupExpired | src-tauri/src/ai_approval.rs:215-242 | removes exactly the files older than the limit and counts them |
| ApprovalQueue.RemoveExpired | src-tauri/src/ai_approval.rs:222-240 | the same for one kind of file |
| ApprovalProtocol.StepKeeps | src-tauri/src/ai_approval.rs:184-211 | what every step of pollers, host, clock and cleanup keeps |
| ApprovalProtocol.DecidedOnlyByHost | src-tauri/src/ai_approval.rs:184-211 | over every interleaving, a poller returns a decision only if the host wrote it for that id earlier |
| ApprovalProtocol.ReturnedStaysGone | src-tauri/src/ai_approval.rs:197-209 | an outcome is final, and from then on the pending file is gone and the request is never listed |
| ApprovalProtocol.DecisionReturnedOnce | src-tauri/src/ai_approval.rs:184-211 | no decision is returned twice, by one poller or by two |
| ApprovalProtocol.TimedOutOnlyAfterDeadline | src-tauri/src/ai_approval.rs:205-208 | a timeout is returned only once the timeout of the submission has passed |
| ApprovalProtocol.UnavailableOnlyIfHostDied | src-tauri/src/ai_approval.rs:201-204 | an unavailable host was dead at some step of the run |
| ApprovalProtocol.TurnExactly | src-tauri/src/ai_approval.rs:184-211 | what a poller does that looks, if nothing interferes: returns the decision there is, else gives up on a dead host, else times out at its deadline, else looks again; when it returns, its files are gone |
| ApprovalProtocol.ReturnsAfterDeadline | src-tauri/src/ai_approval.rs:184-211 | whatever else happens, a poller whose deadline has passed returns after at most four steps of its own |
| ApprovalProtocol.PollersWereSubmitted | src-tauri/src/ai_approval.rs:89-95 | every poller waits for a request that was submitted, and its pending file holds that request |
| ApprovalProtocol.DecisionFileExactly | src-tauri/src/ai_approval.rs:139-158 | a decision file is there exactly from a decision of the host until the poller or cleanup takes it away, and it holds the last one |
| ApprovalProtocol.ClockAndHostExactly | src-tauri/src/ai_approval.rs:184-211 | time passes with the clock alone, and the host lives unless it died and has not returned |
| ApprovalProtocol.PendingExactly | src-tauri/src/ai_approval.rs:89-95 | at every step of every run a pending file is there exactly from submission to the return of the poller or to cleanup |
| ApprovalProtocol.ListedExactly | src-tauri/src/ai_approval.rs:108-137 | at every step the host is shown exactly the submitted requests whose poller has not returned, that cleanup has not removed, and for which there is no decision file |
| ApprovalProtocol.YoungIsNotCleaned | src-tauri/src/ai_approval.rs:215-242 | cleanup leaves an open request alone until it has expired |
| ApprovalProtocol.DecidedRequestCanBeListed | src-tauri/src/ai_approval.rs:197-200 | between the two removals a decided request is listed again |

## Left out

- Unicode case mapping and Unicode whitespace in the classifier: upper-casing and whitespace are those of ASCII (trimming included); the lexer theorems are over all bytes.
- SqlSyntax and quote_string_literal: only the doubled-quote literal style is built; a declared syntax is an arbitrary profile.
- SecretRuns.RunKeepsSecretsExact: does not promise that stored is listed once a rollback, a deletion or an imported write has failed for good; SaveWithSecrets, DeleteConnection and ImportConnections then bound each account.
- SecretRuns.Application.Create: the fresh uuid is a parameter that no listing and no cached entry has.
- SecretUpdates.SaveWithSecrets: database and SSH credentials, which share the journal, are other accounts and left out; whether they can be stored is a parameter.
- ConnectionTags.TagList.CreateTag: the fresh uuid is a parameter; deleting tags and assigning them to connections are left out as easy.
- Names of keychain accounts and cache entries: accounts are triples; the two injectivity lemmas say when the real names are as good.
- I/O errors of the audit log and the approval queue, partly written files, unparsable lines: a file operation succeeds and an event is a line.
- The polling loop is a machine whose steps interleave, not one method; sleeping, the watcher and the notification of the desktop window are not steps.
- Concurrent access to the credential cache, the password caches beside it.
- Boolean column detection, schema changes and progress of the clipboard import; dump values and statements other than table references.
- JSON, timestamps, uuids, session grouping, export, persistence of unknown fields, migrations, connection pools, tunnels, TLS, configuration and user interface.
