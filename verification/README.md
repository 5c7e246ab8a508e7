# Verification of the scaffolder and its service templates

A Dafny model of the parts of the repository that decide something: the template renderer and
the speller of the command line tool, its text patches and go.mod merging, the query compiler,
audit log, migrations, lockouts and write protection of the admin panel, the rate limiter and
the cached configuration of the services, the ORM audit trail, and permission matching. One
module models one component. Whatever the program changes step by step is a method or a class
that is proved against a specification function; the laws are lemmas about those functions, or
about all runs of a state machine where calls interleave. Nothing was executed.

`dafny verify dfyconfig.toml` checks the whole project.

## What is modelled

**Template renderer** (`Template.dfy`). `renderLines` reads a flat list of lines with a stack of
if-frames, jumps over loop bodies and calls itself on them; `findBlockEnd` counts depth. The
model proves that on every well-nested template it computes a direct, recursive reading, and that
on an arbitrary list of lines it ends, throwing exactly when some `for` line has no matching close.
Lines are taken as already classified and expressions as total functions. A `for (..)` that is not
of the form `for (const x of xs)` is text to `renderLines` but opens a block to `findBlockEnd`;
the model keeps that.

**Spell suggester** (`EditDistance.dfy`). The table-filling loop computes the least number of
insertions, deletions and substitutions, where an edit sequence may work anywhere in the string.

**Query compiler** (`SqlWhere.dfy`, `Like.dfy`). URL filters become a parameterised WHERE clause.
A compiled clause is a term with placeholder numbers; it is evaluated in three-valued logic against
the argument list and shown equal to what the filters say. Patterns follow section 9.7.1 of the
PostgreSQL documentation. The free search is not escaped, and is literal exactly when no pattern
character was typed.

**Query language of URLs** (`QueryDsl.dfy`, `Form.dfy`, `Strconv.dfy`, `Strings.dfy`). Parsing,
encoding to a form string and parsing again gives the same query up to the order of filters, for
every order in which Go may walk its maps. `Form.dfy` models `url.Values.Encode` and
`url.ParseQuery` of Go's standard library on bytes.

**Cached configuration** (`ConfigCache.dfy`, `Envelope.dfy`). The cache lock is given up between
looking, reading and storing, so a call is a sequence of steps and a run any interleaving of steps
of any number of calls, of time, and of writes that go around the code. `Envelope.dfy` proves that
the Rust and the Express service read what the other one stored.

**Token bucket** (`RateLimit.dfy`), over the reals, with the truncation to whole milliseconds kept: no more
calls are allowed than flow in, and a burst on a rested key gets the whole capacity.

**Logs and protocols** (`HashChain.dfy`, `Migrate.dfy`, `Lockout.dfy`, `AuditTrail.dfy`,
`AdminAccess.dfy`). The hash chain is tamper evident up to hash collisions, which the theorem
exhibits. Migrations run once and in order under any interleaving of crashing replicas, provided that
no read of `schema_migrations` is cut short: `Migrate` does not look at `rows.Err()`, so it takes a read
that ends in an error for a complete one, and the model shows exactly what follows. The two lockouts let
through at most 5 and 18 wrong attempts a window. For every operation of the ORM audit trail the model
says exactly when its entries replay it and when they undo it, and for every run, with transactions that are
committed, rolled back or broken off, exactly when the trail does: rows are looked up, read again and the trail
is written outside the caller's transaction. A read_write admin remains exactly as long
as the own-row test notices every change of the actor's own row: it reads ids as Go does, while an id
that Go cannot read is left to the database, which reads more, such as a blank before the number. When the
checks and the write of a request are two steps, the model says which interleavings leave one.

**Text rewriting** (`TextPatch.dfy`, `Gomod.dfy`). A first run of patches inserts the text of each, with its own
sentinel behind it, if their hashes differ; patches guarded by sentinels change nothing when re-applied, under
the conditions on anchors that make it true. The go.mod merge is a map update and its second run is
byte-identical under an exact condition on the overrides. The merge passes over lines with a carriage return;
for a reader that does not it is the map update under an exact condition on those lines.

**Permission matching** (`Permissions.dfy`). Wildcard matching of strings is, for all payloads, equivalent to
a structured grant relation exactly for the resources into which no star reaches.

Where the code keeps a law only under a condition, an equivalence over all inputs or all runs says which
condition that is, next to an input at which the law fails: for a get that straddles a set
(`ConfigCache.SetIsSeenIff`, `LateInsertHidesSet`), keys that collide (`QueryDsl.OrderDoesNotMatterIff`,
`BarsCollide`), reads cut short (`Migrate.ReadIsSafeIffComplete`, `CutReadAppliesTwice`), ids that only
the database reads (`AdminAccess.SomeAdminAlwaysIff`, `BlankIdDemotesLast`), partial results and limits
(`AuditTrail.StepRecordsIff`, `SelectLosesCreate`, `LimitLogsTooMuch`), transactions
(`AuditTrail.RunReplaysIff`, `RollbackLeavesInsert`, `TransactionLogsNoChange`), writes after other writes
(`AdminAccess.InterleavingKeepsWriterIff`, `UnatomicDeletesLoseAll`), the Retry-After header
(`RateLimit.HeaderSufficesIff`, `HeaderCanBeTooShort`), an inserted anchor (`TextPatch.BeforeRerunIff`,
`OwnAnchorInsertsTwice`; one patch at a time), removed overrides (`Gomod.SecondMergeIff`), carriage returns
(`Gomod.ReadsAsMapUpdateIff`, `CarriageReturnHidesLine`), JSON text that the columns rewrite
(`HashChain.ReadBackVerifiesIff`, `BlankAfterColonBreaks`), resources with a colon
(`Permissions.AccessIsGrantedIffNoLeak`, `StarReachesAcrossColon`, `StarStopsInsideResource`) and map keys that
normalise alike (`Permissions.AccessIffGranted`, `LaterKeyHidesEarlier`). Other lemmas show what a hypothesis is
for: a long schema name makes hash inputs ambiguous (`HashChain.LongSchemaIsAmbiguous`), and an unclosed require
block is adopted by the next run (`Gomod.UnclosedBlockIsAdopted`).

## Model

| member | source | states |
|---|---|---|
| `Template.FindBlockEnd` | cli/src/utils.ts:827-842 | the loop with its depth counter finds the line that brings the depth counted from the opening line to zero, and none if there is none |
| `Template.RenderPasses` | cli/src/utils.ts:862-865 | one recursive rendering an item, in order; a pass that renders to the empty string adds no line; a throw inside stops it |
| `Template.RenderLines` | cli/src/utils.ts:844-928 | the loop over lines with its in-place stack, output and index computes the machine's run, for any lines, well nested or not, and ends |
| `Template.BlockEndSkips` | cli/src/utils.ts:827-842 | scanning over a well-nested block neither stops in it nor changes the depth, at any depth |
| `Template.BlockEndMatches` | cli/src/utils.ts:857 | from a loop's opening line the scan lands on the close of that very loop |
| `Template.BlockEndIff` | cli/src/utils.ts:827-842 | on any list of lines the end is the first line after which no block is open, counting openings and closes |
| `Template.RunTree` | cli/src/utils.ts:844-928 | at any point, under any stack, a printed tree outputs its meaning if all frames are active and nothing otherwise, and leaves the stack as it was |
| `Template.RunChoice` | cli/src/utils.ts:872-907 | an if-chain outputs the first branch whose condition holds, or the else; conditions after a taken branch do not matter |
| `Template.RunAlts` | cli/src/utils.ts:879-907 | what is left of a chain outputs something only if no earlier branch was taken |
| `Template.RunLoop` | cli/src/utils.ts:854-869 | a loop outputs one pass an item when live and is jumped over when dead |
| `Template.RenderIsMeaning` | cli/src/utils.ts:844-928 | for every tree and environment the flat interpreter on the printed lines equals the recursive reading |
| `Template.LoopIsPassTexts` | cli/src/utils.ts:858-868 | the output of a loop is the texts of its passes, in order, with the empty ones left out; of what is not an array, nothing |
| `Template.NonEmptyKeeps` | cli/src/utils.ts:864 | what is left out is the empty texts, and nothing else |
| `Strings.SplitUndoesJoin` | cli/src/utils.ts:797-927 | lines joined by newlines are the same lines again when split, if none holds a newline |
| `Template.BranchIsLiveIff` | cli/src/utils.ts:872-902 | any branches, also behind an else: a branch is live if and only if no condition held before it and its own, if it has one, holds |
| `Template.StrayLinesDoNothing` | cli/src/utils.ts:882-907 | without an open if-block an else, an else-if and a close do nothing |
| `Template.OtherForIsText` | cli/src/utils.ts:848-852 | a `for` of another form is text to the interpreter, and opens a block to the scan |
| `Template.InnerIsClosed` | cli/src/utils.ts:827-842 | a loop that opens inside a closed block is closed before that block is |
| `Template.ThrowsIffUnclosed` | cli/src/utils.ts:841 | rendering throws if and only if some for-line has no matching close, in a dead branch or not |
| `Template.Render` | cli/src/utils.ts:793-799 | render is renderLines followed by the collapsing of newlines |
| `Template.CollapsedIff` | cli/src/utils.ts:798 | the collapsing changes a text exactly when it has four newlines in a row, and doing it twice is doing it once |
| `Template.RunIsCutToThree` | cli/src/utils.ts:798 | each run of newlines keeps at most three of them |
| `Template.OnlyNewlinesGo` | cli/src/utils.ts:798 | nothing but newlines is dropped |
| `EditDistance.TableDistance` | cli/src/utils.ts:48-67 | the table filled in place ends with the value of the recurrence on last characters |
| `EditDistance.DistIsAttained` | cli/src/utils.ts:48-67 | some sequence of that many edits turns one string into the other |
| `EditDistance.DistIsLeast` | cli/src/utils.ts:48-67 | no sequence of edits, made anywhere in any order, is shorter |
| `EditDistance.DistIsEditDistance` | cli/src/utils.ts:48-67 | the result is the least number of insertions, deletions and substitutions, and only it is |
| `EditDistance.DistSymmetric` | cli/src/utils.ts:48-67 | the distance does not depend on the order of its arguments |
| `EditDistance.Triangle` | cli/src/utils.ts:48-67 | the triangle inequality |
| `EditDistance.SuggestComponent` | cli/src/utils.ts:69-85 | the lower-cased input: a name or alias is returned as its component; otherwise the first component at least distance, exactly when that is within three and within half its length |
| `EditDistance.OneTypoIsNearEnough` | cli/src/utils.ts:83-84 | a component name with one typing error in it always gets a suggestion |
| `Like.EscapedIsLiteral` | admin-panel/internal/browser/sql_builder.go:161-164 | an escaped value matches itself and nothing else, whatever pattern follows |
| `Like.StartsWithPattern` | admin-panel/internal/browser/sql_builder.go:70-71 | the starts-with pattern matches exactly the texts that start with the value |
| `Like.EndsWithPattern` | admin-panel/internal/browser/sql_builder.go:72-73 | the ends-with pattern matches exactly the texts that end with the value |
| `Like.ContainsPattern` | admin-panel/internal/browser/sql_builder.go:74-75 | the contains pattern matches exactly the texts that contain the value |
| `Like.EscapedILike` | admin-panel/internal/browser/sql_builder.go:64-79 | the three patterns under ILIKE are prefix, suffix and substring after case folding |
| `Like.SearchIsLiteralIffPlain` | admin-panel/internal/browser/sql_builder.go:26-38 | under ILIKE the unescaped search pattern means containment, case aside, for all texts if and only if the search has no pattern character |
| `SqlWhere.InPlaceholders` | admin-panel/internal/browser/sql_builder.go:84-94 | the loop of IN makes one placeholder and one coerced argument a value, in order, or returns the first coercion error |
| `SqlWhere.BuildFilterClause` | admin-panel/internal/browser/sql_builder.go:46-127 | one filter's clause, its arguments and the advanced index, or its error, branch by branch |
| `SqlWhere.BuildWhere` | admin-panel/internal/browser/sql_builder.go:9-44 | the clauses and the argument list of a whole query, the index running through all of them |
| `SqlWhere.TextishColumns` | admin-panel/internal/browser/sql_builder.go:150-159 | the text columns in table order |
| `Strings.ContainsIff` | admin-panel/internal/browser/sql_builder.go:74-75 | a text contains another if and only if it is something, the other, and something |
| `Strings.AffixIff` | admin-panel/internal/browser/sql_builder.go:70-73 | and starts or ends with it if that is how it is put together |
| `SqlWhere.PatternMeans` | admin-panel/internal/browser/sql_builder.go:64-79 | a compiled pattern test has the truth of the prefix, suffix or substring it stands for |
| `SqlWhere.InListMeans` | admin-panel/internal/browser/sql_builder.go:80-95 | an IN list over its placeholders has the truth of membership among the coerced values |
| `SqlWhere.BetweenMeans` | admin-panel/internal/browser/sql_builder.go:96-110 | a BETWEEN over its two placeholders bounds the cell by the two coerced values |
| `SqlWhere.ClauseMeans` | admin-panel/internal/browser/sql_builder.go:46-127 | one clause has the truth of its filter wherever its arguments stand in the whole list |
| `SqlWhere.FiltersMean` | admin-panel/internal/browser/sql_builder.go:13-24 | the clauses joined by AND have the truth of all filters together |
| `SqlWhere.SearchMeans` | admin-panel/internal/browser/sql_builder.go:26-38 | the search alternatives, sharing one placeholder, hold if some text column matches, fail if all do not, and are unknown otherwise |
| `SqlWhere.WhereMeans` | admin-panel/internal/browser/sql_builder.go:9-44 | on every row the WHERE clause with its arguments has the three-valued truth of all filters and the search |
| `SqlWhere.CompilesIffCompilable` | admin-panel/internal/browser/sql_builder.go:13-24 | the filters compile if and only if each names a column of the table, has a known operator and enough values, and those of its values that are compared can be coerced for that column |
| `SqlWhere.QueryCompilesIffCompilable` | admin-panel/internal/browser/sql_builder.go:9-44 | the same for a query with a search, which never fails |
| `SqlWhere.LookupIs` | admin-panel/internal/browser/introspect.go:221-228 | the column of a filter is the first one of the table with its name; there is none if and only if no column has the name |
| `SqlWhere.CoercedValues` | admin-panel/internal/browser/sql_builder.go:52-139 | which values of a filter are needed and which are coerced, operator by operator |
| `SqlWhere.ErrorIsOfFirst` | admin-panel/internal/browser/sql_builder.go:14-24 | when a query does not compile, the error names the first filter that cannot be compiled, and why |
| `SqlWhere.FilterPlaceholders` | admin-panel/internal/browser/sql_builder.go:46-127 | the placeholders of the filters are consecutive numbers, one an argument, in order |
| `SqlWhere.PlaceholdersAreTheArguments` | admin-panel/internal/browser/sql_builder.go:9-44 | the placeholders are exactly $1..$n for n arguments; without a search each occurs once, in order |
| `Strconv.ParseUndoesItoa` | admin-panel/internal/browser/query_dsl.go:71-80 | reading a printed number gives it back, for every number that fits |
| `Strconv.ParseIff` | admin-panel/internal/browser/query_dsl.go:71-80 | exactly what is read: a sign or none, then digits, standing for a number that fits in 64 bits |
| `Strconv.DigitIs` | admin-panel/internal/browser/query_dsl.go:71-80 | the digits are the ten decimal ones |
| `Form.UnescapeUndoesEscape` | admin-panel/internal/browser/query_dsl.go:149 | unescaping undoes query escaping on every byte string |
| `Form.ParseUndoesEncode` | admin-panel/internal/browser/query_dsl.go:149 | parsing an encoded form gives back every multimap without empty lists, in whatever order its keys were written |
| `Form.EscapedByteIs` | admin-panel/internal/browser/query_dsl.go:149 | how each byte is escaped: letters, digits and four marks stand for themselves, a blank becomes a plus, any other byte its two hexadecimal digits |
| `Form.EscapeConcat` | admin-panel/internal/browser/query_dsl.go:149 | and a text is escaped byte by byte |
| `Form.PieceIsCut` | admin-panel/internal/browser/query_dsl.go:67-69 | a piece of the query string is cut at its first equals sign; one whose escapes are malformed is passed over |
| `QueryDsl.ParseQuery` | admin-panel/internal/browser/query_dsl.go:67-119 | the parser, its map of filters and its order list give the specified query for the order in which the keys are visited |
| `QueryDsl.ScalarsAreRead` | admin-panel/internal/browser/query_dsl.go:69-80 | offset and limit are the numbers that are written, if positive, and zero otherwise; the search is what is written without the white space around it |
| `Strings.TrimSpaceIs` | admin-panel/internal/browser/query_dsl.go:69 | trimming takes white space off both ends and nothing else |
| `Strings.TrimOnly` | admin-panel/internal/browser/query_dsl.go:69 | and leaves the text, whatever white space stands around it |
| `QueryDsl.ReadSort` | admin-panel/internal/browser/query_dsl.go:81-94 | the sort keys of a comma-separated parameter, blanks dropped, a leading minus meaning descending |
| `QueryDsl.SortConcat` | admin-panel/internal/browser/query_dsl.go:81-94 | commas separate the keys of a sort parameter, and nothing else does |
| `QueryDsl.SortPartIs` | admin-panel/internal/browser/query_dsl.go:81-94 | one part is one key, descending with a minus in front, whatever white space is around it; a part of white space is none |
| `QueryDsl.ReadFilters` | admin-panel/internal/browser/query_dsl.go:95-117 | gathering filters in a map with an order list equals folding the keys one by one into a list |
| `QueryDsl.FilterKeyIff` | admin-panel/internal/browser/query_dsl.go:96-107 | which keys are filters: `f.`, a column that is not empty, and behind the last dot the operator |
| `QueryDsl.FiltersAreGathered` | admin-panel/internal/browser/query_dsl.go:95-117 | there is a filter for each composite of some key, with the values of all the keys that have it, in the order of the keys |
| `QueryDsl.Encode` | admin-panel/internal/browser/query_dsl.go:121-149 | the multimap that is encoded, built in place |
| `QueryDsl.SortRoundTrip` | admin-panel/internal/browser/query_dsl.go:81-94 | parsing, printing and parsing a sort parameter gives the same keys in order and direction, for any string |
| `QueryDsl.FilterKeyOfKeyOf` | admin-panel/internal/browser/query_dsl.go:98-107 | a filter's key splits back into its column, dots and all, and its operator |
| `QueryDsl.FiltersRoundTrip` | admin-panel/internal/browser/query_dsl.go:143-148 | the filters of a parsed query come back from the multimap, each with its values in order, and touch no other key |
| `QueryDsl.ScalarsRoundTrip` | admin-panel/internal/browser/query_dsl.go:122-142 | search, sort, offset and limit come back |
| `QueryDsl.ParseEncodeParse` | admin-panel/internal/browser/query_dsl.go:67-150 | for every multimap with non-empty lists and every order of keys, parse, encode and parse again gives the same query up to the order of filters |
| `QueryDsl.OrderDoesNotMatterIff` | admin-panel/internal/browser/query_dsl.go:95-117 | the filters are the same, up to their order, for all orders of visiting the map if and only if no two filter keys have the same composite |
| `QueryDsl.FirstKeyNamesFirst` | admin-panel/internal/browser/query_dsl.go:108-113 | filters never share a composite, and the filter key visited first names the first filter |
| `QueryDsl.CollisionDependsOnOrder` | admin-panel/internal/browser/query_dsl.go:108-113 | for any two colliding keys, visiting one or the other first gives different filters, whatever follows |
| `QueryDsl.BarsCollide` | admin-panel/internal/browser/query_dsl.go:106-108 | a bar can be read as part of the column or of the operator, so keys do collide |
| `ConfigCache.PendingValueWasFetched` | rust/src/serviceconfig.rs:64-98 | a get about to store a value read it as the active value earlier in the same call |
| `ConfigCache.EntryWasFetched` | rust/src/serviceconfig.rs:64-98 | every cache entry was read as active by the get that stored it, carries that get's expiry, and has not been dropped since |
| `ConfigCache.ReturnedWasActive` | rust/src/serviceconfig.rs:64-98 | in every interleaving a returned value was active at the get's own read, or at the read of the get that cached it, less than ttl plus its fetch-to-insert delay ago |
| `ConfigCache.SeenOrStraddled` | rust/src/serviceconfig.rs:64-98 | after a write and an invalidation a returned value is what was written, or what some get read before the write and stored after the invalidation |
| `ConfigCache.WriteIsSeenIff` | express/src/lib/service-config.ts:33-74 | until the next write all gets return what was written if and only if every get that reads before the write and stores after the invalidation stores just that |
| `ConfigCache.SetIsSeenIff` | rust/src/serviceconfig.rs:100-115 | the same for a set: later gets return the set value under just that condition, and none fails |
| `ConfigCache.DeleteIsSeenIff` | rust/src/serviceconfig.rs:117-133 | and for a delete: no later get finds the row, and none returns a value under just that condition |
| `ConfigCache.GetAlone` | rust/src/serviceconfig.rs:64-98 | a get that runs on its own returns the entry if it has not expired, or else the active value, which it stores, or fails |
| `ConfigCache.SetAlone` | rust/src/serviceconfig.rs:100-115 | a set that runs on its own leaves the new row and no entry |
| `ConfigCache.DeleteAlone` | rust/src/serviceconfig.rs:117-133 | a delete that runs on its own leaves neither row nor entry; without a row it fails and leaves the cache |
| `ConfigCache.NextStepIsSettled` | rust/src/serviceconfig.rs:64-143 | what a call does next is determined by the table, the cache and the time |
| `ConfigCache.Interruptions` | rust/src/serviceconfig.rs:135-143 | at any point time may pass, a call be cancelled, the cache be emptied or the row be written from outside, and nothing else changes |
| `ConfigCache.LateInsertHidesSet` | rust/src/serviceconfig.rs:64-115 | a run with such a get: the overwritten value is returned after the set has completed |
| `Envelope.EncryptJoined` | rust/src/serviceconfig.rs:161-189 | the buffer built by appending holds iv, tag, ciphertext |
| `Envelope.DecryptJoined` | rust/src/serviceconfig.rs:191-217 | the decrypted text, or the first of the errors: bad base64, too short, not authentic, bad UTF-8 |
| `Envelope.EncryptDetached` | express/src/lib/crypto.ts:31-37 | the Express service stores the same bytes as the Rust service |
| `Envelope.DecryptDetached` | express/src/lib/crypto.ts:39-52 | the decrypted text with the lenient decoders, or too short, or not authentic |
| `Envelope.UnsealIff` | rust/src/serviceconfig.rs:195-215 | stored bytes open to a message exactly when they are an iv with that message's tag and ciphertext |
| `Envelope.UnsealFailsIff` | rust/src/serviceconfig.rs:195-214 | stored bytes are too short if they are fewer than 28, and not authentic if they are the stored form of no message |
| `Envelope.FirstErrorIsNamed` | rust/src/serviceconfig.rs:191-217 | the Rust service names the first thing that is wrong; the Express service only those two |
| `Envelope.EachReadsTheOther` | rust/src/serviceconfig.rs:161-217 | what either service stores both read back |
| `Envelope.StrictReadsOnlySealed` | rust/src/serviceconfig.rs:191-217 | the Rust service reads exactly the payloads that decode to the stored form of the text |
| `Envelope.LenientReadsNoLess` | express/src/lib/crypto.ts:39-52 | the Express service reads whatever the Rust service reads, as the same text |
| `RateLimit.RateLimiter.Allow` | rust/src/ratelimit.rs:75-98 | one call updates only its own bucket: refill, cap, then a token taken or a retry time in whole milliseconds |
| `RateLimit.TokensInRange` | rust/src/ratelimit.rs:75-98 | over any run the tokens stay between zero and the capacity |
| `RateLimit.Balance` | rust/src/ratelimit.rs:75-98 | what has been allowed plus what is left is at most what was there plus what has flowed in |
| `RateLimit.AllowedIsBounded` | rust/src/ratelimit.rs:75-98 | in any stretch of length T at most capacity + refill * T calls on a key are allowed, whatever the other traffic |
| `RateLimit.BurstIsAllowedIff` | rust/src/ratelimit.rs:76-99 | of the calls at one instant on a key that is new, or was idle for capacity / refill seconds, the first `capacity` are allowed and no other; each answer says what remains |
| `RateLimit.BurstReachesBound` | rust/src/ratelimit.rs:76-99 | so such a burst gets the capacity, or all of its calls |
| `RateLimit.OtherKeysDoNotMatter` | rust/src/ratelimit.rs:75-98 | a call is answered as if only its own key had ever been called |
| `RateLimit.NextAnswer` | rust/src/ratelimit.rs:87-94 | after a denial the next call is allowed if and only if the exact wait is over; the retry time is that wait truncated |
| `RateLimit.RetryIsSharp` | rust/src/ratelimit.rs:87-94 | a call sooner than r ms after a denial with retry r is denied, one r+1 ms later is allowed |
| `RateLimit.HeaderSufficesIff` | rust/src/ratelimit.rs:128-131 | waiting the rounded-up seconds of the header lets the client in if and only if the truncated milliseconds were no whole second or nothing was cut off |
| `RateLimit.HeaderCanBeTooShort` | rust/src/ratelimit.rs:87-94 | half a millisecond is missing, the header says zero seconds, and a call after zero seconds is denied |
| `HashChain.Logger.Log` | admin-panel/internal/audit/audit.go:40-70 | the appended row, linked to the last one and hashed, with the values as they are encoded; a value that cannot be encoded logs nothing; a log that verifies still does |
| `HashChain.MessageDetermines` | admin-panel/internal/audit/audit.go:72-93 | for NUL-free fields and short schema names the hashed bytes determine the link and every field |
| `HashChain.MessageIs` | admin-panel/internal/audit/audit.go:72-93 | the hashed bytes in order: the last hash, the schema right behind it, and the other fields, each behind a NUL |
| `HashChain.LastHashFixesLog` | admin-panel/internal/audit/audit.go:40-93 | two verifying logs with the same last hash hold the same writes in the same order, or a hash collision between them is exhibited |
| `HashChain.PerformerIsNotCovered` | admin-panel/internal/audit/audit.go:78-92 | performed_by can be rewritten in any row and the log verifies with the same last hash |
| `HashChain.LongSchemaIsAmbiguous` | admin-panel/internal/audit/audit.go:74-77 | without the bound on schema names a link can be moved into the name |
| `HashChain.ReadBackVerifiesIff` | admin-panel/internal/db/migrations/0001_init.sql:27-34 | the value columns are JSONB: read back, the log verifies if and only if each row hashes as it did, which short of a collision means that the columns kept every value's text |
| `HashChain.BlankAfterColonBreaks` | admin-panel/internal/db/migrations/0001_init.sql:27-34 | a blank that the columns put after a colon is enough: the log read back does not verify, unless by a collision |
| `Migrate.PendingStep` | admin-panel/internal/db/db.go:79-90 | recording the first missing name takes it off the front of what is pending |
| `Migrate.StepKeepsInv` | admin-panel/internal/db/db.go:30-114 | every step of every replica, crashes, failures and reads cut short included, keeps the lock, the record of what was applied and the position of the loops in order |
| `Migrate.StepKeepsOnce` | admin-panel/internal/db/db.go:52-90 | every step keeps each migration applied once and in order, if what a read returns includes every recorded file name |
| `Migrate.EachMigrationOnceInOrder` | admin-panel/internal/db/db.go:30-114 | at every point of every interleaving whose reads were complete the committed effects are a duplicate-free prefix of the missing names, and all of them once all are recorded |
| `Migrate.SuccessMeansAllRecorded` | admin-panel/internal/db/db.go:79-91 | in every run what is recorded is what was recorded plus what was applied, and once a replica has returned success every name is recorded |
| `Migrate.ReadIsSafeIffComplete` | admin-panel/internal/db/db.go:52-67 | after a read, all ways to go on without another read apply each migration once and in order if and only if the read did not miss a recorded file name |
| `Migrate.CutReadAppliesAgain` | admin-panel/internal/db/db.go:59-67 | after a read that ended early a committed migration can be applied again |
| `Migrate.CutReadAppliesTwice` | admin-panel/internal/db/db.go:59-67 | two replicas, one file: the migration is applied twice and both return success |
| `Migrate.AppliedIsPrefix` | admin-panel/internal/db/db.go:79-90 | on a new database, with complete reads, the applied set is always a prefix of the sorted names |
| `Migrate.OneAtATime` | admin-panel/internal/db/db.go:37-42 | no two replicas are past the lock at once |
| `Migrate.NextStepIsSettled` | admin-panel/internal/db/db.go:30-114 | what a replica does next is settled, but for what a read returns, a failure and a crash |
| `Migrate.BreaksOff` | admin-panel/internal/db/db.go:34-42 | a replica may crash at any point and fail at any point behind the lock, which gives up its lock and changes nothing else |
| `Migrate.MigratesAlone` | admin-panel/internal/db/db.go:30-91 | a replica that finds the lock free and is left alone applies what is pending, in order, records it and returns success |
| `Lockout.MfaStore.VerifyMfaChallenge` | admin-panel/internal/auth/mfa.go:145-167 | unknown admin, locked, success and failure: the answer and the new counters in each case |
| `Lockout.MfaStore.RecordFailure` | admin-panel/internal/auth/mfa.go:185-194 | the fifth failure resets the count and starts the lock, an earlier one adds to the count |
| `Lockout.MfaFailuresBounded` | admin-panel/internal/auth/mfa.go:145-194 | from any counter below the maximum, after any failures, at most 5 failures are evaluated in a half-open window of 15 minutes |
| `Lockout.MfaBoundIsSharp` | admin-panel/internal/auth/mfa.go:15-20 | five are reached, and a sixth is evaluated just when the lock ends |
| `Lockout.LoginFailureCounter.IsLocked` | admin-panel/internal/web/handlers.go:57-68 | locked exactly while the record's lock lies ahead, with the time left |
| `Lockout.LoginFailureCounter.RecordFailure` | admin-panel/internal/web/handlers.go:70-83 | a first or outdated record starts over, the tenth failure locks, and only this address changes |
| `Lockout.LoginFailureCounter.RecordSuccess` | admin-panel/internal/web/handlers.go:85-89 | a success forgets the address |
| `Lockout.LoginFailureCounter.LoginSubmit` | admin-panel/internal/web/handlers.go:122-137 | credentials are looked at only when not locked; the counter afterwards in each case |
| `Lockout.RecordsAreSound` | admin-panel/internal/web/handlers.go:70-83 | counts, start times and locks of the records stay consistent over any run of failures |
| `Lockout.LoginWindow` | admin-panel/internal/web/handlers.go:32-36 | within a window all evaluated failures are in one record, or at most eight in an old one and the rest in the next |
| `Lockout.LoginFailuresBounded` | admin-panel/internal/web/handlers.go:57-83 | at most 18 wrong passwords are evaluated for an address in any closed window of 300 seconds |
| `Lockout.LoginBoundIsSharp` | admin-panel/internal/web/handlers.go:32-36 | eighteen are reached |
| `Lockout.TenthFailureLocks` | admin-panel/internal/web/handlers.go:57-83 | the tenth failure within 300 seconds of the first locks for 15 minutes to the second, and no earlier one does |
| `Lockout.OwnAttemptsCount` | admin-panel/internal/web/handlers.go:70-83 | the record of an address is that of its own attempts, whatever other addresses do |
| `AuditTrail.AuditedClient.LookupMatching` | express/src/prisma.ts:90-99 | every committed row that matches once, in some order |
| `AuditTrail.AuditedClient.WriteChanges` | express/src/prisma.ts:142-157 | the loop of updateMany: an entry for each listed row, with the row that was read again, or none |
| `AuditTrail.AuditedClient.RunAudit` | express/src/prisma.ts:47-200 | the tables after the operation and the entries it leaves, in a transaction or not, operation by operation; a rejected operation leaves nothing and ends its transaction |
| `AuditTrail.Replays` | express/src/prisma.ts:101-199 | entries that name every changed row, with new values that are what the rows are afterwards, replay the change |
| `AuditTrail.Undoes` | express/src/prisma.ts:101-199 | with old values that are what the rows were before, they undo it |
| `AuditTrail.StepRecordsIff` | express/src/prisma.ts:101-199 | for every operation that goes through, with select, omit, include and limit, whatever the tables are in which rows are looked up and read again: exactly when its entries replay it, and exactly when they undo it |
| `AuditTrail.ActionsAreNamed` | express/src/prisma.ts:101-198 | how many entries an operation leaves, and the action of each; of an upsert it is what the lookup has seen that decides |
| `AuditTrail.EntryHolds` | express/src/prisma.ts:161-198 | the entry of an operation on one row: under the id of the result, or else of the where; the old value is all of the row that the lookup has seen, the new one what is shown of the result |
| `AuditTrail.FoundIff` | express/src/prisma.ts:81-88 | the lookup sees the row under the id that the where selects, unless the where names another id |
| `AuditTrail.EffectKeeps` | express/src/prisma.ts:101-199 | what the query itself does, row by row: which rows are in the table after each kind of operation that goes through |
| `AuditTrail.RejectedIff` | express/src/prisma.ts:101-199 | it is rejected if and only if there is no row to work on, or an id would be taken twice |
| `AuditTrail.TransactionsHold` | express/src/prisma.ts:40-46 | in a transaction operations change the working table only, until it is committed; one that is rejected gives it up |
| `AuditTrail.SummaryIff` | express/src/prisma.ts:102-116 | the summary of a createMany replays and undoes it if and only if it created nothing |
| `AuditTrail.InsertIff` | express/src/prisma.ts:188-198 | a create is replayed if and only if the result shows the id and all fields, and undone if and only if it shows the id; an upsert that creates, if the lookup has seen no row |
| `AuditTrail.InsertsIff` | express/src/prisma.ts:118-127 | the same for every row of a createManyAndReturn |
| `AuditTrail.UpdateIff` | express/src/prisma.ts:161-186 | an update is replayed if and only if the id is kept and found in the result or the where, and all fields are shown, and undone if and only if the lookup has seen the row that was updated; or an entry about no row changed nothing |
| `AuditTrail.DeleteIff` | express/src/prisma.ts:174-186 | a delete is replayed if and only if its id is found in the result or the where, and undone if and only if the lookup has seen that row too |
| `AuditTrail.UpdatesIff` | express/src/prisma.ts:138-159 | an updateMany is replayed if and only if just the listed rows have changed, into what is read again, and undone if and only if the lookup has listed every row that changed as it was |
| `AuditTrail.RemovalsIff` | express/src/prisma.ts:129-136 | a deleteMany is replayed if and only if just the listed rows are gone, and undone if and only if the lookup has listed every row that is gone as it was |
| `AuditTrail.UpdatesOutsideIff` | express/src/prisma.ts:138-159 | outside a transaction: if and only if no row is given an id from outside the rows that match, limited or not |
| `AuditTrail.RemovalsOutsideIff` | express/src/prisma.ts:129-136 | outside a transaction: replayed if and only if a limit leaves none of the matching rows, and undone in any case |
| `AuditTrail.SelectLosesCreate` | express/src/prisma.ts:188-198 | a create that returns no id leaves an entry about no row |
| `AuditTrail.LimitLogsTooMuch` | express/src/prisma.ts:129-136 | a matching row that a limit leaves in the table is logged as deleted |
| `AuditTrail.EventRecordsIff` | express/src/prisma.ts:40-200 | what a commit, a rollback or an operation leaves in the trail leads from the table before to the table after, and back, if and only if the operation is recorded or the transaction given up had changed nothing |
| `AuditTrail.RunReplaysIff` | express/src/prisma.ts:40-200 | for every sequence of operations, in transactions or not: the trail leads from the first table to the present one, at every point, if and only if it follows every event |
| `AuditTrail.RunUndoesIff` | express/src/prisma.ts:40-200 | and back from the last table to every earlier one, if and only if it leads back over every event |
| `AuditTrail.RollbackLeavesInsert` | express/src/prisma.ts:41-46 | a create in a transaction that is rolled back leaves a row in the trail that the table does not have |
| `AuditTrail.TransactionLogsNoChange` | express/src/prisma.ts:138-159 | an updateMany in a transaction logs the committed rows as old and new values, which replay to no change |
| `AdminAccess.KeyIsBound` | admin-panel/internal/browser/query.go:283-291 | an id that Go reads is bound as a number where the key is an integer, any other one as the text it is |
| `AdminAccess.OwnRowTestIsExactIff` | admin-panel/internal/web/handlers.go:510-522 | for every id the own-row test agrees with the row that the bound key selects if and only if Go reads the id or the database does not read it as the actor's |
| `AdminAccess.AdminPanel.UpdateRow` | admin-panel/internal/web/handlers.go:466-488 | the new tables, or the reason for refusing, of an update request; an id that Go cannot read goes to the database as text |
| `AdminAccess.AdminPanel.DeleteRow` | admin-panel/internal/web/handlers.go:490-508 | the same for a delete request; a missing row is no failure |
| `AdminAccess.ActorKeepsRole` | admin-panel/internal/web/handlers.go:478-500 | whoever makes a change keeps row and role, unless the own-row test does not notice whose row it is |
| `AdminAccess.StepKeepsWriterIff` | admin-panel/internal/web/handlers.go:466-549 | a request leaves a read_write admin if and only if it is not the only one giving up role or row under an id that the own-row test does not notice |
| `AdminAccess.RunKeepsWriterIff` | admin-panel/internal/web/handlers.go:466-549 | there is one at every point of a run if and only if no request of the run is of that kind |
| `AdminAccess.SomeAdminCanAlwaysWrite` | admin-panel/internal/web/handlers.go:466-549 | every sequence of requests leaves a read_write admin, if Go reads each id or the database does not read it as the actor's |
| `AdminAccess.SomeAdminAlwaysIff` | admin-panel/internal/browser/query.go:283-291 | one always remains, whatever is requested, if and only if the database reads no id that Go does not read |
| `AdminAccess.TextKeyDemotesLast` | admin-panel/internal/browser/query.go:283-291 | for every id that only the database reads, a request by which the last read_write admin gives up the role |
| `AdminAccess.BlankIdDemotesLast` | admin-panel/internal/browser/query.go:283-291 | a blank in front of the number is such an id |
| `AdminAccess.ChangesNeedWriteMode` | admin-panel/internal/auth/store.go:125-152 | admins change only through a session that has not expired, with an open write window, of a read_write admin, or by the bootstrap of an empty table |
| `AdminAccess.UpdatesKeepKeys` | admin-panel/internal/browser/query.go:194-233 | an update never changes which admins exist |
| `AdminAccess.RefusedIff` | admin-panel/internal/web/handlers.go:466-549 | when an update or a delete is refused, reason by reason: session, write mode, own account, missing row, and what the database rejects |
| `AdminAccess.CarriedOut` | admin-panel/internal/web/handlers.go:466-508 | what an update or a delete that is not refused does to roles and sessions, promotions included |
| `AdminAccess.InsertAdds` | admin-panel/internal/browser/query.go:235-280 | an insert adds an admin with a role of the schema |
| `AdminAccess.SessionLasts` | admin-panel/internal/auth/store.go:102-152 | a sign-in opens a session of twelve hours without write mode, and a sign-out ends it |
| `AdminAccess.WriteModeLasts` | admin-panel/internal/auth/store.go:154-193 | write mode can be switched on only by an admin with the role, and lasts half an hour or as long as the session |
| `AdminAccess.TimeAndBootstrap` | admin-panel/internal/auth/store.go:57-80 | the first admin is made, with the role read_write, only where there is none |
| `AdminAccess.WriteKeepsWriterIff` | admin-panel/internal/web/handlers.go:466-508 | the write of a request whose checks were passed earlier leaves a read_write admin if and only if it does not take row or role of the only one, other than as the own row of the actor that was loaded then |
| `AdminAccess.InterleavingKeepsWriterIff` | admin-panel/internal/web/handlers.go:466-549 | requests in two steps, interleaved with each other and with whole requests: there is a read_write admin at every point if and only if no step takes the last one |
| `AdminAccess.LostOnlyByFormerWriter` | admin-panel/internal/web/handlers.go:510-522 | a write takes the last one only if its actor is no longer a read_write admin, or the own-row test does not notice whose row it is |
| `AdminAccess.UnatomicDeletesLoseAll` | admin-panel/internal/web/handlers.go:490-508 | two admins who both pass their checks first can delete each other |
| `TextPatch.Workspace.ApplyTextPatch` | cli/src/features.ts:438-477 | the file after the patch, or the error with nothing written |
| `TextPatch.Workspace.ApplyPatches` | cli/src/features.ts:346-377 | the files after the list of patches; the first failure stops it and leaves what came before |
| `TextPatch.PatchInserts` | cli/src/features.ts:452-476 | a patch whose sentinel is not in the file puts its text at the first anchor, before it or on the lines after it, and behind the text its sentinel with the indent of the anchor |
| `TextPatch.SkippedIff` | cli/src/features.ts:458-461 | a patch changes nothing if and only if its sentinel with the indent of the first anchor is in the file |
| `TextPatch.PatchFailsIff` | cli/src/features.ts:444-457 | a patch fails if and only if its file is missing and that is not tolerated, or its anchor does not occur; a patch touches only its own file |
| `TextPatch.PatchIsApplied` | cli/src/features.ts:438-477 | a patch that was not applied leaves its text at the start of a line with a sentinel of its own behind it |
| `TextPatch.ApplyingSpares` | cli/src/features.ts:438-492 | applying a patch neither tears what another one inserted nor brings the sentinel of another one, if their hashes differ |
| `TextPatch.FirstRunInsertsAll` | cli/src/features.ts:346-492 | a first run of a list that succeeds leaves the text of every patch in its file with its own sentinel, if the hashes of the patches of a file differ |
| `TextPatch.SameHashIsSkipped` | cli/src/features.ts:479-492 | a patch with the hash, the comment style and the indent of an applied one is never inserted, and no error is reported |
| `TextPatch.AfterIsIdempotent` | cli/src/features.ts:460-475 | an 'after' patch on its own output changes nothing, whatever file, anchor and text |
| `TextPatch.LoneStays` | cli/src/features.ts:464-475 | an anchor whose first occurrence is alone on its line stays so when a block is inserted elsewhere or just before it, and its indent only loses from the left |
| `TextPatch.SentinelNotCut` | cli/src/features.ts:464-475 | no insertion cuts an existing sentinel in two |
| `TextPatch.PatchKeeps` | cli/src/features.ts:438-477 | one patch leaves every other patch of the file applicable, and applied if it was |
| `TextPatch.PatchSettles` | cli/src/features.ts:458-464 | an applied patch is recognised as applied, also when the indent found the next time differs |
| `TextPatch.RerunChangesNothing` | cli/src/features.ts:346-377 | running the whole list on its own output changes no file, when the first occurrence of each anchor is alone on its line and nothing inserted holds one |
| `TextPatch.BeforeRerunIff` | cli/src/features.ts:459-466 | a single 'before' patch on its own output, when the sentinel line, whatever its indent, is in neither the file nor the inserted text: nothing changes if and only if the block holds no anchor or the first one in it has an indent that ends what stands in front of the sentinel |
| `TextPatch.OwnAnchorInsertsTwice` | cli/src/features.ts:459-461 | a patch that inserts its own anchor, indented, inserts again the next time |
| `Gomod.FindRequireBlock` | cli/src/baseline.ts:885-897 | the first line that opens a block and the first line after it that closes one; none also when the first is never closed |
| `Gomod.OpensIff` | cli/src/baseline.ts:889 | a line opens a block if and only if it is the word and a parenthesis, with white space anywhere around them |
| `Gomod.ClosesIff` | cli/src/baseline.ts:891 | and closes one if it is a parenthesis with white space around it |
| `Gomod.ParseEntryIff` | cli/src/baseline.ts:862 | a line lists a module if and only if it is white space, a word, white space, a word and a rest that starts with white space and holds no line terminator |
| `Gomod.TrimEndIs` | cli/src/baseline.ts:851 | all white space at the end goes, and nothing else |
| `Gomod.NothingToAdd` | cli/src/baseline.ts:844 | without overrides a file that has no block stays as it is |
| `Gomod.GoMod.ApplyOverrides` | cli/src/baseline.ts:833-883 | the file after the merge; a missing file stays missing |
| `Gomod.VersionsAreMerged` | cli/src/baseline.ts:855-875 | for every module, listed any number of times: the first line gets the new version, removed lines go, an unlisted override is appended |
| `Gomod.MergeIsMapUpdate` | cli/src/baseline.ts:855-875 | to a reader with the regular expression of the merge the block reads back as the old one without the removed modules, overridden by the added ones |
| `Gomod.ListingsAreMerged` | cli/src/baseline.ts:860-875 | for a reader that takes the first two words whatever follows, every module: lines that the merge does not see stay, among the others it does what it ought to |
| `Gomod.ReadsAsMapUpdateIff` | cli/src/baseline.ts:860-875 | to that reader the merge is the map update if and only if no such line lists a removed module, or is the first that stays of an added one with another version |
| `Gomod.CarriageReturnHidesLine` | cli/src/baseline.ts:862 | a module on a line that ends in a carriage return is not removed |
| `Gomod.LinesKept` | cli/src/baseline.ts:863-871 | the other lines stay in order, each unchanged or with only its version replaced, trailing comment kept |
| `Gomod.LeftIsUnlisted` | cli/src/baseline.ts:873-875 | appended are, in order, exactly the overrides that no surviving line lists |
| `Gomod.MergedFile` | cli/src/baseline.ts:877-882 | the result has its block at the same place, the lines around it are unchanged, and it reads back merged in that sense |
| `Gomod.SecondMergeIff` | cli/src/baseline.ts:833-883 | a second run is byte-identical if and only if no appended override that is also removed comes before one that is not |
| `Gomod.DisjointSecondRun` | cli/src/baseline.ts:833-883 | in particular when nothing is both added and removed |
| `Gomod.NewBlock` | cli/src/baseline.ts:843-853 | a file in which no line opens a block gets one with the overrides, after its own lines |
| `Gomod.NewBlockMerged` | cli/src/baseline.ts:843-853 | that block reads back as the overrides, with the same condition for a second run |
| `Gomod.UnclosedBlockIsAdopted` | cli/src/baseline.ts:889-893 | a block opened and never closed is not merged; the appended close closes it for the next run |
| `Permissions.ExtractPermissions` | fastapi/src/middlewares/_authz.py:114-150 | the filtered list and the map filled entry by entry |
| `Permissions.NormalizedValues` | fastapi/src/middlewares/_authz.py:132-149 | the valid methods of an entry, normalised |
| `Permissions.ListedCounts` | fastapi/src/middlewares/_authz.py:132-149 | the methods that count in a value of the map: those of a list, a single one, and of a map of flags those that are set |
| `Permissions.NormalizedIsResource` | fastapi/src/middlewares/_authz.py:45-46 | a resource is compared trimmed, in lower case and with underscores for hyphens |
| `Permissions.DenotedIsValid` | fastapi/src/middlewares/_authz.py:48-81 | a permission whose parts, around its first colon or else its first dot, are a name and known words is valid, and normalised to the grant as it is printed |
| `Permissions.ValidIsDenoted` | fastapi/src/middlewares/_authz.py:48-81 | and every valid permission stands for such a grant |
| `Permissions.OneGrant` | fastapi/src/middlewares/_authz.py:48-81 | only for one |
| `Permissions.GlobCuts` | fastapi/src/middlewares/_authz.py:178 | a pattern with a separator matches only where the text has one, each part its own side |
| `Permissions.GlobConcat` | fastapi/src/middlewares/_authz.py:178 | and it matches whenever both parts do |
| `Permissions.CandidateMatches` | fastapi/src/middlewares/_authz.py:176-181 | a candidate that matches a permission is covered by it in resource, action and scope; or what stands before some colon inside the resource is, and the rest starts with the action, if that is not a star |
| `Permissions.SomeCandidateMatches` | fastapi/src/middlewares/_authz.py:35-43 | some of the four candidates matches if the grant gives what is required, and only if, unless the resource leaks |
| `Permissions.SafeIffResource` | fastapi/src/middlewares/_authz.py:10 | the character filter lets through exactly the grants whose resource it lets through |
| `Permissions.ListGrantsIffGiven` | fastapi/src/middlewares/_authz.py:176-181 | the listed permissions grant access if one of their grants that passes the filter gives what is required, and only if, unless the resource leaks |
| `Permissions.FilterDropsIff` | fastapi/src/middlewares/_authz.py:180 | for a resource that passes the filter every listed grant counts, for any other one, letters outside ASCII say, only those with a star |
| `Permissions.MapGrantsIffGiven` | fastapi/src/middlewares/_authz.py:163-174 | the map grants access if and only if an entry that no later one hides gives what is required |
| `Permissions.AccessIffGranted` | fastapi/src/middlewares/_authz.py:152-181 | for every payload: access is granted if a listed grant that passes the filter, or one of a live map entry, has resource, action and scope each equal to the required one or a star, and only if, unless the resource leaks |
| `Permissions.StarReachesAcrossColon` | fastapi/src/middlewares/_authz.py:176-181 | with a name that a permission can have before its first colon, a resource is open to that permission with a star for the action: a payload that has access without a grant |
| `Permissions.StarStopsInsideResource` | fastapi/src/middlewares/_authz.py:176-181 | with another action and a dot after some colon, a resource is open to that action on all resources: a payload that has access without a grant |
| `Permissions.AccessIsGrantedIffNoLeak` | fastapi/src/middlewares/_authz.py:152-181 | for every resource: access is granted just when a grant gives it, for all payloads, if and only if the resource is of neither of these kinds |
| `Permissions.DistinctKeysCountAll` | fastapi/src/middlewares/_authz.py:128-149 | with keys distinct after normalisation and a resource that passes the filter and does not leak, every grant of the payload counts |
| `Permissions.LaterKeyHidesEarlier` | fastapi/src/middlewares/_authz.py:129-138 | two keys that normalise alike: the later entry replaces the earlier one |

## Left out

- Template lines are classified, and expressions evaluated, by the caller: the regular expressions of
  `cli/src/utils.ts` and its `new Function` evaluator are not modelled, nor are expressions that throw.
- Strings are sequences of characters; JavaScript's UTF-16 units, Go's invalid UTF-8 and case mapping
  that changes lengths are not modelled. Case folding under ILIKE maps character to character.
- SQL text, identifiers and their quoting, `buildOrderBy`, paging and the execution of statements: a
  clause is a term, and a row, its cells and the operators are supplied by the caller.
- AES-GCM, base64, UTF-8, JSON, SHA-256, argon2 and TOTP are functions that the caller supplies, with
  the inverse or length property that is needed of them; `decode_key` is not modelled.
- RateLimit.RateLimiter.Allow: counts in reals, so the rounding of floating point is not modelled; nor
  are the bypass for an empty key and the response headers other than Retry-After.
- ConfigCache: the loading of the ttl and of the key from the environment, and database errors other
  than a missing row; a call that fails or is cancelled is an event that ends it.
- Migrate: the lock is always given up after a return; a failing unlock, which would only make others
  wait, is not modelled. The file names are the same for every replica, and a migration that is applied
  again is taken to go through.
- Lockout: an attempt is one atomic step, so attempts that overlap between check and count are not
  covered; neither are successes between the failures that are counted, nor `consumeRecoveryCode`.
- AdminAccess: a request is one atomic step, or two, the checks and the write, each statement of the database
  being atomic. The rows of other tables and MFA are not modelled; how the
  database reads a text as a number is supplied by the caller, who has to agree with Go where Go reads it.
- AuditTrail.AuditedClient.RunAudit: one model, operations one at a time and at most one open transaction, to which
  they then belong; lookups and audit writes that do not fail, ids that are not empty; `writeActionFor`, skipped
  models and createMany or createManyAndReturn with skipped duplicates are not modelled. Nested writes, cascades
  and raw SQL change rows without an entry and are not modelled either.
- HashChain.Logger.Log: keeps the text that was hashed; what the JSONB columns make of it is in
  `HashChain.ReadBackVerifiesIff` and `HashChain.BlankAfterColonBreaks`.
- TextPatch.RerunChangesNothing: about the patches of one feature, whose anchors are single lines that
  start with a visible character, as all shipped ones do. Patches of package.json and composer.json and
  `appendEnvExample` are not modelled; the hash of a sentinel, `simpleHash`, is any function whose values
  have neither a newline nor a blank.
- Gomod.MergedFile: module paths and versions of the overrides are taken to be words without white space,
  as go.mod requires; the order of integer-like keys in a JavaScript object is not modelled.
- TextPatch.BeforeRerunIff: one patch; for lists of patches whose inserted texts hold anchors, and for files that have
  the sentinel line with another indent already, there is no exact condition.
- Permissions: the permission resolver, the mapping of paths and methods to a required
  permission, and payloads whose parts are not strings, lists or maps of strings are not modelled.
- Git operations and three-way merges, generators, installers, the front ends and infrastructure
  templates.
