# Verified model of the evidence, scope, session and resilience cores

A Dafny 4.11 model of six pieces of the repository in which one piece of code has to agree with a simpler
meaning over every input or every run. `dafny verify dfyconfig.toml` checks all of it.

| part | files |
|---|---|
| Canonical JSON: grammar, cursor parser, JCS printer, the two scanners that must agree with the grammar, the sanitizer | `Text`, `JsonGrammar`, `JsonParser`, `JsonFaults`, `JsonCursor`, `JsonCanonical`, `JsonScanners`, `Sanitize` |
| Scope roots: the memoised search over the foreign-key graph | `ScopeRoots`, `ScopeSearch`, `ScopeErrorFree`, `ScopeOrder`, `ScopeBoundary` |
| Reviewed backfill: the apply as a state machine, and the closure verifier that judges it later | `Backfill`, `BackfillScript`, `BackfillRuns`, `BackfillTables`, `BackfillReport`, `Closure`, `ClosureDetects` |
| Signing keys: keyrings, rotation schedules, session tokens, internal-principal tokens | `Keyring`, `CompactToken`, `SessionTokens`, `InternalPrincipal`, `TokenWire` |
| Base32 and time-based codes | `Base32`, `Totp` |
| CSV reader; circuit breaker and retry | `Csv`, `Resilience` |
| Shared: options, sequences without repetition, powers and products | `Options`, `Sequences`, `Numbers` |

How each part is built:

- A JavaScript string is a sequence of 16-bit code units (`Text`), so lone surrogates exist and are reasoned about.
- The RFC 8259 grammar is a datatype of derivation trees with the text each yields and the value it denotes. The parser
  is written twice: as functions (`JsonParser`), proved sound and complete for the grammar, and as the mutable cursor
  with its loops (`JsonCursor`), proved to compute those functions.
- Number conversion is a pair of functions `read`/`show` of which only this is used: `show` prints a JSON number token
  and `read` gets it back. `JsonGrammar.IntegersAreAFormat` shows such a pair exists.
- The depth-first search, the backfill script, the circuit breaker and the JSON cursor are classes whose methods update
  fields in place, each proved against a function of the old state; whole-run properties are lemmas about that function.
- Hashes, HMACs, timestamp and segment decoding are functions the model is given, never assumed injective. Where a claim
  needs two hashes to differ, it says which two. What the token formats ask of their segment encodings can be met under
  any keyed hash (`TokenWire.SessionWireExists`, `TokenWire.PrincipalWireExists`).

Where the code does not do what its documentation or an obvious reading promises, the exact boundary is proved:

- A second run of the same review file does nothing if and only if every quarantine verdict it would record is on
  record already (`BackfillRuns.RerunIsNoop`). On the review file alone it is enough that all quarantine entries for one
  project agree (`BackfillRuns.AgreeingRerunIsNoop`); two different ones overwrite each other on every run
  (`BackfillRuns.RerunFlipsDuplicates`).
- The request verifier is satisfied after an apply if and only if the review file lists every request, including those
  that already have a company, and lists none twice (`Closure.RequestVerdict`). An id listed twice whose request is
  extracted is counted twice, and the apply still commits (`Closure.RepeatedIdMismatch`). The dry run lists exactly the
  requests without a company, so applying its listing satisfies the verifier if and only if no request had one
  (`Closure.DryRunVerdict`).
- On a cyclic foreign-key graph the errors can depend on the order the models are listed in
  (`ScopeOrder.CyclicOrderMatters`); on an acyclic one they never do. Where every target is declared, no listing of a
  schema comes out with errors if and only if each child model reaches roots of exactly one category and no path is
  blocked: wherever a followed path without repetition leads, some root can be reached from its end off the path
  (`ScopeBoundary.AlwaysErrorFreeIff`). A blocked path is run into by some order of the same entries and relations
  (`ScopeBoundary.BlockedListing`); without cycles there is none (`ScopeErrorFree.AcyclicIsUnblocked`).
- Whatever the order, an empty error list is right: each child model reaches roots of exactly one category
  (`ScopeErrorFree.ErrorFreeMeansSingleRooted`), and any two error-free listings agree on it
  (`ScopeOrder.ErrorFreeListingsAgree`). An ambiguity that is reported is real (`ScopeErrorFree.AmbiguousIsReal`); a dead
  end need not be (`ScopeOrder.FalseErrorOnCycle`). A target nobody declared can hide a second category
  (`ScopeBoundary.UndeclaredTargetHides`).
- A time-based code is as many digits as asked for if and only if that is at least one; asked for none, the code is one
  digit, and nothing submitted is ever accepted (`Totp.CodeShape`, `Totp.NoDigits`).
- A session token is tolerated 30 seconds early only if the verifier already holds the keyring that signs it
  (`SessionTokens.KeyNotYetInstalled`), and the verify-only window is not enforced on a key that goes straight from
  active to retired (`SessionTokens.AbruptRetirementCutsTokens`).
- The circuit breaker is documented as allowing one half-open trial; it allows any number of simultaneous ones
  (`Resilience.HalfOpenAdmitsMany`).
- A CSV table whose first cell is unquoted and starts with U+FEFF loses that character (`Csv.RoundTrip`).
- The sanitizer leaves member names, and values nested below its depth limit, as they are
  (`Sanitize.SanitizedCleanIff`).

## Model

| member | source | states |
|---|---|---|
| `JsonParser.AcceptsExactlyAdmissibleDocuments` | packages/db/src/canonical-content-hash.ts:176-415 | the parser accepts a text iff it derives from the grammar with distinct decoded names at every depth, paired surrogates, finite numbers and nothing after; every such derivation then denotes the result |
| `JsonParser.DocumentAccepted` | packages/db/src/canonical-content-hash.ts:335-415 | completeness: every admissible derivation, whatever its whitespace and escapes, is accepted and read to the end |
| `JsonParser.AcceptedIsDocument` | packages/db/src/canonical-content-hash.ts:335-415 | soundness: an accepted text comes with a derivation that yields it and denotes the value |
| `JsonParser.ValueComplete` | packages/db/src/canonical-content-hash.ts:335-356 | the mutual recursion reads any admissible value in place, at any position of any text |
| `JsonParser.ValueSound` | packages/db/src/canonical-content-hash.ts:335-356 | what the mutual recursion reads at a position is the text of a derivation |
| `JsonParser.StringBodyComplete` | packages/db/src/canonical-content-hash.ts:176-238 | every spelling of a string, escapes in any form, is decoded |
| `JsonParser.StringBodySound` | packages/db/src/canonical-content-hash.ts:176-238 | an accepted literal is a spelling of what was decoded |
| `JsonParser.NumberEndComplete` | packages/db/src/canonical-content-hash.ts:240-267 | the number scan stops exactly at the end of a number token |
| `JsonParser.NumberEndSound` | packages/db/src/canonical-content-hash.ts:240-267 | what the number scan covers is a number token |
| `JsonFaults.GrammaticalOutcome` | packages/db/src/canonical-content-hash.ts:176-415 | a text that keeps the grammar is rejected exactly for its first fault in reading order (name repeated, surrogate unpaired, number not finite), with that code, and accepted otherwise |
| `JsonFaults.RejectionsMean` | packages/db/src/canonical-content-hash.ts:358-415 | the codes for a byte order mark and for empty input are given exactly for those; any other code but the three means the text does not keep the grammar |
| `JsonFaults.TrailingMeans` | packages/db/src/canonical-content-hash.ts:358-415 | trailing tokens are reported only behind a whole admissible document |
| `JsonCursor.SkipWs` | packages/db/src/canonical-content-hash.ts:148-150 | the cursor moves past exactly the JSON whitespace |
| `JsonCursor.ParseString` | packages/db/src/canonical-content-hash.ts:176-238 | the loop with its mutable output agrees with the string function in result, error and position |
| `JsonCursor.ParseNumber` | packages/db/src/canonical-content-hash.ts:240-267 | likewise for the digit loops |
| `JsonCursor.ParseObject` | packages/db/src/canonical-content-hash.ts:269-307 | likewise for the member loop, duplicate names rejected before their value is read |
| `JsonCursor.ParseArray` | packages/db/src/canonical-content-hash.ts:309-333 | likewise for the element loop |
| `JsonCursor.ParseValue` | packages/db/src/canonical-content-hash.ts:335-356 | likewise for the dispatch on the first character; the cursor strictly advances, so the recursion ends |
| `JsonCursor.ParseDocument` | packages/db/src/canonical-content-hash.ts:358-415 | the text entry point: byte order mark, empty input and trailing input rejected with their codes |
| `Text.HasLoneSurrogate` | packages/db/src/canonical-content-hash.ts:162-174 | the skipping scan answers true iff some surrogate is not half of a pair |
| `JsonCanonical.EscapeJcsString` | packages/db/src/canonical-content-hash.ts:73-89 | the escape loop prints the one literal that spells the string in lower-case hex and as short as any |
| `JsonCanonical.JcsSpellingExactly` | packages/db/src/canonical-content-hash.ts:73-89 | of all spellings that decode to a string the printer's is the one that is lower-case and no longer than any other |
| `JsonCanonical.CanonYield` | packages/db/src/canonical-content-hash.ts:102-121 | printed text is derived from the grammar without whitespace |
| `JsonCanonical.CanonDenotes` | packages/db/src/canonical-content-hash.ts:102-121 | the printed derivation denotes the printed value |
| `Text.SortedKeysUnique` | packages/db/src/canonical-content-hash.ts:110-117 | the code-unit order of an object's names determines their listing, so printing is no choice |
| `JsonCanonical.RoundTrip` | packages/db/src/canonical-content-hash.ts:73-129 | parsing the canonical text of any value without lone surrogates consumes exactly that text and returns the value |
| `JsonCanonical.NormalForm` | packages/db/src/canonical-content-hash.ts:102-121 | canonicalising the parse of any accepted text is a fixed point of parse-then-print |
| `JsonCanonical.ParsedClean` | packages/db/src/canonical-content-hash.ts:176-238 | every accepted text denotes a value the round trip covers |
| `JsonCanonical.CanonInjective` | packages/db/src/canonical-content-hash.ts:102-129 | equal canonical texts come from equal values |
| `JsonCanonical.SameEnvelopeSameValue` | packages/db/src/canonical-content-hash.ts:388-415 | two accepted texts have the same envelope iff they denote the same value |
| `JsonCanonical.EnvelopeLayout` | packages/db/src/canonical-content-hash.ts:388-401 | the envelope is its three members in code-unit order around the payload's own canonical text |
| `JsonScanners.ScanForObject` | packages/agent/src/json-extract.ts:27-50 | the brace-counting loop returns the first balanced candidate |
| `JsonScanners.CandidateIsObject` | packages/agent/src/json-extract.ts:27-50 | behind any prefix without an opening brace and before any suffix, the scan returns exactly the text of any JSON object |
| `JsonScanners.ExtractedValue` | packages/agent/src/json-extract.ts:27-50 | an object printed inside prose is extracted whole and parses back to itself |
| `JsonScanners.BalanceValue` | packages/agent/src/json-extract.ts:27-50 | inside a value's text the brace depth never falls to where it began: no proper prefix of an object is balanced |
| `JsonScanners.HasNoDuplicateTopLevelKeys` | packages/auth/src/session-jwt.ts:156-191 | the one-pass loop computes the duplicate scan |
| `JsonScanners.DuplicateScanExact` | packages/auth/src/session-jwt.ts:156-191 | on any JSON object text the scan answers true iff the decoded top-level names are pairwise distinct |
| `JsonScanners.ScanAgreesWithParser` | packages/auth/src/session-jwt.ts:156-191 | the scan and the recursive parser agree on top-level duplicates |
| `Sanitize.CleanStringIsClean` | packages/shared/src/sanitize.ts:11-16 | the three replacements leave no lone surrogate and no stripped control, and are idempotent |
| `Sanitize.CleanStringIdentity` | packages/shared/src/sanitize.ts:11-16 | clean strings pass through unchanged |
| `Sanitize.CleanStringKeeps` | packages/shared/src/sanitize.ts:11-16 | exactly the units that are no controls and, the controls gone, no broken half of a pair are kept, in order |
| `Sanitize.SanitizedInPlace` | packages/shared/src/sanitize.ts:9-24 | at every path into a value there is what there was, strings cleaned down to the depth limit and left alone below |
| `Sanitize.SanitizedCleanIff` | packages/shared/src/sanitize.ts:9-24 | a sanitized value is fit for canonicalisation iff its names and whatever lies below the depth limit already were |
| `Sanitize.SanitizedRoundTrip` | packages/shared/src/sanitize.ts:9-24 | any value nested at most 10 deep with well-formed names becomes one that survives print and parse |
| `ScopeSearch.Resolver.Resolve` | packages/db/src/scope-inventory.ts:784-843 | the method with its mutable memo and in-progress set computes the search function and ends on every graph |
| `ScopeSearch.Resolver.MandatoryEdges` | packages/db/src/scope-inventory.ts:805-805 | the edges the search follows from a model |
| `ScopeSearch.DeriveStructuralMismatches` | packages/db/src/scope-inventory.ts:734-864 | the whole pass returns the error list of the specification |
| `ScopeRoots.ResolveIsPlain` | packages/db/src/scope-inventory.ts:784-843 | on an acyclic graph the memoised search returns the unmemoised recursive verdict, from any memo, and memoises only such verdicts |
| `ScopeRoots.ResolveSound` | packages/db/src/scope-inventory.ts:784-843 | on any graph, cyclic included, every root verdict has a followed path to a root of that category and every ambiguous one paths to two categories, all off whatever models were on the stack throughout |
| `ScopeRoots.MismatchesArePlain` | packages/db/src/scope-inventory.ts:845-864 | the error list is the one the plain verdicts give |
| `ScopeErrorFree.ErrorFreeMeansSingleRooted` | packages/db/src/scope-inventory.ts:734-864 | on any graph with declared targets, cyclic included: with no errors every child model reaches roots of one single category and at least one, and that category is the verdict remembered for it |
| `ScopeErrorFree.AmbiguousIsReal` | packages/db/src/scope-inventory.ts:836-864 | on any graph, targets declared or not: a model reported as ambiguous reaches roots of two different categories |
| `ScopeErrorFree.UnblockedMeansErrorFree` | packages/db/src/scope-inventory.ts:734-864 | on any graph with declared targets: single-rooted children and no blocked path leave no errors |
| `ScopeErrorFree.AcyclicIsUnblocked` | packages/db/src/scope-inventory.ts:784-843 | on an acyclic graph with single-rooted children no path is blocked |
| `ScopeErrorFree.SingleRootedMeansErrorFree` | packages/db/src/scope-inventory.ts:734-864 | so on acyclic graphs single-rooted children are enough; on a cyclic one they need not be (`ScopeOrder.FalseErrorOnCycle`) |
| `ScopeErrorFree.ErrorFreeIffSingleRooted` | packages/db/src/scope-inventory.ts:734-864 | for one listing, targets declared: error-free implies single-rooted children on every graph, and is equivalent to it on acyclic ones |
| `ScopeBoundary.AlwaysErrorFreeIff` | packages/db/src/scope-inventory.ts:734-864 | on any graph with declared targets: no listing of the schema has errors iff children are single-rooted and no path is blocked; permutations of its entries and relations already decide it |
| `ScopeBoundary.CleanStaysCleanIff` | packages/db/src/scope-inventory.ts:734-864 | a listing without errors stays so under every rearrangement of its entries and relations iff no path is blocked |
| `ScopeBoundary.BlockedListing` | packages/db/src/scope-inventory.ts:784-864 | for a blocked path, some permutation of the entries and relations has errors |
| `ScopeBoundary.UndeclaredTargetHides` | packages/db/src/scope-inventory.ts:784-864 | an error-free listing whose child reaches two categories, the second through an undeclared target |
| `ScopeErrorFree.ErrorFreePathsAgree` | packages/db/src/scope-inventory.ts:734-864 | on any graph with no errors, everything a child reaches is global, a root of its category, or a model with that same single category |
| `ScopeOrder.OrderDoesNotMatter` | packages/db/src/scope-inventory.ts:768-864 | entries permuted and relations in any order: on an acyclic graph no verdict changes, whatever was asked before, and the errors are the same up to order |
| `ScopeOrder.ErrorFreeListingsAgree` | packages/db/src/scope-inventory.ts:734-864 | on any graph, two listings of one schema that are both error-free remember the same root for every child |
| `ScopeOrder.FalseErrorOnCycle` | packages/db/src/scope-inventory.ts:784-843 | on a three-model cycle whose children are single-rooted, one listing still reports an error |
| `ScopeOrder.CyclicOrderMatters` | packages/db/src/scope-inventory.ts:784-843 | a three-model cycle is error-free listed one way and an error listed the other |
| `Backfill.ResolvedExactly` | packages/db/src/scope-backfill.ts:124-219 | a request resolves iff its keys do not conflict, everyone is there and requester and target share exactly one company, which is chosen |
| `Backfill.MatchExactly` | packages/db/src/scope-backfill.ts:124-150 | a conflict is two ids among two given keys; otherwise the user named is the least of the id key, or of the email key if there is none |
| `Backfill.ClassifiedExactly` | packages/db/src/scope-backfill.ts:170-219 | each reason is given exactly under its own conditions in their order; candidates are the shared companies, ascending, where they decide |
| `Backfill.SortStableIsSorted` | packages/db/src/scope-backfill.ts:41-43 | candidate ids are the set's one ascending listing |
| `BackfillScript.Database.ProjectEntry` | packages/db/scripts/backfill-canonical-scope.ts:179-295 | one manifest entry updates the tables as specified, compare-and-swap included, or throws |
| `BackfillScript.Database.RequestId` | packages/db/scripts/backfill-canonical-scope.ts:306-384 | one request is resolved, or extracted to quarantine and deleted, or left, as specified |
| `BackfillScript.Database.ControlRow` | packages/db/scripts/backfill-canonical-scope.ts:415-484 | the control row is inserted, found identical, or refused, and rehashed |
| `BackfillScript.Database.Transaction` | packages/db/scripts/backfill-canonical-scope.ts:150-496 | the loops with their counters compute the specified new state and report |
| `BackfillScript.Database.RunApply` | packages/db/scripts/backfill-canonical-scope.ts:150-496 | a throw anywhere leaves every table as it was |
| `BackfillRuns.CompanyNeverOverwritten` | packages/db/scripts/backfill-canonical-scope.ts:179-295 | over any sequence of applies a project's company only moves from null to a value reviewed for it, and no project is lost |
| `BackfillRuns.RerunIsNoop` | packages/db/scripts/backfill-canonical-scope.ts:163-496 | a rerun changes nothing, counts 0 changes, reports the same and finds the control row identical, iff every quarantine verdict still due is on record |
| `BackfillRuns.AgreeingRerunIsNoop` | packages/db/scripts/backfill-canonical-scope.ts:163-496 | a rerun is such a no-op whenever the review file's quarantine entries for one project agree in classification and candidates |
| `BackfillRuns.DistinctRerunIsNoop` | packages/db/scripts/backfill-canonical-scope.ts:163-496 | in particular with distinct entries |
| `BackfillRuns.RerunFlipsDuplicates` | packages/db/scripts/backfill-canonical-scope.ts:209-247 | two different quarantine verdicts for one project are counted as two changes on a rerun |
| `BackfillRuns.ConservationIsReal` | packages/db/scripts/backfill-canonical-scope.ts:300-402 | every listed request ends live with a company or gone with a quarantine record, never both unless both before; the subtracted `extracted` is the number gone iff no id is listed twice |
| `BackfillRuns.DigestIgnoresDecisions` | packages/db/src/scope-backfill.ts:363-378 | filling in decisions leaves the manifest digest as the dry run had it |
| `BackfillTables.RequestsAsDecided` | packages/db/scripts/backfill-canonical-scope.ts:300-384 | after an apply every listed live request is untouched, has the one shared company, or is gone with a record of its whole row, the row's hash, its reason and candidates; all others are untouched |
| `BackfillTables.RequestsReported` | packages/db/scripts/backfill-canonical-scope.ts:306-384 | the report tells of each listed id in order what became of its request |
| `BackfillTables.ProjectsAsReviewed` | packages/db/scripts/backfill-canonical-scope.ts:163-295 | with one entry a project, each project's row, quarantine record and reported outcome are as its entry says: missing, consistent, drifted, in conflict, assigned, quarantined |
| `BackfillTables.RecordsAsReviewed` | packages/db/scripts/backfill-canonical-scope.ts:209-247 | entries repeated or not: a project's record is the one it had, or holds its row, the row's hash, and reason and candidates of an entry quarantining it |
| `BackfillReport.ChangesAreReal` | packages/db/scripts/backfill-canonical-scope.ts:402-415 | the change count is the number of projects scoped, verdicts recorded anew and requests scoped or extracted |
| `BackfillReport.CountsAddUp` | packages/db/scripts/backfill-canonical-scope.ts:386-415 | every entry and every listed request is in exactly one of the counts signed |
| `BackfillReport.ControlWritten` | packages/db/scripts/backfill-canonical-scope.ts:417-484 | every column of the control row a first apply writes |
| `BackfillReport.OneReviewOnly` | packages/db/scripts/backfill-canonical-scope.ts:447-484 | after one apply another review goes through only with the same manifest, digest and counts, and leaves the control row as it is |
| `BackfillReport.DigestCoversFacts` | packages/db/src/scope-backfill.ts:363-378 | manifests with one digest input show the same facts, and with no project twice the converse holds |
| `BackfillReport.EditedManifestRefused` | packages/db/scripts/backfill-canonical-scope.ts:152-165 | where the hash tells them apart, facts edited after the dry run are refused as stale |
| `BackfillReport.UnsignedRefused` | packages/db/scripts/backfill-canonical-scope.ts:121-160 | nothing is written unless every entry is decided and signed; otherwise the apply throws |
| `Closure.VerifyControlRow` | packages/db/src/scope-closure.ts:133-260 | a blocker is reported iff its condition holds; a malformed row ends the checks early |
| `Closure.VerifyProjectClosure` | packages/db/src/scope-closure.ts:308-363 | a project is blocked, and why, iff neither a reviewed assignment nor a matching quarantine accounts for it |
| `Closure.VerifyRequestClosure` | packages/db/src/scope-closure.ts:422-455 | each request blocker is reported iff its count condition holds |
| `Closure.ControlRowClean` | packages/db/src/scope-closure.ts:133-260 | the control row a first apply writes passes every check |
| `Closure.ProjectVerdict` | packages/db/src/scope-closure.ts:308-363 | after a first apply, entries repeated or not, a project passes iff the last entry for it accounts for the company the apply leaves it with |
| `Closure.ReadyWhenDistinct` | packages/db/src/scope-closure.ts:308-363 | with distinct entries that is: scoped as reviewed before, or listed and undrifted |
| `Closure.RequestVerdict` | packages/db/src/scope-closure.ts:422-455 | after a first apply the request checks pass iff the review lists every request and none twice |
| `Closure.RepeatedIdMismatch` | packages/db/scripts/backfill-canonical-scope.ts:300-402 | an unresolvable request listed twice is counted as two extractions against one record, and the mismatch is reported |
| `Closure.SummarizeRoleChangeRequests` | packages/db/scripts/backfill-canonical-scope.ts:90-103 | the dry run's loop sorts the requests it is given into three lists by classification, order kept |
| `Closure.DryRunListsNulls` | packages/db/scripts/backfill-canonical-scope.ts:90-103 | the dry run lists each request without a company once, and no other |
| `Closure.DryRunVerdict` | packages/db/src/scope-closure.ts:422-455 | applying exactly the dry run's listing satisfies the request checks iff no request had a company |
| `Closure.ApplyEstablishesClosure` | packages/db/src/scope-closure.ts:133-455 | apply establishes what the three verifiers demand, with the exact condition for each and no condition on repeated entries or ids |
| `ClosureDetects.PassesExactly` | packages/db/src/scope-closure.ts:133-260 | in any state the control row passes iff it agrees with its own hash, digests, manifest, resolution and mode |
| `ClosureDetects.NotGenuine` | packages/db/src/scope-closure.ts:133-260 | which code each disagreement is reported under |
| `ClosureDetects.EditsReported` | packages/db/src/scope-closure.ts:133-260 | any one column of a first apply's control row changed afterwards is reported, with its code, unless the hash or digest is the same |
| `ClosureDetects.EditsPassing` | packages/db/src/scope-closure.ts:133-260 | a manifest or a resolution exchanged in it passes iff it has the same digest, respectively repeats the digests, adds up and is signed |
| `ClosureDetects.LiveCodesExactly` | packages/db/src/scope-closure.ts:422-435 | in any state the first two request codes are reported iff some request has no company, respectively a record |
| `ClosureDetects.PassingConserves` | packages/db/src/scope-closure.ts:422-455 | a later state that passes has every listed request live with a company or on record, never both |
| `ClosureDetects.RequestEditsReported` | packages/db/src/scope-closure.ts:422-455 | from there each single loss, addition or revival of a request or record is reported |
| `ClosureDetects.ProjectCodesExactly` | packages/db/src/scope-closure.ts:308-363 | what any later company of a project is reported as, given its last entry and its record |
| `Keyring.ConsistentNext` | packages/config/src/user-jwt.ts:204-259 | a keyring is consistent iff each entry in turn is in order, new, and not a second active one |
| `Keyring.Knows` | packages/config/src/user-jwt.ts:199-276 | what the parsed configuration answers for a key id of each state |
| `Keyring.ParsedInOrder` | packages/config/src/user-jwt.ts:199-276 | in a parsed configuration the three groups are disjoint, demoted keys are in order, not overdue and keep the whole window, and tombstones hold no secret |
| `Keyring.KeyStands` | packages/config/src/user-jwt.ts:199-276 | over any schedule, in which tombstones may be dropped, a key that signs in one keyring is in any other signing, demoted with its secret and full window, retired after the window, or unknown: before it was installed, or once its tombstone is dropped |
| `SessionTokens.ParseUserKeyring` | packages/config/src/user-jwt.ts:199-276 | the loop succeeds iff the whole keyring is in order with the named active key, and returns its configuration |
| `SessionTokens.VerifiedWithinKey` | packages/auth/src/session-jwt.ts:295-343 | whatever verifies is sealed with an honoured key, dated while it signed (never at or after demotion), and within TTL, skew and the key's own cutoff, with the contract's issuer, audience and version |
| `SessionTokens.IssuedVerifiesExactly` | packages/auth/src/session-jwt.ts:107-132 | a signed token verifies to its claims iff in its lifetime, after activation, before any demotion; the cutoff never decides |
| `SessionTokens.VerifiedSaysWhatWasSigned` | packages/auth/src/session-jwt.ts:257-293 | what a signed token verifies to is, field by field, what was given to sign: facts kept or absent, subject and id trimmed, dates from the moment of signing |
| `SessionTokens.SignsUnlessBlank` | packages/auth/src/session-jwt.ts:257-260 | signing is refused exactly for a blank subject |
| `SessionTokens.RotationTransparency` | packages/auth/src/session-jwt.ts:257-343 | over any schedule that retires no key before its `verifyUntil`, exactly when a token signed under one keyring verifies under another, with its claims unchanged; a dropped tombstone ends no live token |
| `SessionTokens.KeyNotYetInstalled` | packages/auth/src/session-jwt.ts:335-335 | inside the skew but before the rotation the token is rejected |
| `SessionTokens.AbruptRetirementCutsTokens` | packages/config/src/user-jwt.ts:245-259 | a tombstone whose cutoff is its demotion parses, and cuts off a one-second-old token |
| `InternalPrincipal.ParseProfile` | packages/config/src/internal-principal.ts:171-215 | one profile's loop succeeds iff its keyring is in order under the 65-second cutoff |
| `InternalPrincipal.RejectReuse` | packages/config/src/internal-principal.ts:225-235 | the scan passes iff no key id and no secret is used twice across all four keyrings |
| `InternalPrincipal.NoReuseMeans` | packages/config/src/internal-principal.ts:225-235 | that is, any two active or demoted keys, of one profile or of two, differ in id and in secret |
| `InternalPrincipal.CanonicalExactly` | packages/auth/src/internal-principal.ts:160-171 | capabilities pass iff non-empty, allowed and distinct; the result is the one ascending listing and passes again unchanged |
| `InternalPrincipal.IssuedVerifiesExactly` | packages/auth/src/internal-principal.ts:192-267 | an issued token yields the issued facts iff the clock is in [iat-5, iat+60], the request is the one issued for up to hashes, and its key signs or was demoted later |
| `InternalPrincipal.VerifiedSaysWhatWasIssued` | packages/auth/src/internal-principal.ts:192-209 | what an issued token verifies to is, field by field, what it was issued for |
| `InternalPrincipal.IssuedInOrder` | packages/auth/src/internal-principal.ts:140-209 | issuing succeeds iff subject, scope, capabilities and request are in order for the profile |
| `InternalPrincipal.BoundToOneRequest` | packages/auth/src/internal-principal.ts:237-238 | a request differing in profile, method, path, query or body is refused, short of a hash collision on that query or body |
| `InternalPrincipal.RotationTransparency` | packages/auth/src/internal-principal.ts:192-267 | the same over any rotation schedule of the profile's keyring |
| `InternalPrincipal.DemotionChangesNoVerdict` | packages/auth/src/internal-principal.ts:255-259 | demoting a key under D+65 changes no verdict on any text dated before D and refuses everything dated later |
| `InternalPrincipal.VerifiedIsBound` | packages/auth/src/internal-principal.ts:214-267 | whatever verifies is sealed with an honoured key of the profile, carries its identity and only its capabilities, is bound to this request, in order itself, and is in its lifetime |
| `TokenWire.SessionWireExists` | packages/auth/src/session-jwt.ts:201-255 | whatever the keyed hash, there are segment encodings the session format's laws hold of |
| `TokenWire.PrincipalWireExists` | packages/auth/src/internal-principal.ts:192-209 | the same for internal principals, for any 32-byte keyed hash, any digest and any URL parser |
| `InternalPrincipal.KeysStayInTheirProfile` | packages/auth/src/internal-principal.ts:246-267 | a key of one profile never vouches for another |
| `Base32.EncodeBase32` | packages/auth/src/totp.ts:26-40 | the loop over an unmasked 32-bit accumulator emits the five-bit groups of the bit string |
| `Base32.DecodeBase32` | packages/auth/src/totp.ts:44-61 | the loop returns the whole bytes of the text's bits, or throws on an empty or foreign text |
| `Base32.ShiftHolds` | packages/auth/src/totp.ts:31-31 | only the low pending bits of the accumulator matter, whatever overflowed above them |
| `Base32.ExtractHolds` | packages/auth/src/totp.ts:33-36 | what is read out are the top pending bits, and the rest stays pending |
| `Base32.StrippedKeeps` | packages/auth/src/totp.ts:45-45 | normalising keeps exactly the units that are neither white space nor hyphens |
| `Base32.UnpaddedCuts` | packages/auth/src/totp.ts:45-45 | and cuts off exactly the equals signs at the end |
| `Base32.DecodeEncode` | packages/auth/src/totp.ts:26-61 | decoding the encoding returns every byte string but the empty one, which throws |
| `Base32.EncodeDecode` | packages/auth/src/totp.ts:26-61 | re-encoding returns the normalised text iff its length is canonical and its trailing bits are zero |
| `Totp.CounterContains` | packages/auth/src/totp.ts:67-70 | the counter of an instant is the step that contains it, before the epoch too |
| `Totp.Truncated` | packages/auth/src/totp.ts:77-82 | the four masked and shifted bytes are the low 31 bits of the big-endian number where the last nibble points |
| `Totp.CodeShape` | packages/auth/src/totp.ts:73-84 | a code is decimal digits that denote the truncated hash modulo the power of ten; as many as asked for, or one when none is asked for |
| `Totp.CodeExactly` | packages/auth/src/totp.ts:73-84 | among texts of the asked length, the code is the one that denotes that value; of length 0 there is none |
| `Totp.VerifyTotpCode` | packages/auth/src/totp.ts:109-137 | the full-window loop answers as specified, negative counters skipped, or throws on a bad secret |
| `Totp.AcceptedExactly` | packages/auth/src/totp.ts:109-137 | a counter is accepted iff at least one digit is asked for, the instant lies within the skew of its step, the candidate denotes its value and no earlier one's in reach, and it exceeds the stored one |
| `Totp.NoDigits` | packages/auth/src/totp.ts:114-137 | with no digits asked for nothing is accepted: what each submission gets instead |
| `Totp.CountersIncrease` | packages/auth/src/totp.ts:109-137 | over any run that stores accepted counters they strictly increase, even if the clock steps back |
| `Totp.AcceptancesBounded` | packages/auth/src/totp.ts:109-137 | acceptances while the clock lies in [t1, t2] number at most counter(t2) - counter(t1) + 2 skew + 1 |
| `Csv.ParseCsv` | packages/db/scripts/import-finance-csv.ts:27-66 | the loop computes the reader's rows |
| `Csv.RoundTrip` | packages/db/scripts/import-finance-csv.ts:27-66 | any table printed by section 2 of RFC 4180 (LF, CRLF or CR, final break or not) reads back as exactly its rows with a non-empty cell, iff the first cell is quoted or does not start with U+FEFF |
| `Csv.ReadTable` | packages/db/scripts/import-finance-csv.ts:27-66 | the same for the text after the byte order mark, embedded quotes, commas and breaks intact |
| `Csv.ReadParts` | packages/db/scripts/import-finance-csv.ts:37-56 | a quote opens a quoted stretch wherever it stands in a cell, and the stretches are read in order |
| `Resilience.CircuitBreaker.Start` | packages/infra/src/resilience.ts:77-86 | a call goes through iff the circuit is not open at that moment |
| `Resilience.CircuitBreaker.Succeed` | packages/infra/src/resilience.ts:87-91 | a settled success closes the circuit and clears the count |
| `Resilience.CircuitBreaker.Fail` | packages/infra/src/resilience.ts:92-99 | a settled failure counts, and opens or re-opens the circuit at the threshold |
| `Resilience.CircuitBreaker.Exec` | packages/infra/src/resilience.ts:83-100 | one uninterrupted call, rejected calls changing nothing |
| `Resilience.OpenExactly` | packages/infra/src/resilience.ts:66-101 | over any interleaving: the count is the failures since the last success, and the circuit is open iff they reach the threshold (at least one) |
| `Resilience.OpenAtThreshold` | packages/infra/src/resilience.ts:66-101 | open iff failures since the last success reach the threshold, iff the threshold is positive or there was such a failure |
| `Resilience.RejectedExactly` | packages/infra/src/resilience.ts:77-86 | after any run a call is rejected iff the failures since the last success have reached the threshold and the last is less than a cooldown ago |
| `Resilience.HalfOpenAdmitsMany` | packages/infra/src/resilience.ts:61-86 | after the cooldown any number of calls start before one settles |
| `Resilience.StartsBounded` | packages/infra/src/resilience.ts:66-101 | one call at a time with no success over a duration T: at most threshold + floor(T / cooldown) start |
| `Resilience.WithRetry` | packages/infra/src/resilience.ts:33-53 | which attempts are made, what is returned or thrown, and every delay slept |
| `Resilience.DelaysDouble` | packages/infra/src/resilience.ts:47-47 | the first delay is the base and each next one twice the one before |
| `Resilience.TotalDelay` | packages/infra/src/resilience.ts:47-47 | n retries sleep base * (2^n - 1) in all |

## Left out

- Prisma, raw SQL, `FOR UPDATE` locks, `lastSeenAt` and other timestamps: tables are maps, a transaction is one step, concurrent writers are not modelled.
- Postgres `jsonb::text` digests: `digest` is a function of the structured value, with no claim that it is injective.
- Number printing: IEEE-754 shortest printing is the given `show`; -0 and 0 are one number.
- Byte input: `decodeInput` on a `Uint8Array` and the `INVALID_UTF8` code; the model starts from text.
- `Closure.VerifyControlRow`: rows are typed, so malformations no type allows (a conservation that is not numbers, another `applyState`) are not represented.
- `JsonCursor.ParseDocument`: stops at the value; the SHA-256 of the envelope is left out because nothing but equality of envelopes bears on it.
- `extractJsonObject` before its scan stage: the attempts on the whole text and on fenced blocks, and the final `JSON.parse`.
- Segment decoding of tokens: base64url, UTF-8, `JSON.parse`, JCS comparison and the zod schemas are one reader that returns nothing for every malformed segment and undoes the writer.
- Environment checks of `parseUserJwtConfig` and `parseInternalPrincipalConfig` other than the keyrings: byte-match comparisons with constants.
- Error messages and which of several errors is reported first by the keyring parsers: each throws one error class.
- `InternalPrincipal.ParseProfile`: timestamps are read by a given function, so the calendar round trip in `parseTimestamp` is not modelled.
- The URL parser behind `normalizedPath`: a given function compared with the path.
- Upper-casing of Base32 text: a given function assumed only to leave the alphabet alone.
- `Totp.VerifyTotpCode`: constant-time comparison, the 64-bit limit of the counter buffer, settings that are not whole numbers, and a step of zero seconds, for which there is no counter.
- The snapshot round-trip check of request extraction: it compares a row with a copy of itself and cannot fail.
- Column types of row snapshots: a snapshot is the row.
- Blocker messages and the verifier's mode result; `verifyCompanyTenantIntegrity` and `buildClosureReport`: one-pass expressions.
- `buildScopeInventoryReport`, `expectedCategoryCounts`, `validateChildViaFkEntries`: tallies that one reading settles.
- `SessionTokens.RotationTransparency`: over schedules that drop only tombstones and never use a dropped key id again; the parser sees one keyring at a time and cannot tell.
- `Resilience.StartsBounded`: a cooldown of zero or less gives no bound, and a clock that runs backwards is not considered.
- `Resilience.WithRetry`: the attempts are a function of their number; the sleeping itself and `defaultShouldRetry` are not modelled.
- `Csv.RoundTrip`: cells quoted as a whole or not at all; quotes opened inside a cell are covered cell by cell (`Csv.ReadParts`), and a quote never closed has no law.
- `buildProjectManifest` and `classifyProjectCompanyScope`: the manifest's facts are an input.
- Tables the code fixes (issuers, capabilities, lifetimes, non-scope models): constants of the model.
