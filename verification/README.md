# Tikka: models and proofs of the stateful core

This project models the parts of the Tikka repository whose correctness depends on many steps rather than on one
line, and proves what they guarantee. Each Dafny file models one source file or one concern of it; the contracts
say what the source promises, and the lemmas carry it over whole runs, whole trees and every interleaving.

- **Refresh-token rotation** (`RefreshTokens`, `AuthService`, `AuthSerial`, `AuthInterleaved`, `AuthOverlap`).
  `RefreshTokens` holds the table, its statements and the effect of whole calls; `AuthService` is the class whose
  methods run the statements; `AuthSerial` reasons about runs of whole calls; `AuthInterleaved` makes every database
  statement a step of its own, lets any of them fail and lets any call stop; `AuthOverlap` says which interleavings
  are safe and when a revocation is final.
- **Orphan image cleanup** (`PercentEncoding`, `BucketPath`, `BucketTree`, `OrphanCleanup`). The bucket is a tree of
  folders addressed by path strings, listed page by page; the metadata table is a fixed sequence of rows.
- **Locale completeness** (`LocaleTree`, `CheckLocales`). Nested objects, their dotted keys, and the comparison.
- **Redaction** (`WalletAddresses`, `Redaction`, `RedactionProofs`). Two telemetry redactions, the log redaction, and
  the regular expression for Stellar keys.
- **Repository checks** (`TsconfigBase`, `Decimal`, `Migrations`, `SchemaDrift`, `Ordering`). Links between tsconfig
  files, the migration validator against the order in which migrations are applied, and the canonical schema form.

`Basics` and `Text` hold shared datatypes and JavaScript's string operations.

## Where the code and its documentation differ

The model follows the code.

- `signOut` promises to revoke the family (auth.service.ts:252-255), but ignores the error of its lookup
  (auth.service.ts:269-274) and swallows the error of the family statement (auth.service.ts:335-337). It always reports
  success, and a family is dead afterwards exactly when it was dead before, or the token is one of its own and neither
  statement failed: `AuthSerial.SignOutRevokesIff`, with `AuthSerial.SignOutMayNotRevoke` as an input that fails.
  The error text "session revoked" (auth.service.ts:226) is true under the same condition: `AuthSerial.ReuseRevokesIff`.
  With other calls in flight a revocation that did succeed is final exactly when no refresh of that family sits between
  its lookup and its last statement: `AuthOverlap.RevocationIsFinalIffNoHolder`.
- The revoke update has no `revoked = false` filter (auth.service.ts:235-238), so overlapping refreshes of one token
  fork the family: a lookup that selects a row can lead to two live rows exactly when its token is in flight already
  (`AuthOverlap.FirstOverlapForksIff`). `AuthInterleaved.ForksAreBounded` gives the bound and
  `AuthOverlap.ForkBoundIsReached` attains it.
- `token_hash` is UNIQUE (backend/database/migrations/006_refresh_tokens.sql:7) and a signed token carries no id of its
  own (auth.service.ts:290-295). A refresh with a live token therefore ends the session exactly when it gets past the
  revoke update and either the insert fails or the signer returned a token that is in the table already:
  `AuthSerial.RefreshEndsSessionIff`. `AuthSerial.RepeatedTokenEndsSession` is such an input without any fault, a refresh
  for which the signer repeats the token of the login.
- "alphabetical = numerical" (check-schema-drift.ts:175) holds exactly up to 999 migrations and only when no `.sql`
  name was skipped by the validator: `Migrations.AppliedInNumericOrderIff`. Accepted listings of both kinds that fail
  are in `Migrations.AcceptedBeyond999`, `Migrations.AcceptedWithSkippedName` and `Migrations.SkippedNameExample`.
- The drift check passes on any schema when the `diff` tool reports nothing, for instance because it could not be
  started (check-schema-drift.ts:286-300): `SchemaDrift.CheckDrift`.
- `extractBucketPath` is documented to return null for anything that is not in the bucket
  (cleanup-orphan-images.ts:111), but it looks at neither host nor bucket. `BucketPath.ExtractsIff` says exactly which
  URLs are accepted, `BucketPath.OtherBucketAcceptedIff` which public URLs of other buckets are, and
  `BucketPath.OtherBucketsCanBeAccepted` is one of them. Unencoded URLs are read back exactly under the condition in
  `BucketPath.ExtractOfRawUrl`.
- n rows are read with exactly n / 1000 + 1 requests (`OrphanCleanup.CollectReferencedPaths`), so 1500 rows take two;
  the unit test expects three (cleanup-orphan-images.spec.ts:205).
- Keys with dots make different locale trees flatten alike: `LocaleTree.DottedKeysCollide`.

## Model

| member | source | states |
|---|---|---|
| RefreshTokens.Find | backend/src/auth/auth.service.ts:207-212 | the lookup returns a row with the hash, and none only when no row has it |
| RefreshTokens.RevokeFamily | backend/src/auth/auth.service.ts:329-333 | exactly the rows of the family become revoked, nothing else changes |
| AuthServiceModel.AuthService.StoreRefreshToken | backend/src/auth/auth.service.ts:302-324 | a row is appended exactly when the statement succeeds and the hash is new; nothing else changes |
| AuthServiceModel.AuthService.RevokeFamilyById | backend/src/auth/auth.service.ts:327-338 | after success the family has no live row; a failure changes nothing and is not reported |
| AuthServiceModel.AuthService.IssueTokens | backend/src/auth/auth.service.ts:154-176 | the new row joins the given family, or a random one for a login; the outcome tells whether it was stored |
| AuthServiceModel.AuthService.Refresh | backend/src/auth/auth.service.ts:188-246 | the method's table and outcome are those of the call's effect, on every error path; after a reported reuse the session is dead exactly when it was before or its revoking statement succeeded |
| AuthServiceModel.AuthService.SignOut | backend/src/auth/auth.service.ts:256-280 | success is always reported; a family is dead afterwards exactly when it was dead before, or the token is its own and neither statement failed |
| AuthSerial.LoginStores | backend/src/auth/auth.service.ts:154-176 | a login appends one live row with the signed address, the new hash, its expiry and the random family exactly when the insert works and the token is new, and otherwise changes nothing |
| AuthSerial.RefreshErrors | backend/src/auth/auth.service.ts:188-238 | exactly when each error is reported, in the order of the checks |
| AuthSerial.RefreshSucceeds | backend/src/auth/auth.service.ts:188-246 | when a refresh succeeds, and that it then retires one row and appends one live successor of the same family |
| AuthSerial.FailedRefresh | backend/src/auth/auth.service.ts:214-242 | what each failure leaves behind; a failed refresh with a live token ends the session exactly when the successor was not stored |
| AuthSerial.RefreshEndsSessionIff | backend/src/auth/auth.service.ts:229-245 | exactly when a refresh with a live token ends its session: past the revoke update, the insert fails or the new token is in the table already |
| AuthSerial.RepeatedTokenEndsSession | backend/src/auth/auth.service.ts:290-324 | with no fault at all, a signer that repeats the login's token ends the session |
| AuthSerial.SignOutRevokesIff | backend/src/auth/auth.service.ts:256-280 | for every table and family, exactly when a sign-out leaves the family dead, against "revoke all active refresh tokens" |
| AuthSerial.SignOutMayNotRevoke | backend/src/auth/auth.service.ts:269-276 | a sign-out with a failing lookup or family statement reports success and leaves the session live |
| AuthSerial.ReuseRevokesIff | backend/src/auth/auth.service.ts:219-227 | exactly when reuse is reported, and exactly when the session is then dead |
| AuthSerial.ReuseRevokesFamily | backend/src/auth/auth.service.ts:219-227 | row by row, what reuse detection leaves in the table |
| AuthSerial.SignOutRevokesFamily | backend/src/auth/auth.service.ts:256-280 | row by row, what a sign-out leaves in the table, for known and unknown tokens |
| AuthSerial.ValidRunIff | backend/src/auth/auth.service.ts:170-173 | the runs that are considered are exactly those in which each login's family id is new in the table it meets |
| AuthSerial.ApplyKeepsInvariant | backend/src/auth/auth.service.ts:154-280 | every call keeps unique hashes, only the newest row of a family live, and one signed address per family |
| AuthSerial.TokenRefreshedAtMostOnce | backend/src/auth/auth.service.ts:219-238 | in every serial run a token is refreshed at most once, and never after it was retired |
| AuthSerial.NeverRefreshedTwice | backend/src/auth/auth.service.ts:219-238 | of any two calls of a run that present the same token at most one is answered with a successor |
| AuthSerial.SuccessIsCounted | backend/src/auth/auth.service.ts:188-246 | the count of a token's successes misses none |
| AuthSerial.FamilyRowCount | backend/src/auth/auth.service.ts:170-173 | a family has one row for its login and one per successful refresh |
| AuthSerial.DeadForever | backend/src/auth/auth.service.ts:219-246 | in every serial continuation a family without live rows gains none and none of its tokens is refreshed |
| AuthSerial.SerialRuns | backend/src/auth/auth.service.ts:154-246 | the four properties together for every serial run from the empty table |
| AuthInterleaved.RevokedStaysRevoked | backend/src/auth/auth.service.ts:235-238 | in every interleaved run rows are only appended, keep their identity and never come back to life |
| AuthInterleaved.AnyStatementMayFail | backend/src/auth/auth.service.ts:235-242 | in every state any call may stop or have its next statement fail, which ends it and leaves the table and the other calls alone |
| AuthInterleaved.StepConserves | backend/src/auth/auth.service.ts:207-245 | each statement keeps live rows plus rotations in flight, up to repeated revocations and losses |
| AuthInterleaved.RunConserves | backend/src/auth/auth.service.ts:207-245 | over a run, live rows, rotations in flight and losses equal one plus the repeated revocations |
| AuthInterleaved.ForksAreBounded | backend/src/auth/auth.service.ts:207-245 | with no assumption on overlap, a family forks at most once per repeated revocation |
| AuthInterleaved.OneAddressInEveryRun | backend/src/auth/auth.service.ts:170-173 | in every interleaved run all rows of a family carry one address, the one signed into their tokens |
| AuthOverlap.StepKeepsClaim | backend/src/auth/auth.service.ts:188-246 | without overlap each statement keeps unheld live rows plus holders in flight at most one per family |
| AuthOverlap.NoOverlapNoFork | backend/src/auth/auth.service.ts:188-246 | in every interleaving with failures and no overlapping refreshes of a token, a family has at most one live row |
| AuthOverlap.NeverForksIffSingleClaim | backend/src/auth/auth.service.ts:188-246 | no continuation without overlap forks a family exactly when unheld live rows and holders number at most one per family |
| AuthOverlap.FirstOverlapForksIff | backend/src/auth/auth.service.ts:207-245 | after every run without overlap, a lookup that selects a row lets its family fork exactly when the token is in flight already |
| AuthOverlap.NoOverlapRefreshesOnce | backend/src/auth/auth.service.ts:219-245 | in every interleaving without overlap each token gets at most one successor |
| AuthOverlap.ForkBoundIsReached | backend/src/auth/auth.service.ts:235-245 | for every n some run refreshes one token n times and ends with n live rows after exactly n - 1 repeated revocations, so the bound is exact |
| AuthOverlap.StaysDeadIffQuiet | backend/src/auth/auth.service.ts:219-245 | a family has no live row in any continuation exactly when it has none now and no refresh holds one of its rows |
| AuthOverlap.RevocationIsFinalIffNoHolder | backend/src/auth/auth.service.ts:252-280 | in every run from the empty table a successful family revocation is final exactly when no refresh of the family is in flight |
| AuthOverlap.SignOutIsFinalIff | backend/src/auth/auth.service.ts:256-280 | with nothing in flight, exactly when a sign-out ends the session for every interleaved continuation |
| AuthOverlap.CallIsInterleaving | backend/src/auth/auth.service.ts:188-280 | whatever else is in flight, a call's own lookup followed by its own later statements has the effect of the whole call and leaves the other calls alone |
| AuthOverlap.SerialRunIsInterleaving | backend/src/auth/auth.service.ts:188-280 | every serial run is one of the interleaved runs without overlap |
| PercentEncoding.DecodeInvertsEncode | backend/scripts/cleanup-orphan-images.ts:121-123 | decoding recovers a string from every percent-encoding of it over UTF-8, whatever the encoder escapes |
| PercentEncoding.DecodeIff | backend/scripts/cleanup-orphan-images.ts:121-126 | what decodes and to what: exactly the spellings over UTF-8, and malformed escapes, overlong forms and surrogates not at all |
| PercentEncoding.HexValueIff | backend/scripts/cleanup-orphan-images.ts:121-123 | hex digits count in either case, nothing else does |
| PercentEncoding.EveryStringHasAnEncoding | backend/scripts/cleanup-orphan-images.ts:121-123 | every string has such an encoding |
| PercentEncoding.DecodeFixes | backend/scripts/cleanup-orphan-images.ts:122-126 | decoding never lengthens and changes nothing exactly when there is no percent sign |
| BucketPath.ExtractInvertsPublicUrl | backend/scripts/cleanup-orphan-images.ts:113-128 | a public URL of a non-empty path, with any query or fragment, gives that path back |
| BucketPath.ExtractOfRawUrl | backend/scripts/cleanup-orphan-images.ts:113-128 | exactly which unencoded paths are read back |
| BucketPath.ExtractsIff | backend/scripts/cleanup-orphan-images.ts:113-128 | exactly which URLs are accepted: the first marker is followed by a path character |
| BucketPath.ExtractIff | backend/scripts/cleanup-orphan-images.ts:113-128 | exactly what a URL is read as: what the part between first marker and query or fragment spells, or that part itself when it spells nothing |
| BucketPath.OtherBucketAcceptedIff | backend/scripts/cleanup-orphan-images.ts:111-117 | exactly which public URLs of other buckets are accepted (the marker may be in path, query or fragment), against the documented null |
| BucketPath.OtherBucketsCanBeAccepted | backend/scripts/cleanup-orphan-images.ts:111-117 | a public URL of another bucket whose object sits in a folder with this bucket's name is accepted |
| BucketTree.ChildContents | backend/scripts/cleanup-orphan-images.ts:202-205 | the path built for a folder lists exactly that folder |
| BucketTree.WalkListsEveryFileOnce | backend/scripts/cleanup-orphan-images.ts:172-219 | the listing holds exactly the files that paths lead to, each once, under that path |
| BucketTree.WalkAfterRemoval | backend/scripts/cleanup-orphan-images.ts:225-231 | removing paths from the tree removes exactly their objects from the listing |
| OrphanCleanup.Page | backend/scripts/cleanup-orphan-images.ts:180-186 | a page holds the entries from its offset on, up to the limit |
| OrphanCleanup.ListAllObjects | backend/scripts/cleanup-orphan-images.ts:172-219 | terminates for folders of any size; succeeds exactly when none of the page requests the walk needs fails, and then returns the whole walk |
| OrphanCleanup.ListingSucceedsIff | backend/scripts/cleanup-orphan-images.ts:180-191 | the requests of a folder: one for every hundred entries and one more, and those of its subfolders |
| OrphanCleanup.CollectReferencedPaths | backend/scripts/cleanup-orphan-images.ts:131-166 | succeeds exactly when no page up to the last one fails, and then has the references of every row after n / 1000 + 1 requests |
| OrphanCleanup.ReferencedIff | backend/scripts/cleanup-orphan-images.ts:150-159 | a path is referenced exactly when the main URL of some row, or one of its gallery URLs, leads to it |
| OrphanCleanup.PathsInIff | backend/scripts/cleanup-orphan-images.ts:154-158 | a row mentions a path exactly when one of its URLs extracts to it |
| OrphanCleanup.OrphanIff | backend/scripts/cleanup-orphan-images.ts:241-261 | in rows and hours: no URL of any row leads to the object, and its known age is at least the grace window |
| OrphanCleanup.OrphansKeepOrder | backend/scripts/cleanup-orphan-images.ts:246-264 | orphans keep the order of the listing, so a limit takes the first ones |
| OrphanCleanup.Partition | backend/scripts/cleanup-orphan-images.ts:246-261 | selects the unreferenced settled objects; every object is referenced, skipped or an orphan |
| OrphanCleanup.DeleteInBatches | backend/scripts/cleanup-orphan-images.ts:221-232 | deletes exactly the paths before the first failing batch, and all of them exactly when none fails |
| OrphanCleanup.DeletionSucceedsIff | backend/scripts/cleanup-orphan-images.ts:225-230 | deletion takes one request for every hundred paths |
| OrphanCleanup.DeletionIsSafe | backend/scripts/cleanup-orphan-images.ts:249-269 | however far deletion gets, everything that was not selected survives, beyond the limit or not an orphan |
| OrphanCleanup.DeletionIsExact | backend/scripts/cleanup-orphan-images.ts:263-271 | the selected objects go, one per path, and an unlimited run leaves no orphan |
| OrphanCleanup.Cleanup | backend/scripts/cleanup-orphan-images.ts:234-289 | whatever fails only selected objects go, and none inside the grace window; success exactly when no needed request fails; the size of the selection under a limit, the accounting of the report, exact deletion, and no orphan left for an unlimited second run |
| LocaleTree.Flatten | client/scripts/check-locales.js:58-80 | the recursive loop computes the flattened map |
| LocaleTree.FlattenIsView | client/scripts/check-locales.js:58-80 | for clean keys the map and the tree agree at every path |
| LocaleTree.KeyHasPath | client/scripts/check-locales.js:64-78 | every key of the map is the dotted form of a path in the tree |
| LocaleTree.FlattenIsInjective | client/scripts/check-locales.js:50-80 | clean trees flatten alike exactly when they are equal up to field order |
| LocaleTree.OneEntryPerNode | client/scripts/check-locales.js:71-76 | the map has one entry per node below the root, so merging overwrites nothing |
| LocaleTree.DottedKeysCollide | client/scripts/check-locales.js:65 | for all keys and leaves, a dot inside a key makes two different trees flatten to the same map |
| CheckLocales.DiffNamespace | client/scripts/check-locales.js:133-164 | one finding for exactly the keys that are missing, emptied, mismatched or extra |
| CheckLocales.Diff | client/scripts/check-locales.js:116-179 | the findings are exactly those of all namespaces, at most one per namespace and key |
| CheckLocales.FindingIs | client/scripts/check-locales.js:133-164 | which finding there is about a key, in terms of the two trees: absent, emptied, extra, or an object against a leaf |
| CheckLocales.EntireNamespace | client/scripts/check-locales.js:121-131 | a namespace of only one locale is reported once, as a whole |
| CheckLocales.NamespaceIsCompleteIff | client/scripts/check-locales.js:134-164 | no key is reported exactly when both trees have the same nodes and kinds and no leaf was emptied |
| CheckLocales.NoFindingsIff | client/scripts/check-locales.js:107-179 | nothing is found exactly when namespaces and key trees agree |
| CheckLocales.CheckLocale | client/scripts/check-locales.js:263-275 | a locale passes exactly when nothing is found, hence exactly when it is complete |
| CheckLocales.SwapSymmetry | client/scripts/check-locales.js:121-176 | swapping the locales exchanges absent and extra keys, namespaces included, and keeps mismatches |
| CheckLocales.EmptiedIsNotSymmetric | client/scripts/check-locales.js:148-157 | an emptied leaf is the one finding without a counterpart |
| WalletAddresses.RedactWalletAddresses | backend/src/sentry/sentry.ts:102-104 | the scanning loop computes the global replacement |
| WalletAddresses.MatchIsWord | backend/src/sentry/sentry.ts:36 | a match is always a maximal word of 56 characters |
| WalletAddresses.ScanIsWordByWord | backend/src/sentry/sentry.ts:102-104 | scanning replaces exactly the words that are keys |
| WalletAddresses.RedactedFixes | backend/src/sentry/sentry.ts:120-124 | replacing changes nothing exactly when the test expression does not match |
| WalletAddresses.RedactedHasNoMatch | backend/src/sentry/sentry.ts:102-104 | no key is left after replacing, and replacing again changes nothing |
| WalletAddresses.ChangedIffKeyOccurs | backend/src/sentry/sentry.ts:36 | in terms of characters: a string changes exactly when G or S and 55 characters of A-Z and 2-7 stand in it between non-word characters |
| WalletAddresses.NoKeyOccursAfter | backend/src/sentry/sentry.ts:102-104 | in terms of characters, no key is left |
| WalletAddresses.KeyIsReplaced | backend/src/sentry/sentry.ts:102-104 | a key that occurs is replaced by its hash, and what stands before and after it is treated on its own |
| Redaction.RedactSensitive | backend/src/sentry/sentry.ts:46-75 | the recursive loops compute the depth-limited redaction |
| Redaction.ScrubPii | backend/src/sentry/sentry.ts:111-145 | the recursive loops compute the scrubbed value |
| Redaction.Redact | backend/src/middleware/request-logging.interceptor.ts:31-51 | the recursive loops compute the unlimited redaction |
| RedactionProofs.SensitiveIff | backend/src/sentry/sentry.ts:62-66 | for any list, a key is sensitive exactly when it spells a listed lower-case name in any letter case |
| RedactionProofs.RedactedNamesIff | backend/src/sentry/sentry.ts:15-33 | the same for the list of names that is used |
| RedactionProofs.ScrubIsRedactThenHash | backend/src/sentry/sentry.ts:106-145 | scrubbing is the depth-limited redaction followed by address replacement in every string |
| RedactionProofs.ScrubbedIsClean | backend/src/sentry/sentry.ts:111-145 | nothing is left to redact in a scrubbed value |
| RedactionProofs.ScrubFixesIff | backend/src/sentry/sentry.ts:111-145 | scrubbing changes nothing exactly when nothing is left to redact |
| RedactionProofs.ScrubIsIdempotent | backend/src/sentry/sentry.ts:111-145 | scrubbing twice is scrubbing once |
| RedactionProofs.ScrubbedNodes | backend/src/sentry/sentry.ts:106-145 | every node of a scrubbed value: at most depth 10, no key in a string, markers under sensitive names |
| RedactionProofs.ScrubKeepsTheRest | backend/src/sentry/sentry.ts:126-141 | what stands for every node outside sensitive fields: its counterpart with the marker under sensitive keys above depth 10, the limit marker at depth 10 |
| RedactionProofs.RedactKeepsTheRest | backend/src/sentry/sentry.ts:46-75 | the same for the telemetry redaction that keeps addresses |
| RedactionProofs.LogKeepsTheRest | backend/src/middleware/request-logging.interceptor.ts:31-51 | for any list of names, every node outside sensitive fields has its counterpart and every sensitive field the marker |
| RedactionProofs.RedactionsAgreeIff | backend/src/middleware/request-logging.interceptor.ts:31-51 | the limited and the unlimited redaction agree exactly when the limit replaces only its own marker |
| RedactionProofs.ShallowRedactionsAgree | backend/src/sentry/sentry.ts:46-75 | they agree on every value no deeper than 9 outside sensitive fields |
| TsconfigBase.FirstExisting | scripts/check-tsconfig-base.js:32-35 | the first existing candidate is taken, and none only when none exists |
| TsconfigBase.ResolveLaws | scripts/check-tsconfig-base.js:31 | dot-dot drops a segment, dot and empty segments are skipped, names are appended |
| TsconfigBase.LinkIs | scripts/check-tsconfig-base.js:31-35 | which file a specifier leads to, with and without an extension, relative to the config's directory or absolute |
| TsconfigBase.LinkAtRoot | scripts/check-tsconfig-base.js:31-35 | the same for the root directory |
| TsconfigBase.NoLink | scripts/check-tsconfig-base.js:24-29 | a missing file, or one without "extends", leads nowhere |
| TsconfigBase.WorkspaceReachesBase | scripts/check-tsconfig-base.js:31-36 | a workspace config that extends ../tsconfig.base.json reaches the base |
| TsconfigBase.FirstStep | scripts/check-tsconfig-base.js:22-37 | reaching the base means being it or linking to a file that reaches it |
| TsconfigBase.ExtendsBase | scripts/check-tsconfig-base.js:22-37 | terminates on cycles; true exactly when the links reach the base; throws exactly when they reach a directory first |
| TsconfigBase.LoopsForever | scripts/check-tsconfig-base.js:24 | a revisited config lies on a loop that never reaches the base |
| TsconfigBase.CheckConfigs | scripts/check-tsconfig-base.js:45-53 | reports exactly the configs that are not exempt and do not reach the base, in order |
| Decimal.PrefixIsNumeral | backend/scripts/check-migrations.ts:126 | the padded number reads back as the number, and has three digits below 1000 |
| Decimal.PrefixIff | backend/scripts/check-migrations.ts:126 | the canonical prefix is the one numeral of the number with three digits, or with more and no leading zero |
| Migrations.ParsesIff | backend/scripts/check-migrations.ts:51-62 | a filename parses exactly when it is a numeral, an underscore, a snake-case name and the extension |
| Migrations.PaddingIff | backend/scripts/check-migrations.ts:125-134 | the padding test compares the whole digit prefix with the canonical one |
| Migrations.SqlFilesAre | scripts/check-schema-drift.ts:173-175 | exactly the names that end in .sql are considered, in their order |
| Migrations.CollectMigrations | backend/scripts/check-migrations.ts:82-95 | parsed files are collected, exactly the others are warned about |
| Migrations.GroupBySequence | backend/scripts/check-migrations.ts:106-113 | groups the filenames under each number in order of first use |
| Migrations.ValidateMigrations | backend/scripts/check-migrations.ts:64-161 | the sorted migrations, the errors of all four checks, and validity exactly without errors |
| Migrations.ReportsMean | backend/scripts/check-migrations.ts:115-148 | exactly which duplicates, paddings and gaps are reported; only the first gap is |
| Migrations.DuplicatesKeepOrder | backend/scripts/check-migrations.ts:98-122 | files that share a number are reported in the order of the listing, since the sort is stable |
| Migrations.ErrorsInOrder | backend/scripts/check-migrations.ts:115-158 | duplicates are reported before paddings, those before the gap |
| Migrations.AcceptsIff | backend/scripts/check-migrations.ts:97-148 | no error exactly when the numbers are a permutation of 1..n and every prefix is canonical |
| Migrations.NoDuplicateErrors | backend/scripts/check-migrations.ts:106-122 | the gap check subsumes the duplicate check |
| Migrations.AppliedInNumericOrderIff | scripts/check-schema-drift.ts:173-175 | accepted files are applied in numeric order exactly up to 999 of them with no skipped name |
| Migrations.AcceptedBeyond999 | scripts/check-schema-drift.ts:173-175 | any number of canonical files above 999 is accepted but not applied in numeric order |
| Migrations.AcceptedWithSkippedName | scripts/check-schema-drift.ts:173-175 | canonical files with one .sql name the validator skips are accepted but not applied in numeric order |
| Migrations.SkippedNameExample | scripts/check-schema-drift.ts:173-175 | such a listing with two files |
| SchemaDrift.TrimLeavesSolid | scripts/check-schema-drift.ts:253-254 | a trimmed line is blank or starts and ends with other characters |
| SchemaDrift.TrimIff | scripts/check-schema-drift.ts:253 | trimming removes white space from both ends, all of it, and nothing else |
| SchemaDrift.KeptCount | scripts/check-schema-drift.ts:248-254 | how often each line is kept: once for each line that trims to it and is no comment, SET or catalog call |
| SchemaDrift.KeptAgreeIff | scripts/check-schema-drift.ts:248-254 | two dumps keep the same lines exactly when every line is yielded equally often by both |
| Text.JoinSplit | scripts/check-schema-drift.ts:249 | splitting a dump into lines loses nothing |
| SchemaDrift.CanonicalForm | scripts/check-schema-drift.ts:245-258 | two dumps have the same canonical form exactly when their kept lines agree as multisets |
| SchemaDrift.SchemaText | scripts/check-schema-drift.ts:255-257 | what is compared and written: the kept lines in alphabetical order |
| SchemaDrift.BaselineComparison | scripts/check-schema-drift.ts:273-277 | the equality test against an updated baseline accepts exactly the same kept lines |
| SchemaDrift.CompareSchema | scripts/check-schema-drift.ts:264-307 | exactly when the list of issues is empty, and which issues are in it otherwise |
| SchemaDrift.CheckDrift | scripts/check-schema-drift.ts:328-350 | the check passes exactly on the same kept lines, or when the diff tool does not report its outcome |
| Ordering.SortSorts | scripts/check-schema-drift.ts:255 | sorting orders and permutes |
| Ordering.SortIsStable | backend/scripts/check-migrations.ts:98 | elements the comparison does not tell apart stay in their order |
| Ordering.LexLeIff | scripts/check-schema-drift.ts:173-175 | alphabetical order: a prefix first, otherwise the first differing character decides |
| Ordering.AlphabeticalIsCanonical | scripts/check-schema-drift.ts:255 | the sorted lines depend only on how often each line occurs |

## Left out

- The SIWS nonce and signature flow, JWT signing and HMAC: a token is a record of its text and payload, its hash is
  injective, and whether a presented token verifies is an input of the call.
- Freshness of a login's random family id is a precondition of `AuthSerial.FreshFamily` and of the login step; the
  model does not bound the chance of a repeated id.
- Access tokens, `updated_at`, `last_used_at` and the parsing of the refresh lifetime; the new expiry is an input.
- Storage and table contents that change during one cleanup run, a server row cap below the requested page size, and
  row pages without a stable order: both are read as fixed sequences.
- The order of findings in `diff`: the model fixes their set and that none is repeated for a key.
- Locale loading from disk, and namespaces or keys that name members of Object.prototype (`constructor`, `__proto__`).
- Cyclic values, class instances and a `__proto__` key in the redactions; field names are not scrubbed in the source and
  not in the model.
- Letter case outside the characters whose lower case is ASCII; no other character can spell a listed field name.
- UTF-16 code units: strings are sequences of Unicode scalar values, so lone surrogates are not modelled and the order
  of `sort` can differ from code-unit order between characters above U+FFFF and the private-use area.
- `findConfigs`, the workspace file and the regular expressions that find "extends" in a tsconfig: a file is modelled by
  the specifier found in it, and the config list is an input.
- The validation of indexer timestamps and the oracle and indexer migration runs.
- `parseInt` beyond 2^53: numbers are unbounded, which does not affect acceptance because accepted numbers are at most
  the number of files.
- Printing, exit codes, Docker, `psql`, `pg_dump` and the diff tool itself.
- The long code after the config export in `backend/eslint.config.js:38`, `client/eslint.config.js:54`,
  `indexer/eslint.config.js:74`, `oracle/eslint.config.js:60` and `sdk/eslint.config.js:33`: it is not project logic,
  looks injected, and should be looked at by the maintainers.
