# OpenCOI in Dafny

This project models the deterministic engines and durable protocols of OpenCOI, a system that reads
certificates of insurance and compares them with configured requirements, and proves what they promise.

- **Compliance evaluation** (`Compliance`, `ComplianceMeaning`, `ComplianceFindings`, `ComplianceOrder`,
  `UmbrellaCredit`): every matching policy is tried, the candidates are ranked, umbrella limits credited, the
  strongest endorsement evidence picked and one label derived. The label is proved against a meaning stated on
  the document alone.
- **Calendar** (`Calendar`): ISO dates, epoch days and day arithmetic as ECMA-262 defines them.
- **Canonical JSON** (`JsonText`, `CanonicalJson`, `JsonNormalForm`, `EvidenceJson`): three printers, one normal form,
  one reader, and what singles the text out.
- **Audit log** (`AuditLog`): a hash-linked chain of events. SHA-256 is an arbitrary function on texts, assumed
  injective only where a property says so.
- **Migrations** (`Migrations`, `MigrationHistory`, `MigrationRunner`): the ledger and its runners as a state machine over atomic steps
  with crashes and busy errors anywhere, beside the runner's own methods statement by statement.
- **SQL tokenizer** (`SqlTokenizer`, `SqlSpelling`): what schema contracts are compared with.
- **Reminders** (`Reminders`, `ReminderHistory`): claim, complete and sweep as guarded updates of rows, over every interleaving.
- **OIDC login** (`OidcLogin`, `OidcOrigin`): one-time login transactions, identity bindings and sessions, over every interleaving.
- **Parsers and printers** (`Base64Url`, `Csv`, `OcrText`, `OcrSpelling`, `Money`): each with the inverse or the meaning it promises.
- **Benchmark** (`Benchmark`, `BenchmarkScore`, `BenchmarkMeaning`): the scorer against its own validator, and what its
  numbers measure.
- **Wilson interval** (`WilsonInterval`): the study's rate summary over the reals.

`Primitives`, `Text` and `Sorting` hold what the components share: UTF-16 text, stable sorting and its uniqueness.

Timestamps are integers, identifiers that the source orders with `localeCompare` are integers standing for their
place in that order, random tokens and new ids are fresh values, and calls that reach the network or the file system
are parameters. A thrown error is an absent result. `dafny verify dfyconfig.toml` checks the whole project.

Several properties hold with an exception, which is then stated exactly:

- `isIsoDate` is documented as accepting real Gregorian dates, but refuses years 0000 through 0099 (`Calendar.AcceptedDates`).
- A chain of appends does not verify if some event's metadata was a value that `JSON.stringify` prints as null although
  it is not null itself, such as NaN or an invalid date: it is stored as null and read back as an empty object
  (`AuditLog.AppendedChainsVerify`).
- Claims can exceed the maximum when a retry is scheduled at the last attempt, since a claim of a failed row does not
  count attempts (`Reminders.MaximumHoldsExactly`).
- A serialized table whose first cell starts with a byte-order mark loses it (`Csv.RoundTrip`).
- White space after a literal that nothing terminates becomes part of it (`SqlTokenizer.SpaceDoesNotMatter`).
- A page line that looks like a marker is taken for one (`OcrText.EnvelopeRoundTrip`).
- The score of a corpus with a blank case id is refused by the validator (`BenchmarkScore.ScoresAreAccepted`).

## Model

| member | source | states |
|---|---|---|
| Compliance.EvaluateCompliance | shared/rules.ts:208-250 | Finds the profile and pushes every requirement's findings in order; absent exactly where the source throws. Its result is the evaluation that all the lemmas on compliance below are about. |
| Compliance.EvaluateCoverageRequirement | shared/rules.ts:252-300 | Evaluates every policy of the coverage type in order of id, sorts the candidates with the comparator and keeps the first one's findings, then the endorsements; throws only if a candidate exists and the through-date does not. |
| Compliance.EvaluatePolicy | shared/rules.ts:302-371 | Pushes one coverage finding, one finding per required field, the period finding and one per minimum limit, in that order, unless the through-date cannot be computed. |
| ComplianceMeaning.LabelMeans | shared/rules.ts:208-250 | Exactly when an evaluation throws; DOCUMENT_COMPLIANT exactly when a REQUIRED coverage exists and each one is met by one single policy and its REQUIRED endorsements; DOCUMENT_NON_COMPLIANT exactly when some REQUIRED coverage fails; DOCUMENT_NOT_APPLICABLE exactly when none is REQUIRED; all this of the requirements of the first profile for the vendor type; without any such profile the one finding VENDOR_TYPE_RULES_NOT_FOUND and DOCUMENT_REVIEW_REQUIRED. |
| ComplianceMeaning.RequirementMeans | shared/rules.ts:252-300 | The findings of one requirement are free of FAIL and UNKNOWN exactly when it is met, and hold a FAIL exactly when it fails, both said of the document alone. |
| ComplianceMeaning.PolicyMeans | shared/rules.ts:302-371 | All findings of a policy pass exactly when it alone is confirmed, shows the required fields, is in force for the window and reaches every limit; one fails exactly when a reviewed policy is deficient. |
| ComplianceMeaning.PeriodMeans | shared/rules.ts:373-448 | PASS exactly when both dates are confirmed and hold the window from the evaluation date to the through-date, inclusive; FAIL exactly when a reviewed document lacks a date or its confirmed dates miss the window. |
| ComplianceMeaning.ThroughMeans | shared/rules.ts:379 | The through-date exists exactly when the day that many days after the evaluation date is in the calendar, and is then the one date of that day. |
| ComplianceMeaning.EndorsementMeans | shared/rules.ts:607-680 | PASS exactly when the strongest evidence for the requirement among the document's endorsements, ties by id and then by place, is confirmed and strong enough; FAIL exactly when a reviewed document has none, or the strongest is confirmed and too weak. |
| ComplianceMeaning.EndorsementCodesMean | shared/rules.ts:607-680 | Each code of an endorsement finding exactly described by the document, and the evidence cited is the strongest one. |
| ComplianceMeaning.SelectedIsLeast | shared/rules.ts:290-299 | The chosen candidate is one of the matching policies, and the comparator prefers no other matching policy to it, whatever ids repeat. |
| ComplianceMeaning.SelectedIsBest | shared/rules.ts:290-299 | The chosen candidate is a policy of the coverage type with the fewest failing findings, then the fewest unknown ones, then the smallest id. |
| ComplianceMeaning.SelectedTiers | shared/rules.ts:682-699 | The chosen candidate passes throughout exactly when some candidate does, and is free of FAIL exactly when some candidate is. |
| ComplianceMeaning.UnreviewedDecidesNothing | shared/rules.ts:714-716 | A document that no person has confirmed yields no PASS and no FAIL finding at all. |
| ComplianceFindings.FindingsAreWellFounded | shared/rules.ts:252-680 | Every finding has the one status its code stands for, and cites only ids of policies and endorsements in the document. |
| ComplianceFindings.CoverageCodesMean | shared/rules.ts:252-321 | What is reported of the coverage itself: whether a person confirmed the policy's type, whether the requirement applies, and whether a document without any such policy was reviewed. |
| ComplianceOrder.CandidatesOrdered | shared/rules.ts:682-699 | The comparator is a strict total order on candidates with distinct ids. |
| ComplianceOrder.ArrangementDoesNotMatter | shared/rules.ts:270-299 | Reordering the document's policies and endorsements, with distinct ids, leaves the whole evaluation as it was. |
| ComplianceOrder.SameUmbrellas | shared/rules.ts:523-545 | The sorted umbrella candidates do not depend on the order in which the document lists its policies. |
| ComplianceOrder.SameMatches | shared/rules.ts:624-632 | The sorted endorsement matches do not depend on the order in which the document lists its endorsements. |
| UmbrellaCredit.CreditsGreatest | shared/rules.ts:523-548 | An umbrella is credited exactly when a usable one exists, and then one of greatest amount; the candidates hold an undecided one exactly when the document does. |
| UmbrellaCredit.LimitMeans | shared/rules.ts:450-605 | PASS, FAIL and overflow of a limit finding, each exactly described by the document; the credited value is the base plus one greatest usable umbrella, or the base alone. |
| UmbrellaCredit.LimitCodesMean | shared/rules.ts:450-605 | Each code of a limit finding exactly described by the document, and the ids it cites: the policy, and for a credited umbrella the one of greatest amount and least id. |
| UmbrellaCredit.UndecidedCites | shared/rules.ts:549-565 | While an umbrella is undecided and none usable, the finding cites the policy and exactly the umbrella policies with the limit. |
| UmbrellaCredit.StackedFailMeans | shared/rules.ts:584-604 | A stacked FAIL means that the base plus any usable umbrella stays below the minimum. |
| UmbrellaCredit.LoweringMinimumKeepsPass | shared/rules.ts:492-604 | Lowering the minimum keeps a PASS. |
| UmbrellaCredit.RaisingBaseNeverFails | shared/rules.ts:492-604 | Raising a confirmed base limit never turns a PASS into a FAIL, also when the policy is itself an umbrella. |
| Calendar.AcceptedDates | shared/domain.ts:98-112 | Accepted texts are exactly the Gregorian dates of years 0100 through 9999 (section 21.4.1 of ECMA-262). |
| Calendar.ShortYearsMiss | shared/domain.ts:100-112 | A year from 0000 through 0099 gets the day number of a day in year 1900 plus it; that is why no such text is accepted. |
| Calendar.OrdersAgree | shared/domain.ts:122-125 | Text order and epoch-day order are one order, and no two dates share an epoch day. |
| Calendar.EpochDayBijection | shared/domain.ts:122-125 | The epoch day is a bijection from the accepted dates onto its range, with the printed date as inverse. |
| Calendar.AddDaysMeans | shared/domain.ts:127-131 | The date that many days later, and a throw exactly when no accepted date has that day. |
| Calendar.AddDaysAdds | shared/domain.ts:127-131 | Adding days is additive, and the negative offset undoes it, whenever the intermediate date exists. |
| JsonText.ParseEncode | server/audit.ts:78-84 | Reading the text that JSON.stringify prints for a value of the JSON data model gives the value back (RFC 8259). |
| JsonNormalForm.CanonicalKeysAscend | server/audit.ts:86-97 | Read back, the canonical text has the keys of every object, at every depth, in ascending order of code units. |
| JsonNormalForm.CanonicalIsShortest | shared/evidenceBundle.ts:70-134 | For texts in well-formed UTF-16, no text that a JSON reader takes for the value, with its members in any order, is shorter than the canonical one. |
| JsonNormalForm.EncodePaired | server/audit.ts:78-84 | Whatever the value, the printed text is well-formed UTF-16, lone surrogates being escaped, so that it has a UTF-8 encoding to hash. |
| JsonNormalForm.EscapesAreLowerCase | server/audit.ts:78-84 | The units spelt with six are the control characters without a short escape and halves of surrogate pairs, in lower-case digits. |
| CanonicalJson.ReaderRecovers | server/audit.ts:86-97 | A JSON reader recovers from the canonical text the value with its object keys in order. |
| CanonicalJson.CanonicalDecidesSame | shared/evidenceBundle.ts:70-134 | Two values have one canonical text exactly when they are equal up to the order of object members. |
| CanonicalJson.AuditPrintIsCanonical | server/audit.ts:86-97 | The audit printer, which sorts keys and looks each one up, prints the canonical text. |
| CanonicalJson.BenchmarkPrintIsCanonical | benchmark/serialization.ts:54-73 | The benchmark printer, which sorts whole entries, prints the canonical text. |
| EvidenceJson.Printer.Canonicalize | shared/evidenceBundle.ts:70-125 | Prints what the specification prints and leaves the shared set of ancestors as it found it on every way out, thrown errors included. |
| EvidenceJson.AcceptsExactlyFiniteJson | shared/evidenceBundle.ts:70-134 | The evidence printer accepts exactly the values that unfold to finite JSON with finite numbers and no cycle, and prints their canonical text. |
| EvidenceJson.ThreePrintersAgree | shared/evidenceBundle.ts:132-134 | On finite JSON the three canonical printers print one text. |
| EvidenceJson.PrintersPartOnNonFinite | shared/evidenceBundle.ts:74-78 | On a number that is not finite the evidence printer throws while the other two print null. |
| AuditLog.Log.Append | server/audit.ts:152-223 | Appends the next row of the chain, trimmed and hashed, for any JavaScript value as metadata, or refuses and changes nothing. |
| AuditLog.RowRecords | server/audit.ts:152-223 | A row holds the input field by field, action and entity type without the white space around them, the next number, the last hash or 64 zeros, the hash of its canonical JSON, and metadata from which the value is recovered up to member order. |
| AuditLog.HashedObjectHas | server/audit.ts:99-134 | The hashed object has exactly the fourteen named members, each with its field of the event, missing ones as null. |
| AuditLog.Log.Verify | server/audit.ts:245-317 | Recomputes every hash and link; the checked events are the length of the longest valid prefix, and valid means all rows. |
| AuditLog.NullMetadata | server/audit.ts:78-84 | Metadata normalises to null exactly when JSON.stringify prints it as null although it is not null itself: a number that is not finite, an invalid date, an object whose toJSON gives null. |
| AuditLog.AppendExtends | server/audit.ts:152-223 | An accepted append extends a run of appends by one. |
| AuditLog.AppendedChainsVerify | server/audit.ts:152-317 | A chain built only by appends verifies if no append was given metadata printed as null that is not null itself; with an injective hash exactly then. |
| AuditLog.InjectiveHashPins | server/audit.ts:99-134 | With an injective hash, equal event hashes mean equal hashed fields, equal links and the same metadata up to member order, and the reverse. |
| AuditLog.LastHashCommits | server/audit.ts:245-317 | With an injective hash, two non-empty chains that verify and end in one hash have one length and agree row by row on every hashed field and on the metadata. |
| MigrationRunner.Connection.ValidatedLedgerById | server/migrations.ts:732-773 | Accepts the ledger exactly when every row is known, unchanged and installed and no gap precedes a recorded migration; the result holds exactly the recorded ids. |
| MigrationRunner.Connection.AdoptMigration | server/migrations.ts:852-892 | One transaction: unchanged if raced, otherwise records the installed migration, otherwise throws and leaves the database as it was. |
| MigrationRunner.Connection.ApplyTransactionalMigration | server/migrations.ts:894-953 | One transaction: unchanged if raced, adopted if installed, otherwise applied, checked and recorded, or rolled back altogether. |
| MigrationRunner.Connection.MigrateCoverageRequirementsForHistory | server/services/schema.ts:116-147 | Rebuilds only without the index, commits only without foreign-key violations, and leaves enforcement on in every case. |
| MigrationRunner.Connection.ApplyNonTransactionalMigration | server/migrations.ts:955-999 | Applies outside a transaction, then records in one of its own that checks again whether it was raced; the ledger changes only on success. |
| MigrationRunner.Connection.MigrateDatabase | server/migrations.ts:1005-1036 | A normal return records every migration, reports unchanged exactly for those recorded before, and a rerun changes nothing; every way out leaves a sound ledger and enforcement on. |
| Migrations.ValidatesPrefixes | server/migrations.ts:732-773 | Validation accepts the rows of a ledger exactly when they record a prefix of the catalogue and all of it is installed. |
| Migrations.TransactionsSound | server/migrations.ts:852-999 | Each transaction on migration k either changes nothing or appends exactly row k to a ledger of exactly the first k. |
| MigrationHistory.ValidLedgersTell | server/migrations.ts:732-773 | Validation accepts exactly the ledgers whose rows give sequence, id, name and checksum of the first migrations, each installed, on a database that is not newer. |
| MigrationHistory.AdoptionMeans | server/migrations.ts:852-892 | The next migration is adopted, with an adopted row, exactly when it is installed and foreign keys are enforced and kept; otherwise nothing changes. |
| MigrationHistory.ApplicationMeans | server/migrations.ts:894-953 | The next migration is applied, with an applied row, exactly when it was not installed and its statements succeed, install it and keep foreign keys; one installed before is adopted; otherwise nothing changes. |
| Migrations.RunKeepsInvariant | server/migrations.ts:1005-1036 | Over every interleaving and crash of any number of runners the invariant holds, and ledger and installed migrations only grow. |
| Migrations.RunsAreSafe | server/migrations.ts:1005-1036 | Over every interleaving and crash: the ledger is a prefix of the catalogue, recorded migrations are installed and recorded once, a normal return leaves all recorded with enforcement on, a throw leaves enforcement on, a rerun reports only unchanged, and at most one runner reports a migration as its own. |
| MigrationHistory.RowsTellTheirHistory | server/migrations.ts:852-1036 | Over every interleaving and crash: each new row was written by exactly one runner, which reported it as applied or adopted just as the row says, and what was installed at the start is recorded as adopted. |
| SqlTokenizer.TokenizeSql | server/migrations.ts:251-332 | Moves the cursor to the end on every input and pushes the tokens the specification gives. |
| SqlTokenizer.ReadQuoted | server/migrations.ts:270-306 | Reads to the closing unit, takes a doubled one as one, and stops at the end of the text if nothing closes. |
| SqlTokenizer.SpaceDoesNotMatter | server/migrations.ts:247-332 | White space inserted at a token boundary leaves the tokens as they were, except exactly at the end of a text whose last literal is not terminated. |
| SqlTokenizer.CaseDoesNotMatter | server/migrations.ts:247-332 | Changing letter case outside single-quoted literals leaves the tokens as they were. |
| SqlSpelling.TokensAreOfItems | server/migrations.ts:251-332 | The tokens of items spelt side by side: a literal gives its text after `string:`, a name its text without quotes, words and numbers their text, all but literals in lower case, the seven operators themselves, and white space and comments nothing. |
| SqlSpelling.EveryTextIsSpelt | server/migrations.ts:251-332 | Every text is spelt by such items, the last perhaps not terminated, so its tokens are theirs. |
| Reminders.ReminderTable.ClaimReminder | server/db.ts:2004-2045 | Claims exactly the row whose guard holds and returns the token it stored; every other row stays. |
| Reminders.ReminderTable.MarkReminder | server/db.ts:2047-2125 | Refuses incomplete inputs, delegates processing to a claim, and changes the row exactly when the token or the status fits. |
| Reminders.ReminderTable.FailExhaustedStaleClaims | server/db.ts:1983-2002 | Fails exactly the stale claims with no attempts left and counts them. |
| Reminders.ReminderTable.ListDueReminders | server/db.ts:1946-1981 | The due rows in order of schedule and id, as many as the limit allows; any due row left out comes after all listed ones. |
| Reminders.TableRunsAreRowRuns | server/db.ts:1909-2125 | Any interleaving of statements on the table, creations included, is, row by row, a run of that row alone from the start or from its creation; no row goes away. |
| Reminders.RunsKeepCoherent | server/db.ts:2090-2122 | In every reachable row a retry is eligible exactly when the row failed and has a next attempt time; sent exactly when it has a sent time. |
| Reminders.AttemptsCountClaims | server/db.ts:2014-2033 | Over every run, attempt_count grows by the number of claims that took effect. |
| Reminders.EachAttemptSettlesOnce | server/db.ts:1983-2125 | Over every run of a new row: attempt numbers of claims and of settlements strictly increase, and each completion or sweep follows the very claim it names with no other effect in between. |
| Reminders.EveryRowAccounted | server/db.ts:1909-2125 | Every row of a table that started empty was created once, is coherent, and its claims and settlements since are accounted for as above. |
| Reminders.SentAndCancelledStay | server/db.ts:2105-2112 | Sent and cancelled rows never change again. |
| Reminders.StaleClaimHasOneWay | server/db.ts:1993-2031 | At every point of every run of a created row, a stale claim enables exactly one of re-claim and sweep, a fresh one neither. |
| Reminders.ClaimsWithinMaximum | server/db.ts:2004-2045 | Claims stay within the maximum as long as retries are scheduled only below it. |
| Reminders.MaximumHoldsExactly | server/db.ts:2004-2125 | The maximum can be exceeded exactly when some retry was scheduled at that attempt number or beyond, because the failed branch of a claim does not look at attempts. |
| ReminderHistory.RowTells | server/db.ts:1909-2125 | Over every run a row is as it was created until an operation takes effect, and then shows in every field what the latest effective operation wrote. |
| ReminderHistory.WhenClaimable | server/db.ts:2004-2045 | Over every run, a row can be claimed exactly when it is due for the first time, its scheduled retry is due, or its latest claim is stale and attempts are left. |
| ReminderHistory.WhenDue | server/db.ts:1946-1981 | Over every run, a row is listed as due exactly when it can be claimed, except that a retry is listed only for an e-mail with attempts left. |
| ReminderHistory.WhenSweepable | server/db.ts:1983-2002 | Over every run, a row can be swept exactly when its latest effect is a stale claim and no attempts are left. |
| ReminderHistory.WhenMarkable | server/db.ts:2047-2125 | Over every run, a completion takes effect exactly when the latest effect is the claim it names; a cancellation exactly before the first claim or after a failure. |
| ReminderHistory.RetryWaits | server/db.ts:2090-2096 | After a failure with a retry scheduled at t, and until something else happens to the row, it can be claimed at every time from t on and at none before; the next claim is no earlier than t. |
| OidcLogin.Repository.ConsumeLoginTransaction | server/db.ts:1253-1262 | Consumes the transaction exactly when it is unconsumed and unexpired. |
| OidcLogin.Repository.BindIdentity | server/db.ts:1297-1323 | Inserts the identity unless its subject or its user is bound already at that issuer. |
| OidcLogin.Repository.ResolvePreprovisionedUser | server/auth/oidc.ts:258-307 | One transaction: the bound user if active, otherwise a first binding by verified email, otherwise denied with nothing changed. |
| OidcLogin.ResolveBinds | server/auth/oidc.ts:258-307 | Resolving keeps bindings one-to-one, adds at most one and only from verified claims naming an active user, and answers only an active user bound to that subject. |
| OidcLogin.BindingsNeverMove | server/auth/oidc.ts:327-398 | Over every interleaving of logins, new users and status changes, bindings stay one-to-one per issuer and never move. |
| OidcLogin.AddedBindingsAreEarned | server/auth/oidc.ts:275-295 | Every binding a run adds was made by a step whose verified email named a user active at that moment. |
| OidcLogin.SessionsBelongToSubjects | server/auth/oidc.ts:327-398 | Over every interleaving, each session belongs to the user whom a login of its transaction was resolved to: active then, and bound to the subject of claims valid at the login's issuer. |
| OidcLogin.SubjectsStayBound | server/auth/oidc.ts:258-307 | The subject a login was resolved by is still bound to that user at the end of the run. |
| OidcLogin.OneSessionPerTransaction | server/auth/oidc.ts:327-398 | Over every interleaving, a login transaction produces at most one session. |
| OidcOrigin.SessionsComeFromTheirBrowser | server/auth/oidc.ts:309-398 | Over every interleaving, each session's transaction was begun with the issuer, token and state that its callback presented, and was taken by that login, unconsumed and before it expired. |
| OidcOrigin.WhenLoaded | server/auth/oidc.ts:327-345 | A callback starts a login on a transaction exactly when that transaction has its token, issuer and state, is unconsumed and has not expired; otherwise it is refused. |
| OidcOrigin.WhenResolved | server/auth/oidc.ts:258-307 | A login is resolved to a user exactly when its claims are well-formed, come from its issuer and stand for that user: bound and active, or active, named by the verified e-mail and free to be bound. |
| OidcOrigin.RunKeepsSound | server/db.ts:1253-1323 | Over every interleaving ids, e-mails and bindings stay unique, and bindings are to users there are. |
| Base64Url.DecodeCanonicalBase64Url | shared/evidenceBundle.ts:173-209 | Fills the array with the decoded bytes, and accepts exactly what the specification accepts. |
| Base64Url.EncodeSpells | shared/evidenceBundle.ts:173-209 | Each group of 24 bits, filled up with zeros, is spelt by four units of the alphabet of Table 2 of RFC 4648, those for filling alone left out. |
| Base64Url.AcceptsExactlyEncodings | shared/evidenceBundle.ts:173-209 | Accepted texts are exactly the unpadded encodings of 1 to 6144 bytes, and decode to those bytes (sections 3.5 and 5 of RFC 4648). |
| Base64Url.AcceptsExactlyCanonicalTexts | shared/evidenceBundle.ts:178-202 | Accepted texts are exactly those of allowed length and alphabet whose trailing bits are zero. |
| Csv.NeutralizeMeans | shared/csv.ts:9-18 | The neutralised text is harmless, that is, starts with an apostrophe, or with no tab or line break and, as far as visible, with none of the four formula signs; harmless text stays, and neutralising twice is neutralising once. |
| Csv.CellsAreQuotedWhenNeeded | shared/csv.ts:22-28 | A cell is written as it is, and in quotes exactly where it holds a quote, a comma or a line break. |
| Csv.TablesGrow | shared/csv.ts:30-32 | A further row goes on a line of its own after a carriage return and a line feed, a further cell after a comma. |
| Csv.ParseCsvRows | research/usability/analysis.ts:144-183 | The character loop computes what reading on from each state gives, and throws where that does. |
| Csv.ReadTable | research/usability/analysis.ts:151-183 | Reading joined rows of represented cells gives back the cells of every row that has content. |
| Csv.RoundTrip | shared/csv.ts:22-32 | Reading a serialized table gives back every row with content, cells neutralised and newlines normalised, exactly when the text does not start with a byte-order mark (section 2 of RFC 4180). |
| Benchmark.ScoreFacts | shared/benchmark.ts:300-342 | Counts hits, misses and inventions per key and kind while visiting each key once. |
| Benchmark.ScoreCodes | shared/benchmark.ts:344-356 | Counts shared, missing and invented codes as sets. |
| Benchmark.FactsConserve | shared/benchmark.ts:300-342 | True positives plus false negatives are the distinct truth keys, plus false positives the distinct predicted keys; kinds sum to the totals; citations nest; exact means neither misses nor inventions. |
| Benchmark.ExactFacts | shared/benchmark.ts:307-341 | A document is exact when truth and prediction have the same keys with the same values. |
| BenchmarkMeaning.ScoredExactly | shared/benchmark.ts:373-441 | A corpus is scored exactly when it has a name and cases with distinct ids, none citing pages it does not have or repeating keys, pages or coverage types, and the predictions are for this corpus, its hash and its cases, at most one each. |
| BenchmarkMeaning.CountsMean | shared/benchmark.ts:300-342 | The counts of a document are the numbers of keys given the same value, of other predicted keys and of other truth keys; citation counts are the numbers of keys with cited pages, hits among them, and hits citing a page that the truth cites. |
| BenchmarkMeaning.KindCountsMean | shared/benchmark.ts:311-338 | The same kind by kind, the kind of a key being that of its truth, or of its prediction where it has no truth. |
| BenchmarkMeaning.DocumentMetricsMean | shared/benchmark.ts:207-224 | Precision times the distinct predicted keys, and recall times the distinct truth keys, are the keys with equal values up to rounding, exactly 1 without inventions or misses; F1 is their harmonic mean and lies between them; citation rates likewise. |
| BenchmarkScore.ScoreBenchmark | shared/benchmark.ts:443-524 | Validates the inputs, scores case by case while adding to totals and kinds, and summarises; absent where the source throws. |
| BenchmarkScore.ValidateBenchmarkScore | shared/benchmark.ts:614-767 | Checks head, fields and cases and compares the sums over cases with the totals. |
| BenchmarkScore.MetricForIsValid | shared/benchmark.ts:207-213 | Precision, recall and F1 of any counts are numbers from 0 through 1 after rounding, and pass the metric check. |
| BenchmarkScore.PercentilesOrdered | shared/benchmark.ts:496-501 | The median is at most the 95th percentile and neither is negative. |
| BenchmarkScore.AccumulateSound | shared/benchmark.ts:453-487 | The totals are the sums over the cases, kinds are distinct and sum to the totals, and citation counts nest. |
| BenchmarkScore.ScoresAreAccepted | shared/benchmark.ts:614-767 | The validator accepts a score the scorer produced exactly when every case id is more than white space, provided its counts are safe integers and fact kinds have names. |
| BenchmarkMeaning.CasesMean | shared/benchmark.ts:453-487 | Each case is scored by its own truth and the prediction with its id, or by none, with counts, exactness and rates as above. |
| BenchmarkMeaning.FieldsMean | shared/benchmark.ts:470-494 | The fields of a score are the kinds, each once, with the sums of their counts over all cases. |
| BenchmarkMeaning.HeadMeans | shared/benchmark.ts:489-523 | The head of a score: what was scored, the sums over the cases, the number of exact cases, and the median and 95th percentile of the reported durations by nearest rank. |
| BenchmarkMeaning.AcceptedScoresMean | shared/benchmark.ts:614-767 | In every accepted score each rate measures its counts, the exact documents are the exact cases, their rate is the share of the cases and macro F1 the mean over the fields, up to rounding. |
| BenchmarkMeaning.PercentileIsNearestRank | shared/benchmark.ts:496-501 | A percentile is the nearest rank: a reported duration that at least this share of the durations does not exceed, while fewer are shorter. |
| BenchmarkMeaning.DurationsMean | shared/benchmark.ts:477-479 | A duration is counted as often as predictions for the cases report it, negative ones as zero. |
| OcrText.NormalizeMeans | shared/ocr.ts:113-125 | The normalised text is in normal form, and its non-empty lines are the tidied non-empty lines of the text. |
| OcrText.NormalizeIdempotent | shared/ocr.ts:113-125 | Normalising leaves a text alone exactly when it is in normal form, and twice is once. |
| OcrSpelling.NormalizeKeepsInk | shared/ocr.ts:113-125 | Normalising keeps the visible units in their order, dashes of every width as hyphens. |
| OcrSpelling.SpacesAndDashes | shared/ocr.ts:118-119 | No-break spaces count as spaces, and dashes of every width as hyphens. |
| OcrSpelling.BlanksDoNotMatter | shared/ocr.ts:121 | A run of spaces and tabs counts as one space. |
| OcrSpelling.LineEndsDoNotMatter | shared/ocr.ts:116-117 | A line may end in a line feed, a carriage return, or both. |
| OcrSpelling.MarkersMean | shared/ocr.ts:105 | The lines read as page markers are exactly those spelt as such, and their digits are the digits spelt. |
| OcrSpelling.EnvelopeMarkers | benchmark/openCoiAdapter.ts:19-20 | The envelope marks page n with the line `--- Page n ---`, which is spelt as a marker. |
| OcrText.PageAwareLines | shared/ocr.ts:283-297 | The loop gives each non-empty line the page of the last marker before it. |
| OcrText.EnvelopeRoundTrip | benchmark/openCoiAdapter.ts:19-20 | Normalising the page envelope and reading its lines gives every page's non-empty normalised lines, tagged with the page, exactly when none of them looks like a marker. |
| Money.MatchesExactly | shared/ocr.ts:142-147 | The stripped text matches as an amount exactly when it is that amount written out. |
| Money.MinorUnitsMean | shared/ocr.ts:149-156 | The answer is v exactly when v is the number displayed, by its decimal places, times ten to the fraction digits, with nothing rounded, and at most 2^53-1. |
| Money.ParsesExactly | shared/ocr.ts:131-157 | The parser answers v exactly when the text has no minus sign and, stripped, is an amount that displays v exactly; otherwise null. |
| Money.EqualTextsAgree | shared/ocr.ts:131-157 | Amounts written plainly that display one number, whatever zeros or suffix, get one answer. |
| Money.SuffixMovesPoint | shared/ocr.ts:148-154 | An amount with a suffix is parsed as the amount with its point moved three, six or nine places for K, M or B. |
| Money.SuffixIsZeros | shared/ocr.ts:148-154 | For whole amounts K, M and B are parsed as three, six and nine zeros. |
| Money.IgnoredAnywhere | shared/ocr.ts:136-141 | A currency symbol, a comma, an underscore or white space makes no difference wherever it stands in an amount. |
| Money.WordsIgnored | shared/ocr.ts:136-141 | A currency word before or after an amount makes no difference. |
| Money.TrailingZero | shared/ocr.ts:145-154 | A trailing fraction zero displays the same number. |
| Money.CaseDoesNotMatter | shared/ocr.ts:136 | Letter case never changes the answer. |
| WilsonInterval.BoundsMean | research/usability/analysis.ts:355-361 | Before rounding, both bounds solve the score equation that defines the Wilson interval, lie from 0 through 1 and have the rate between them, so neither clamp ever acts. |
| WilsonInterval.RoundedBounds | research/usability/analysis.ts:350-368 | After rounding to three digits, 0 <= lower95 <= rate <= upper95 <= 1. |

Direct corollaries have no row of their own: `Base64Url.DecodingIsInjective`, `Benchmark.CodesConserve`,
`Reminders.OnlyClaimsMoveTokens` and `Reminders.DueRowsAreClaimable`.

## Left out

- User interface, HTTP routing, configuration, e-mail and webhook delivery: plumbing around libraries.
- SQLite itself: a statement or transaction is an atomic step, a unique index is a guard, and whether a migration is installed is an abstract set; `PRAGMA` reading and schema contracts are not part of this model.
- Cryptography and random values: hashes are uninterpreted functions, tokens and ids are fresh.
- Ruleset parsing with zod, titles and explanations of findings, exceptions echoed beside them: the model starts from a parsed ruleset and keeps status, code, cited ids and credited value.
- Normalising endorsement identities: form codes and names are compared as already normalised texts.
- Order of `localeCompare` on equal-ranking but different ids: ids are integers, so ids that the collation ties are one id.
- Order of field metrics in a score: sorted here by code units instead of `localeCompare`, which no proved property depends on.
- BenchmarkScore.ScoreBenchmark: starts from flattened facts with normalised keys, because flattening rests on Unicode normalisation.
- BenchmarkScore.ValidateBenchmarkScore: does not cover the structural checks of unknown JSON values, because the model's scores are typed; the arithmetic checks remain.
- Floating-point rounding: rates, durations and the square root are reals, the root being any non-negative number with the right square.
- JsonText.ParseEncode: does not cover numbers with a fraction or exponent, or beyond 2^53-1, because their shortest decimal form is floating-point printing; the reader refuses them, and the printers are proved on integers.
- AuditLog.Log.Append: inherits that limit on the numbers inside metadata, so such metadata counts as refused; what a value with `toJSON` is printed as is given with the value, because `toJSON` is code of the caller's.
- SqlTokenizer.CaseDoesNotMatter: covers letter case in ASCII, because the mapping of other letters is Unicode data; they are left as they are.
- Money.CaseDoesNotMatter: covers letter case in ASCII, for the same reason.
- Numbers printed into CSV beyond the range that `String` prints without an exponent.
- Reminders.ReminderTable.MarkReminder: does not cover retry and claim times given as malformed or empty text, because times are integers that stand for valid texts in order.
- CHECK constraints on lengths in the identity tables beyond the subject's: issuers come from configuration.
- Changing a user's e-mail: no statement of the source does, so a user's e-mail is fixed once the user is added.
- Audit events written by logins, last-login columns of users, and expired-session deletion: single statements without effect on the properties proved.
- Reminder creation's dedupe key and payload: a row is created by id with its schedule and channel.
- Regular-expression extractors for policy numbers, parties and dates in `shared/ocr.ts`: heuristics without a crisp specification.
