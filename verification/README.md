# Kitchen: models and proofs of its small algorithms and two protocols

Kitchen deploys applications from repositories. Most of its source is schema and reconcilers, but a
number of small pieces of it make strong promises. This project models those pieces in Dafny and proves
the promises, or the exact condition under which they hold.

- **Two protocols over shared state.** The first-administrator bootstrap of the identity service (`Bootstrap`,
  `BootstrapRuns`, `BootstrapAnswers`, `BootstrapLockouts`) and the audit log's append protocol (`AuditHead`,
  `AuditRuns`, `AuditFloors`) are state machines: a `World`, a `Step` per thing that can happen (crashes, failed
  statements, failed unlocks, unacknowledged writes and rows that age out included), and theorems over every sequence
  of steps by any number of participants.
- **The audit chain** (`AuditEncoding`, `AuditDecoding`, `AuditChain`, `AuditFindings`) **and its verification** (`AuditPages`, `AuditEndpoint`,
  `AuditWalk`): the length-prefixed encoding, sealing, the verifier's loop, the comparison with the anchor, and the
  endpoint that does it page by page. The digest is a parameter, and what is proved is a reduction: the logs are the
  same, or here are two inputs it does not tell apart.
- **The security posture algebra** (`Capabilities`, `Security`): one field table, three loops over it, and
  the laws that connect them.
- **Bounded logs** (`ReleaseHistory`, `RefusedPreviews`): classes updated in place, proved over every sequence
  of calls against a log that forgets nothing.
- **Text and arithmetic** (`Identity`, `CommitMessage`, `Tolerance`, `Names`): printers and parsers, a cut on a
  UTF-8 boundary (section 3 of RFC 3629), a duration parser in 64-bit arithmetic, generated names.
- **Lookups, merges and orders** (`Approvers`, `Stages`, `Processes`, `Declares`, `Evidence`), with
  `FirstMentions` and `Common` for shared vocabulary.

Where the program computes in a loop the model is a method with that loop, proved equal to a function of its
inputs; what is promised is proved of that function. Where it updates an object the model is a class.

## What turned out not to hold

Each of these is a lemma with concrete steps or inputs. In brackets: that lemma, and the theorem that says exactly
when the promise is kept.

- A replica that puts an audit number back lowers its floor to the number before it, which may itself be put back
  by another replica, and one whose put-back landed without its hearing of it keeps a floor above the head. The
  next append is then refused as a head wound back although nobody interfered (`FloorRaisesFalseAlarm`,
  `UnheardPutBackIsRefused`; `CarefulIsExact` and `SafeExactlyWhenCareful`, with `CarelessStepLeadsToRefusal` for
  the other half).
- An audit row that is stored although its insert reports an error can lead to two rows with one number
  (`UnacknowledgedInsertReusesNumber`; `NumbersAreKeptExactlyWhen`).
- Rows of the audit log age out, and a log that verified no longer does once its first row is gone: read from the
  beginning, the first is reported missing and the next unlinked (`HonestLogAgesOut`, `ExpiredStartIsReported`;
  `VerificationIsExact` for a log read at once).
- The verification endpoint reads one page, bounded by the caller and again by the store at a thousand rows, and
  compares with the anchor only when fewer rows came back than were asked for (`AnswerIsExact` gives every answer).
  A full page is called intact whatever follows it (`LostRowAfterAFullPage`); a whole log of more than a thousand rows
  is called cut short when more are asked for at once (`WholeLongLogIsRefused`); and so is a whole log by the page
  that starts right after its last row (`PageAfterTheEndIsCalledTruncated`). Going on from full pages to the end finds
  everything intact exactly when every number has its row and the last page is not a full one (`WalkIsExact`).
- The anchor carries the last hash and the comparison reads only its sequence, so any tail rewritten to the same
  length verifies (`SequenceAloneDoesNotDecide`; `AnchorHashDecides` shows the hash would settle it).
- A record edited and rehashed in place leaves the one after it unlinked, and the last record of a log has none after
  it (`RehashedEditUnlinksTheNext`; `OneRecordReplaced` gives every single replacement).
- An unlock that fails silently can leave a pooled session with the lock, and then no other session gets it until that
  one is closed (`LeakedLockKeepsOthersOut`); the guarantee of one administrator is not touched.
- The bootstrap's two writes are not one, and losing the second leaves an installation that is closed and that
  nobody can sign in to: by a crash between them, by a second write that fails, or by a first write that lands and
  reports an error (`CrashBetweenWritesLocksOut`, `FailedLinkLocksOut`, `LandedCreateThatFailsLocksOut`;
  `LockedOutExactlyWhen`). An address under a reserved domain is accepted and leaves the one-time link open
  (`LinkClosesExactlyForAPerson`).
- A release report that arrives after the next move makes a stint of its own (`LateReportInventsAStint`;
  `HistoryIsRightExactlyWhen`).
- The refused-preview list is in the order of first refusal and not oldest first by the time it shows, and what it
  drops may be the entry pushed to last (`PushedToAgainStandsFirst`, `JustPushedToIsDropped`;
  `OldestFirstExactlyUnlessOvertaken`, `DroppedExactlyWhen`).
- Following `NextStage` along a ladder that names an environment twice never ends (`RepeatedEnvironmentNeverEnds`;
  `WalkEndsExactlyWhenFresh`). The API refuses such a ladder, so only a direct write of the object can hold one, and
  the program's own climb makes no automatic promotion twice and always ends. How far it goes depends on how the
  release arrived: landed directly by a build it goes nowhere, after a build's automatic promotion it stops short of a
  repeated environment, and after a person's it may enter the first one again (`FlippedReleaseStays`,
  `PersonsReleasePassesARepeat`; `ReleaseClimbsExactlyTo`).
- The prefixes of two services' variables never collide, but the variables do, when one service is named after the
  other with `-host` or `-port` behind it (`VariablesMeetExactlyWhen`). The check on a binding's name compares it with
  workloads' names only, so a binding can collide with a service in that way, and with another binding
  (`AcceptedAndColliding`, `AcceptedAndApart`; `NameCheckIsNotEnough`).
- For a negative duration the ladder's loop may settle on another rung than the lowest that covers it
  (`NegativeDurationsMislead`; `LoopFindsLowestExactlyWhen`). The one caller refuses an expiry that is not in the
  future before it computes the duration, so that takes the moments in between and a rung with a negative limit.
- A tolerance that admission accepts may be one no reader acts on (`AdmittedButUndeclared`; `ReadingIsExact`).

## Model

| member | source | states |
|---|---|---|
| `Capabilities.UnionCapabilities` | api/v1alpha1/common_types.go:819-833 | the loop with its `seen` set computes `Union`: `[ALL]` as soon as either list spells it, otherwise first mentions |
| `Capabilities.SpellingsOfAll` | api/v1alpha1/common_types.go:819-828 | the eight spellings that read as every capability |
| `Capabilities.UnionIsCanonical` | api/v1alpha1/common_types.go:815-833 | the result is `[ALL]` or distinct names none of which spells it, whatever the inputs |
| `Capabilities.UnionDropsEither` | api/v1alpha1/common_types.go:815-833 | a container under the union is without exactly what either list takes away, `ALL` read as every capability |
| `Capabilities.UnionIsTheOnlyOrderedList` | api/v1alpha1/common_types.go:815-833 | with no `ALL`, a list is the union exactly when it holds what either names, each once, in order of first mention |
| `Capabilities.UnionAssociates` | api/v1alpha1/common_types.go:815-833 | merging three lists does not depend on the grouping, spellings of `ALL` included |
| `Capabilities.UnionAbsorbs` | api/v1alpha1/common_types.go:815-833 | merging the same list again changes nothing |
| `Capabilities.CanonicalIsItsOwnUnion` | api/v1alpha1/common_types.go:815-833 | a list is its own union exactly when it is in the accepted shape |
| `Security.TableIsComplete` | api/v1alpha1/common_types.go:601-654 | the field table lists each of the eight fields once |
| `Security.ResolveSecurity` | api/v1alpha1/common_types.go:670-684 | the table walk over a copy gives the workload's answer field by field where it gives one, else the unit's, nil inputs included |
| `Security.WorkloadWins` | api/v1alpha1/common_types.go:670-684 | on every field a workload sets its own answer wins, on every other the unit's stands, nil inputs included |
| `Security.ResolvingAssociates` | api/v1alpha1/common_types.go:670-684 | three layers may be resolved in either grouping |
| `Security.WorkloadsOwnUid` | api/v1alpha1/common_types.go:650-684 | a project's uid and a workload's own |
| `Security.Refuses` | api/v1alpha1/common_types.go:780-806 | the branches name, in table order, exactly the declared fields that are not the answer of the tightened posture |
| `Security.TightenedBy` | api/v1alpha1/common_types.go:722-742 | the walk equals the closed form: pinned fields stay, escalation is the ceiling's, drops are the union |
| `Security.TighteningOnly` | api/v1alpha1/common_types.go:760-775 | the walk equals the declaration with refused fields zeroed and drops united where both drop something |
| `Security.BothAnswersAgree` | api/v1alpha1/common_types.go:670-806 | resolving the filtered declaration later is the posture merged at once: same fields, same drops, and the same lists exactly when the stated condition holds |
| `Security.SecurityOverrides` | api/v1alpha1/common_types.go:844-858 | the fields a workload's block sets, in table order |
| `Security.NamedInTableOrder` | api/v1alpha1/common_types.go:777-858 | ignored fields and overrides are named once each, in the table's order |
| `Security.OverridesAreTheUnrefusedFields` | api/v1alpha1/common_types.go:844-858 | after filtering, a field is reported as the workload's own exactly when it was declared and not refused |
| `Security.TightenedIsTighter` | api/v1alpha1/common_types.go:695-721 | no pinned field moves, escalation is never gained, and the drops are exactly both sides' |
| `Security.TightenAllOnlyTightens` | api/v1alpha1/common_types.go:722-742 | the same over any sequence of declarations |
| `Security.FirstSetterWins` | api/v1alpha1/common_types.go:722-742 | over any sequence of declarations a field has the value of the first that set it, the project first |
| `Security.TighteningIsIdempotent` | api/v1alpha1/common_types.go:722-742 | the same declaration again gives the same posture and names the same ignored fields |
| `Security.MergesKeepGroupWithPolicy` | api/v1alpha1/common_types.go:452-456 | both final postures keep a group beside its change policy; the half-way declaration keeps it exactly when stated |
| `AuditEncoding.FieldBoundaryIsUnambiguous` | internal/audit/chain.go:87-119 | no field's content can pass for the boundary before the next |
| `AuditEncoding.WriteUintIsInjective` | internal/audit/chain.go:121-125 | eight big-endian bytes tell every signed 64-bit value from every other |
| `AuditEncoding.EncodeIsInjective` | internal/audit/chain.go:95-114 | two records are hashed over the same bytes only when every hashed field is the same |
| `AuditDecoding.ContentReadsBack` | internal/audit/chain.go:95-125 | what is hashed reads back, the link, the number in eight big-endian bytes, and each of the fourteen fields from its own place |
| `AuditChain.Verify` | internal/audit/chain.go:216-266 | the verifier's loop reports, record by record against the neighbour, exactly `Judge`'s findings in order |
| `AuditChain.NoFindingsMeansSound` | internal/audit/chain.go:216-266 | nothing is found in a prefix exactly when each record in it follows, links to and hashes as it should |
| `AuditFindings.OneRecordReplaced` | internal/audit/chain.go:216-266 | any one record of a sound run replaced by any other: everything that is found, in the verifier's own words and order |
| `AuditFindings.EditedEntryIsMutated` | internal/audit/chain.go:248-252 | a record edited in place is the one finding, and it is mutated |
| `AuditFindings.RewrittenLinkIsUnlinked` | internal/audit/chain.go:241-252 | a rewritten link is unlinked, and mutated since the link is hashed |
| `AuditFindings.RehashedEditUnlinksTheNext` | internal/audit/chain.go:241-262 | an edit rehashed in place leaves the next record unlinked, and is not found at the end |
| `AuditFindings.RemovedRowsAreMissing` | internal/audit/chain.go:232-247 | rows taken out of the middle: the first gone is missing and the first left unlinked |
| `AuditFindings.AnchorSays` | internal/audit/chain.go:283-314 | what the anchor adds to a sound log: unanchored, truncated or unclaimed, and at which number |
| `AuditFindings.RangeOfASoundRun` | internal/audit/chain.go:216-231 | where a run begins and ends and how much was read |
| `AuditFindings.FoldIsLetterCase` | internal/audit/chain.go:241-248 | hashes compare equal exactly when they differ in the case of letters at most |
| `AuditChain.SoundRunsAreDense` | internal/audit/chain.go:216-266 | a sound run is numbered without a gap from its predecessor |
| `AuditChain.IntactMeansSoundAndComplete` | internal/audit/chain.go:283-314 | a whole log is intact exactly when there is an anchor, the chain is sound, and it has as many rows as numbers were claimed |
| `AuditChain.IntactPage` | internal/audit/chain.go:283-314 | a page is intact exactly when it is sound and an anchor exists; it says nothing about the end |
| `AuditChain.SealExtends` | internal/audit/chain.go:133-145 | sealing onto the end of a sound run leaves it sound |
| `AuditChain.LastHashFixesTheLog` | internal/audit/chain.go:216-266 | two sound runs of one length ending in one hash are the same log, or the hash collides on a pair of their records |
| `AuditChain.CollisionsAreTheDigests` | internal/audit/chain.go:95-114 | such a collision is one of the digest itself, on two different inputs |
| `AuditChain.EditsBeforeTheEndAreFound` | internal/audit/chain.go:216-314 | an edited log that keeps the last hash does not verify against the anchor |
| `AuditChain.AnchorHashDecides` | internal/audit/chain.go:283-314 | among the logs that verify, the anchor's hash tells the one it was taken from |
| `AuditChain.SequenceAloneDoesNotDecide` | internal/audit/chain.go:283-314 | take any log that verifies, keep any prefix and seal any other entries onto it to the same length: that verifies too |
| `AuditHead.TakeKeepsChain` | internal/audit/head.go:175-224 | a compare-and-swap on the head that succeeds extends the chain by one linked record and disturbs no other replica |
| `AuditHead.GiveBackKeepsChain` | internal/audit/head.go:233-251 | a put-back that succeeds removes the last claim, which nobody else holds |
| `AuditHead.StepKeepsChain` | internal/audit/head.go:175-251 | every step of any replica, and every expiry, keeps the chain linked, the head at its end and held numbers unshared |
| `AuditHead.StepKeepsRows` | internal/audit/recorder.go:244-259 | every step but the return of a number from under its row keeps rows in place, distinct and not written before their insert |
| `AuditHead.RunsKeepChain` | internal/audit/recorder.go:218-262 | the chain over every run whatever |
| `AuditHead.RunsKeepRows` | internal/audit/recorder.go:218-262 | the rows over every run in which no number is returned from under its row |
| `AuditRuns.AppendSucceeds` | internal/audit/recorder.go:218-262 | undisturbed, an append ends the table with the next record, linked to the head and hashed, and the head with it |
| `AuditRuns.FailedAppendIsUndone` | internal/audit/recorder.go:244-262 | one whose insert fails leaves head, table and claims as they were |
| `AuditRuns.ConflictTriesAgain` | internal/audit/head.go:213-218 | one that loses the compare-and-swap reads again with its record still to make |
| `AuditRuns.SpentNumberStands` | internal/audit/head.go:226-242 | one that finds something on top of its number leaves that number spent |
| `AuditRuns.VerificationIsExact` | internal/audit/chain.go:216-314 | after every such run, with rows ageing out, a log read at once verifies intact exactly when every claimed number has its row, and then the rows are the claims in order |
| `AuditRuns.NumbersAreKeptExactlyWhen` | internal/audit/recorder.go:244-259 | over every run, dishonest inserts included, rows have numbers of their own at or below the head throughout exactly when no number is returned from under its row |
| `AuditRuns.NumbersAreNeverReused` | internal/audit/head.go:175-251 | then no two rows in the table share a number |
| `AuditRuns.HonestRunsReturnNoRow` | internal/audit/recorder.go:244-259 | with a store that keeps no row it reports lost, no run returns a number from under its row |
| `AuditRuns.AppendersRemoveNoRow` | internal/audit/recorder.go:218-262 | the appenders remove no row: a run without an expiry keeps every row where it was inserted |
| `AuditRuns.UnacknowledgedInsertReusesNumber` | internal/audit/head.go:226-251 | a row kept but reported lost leads to a second row with its number |
| `AuditPages.ExpiryBreaksTheLog` | internal/clickhouse/schema.go:1451-1479 | a log that verified does not once any row of it has aged out |
| `AuditPages.ExpiredStartIsReported` | internal/audit/chain.go:216-266 | with the first row gone the findings begin with it missing and the next unlinked |
| `AuditPages.HonestLogAgesOut` | internal/clickhouse/schema.go:1451-1479 | a run of honest steps and one expiry, intact before and not after |
| `AuditPages.PageIsExact` | internal/audit/chain.go:216-314 | a run read at once from a row that is there to the end: intact exactly when there is something after it and every number after it has its row |
| `AuditPages.PagesAreExactAfterEveryRun` | internal/audit/chain.go:216-314 | the same over every run of the appenders and the retention |
| `AuditEndpoint.AnswerIsExact` | internal/api/audit.go:322-396 | for every log, start and limit: when it is refused, when it counts as a page of a longer log, and when it is intact |
| `AuditEndpoint.PageVerdict` | internal/api/audit.go:363-373 | a page against the chain, with the anchor compared or not |
| `AuditEndpoint.PrecedingIsRowN` | internal/api/audit.go:348-361 | a run is linked to the row before it exactly when it starts the log or that row is there |
| `AuditEndpoint.FirstPageIsExact` | internal/api/audit.go:322-396 | after every run, the answer from the beginning in each of the four cases of rows, limit and ceiling |
| `AuditWalk.WalkIsExact` | internal/api/audit.go:363-373 | after every run, page after page is intact exactly when every number has its row and the row count is not a positive multiple of the page length |
| `AuditWalk.WalkFromIsExact` | internal/api/audit.go:348-373 | the same from any row that is there, for anything that answers each page rightly |
| `AuditWalk.HandlerAnswersRight` | internal/api/audit.go:322-396 | which the handler does for pages the store can fill |
| `AuditWalk.FullPageHidesWhatFollows` | internal/api/audit.go:367-373 | a full first page is intact whatever became of the numbers after it |
| `AuditWalk.LostRowAfterAFullPage` | internal/api/audit.go:367-373 | a run that ends with a thousand rows and a number without one, answered intact |
| `AuditWalk.LongLogIsCalledTruncated` | internal/clickhouse/audit.go:336-354 | a whole log past the ceiling, asked for past the ceiling: the one finding is that it is cut short |
| `AuditWalk.WholeLongLogIsRefused` | internal/clickhouse/audit.go:336-354 | runs that lead there |
| `AuditWalk.PageAfterTheEndIsCalledTruncated` | internal/audit/chain.go:283-314 | the empty page after the last row is called cut short at 1 |
| `AuditFloors.FloorRaisesFalseAlarm` | internal/audit/head.go:186-201 | a run of honest steps after which an append is refused as a head gone backwards |
| `AuditFloors.RefusedReplicaTakesNothing` | internal/audit/head.go:186-201 | over every run no replica takes a number under its floor, and a refused read leaves everything as it was and the replica idle |
| `AuditFloors.ReadSealsExactlyUnlessRefused` | internal/audit/head.go:182-202 | a read goes on to seal exactly when the head is not under the floor |
| `AuditFloors.RestartedReplicaIsNotRefused` | internal/audit/head.go:186-211 | a replica that starts again has no floor |
| `AuditFloors.CarefulIsExact` | internal/audit/head.go:175-251 | from a safe world a step leads to a safe one exactly when it is careful: no put-back that lands unheard, none onto a number another replica may still return |
| `AuditFloors.SafeExactlyWhenCareful` | internal/audit/head.go:175-251 | a run is safe throughout exactly when every step is careful, and then no replica refuses |
| `AuditFloors.UnheardPutBackIsRefused` | internal/audit/head.go:242-250 | a put-back that lands and reports an error makes the replica refuse its own next append |
| `AuditFloors.CarelessPutBackIsRefused` | internal/audit/head.go:242-250 | a put-back onto a number another replica is inserting, or failed to insert, leads to a refusal in four steps |
| `AuditFloors.CarelessStepLeadsToRefusal` | internal/audit/head.go:186-251 | every step that is not careful leads to a refusal in at most four honest steps more |
| `AuditFloors.RefusalMeansInterference` | internal/audit/head.go:186-201 | from an empty log on, a careful run never refuses, and any other has a first careless put-back from which at most four honest steps lead to a refusal |
| `Identity.MachineIdentityInvertsAddress` | auth/src/identity.ts:108-161 | parsing inverts printing on every pair of labels |
| `Identity.NormalFormIsExact` | auth/src/identity.ts:98-105 | normalising gives the one string with no upper-case letter and no blank at either end that the address is but for those |
| `Identity.CaseAndBlanksDoNotMatter` | auth/src/identity.ts:98-175 | addresses that differ in case and surrounding blanks have one normal form and one identity, and are both people or neither, but for the empty address beside a blank service address |
| `Identity.PersonIsExact` | auth/src/identity.ts:168-175 | a person is whoever's normal form is not the service account's and ends in neither reserved domain |
| `Identity.ServiceAddressInAnyCase` | auth/src/identity.ts:168-175 | the service account written with capitals is no person |
| `Identity.LabelIsThePattern` | auth/src/identity.ts:88-96 | a label is what the pattern says, character by character |
| `Identity.AddressesAsWritten` | auth/src/identity.ts:108-120 | one address of each kind as it is printed |
| `Identity.PlatformIdentityInvertsAddress` | auth/src/identity.ts:118-139 | parsing inverts printing on every label |
| `Identity.AcceptedAddressPrintsBack` | auth/src/identity.ts:147-161 | whatever is accepted prints back to the normalised address |
| `Identity.MachineIdentityIsExact` | auth/src/identity.ts:147-161 | an address is read as a project and key exactly when it is, normalised, their printed address |
| `Identity.PlatformIdentityIsExact` | auth/src/identity.ts:133-139 | likewise for a platform credential |
| `Identity.KindsAreDisjoint` | auth/src/identity.ts:113-175 | no address is both kinds of credential and neither kind is ever a person |
| `Identity.ListPeopleIsThePeople` | auth/src/identity.ts:194-202 | query exclusion then filter is the filter by person, in order, exactly unless an empty service address meets an empty row |
| `Identity.CredentialsDoNotCount` | auth/src/identity.ts:173-202 | adding and removing credentials' accounts in any order and number never changes who the people are |
| `Bootstrap.StepKeepsExclusive` | auth/src/db.ts:110-119 | every ordinary step keeps sessions unshared and the critical section with the session that holds the lock |
| `Bootstrap.CriticalIsExclusive` | auth/src/db.ts:110-119 | which leaves room for one request in it |
| `Bootstrap.UnlockKeepsExclusive` | auth/src/db.ts:110-119 | an unlock that fails silently, leaving a pooled session with the lock, breaks nothing |
| `BootstrapRuns.StepKeepsOnePerson` | auth/src/bootstrap.ts:79-124 | every ordinary step keeps the number of people created at one or none, and none while somebody is about to create |
| `BootstrapRuns.RunsKeepInv` | auth/src/bootstrap.ts:62-124 | the whole invariant over every run |
| `BootstrapRuns.MutualExclusion` | auth/src/bootstrap.ts:62-77 | in every interleaving at most one request is between lock and unlock |
| `BootstrapRuns.AtMostOneAdministrator` | auth/src/bootstrap.ts:62-124 | in every interleaving at most one person is created, at most one request is told so, and that account exists with a credential |
| `BootstrapRuns.ClosedStaysClosed` | auth/src/bootstrap.ts:26-28 | once somebody has an account and nobody is writing, no run creates an account or a credential |
| `BootstrapAnswers.StepKeepsFairness` | auth/src/bootstrap.ts:62-124 | every ordinary step keeps each request no further than its body deserves and each written row its request's own |
| `BootstrapAnswers.OnlyTheTokenHolderWrites` | auth/src/bootstrap.ts:62-124 | in every interleaving an account is written only for a request that knew the token and passed every check, under its own normalised address |
| `BootstrapAnswers.AnswersAreFair` | auth/src/bootstrap.ts:62-103 | every answer says what is so: 404 not enabled, 401 not the token, 410 closed and still closed, 400 not acceptable, or created |
| `BootstrapAnswers.ValidateIsExact` | auth/src/bootstrap.ts:84-103 | the checks pass exactly on an address with an at-sign, a name that is not blank and a password within both bounds |
| `BootstrapAnswers.CheckIsExact` | auth/src/bootstrap.ts:79-103 | what the half under the lock does first: 410 where a person has an account, then 400, and only then goes on to write |
| `BootstrapAnswers.StepKeepsAddressesUnique` | auth/src/bootstrap.ts:104-114 | addresses stay unique in the table |
| `BootstrapAnswers.ReleaseUndoesAcquire` | auth/src/db.ts:110-119 | a session that holds the lock several times lets it go once by one unlock, and altogether by ending |
| `BootstrapAnswers.LeakedLockKeepsOthersOut` | auth/src/db.ts:110-119 | a lock left with a pooled session keeps every other session out until that one is closed |
| `BootstrapRuns.LinkClosesExactlyForAPerson` | auth/src/bootstrap.ts:79-124 | a completed bootstrap closes the link exactly when the address is a person's |
| `BootstrapLockouts.LockedOutExactlyWhen` | auth/src/bootstrap.ts:104-124 | over every ordinary run a created person has no credential, and no request at it, exactly when a step lost the second write |
| `BootstrapLockouts.StepLocksExactlyWhenItLoses` | auth/src/bootstrap.ts:104-124 | step by step: a crash while linking, a link that failed, a create that landed and reported an error; and nothing undoes it |
| `BootstrapLockouts.LockedOutForGood` | auth/src/bootstrap.ts:79-84 | from such a world no request, however interleaved, gives anybody a credential |
| `BootstrapLockouts.CrashBetweenWritesLocksOut` | auth/src/bootstrap.ts:105-124 | a run with a crash between the writes |
| `BootstrapLockouts.FailedLinkLocksOut` | auth/src/bootstrap.ts:115-120 | a run with no crash whose second write fails |
| `BootstrapLockouts.LandedCreateThatFailsLocksOut` | auth/src/bootstrap.ts:105-114 | a run whose first write lands and reports an error |
| `BootstrapRuns.LosingASessionBreaksIt` | auth/src/db.ts:110-119 | a session lost while its process lives lets two rows be written, each a person's |
| `BootstrapRuns.ALateWriteBreaksIt` | auth/src/bootstrap.ts:105-124 | so does a write that lands after its process is gone |
| `BootstrapRuns.AFailedWriteLandingLateBreaksIt` | auth/src/bootstrap.ts:105-114 | or after it reported an error and the lock was let go of |
| `BootstrapRuns.DeletingThePersonReopensIt` | auth/src/bootstrap.ts:26-28 | and so does deleting the person |
| `ReleaseHistory.Environment.RecordReleaseMove` | api/v1alpha1/environment_types.go:625-649 | the new history, that nothing else changes, and that true is answered exactly when the history changed |
| `ReleaseHistory.HistoryIsNewestOfLog` | api/v1alpha1/environment_types.go:618-649 | for every sequence of reports the history is the newest ten of the uncut single-writer log of what was news |
| `ReleaseHistory.LogIsNewestFirst` | api/v1alpha1/environment_types.go:625-649 | entry by entry, what that log says of each move |
| `ReleaseHistory.HistoryOfReportedMoves` | api/v1alpha1/environment_types.go:618-649 | two writers are as good as one while every move is reported before the next is |
| `ReleaseHistory.HistoryIsRightExactlyWhen` | api/v1alpha1/environment_types.go:618-649 | for any reports and any real moves: the history is right exactly when the newest ten of the news are the newest ten moves and began when they did |
| `ReleaseHistory.LateReportInventsAStint` | api/v1alpha1/environment_types.go:618-649 | a report that comes after the next move adds a stint that was not |
| `ReleaseHistory.HistoryIsContiguous` | api/v1alpha1/environment_types.go:625-649 | neighbours name different releases, each begins where the next older ended, and the first began at creation |
| `RefusedPreviews.PreviewCapacityStatus.RecordRefusedPreview` | api/v1alpha1/project_types.go:1037-1054 | the new list, true exactly when it changed, and the request on it with the given commit |
| `RefusedPreviews.PreviewCapacityStatus.ClearRefusedPreview` | api/v1alpha1/project_types.go:1058-1067 | the list without the request's entry, and true exactly when it had one |
| `RefusedPreviews.ListIsBounded` | api/v1alpha1/project_types.go:1037-1067 | after every sequence of calls at most twenty entries with distinct requests |
| `RefusedPreviews.EntriesTellTheirStory` | api/v1alpha1/project_types.go:1037-1067 | every entry has been there since a first refusal and says what was last said of its request |
| `RefusedPreviews.RepeatedRefusalWritesNothing` | api/v1alpha1/project_types.go:1037-1048 | refusing the same commit again changes nothing, its time included |
| `RefusedPreviews.OrderIsFirstRefusal` | api/v1alpha1/project_types.go:1037-1067 | entries stand in the order of first refusal |
| `RefusedPreviews.StaysUntilOvertaken` | api/v1alpha1/project_types.go:1037-1067 | an entry not cleared stays until twenty other requests were first refused after it |
| `RefusedPreviews.CallKeepsOldestFirstExactlyUnless` | api/v1alpha1/project_types.go:1037-1067 | under a clock that does not go back a call keeps the list oldest first exactly unless it gives a new commit to an entry with an older one behind it |
| `RefusedPreviews.OldestFirstExactlyUnlessOvertaken` | api/v1alpha1/project_types.go:1037-1067 | over every run, throughout exactly when no call does that |
| `RefusedPreviews.PushedToAgainStandsFirst` | api/v1alpha1/project_types.go:1037-1054 | three calls after which it is not |
| `RefusedPreviews.DroppedExactlyWhen` | api/v1alpha1/project_types.go:1033-1067 | an entry leaves exactly when it is cleared, or is first in a full list to which another is added |
| `RefusedPreviews.JustPushedToIsDropped` | api/v1alpha1/project_types.go:1033-1054 | so the entry the latest push refreshed may be dropped by the next first refusal |
| `RefusedPreviews.FirstRefusalsFill` | api/v1alpha1/project_types.go:1037-1054 | a full list is reached by refusing as many different requests |
| `CommitMessage.SplitCommitMessage` | api/v1alpha1/build_types.go:84-99 | the subject, and the body's bytes as the encoding of a whole-rune text |
| `CommitMessage.EncodeIsInjective` | api/v1alpha1/build_types.go:94-97 | no two texts have the same bytes |
| `CommitMessage.WhiteSpaceIs` | api/v1alpha1/build_types.go:86 | the code points trimmed from a subject |
| `CommitMessage.CutKeepsWholeRunes` | api/v1alpha1/build_types.go:94-97 | cutting the bytes anywhere and dropping what is not well formed is cutting at a rune boundary |
| `CommitMessage.FitIsLongest` | api/v1alpha1/build_types.go:94-97 | and at the last one that fits, wasting at most three bytes |
| `CommitMessage.BodyFitsTheSchema` | api/v1alpha1/build_types.go:66-99 | the whole text within 4096 bytes, or its longest whole-rune prefix of at least 4093 and an ellipsis; never past 4100 characters |
| `CommitMessage.BodyKeepsItsShape` | api/v1alpha1/build_types.go:84-99 | only newlines are cut before the body and only blanks after it |
| `CommitMessage.PairBecomesNewline` | api/v1alpha1/build_types.go:91 | a carriage return and newline anywhere become a newline, and either side is rewritten by itself |
| `CommitMessage.NoPairNoChange` | api/v1alpha1/build_types.go:91 | a text is left as it is exactly when it has no such pair |
| `CommitMessage.SubjectIsTheFirstLine` | api/v1alpha1/build_types.go:84-88 | the subject is the first line with the white space at its ends gone and nothing else |
| `CommitMessage.SubjectIsFinal` | api/v1alpha1/build_types.go:84-99 | the subject has no newline and splits into itself and an empty body |
| `CommitMessage.OnePassLeavesCRLF` | api/v1alpha1/build_types.go:84-99 | the replacement of carriage returns is a single pass and can leave a pair |
| `Tolerance.ParseDuration` | api/v1alpha1/criticality_types.go:135-144 | parsing in arithmetic modulo 2^64 never wraps and refuses exactly what is not a signed 64-bit count |
| `Tolerance.LeadingInt` | api/v1alpha1/criticality_types.go:135-144 | the digits' value and what follows, or nothing past 2^63 |
| `Tolerance.MatchIsExact` | api/v1alpha1/criticality_types.go:108-129 | a text matches exactly when it is written as hours then minutes, and in one way only |
| `Tolerance.ReadingIsExact` | api/v1alpha1/criticality_types.go:126-144 | acted on exactly when not empty, matching and within 64 bits, and then as what was written |
| `Tolerance.NinetyMinutes` | api/v1alpha1/criticality_types.go:108-144 | an hour and a half in nanoseconds |
| `Tolerance.AdmittedButUndeclared` | api/v1alpha1/criticality_types.go:108-144 | a family of admitted values that are read as undeclared |
| `Approvers.RequiredApproverRole` | api/v1alpha1/compliance_types.go:387-400 | the loop over the configured or default ladder computes `RequiredRole` |
| `Approvers.WhoApproves` | api/v1alpha1/compliance_types.go:355-400 | a configured ladder decides by its own rungs; with none, up to a day is a developer's, up to thirty an admin's, and longer an operator's |
| `Approvers.RoleIsLowestRungs` | api/v1alpha1/compliance_types.go:383-400 | the earliest lowest covering rung's role, an operator when none covers, for every ladder and non-negative duration |
| `Approvers.OrderDoesNotMatter` | api/v1alpha1/compliance_types.go:383-400 | rungs with distinct limits may be listed in any order |
| `Approvers.MonotoneExactlyWhenRolesRise` | api/v1alpha1/compliance_types.go:383-400 | a longer grant never needs a lesser approver exactly when roles rise with the limits |
| `Approvers.LoopFindsLowestExactlyWhen` | api/v1alpha1/compliance_types.go:387-400 | for any duration, negative ones included, exactly when the negative sentinel does no harm |
| `Stages.StageIndex` | api/v1alpha1/project_types.go:570-580 | the first stage deploying into the environment, or -1, for no policy too |
| `Stages.NextStage` | api/v1alpha1/project_types.go:584-590 | the stage after it, if there is one |
| `Stages.WalkVisitsEachLaterStage` | api/v1alpha1/project_types.go:584-590 | where later environments are fresh, the walk visits each later stage once, in order, and ends after the last |
| `Stages.WalkEndsExactlyWhenFresh` | api/v1alpha1/project_types.go:570-590 | from any stage the walk ends exactly when no later stage deploys into an environment named before it |
| `Stages.LadderEndsExactlyWhenDistinct` | api/v1alpha1/project_types.go:570-590 | from the first stage it ends exactly when the environments are distinct |
| `Stages.RepeatedEnvironmentNeverEnds` | api/v1alpha1/project_types.go:556-590 | a ladder of three stages along which following `NextStage` never ends |
| `Stages.Climb` | internal/controller/promotion_controller.go:434-443 | a release goes on by itself to automatic stages it has no promotion into yet, and this ends after at most as many as there are |
| `Stages.ReleaseClimbsExactlyTo` | internal/controller/promotion_controller.go:740-811 | for each way to arrive in the first stage and any automatic promotions there are: where the release stops, and exactly when it passes every stage |
| `Stages.PersonsReleasePassesARepeat` | internal/api/promotions.go:82-110 | a person's promotion climbs a ladder whose first environment is also its last to the end; a build's does not |
| `Stages.FlippedReleaseStays` | internal/controller/build_controller.go:1962-1999 | a release a build landed directly goes nowhere by itself |
| `Stages.BarredBuildClimbs` | internal/controller/build_controller.go:1962-1999 | a build past the bar of an environment that has one makes an automatic promotion, and that climbs |
| `Processes.AllProcesses` | api/v1alpha1/process_types.go:861-874 | the merging loop computes `Merged` |
| `Processes.IndexOfProcess` | api/v1alpha1/process_types.go:889-896 | the first workload of a name, or -1 |
| `Processes.ProcessNames` | api/v1alpha1/process_types.go:789-803 | web first, then the declared names where any are declared, else the project's |
| `Processes.MergedNames` | api/v1alpha1/process_types.go:861-874 | the project's names as they stood and then each new one in order of first declaration; with distinct project names the union without repeats |
| `Processes.MergedAt` | api/v1alpha1/process_types.go:861-874 | what stands at each place: the last declaration at a name's first place, the project's own workload anywhere else |
| `Processes.DeclaredWinsItsName` | api/v1alpha1/process_types.go:861-874 | a lookup finds the latest declaration of a name, and the project's workload for a name not declared |
| `Processes.MergingAgainChangesNothing` | api/v1alpha1/process_types.go:861-874 | merging is idempotent, repeated names on either side included |
| `Processes.DeployedNamesAreAmongAll` | api/v1alpha1/process_types.go:789-886 | what the next deploy runs is among what a workload could be called, and is all of it exactly when stated |
| `Declares.Declares` | api/v1alpha1/repoconfig_types.go:331-401 | for every order of the map's keys, one list that is a function of the file alone |
| `Declares.DeclaresNamed` | api/v1alpha1/repoconfig_types.go:406-441 | the four lookups: found exactly when the named list has the name |
| `Declares.GatheringIgnoresOrder` | api/v1alpha1/repoconfig_types.go:351-368 | another order of the map gathers the same fields |
| `Declares.SortedIsUnique` | api/v1alpha1/repoconfig_types.go:399-400 | a sorted list is settled by what is in it |
| `Declares.ListedExactlyWhenDeclared` | api/v1alpha1/repoconfig_types.go:331-441 | a prefixed name is listed as often as the file declares it, so exactly when the lookup says so |
| `Declares.ListedExactlyWhenSet` | api/v1alpha1/repoconfig_types.go:331-401 | a setting is listed exactly when the file sets it |
| `Declares.BuildSettings` | api/v1alpha1/repoconfig_types.go:336-349 | each name of the build section beside the field it stands for |
| `Declares.RuntimeFlags` | api/v1alpha1/repoconfig_types.go:351-368 | likewise port, replicas and singleton |
| `Declares.RuntimeRequestDriven` | api/v1alpha1/repoconfig_types.go:351-368 | and notRequestDriven |
| `Declares.RuntimeMoreFlags` | api/v1alpha1/repoconfig_types.go:351-368 | and health and security |
| `Declares.RuntimeCommands` | api/v1alpha1/repoconfig_types.go:351-368 | and command and args |
| `Declares.RuntimeMoreCommands` | api/v1alpha1/repoconfig_types.go:351-368 | and previewArgs and init |
| `Declares.RuntimeResources` | api/v1alpha1/repoconfig_types.go:369-376 | and the two resources |
| `Declares.ProcessesListed` | api/v1alpha1/repoconfig_types.go:396-398 | and the process list |
| `Declares.NamedLists` | api/v1alpha1/repoconfig_types.go:378-395 | and the four named lists under their prefixes |
| `Declares.ShownAlikeExactlyWhenDeclaredAlike` | api/v1alpha1/repoconfig_types.go:322-330 | two files give one list exactly when they set the same settings and declare the same names as often |
| `Names.BuildsCollideExactlyOnOneCommit` | api/v1alpha1/build_types.go:45-64 | for commits without a dash, equal exactly when the projects are and the commits agree on their first twelve characters |
| `Names.BuildOfACommit` | api/v1alpha1/build_types.go:59-64 | one Build's name as it is written |
| `Names.ServiceEnvPrefix` | api/v1alpha1/process_types.go:577-590 | the loop converts character by character behind the prefix |
| `Names.GatewaysVariable` | api/v1alpha1/process_types.go:572-590 | the documentation's own example |
| `Names.ConversionReadsBack` | api/v1alpha1/process_types.go:572-590 | the name can be read back exactly when it has no underscore and no upper-case letter |
| `Names.ConversionIsAVariableName` | api/v1alpha1/process_types.go:572-590 | the result is a variable name exactly when the workload's has only letters, digits, dashes and underscores |
| `Names.VariablesMeetExactlyWhen` | internal/controller/environment_controller.go:1038-1058 | two services share a variable exactly when they are one, or one is the other with `-host` or `-port` behind it |
| `Names.VariablesOfMeetExactlyWhen` | internal/controller/servicebindings.go:137-148 | the same where either may have no URL, and so no variable under its bare prefix |
| `Names.NameCheckIsNotEnough` | internal/api/claims_service.go:93-105 | an accepted binding collides with a workload exactly when that is a service and their names meet by a suffix, the one with the suffix having a URL; with another binding exactly when their names meet |
| `Names.AcceptedAndColliding` | internal/api/claims_service.go:93-105 | a service and a binding, and two bindings, of that kind |
| `Names.AcceptedAndApart` | internal/controller/servicebindings.go:137-148 | without a URL, or beside a workload that is no service, the same names do not collide |
| `Evidence.Build.Artifacts` | api/v1alpha1/build_types.go:1397-1412 | the recorded artifacts, web first, then in row order |
| `Evidence.Build.ArtifactFor` | api/v1alpha1/build_types.go:1416-1426 | the artifact at the place the name is found |
| `Evidence.Build.ArtifactsWithoutEvidence` | api/v1alpha1/build_types.go:1438-1456 | web and the workloads not settled, in order |
| `Evidence.Build.FullyAttested` | api/v1alpha1/build_types.go:1461-1463 | true exactly when web and every workload that did not fail has an attested artifact |
| `Evidence.Build.GatesFor` | api/v1alpha1/build_types.go:1490-1500 | the place itself, web's, the row's, or a fresh one |
| `Evidence.Build.RecordGate` | api/v1alpha1/build_types.go:1490-1500 | a write through that place changes that one image's rows and nothing else |
| `Evidence.EveryRowIsFoundExactlyWhenProper` | api/v1alpha1/build_types.go:1416-1500 | every row is found under its own name exactly when names are distinct and none is empty or `web` |
| `Evidence.MissingIsExact` | api/v1alpha1/build_types.go:1438-1456 | what is listed as missing, name by name, and when nothing is |
| `Evidence.RecordedInOrder` | api/v1alpha1/build_types.go:1397-1412 | the listing is web's part and then each row's, in the order of the rows |
| `Evidence.MissingInOrder` | api/v1alpha1/build_types.go:1438-1456 | and so is what is missing |
| `Evidence.OneRowsPart` | api/v1alpha1/build_types.go:1397-1456 | what one row, and web, contributes to either |
| `Evidence.WebHasTwoNames` | api/v1alpha1/build_types.go:1416-1419 | the empty name and `web` are the web process, and no other is |
| `Evidence.ListAndLookupAgree` | api/v1alpha1/build_types.go:1397-1426 | with proper names an artifact is listed exactly when the lookup answers it |
| `Evidence.FullMeansEveryDeployedImage` | api/v1alpha1/build_types.go:1397-1463 | with proper names, fully attested means each deployed image is found by name with a signed record |
| `Evidence.AllListedAttestedIsNotFull` | api/v1alpha1/build_types.go:1397-1463 | signed records on everything listed are not enough |

## Left out

- The head object's creation, seeding and adoption (internal/audit/head.go:267-540), and the bound of attempts on a claim: a run may give up at any point instead.
- SHA-256, hexadecimal encoding, PostgreSQL, the password hash and the client libraries: a parameter, or steps that may fail.
- Audit timestamps are the text they are hashed as; formatting and truncation of times are not part of this model.
- Sequence numbers are unbounded in the chain; the encoding of one is its 64-bit two's complement and its injectivity is stated within that range.
- Case-insensitive comparison of hashes is over ASCII, which is all a hexadecimal hash has.
- Addresses are ASCII strings: Unicode case folding and Unicode blanks are not modelled in `Identity`.
- The installation's service address is taken to be not empty in the bootstrap theorems; the configuration substitutes one where none is given.
- The pool's size and the waiting for a connection or a lock: a step that is not enabled simply does not happen.
- A commit message is valid UTF-8, given as its scalar values; a body with invalid bytes is not modelled.
- Nil and empty lists are one value, and that `ResolveSecurity` may answer its argument itself rather than a copy is not modelled: postures are values here.
- uid and gid are non-negative, as admission requires.
- Times in histories are integers of milliseconds.
- Declares: the standard library's sort is specified by an insertion sort, any sort giving the same list; only the names in the named lists and whether a pointer is nil are modelled.
- GatesFor: the rows a write replaces are modelled as one gate appended.
- `EffectiveContinuity`, `Admits`, `ServedConsumers`, ranks, defaults and sentences for people: one branch settles each.
- Whether an environment's own requirements let a promotion through: in `Climb` every promotion made is applied. Promotions' names are hashes and taken to be different for different environments.
- Retention's days and clock: any row may age out at any time.
- The verification endpoint's reads of the table and of the anchor are of one moment, and the anchor is there.
- Which services and bindings an environment has is an input to the collision results; how a binding comes to be bound is not modelled.
- The reconcilers, the API's handlers, the dashboard, the chart and the network clients.
