# Club management: verified core

This project models, in Dafny 4.11, the parts of a club management system (a FastAPI
and PostgreSQL backend, a Next.js frontend) on which the consistency of its data
rests, and proves what they promise.  Each module follows one component:

- **Protocols.** `Reset` is the club-data reset: DELETEs over all tables, children
  first, sparing the super admins.  `AfterCommit` is the queue of side effects that
  wait for a commit.  `FileReplace` is the replacement of a stored file that a row
  points at.  `SessionKey` is the race of several processes to mint one signing key.
  `Announcement` is the email fan-out that resumes after a crash.
- **Migrations.** `Repoint` moves four tables from members to parties and back.
  `Deduplicate` makes "one active login, member, mandate" true before the unique
  index is built.  `GrossBase` moves discounts between net and gross form.
  `DefaultTier` promotes or creates the one default tier.
- **Encodings and arithmetic.** `Iban` is the MOD 97-10 check (ISO/IEC 7064:2003) as
  used by ISO 13616-1.  `LikeSearch` is LIKE escaping against a LIKE matcher (section
  8.5 of ISO/IEC 9075-2).  `FormUrlEncoded` and `ReturnTo` are return links over the
  `application/x-www-form-urlencoded` format (sections 5.1 and 5.2 of the WHATWG URL
  Standard).  `InvoiceNumbers`, `SeedRegistrations` and `Pagination` are counters.

`Common` and `Decimal` hold what several modules share.

Code that changes things in place is a class whose methods are proved equal to a
function of the old state; the lemmas then speak of that function.  One SQL statement
is one simultaneous change of a table, given as a map or sequence of rows.  Processes,
crashes, failing calls and the order in which a set of files is visited are left open
and quantified over.

Some intentions hold only under a condition the proofs had to find:

- The reset fails, as a whole, exactly when a super admin also holds a custom role:
  the key from role assignments to roles is RESTRICT, and such an assignment survives
  the DELETE on `user_roles` while the role itself does not survive
  (`Reset.Session.ResetClubData`, `ResetExample.SuperAdminWithACustomRole`).
- `$` in the IBAN pattern accepts a trailing newline, which then raises instead of
  being refused; normalisation removes it first (`CrashesOnTrailingNewline`).
- The check accepts the alias check digits 00, 01 and 99, which the standard never
  computes (`OneCheckPairValidates`).
- Discounts move between net and gross form without loss on one side of 100.00 of
  gross in each direction, and on that side only (`UpgradeThresholdIsExact`,
  `DowngradeThresholdIsExact`).
- A creator of the key file that dies before writing leaves every later process with
  a key of its own, for good; the comment at `backend/app/core/config.py:274` speaks
  of an unreadable file only (`DeadCreatorWedges`).
- Both repointing migrations rewrite a column while its old foreign key is in force,
  and none of these keys is deferrable.  So, besides what the uniques demand, every new
  number has to be a number of the old table as well: always so for persons on data
  straight from 2.x (`EqualNumbersPass`), but not once person and party numbers have
  drifted apart (`DriftedNumbersFail`), and not in general for members and parties
  (`Repoint.Database.Upgrade`, `OperatorStopsTheUpgrade`).  The note at
  `backend/alembic/versions/e9b7d4c15f28_repoint_the_money_and_participation_edges.py:12-18`
  draws this conclusion for the uniques only.
- The unique constraint on custom field values stays in place while owners are
  remapped, unlike the other uniques (`ValuesRemapSafelyIff`).
- A commit that is durable but raises, its answer lost, makes the replacement of a
  file remove the new content under a row that names it (`FileReplace.Store.ReplaceFile`).
- A member who joins the audience of an announcement between two attempts has no
  recipient row to resume from (`LatecomersAreMailedEveryTime`).
- The LIKE that reads back the invoice series does not escape the prefix.  No prefix
  the settings API accepts (`backend/app/domains/organizations/schemas.py:107`) is
  affected (`AcceptedPrefixDrawsNewNumbers`); only one stored before that rule, or by
  other means, can hold a backslash and hide its series (`RedrawnIffUnselected`,
  `DrawnNumbersAreNewIff`).
- A target with a fragment or with a `from` of its own does not show the crumb its
  link was built with (`CrumbComesBackIffBare`).

Check everything with `dafny verify dfyconfig.toml`.

## Model

| member | source | states |
|---|---|---|
| Reset.Session.ResetClubData | backend/app/cli/reset.py:167-193 | for every consistent database, read off its rows: of the users exactly those stay to whom an assignment gives a role called super_admin, of the parties theirs, with their persons, identities and assignments, of the roles the system ones with their grants, the lookups and payment providers, nothing of the club; no other value changes than a lost grantor; the report counts exactly the rows gone, per table; it is stopped, by the RESTRICT key on roles, if and only if a super admin holds a role that is not a system role; an unclassified table refuses before anything is deleted; no reference dangles in any outcome |
| Reset.Session.PreviewClubData | backend/app/cli/reset.py:150-164 | the preview counts, per table, exactly the rows a reset takes, and names only tables that lose some; same refusal as the reset |
| Reset.Session.DeleteAllBut | backend/app/cli/reset.py:176-193 | the children-first loop: at every step the database is the stage with the tables done so far cleared, and consistent |
| Reset.Session.Clear | backend/app/cli/reset.py:181-186 | one DELETE removes the rows of its own table that are not spared, and counts them; only the DELETE on roles can be refused |
| Reset.Turn | backend/app/cli/reset.py:176-186 | one turn of the loop takes one stage to the next, or fails exactly at roles when a super admin holds a custom role |
| Reset.NothingElseIsDoomed | backend/app/cli/reset.py:177-184 | the cascade closure of each DELETE is the condemned rows of that table, plus, for roles alone, the grants of the custom roles |
| Reset.NotBlocked | backend/app/cli/reset.py:177-179 | no key without ON DELETE action and no RESTRICT key stands in the way of a children-first DELETE when super admins hold system roles only |
| Reset.CustomRoleBlocks | backend/alembic/versions/d1a2b3c4e5f6_add_roles_and_permissions.py:115-117 | a super admin's custom role is what makes the DELETE on roles fail |
| Reset.KeptRowKeepsItsParents | backend/app/cli/reset.py:66-88 | a row that outlives a reset keeps every parent but two: the grantor of its role assignment, and, for a super admin's assignment, a custom role |
| Reset.DeleteKeepsConsistent | backend/app/cli/reset.py:177-184 | a DELETE with CASCADE, SET NULL, RESTRICT and NO ACTION keys leaves no dangling reference |
| Reset.WhereSpares | backend/app/cli/reset.py:118-139 | dropping the clause when there is nobody to spare selects the same rows as NOT IN over the empty list |
| Reset.CountsFromMean | backend/app/cli/reset.py:155-164 | the report names exactly the tables that lose rows, with the number each loses |
| Reset.SuperAdminsRemain | backend/app/cli/reset.py:104-115 | a reset that goes through makes and unmakes no super admin |
| Reset.OutlivesIffSurvives | backend/app/cli/reset.py:62-139 | the rows the DELETEs spare are those of the operator, read off the rows |
| Reset.CountsAreOfTheTaken | backend/app/cli/reset.py:155-164 | each count is of the rows of that table that go |
| Reset.SecondResetDeletesNothing | backend/app/cli/reset.py:167-193 | after a reset the same people are preserved and a second reset deletes nothing |
| ResetExample.SomeSchemaIsWellFormed | backend/app/cli/reset.py:62-89 | the assumptions on the schema can be met together, by a schema whose tables are all classified |
| ResetExample.SuperAdminWithACustomRole | backend/app/cli/reset.py:66-88 | an ordinary valid database, one super admin with a second, custom role, on which the reset is refused |
| ResetExample.NewTableStopsTheReset | backend/app/cli/reset.py:92-101 | a table nobody has classified stops the command |
| AfterCommit.RunsOnceIffCommitted | backend/app/db/after_commit.py:26-52 | a hook runs exactly once if the first outer boundary after it was queued is a commit, never otherwise, and hooks run in queueing order |
| AfterCommit.FateIsFirstBoundary | backend/app/db/after_commit.py:36-52 | a hook is due, waiting or dropped according to the first outer boundary after it alone; savepoint rollbacks do not count |
| AfterCommit.DueThenWaitingIncreases | backend/app/db/after_commit.py:36-43 | due and waiting hooks together stay in queueing order, none twice |
| AfterCommit.CommitSettles | backend/app/db/after_commit.py:36-43 | a commit runs everything queued before it, in order, and leaves waiting exactly what the hooks parked while running |
| AfterCommit.RunEachSettles | backend/app/db/after_commit.py:39-43 | draining the taken queue runs it all whatever the hooks raise or queue |
| AfterCommit.Session.RunAfterCommit | backend/app/db/after_commit.py:26-33 | parks one hook at the end of the queue; listeners are installed once per session |
| AfterCommit.Session.RunQueued | backend/app/db/after_commit.py:36-43 | swaps the queue out and drains it; a raising hook is counted and stops nothing |
| AfterCommit.Session.Commit | backend/app/db/after_commit.py:31-43 | an outer commit fires the one listener once |
| AfterCommit.Session.SoftRollback | backend/app/db/after_commit.py:46-52 | a savepoint's rollback changes nothing; the outer transaction's empties the queue |
| AfterCommit.Session.Replay | backend/app/db/after_commit.py:26-52 | every trace of queueing, savepoint rollback, commit and rollback leads the session to the state the trace defines, with everything due having run |
| AfterCommit.TraceRunsOnceIffCommitted | backend/app/db/after_commit.py:26-52 | over every trace, the hook an event queues runs exactly once if the first commit or outer rollback after it is a commit and never otherwise, whatever hooks raise or queue |
| AfterCommit.QueuedByHooksRunsOnceIffCommitted | backend/app/db/after_commit.py:36-43 | a hook queued by a running hook runs exactly once if the first end of a transaction after that commit is a commit again, and never otherwise |
| AfterCommit.CommitLeavesWhatHooksQueued | backend/app/db/after_commit.py:33-52 | after a commit exactly the hooks queued by the hooks it ran are waiting, in order; after a rollback none, after a savepoint's the same as before |
| AfterCommit.TicketsFollowTheTrace | backend/app/db/after_commit.py:33-43 | hooks of a trace run in the order of the trace |
| FileReplace.Store.ReplaceFile | backend/app/core/file_replace.py:32-60 | for every point of failure: up to the commit row and files are untouched but for a temporary; the row names a missing file if and only if the name is new and the call ended between commit and move, a commit that is durable and still raises included; success leaves one file on the stem with the whole new content and every other stem as it was |
| FileReplace.Store.Install | backend/app/core/file_replace.py:58-59 | the move and the sweep: the final name is never missing again, other stems are untouched |
| FileReplace.Store.RemoveFiles | backend/app/core/file_replace.py:63-71 | unlinks files on the stem only, never the one kept, and all others if it finishes |
| FileReplace.Store.DeleteFile | backend/app/api/v1/endpoints/activity_cover_image.py:79-89 | clear and commit first, unlink afterwards: the row never comes to name a file this removed |
| FileReplace.RepairedByOneSuccess | backend/app/core/file_replace.py:45-60 | after any calls that died anywhere, one call that succeeds leaves the row naming the one file on the stem |
| FileReplace.OtherStemsDoNotMatch | backend/app/core/file_replace.py:67-69 | neither glob matches final or temporary names of a different stem |
| SessionKey.RunKeeps | backend/app/core/config.py:283-294 | over every interleaving, crash and restart of any number of processes at most one key is written, and none over a file that was found |
| SessionKey.ContentNeverChanges | backend/app/core/config.py:286-291 | a key file that has content keeps it |
| SessionKey.WriteSticks | backend/app/core/config.py:286-291 | over every run from a cold start without a file: from the step in which a process writes its token on, the file holds that token |
| SessionKey.ReadsAfterTheWriteAgree | backend/app/core/config.py:290-294 | and every later read in the run ends with that token as the process's key |
| SessionKey.FirstBootKeepsItsKey | backend/app/core/config.py:283-294 | a first boot nobody disturbs ends with its token in the file and in use |
| SessionKey.LaterBootFindsTheKey | backend/app/core/config.py:286-294 | a boot that finds the key file takes its key and writes nothing |
| SessionKey.BootDiesInTheWindow | backend/app/core/config.py:286-304 | a first boot that dies between creating and writing, and the own key the next one ends with |
| SessionKey.ShippedKeysAreRefused | backend/app/core/config.py:252-258 | the three placeholder keys, with blanks around them or not, count as no key |
| SessionKey.ReadersAgree | backend/app/core/config.py:292-294 | all processes that took their key from the file hold the same one |
| SessionKey.OwnKeyOnlyInTheWindow | backend/app/core/config.py:286-304 | a process comes out with a key of its own only by an OSError or by reading a blank file: between creation and write, after a creator that died there, or found blank |
| SessionKey.AlwaysAgreedIffNeverMisses | backend/app/core/config.py:283-304 | over every run from a cold start the processes that have a key all have the file's, at every moment, if and only if no attempt met an OSError and no read a blank file |
| SessionKey.DeadCreatorWedges | backend/app/core/config.py:286-304 | a creator that dies between creating and writing leaves the file empty for good, and no later process shares a key |
| SessionKey.ColdStartKeysAreUnpublished | backend/app/core/config.py:252-304 | without a key file at the start every process signs with a random, unpublished key |
| SessionKey.Settings.ResolveSessionSecret | backend/app/core/config.py:307-318 | a configured key that is no placeholder stays; development keeps the placeholder; everything else takes the persisted key |
| Iban.SubstitutionIsCaught | backend/app/core/sepa_identifiers.py:15-60 | replacing one character of a valid IBAN by another of its class is always rejected |
| Iban.SwapIsCaughtExceptBlindPairs | backend/app/core/sepa_identifiers.py:15-60 | a swap of different neighbours, across the rotation too, is accepted exactly for B1, M2 and X3 in the account part |
| Iban.OneCheckPairValidates | backend/app/core/sepa_identifiers.py:37-60 | for every country and account exactly one of the pairs 02 to 98 validates, the computed one; 00, 01 and 99 validate as aliases |
| Iban.Mod97OkMeans | backend/app/core/sepa_identifiers.py:37-44 | the check on the expanded integer is the remainder of the spelled number, and equals the one digit at a time loop |
| Iban.StreamedIsRemainder | backend/app/core/sepa_identifiers.py:43-44 | carrying the remainder one digit at a time gives the remainder of the whole integer |
| Iban.ExpandSpellsNumber | backend/app/core/sepa_identifiers.py:44-44 | the joined base-36 expansion spells the positional number |
| Iban.LettersFollowDigits | backend/app/core/sepa_identifiers.py:44-44 | letters count on from 9, in either case |
| Iban.ValidMeans | backend/app/core/sepa_identifiers.py:47-60 | valid means the structure and the remainder, nothing more |
| Iban.RefuseMeans | backend/app/core/sepa_identifiers.py:78-102 | what the field validator answers for every value: accepted, wrong check digits, not an IBAN, and None accepted |
| Iban.StructuredMeans | backend/app/core/sepa_identifiers.py:15-15 | two capitals, two digits, four to thirty of either |
| Iban.CrashesOnTrailingNewline | backend/app/core/sepa_identifiers.py:15-44 | the pattern's `$` lets a trailing newline through, and exactly then the arithmetic raises ValueError |
| Iban.NormalizedNeverCrashes | backend/app/core/sepa_identifiers.py:24-44 | after normalisation the validator never raises that error |
| Iban.GroupingIsPresentation | backend/app/core/sepa_identifiers.py:24-34 | white space anywhere makes no difference to the normalised value |
| Iban.NormalizeMeans | backend/app/core/sepa_identifiers.py:32-33 | a small letter is stored as its capital, white space goes, everything else stays, in order |
| LikeSearch.MatchWordsMeans | backend/app/core/search.py:11-28 | the filter is true exactly when every word occurs literally, ignoring case, in some column |
| LikeSearch.PatternFindsWord | backend/app/core/search.py:25-25 | `%` + escaped word + `%` matches a text exactly when the word is a substring of it, whatever characters the word has |
| LikeSearch.FoundIgnoresCase | backend/app/core/search.py:12-13 | a word is found in a column exactly where it is spelled there in any case |
| LikeSearch.EscapeIsPerCharacter | backend/app/core/search.py:7-8 | the three replacements in a row equal escaping each character on its own |
| LikeSearch.EscapedIsWellFormed | backend/app/core/search.py:7-8 | an escaped word never ends in a lone escape character |
| LikeSearch.SplitHoldsWords | backend/app/core/search.py:20-20 | what split returns are non-empty runs without white space |
| LikeSearch.SplitMissesNone | backend/app/core/search.py:20-20 | and every maximal such run is among them |
| GrossBase.Receipts.Upgrade | backend/alembic/versions/b8c9d0e1f2a3_store_gross_receipt_base.py:30-41 | one simultaneous UPDATE, refused as a whole by a division by zero |
| GrossBase.Receipts.UpgradeThenDowngrade | backend/alembic/versions/b8c9d0e1f2a3_store_gross_receipt_base.py:27-60 | up and down restores every row it promises to |
| GrossBase.GrossIsConserved | backend/alembic/versions/b8c9d0e1f2a3_store_gross_receipt_base.py:33-58 | both directions keep the gross |
| GrossBase.UpgradeRowMeans | backend/alembic/versions/b8c9d0e1f2a3_store_gross_receipt_base.py:33-39 | row by row up: only positive discounts are touched, a fixed one keeps its amount, a percentage one becomes its rounded share of the new base |
| GrossBase.DowngradeRowMeans | backend/alembic/versions/b8c9d0e1f2a3_store_gross_receipt_base.py:47-58 | row by row down: the base gives up the discount, a percentage as its rounded share |
| GrossBase.UpgradeThresholdIsExact | backend/alembic/versions/b8c9d0e1f2a3_store_gross_receipt_base.py:33-58 | every percentage discount on a gross survives up and down if and only if that gross is between 0.01 and 100.00 |
| GrossBase.DowngradeThresholdIsExact | backend/alembic/versions/b8c9d0e1f2a3_store_gross_receipt_base.py:33-58 | every percentage survives down and up if and only if the gross is 100.00 or more |
| GrossBase.UpgradeIsUndone | backend/alembic/versions/b8c9d0e1f2a3_store_gross_receipt_base.py:27-60 | rows up to the threshold, and all fixed discounts, come back exactly |
| GrossBase.DowngradeIsUndone | backend/alembic/versions/b8c9d0e1f2a3_store_gross_receipt_base.py:27-60 | rows from the threshold on, and all fixed discounts, come back exactly |
| GrossBase.MoneyMovesLittle | backend/alembic/versions/b8c9d0e1f2a3_store_gross_receipt_base.py:33-58 | beyond it the discount moves by at most gross/20000 and half a cent |
| GrossBase.NegativeGrossNeverSurvives | backend/alembic/versions/b8c9d0e1f2a3_store_gross_receipt_base.py:33-58 | a gross of zero divides by zero and a negative one is not restored |
| GrossBase.RoundIsNearest | backend/app/core/money.py:25-31 | a quotient of either sign rounds to the nearest integer, and to the one further from zero at an exact half |
| Repoint.Database.Upgrade | backend/alembic/versions/e9b7d4c15f28_repoint_the_money_and_participation_edges.py:65-97 | all four tables are on the new key with their indexes, or nothing has changed; it goes through if and only if every new party number is a member number too, the key to members being still in force at the UPDATE, and no two memberships of one party hold the same live key |
| Repoint.Database.Downgrade | backend/alembic/versions/e9b7d4c15f28_repoint_the_money_and_participation_edges.py:107-158 | refused with a count when a row's party has no membership; otherwise it goes through, every index included, if and only if every picked member number is a party number too, the key to party being still in force at the UPDATE |
| Repoint.OperatorStopsTheUpgrade | backend/alembic/versions/e9b7d4c15f28_repoint_the_money_and_participation_edges.py:72-82 | one member whose party number is no member number: the UPDATE breaks the old key |
| Repoint.HigherMemberNumberStopsTheDowngrade | backend/alembic/versions/e9b7d4c15f28_repoint_the_money_and_participation_edges.py:126-139 | one picked member whose number is no party number: the UPDATE breaks the party key |
| Repoint.DowngradeThenUpgrade | backend/alembic/versions/e9b7d4c15f28_repoint_the_money_and_participation_edges.py:65-158 | after a downgrade that went through, the upgrade does if and only if every owning party has a member's number, and then every table is as it was |
| Repoint.UpgradeUndoesDowngrade | backend/alembic/versions/e9b7d4c15f28_repoint_the_money_and_participation_edges.py:72-136 | upgrade after a downgrade that is not refused is the identity on all rows |
| Repoint.DowngradeUndoesUpgradeIff | backend/alembic/versions/e9b7d4c15f28_repoint_the_money_and_participation_edges.py:72-136 | downgrade after upgrade restores a row if and only if its member is the picked one: active first, then newest |
| Repoint.PickedMeans | backend/alembic/versions/e9b7d4c15f28_repoint_the_money_and_participation_edges.py:127-134 | the picked member is an active one if there is any, and the newest of those |
| Repoint.KeyedTables | backend/alembic/versions/e9b7d4c15f28_repoint_the_money_and_participation_edges.py:56-62 | which three tables have a partial unique on the column |
| Repoint.UniqueByPartyIff | backend/alembic/versions/e9b7d4c15f28_repoint_the_money_and_participation_edges.py:86-97 | the party index can be built if and only if no party's memberships clash |
| Repoint.DowngradeKeepsUnique | backend/alembic/versions/e9b7d4c15f28_repoint_the_money_and_participation_edges.py:126-158 | mapping back keeps every partial unique |
| Repoint.IndexWouldClashMidway | backend/alembic/versions/e9b7d4c15f28_repoint_the_money_and_participation_edges.py:56-70 | why the old index is dropped before the remap |
| Deduplicate.OneSurvivorPerKey | backend/alembic/versions/29a3872dad10_repoint_identity_to_party.py:68-79 | in every partition exactly one row survives, the first of the stated order with its nulls where each column puts them |
| Deduplicate.ResolutionIsRight | backend/alembic/versions/29a3872dad10_repoint_identity_to_party.py:66-107 | at most one active row per key is left, one wherever there was one, the first in the order; a second run has no losers |
| Deduplicate.LoginsResolve | backend/alembic/versions/29a3872dad10_repoint_identity_to_party.py:66-81 | the login update resolves the duplicates, deletes nothing, leaves inactive rows alone and is idempotent |
| Deduplicate.MembersResolve | backend/alembic/versions/29a3872dad10_repoint_identity_to_party.py:95-107 | the same for members |
| Deduplicate.MandatesResolve | backend/alembic/versions/60c569f93452_one_active_mandate_per_member.py:34-57 | the same for mandates, whatever the time of the second run |
| Deduplicate.LoginThatStays | backend/alembic/versions/29a3872dad10_repoint_identity_to_party.py:68-79 | the login that stays was used last, of equals created last, of equals it is the newest; a missing time of use counts as earliest, a missing creation as latest |
| Deduplicate.LoginsKeepOne | backend/alembic/versions/29a3872dad10_repoint_identity_to_party.py:66-81 | every person with an active login keeps one, and nothing but the active flag changes |
| Deduplicate.MemberThatStays | backend/alembic/versions/29a3872dad10_repoint_identity_to_party.py:95-107 | the newest membership stays |
| Deduplicate.MembersKeepOne | backend/alembic/versions/29a3872dad10_repoint_identity_to_party.py:95-107 | every person with an active membership keeps one, and nothing but the active flag changes |
| Deduplicate.MandateThatStays | backend/alembic/versions/60c569f93452_one_active_mandate_per_member.py:34-57 | the mandate created last stays; the others are cancelled with a note behind their own |
| Deduplicate.MandatesKeepOne | backend/alembic/versions/60c569f93452_one_active_mandate_per_member.py:34-57 | every member with an active mandate keeps one, untouched |
| Deduplicate.Identity.UpgradeUsers | backend/alembic/versions/29a3872dad10_repoint_identity_to_party.py:140-160 | deactivate, remap and index, or nothing; with one person to a party it goes through if and only if every login's party number is a person's number, the key to persons being still in force at the remap |
| Deduplicate.Identity.UpgradeMembers | backend/alembic/versions/29a3872dad10_repoint_identity_to_party.py:162-193 | the same for members and their guardians, under both keys to persons |
| Deduplicate.Identity.Upgrade | backend/alembic/versions/29a3872dad10_repoint_identity_to_party.py:137-196 | both blocks in one transaction |
| Deduplicate.EqualNumbersPass | backend/alembic/versions/29a3872dad10_repoint_identity_to_party.py:13-17 | where person and party numbers are equal the remaps change nothing and no key fails |
| Deduplicate.DriftedNumbersFail | backend/alembic/versions/29a3872dad10_repoint_identity_to_party.py:127-134 | a person whose party number is nobody's person number stops the remap of logins, members and field values |
| Deduplicate.Identity.CancelDuplicateMandates | backend/alembic/versions/60c569f93452_one_active_mandate_per_member.py:33-66 | after the update the unique index can be built |
| Deduplicate.RemapKeepsKeysApart | backend/alembic/versions/29a3872dad10_repoint_identity_to_party.py:127-134 | the remap joins or separates keys only as parties do |
| Deduplicate.RemapIsUndone | backend/alembic/versions/29a3872dad10_repoint_identity_to_party.py:243-292 | the downgrade's remap gives every owner back |
| Deduplicate.ValuesRemapSafelyIff | backend/alembic/versions/29a3872dad10_repoint_identity_to_party.py:198-206 | custom_field_values keeps its unique constraint and its key during the remap: it goes through in every visiting order if and only if every new owner is a person's number and none is another row's old owner under the same definition |
| Announcement.Campaign.Attempt | backend/app/tasks/communication_tasks.py:34-102 | one attempt, cut off anywhere; the number it returns is the number of members it newly reached when all it mails have rows |
| Announcement.Campaign.Retry | backend/app/tasks/communication_tasks.py:67-105 | over any number of attempts a member recorded as reached is never mailed again, a recorded true stands for a delivery, and deliveries exceed one only by the attempts that died between delivery and commit |
| Announcement.AttemptAccounts | backend/app/tasks/communication_tasks.py:81-96 | one attempt mails a member at most once, keeps the account of deliveries, and if it completes leaves every member with a row a recorded outcome and a failed one a second chance |
| Announcement.RestLosesAtMostOne | backend/app/tasks/communication_tasks.py:84-96 | only an attempt that dies loses an outcome, and one member's only |
| Announcement.RestCounts | backend/app/tasks/communication_tasks.py:80-100 | the returned count |
| Announcement.RestReturns | backend/app/tasks/communication_tasks.py:80-100 | with or without rows the number returned is that of accepted mails, and only an attempt completed throughout returns one |
| Announcement.VisitLeaves | backend/app/tasks/communication_tasks.py:81-96 | what an attempt leaves of each member it visits, for every point of death: unsent, sent and not recorded, or recorded as the transport answered |
| Announcement.LatecomersAreMailedEveryTime | backend/app/tasks/communication_tasks.py:79-96 | a member who joined the audience after the send has no row, and is mailed by every attempt |
| SeedRegistrations.Seed.SeedRegistrations | backend/app/cli/seed.py:958-1072 | the nested loops insert what Rounds says, or nothing when there are registrations already or too little to seed |
| SeedRegistrations.Seed.RegisterOne | backend/app/cli/seed.py:1010-1069 | the body of the inner loop |
| SeedRegistrations.SeedLeaves | backend/app/cli/seed.py:991-1069 | for every activity: participants, waitlist and default price rise by its confirmed and waitlisted rows, modality rows add up to its confirmed ones, capacity holds, nobody twice, one cancelled row at most, three live rows of the test member at most |
| SeedRegistrations.EverybodyWithinIsRegistered | backend/app/cli/seed.py:991-1052 | in each priced activity every member among the first of the members, of the places and of ten has a row, the test member excepted only in the two activities kept free or with three live rows already |
| SeedRegistrations.NobodyElseIsRegistered | backend/app/cli/seed.py:991-1052 | and nobody else has, the test member in the two activities kept free included |
| SeedRegistrations.RowsAreAsDue | backend/app/cli/seed.py:1025-1044 | each of these rows to the last column: modality in turn by position, default price, and which position waits, which is cancelled, the rest confirmed |
| SeedRegistrations.FullRound | backend/app/cli/seed.py:1010-1069 | a round in which nobody is passed over: the last member waits if there is a waiting list, the second last of three or more is cancelled if nobody was before, everybody else is confirmed |
| SeedRegistrations.TurnsBalance | backend/app/cli/seed.py:1054-1063 | through any part of a round no counter gains or loses against the rows it counts |
| SeedRegistrations.ModalityCountersRose | backend/app/cli/seed.py:1057-1060 | what the modality counters rose by is the rows counted above |
| SeedRegistrations.RoundsKeep | backend/app/cli/seed.py:991-1069 | the invariants every turn keeps |
| SeedRegistrations.RoundsFill | backend/app/cli/seed.py:1007-1008 | confirmed rows never exceed the capacity, and every row has its activity's price and one of its modalities |
| SeedRegistrations.ShareCounts | backend/app/cli/seed.py:999-1061 | an activity's confirmed rows are those of its modalities and those at its default price |
| SeedRegistrations.DefaultPrice | backend/app/cli/seed.py:999-999 | the first price marked default, and the first of all when none is |
| InvoiceNumbers.Books.Sync | backend/app/cli/seed.py:1707-1762 | the counters after a sync, per year and for the club |
| InvoiceNumbers.SyncMovesPast | backend/app/cli/seed.py:1746-1754 | every year's next number becomes the larger of what it was and one past the highest read; none moves back |
| InvoiceNumbers.SecondSyncChangesNothing | backend/app/cli/seed.py:1746-1754 | a second sync changes nothing |
| InvoiceNumbers.UnsetStandsAtOne | backend/app/cli/seed.py:1750-1760 | a counter never set, or set to nothing, stands at 1 |
| InvoiceNumbers.PrefixMeans | backend/app/cli/seed.py:1728-1728 | without a prefix the series is FAC |
| InvoiceNumbers.PythonIntTakesUnderscore | backend/app/cli/seed.py:1736-1739 | an underscore between digits is read over |
| InvoiceNumbers.PythonIntTakesPlus | backend/app/cli/seed.py:1736-1739 | so is a plus sign |
| InvoiceNumbers.PythonIntStrips | backend/app/cli/seed.py:1736-1739 | and white space in front |
| InvoiceNumbers.ClubCounterMovesPast | backend/app/cli/seed.py:1758-1760 | the club-wide counter ends past every number read, does not move back and stays on a second sync |
| InvoiceNumbers.RedrawnIffUnselected | backend/app/cli/seed.py:1730-1754 | for every prefix: a number that is on a receipt already can be drawn if and only if the unescaped LIKE does not select it |
| InvoiceNumbers.AcceptedPrefixDrawsNewNumbers | backend/app/cli/seed.py:1728-1760 | with every prefix the settings API accepts no number drawn after a sync is on a receipt, from a year's counter or the club's |
| InvoiceNumbers.ClubDrawnNumberIsNew | backend/app/cli/seed.py:1756-1760 | a number at or past the club's counter is on no receipt, whichever year it is drawn in |
| InvoiceNumbers.DrawnNumberIsNew | backend/app/cli/seed.py:1728-1754 | with a prefix without backslash no number drawn after a sync is on a receipt, wildcards in the prefix or not |
| InvoiceNumbers.DrawnNumbersAreNewIff | backend/app/cli/seed.py:1730-1732 | for a prefix without `%` that holds if and only if it has no backslash: the LIKE is unescaped |
| InvoiceNumbers.SeedAndMigrationAgree | backend/alembic/versions/f4c0f3226f34_add_invoice_sequences.py:63-74 | on numbers of the form prefix, four-digit year, sequence the migration's backfill and a sync of an empty table give the same counters, however many dashes the prefix has |
| InvoiceNumbers.Books.Backfill | backend/alembic/versions/f4c0f3226f34_add_invoice_sequences.py:63-74 | one counter per year, one past the highest |
| InvoiceNumbers.MigrationReadingMeans | backend/alembic/versions/f4c0f3226f34_add_invoice_sequences.py:66-72 | the migration reads exactly the numbers that end in four digits, a dash and digits |
| InvoiceNumbers.HighestMeans | backend/app/cli/seed.py:1729-1740 | the dictionary holds the highest sequence read in each year |
| InvoiceNumbers.NextMemberNumber | backend/app/cli/seed.py:444-459 | one past the highest `M-` number, and never one already held |
| InvoiceNumbers.MemberReadingMeans | backend/app/cli/seed.py:452-458 | exactly `M-` and digits of any length are read |
| InvoiceNumbers.PaddedWidth | backend/app/cli/seed.py:459-459 | numbers are written with four digits, and more only where needed |
| FormUrlEncoded.ListRoundTrip | frontend/lib/return-to.ts:52-59 | any list of parameters, whatever characters it holds, survives the query string |
| FormUrlEncoded.Utf8RoundTrip | frontend/lib/return-to.ts:58-58 | decoding the UTF-8 of a text gives it back |
| FormUrlEncoded.EncodeMeans | frontend/lib/return-to.ts:58-58 | what each ASCII character is on the wire: itself, a plus sign, or a percent sign and its number |
| FormUrlEncoded.StrayByte | frontend/lib/return-to.ts:96-96 | a byte that is no part of UTF-8 is read as a replacement character |
| FormUrlEncoded.WithMeans | frontend/lib/return-to.ts:56-57 | a parameter set stands once, with that value, the others as they were |
| FormUrlEncoded.ParseJoins | frontend/lib/return-to.ts:62-66 | a query appended with `&` adds its parameters |
| ReturnTo.ReturnToQuery | frontend/lib/return-to.ts:52-59 | the query that records a return, empty when a half is unusable |
| ReturnTo.LocationAsReturnTo | frontend/lib/return-to.ts:92-101 | the page's path and its query without return context |
| ReturnTo.LocationKeepsTheRest | frontend/lib/return-to.ts:92-101 | every parameter of another name stays, in order and with its value: a query without return context comes back whole, one in two parts as its parts do, a pair recording a return not at all |
| ReturnTo.LocationHas | frontend/lib/return-to.ts:92-101 | a location has exactly the page's pairs named neither `from` nor `fromLabel` |
| ReturnTo.InternalMeans | frontend/lib/return-to.ts:33-46 | character by character what an internal path is |
| ReturnTo.ShownStaysOnTheSite | frontend/lib/return-to.ts:74-83 | whatever a link carries, the crumb shown begins with one slash followed by neither slash nor backslash |
| ReturnTo.TrimMeans | frontend/lib/return-to.ts:53-53 | trimming takes blanks off both ends and nothing else |
| ReturnTo.LabelIsShown | frontend/lib/return-to.ts:53-82 | a label within 120 characters is shown as trimmed, a longer one up to there |
| ReturnTo.QueryNeedsBoth | frontend/lib/return-to.ts:52-59 | there is a query exactly when both halves are usable |
| ReturnTo.CrumbNeedsBoth | frontend/lib/return-to.ts:74-83 | there is a crumb exactly when both parameters are there and usable |
| ReturnTo.LinkOpens | frontend/lib/return-to.ts:62-66 | a built link opens the target's page with the two parameters after its own; behind a fragment they are lost |
| ReturnTo.CrumbComesBack | frontend/lib/return-to.ts:52-83 | a link to a bare target shows the path and the trimmed, cut and re-trimmed label |
| ReturnTo.CrumbComesBackIffBare | frontend/lib/return-to.ts:52-83 | that holds for all crumbs if and only if the target has no fragment and no return context of its own |
| ReturnTo.LocationIsInternal | frontend/lib/return-to.ts:33-101 | a location passes isInternalPath if and only if the page's path does |
| ReturnTo.LocationIsClean | frontend/lib/return-to.ts:85-101 | a location holds no return context, is its own location, and is no longer than the page's path and query |
| ReturnTo.ListAndTextAgree | frontend/lib/return-to.ts:92-96 | a parameter list and its text give the same location |
| ReturnTo.HopLeavesNoTrace | frontend/lib/return-to.ts:62-101 | where one came from leaves no trace in the location of the page opened |
| ReturnTo.LinksDoNotGrow | frontend/lib/return-to.ts:85-101 | after any number of hops a link depends on its last two targets only |
| ReturnTo.TheCrumbLeadsBack | frontend/lib/return-to.ts:52-101 | after any hops the crumb leads to the page one came from, and holds no `from` itself |
| DefaultTier.Tiers.Upgrade | backend/alembic/versions/a5b6c7d8e9f0_add_default_membership_type.py:62-104 | ends with exactly one default, a free one: the first free tier, or a new one under a name and slug nobody holds, found within 2n+1 checks |
| DefaultTier.InsertedMeans | backend/alembic/versions/a5b6c7d8e9f0_add_default_membership_type.py:93-104 | the inserted tier is free, active, first in the display order, and named as the attempt says |
| DefaultTier.Tiers.FreshSuffix | backend/alembic/versions/a5b6c7d8e9f0_add_default_membership_type.py:82-91 | the loop ends at the first suffix free by name and by slug |
| DefaultTier.FirstFree | backend/alembic/versions/a5b6c7d8e9f0_add_default_membership_type.py:69-74 | the free tier before all others: active first, then display order, then id, nulls last |
| DefaultTier.PromotedComesFirst | backend/alembic/versions/a5b6c7d8e9f0_add_default_membership_type.py:69-74 | no free tier that is passed over is active when the promoted one is not, or placed before it in the display order, or older with the same place |
| DefaultTier.ReplicasAgree | backend/alembic/versions/a5b6c7d8e9f0_add_default_membership_type.py:63-75 | every order of the same rows promotes the same tier |
| DefaultTier.RunOfTakenIsShort | backend/alembic/versions/a5b6c7d8e9f0_add_default_membership_type.py:84-91 | n tiers cannot take more than 2n suffixes in a row |
| DefaultTier.CrowdTakesTwoEach | backend/alembic/versions/a5b6c7d8e9f0_add_default_membership_type.py:84-91 | and n tiers can take that many |
| Pagination.TotalIsTrue | backend/app/core/pagination.py:36-40 | the total is the number of rows, counted or not |
| Pagination.PageIsWhatWasAskedFor | backend/app/core/pagination.py:22-25 | the page reported is the one asked for from 1 on, its size from 1 to 100, and it holds the rows from there on |
| Pagination.PagesAreTheWholeList | backend/app/core/pagination.py:21-41 | pages 1 to the last, one after another, are the whole list |
| Pagination.OnlyTheLastPageIsShort | backend/app/core/pagination.py:22-41 | every page before the last is full, the last is empty only for an empty list, and past it there is nothing |

## Left out

- Reset.Session.ResetClubData: on a refused DELETE the model keeps the partly cleared, still consistent database; the rollback is the caller's, as `backend/app/cli/reset.py:170-171` says.  `expire_all` and the identity map are not part of this model.
- AfterCommit.Session.Replay: hooks that commit or roll back the session they wait on, which `backend/app/db/after_commit.py:10` forbids, are not modelled; SQLAlchemy's events are taken as one per outer commit and one per rollback.
- FileReplace.Store.ReplaceFile: one writer per stem, since the sweep removes other writers' temporaries; stems without glob metacharacters; `os.replace` is atomic.
- SessionKey.AlwaysAgreedIffNeverMisses: two draws of the same 32 random bytes are excluded by a precondition.
- SessionKey.RunKeeps: the write of the token is one step; a partial write is not modelled, nor is somebody else editing the file.
- Iban.GroupingIsPresentation: characters outside ASCII (other digits and letters, case folding of length) are not modelled; the creditor identifier check is left out as it adds no arithmetic.
- LikeSearch.MatchWordsMeans: case folding is ASCII; a call without columns is not modelled; the planner and collations are not either.
- GrossBase.Receipts.Upgrade: amounts are integer cents and hundredths of a percent; the column's precision and overflow are not modelled.
- Repoint.Database.Upgrade: renames and types of columns are DDL; the keys' ON DELETE actions play no part, nothing being deleted; the four tables are reduced to owner, key and liveness.
- Deduplicate.Identity.Upgrade: the printed report, the display-name trigger and the dropped columns are left out; the downgrade leaves deactivated rows deactivated.  The remap of custom field values, whose outcome depends on the order of visiting, is a lemma of its own.
- Announcement.Campaign.Attempt: rendering, locale and the transport are left out; the transport's answer and the point of death are inputs.  The audience has each member once, since it is a query over members.
- SeedRegistrations.SeedLeaves: the notes and cancellation details of a row are left out, and so is `max_participants` of a modality, which the seed does not read; capacities are not negative, as the API demands.  The inserted rows are a linked list rather than a sequence.
- SeedRegistrations.RowsAreAsDue: stated for members of different parties, as one active membership to a party makes them; of members who share a party only that the party has a row is said (EverybodyWithinIsRegistered).  The row of the test member is not given column by column.
- InvoiceNumbers.Books.Sync: `int()` on digits outside ASCII and the width of INTEGER columns are not modelled; `allocate_receipt_number` is not part of this model, so a drawn number is written as the migration describes it.
- InvoiceNumbers.DrawnNumbersAreNewIff: a prefix with both a `%` and a backslash may or may not select its own numbers, depending on the year too; for those RedrawnIffUnselected decides number by number.
- ReturnTo.CrumbComesBack: characters are Unicode scalar values, so the 120 are characters and not UTF-16 units; the browser's own parsing of a URL is reduced to the split at the first `#` and `?`.
- DefaultTier.Tiers.Upgrade: the other columns of a tier are left out.
- Pagination.TotalIsTrue: totals are exact integers, where the code divides as floating point.
- User interface, translations, email templates, encryption, CSV, session cookies and access rules: no state of their own or easy set facts.
- Schema-only migrations and the preflight command: nothing to transform.
