# Verified model of the license audit, the findings pipeline and the rollback protocol

Seven parts of the repository are modelled here and proved correct with Dafny 4.11:

1. **License-audit reachability and model assembly** (`license_graph`, `reachability`, `importers`, `provenance`, `postures`,
   `audit_cache`, `audit_model`, `audit_build`, `audits`, `audit_policy`). The worklist over (snapshot, posture) finds the least walk to
   every reachable state under `comparePath`, on cyclic graphs too, and fails exactly on a dangling key or on a least
   walk that is too deep. A second worklist gives the importers each snapshot originates from. The audit model succeeds exactly
   when graph and cache meet a stated condition, and its rows then split the reachable snapshots. `postures` states the postures
   by chains of edges alone, `audit_policy` what the rows decide by the policy alone.
2. **Finding post-processing** (`grouping`, `findings`, `coverage`, `deduplication`, `clustering`, `finding_laws`, `pipeline`,
   `low_category`): no path is lost or invented over the four passes, all caps hold at the end, the highest level never changes.
3. **Strict JSON** (`json_grammar` to `strict_json`), its printer (`json_printer`) and numbers in memory (`json_numbers`). The
   parser, a class over a mutable cursor, accepts a text exactly when it is a value of a declaratively stated grammar within
   the limits; printing and parsing are inverse, and values print alike exactly when they are the same with numbers compared
   as doubles.
4. **pnpm lockfile v9** (`lockfile_keys`, `lockfile_adapter`, `lockfile_crosscheck`, `lockfile_places`, `lockfile_v9`): the
   peer-suffix recognizer accepts exactly a declaratively stated language; the adapter succeeds exactly when manifests and
   lockfile importers agree in both directions, and each declaration then becomes one root, link or peer, and nothing else does.
5. **Rollback admission** (`rollback_history`, `rollback_report`, `rollback_admission`, `rollback_verdicts`, `rollback_protocol`,
   `rollback_sessions`): the history scan and what its report says of the files on disk, the gate and what its verdicts tell,
   and a state machine in which any number of processes run and crash.
6. **Response-body budget** (`budget`): every sequence of reservations and settlements balances; retries stay inside a grant.
7. **Sentinel blocks** (`sentinel`, `sentinel_laws`): for every host and content, exactly when inserting, finding and removing
   undo each other.

`text`, `sorting` and `sorted_keys` hold strings as UTF-16 code units, the stable sort and sorted key sets. `spellings` states
names, references and escapes by the characters they are written with.

`dafny verify dfyconfig.toml` checks everything.

## What turned out to be false

- **A low category under-reports.** The per-category pass names its summary `cluster.<category>-tail`, so a category called
  `low` gets the id `cluster.low-tail`, whose level is forced to low. `Findings.SummaryCoversExactly` says exactly when a
  summary carries its members at their level. `Pipeline.LowCategoryUnderReports` gives the failing inputs: of more than 30 high
  findings in that category, each with its own id and path and otherwise alike, every path past the first 29 is reported as low.
  No category that the engine has today is called `low`, and it drops findings of other categories (packages/checks/src/engine.ts:300),
  so such an input reaches `clusterFindings` through a direct call or once a category of that name exists. `Pipeline.NothingUnderReported`
  holds whenever the category `low` is not over its cap or has only low findings past it. For the per-category pass that
  condition is exact (`LowCategory.PerCategoryPassExactly`), and for the whole pipeline it is exact where findings have paths
  of their own and the total cap has nothing to absorb (`LowCategory.UnderReportsExactly`). Elsewhere it is sufficient only:
  another finding may carry the same path at its level, or the total cap may absorb the low summary into a higher one.
- **Stray markers and end lines break the sentinel laws.** The source's comments promise that orphan markers do not get user
  content mangled, and its tests that removing what was inserted restores the text around it. `SentinelLaws.SentinelRoundTrip`
  shows that finding again, inserting twice and removing again each work exactly under one condition. The host has the block
  already, or the new block goes where a line starts and no begin line of that block stands above it; and no line of the
  content is the end line. `SentinelLaws.LawsFail` gives an input for each part: a marker line without a newline, to which the
  anchor `after-marker` glues the begin line; an orphan begin line; an end line in the content. `SentinelLaws.OrphanLosesHost`
  shows the worst of it: below an orphan begin line, inserting and removing deletes all of the user's text.
- **Removing is idempotent for one block only.** Two blocks of one id are removed one at a time. `SentinelLaws.RemoveTwice` has
  the exact condition, `SentinelLaws.TwoBlocksFail` the input.
- **A blocker binds its own session only.** The scan reads one session's history. `RollbackSessions.TwoSessionsRun` gives runs in
  which an apply mutates while another session has a blocker, and `RollbackSessions.BlockerBindsOneSession` shows that any session
  without history can. What holds is stated for each session: the results about `RollbackProtocol`.
- **A full apply that crashes leaves no blocker.** `RollbackSessions.CrashedFullApplyRun` gives runs in which one crashes while it
  overwrites and another apply of its session mutates afterwards. `RollbackSessions.StoppingBlocksExactly` says exactly which
  admitted applies leave a blocker when they stop: those whose own marker stands without a receipt.

## Model

| member | source | states |
|---|---|---|
| LicenseGraph.ComparePathOrder | scripts/license-audit-core.ts:334-341 | the path order is antisymmetric and ties only equal paths |
| LicenseGraph.ComparePathTransitive | scripts/license-audit-core.ts:334-341 | the path order is transitive |
| LicenseGraph.ComparePathExtend | scripts/license-audit-core.ts:321-341 | appending one key to two paths keeps their order, which makes relaxing along an edge sound |
| Reachability.Relax | scripts/license-audit-core.ts:610-617 | one relaxation only improves, changes no other state, and queues the state exactly when the path is its first or earlier than its own |
| Reachability.SeedRoots | scripts/license-audit-core.ts:627-640 | after seeding, exactly the root states are queued, and each holds a root path no later than any root's own |
| Reachability.PopHead | scripts/license-audit-core.ts:642-692 | one pop and the relaxation of its edges keep the invariant: the rest of the level still waits ahead of the next level |
| Reachability.Traverse | scripts/license-audit-core.ts:596-692 | terminates on every graph; success holds exactly the least walks and the exact parents, failure names a state of the graph that proves it |
| Reachability.LevelUp | scripts/license-audit-core.ts:642-692 | when all states up to a level are settled, the paths recorded one level further are final too |
| Importers.OriginatingImporters | scripts/license-audit-core.ts:694-725 | the fixpoint gives each key exactly the importers with a root from which a walk leads to it |
| Provenances.ComputeReachability | scripts/license-audit-core.ts:596-739 | success records, for each reachable snapshot only, its least path in each posture, its postures by rank, parents and importers; failure means a dangling key or a least walk deeper than the limit |
| Provenances.DepthErrorExact | scripts/license-audit-core.ts:656-669 | on a referentially valid graph it fails exactly when the least walk to some state exceeds the depth limit |
| Provenances.CyclesNeverTooDeep | scripts/license-audit-core.ts:586-595 | a limit no smaller than the number of states never fails, cycles or not |
| Provenances.OrderIrrelevant | scripts/license-audit-core.ts:596-739 | graphs with the same roots and edges in any order give the same success and the same records |
| Postures.PosturesExactly | scripts/license-audit-core.ts:43-48 | by root postures and kinds of edges only: development and peer come from their own roots over any chain, production from its roots over required edges, optional production from its own roots over any chain or from production roots over a chain with an optional edge |
| Postures.WalkExactly | scripts/license-audit-core.ts:596-692 | a path is a walk in a posture exactly when edges of some kinds link its keys from a root, and the kinds carry the root's posture there |
| Postures.PrimaryPrecedes | scripts/license-audit-core.ts:27-38 | the postures of a record are listed as production, optional production, peer, development, and the primary one is the first of them |
| Postures.ComparePathExactly | scripts/license-audit-core.ts:334-341 | one path is before another exactly when it is shorter or, at the same length, its importer, its root dependency or its first differing key is less |
| Text.LessExactly | scripts/license-audit-core.ts:334-341 | one string is less than another exactly when it is at the first unit in which they differ, or is a proper prefix |
| Findings.CompareFindingsPreorder | packages/checks/src/severity.ts:142-161 | the comparison of findings is total and transitive |
| FindingLaws.CompareFindingsExactly | packages/checks/src/severity.ts:142-161 | a finding is before another exactly by higher level, then lesser category, id, file and line, a missing file or line counting as empty or zero |
| Findings.UnionPathsMeaning | packages/checks/src/severity.ts:110-116 | the union has exactly the paths of the sets, each once, in order |
| Findings.SummaryCoversExactly | packages/checks/src/severity.ts:239-355 | a summary carries all its members' paths, and at their levels or higher exactly unless it is the low tail of a member above low |
| Deduplication.DedupByIdentity | packages/checks/src/severity.ts:212-230 | the loop computes the deduplication the next rows speak of |
| Deduplication.DedupMeaning | packages/checks/src/severity.ts:212-230 | one finding for each key, at the highest level of its class, with exactly the union of the class's paths |
| Deduplication.KeptIsFirstHighest | packages/checks/src/severity.ts:195-230 | each finding kept is, but for its paths, an input finding: the first of the highest level among those with its key |
| Deduplication.DedupIdempotent | packages/checks/src/severity.ts:212-230 | deduplicating twice is deduplicating once |
| FindingLaws.KeyExactly | packages/checks/src/severity.ts:183-192 | two findings have one key exactly when id, category, and file, line and detail of the first evidence agree, missing ones counting as empty or zero |
| FindingLaws.MergedExactly | packages/checks/src/severity.ts:195-230 | two input findings come out as one exactly when they agree on these five |
| FindingLaws.OneComesOut | packages/checks/src/severity.ts:195-230 | exactly one finding that comes out agrees with an input finding on these five |
| FindingLaws.UnlikeAllStay | packages/checks/src/severity.ts:195-230 | findings that differ pairwise in one of these five all come out, each once, unchanged and in order |
| Clustering.CapGroupSplits | packages/checks/src/severity.ts:365-387 | a category over its cap is split: 29 kept findings and one summary of the others, which compare no earlier than those kept |
| Clustering.LowCapSplits | packages/checks/src/severity.ts:389-419 | over the low cap 19 low findings stay, one summary of the others stands at the first place among them, no absorbed one compares earlier than one kept, and every other finding stays in place |
| Clustering.TotalCapSplits | packages/checks/src/severity.ts:426-432 | over the total cap 89 findings are kept and one summary stands for the others, which compare no earlier |
| Grouping.SortStable | packages/checks/src/severity.ts:163-174 | findings that tie keep their order when sorted, so of tied findings the earlier ones are kept |
| FindingLaws.CapsLeaveAlone | packages/checks/src/severity.ts:357-432 | at most 30 of a category, 20 low and 90 in all are left as they are |
| FindingLaws.CategoryTailStands | packages/checks/src/severity.ts:357-387 | from 31 on, 29 stay and one finding named `cluster.<category>-tail` comes last |
| FindingLaws.TailStands | packages/checks/src/severity.ts:421-432 | from 91 on, 89 stay and one finding named `cluster.tail` comes last |
| FindingLaws.SummaryTells | packages/checks/src/severity.ts:239-355 | the evidence of a summary gives the number of findings and the first eleven, in order, of the files that some first evidence names, or no file when none does |
| Clustering.ApplyPerCategoryCap | packages/checks/src/severity.ts:365-387 | the loops over categories compute the per-category pass |
| Clustering.ApplyLowCap | packages/checks/src/severity.ts:396-419 | the loop with its set of kept objects computes the low pass; findings are told apart by position |
| Clustering.ApplyTotalCap | packages/checks/src/severity.ts:426-432 | the branch and slices compute the total pass |
| Clustering.PerCategoryCapCount | packages/checks/src/severity.ts:365-387 | after the pass no category but `summary` has more than thirty findings |
| Clustering.LowCapCounts | packages/checks/src/severity.ts:396-419 | after the pass at most twenty findings are low and no other category grew |
| Clustering.TotalCapCounts | packages/checks/src/severity.ts:426-432 | after the pass there are at most ninety findings, and the low ones stay within twenty though a summary was added |
| Clustering.BuildClusterSummary | packages/checks/src/severity.ts:239-355 | the loops compute the summary: its level, its uncapped union of paths, its evidence |
| Pipeline.ClusterFindings | packages/checks/src/severity.ts:460-466 | the passes in their order compute the pipeline of the next rows |
| Pipeline.PathsConserved | packages/checks/src/severity.ts:434-466 | a path is carried by some finding afterwards exactly when one carried it before |
| Pipeline.NothingUnderReported | packages/checks/src/severity.ts:434-466 | unless a category named low overflows with higher findings, each finding's paths are carried at its level or higher |
| Pipeline.AllCapsHold | packages/checks/src/severity.ts:365-466 | ninety in all, twenty low, thirty in every category but `summary`, all at once |
| Pipeline.HighestLevelConserved | packages/checks/src/severity.ts:460-466 | the highest level is the same before and after |
| Pipeline.LowCategoryUnderReports | packages/checks/src/severity.ts:248-258 | of more than thirty high findings in a category named low, each with its own id and path and otherwise like any finding, every path past the first 29 is reported as low |
| Pipeline.OverflowIsHarmful | packages/checks/src/severity.ts:248-258 | those inputs are ones the condition of the positive result shuts out |
| LowCategory.PerCategoryPassExactly | packages/checks/src/severity.ts:365-387 | every summary of the per-category pass stands for its members at their levels exactly when the category low is not over its cap or has only low findings past it |
| LowCategory.UnderReportsExactly | packages/checks/src/severity.ts:434-466 | where findings have paths of their own and the total cap has nothing to absorb, nothing is under-reported exactly under that condition |
| StrictJson.ParseStrictJson | scripts/strict-json.ts:96-422 | returns a value exactly when the text is that value within valid limits; invalid limits are refused; positions stay inside the text |
| StrictJson.LimitsUsed | scripts/strict-json.ts:33-40 | valid limits are used as given, and where none is given depth 128, five million nodes and four million units |
| Spellings.SimpleEscapesExactly | scripts/strict-json.ts:206-236 | the two-character escapes are the eight of RFC 8259 and stand for its units |
| Spellings.JsonUnitsExactly | scripts/strict-json.ts:92-156 | white space, plain characters, digits and exponent marks are those of RFC 8259 |
| StrictJson.Parser.ParseString | scripts/strict-json.ts:158-249 | the string loop reads what the string scanner of the next rows reads, and leaves the cursor there |
| StrictJson.Parser.CheckSurrogates | scripts/strict-json.ts:182-196 | accepts exactly the strings in which every surrogate is half of a pair |
| StrictJson.Parser.ParseNumber | scripts/strict-json.ts:260-299 | the number reader reads what the number scanner reads, within the length limit |
| StrictJson.Parser.ParseValue | scripts/strict-json.ts:369-408 | success reads the only acceptable value there and counts its nodes; failure means no acceptable value stands there |
| StrictJson.Parser.ParseArray | scripts/strict-json.ts:301-324 | the same for an array, over its loop and the recursion |
| StrictJson.Parser.ParseObject | scripts/strict-json.ts:326-367 | the same for an object: keys distinct, each key a node |
| StrictJson.Parser.ParseItem | scripts/strict-json.ts:310-323 | one turn of the array loop keeps that the items read so far are the only acceptable beginning |
| StrictJson.Parser.ParseMember | scripts/strict-json.ts:338-366 | one turn of the object loop keeps the same for members |
| StrictJson.Parser.ParseKeyText | scripts/strict-json.ts:344-353 | a key is read only when it is new, and otherwise no member can start there |
| StrictJson.ValidateLimit | scripts/strict-json.ts:65-84 | a limit is refused exactly when it is not a positive safe integer within the hard maximum |
| JsonTokens.StringScanSound | scripts/strict-json.ts:158-249 | a scanned string is spelled by the text between its quotes, is well formed and within the limit |
| JsonTokens.StringScanComplete | scripts/strict-json.ts:158-249 | every fitting string of the grammar is scanned, to its own end |
| JsonTokens.NumberScanSound | scripts/strict-json.ts:260-299 | a scanned number is a number of section 6 of RFC 8259, finite and within the limit |
| JsonTokens.NumberScanComplete | scripts/strict-json.ts:260-299 | every fitting number that is followed properly is scanned, to its own end |
| JsonValues.DocumentUnique | scripts/strict-json.ts:96-422 | a text spells at most one value |
| JsonPrinter.CanonicalSpells | scripts/license-audit-core.ts:357-376 | what is printed is a JSON text of the value |
| JsonPrinter.ParseInvertsPrint | scripts/license-audit-core.ts:357-376 | what was printed of a value in memory parses to that value and no other, exactly when it is within the limits |
| JsonPrinter.CanonicalInjective | scripts/license-audit-core.ts:357-376 | two values in memory, whose numbers are the texts printed for their doubles, print alike exactly when they are equal |
| JsonNumbers.ReadingInvertsPrinting | scripts/strict-json.ts:260-299 | what is printed of a value in memory reads back as that value and no other, exactly when it is within the limits, whatever the number tokens it came from |
| JsonNumbers.PrintsAlikeExactly | scripts/license-audit-core.ts:357-376 | values read from two texts print alike exactly when they are the same with numbers compared as doubles and objects as maps |
| LockfileKeys.IsValidPeerSuffix | scripts/license-lockfile-v9.ts:225-256 | accepts exactly zero or more groups of a parenthesized base and suffix, and terminates |
| LockfileKeys.IsValidPeerContext | scripts/license-lockfile-v9.ts:212-222 | accepts exactly a base followed by a suffix |
| LockfileKeys.MatchingParenthesis | scripts/license-lockfile-v9.ts:234-249 | the inner scan stops where the depth first returns to zero |
| LockfileKeys.NameVersionExactly | scripts/license-lockfile-v9.ts:192-208 | a base parses to a name and version exactly when it is the one, an at sign and the other |
| LockfileKeys.ParseLockfileKey | scripts/license-lockfile-v9.ts:261-275 | a key is supported exactly when it is a base and a suffix, and its parts put together are the key |
| LockfileKeys.KeyUnambiguous | scripts/license-lockfile-v9.ts:258-275 | there is one way to take a key apart |
| LockfileAdapter.ResolveReference | scripts/license-lockfile-v9.ts:317-337 | links first, then exactly the bare or suffixed versions, else an error |
| Spellings.LinkExactly | scripts/license-lockfile-v9.ts:317-320 | a reference is first-party exactly when it is `link:` and then its target |
| Spellings.ProtocolExactly | scripts/license-lockfile-v9.ts:157 | a text has a protocol exactly when a lower-case scheme and a colon begin it |
| Spellings.ImporterPathExactly | scripts/license-lockfile-v9.ts:112-136 | a path is an importer path exactly when it is `.`, or has no drive, white space, backslash or control character and no part between slashes is empty, `.` or `..` |
| LockfileAdapter.ValidateManifests | scripts/license-lockfile-v9.ts:362-444 | no error exactly when paths, names and declarations are valid and nothing is declared twice |
| LockfileCrosscheck.IndexImporter | scripts/license-lockfile-v9.ts:880-910 | indexes exactly the names listed in one section, and reports the others as conflicts |
| LockfileCrosscheck.ClassifyExactly | scripts/license-lockfile-v9.ts:922-1021 | the branches end without error exactly when the declaration is accounted for by the lockfile sections |
| LockfileCrosscheck.AllClassified | scripts/license-lockfile-v9.ts:912-1023 | every declaration has one outcome, and none is an error exactly when all are accounted for |
| LockfileCrosscheck.TallyKeepsAll | scripts/license-lockfile-v9.ts:912-1023 | roots, peers, links and errors together are the outcomes, none lost and none added |
| LockfilePlaces.OutcomesAreRecords | scripts/license-lockfile-v9.ts:912-1023 | with everything accounted for, the outcomes are what the declarations are recorded as, one each, in order |
| LockfilePlaces.PlacesOnce | scripts/license-lockfile-v9.ts:362-444 | for valid manifests the places list every declaration once and nothing else |
| LockfileV9.CrossValidate | scripts/license-lockfile-v9.ts:853-1061 | no error exactly when both sides have the same importers, no name is in two sections, and each side accounts for the other |
| LockfileV9.ParsePnpmLockfileV9 | scripts/license-lockfile-v9.ts:771-1073 | succeeds exactly on valid, agreeing inputs; the declarations, each listed once, then are one root, one link or one unresolved peer each, and every root, link and peer is the record of a declaration |
| LockfileV9.DeclarationsAreListed | scripts/license-lockfile-v9.ts:912-1023 | a declaration is listed in its own section only, with its own specifier; a peer nowhere |
| LockfileV9.EntriesAreDeclared | scripts/license-lockfile-v9.ts:1025-1057 | a lockfile entry is declared in the same section with the same specifier |
| RollbackHistory.SelectionsEqual | packages/cli-commands/src/rollback-history.ts:133-145 | equal exactly when selectors and groups are |
| RollbackHistory.ScanFailsClosed | packages/cli-commands/src/rollback-history.ts:162-276 | absence needs both artifacts absent, finalization needs both to bind; a receipt of another invocation never finalizes this one |
| RollbackReport.SoundExactly | packages/cli-commands/src/rollback-history.ts:162-276 | a directory is sound exactly when it is well named and holds nothing, its own marker, or its own marker and a receipt that agrees with it in every shared field |
| RollbackReport.BlocksExactly | packages/cli-commands/src/rollback-history.ts:162-276 | it blocks exactly when its own marker stands without a receipt or with an agreeing one that does not say success |
| RollbackReport.FaultKindExactly | packages/cli-commands/src/rollback-history.ts:162-276 | a fault is `unreadable` exactly when an artifact cannot be read or parsed and no contradiction was met before it |
| Spellings.RollbackIdExactly | packages/cli-commands/src/rollback-history.ts:45-46 | a name is `rb_` and 26 digits or capitals other than I, L, O and U |
| RollbackHistory.ScanSelectiveRollbackHistory | packages/cli-commands/src/rollback-history.ts:284-343 | the loops and the sort compute one scan, whatever the order of the listing |
| RollbackHistory.ScanReadable | packages/cli-commands/src/rollback-history.ts:284-343 | readable exactly when every directory is well named and sound; the report then has each, in id order |
| RollbackHistory.BlockingExactly | packages/cli-commands/src/rollback-history.ts:324-342 | the blocking list names exactly the unfinalized and the failed |
| RollbackHistory.PrimaryIsEarliest | packages/cli-commands/src/rollback-history.ts:106-115 | no blocker was written before the primary one |
| RollbackReport.InvocationsOnDisk | packages/cli-commands/src/rollback-history.ts:284-343 | each reported invocation has the timestamp and checkpoint of its marker on disk and the status of its receipt; every directory is reported once, in id order |
| RollbackReport.BlockersOnDisk | packages/cli-commands/src/rollback-history.ts:240-276 | the blockers are exactly the markers on disk without a receipt of success, each with its marker's timestamp and checkpoint, and unfinalized exactly when it has no receipt |
| RollbackReport.BlockersInOrder | packages/cli-commands/src/rollback-history.ts:324-342 | the blockers are listed by timestamp and then id, strictly |
| RollbackReport.PrimaryOnDisk | packages/cli-commands/src/rollback-history.ts:106-115 | no marker on disk without a receipt of success was written before that of the primary blocker, and of those written with it none has a lesser id |
| RollbackReport.FaultIsFirst | packages/cli-commands/src/rollback-history.ts:284-343 | a faulty scan names the first directory in id order that is not sound, and its kind |
| RollbackHistory.InspectionAgreesWithScan | packages/cli-commands/src/rollback-history.ts:394-455 | published exactly when the scan calls it unfinalized and it describes this attempt; not published exactly when the scan calls it never authorized |
| RollbackReport.PublishedExactly | packages/cli-commands/src/rollback-history.ts:394-455 | published exactly when the marker on disk is that of this attempt in every field and no receipt is there; not published exactly when neither is there |
| RollbackAdmission.CollectRollbackRefusals | packages/cli-commands/src/rollback-orchestration.ts:502-574 | throws exactly on inconsistent artifacts, and otherwise lists the rules that hold |
| RollbackAdmission.EvaluateRollbackRefusals | packages/cli-commands/src/rollback-orchestration.ts:663-681 | the loop computes the force policy of the next rows |
| RollbackAdmission.ListedExactly | packages/cli-commands/src/rollback-orchestration.ts:541-564 | a refusal is listed exactly when its rule holds |
| RollbackAdmission.DryRunAlwaysAdmitted | packages/cli-commands/src/rollback-admission.ts:130-152 | a dry run is admitted whatever is broken |
| RollbackAdmission.HistoryRefusesAbsolutely | packages/cli-commands/src/rollback-admission.ts:307-346 | a history refusal comes exactly when the history does not allow the apply, and neither force nor the legacy layer changes it |
| RollbackAdmission.HistoryRefusalOrder | packages/cli-commands/src/rollback-admission.ts:312-346 | a fault first, then the earliest blocker, then, for a full apply, the selective successes |
| RollbackAdmission.AdmittedExactly | packages/cli-commands/src/rollback-admission.ts:303-387 | an apply is admitted exactly when the history allows it, the legacy artifacts are usable, and each D76 rule is met or bypassed |
| RollbackAdmission.ForceOnlyAdmits | packages/cli-commands/src/rollback-orchestration.ts:663-681 | force only enlarges what is admitted |
| RollbackAdmission.LegacyNamesFirst | packages/cli-commands/src/rollback-admission.ts:367-381 | a legacy refusal names the first rule in D76 order that holds and is not bypassed |
| RollbackAdmission.FailedExactly | packages/cli-commands/src/rollback-admission.ts:348-366 | an apply fails without verdict exactly on unusable legacy artifacts that no history refusal preempts |
| RollbackVerdicts.AdmittedTells | packages/cli-commands/src/rollback-orchestration.ts:576-681 | an admitted operation is told the scan, every refusal that is due, and the active, unended, dirty and unrelated facts themselves |
| RollbackVerdicts.HeadMismatchAllowed | packages/cli-commands/src/rollback-orchestration.ts:663-681 | an admitted apply may go over a head mismatch exactly when there is one and force was given; a dry run never may |
| RollbackVerdicts.CollectedExactly | packages/cli-commands/src/rollback-orchestration.ts:502-574 | a refusal is collected exactly when it is due, with its own fields |
| RollbackVerdicts.RefusalTells | packages/cli-commands/src/rollback-admission.ts:367-381 | a legacy refusal is the first one due in D76 order, under force a hard one, and comes with exactly those due, in order |
| RollbackVerdicts.StrayInOrder | packages/cli-commands/src/rollback-orchestration.ts:514-539 | the unrelated paths are the dirty ones that nothing accounts for, in the order they came |
| RollbackVerdicts.SuccessesTold | packages/cli-commands/src/rollback-admission.ts:336-344 | a full apply is refused with exactly the selective applies that succeeded on disk |
| RollbackVerdicts.FailsExactly | packages/cli-commands/src/rollback-admission.ts:348-366 | an apply whose history lets it pass fails exactly when an artifact is unusable or names another session |
| RollbackAdmission.AdmittedOverHistory | packages/cli-commands/src/rollback-admission.ts:303-346 | an admitted apply has a history in which every directory is sound and none blocks |
| RollbackProtocol.StepsKeepInv | packages/cli-commands/src/rollback-locked-phase.ts:799-949 | every step, write failure, throw and crash keeps the invariant: one process in the lock, at most one blocker a session |
| RollbackProtocol.NeverTwoBlockers | packages/cli-commands/src/rollback-history.ts:284-343 | in every state of every run a session has at most one blocking invocation |
| RollbackProtocol.OneMutator | packages/cli-commands/src/locks.ts:219-264 | in every state of every run at most one process mutates, and the lock is held |
| RollbackProtocol.MutationBeginsClear | packages/cli-commands/src/rollback-history.ts:284-343 | when an apply begins to mutate nothing blocks its session but its own marker, already published; a full apply finds no selective success |
| RollbackProtocol.BlockedForever | packages/cli-commands/src/rollback-admission.ts:327-334 | a blocker nobody works on stays, and no apply of its session mutates again in any continuation |
| RollbackProtocol.StoppingLeavesItBlocked | packages/core/src/rollback-attempt.ts:100-120 | an apply that stops between its marker and its receipt leaves such a blocker |
| RollbackProtocol.SuccessBarsFullApply | packages/cli-commands/src/rollback-admission.ts:336-344 | once a selective apply has succeeded no full apply of the session mutates |
| RollbackProtocol.FullApplyIsFinal | packages/cli-commands/src/rollback-orchestration.ts:545-551 | once a full apply is on record no apply of the session mutates |
| RollbackProtocol.InspectionDecides | packages/cli-commands/src/rollback-history.ts:394-455 | after a publication that threw, inspecting the one directory tells exactly whether anything blocks |
| RollbackSessions.CrashWhileMutating | packages/core/src/rollback-attempt.ts:100-120 | a run that reaches mutation and crashes there, so the results above are not empty |
| RollbackSessions.ReceiptFinalizes | packages/cli-commands/src/rollback-locked-phase.ts:799-949 | the receipt an apply writes finalizes its own marker: the directory then is a success and nothing blocks, or it still blocks when the apply failed |
| RollbackSessions.MarkerReported | packages/cli-commands/src/rollback-history.ts:394-455 | a marker just published is scanned as unfinalized with its time and its checkpoint, blocks, and is inspected as published |
| RollbackSessions.StoppingBlocksExactly | packages/cli-commands/src/rollback-history.ts:162-276 | an admitted apply that stops leaves its session blocked exactly when its own marker stands without a receipt; a full apply never does |
| RollbackSessions.BlockerBindsOneSession | packages/cli-commands/src/rollback-history.ts:284-343 | while one session is blocked for good, an apply of any session without history can still reach mutation |
| RollbackSessions.TwoSessionsRun | packages/cli-commands/src/rollback-history.ts:284-343 | runs in which one session is blocked and another one's apply mutates |
| RollbackSessions.CrashedFullApplyRun | packages/cli-commands/src/rollback-locked-phase.ts:799-949 | runs in which a full apply crashes while it overwrites and another apply of its session mutates afterwards |
| ResponseBudget.Budget.Reserve | scripts/refresh-license-metadata-core.ts:123-138 | the fields after the call keep the ledger after the call; throws exactly on invalid wants |
| ResponseBudget.Budget.Settle | scripts/refresh-license-metadata-core.ts:145-164 | the same; accepted exactly against an outstanding grant of that size, and a throw changes nothing |
| ResponseBudget.Open | scripts/refresh-license-metadata-core.ts:118-122 | a budget opens exactly on a positive safe limit, with nothing spent |
| ResponseBudget.Balanced | scripts/refresh-license-metadata-core.ts:115-165 | after any calls, spent is what was used and what is outstanding, at most the limit and the overages |
| ResponseBudget.AllSettled | scripts/refresh-license-metadata-core.ts:139-164 | once everything is settled, what is spent is what was used |
| ResponseBudget.ReservationFits | scripts/refresh-license-metadata-core.ts:123-138 | a reservation gets what it wants or what is left, never passes the limit, and gets nothing past it |
| ResponseBudget.SettlementChargesUse | scripts/refresh-license-metadata-core.ts:139-164 | reserving and settling costs exactly what was used |
| ResponseBudget.FetchWithinBudget | scripts/refresh-license-metadata-core.ts:73-111 | throws exactly on an invalid request or at the first unsafe byte count; attempts are due, capped by what is left and at most the configured number; if they respect their caps the grant suffices, and only the last can overrun |
| ResponseBudget.RequestExactly | scripts/refresh-license-metadata-core.ts:79-89 | a request is refused exactly unless grant and attempts are positive, the delay is not negative and all are below 2^53 |
| Sentinel.FindWholeLine | packages/adapters/src/sentinel.ts:140-152 | the loop finds the first whole line at or after a position |
| Sentinel.FirstLineMeaning | packages/adapters/src/sentinel.ts:140-152 | that position is a whole line and none before it is; otherwise there is none |
| SentinelLaws.FoundExactly | packages/adapters/src/sentinel.ts:72-88 | for one-line markers, a block is found exactly when an end line follows the first begin line |
| SentinelLaws.FoundEncloses | packages/adapters/src/sentinel.ts:72-88 | for one-line markers, the block found reaches from the first begin line through the first end line below it and that line's newline, and its content is the lines between them |
| SentinelLaws.FindAfterInsert | packages/adapters/src/sentinel.ts:100-121 | for all hosts, anchors and contents without trailing newline: what is found afterwards is the content inserted, exactly when it fits (fresh spot, no end line in it) |
| SentinelLaws.LastInsertWins | packages/adapters/src/sentinel.ts:100-121 | for the same inputs: every later insertion gives what it alone would have given, exactly when this one fits |
| SentinelLaws.InsertTwice | packages/adapters/src/sentinel.ts:100-121 | for the same inputs: inserting twice is inserting once, exactly when the content fits |
| SentinelLaws.RemoveAfterInsert | packages/adapters/src/sentinel.ts:127-131 | for the same inputs: removing gives the host back, without the block it had and up to one final newline, exactly when the content fits |
| SentinelLaws.RemoveAfterUpdate | packages/adapters/src/sentinel.ts:127-131 | a block already there is removed as if it had not been rewritten, exactly when the new content has no end line |
| SentinelLaws.OrphanLosesHost | packages/adapters/src/sentinel.ts:66-131 | below an orphan begin line, inserting content and removing it again leaves nothing of the host |
| SentinelLaws.RemoveTwice | packages/adapters/src/sentinel.ts:123-131 | removing twice is removing once, exactly when no second block stands below the first |
| SentinelLaws.TwoBlocksFail | packages/adapters/src/sentinel.ts:123-131 | two blocks, one after the other, fail that condition |
| SentinelLaws.GoesAfterMarker | packages/adapters/src/sentinel.ts:111-118 | for any marker: the block comes where the first line of its first occurrence ends, right below a marker of one line, and nothing else moves |
| SentinelLaws.GoesLast | packages/adapters/src/sentinel.ts:119-120 | without a marker line the block comes last, on a line of its own |
| SentinelLaws.SentinelRoundTrip | packages/adapters/src/sentinel.ts:51-131 | for every host, anchor and raw content, and every block id of one line: each of the three laws holds exactly under that condition |
| SentinelLaws.LawsFail | packages/adapters/src/sentinel.ts:66-121 | each part of the condition fails for some input |
| AuditCache.IndexCache | scripts/license-audit-core.ts:818-849 | duplicates are reported exactly when two entries speak for one identity; every entry is found under its identity |
| AuditCache.CheckReferences | scripts/license-audit-core.ts:852-900 | passes exactly when every entry is for a lockfile identity of its own kind |
| AuditCache.CoverExactly | scripts/license-audit-core.ts:921-987 | an identity is covered exactly when the cache has a collected entry with the integrity the lockfile pins |
| AuditCache.ConflictsExactly | scripts/license-audit-core.ts:750-781 | no reason is reported exactly when all variants agree on every fact |
| AuditPolicy.ReasonsExactly | scripts/license-audit-core.ts:750-781 | a reason is reported exactly when two variants disagree on its fact, license values counting only where declared; each once and in the source's order |
| AuditModel.GroupByNameVersion | scripts/license-audit-core.ts:902-915 | the groups hold exactly the reachable snapshots and identities of each name and version |
| AuditModel.MergeProvenance | scripts/license-audit-core.ts:997-1020 | postures, parents and importers are the unions over the group, and each posture keeps the least path |
| AuditBuild.ValidateReferentialIntegrity | scripts/license-audit-core.ts:475-530 | passes exactly when roots, edges and identities resolve to the names they give |
| AuditBuild.BuildRow | scripts/license-audit-core.ts:916-1053 | a group has a row exactly when all its identities are covered, and the row says what the group gives |
| Audits.BuildAuditModel | scripts/license-audit-core.ts:792-1072 | succeeds exactly on auditable inputs; the rows then split the reachable snapshots, sorted, each exact |
| Audits.RowPathIsLeast | scripts/license-audit-core.ts:1013-1019 | a row's path for a posture is the least of all walks to any of its snapshots in that posture |
| Audits.RowProvenance | scripts/license-audit-core.ts:997-1020 | a row has a posture, parent or importer exactly when one of its snapshots has |
| Audits.RowIdentity | scripts/license-audit-core.ts:902-915 | where name and version strings are unambiguous, all snapshots of a row have its name and version |
| Audits.AggregateExactly | scripts/license-audit-core.ts:993-1045 | a row gives no aggregate exactly when two variants disagree, and then wants review |
| Audits.SnapshotIsVerified | scripts/license-audit-core.ts:783-791 | behind every reachable snapshot stands a variant whose tarball had the pinned integrity |
| AuditPolicy.VariantsAsListed | scripts/license-audit-core.ts:973-984 | every variant of every row has the disposition and obligations the policy lists for its expression; without an expression, or with one the policy does not list, it wants review and has no obligations |
| AuditPolicy.DispositionExactly | scripts/license-audit-core.ts:993-1045 | a row wants anything but review exactly when its variants agree and the policy lists their expression so; in particular it is allowed only then |
| AuditPolicy.VariantForEach | scripts/license-audit-core.ts:916-991 | a row has one variant for each identity behind its snapshots, in the order of their keys |
| AuditPolicy.RowReasons | scripts/license-audit-core.ts:990-996 | a row's reasons are exactly the facts its variants disagree on, in order |
| AuditPolicy.RowSnapshots | scripts/license-audit-core.ts:902-915 | a row's snapshots are the reachable ones whose name, at sign and version spell what its own do |
| AuditPolicy.RowsInOrder | scripts/license-audit-core.ts:1059 | rows come by name and then version, no two with the same |
| AuditPolicy.SnapshotIsCollected | scripts/license-audit-core.ts:475-530 | on a valid graph the cache speaks for each snapshot by its own name and version and the integrity the lockfile pins |

## Left out

- Errors: which error is reported first, their codes where several could be given, their messages, order and deduplication.
- Size limits of the graph other than the path depth, and the checks of unresolved peers: independent field checks.
- Sorted, deduplicated arrays of parents, importers, package keys, snapshot keys, legal files and obligations are kept as sets.
- The nested map from snapshot to posture to path is flattened to one map over pairs.
- The conversion of a number token to a double and back: two parameters say which tokens are finite and which text is printed for the double. Values in memory keep that text for a number.
- SentinelLaws.SentinelRoundTrip: block ids with a newline in them, whose markers are not single lines.
- The reason `licenseMetadataSource`: that field has one value, so no two variants differ in it.
- `localeCompare` on timestamps and rollback ids, and on finding fields, is comparison by UTF-16 code units.
- Titles, messages, recommendations and display truncation of cluster summaries.
- StrictJson.ParseStrictJson: the error kind is returned but not specified beyond the position being inside the text.
- Parsing of the `packages` and `snapshots` sections and of importer sections from YAML objects: field-by-field checks; importers enter as parsed maps.
- Resolution of a `link:` target against an importer path is a parameter of the adapter.
- Schemas of marker and receipt: an artifact is absent, unreadable, malformed or parsed. Selectors are compared as the JSON text the source compares.
- The restore engine, the emergency checkpoint, selection and evidence checks inside the lock; the protocol has their end points, publication, begin and end of mutation and the receipt, as steps, and any step may be followed by a throw.
- Removing the lock by hand while its holder still runs, which the refusal text asks users not to do, and changes to the history by other programs.
- ResponseBudget.Balanced: sums are unbounded integers; the source's doubles are exact only up to 2^53 - 1.
- The delay between retries and the network attempt itself; the answers of the attempts are an arbitrary sequence.
- `reserveFor`, work items, entry builders and the network, file-system, tarball and checkpoint code.
