# Verified models of the invowk audit engine

This project models, in Dafny, the algorithms of invowk's security audit engine and
a few self-contained algorithms beside it, and proves what they promise. Check it
with `dafny verify dfyconfig.toml`.

- **Edit distance and typosquatting** (`edit_distance.dfy`, `typosquatting.dfy`). The
  two-row dynamic programme, on arrays that are swapped after every row, returns the
  length of a shortest script of single-byte edits. The distance is a metric, and its
  symmetry makes the lexicographic guard of the typosquatting check lossless.
- **Bounded artifact walker** (`artifact_tree.dfy`, `artifact_walker.dfy`). The stack
  of pending directories, the shared entry budget and the readers, driven by a host
  that answers every call as an arbitrary function of time. In every world the walk
  ends, stays within the budget and closes each reader once; on a quiet host it
  succeeds exactly when the tree is finite and fits.
- **Goroutine protocol** (`batch_protocol.dfy`). Semaphore, wait group, cancellation
  and result slots as a step relation: safety, absence of deadlock and termination over
  all interleavings, and one result for all schedules.
- **Batching** (`batching.dfy`, `llm_check.dfy`). The greedy splitter needs no more batches
  than any other consecutive split within the two limits; from scripts to findings,
  neither the split nor the schedule shows in the result.
- **Findings to triaged report** (`slug.dfy`, `findings.dfy`, `surfaces.dfy`,
  `correlation_rules.dfy`, `severity_escalation.dfy`, `correlator.dfy`,
  `correlation_order.dfy`, `sifting.dfy`, `sorting.dfy`, `finding_order.dfy`,
  `triage.dfy`, `report.dfy`, `scan.dfy`). Fallback codes, enrichment, rules,
  escalation, correlation over a map of arbitrary order, triage, and sorting for
  display: exactly when a compound is suppressed, when it shares the fate of what it was
  built from, when the order of triage matters, and when two runs may display
  different reports.
- **Error trees** (`error_tree.dfy`): the worklist search for a failed checker.
- **Command tree** (`command_tree.dfy`): nodes grown in place and the prefix index.
- **Engine formats** (`engine_format.dfy`): volume mounts and port mappings.
- **Include validation** (`includes.dfy`).

`text.dfy`, `numbers.dfy`, `permutations.dfy`, `selection.dfy` and `wrappers.dfy` hold what
several models share.

## Where the code does not do what one might expect

- A rule whose two sides are not restricted alike, or are restricted by category and by
  code, can fire without a match or stay silent with one
  (`CorrelationRules.PresenceTestExactIff`). All default rules are restricted alike.
- `NewCorrelator` is meant to prevent a rule from correlating a finding with itself, but
  it accepts the same checker with the same category on both sides, and such a rule fires
  on one finding (`CorrelationRules.AcceptedRuleOnOneFinding`; for which rules it cannot
  happen: `CorrelationRules.FiredRuleRestsOnTwoIff`).
- A compound of module findings that no scanned surface matches counts as a root finding
  and can be suppressed by codes from elsewhere (`Report.UnenrichedModuleCompoundSuppressed`;
  exactly when: `Report.SharesFateIff`).
- Triage depends on the order of its input when one compound was built from the code of
  another (`Triage.OrderMattersInGeneral`; exactly when: `Triage.OrderIrrelevantIffSettled`).
- Ambiguity of command names is decided on the raw names, which may have trailing or
  repeated spaces, but commands are registered by their words. So a command named "build"
  with a trailing space makes the ambiguous name "build" run it, silently
  (`CommandTree.TrailingSpaceDefeatsAmbiguity`; exactly when:
  `CommandTree.AmbiguousNameExecutableIff`, `CommandTree.NoLeafForAmbiguousNameIff`).
- Commands are sorted by their source-qualified names but registered under their simple
  names, so a shorter name can come after a longer one and never become executable
  (`CommandTree.OwnLeafIffNotShadowed`, `CommandTree.ShorterNameListedLaterIsShadowed`).
- A join of errors behind a wrapping error is searched only up to its first failed checker
  (`ErrorTree.WrappedJoinIsMissed`; exactly when nothing is missed:
  `ErrorTree.SearchCompleteIff`).
- The title is called the final tiebreaker for determinism, but two compounds of one rule
  on two surfaces agree on all sort keys, so the displayed order can depend on the
  iteration order of the surface map (`Scan.CompoundsOfOneRuleTie`,
  `Scan.FourFindingsTwoDisplays`; exactly when: `Scan.DisplayUniqueIff`).
- A custom rule may bear a code that the policy decides by name; its compound, if it
  counts as a root finding, is then confirmed or suppressed whatever it was built from
  (exactly when that differs from its findings: `Report.SharesFateIff`).
- `rw` is documented as an option of a volume string but ignored: after `ro` the mount stays
  read-only (`EngineFormat.OptionsExact`).
- A mount whose path contains a colon is printed without complaint and parsed back as
  something else (`EngineFormat.MountRoundTripIffColonFree`).

## Model

| member | source | states |
|---|---|---|
| `EditDistance.Levenshtein` | internal/audit/checks_module.go:270-304 | the result is the length of some script of byte insertions, deletions and substitutions turning `a` into `b`, and no script is shorter |
| `EditDistance.LevenshteinRows` | internal/audit/checks_module.go:271-303 | the two swapped rows compute the recurrence for all inputs, empty strings included |
| `EditDistance.EveryScriptIsAtLeastDist` | internal/audit/checks_module.go:270-304 | every sequence of edits that turns `a` into `b` has at least the distance many edits |
| `EditDistance.ShortestScript` | internal/audit/checks_module.go:294-298 | a sequence with exactly that many edits exists |
| `EditDistance.DistZero` | internal/audit/checks_module.go:163-164 | the distance is zero only between equal strings |
| `EditDistance.DistSymmetric` | internal/audit/checks_module.go:157-162 | the distance does not depend on which module asks |
| `EditDistance.DistTriangle` | internal/audit/checks_module.go:270-304 | triangle inequality |
| `EditDistance.DistBounds` | internal/audit/checks_module.go:272-277 | at least the difference in length, at most the longer length |
| `Typosquatting.CheckTyposquatting` | internal/audit/checks_module.go:145-180 | reports, with true distances and under its own surface, exactly the larger IDs within distance 3, once per occurrence |
| `Typosquatting.Check` | internal/audit/checks_module.go:53-80 | over a run, also a cancelled one, each ordered pair is reported once per pair of bearers among the modules reached and all modules |
| `Typosquatting.GuardPassesOne` | internal/audit/checks_module.go:154-162 | of two different IDs exactly one passes the guard |
| `Typosquatting.PairReportedOncePerModulePair` | internal/audit/checks_module.go:157-162 | an unordered pair of different IDs is reported iff its distance is at most 3, once per pair of bearers |
| `Typosquatting.PairReportedExactlyOnce` | internal/audit/checks_module.go:157-162 | with distinct module IDs every close pair is reported exactly once |
| `Typosquatting.ReportedBySmallerIff` | internal/audit/checks_module.go:154-164 | an ordered pair is reported iff both IDs occur, their distance is at most 3, and the first is a proper prefix of the second or has the smaller byte where they first differ |
| `Typosquatting.ModuleIDsExact` | internal/audit/checks_module.go:56-62 | the IDs compared are those of the modules that have one, each as often and in order |
| `ArtifactWalker.EntryBudget.Consume` | internal/audit/artifact_limits.go:111-131 | grants one entry, never beyond the limit, or fails and leaves the count alone when kind, path or budget are invalid or the budget is spent |
| `ArtifactWalker.EntryBudget.NextReadSize` | internal/audit/artifact_limits.go:133-144 | asks for at least one entry, at most one more than remain and never more than 256; less than 256 only if that is exactly one more than remain |
| `ArtifactWalker.VisitEntry` | internal/audit/artifact_walker.go:259-277 | an entry is shown to the visitor iff the budget paid for it; in every world a success descends iff the entry is a directory and the visitor did not answer to skip it, and a cancellation takes precedence over a failed visit, that over an unknown action |
| `ArtifactWalker.VisitRoot` | internal/audit/artifact_walker.go:116-145 | the root is charged and visited like any entry; in every world a success descends iff it is a directory that the visitor did not skip, and a cancellation takes precedence over a failed inspection |
| `ArtifactWalker.VisitDirectoryEntries` | internal/audit/artifact_walker.go:248-280 | a batch is visited in order as far as the budget goes; what is collected are directories of the batch, on a quiet host the unskipped ones |
| `ArtifactWalker.ReadDirectoryEntries` | internal/audit/artifact_walker.go:215-246 | on a quiet host the outcome depends on the listing alone, however the reader splits it |
| `ArtifactWalker.OpenDirectory` | internal/audit/artifact_walker.go:189-213 | a reader that comes with an error or a cancellation is closed once; a cancellation takes precedence over an open error, that over a missing reader; success yields an open, unread one |
| `ArtifactWalker.FinishDirectory` | internal/audit/artifact_walker.go:282-297 | the reader is closed even if the context is cancelled; a cancellation takes precedence, otherwise walk and close errors are both kept |
| `ArtifactWalker.ReadDirectory` | internal/audit/artifact_walker.go:173-187 | the reader is closed exactly once on every path |
| `ArtifactWalker.WalkDirectories` | internal/audit/artifact_walker.go:147-171 | ends in every world, the remaining budget plus the stack being the measure; agrees with the specified walk on a quiet host |
| `ArtifactWalker.WalkArtifactTree` | internal/audit/artifact_walker.go:72-88 | always: one charge per visit, never beyond the limit, no more entries pulled than the budget allowed, each reader closed once, and success only if no call was ever answered by a failure, a cancellation or nonsense; quiet: success iff the tree is finite and fits, then each listed entry of an unskipped directory visited exactly once, otherwise the limit error with the budget spent; nothing under a skipped directory is ever visited |
| `ArtifactTree.WalkSucceedsIffFits` | internal/audit/artifact_walker.go:147-171 | the specified walk succeeds iff a finite unfolding of the unskipped directories fits the budget |
| `ArtifactTree.CompletedWalk` | internal/audit/artifact_walker.go:72-88 | the visits of a fitting walk are the root and all entries outside skipped subtrees, each once; those of any other are as many as the budget allows |
| `ArtifactTree.WalkStaysOutside` | internal/audit/artifact_walker.go:257-277 | every visit below the root is a listed entry of a directory that was itself visited and not skipped: nothing under a skipped directory is visited |
| `ArtifactTree.WalkMissesNothing` | internal/audit/artifact_walker.go:147-171 | when the walk succeeds every listed entry of a visited, unskipped directory is visited |
| `ArtifactTree.FittingWalkSucceeds` | internal/audit/artifact_walker.go:248-280 | a tree that fits is visited entry by entry, nothing twice and nothing under a skipped directory |
| `ArtifactTree.UnfoldingUnique` | internal/audit/artifact_walker.go:147-171 | the tree below a stack of directories is unique when it is finite |
| `ArtifactTree.EndlessTreeNeverFits` | internal/audit/artifact_limits.go:111-131 | a tree without end exceeds every budget |
| `BatchProtocol.EffectiveConcurrency` | internal/audit/checks_llm.go:51-59 | the concurrency is at least one: as requested when that is positive, else the default of two |
| `BatchProtocol.InvStep` | internal/audit/checks_llm.go:88-113 | every step of every goroutine keeps tokens, holders, wait-group count and write counts in line |
| `BatchProtocol.SlotsNeverExceeded` | internal/audit/checks_llm.go:85-108 | in every interleaving the slot holders equal the tokens and stay within the concurrency |
| `BatchProtocol.OnlyOwnSlotWrittenOnce` | internal/audit/checks_llm.go:96-111 | a goroutine touches no slot but its own, and no slot is written twice |
| `BatchProtocol.WaitMeansAllDone` | internal/audit/checks_llm.go:104-115 | when the wait returns all slots are written and the semaphore is empty |
| `BatchProtocol.NoDeadlock` | internal/audit/checks_llm.go:88-115 | until the wait returns some goroutine can take a step, cancelled or not |
| `BatchProtocol.EveryRunEnds` | internal/audit/checks_llm.go:88-115 | no run exceeds six steps per task plus two, and a run that cannot go on has passed the wait |
| `BatchProtocol.EveryLlmRunEnds` | internal/audit/checks_llm.go:51-59 | for every requested concurrency the LLM checker's runs end with all slots written and none taken |
| `BatchProtocol.EachSlotAnsweredOrCancelled` | internal/audit/checks_llm.go:94-111 | with a cancellation anywhere each slot holds its own answer or the cancellation error |
| `BatchProtocol.SlotsExact` | internal/audit/checks_llm.go:94-111 | after every run, cancelled anywhere: a slot holds what its own analysis returned, or an error and no findings if that never took place |
| `BatchProtocol.DoneContextNeverRuns` | internal/audit/checks_llm.go:94-99 | a goroutine that finds the context done before the semaphore never analyses its batch |
| `BatchProtocol.CancelledTaskNeedsNoSlot` | internal/audit/checks_llm.go:101-108 | once the context is done a goroutine without a slot can leave with an error and without taking one |
| `BatchProtocol.ScheduleIndependent` | internal/audit/scanner.go:186-205 | without cancellation the results are the same after every schedule |
| `BatchProtocol.Collect` | internal/audit/scanner.go:207-220 | findings of all slots, failed ones included, and the errors of the failed ones, in index order |
| `BatchProtocol.FindingsInSlotOrder` | internal/audit/scanner.go:210-218 | the findings of each slot, failed or not, stand between those of the slots before and behind it |
| `BatchProtocol.FailuresExact` | internal/audit/scanner.go:210-216 | a slot is listed as failed, with its own error, iff it failed |
| `BatchProtocol.FailuresInSlotOrder` | internal/audit/scanner.go:210-216 | the failed slots are listed in increasing order |
| `BatchProtocol.LlmOutcome` | internal/audit/checks_llm.go:117-135 | an error iff some batch failed, naming all of them, and calling all failed iff there are no findings |
| `BatchProtocol.CancellationIsReported` | internal/audit/checks_llm.go:117-135 | if some batch was never analysed its failure is listed, and if none was there are no findings: a cancelled check never looks like a clean one |
| `Batching.TruncateScript` | internal/audit/llm_prompt.go:219-226 | a longer script is its first 4000 bytes followed by the marker, a shorter one is unchanged |
| `Batching.MarkerText` | internal/audit/llm_prompt.go:225 | the bytes of the marker spell its text |
| `Batching.PrepareScripts` | internal/audit/llm_prompt.go:228-245 | exactly the scripts that are not blank, each as often and in order, with their contents truncated, none longer than a batch may be |
| `Batching.BatchScripts` | internal/audit/checks_llm.go:158-188 | consecutive batches that make up the input, within both limits, none of which could take the next script |
| `Batching.GreedyIsOptimal` | internal/audit/checks_llm.go:168-185 | no other consecutive split within the limits has fewer batches |
| `LlmCheck.FinishCheck` | internal/audit/checks_llm.go:115-135 | after any uncancelled schedule: the findings of all batches in batch order, and an error naming exactly the batches that failed |
| `LlmCheck.BatchingIsInvisible` | internal/audit/checks_llm.go:71-135 | when a batch's answer is that of its scripts, the findings are those of the prepared scripts in order, whatever the split, the concurrency and the schedule |
| `Batching.PrepareAndBatch` | internal/audit/checks_llm.go:71-77 | prepared scripts are split into non-empty batches of at most 5 scripts and 6000 bytes, with the fewest batches possible |
| `Slug.SlugParts` | internal/audit/types.go:270-288 | the words of the parts joined by hyphens; only a-z, 0-9 and single inner hyphens |
| `Slug.SlugsAreTheFixedPoints` | internal/audit/types.go:270-288 | slugging a text again leaves it unchanged iff it is a slug |
| `Slug.SlugIsIdempotent` | internal/audit/types.go:270-288 | the slug of anything is left unchanged |
| `Slug.SlugOfConcat` | internal/audit/types.go:270-288 | the slug of several parts is made of the slugs of the parts in order, with a hyphen between two that are not empty |
| `Slug.SlugOfSeparated` | internal/audit/types.go:270-288 | a part is cut at every rune whose lower case is no letter or digit |
| `Slug.SlugOfWord` | internal/audit/types.go:270-288 | a part without such a rune is its own lower case |
| `Slug.SlugLetters` | internal/audit/types.go:275 | what stays is the 26 small letters and the ten digits |
| `Slug.LoweredIntoAlphabet` | internal/audit/types.go:273-276 | besides capital letters exactly two runes are lowered into the alphabet |
| `Findings.FallbackCode` | internal/audit/types.go:260-267 | a code is kept; a missing one is made of the slugs of checker, category and title, in that order |
| `Findings.EnsureFindingCodes` | internal/audit/scanner.go:223-229 | fills the missing codes in place and touches nothing else |
| `Surfaces.MatchSurfaceIdentity` | internal/audit/scan_context_artifacts.go:169-192 | a surface is found iff one agrees with the ID and the kind the finding has; it is the first that agrees and contains the file, or else the first that agrees |
| `Surfaces.MatchedExact` | internal/audit/scan_context_artifacts.go:169-192 | the same of the specified match, by position |
| `Surfaces.EnrichFindings` | internal/audit/scan_context_artifacts.go:142-156 | only missing kinds and keys are filled, in place |
| `Surfaces.EnrichedExact` | internal/audit/scan_context_artifacts.go:142-156 | a missing kind and a missing key become those of the surface found, nothing else changes, and nothing at all if none is found |
| `Surfaces.EnrichedKind` | internal/audit/scan_context_artifacts.go:149-151 | a finding without a kind takes that of a surface with its ID |
| `CorrelationRules.ValidateRules` | internal/audit/correlator.go:61-69 | accepts iff no same-checker rule lacks a category, and names the first that does |
| `CorrelationRules.AttachEscalationInputs` | internal/audit/correlator.go:317-337 | the compound gets the distinct titles and codes of its inputs |
| `CorrelationRules.DistinctExact` | internal/audit/correlator.go:325-336 | exactly the non-empty strings, each once |
| `CorrelationRules.DistinctInFirstAppearanceOrder` | internal/audit/correlator.go:325-336 | in the order in which they first appear |
| `CorrelationRules.ApplyRules` | internal/audit/correlator.go:98-162 | one compound for each rule that fires, in rule order, built from the findings that match a side |
| `CorrelationRules.MatchingExact` | internal/audit/correlator.go:138-145 | the inputs of a compound are exactly the findings that match the left or the right side, each as often and in order |
| `CorrelationRules.BothSidesAmongInputs` | internal/audit/correlator.go:138-145 | when findings match both sides, so do some of the inputs |
| `CorrelationRules.RuleFindingsExact` | internal/audit/correlator.go:118-159 | one compound for each rule that fires, in rule order, and none for any other |
| `CorrelationRules.FromRuleExact` | internal/audit/correlator.go:146-158 | it lies on its surface with the rule's severity, category and title and the rule's code or one from its name, and records the distinct titles and codes of its inputs |
| `CorrelationRules.BuildPresence` | internal/audit/correlator.go:101-116 | the maps record which checkers, categories and codes some finding has |
| `CorrelationRules.RuleFires` | internal/audit/correlator.go:120-136 | the test on the maps says whether findings with the required properties exist |
| `CorrelationRules.PresenceTestExactIff` | internal/audit/correlator.go:120-144 | for every rule: the test means "some finding matches each side" for all findings iff the sides are restricted alike and not doubly, or the rule can neither fire nor be matched |
| `CorrelationRules.FiredRuleRestsOnTwoIff` | internal/audit/correlator.go:58-69 | a rule, accepted or not, rests on two different findings whenever it fires iff it is paired with sides that exclude each other, or restricted by a left category alone, or lists codes on the left and none that can be found on a side |
| `CorrelationRules.AcceptedRuleOnOneFinding` | internal/audit/correlator.go:61-69 | the same checker and category twice is accepted and fires on one finding |
| `CorrelationRules.DefaultRulesSound` | internal/audit/correlator.go:341-412 | every default rule is accepted, fires iff both sides are matched, and rests on two findings |
| `CorrelationRules.FiringIsMonotone` | internal/audit/correlator.go:118-136 | adding findings never unfires a rule |
| `SeverityEscalation.ApplyEscalation` | internal/audit/correlator.go:237-315 | the surface's one escalation, if any, built from all its findings |
| `SeverityEscalation.EscalationExact` | internal/audit/correlator.go:252-312 | told by positions: none beside a critical finding; else critical for three findings of different categories; else critical for a high finding beside another; else high for two medium ones; else none |
| `SeverityEscalation.EscalationFindingExact` | internal/audit/correlator.go:261-312 | the escalation is one trust finding on the surface, built from all findings there |
| `SeverityEscalation.EscalationIsStrictlyAbove` | internal/audit/correlator.go:252-312 | the escalation is more severe than every finding of the surface |
| `SeverityEscalation.VerdictNeverDrops` | internal/audit/correlator.go:237-315 | adding a finding anywhere never lowers the worst severity of findings and escalation |
| `Correlator.GroupBySurface` | internal/audit/correlator.go:77-82 | each surface's findings, in order, under its key |
| `Correlator.GroupExact` | internal/audit/correlator.go:198-206 | a finding is in the group of its key and in no other |
| `Correlator.GroupIsSelection` | internal/audit/correlator.go:79-82 | a group holds the findings with its key, each as often and in order |
| `Correlator.SameSurfaceIff` | internal/audit/correlator.go:198-206 | findings with surface keys share a group iff the keys agree; without keys the surface IDs decide, without both the paths |
| `Correlator.SurfaceIDExact` | internal/audit/correlator.go:208-215 | the ID shown for a surface is that of its first finding that has one, or else the key |
| `Correlator.Correlate` | internal/audit/correlator.go:76-96 | every surface is visited once, in some order, and yields its rules' compounds and its escalation |
| `Correlator.SurfaceBuiltExact` | internal/audit/correlator.go:86-93 | a surface yields the compounds of the rules that fire on its group, in rule order, and then its escalation |
| `Correlator.BuiltExact` | internal/audit/correlator.go:86-93 | a compound is built iff some surface yields it |
| `CorrelationOrder.BuiltIsOrderIndependent` | internal/audit/correlator.go:86-93 | the same compounds are built from the same findings in every order |
| `CorrelationOrder.CorrelateIsOrderIndependent` | internal/audit/correlator.go:76-96 | the multiset of compounds is the same in every order |
| `Triage.ClassifyReportFindings` | internal/audit/triage.go:174-207 | both loops with the growing code set, each list a sorted permutation of what they decided; confirmed and suppressed together are the input, for findings and for compounds |
| `Triage.PolicyExact` | internal/audit/triage.go:249-288 | which rule decides a finding, and that exactly R6 to R11 suppress |
| `FindingOrder.SortFindings` | internal/audit/types.go:327-340 | a permutation in which no finding stands behind a less severe one, and among equals path, checker and title ascend |
| `FindingOrder.BeforeIff` | internal/audit/types.go:332-338 | of two texts the one with the smaller character where they first differ comes first, or the one that is a proper prefix of the other |
| `FindingOrder.SortedFindingsUniqueIff` | internal/audit/types.go:337-338 | findings have one sorted form iff no two different ones agree on the four keys |
| `Triage.SortTriagedFindings` | internal/audit/triage.go:359-375 | the same, with ties in the order of the rules' names |
| `Triage.RuleNamesDiffer` | internal/audit/triage.go:17-40 | different rules have different names |
| `Triage.GrowthIsHarmless` | internal/audit/triage.go:192-200 | when no finding is suppressed only for codes gathered on the way, each is classified as if it came first |
| `Triage.TriageIsOrderIndependent` | internal/audit/triage.go:179-201 | such findings end in the same multisets in every order |
| `Triage.OrderIrrelevantIffSettled` | internal/audit/triage.go:179-201 | all orders lead to the same confirmed and suppressed multisets iff no finding is suppressed only for gathered codes |
| `Triage.OrderMattersInGeneral` | internal/audit/triage.go:192-200 | a compound built from another's code is suppressed after it and confirmed before it |
| `Report.AssembleReport` | internal/audit/scanner.go:139-150 | enrichment, codes and correlation in the order of the scan |
| `Report.CompoundGetsItsSurfacesKind` | internal/audit/scan_context_artifacts.go:142-156 | an enriched compound is a module finding iff the findings of its surface are |
| `Report.CompoundSuppressedIff` | internal/audit/triage.go:249-287 | whatever surfaces and rules there are, a compound is suppressed iff it counts as a root finding, is not confirmed by name, and is suppressed by name or has inputs all of whose codes are suppressed somewhere in the report |
| `Report.SharesFateIff` | internal/audit/triage.go:266-287 | exactly when "suppressed iff all its inputs are" holds of a compound |
| `Report.CompoundSuppressedIffInputsAre` | internal/audit/triage.go:266-285 | with findings of scanned surfaces that agree on their kind, a compound is suppressed iff it was built from at least one finding and all of them are suppressed, unless the policy decides a root compound's code by name and otherwise |
| `Report.ReportSuppressesIff` | internal/audit/triage.go:174-207 | as long as the compounds' order does not matter, the same of the report's lists |
| `Report.ReportSuppressesOnlySuppressed` | internal/audit/triage.go:174-207 | with findings of scanned surfaces, a compound is listed as suppressed iff all its inputs are, and there is one, with the same exception |
| `Report.CompoundsAreSettled` | internal/audit/triage.go:192-200 | the compounds' order does not matter when no finding uses a compound's code |
| `Report.ModuleNeverSuppressed` | internal/audit/triage.go:250-252 | nothing on a module surface is ever listed as suppressed |
| `Report.ReportIsOrderIndependent` | internal/audit/triage.go:192-200 | when no compound is suppressed only for the code of another, the same compounds are confirmed and suppressed whatever order the surfaces are correlated in |
| `Scan.FinishScan` | internal/audit/scanner.go:139-168 | from the checkers' slots to a displayed report that some order of the surfaces explains, and the failures in slot order |
| `Scan.ScanIsDeterministic` | internal/audit/scanner.go:137-168 | any two schedules of the checkers and any two orders of the surface map lead to the same four multisets |
| `Scan.DisplayUniqueIff` | internal/audit/triage.go:202-205 | all runs display the same report iff no two different entries of a list agree on all its sort keys |
| `Scan.CompoundsOfOneRuleTie` | internal/audit/types.go:338 | one rule's compounds on two surfaces differ and tie |
| `Scan.FourFindingsTwoDisplays` | internal/audit/types.go:327-340 | two high-severity findings in each of two modules may be displayed in two ways |
| `Report.UnenrichedModuleCompoundSuppressed` | internal/audit/triage.go:319-321 | without a matching surface a module's compound is suppressed although its findings are confirmed |
| `Report.DefaultRulesCodesApart` | internal/audit/finding_codes.go:60-67 | the default rules' codes are none of those the policy names |
| `ErrorTree.ScanErrorContainsChecker` | internal/audit/errors.go:110-129 | the worklist ends and agrees with the recursive search over join nodes; nil holds nothing |
| `ErrorTree.SearchIsSound` | internal/audit/errors.go:121-123 | a name that is found is the name of a failed checker in the tree |
| `ErrorTree.FindsInBranches` | internal/audit/errors.go:116-128 | the search finds exactly the first failed checkers of the branches of a tree of joins |
| `ErrorTree.SearchCompleteIff` | internal/audit/errors.go:116-128 | every name in the tree is found iff every name some branch bears is the first failed checker of a branch |
| `ErrorTree.SearchComplete` | internal/audit/errors.go:121-127 | in particular every name is found when no branch bears two different ones |
| `ErrorTree.UnjoinedSearchCompleteIff` | internal/audit/errors.go:121-126 | below a join, all names are found iff there are no two different ones |
| `ErrorTree.WrappedJoinIsMissed` | internal/audit/errors.go:124-126 | the second checker of a wrapped join is not found |
| `ErrorTree.SearchOfJoinedCheckers` | internal/audit/scanner.go:163-165 | on a scan's joined errors the search is exact whatever the causes wrap |
| `ErrorTree.ScanFailureRecognised` | internal/audit/scanner.go:180-221 | after every run, cancelled ones included, a scan's error names a checker iff that checker's slot holds an error |
| `CommandTree.Attach` | cmd/invowk/cmd_discovery.go:116-118 | a new word under a node keeps the tree well linked and the siblings distinct |
| `CommandTree.RegisterWord` | cmd/invowk/cmd_discovery.go:66-119 | an indexed prefix is reused, another gets a leaf or a namespace node; tree and index stay in step |
| `CommandTree.RegisterDiscoveredCommands` | cmd/invowk/cmd_discovery.go:47-121 | afterwards tree and index hold the prefixes of the unambiguous names, each executing its first user's command if its name ends there |
| `CommandTree.IndexIsPrefixes` | cmd/invowk/cmd_discovery.go:55-119 | the keys are exactly the non-empty word prefixes of unambiguous names |
| `CommandTree.SiblingsDiffer` | cmd/invowk/cmd_discovery.go:66-119 | each mapped node sits under the node of its shorter prefix, alone with its word |
| `CommandTree.AmbiguousNameExecutableIff` | cmd/invowk/cmd_discovery.go:55-64 | an ambiguous name is executable iff an unambiguous command with the same words precedes all that begin with them; otherwise it answers with a disambiguation message |
| `CommandTree.DisambiguatesIff` | cmd/invowk/cmd_discovery.go:80-108 | a registered prefix answers with a disambiguation message iff it is an ambiguous name and runs nothing |
| `CommandTree.NoLeafForAmbiguousNameIff` | cmd/invowk/cmd_discovery.go:55-77 | no ambiguous name is executable iff every unambiguous command that spells one is shadowed by an earlier command |
| `CommandTree.NormalNamesAreSafe` | cmd/invowk/cmd_discovery.go:55-60 | when unambiguous names have single spaces only, no ambiguous name is executable and each answers with a disambiguation message |
| `CommandTree.TrailingSpaceDefeatsAmbiguity` | cmd/invowk/cmd_discovery.go:58-64 | "build " listed with two commands "build" makes the ambiguous name "build" run it |
| `CommandTree.OwnLeafIffNotShadowed` | cmd/invowk/cmd_discovery.go:69-77 | an unambiguous command ends at its own leaf iff no earlier unambiguous name begins with all its words |
| `CommandTree.ShorterNameListedLaterIsShadowed` | cmd/invowk/cmd_discovery.go:69-72 | "build" listed after "build all" is not executable |
| `Text.FieldsOfJoin` | cmd/invowk/cmd_discovery.go:63-67 | splitting joined words gives the words back, so prefixes with different words have different keys |
| `Text.FieldsOfSeparated` | cmd/invowk/cmd_discovery.go:63-67 | white space separates, so its two sides contribute their words independently |
| `EngineFormat.FormatVolumeMount` | internal/container/engine_base_format.go:46-66 | the text of a valid mount denotes that mount iff its paths have no colon |
| `EngineFormat.PrintedMount` | internal/container/engine_base_format.go:46-66 | the printed text in each case, "ro" before the label |
| `EngineFormat.ParseVolumeMount` | internal/container/engine_base_format.go:72-101 | the mount denoted by the first three parts, and its field errors |
| `EngineFormat.DenotedMount` | internal/container/engine_base_format.go:72-95 | by its parts between colons: the first is the host path, the second, if there is one, the container path, the third the options; further parts are ignored |
| `EngineFormat.OptionsExact` | internal/container/engine_base_format.go:83-94 | a mount is read-only iff "ro" is among the options, the last of "z" and "Z" is its label, and no other option, "rw" included, has an effect |
| `EngineFormat.SplitOfJoin` | internal/container/engine_base_format.go:75 | splitting texts joined by a separator that none of them contains gives them back |
| `EngineFormat.SplitRejoins` | internal/container/engine_base_format.go:75 | joining what was split gives the text back |
| `EngineFormat.ParsedMountErrors` | internal/container/engine_base_format.go:97-100 | a volume string is refused iff a path is blank, each blank path being named |
| `EngineFormat.MountRoundTripIffColonFree` | internal/container/engine_base_format.go:46-101 | a valid mount is parsed back from its text iff its paths have no colon |
| `EngineFormat.AcceptedMountIsStable` | internal/container/engine_base_format.go:72-101 | printing and parsing an accepted string's mount changes nothing |
| `EngineFormat.PortRoundTrip` | internal/container/engine_base_format.go:108-151 | a printed mapping is parsed back with tcp implicit, and rejected iff it is invalid |
| `EngineFormat.AcceptedPortStrings` | internal/container/engine_base_format.go:118-151 | exactly two decimal numbers from 1 to 65535, leading zeros allowed, with a colon between them, and perhaps a slash followed by tcp, udp or nothing, are accepted, each as those numbers and that protocol |
| `EngineFormat.ParseUint16Iff` | internal/container/engine_base_format.go:126-138 | a text is read as a number iff it is that number in decimal, perhaps after leading zeros, and the number has 16 bits |
| `EngineFormat.PortErrors` | internal/container/engine_base_format.go:121-146 | which error a refused string gets: no separator, the first part that is no 16-bit number, or else the invalid mapping |
| `EngineFormat.AcceptedPortIsStable` | internal/container/engine_base_format.go:108-151 | print after parse is idempotent on accepted strings |
| `EngineFormat.DecimalValue` | internal/container/engine_base_format.go:109 | the printed decimal reads as the number |
| `EngineFormat.DecimalDigits` | internal/container/engine_base_format.go:109 | digit by digit what is printed, without leading zeros |
| `Includes.ValidateIncludes` | internal/config/config.go:299-362 | accepts iff entries are valid, cleaned paths and aliases distinct, and shared short names all aliased, in every iteration order; a rejection names a real defect |

## Left out

- ArtifactWalker.Host: `os.Lstat`, `os.Open` and the visitors are answers of the modelled world; error texts, the path a limit error names and `filepath.Join` (names are appended to a path) are not modelled.
- ArtifactWalker.EntryBudget.Consume: whether artifact kind and path are valid is one flag; a walk checks it when it starts, and joining names keeps paths valid.
- ArtifactWalker.WalkArtifactTree: nil budgets, visitors and openers are excluded by the types.
- BatchProtocol.Collect: errors are strings; wrapping texts are not modelled.
- Batching.PrepareScripts: "only white space" is a given test on bytes.
- Typosquatting.Check: only the similar-ID findings of the checker; its other checks append findings of their own.
- Surfaces.MatchSurfaceIdentity: containment of a path in a surface is a given function.
- Triage.ClassifyReportFindings: the severity filters, which drop entries and sort again.
- Sorting.SortFunc: the library's algorithm; callers rely on a sorted permutation only.
- Report.AssembleReport: running without a correlator, diagnostics and counts.
- CommandTree.SiblingsDiffer: children that the root had before registration are not compared, because the source does not look at them.
- CommandTree.RegisterDiscoveredCommands: what the nodes do when run, flags and help; discovery and ambiguity analysis are inputs.
- EngineFormat.FormatVolumeMount: `filepath.ToSlash` is the identity, as on hosts whose separator is a slash.
- EngineFormat.ParseVolumeMount: texts of errors.
- Includes.ValidateIncludes: entry validation, `filepath.Clean` and short names are given functions.
- Message texts, recommendations, line numbers, JSON and timing of findings.
- The individual checkers other than typosquatting: their content is in patterns or in packages outside the audit engine.
- LLM providers, prompts and response parsing; configuration decoding and CUE editing; the user interface.
