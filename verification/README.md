# Proofs about the research orchestrator's control logic

These modules model the deterministic control logic of the research orchestrator and of two of the
repository's scripts, and prove what that logic keeps, in every run and for every input. Files,
networks and clocks are replaced by maps, byte strings and parameters; libraries such as SHA-256,
HMAC, SOPS, YAML and JSON are functions of which only stated laws are used. `dafny verify
dfyconfig.toml` checks all of it.

- **Circuit breaker and guarded calls** (`RestCircuit`, `GuardedCall`): the three-state breaker with
  one probe slot, and the retry loop with two counters and a sleep budget.
- **Vault backup and restore** (`ChecksumDocument`, `VaultArchive`, `VaultChecks`, `VaultSamples`,
  `VaultSwap`): the archive that is built and the one that is accepted, and the replacement of the
  active vault step by step, with every operating-system call allowed to fail, a crash after every
  step, and signals at the three points where it matters: before, inside and behind the critical
  section.
- **Knowledge context and citations** (`KnowledgeContext`, `CitationLocator`, `PacketSelection`,
  `Chunking`): the printer of wrapped, sanitized text, the parser that recovers the blocks, the
  prefix-filtered search, the choice of entries under source caps and a token budget, and the
  overlapping chunker.
- **Evidence snapshots** (`Evidence`, `EvidenceOrder`): what is gathered, in which order it is dropped,
  and the trimming under a byte budget.
- **Cross-job comparison** (`ComparisonInputs`, `ComparisonVerdict`, `ComparisonReport`,
  `ComparisonEvidence`): newest wave, fingerprint, comparability, verdict and report.
- **Methodology settings** (`MethodologyRepair`, `MethodologyReport`, `MethodologyConvergence`,
  `MethodologyValidation`): the in-place repair, that the file holds what it reports, when it
  converges, and what the seal-time validator guarantees.
- **Contracts** (`ContractDigest`, `ContractOverrides`, `ContractReferences`, `ContractStore`,
  `ContractEffects`, `ContractResolution`, `ContractSamples`, `SemanticVersion`, `VersionAllocation`,
  `VersionOverlap`): the framed digest, the refusal of overrides at any depth, sealing, promotion,
  installation and resolution over all runs, and interleaved version reservation.
- **Duplicate YAML keys** (`YamlKeys`): the traversal of aliased and cyclic node graphs.
- **Signed links** (`Base64Url`, `Links`): payload, encoding and verification of link tokens.

`Wrappers`, `Lists`, `Order`, `Text`, `Decimal` and `PosixPath` hold what several models share.

## Where the code and its own words differ

The models follow the code. In these places its comments promise more than it does, and the proofs
give the exact condition instead.

- The breaker is said never to wedge half-open. It does, for good, exactly when a probe ends in an
  ordinary 4xx: `record` returns early and the release is skipped because an outcome was recorded
  (`GuardedCall.WedgedIffClientErrorProbe`).
- The old vault is lost, with the workspace it was preserved in, exactly when the exchange succeeds,
  both the rename to the rollback path and the exchange back fail, and a signal lands after the
  critical section has been left and before the manual-recovery handler is entered
  (`VaultSwap.Host.Restore`). It is then gone unless the restored tree, or what a failing cleanup
  left, has the same contents (`VaultSwap.LostIff`, `VaultSwap.LoseOldVault`).
- A backup checks neither the limits that restore enforces nor the names: one with too many or too
  large members, or with a name that holds a line break, is written and then refused
  (`VaultArchive.BackupRestoresIff`, `VaultSamples.LineBreakRefused`).
- The prefix filter agrees with the exhaustive scan exactly for excerpts that hold an ASCII
  alphanumeric; others verify in a block but are never looked up
  (`CitationLocator.AgreesIffAlphanumeric`, `CitationLocator.PunctuationNotLocated`).
- A `>` in a printed attribute makes the text of its block begin early. Only an attribute that holds
  a whole closing tag besides can hide that (`KnowledgeContext.ContextRoundTripIff`,
  `KnowledgeContext.AngleUnnoticed`).
- The overlap guard exists to exclude requirements on which the repair oscillates, but looks only at
  pairs with an across_jobs comparison: nested paths of other requirements, and equal paths with
  incompatible bounds, are accepted and cannot be satisfied
  (`MethodologyValidation.AcceptedSatisfiableIff`,
  `MethodologyValidation.ProgramGuardMissesNesting`).
- Installing a repository contract is said to keep the promoted tree identical to what was hashed. A
  file named `.pyc`, or beneath a directory whose name ends in `.pyc`, is hashed but not copied, and
  the catalog then gives a digest the installed tree does not have
  (`ContractResolution.InstallSoundIff`, `ContractSamples.InstalledButUnsound`).
- A bundle that was sealed, promoted and catalogued is meant to resolve. The files its descriptor
  names are looked for in the source, bytecode included, and by any path that leads into it; the
  sealed copy has no bytecode, and resolution takes only plain relative paths. It resolves exactly
  when the descriptor is portable (`ContractResolution.CandidateResolvesIff`,
  `ContractSamples.PromotedButNotResolved`).
- A version reservation is said to be keyed to its run. Overlapping calls of one run can reserve two
  versions (`VersionAllocation.OverlapReservesTwice`), and do so exactly when one looks before
  another writes its marker and writes its own afterwards (`VersionOverlap.TwoVersionsIff`); calls
  that do not overlap cannot (`VersionAllocation.OneVersionPerRun`).
- The token budget is said to keep the largest context that fits. It keeps the first one in the order
  of the ranking (`PacketSelection.EnforceTokenBudget`), which can be much smaller
  (`PacketSelection.NotTheLargest`). It is the largest under every budget exactly when no entry
  leaves a gap (`PacketSelection.LargestIff`), for instance when all sizes are equal. For one given
  budget the question is whether some of the entries add up to more within it, which is the
  subset-sum problem; there is the bound by the smallest refused entry
  (`PacketSelection.LargerByLessThanRefused`) and the case of a full budget
  (`PacketSelection.FullIsLargest`).
- Link tokens are meant to have one spelling. The decoder ignores the unused low bits of the last
  character, so a token has several (`Base64Url.SpellingsIff`, `Links.VerifiedToken`). The ref `.`
  is accepted although it names the run root itself (`Links.RefOkIff`).

## Model

| member | source | states |
|---|---|---|
| RestCircuit.Circuit.Check | services/research-orchestrator/app/discord_rest.py:226-245 | A call passes while closed, as the probe once the cooldown is over or the slot is free, and is refused otherwise; the whole new breaker state |
| RestCircuit.Circuit.Record | services/research-orchestrator/app/discord_rest.py:258-296 | A success closes a probing breaker and clears the count, a terminal failure counts and opens it at the threshold or after a probe, an ordinary 4xx changes nothing but the last outcome |
| RestCircuit.Circuit.ReleaseHalfOpenProbe | services/research-orchestrator/app/discord_rest.py:247-256 | Frees the probe slot of a half-open breaker and changes nothing else |
| RestCircuit.RunInvariant | services/research-orchestrator/app/discord_rest.py:207-296 | In every run from a new breaker the failure count is the number of terminal failures since the last success, read off the run itself, and the mode, slot and opening time agree |
| RestCircuit.OpensExactlyAtThreshold | services/research-orchestrator/app/discord_rest.py:258-296 | A closed breaker leaves the closed state at an event if and only if that event brings the failures since the last success to the configured number |
| RestCircuit.NoEarlyAdmission | services/research-orchestrator/app/discord_rest.py:226-245 | With a monotone clock no check at all passes between an opening and the end of its cooldown |
| RestCircuit.CooldownHolds | services/research-orchestrator/app/discord_rest.py:226-245 | After an opening either the breaker is still open, at least as late, or the clock has passed the cooldown of that opening |
| RestCircuit.ProbeHeld | services/research-orchestrator/app/discord_rest.py:226-296 | From a probe until a success, a terminal failure or a release is seen the breaker stays half-open with its slot taken |
| RestCircuit.SingleProbe | services/research-orchestrator/app/discord_rest.py:226-296 | Between two admitted probes there is a recorded success, a recorded terminal failure or a release |
| RestCircuit.FailureKinds | services/research-orchestrator/app/discord_rest.py:60-69 | The six categories that count as failures |
| RestCircuit.Transitions | services/research-orchestrator/app/discord_rest.py:226-296 | Over every run, what takes the breaker from each mode to which other: a failure that brings the count to the threshold opens it, a check after the cooldown makes it half-open, a success closes and a failure reopens it there, and nothing else moves it |
| RestCircuit.OpenAdmitsIff | services/research-orchestrator/app/discord_rest.py:237-241 | While open a check passes if and only if the cooldown since the last failure that started one is over, both read off the run |
| RestCircuit.HalfOpenAdmitsIff | services/research-orchestrator/app/discord_rest.py:242-245 | Half-open, a check passes if and only if the slot was released since the last probe |
| RestCircuit.ClosedAdmits | services/research-orchestrator/app/discord_rest.py:235-245 | A closed breaker lets every check pass |
| RestCircuit.RestartHolds | services/research-orchestrator/app/discord_rest.py:272-287 | After any failure that starts a cooldown no check passes before its own time plus the cooldown |
| RestCircuit.OpeningHolds | services/research-orchestrator/app/discord_rest.py:275-287 | After a record that opened the breaker, a failed probe included, no check passes before its own time plus the cooldown |
| RestCircuit.Totals | services/research-orchestrator/app/discord_rest.py:261-274 | The totals and the last outcome are those of the run |
| GuardedCall.ExecuteGuarded | services/research-orchestrator/app/discord_rest.py:329-424 | The retry loop does what the retry rule says for every policy and every behaviour of the network: attempts, delays slept, the outcome recorded or the slot released |
| GuardedCall.AttemptBound | services/research-orchestrator/app/discord_rest.py:353-414 | At most one attempt more than the two retry limits together |
| GuardedCall.SleepWithinBudget | services/research-orchestrator/app/discord_rest.py:353-414 | The delays, each non-negative, never add up to more than the sleep budget |
| GuardedCall.NonRetryableStops | services/research-orchestrator/app/discord_rest.py:203-204 | A non-retryable outcome ends the call at once and is the outcome recorded |
| GuardedCall.ReportBounds | services/research-orchestrator/app/discord_rest.py:329-424 | Attempts, delays and total sleep of every call are within bounds, and the only outcome recorded is that of the last attempt |
| GuardedCall.StatusKinds | services/research-orchestrator/app/discord_rest.py:145-172 | What each status is taken for |
| GuardedCall.ContinuesIff | services/research-orchestrator/app/discord_rest.py:353-414 | An attempt is followed by another if and only if it was answered 429 or failed with an exception or a status of 500 to 599, fewer of its kind came before than are retried, the budget left covers the delay, and the sleep completes |
| GuardedCall.DelayAfter429 | services/research-orchestrator/app/discord_rest.py:427-435 | After a 429 the requested seconds are slept, but no more than the cap, and the base without a request |
| GuardedCall.DelayAfterFault | services/research-orchestrator/app/discord_rest.py:438-439 | After a fault the base is slept at first and twice as long after each next one |
| GuardedCall.NeverRetried | services/research-orchestrator/app/discord_rest.py:71-78 | 2xx, 401, 403 and any other 4xx but 429 are never retried, and are what is recorded |
| GuardedCall.RecordedIff | services/research-orchestrator/app/discord_rest.py:415-424 | Nothing is recorded if and only if an exception escapes the attempt or the sleep |
| GuardedCall.SlotKeptOnlyByClientError | services/research-orchestrator/app/discord_rest.py:258-296 | One call leaves a free slot taken if and only if it was a probe whose recorded outcome is an ordinary 4xx |
| GuardedCall.WedgeIsPermanent | services/research-orchestrator/app/discord_rest.py:226-245 | Once the slot is left taken, no later guarded call is admitted and nothing ever changes again |
| GuardedCall.WedgedIffClientErrorProbe | services/research-orchestrator/app/discord_rest.py:329-424 | Over any sequence of guarded calls the breaker ends with its slot taken if and only if some call was a probe that ended in an ordinary 4xx |
| GuardedCall.WedgeHappens | services/research-orchestrator/app/discord_rest.py:269-272 | A concrete run in which the breaker is wedged half-open |
| VaultSwap.Host.RollbackName | scripts/secret_backup_restore.py:739-747 | One of 32 drawn names that is not in use, if and only if there is one |
| VaultSwap.Host.ReplaceVault | scripts/secret_backup_restore.py:771-792 | It succeeds if and only if the calls it needs succeed and, with a vault in place, a name is free; which of the three ends it comes to, under any failing calls, and every intermediate state of the disk |
| VaultSwap.Host.CriticalSection | scripts/secret_backup_restore.py:879-899 | Every crash point of the critical section keeps the old vault, and a signal can spoil that only in the gap behind it |
| VaultSwap.Host.Restore | scripts/secret_backup_restore.py:819-902 | It ends restored if and only if the archive is valid and confirmed, no signal comes before the replacement and none of the calls it needs fails, and when it ends in each other way; for every pattern of failing calls and signals and at every crash point the active vault is wholly old or wholly the validated new one and, unless a signal lands in the one gap after a rollback that could not be completed, the old vault is at the active, rollback or preserved staging place; after such a signal, and only then, it is reported lost, and is gone unless the restored tree or a cleanup remnant has its contents; without validation and confirmation nothing outside the workspace changes |
| VaultSwap.ReplacementOutcome | scripts/secret_backup_restore.py:771-792 | What the disk looks like after each result of a replacement |
| VaultSwap.CleanupSafe | scripts/secret_backup_restore.py:900-902 | Removing the workspace, even half-way, never removes the old vault |
| VaultSwap.LostIff | scripts/secret_backup_restore.py:895-902 | After a signal in that gap the old vault is nowhere, unless the restored tree or what the cleanup left happens to have its contents |
| VaultSwap.Installed | scripts/secret_backup_restore.py:771-792 | After a restore the new vault is active and the old one, if there was one, lies under its rollback name |
| VaultSwap.LoseOldVault | scripts/secret_backup_restore.py:895-902 | A concrete host on which the old vault is lost |
| ChecksumDocument.ParseChecksums | scripts/secret_backup_restore.py:681-697 | The parser returns the entries of the document, or refuses a malformed line, an unsafe or repeated name, the document itself, or no entry at all |
| ChecksumDocument.ParsePrintedDocument | scripts/secret_backup_restore.py:418-421 | Parsing undoes printing for every list of distinct safe names that fit on a line |
| ChecksumDocument.DocumentNamesLineSafe | scripts/secret_backup_restore.py:681-697 | Whatever document is accepted, each name it lists is free of every character at which lines are split |
| VaultArchive.Backup | scripts/secret_backup_restore.py:478-510 | The file map written for a vault whose inventory, encrypted documents and policy agree, and a refusal otherwise |
| VaultArchive.Preflight | scripts/secret_backup_restore.py:608-645 | The member names are returned if and only if all are safe, regular, allowed, distinct, within the count and size limits, and the three metadata files are among them |
| VaultArchive.Validate | scripts/secret_backup_restore.py:700-736 | The checks one after another accept exactly the coherent archives |
| VaultArchive.AcceptedCoincides | scripts/secret_backup_restore.py:700-736 | In any accepted archive members, checksums and inventory coincide exactly, every document is valid, and what is restored is the inventory and those documents with the contents they have in the archive |
| VaultArchive.ChecksumsPinContents | scripts/secret_backup_restore.py:715-723 | Two accepted archives with the same checksum document are the same archive, or exhibit a member with two contents of one digest |
| VaultArchive.BackupRestoresIff | scripts/secret_backup_restore.py:478-736 | A backup passes preflight and validation if and only if its counts and sizes are within the limits and its names fit on a line, and then restores the vault it was made from |
| VaultArchive.StandardSetting | scripts/secret_backup_restore.py:35-39 | The names the script uses meet the assumptions the archive proofs make of names |
| VaultChecks.SafeNameIff | scripts/secret_backup_restore.py:130-141 | A name is accepted if and only if it has no backslash and is `.` or made of components none of which is empty, `.` or `..` |
| VaultChecks.LineIsEntryIff | scripts/secret_backup_restore.py:686-691 | A line is an entry if and only if it is 64 lower-case hexadecimal digits, two spaces and a safe name on one line that is not the document itself |
| VaultChecks.ParsedLists | scripts/secret_backup_restore.py:685-697 | The parser returns exactly what the lines list, and refuses only a line that is no entry or a name that comes twice |
| VaultChecks.PreflightIff | scripts/secret_backup_restore.py:608-645 | Preflight accepts exactly 1 to 10000 regular members with safe, expected and distinct names, of at most 512 MiB together, the three metadata files among them |
| VaultChecks.CheckedIff | scripts/secret_backup_restore.py:478-505 | A set of paths is taken for a backup if and only if the inventory lists exactly these paths and every document at them is valid |
| VaultChecks.BackupMadeIff | scripts/secret_backup_restore.py:478-510 | With paths that are inventoried and valid a backup is made if and only if every name in it is ASCII |
| VaultChecks.BackupNeedsPaths | scripts/secret_backup_restore.py:478-505 | No backup is made unless the inventory lists exactly the documents of the vault, each safe, small and valid under the policy |
| VaultSamples.BackedUpButRefused | scripts/secret_backup_restore.py:478-736 | With any document name that the inventory accepts and that does not fit on a line, the backup succeeds and is then refused |
| VaultSamples.LineBreakRefused | scripts/secret_backup_restore.py:478-736 | There is such a name: a line break before the suffix |
| KnowledgeContext.SanitizeClears | services/research-orchestrator/app/knowledge_manager.py:1124-1132 | Sanitized text holds none of the four delimiters |
| KnowledgeContext.SanitizeIdempotent | services/research-orchestrator/app/knowledge_manager.py:1124-1132 | Sanitizing twice is sanitizing once |
| KnowledgeContext.CleanTextKept | services/research-orchestrator/app/knowledge_manager.py:1124-1132 | Text without any delimiter is only stripped |
| KnowledgeContext.RulesAre | services/research-orchestrator/app/knowledge_manager.py:1128-1131 | The four delimiters and what each is replaced by |
| KnowledgeContext.AttributesAre | services/research-orchestrator/app/knowledge_manager.py:1109-1119 | Under which attribute each field of an entry is printed, and the defaults |
| KnowledgeContext.FirstMatchExists | services/research-orchestrator/app/citation_locator.py:29-32 | Where the expression matches anywhere there is a leftmost shortest match, so the search stops only when there is none |
| KnowledgeContext.JoinedParsed | services/research-orchestrator/app/citation_locator.py:55-68 | Any number of blocks whose bodies lack the closing tag and whose attributes lack `>` are found again, in order |
| KnowledgeContext.ContextRoundTrip | services/research-orchestrator/app/knowledge_manager.py:1095-1121 | If no printed attribute holds a `>`, parsing the rendered context gives one block per entry, in order, each the sanitized text between newlines |
| KnowledgeContext.ContextRoundTripIff | services/research-orchestrator/app/knowledge_manager.py:1095-1121 | Where no printed attribute holds a whole closing tag, the round trip succeeds if and only if none holds a `>` |
| KnowledgeContext.AngleUnnoticed | services/research-orchestrator/app/citation_locator.py:29-32 | An attribute that holds a copy of the block text and a closing tag goes unnoticed in spite of its `>` |
| CitationLocator.VerbatimPassesFilter | services/research-orchestrator/app/citation_locator.py:76-89 | A block that verifies the excerpt passes the 36-character prefix filter |
| CitationLocator.MatchIsScan | services/research-orchestrator/app/citation_locator.py:106-129 | For an excerpt with an alphanumeric the matched block is the first that verifies it, classified exact |
| CitationLocator.NotExactIffScanFails | services/research-orchestrator/app/citation_locator.py:106-144 | The match is exact if and only if some block verifies the excerpt |
| CitationLocator.AgreesIffAlphanumeric | services/research-orchestrator/app/citation_locator.py:92-129 | The lookup agrees with the exhaustive scan, whatever the source index, if and only if the excerpt has an ASCII alphanumeric |
| CitationLocator.PunctuationNotLocated | services/research-orchestrator/app/citation_locator.py:92-129 | A question mark verifies in a block and is not located |
| CitationLocator.PrefixIs | services/research-orchestrator/app/citation_locator.py:71-89 | What is looked for is the first 36 ASCII letters and digits of the excerpt |
| CitationLocator.CandidateIff | services/research-orchestrator/app/citation_locator.py:75-86 | A block is a candidate if and only if the excerpt has an ASCII letter or digit and the letters and digits of the block hold what is looked for |
| CitationLocator.FuzzyLocated | services/research-orchestrator/app/citation_locator.py:106-129 | If no block verifies the excerpt, the first block that holds what is looked for is located, as a fuzzy match |
| CitationLocator.RankLocates | services/research-orchestrator/app/citation_locator.py:119-129 | Without such a block the claimed rank decides, counted from one, and out of range nothing is located |
| CitationLocator.ClassifiedIff | services/research-orchestrator/app/citation_locator.py:132-144 | When a match is exact and when it is fuzzy |
| CitationLocator.SliceVerifies | services/research-orchestrator/app/knowledge_manager.py:57-69 | A slice of a block, however its whitespace is wrapped anew, verifies in the block if and only if it is not blank |
| CitationLocator.QuotationLocated | services/research-orchestrator/app/citation_locator.py:106-144 | A quotation of a supplied entry is located in the first block that verifies it and classified exact, through rendering and parsing |
| Text.CollapseIdempotent | services/research-orchestrator/app/knowledge_manager.py:403-410 | Collapsing whitespace twice is collapsing it once |
| Text.CollapseIsWords | services/research-orchestrator/app/knowledge_manager.py:57-69 | Collapsing a text joins its words by single spaces |
| Text.ReplaceOne | services/research-orchestrator/app/knowledge_manager.py:1128-1131 | Replacing keeps the text up to the first occurrence, replaces it, and goes on behind it |
| Chunking.ChunkText | services/research-orchestrator/app/knowledge_manager.py:1209-1234 | The chunker refuses bad sizes and otherwise returns the trimmed texts of the windows |
| Chunking.WindowsTile | services/research-orchestrator/app/knowledge_manager.py:1219-1233 | The windows begin and end with the text, none is longer than the chunk size, each begins after the previous began and no later than it ended, neighbours share at most the overlap, and a cut is at a space unless there is none |
| Chunking.WindowsCover | services/research-orchestrator/app/knowledge_manager.py:1219-1233 | Every character of the normalized text is in some window |
| Chunking.ChunkShape | services/research-orchestrator/app/knowledge_manager.py:1209-1234 | Every chunk is a non-empty trimmed part of the normalized text, no longer than the chunk size |
| Chunking.NormalizedChunksAlike | services/research-orchestrator/app/knowledge_manager.py:403-410 | Normalized text gives the chunks of the text it was made from |
| Chunking.StoredSource.Rechunk | services/research-orchestrator/app/knowledge_manager.py:394-429 | Rebuilding from the stored normalized text leaves the chunks as they were; without one the chunks are those of the text reconstructed from them |
| Chunking.Rejoin | services/research-orchestrator/app/knowledge_manager.py:405-428 | The reconstruction: each chunk without the longest end, within the limit, that it shares with what went before, joined by spaces |
| Chunking.RejoinedOnce | services/research-orchestrator/app/knowledge_manager.py:405-428 | What is reconstructed is determined by the chunks |
| Chunking.LongestSharedIff | services/research-orchestrator/app/knowledge_manager.py:418-423 | What is cut off is the longest common end and beginning of at most three overlaps |
| Chunking.RepeatedDropped | services/research-orchestrator/app/knowledge_manager.py:415-427 | A chunk within the limit that the part before ends with adds nothing |
| Chunking.OneChunkRejoined | services/research-orchestrator/app/knowledge_manager.py:405-428 | A source of one chunk is reconstructed exactly |
| Chunking.RejoinedGrows | services/research-orchestrator/app/knowledge_manager.py:362-365 | Two chunks stored without overlap are rejoined by a space, so the reconstruction need not be the text they were cut from |
| Chunking.StoredSource.RebuildTimes | services/research-orchestrator/app/knowledge_manager.py:383-392 | Rebuilding any number of times leaves the chunks as they were |
| PacketSelection.Diversify | services/research-orchestrator/app/knowledge_manager.py:1054-1072 | The selection is the best entries of each source, up to the cap, and of these as many as the packet holds |
| PacketSelection.DiversifiedCaps | services/research-orchestrator/app/knowledge_manager.py:1054-1072 | Both caps are respected, and a packet that is not full has as many entries of every source as there are or the cap allows |
| PacketSelection.TakenIff | services/research-orchestrator/app/knowledge_manager.py:1061-1071 | An entry is taken if and only if fewer than the cap of the better ones are of its source, which is its identifier or, without one, its uri |
| PacketSelection.PacketIsFront | services/research-orchestrator/app/knowledge_manager.py:1061-1072 | The packet is as much of the front of the entries so taken as the limit allows |
| PacketSelection.DiversifiedIdempotent | services/research-orchestrator/app/knowledge_manager.py:1054-1072 | Selecting from a selection changes nothing |
| PacketSelection.EnforceTokenBudget | services/research-orchestrator/app/knowledge_manager.py:1074-1089 | Whole entries within the budget, such that every other choice within it first differs by leaving out an entry that is admitted here |
| PacketSelection.PreferredUnique | services/research-orchestrator/app/knowledge_manager.py:1074-1089 | There is only one such choice |
| PacketSelection.AppendedDisplacesNothing | services/research-orchestrator/app/knowledge_manager.py:581-619 | Entries appended after the ranking, as pinned sources are, displace none of it |
| PacketSelection.AllAdmittedIff | services/research-orchestrator/app/knowledge_manager.py:1074-1089 | Every entry is admitted if and only if all fit together |
| PacketSelection.RefusedOverflows | services/research-orchestrator/app/knowledge_manager.py:1074-1089 | Every refused entry would overflow the budget beside what was admitted |
| PacketSelection.LargerByLessThanRefused | services/research-orchestrator/app/knowledge_manager.py:1074-1089 | No affordable choice is larger than the admitted one by as much as the smallest refused entry |
| PacketSelection.LargestIff | services/research-orchestrator/app/knowledge_manager.py:575-578 | Under every budget the admitted entries have the most tokens, if and only if taking an entry first never leaves a gap that later entries could have filled |
| PacketSelection.EqualSizesExchangeable | services/research-orchestrator/app/knowledge_manager.py:575-578 | Entries of equal size never leave such a gap |
| PacketSelection.FullIsLargest | services/research-orchestrator/app/knowledge_manager.py:575-578 | Whatever the sizes, a choice that takes everything or uses the budget up has the most tokens |
| PacketSelection.NotTheLargest | services/research-orchestrator/app/knowledge_manager.py:575-578 | A concrete ranking and budget for which it has not |
| Chunking.StoredSource.Recommit | services/research-orchestrator/app/knowledge_manager.py:355-365 | Committing a text again stores its chunks and the normalized text that reproduces them |
| Evidence.VisibleArtifacts | services/research-orchestrator/app/evidence.py:261-291 | The artifacts of the phase in order, and of all comparisons only the newest authoritative one |
| EvidenceOrder.NewestIsLatest | services/research-orchestrator/app/evidence.py:266-277 | The newest comparison is authoritative, and no authoritative one was created later, or at the same time with a greater id |
| EvidenceOrder.VisibleIff | services/research-orchestrator/app/evidence.py:278-291 | A phase shows exactly the file names it allows and, of all comparisons, the authoritative one than which none is later |
| EvidenceOrder.SupersededHidden | services/research-orchestrator/app/evidence.py:261-291 | A comparison created strictly before another is never shown |
| Evidence.PhaseNamesHaveTiers | services/research-orchestrator/app/evidence.py:30-48 | Every file name a phase can show falls in some drop tier |
| Evidence.CollectContents | services/research-orchestrator/app/evidence.py:311-330 | Every readable artifact has its entry, in order; content goes with the first of its digest and type, later ones refer to that; with distinct paths no reference dangles and the dependents table is exact |
| Evidence.CandidatesOrdered | services/research-orchestrator/app/evidence.py:168-214 | The candidates come tier by tier, evaluator output last |
| Evidence.CandidatesCover | services/research-orchestrator/app/evidence.py:168-214 | Every entry has a turn, and every turn of the inventory and the jobs an entry |
| EvidenceOrder.CandidatesInOrder | services/research-orchestrator/app/evidence.py:168-214 | Logs and tables, the inventory, the jobs, status and report, evaluator output, each group by location or id |
| Evidence.EvidenceSnapshot.DropContentEntry | services/research-orchestrator/app/evidence.py:228-258 | Removes the first entry of a name and then its dependents, each looked up afresh |
| Evidence.EvidenceSnapshot.TakeTurn | services/research-orchestrator/app/evidence.py:345-366 | What one candidate takes away and adds to the dropped list; conservation, distinctness, references and protection of evaluator output are kept |
| Evidence.EvidenceSnapshot.Trim | services/research-orchestrator/app/evidence.py:336-366 | Takes the shortest prefix of the candidates after which the snapshot fits, or all of them; what is missing is exactly what is recorded |
| Evidence.MeasuredWithNote | services/research-orchestrator/app/evidence.py:217-225 | While it is trimmed a snapshot is measured with a note of the first 25 things dropped and their number, and without a note before anything is dropped |
| Evidence.EvidenceSnapshot.AddNote | services/research-orchestrator/app/evidence.py:367-382 | The note lists a prefix of what was dropped and accounts for the rest; it is shortened only while the snapshot does not fit |
| Evidence.GatherSnapshot | services/research-orchestrator/app/evidence.py:301-335 | Before trimming the snapshot shows all visible artifacts and their excerpts, consistently |
| Evidence.BuildEvidenceSnapshot | services/research-orchestrator/app/evidence.py:294-387 | The result is within the budget or down to its floor; it is the gathered snapshot less the fewest candidates; dropped references are duplicate-free and exactly the removed; no reference dangles; evaluator output goes last |
| Evidence.BudgetHolds | services/research-orchestrator/app/evidence.py:383-387 | A budget that the empty snapshot fits, with a note that counts no more than there are jobs and artifacts, is never exceeded |
| Evidence.OverBudgetIsFloor | services/research-orchestrator/app/evidence.py:367-387 | The only result over the budget is the empty snapshot with a note of nothing but the number of everything there was |
| ComparisonInputs.LatestIsGreatest | services/research-orchestrator/app/comparison_checks.py:69 | No job is newer than the one that names the newest wave |
| ComparisonEvidence.WaveIff | services/research-orchestrator/app/comparison_checks.py:59-73 | The wave is exactly the jobs of the action of the job created last, by id |
| ComparisonInputs.WavePermuted | services/research-orchestrator/app/comparison_checks.py:59-73 | The newest wave is the same list for every order of the jobs |
| ComparisonInputs.OlderWaveIgnored | services/research-orchestrator/app/comparison_checks.py:59-73 | Adding jobs of superseded waves does not change the newest wave |
| ComparisonInputs.EvaluationArtifactsByJob | services/research-orchestrator/app/comparison_checks.py:171-183 | Each job with evaluation artifacts has them, sorted by location and digest; no other job is listed |
| ComparisonInputs.EvaluationsPermuted | services/research-orchestrator/app/comparison_checks.py:171-183 | A job has the same list of evaluations for every order of the artifacts |
| ComparisonInputs.Fingerprint | services/research-orchestrator/app/comparison_checks.py:76-99 | The digest of one line per job of the newest wave with its sorted evaluation digests |
| ComparisonInputs.FingerprintStable | services/research-orchestrator/app/comparison_checks.py:76-99 | The fingerprint depends on nothing but the newest wave and the collection of artifacts |
| ComparisonEvidence.LineIs | services/research-orchestrator/app/comparison_checks.py:92-98 | The line of a job in the fingerprint |
| ComparisonVerdict.OutcomePasses | services/research-orchestrator/app/comparison_checks.py:332-375 | A job passes if and only if it succeeded with a readable, contract-matched, passing evaluation that carries the metric; otherwise, and only then, a reason is given |
| ComparisonEvidence.EvaluationPassesIff | services/research-orchestrator/app/comparison_checks.py:120-142 | An evaluation passes if and only if its `integrity_pass` is true or, without one, it has checks and every one of them is true or a mapping whose first pass key is true |
| ComparisonEvidence.OneFailedCheck | services/research-orchestrator/app/comparison_checks.py:120-142 | One check that is false, a text, a number, a list or nothing keeps the evaluation from passing |
| ComparisonEvidence.MixedChecksFail | services/research-orchestrator/app/comparison_checks.py:137-139 | A passed and a failed check do not pass |
| ComparisonEvidence.ReasonIs | services/research-orchestrator/app/comparison_checks.py:332-375 | Which reason a job is given, case by case; it passes if and only if it is given none |
| ComparisonEvidence.MetricIs | services/research-orchestrator/app/comparison_checks.py:298-329 | Which shape of the evaluation gives the primary metric |
| ComparisonEvidence.DocumentIs | services/research-orchestrator/app/comparison_checks.py:363-375 | What the document of a job says |
| ComparisonEvidence.AttestedKeyIs | services/research-orchestrator/app/comparison_checks.py:204-234 | An attested key is a text that is not blank |
| ComparisonEvidence.ComparedValueIs | services/research-orchestrator/app/comparison_checks.py:162-168 | Which overrides are compared, and as what text |
| ComparisonVerdict.BuildValueIndex | services/research-orchestrator/app/comparison_checks.py:186-201 | The participating jobs in order, the values in order of appearance, and for each value exactly its jobs |
| ComparisonVerdict.ComparisonKeyReasons | services/research-orchestrator/app/comparison_checks.py:204-234 | Missing or different comparison keys are reported, missing ones first |
| ComparisonVerdict.KeyReasonsIff | services/research-orchestrator/app/comparison_checks.py:204-234 | There is no key reason if and only if one key is attested by every compared job |
| ComparisonVerdict.ProtocolReasonsIff | services/research-orchestrator/app/comparison_checks.py:261-287 | There is no protocol reason if and only if the compared jobs are bound to the run contract and differ in nothing but the compared path |
| ComparisonVerdict.SeedReasonsIff | services/research-orchestrator/app/comparison_checks.py:288-293 | There is no seed reason if and only if all values have the same seeds |
| ComparisonVerdict.ComparableIff | services/research-orchestrator/app/comparison_checks.py:237-295 | No reason is given if and only if the value count is within bounds and protocol, seeds and key are shared |
| ComparisonEvidence.ReasonGivenIff | services/research-orchestrator/app/comparison_checks.py:204-295 | Each reason against a requirement is given if and only if the case it names applies |
| ComparisonReport.BuildValueDocument | services/research-orchestrator/app/comparison.py:77-105 | The document of a value: its jobs in order, satisfied if one passes, a reason for each that does not |
| ComparisonReport.RequirementSatisfiedIff | services/research-orchestrator/app/comparison.py:108-130 | A requirement is satisfied if and only if the comparison is sound: count, contract, base config, other overrides, seeds, key, and a passing job for every value |
| ComparisonReport.CollectReasons | services/research-orchestrator/app/comparison.py:188-198 | The reasons of the report, requirement by requirement and value by value |
| ComparisonEvidence.ReportReasonsAre | services/research-orchestrator/app/comparison.py:188-198 | Each reason in the report stands in the document it names, and each reason of a document in the report |
| ComparisonEvidence.ValueReasonsAre | services/research-orchestrator/app/comparison.py:191-198 | A value reason is reported if and only if it is that of an unsatisfied value |
| ComparisonEvidence.ValueDocumentIs | services/research-orchestrator/app/comparison.py:77-105 | The document of a value has its jobs by id, and the closing reason if and only if none passes |
| ComparisonEvidence.RequirementDocumentIs | services/research-orchestrator/app/comparison.py:108-130 | The document of a requirement has the compared values in text order |
| ComparisonEvidence.EvidenceIsFirst | services/research-orchestrator/app/comparison.py:65-74 | The evidence of a job is its first evaluation artifact by location and digest |
| ComparisonEvidence.ReportGivenIff | services/research-orchestrator/app/comparison.py:141-162 | There is a report if and only if the contract compares across jobs |
| ComparisonEvidence.ReportDocumentsAre | services/research-orchestrator/app/comparison.py:150-187 | The report has the documents of its across_jobs comparisons, by id |
| ComparisonReport.BuildReport | services/research-orchestrator/app/comparison.py:133-212 | The report of the newest wave, or none unless the contract compares across jobs |
| ComparisonReport.SatisfiedIffNoReasons | services/research-orchestrator/app/comparison.py:184-212 | In every report satisfied holds if and only if there are no reasons |
| ComparisonReport.SatisfiedIffSound | services/research-orchestrator/app/comparison.py:108-130 | A report is satisfied if and only if every across_jobs requirement of the contract is soundly compared |
| ComparisonReport.ReportDeterministic | services/research-orchestrator/app/comparison.py:133-212 | Report and fingerprint are unchanged by permuting jobs and artifacts and by adding superseded waves |
| MethodologyRepair.PlaceholderValues | services/research-orchestrator/app/methodology_config.py:169-185 | The search ends with the first candidates that are not taken |
| MethodologyRepair.PlaceholdersNew | services/research-orchestrator/app/methodology_config.py:169-185 | Placeholders are distinct, not among the existing values, and of the leaf-candidate form |
| MethodologyRepair.BaseConfig.EnsureRequirement | services/research-orchestrator/app/methodology_config.py:93-166 | What one requirement writes at its path and what it reports as inserted |
| MethodologyRepair.BaseConfig.Repair | services/research-orchestrator/app/methodology_config.py:40-76 | One pass in order: the resulting configuration, whether anything changed, and the placeholders reported |
| MethodologyReport.AcrossHolds | services/research-orchestrator/app/methodology_config.py:144-166 | An across_jobs path holds afterwards the one reported placeholder, the first item of a list, or what it held |
| MethodologyReport.ListHolds | services/research-orchestrator/app/methodology_config.py:112-142 | Any other path holds afterwards what it held and then the reported names, as many as were missing |
| MethodologyReport.PlaceholdersFirst | services/research-orchestrator/app/methodology_config.py:169-185 | The placeholders are the candidates of least number that are not taken, in order |
| MethodologyReport.InsertedHeld | services/research-orchestrator/app/methodology_config.py:93-166 | Every name reported for a requirement is in the value at its path |
| MethodologyReport.ReportedHeld | services/research-orchestrator/app/methodology_config.py:40-76 | Every name that a pass reports is at its path afterwards, unless an across_jobs requirement at the path came later |
| MethodologyReport.MetIff | services/research-orchestrator/app/preflight.py:1042-1093 | When a requirement is met |
| MethodologyRepair.GetPutElsewhere | services/research-orchestrator/app/methodology_config.py:98-107 | A write leaves every incomparable path as it was |
| MethodologyConvergence.FixedList | services/research-orchestrator/app/methodology_config.py:121-142 | A value list is topped up to its minimum and keeps the old values in front |
| MethodologyConvergence.RepairMeetsIff | services/research-orchestrator/app/methodology_config.py:40-166 | One pass satisfies every requirement at once if and only if the requirements agree with each other and the values found suit them |
| MethodologyConvergence.SatisfiableIff | services/research-orchestrator/app/preflight.py:1042-1093 | Some base configuration satisfies all requirements if and only if they agree, and then the repair of an absent file is one |
| MethodologyConvergence.RepairIsFinal | services/research-orchestrator/app/methodology_config.py:10-16 | After a pass that satisfied everything the next pass changes nothing and reports no change |
| MethodologyConvergence.NestedNeverSettles | services/research-orchestrator/app/methodology_config.py:98-105 | With one required path beneath another every pass over every file reports a change |
| MethodologyConvergence.ExistingSurvives | services/research-orchestrator/app/methodology_config.py:121-166 | Existing values survive as a prefix of the repaired list; an across_jobs path keeps its first |
| MethodologyConvergence.UnrelatedUntouched | services/research-orchestrator/app/methodology_config.py:12-12 | A path that no required path meets is left exactly as it was |
| MethodologyValidation.OverlapIssues | services/research-orchestrator/app/methodology_requirement_validation.py:164-200 | An overlap is reported for exactly the pairs of an across_jobs comparison and another comparison on overlapping paths |
| MethodologyValidation.AcrossCountIssues | services/research-orchestrator/app/methodology_requirement_validation.py:131-151 | Reported if and only if more than one across_jobs comparison is declared |
| MethodologyValidation.ValidateRequirements | services/research-orchestrator/app/methodology_requirement_validation.py:229-247 | No error is found if and only if every requirement is well declared, identifiers are distinct, and no across_jobs comparison clashes |
| MethodologyValidation.PathOkIff | services/research-orchestrator/app/methodology_requirement_validation.py:36-80 | No error is found in a path if and only if it is dotted, beneath the root and without blank components |
| MethodologyValidation.ModeOkIff | services/research-orchestrator/app/methodology_requirement_validation.py:83-128 | When counts and scope of a requirement are as its mode demands |
| MethodologyValidation.AcceptedSatisfiableIff | services/research-orchestrator/app/methodology_requirement_validation.py:164-200 | An accepted list is satisfiable if and only if no required path lies beneath another and equal paths agree on their bounds, and the repair then satisfies it from every suitable file |
| MethodologyValidation.GuardMissesNesting | services/research-orchestrator/app/methodology_requirement_validation.py:172-174 | Two within_job comparisons on nested paths are accepted, no configuration satisfies both, and every repair pass rewrites the file |
| MethodologyValidation.ProgramGuardMissesNesting | services/research-orchestrator/app/methodology_requirement_validation.py:172-174 | So it is with the root that the validator demands |
| ContractDigest.ComputeDigest | services/research-orchestrator/app/contracts.py:38-69 | The digest of a tree for any order in which its files are listed, and an error on a tree without content |
| ContractDigest.StreamInjective | services/research-orchestrator/app/contracts.py:62-68 | The framed bytes determine the list of paths and contents, for lengths that eight bytes can carry |
| ContractDigest.StreamDeterminesTree | services/research-orchestrator/app/contracts.py:38-69 | Two trees feed the hash the same bytes if and only if their hashed files are the same |
| ContractDigest.UnhashedFileIgnored | services/research-orchestrator/app/contracts.py:42-54 | Writing the checksum file, or any other file that is not hashed, never changes the digest |
| ContractEffects.IgnorableKeepsDigest | services/research-orchestrator/app/contracts.py:42-54 | Writing the checksum file, anything in a bytecode cache, or bytecode by its suffix never changes the digest |
| ContractEffects.OtherFilesCount | services/research-orchestrator/app/contracts.py:42-68 | Writing or changing any other file always changes the bytes that are hashed |
| ContractEffects.DigestNeedsContent | services/research-orchestrator/app/contracts.py:55-56 | A tree has a digest if and only if it has a file that counts |
| ContractEffects.BigEndianIs | services/research-orchestrator/app/contracts.py:65-67 | The length prefix is the number with its most significant byte first |
| ContractOverrides.PassesIffNoOverride | services/research-orchestrator/app/contracts.py:158-170 | Arguments pass if and only if no path through their mappings and lists, however deep, leads to a forbidden key |
| ContractOverrides.ContractOverridesRefused | services/research-orchestrator/app/contracts.py:142-170 | With the forbidden keys themselves, compared without case and surrounding white space |
| ContractOverrides.EvaluatorRefused | services/research-orchestrator/app/contracts.py:142-170 | A key that is `evaluator` but for case and white space is refused beneath a list, with its path |
| ContractOverrides.RefusalNamesOverride | services/research-orchestrator/app/contracts.py:163-170 | The path a refusal names leads from the arguments to a forbidden key |
| ContractOverrides.NestedStillRefused | services/research-orchestrator/app/contracts.py:167-170 | What is refused alone is refused inside any mapping, at whatever path |
| ContractDigest.CopyKeepsStreamIff | services/research-orchestrator/app/contract_candidates.py:520-526 | A copy that ignores bytecode keeps the hashed bytes if and only if nothing that is hashed is ignored |
| ContractStore.ContractManager.Seal | services/research-orchestrator/app/contract_candidates.py:286-333 | The new sealed area and the result: the tree is filed under its own digest, and an earlier seal stays |
| ContractStore.ContractManager.VerifySeal | services/research-orchestrator/app/contract_candidates.py:335-353 | Tree, checksum file and expected digest agree, or a refusal |
| ContractStore.ContractManager.Promote | services/research-orchestrator/app/contract_candidates.py:445-487 | The new store and the result of a promotion, errors after the copy included |
| ContractStore.ContractManager.Install | services/research-orchestrator/app/contract_candidates.py:489-535 | The new store and the result of an installation |
| ContractEffects.SealsIff | services/research-orchestrator/app/contract_candidates.py:286-312 | Sealing succeeds if and only if the source is reviewable, described and valid and its copy has content |
| ContractEffects.SealLeaves | services/research-orchestrator/app/contract_candidates.py:300-333 | What a seal leaves behind |
| ContractEffects.PromotesIff | services/research-orchestrator/app/contract_candidates.py:445-487 | Promotion succeeds if and only if the seal verifies, its schema is found and the destination can take it, and then the tree and its catalog entry are in place |
| ContractEffects.InstallsIff | services/research-orchestrator/app/contract_candidates.py:489-535 | Installation succeeds if and only if the source is described and valid, has its own digest and the destination can take it, and then the copy and its catalog entry are in place |
| ContractEffects.VerifiesIff | services/research-orchestrator/app/contract_candidates.py:335-353 | When a seal verifies |
| ContractStore.PromotedNeverChanges | services/research-orchestrator/app/contract_candidates.py:445-575 | Over any run of seals, promotions, installations and tampering with the sealed area a promoted id and version keeps its tree |
| ContractStore.CatalogStaysSound | services/research-orchestrator/app/contract_candidates.py:537-575 | Over any such run with faithful installs every catalog entry has its own key and the digest of the tree it points to |
| ContractStore.SealsStaySound | services/research-orchestrator/app/contract_candidates.py:310-327 | Without tampering every seal is filed under the digest of its tree and of its checksum file |
| ContractStore.SealVerifiesIff | services/research-orchestrator/app/contract_candidates.py:335-353 | A sound seal verifies against its own digest and no other |
| ContractStore.SealIdempotent | services/research-orchestrator/app/contract_candidates.py:316-322 | Sealing the same source again finds the first seal and changes nothing |
| ContractReferences.SafeIsLocated | services/research-orchestrator/app/contracts.py:28-35 | A file named by a plain relative path is found there by the check before sealing and by resolution, wherever the bundle lies |
| ContractReferences.CopyHoldsIff | services/research-orchestrator/app/contract_candidates.py:245-258 | Of a source that holds every file its descriptor names, the copy that ignores bytecode still holds them all if and only if they are named by plain relative paths that the copy keeps |
| ContractEffects.CopiedIff | services/research-orchestrator/app/contract_candidates.py:305-309 | A copy leaves out a file if and only if some component of its path is a cache or ends in `.pyc` |
| ContractEffects.SafeFieldIff | services/research-orchestrator/app/contracts.py:28-35 | Which fields name a file by a plain relative path, and which components it has |
| ContractEffects.ResolvesIff | services/research-orchestrator/app/contracts.py:84-139 | Resolution succeeds, and with which digest, if and only if the bundle describes itself, holds its files and has its digest |
| ContractResolution.PinnedResolves | services/research-orchestrator/app/contracts.py:106-132 | A bundle that is in place resolves to its digest if and only if it holds every file its descriptor names, and is refused for that alone otherwise |
| ContractResolution.CataloguedResolvesIff | services/research-orchestrator/app/contracts.py:84-139 | After any run of seals, promotions, faithful installs and tampering a catalogued bundle resolves to the digest the catalog gives it, if and only if it holds every file its descriptor names |
| ContractResolution.CandidateResolvesIff | services/research-orchestrator/app/contract_candidates.py:286-487 | A candidate newly sealed and promoted resolves at any later time, to the digest it was sealed with, if and only if its descriptor names its files by plain relative paths that sealing copies |
| ContractResolution.PortableRunsResolve | services/research-orchestrator/app/contracts.py:84-139 | If every descriptor that comes in is portable, every catalogued bundle resolves after any run |
| ContractResolution.InstallSoundIff | services/research-orchestrator/app/contract_candidates.py:518-534 | A first installation leaves the catalog in agreement with the installed tree if and only if the copy dropped nothing that was hashed, unless the two hashed streams collide |
| ContractResolution.InstalledResolvesIff | services/research-orchestrator/app/contract_candidates.py:489-535 | A bundle newly installed resolves at any later time if and only if the copy dropped nothing that was hashed and nothing its descriptor names |
| ContractSamples.PromotedButNotResolved | services/research-orchestrator/app/contracts.py:114-125 | A candidate whose wrapper is called `run.pyc` is sealed, promoted and catalogued, and then refused by resolution |
| ContractSamples.InstalledButUnsound | services/research-orchestrator/app/contract_candidates.py:518-534 | A repository contract with a module beneath a directory called `a.pyc` is installed and catalogued under a digest that the installed tree does not have |
| SemanticVersion.ParsePrint | services/research-orchestrator/app/contract_candidates.py:45-45 | A printed version parses back into its three numbers |
| SemanticVersion.ParsesIff | services/research-orchestrator/app/contract_candidates.py:45-45 | A version is semantic if and only if it is three numbers separated by dots and perhaps a label |
| SemanticVersion.BumpedSemantic | services/research-orchestrator/app/contract_candidates.py:48-55 | A semantic version can be bumped any number of times and the patch counts the bumps |
| SemanticVersion.BumpedDistinct | services/research-orchestrator/app/contract_candidates.py:48-55 | No version comes back, however often it is bumped |
| VersionAllocation.Reservations.AllocateVersion | services/research-orchestrator/app/contract_candidates.py:355-387 | A run gets its recorded reservation back; otherwise the first free version from the requested one on is reserved; the only failure is an occupied version that is not semantic |
| Order.StrLeqIff | services/research-orchestrator/app/contract_candidates.py:396-396 | Texts are ordered by the character at their first difference, a prefix first |
| VersionAllocation.FreeVersion | services/research-orchestrator/app/contract_candidates.py:373-387 | The bump loop ends, with the fewest bumps that reach a free version |
| VersionAllocation.PlaySound | services/research-orchestrator/app/contract_candidates.py:355-387 | However the steps of any calls are interleaved, a claimed directory is one caller's alone and markers are never overwritten |
| VersionAllocation.NoSharedVersion | services/research-orchestrator/app/contract_candidates.py:366-386 | No version is reserved by two runs, over every interleaving and every crash |
| VersionAllocation.RecordedIsReturned | services/research-orchestrator/app/contract_candidates.py:392-404 | Once a run has a reservation every later call is given one that the run has, at any later time |
| VersionAllocation.BumpsBounded | services/research-orchestrator/app/contract_candidates.py:375-387 | A call bumps at most as often as there are occupied versions |
| VersionAllocation.OneVersionPerRun | services/research-orchestrator/app/contract_candidates.py:362-368 | If calls of one run do not overlap, crashes included, no run ever holds two versions |
| VersionAllocation.OverlapReservesTwice | services/research-orchestrator/app/contract_candidates.py:370-386 | Two overlapping calls of one run leave it with two versions |
| VersionOverlap.TwoVersionsIff | services/research-orchestrator/app/contract_candidates.py:366-386 | Over every interleaving and every crash, a run of which there was nothing yet ends with two versions if and only if one of its calls looked before another wrote its marker, and wrote its own marker afterwards |
| VersionOverlap.AloneReservesFirstFree | services/research-orchestrator/app/contract_candidates.py:355-387 | The steps of a call that nothing disturbs do what the undisturbed method does: they reserve the first version from the requested one on that is neither promoted nor reserved |
| YamlKeys.SignatureBuilder.Build | scripts/check-credential-hygiene.py:229-256 | The computation on a shared active set ends on every finite graph, cycles included, and returns the structural signature |
| YamlKeys.KeyValidator.Validate | scripts/check-credential-hygiene.py:259-275 | The depth-first search with a shared visited set ends; without an error everything it newly visited is explored and free of duplicates, and an error names a reachable duplicate |
| YamlKeys.CheckDocument | scripts/check-credential-hygiene.py:259-275 | An error is raised if and only if some mapping reachable from the root has two keys with equal signatures, and its line is that of such a key |
| YamlKeys.ClashIffAlike | scripts/check-credential-hygiene.py:229-256 | Two keys from which no cycle is reachable clash if and only if their unfoldings agree at every depth |
| YamlKeys.MarkerIffCycle | scripts/check-credential-hygiene.py:233-234 | The alias-cycle marker appears in a signature if and only if a cycle is reachable from the key |
| YamlKeys.ChildrenAre | scripts/check-credential-hygiene.py:267-275 | The children of a node are the items of a sequence and the keys and values of a mapping |
| Base64Url.DecodeEncode | services/research-orchestrator/app/links.py:87-101 | Decoding undoes encoding for all byte strings, and the encoder's spelling is canonical |
| Base64Url.EncodeDecodeIff | services/research-orchestrator/app/links.py:91-101 | Encoding undoes decoding if and only if the spelling leaves the unused bits zero |
| Base64Url.SpellingsIff | services/research-orchestrator/app/links.py:91-101 | Two spellings of one length decode alike if and only if they differ in no bit that carries a byte |
| Base64Url.Alphabet | services/research-orchestrator/app/links.py:87-101 | The URL-safe alphabet |
| Base64Url.SameNumber | services/research-orchestrator/app/links.py:87-88 | Three bytes and their four sextets are one number |
| Links.RefOkIff | services/research-orchestrator/app/links.py:116-145 | A ref that is no packet citation is accepted if and only if it is printable and either `.` or made of components none of which is empty, `.` or `..` |
| Links.PacketRefIff | services/research-orchestrator/app/links.py:130-134 | A packet citation is accepted if and only if its id is 1 to 64 letters, digits, `.`, `_` or `-` |
| Links.NamesAre | services/research-orchestrator/app/links.py:104-113 | Run ids have 8 to 64 such characters, key ids 1 to 32 |
| Links.PrintableIff | services/research-orchestrator/app/links.py:120-128 | A ref has no control character, no backslash and no percent sign |
| Links.PayloadTextIs | services/research-orchestrator/app/links.py:162-175 | The lines of a payload, in their order |
| Links.PayloadInjective | services/research-orchestrator/app/links.py:162-175 | The joined text determines every field of a valid payload |
| Links.SignsIff | services/research-orchestrator/app/links.py:186-218 | Signing succeeds if and only if there is a secret and kind, run id, ref and key id are valid |
| Links.VerifySigned | services/research-orchestrator/app/links.py:186-274 | Verifying a signed link at any time returns its payload, unless the token is too long, the key id is not accepted or the link has expired, and says which |
| Links.LinkRoundTrip | services/research-orchestrator/app/links.py:186-274 | With the own prefix and key id, a link signed with valid fields verifies to its payload if and only if it is not too long and has not expired |
| Links.PacketLinkRoundTrip | services/research-orchestrator/app/links.py:186-274 | A packet citation can be signed, and what is signed verifies |
| Links.VerifiedToken | services/research-orchestrator/app/links.py:221-274 | A token that verifies carries a conforming, unexpired payload under this signature, and is the signer's own spelling if and only if both segments are canonical |

## Left out

- KnowledgeContext.ContextRoundTrip: the fixed preamble is any text without `<`, and `score` arrives as the text it is printed as.
- CitationLocator.MatchIsScan: `str.split()` and the expression for whitespace are taken to mean the same characters.
- Evidence.BuildEvidenceSnapshot: the size of a snapshot is any function of it, so the concrete floor of about 251 bytes is a hypothesis of BudgetHolds, for counts up to the number of jobs and artifacts; reading an artifact is a function of its record, and creation times are texts that sort as the times do.
- ComparisonReport.BuildReport: reasons are values instead of sentences, and the override axis is compared as a map instead of as its canonical JSON text.
- ComparisonInputs.Fingerprint: the time of a job is an integer, and the digest of the joined lines is any function.
- MethodologyRepair.BaseConfig.EnsureRequirement: nested mappings are values, so YAML anchors that make two paths share one mapping are not captured; the comments written beside placeholders are left out.
- MethodologyValidation.ValidateRequirements: the wording of the errors and their number is not stated, only their kinds; the validator of the comparison_key schema is left out.
- ContractDigest.ComputeDigest: symbolic links and their refusal, and permission bits.
- ContractStore.ContractManager.Seal: what a descriptor says beyond its identity and its files, and the limits on a source tree, are predicates; staging directories, symbolic links and file modes are left out, and so is which of two refusals of one call comes first.
- ContractResolution.CataloguedResolvesIff: one root is searched; fallback roots are left out.
- VaultArchive.Validate: tar itself, file modes and symbolic links; extraction yields the members that preflight accepted, and a name that is both a file and a directory does not arise.
- VaultArchive.Backup: publication of the finished archive by hard links, and the checksum file beside it.
- VersionAllocation.PlaySound: listing the reservation directory and reading its markers are one step each.
- GuardedCall.ExecuteGuarded: concurrent callers of one breaker are covered by the runs of RestCircuit, not by the loop, which has the breaker to itself.
- Links.VerifySigned: UTF-8, HMAC and `int()` are functions with the stated laws; refs with lone surrogates, which have no encoding, are excluded.
- YamlKeys.SignatureBuilder.Build: keys and values of a mapping signature are kept as two lists instead of one of pairs, and node kinds other than scalar, sequence and mapping do not occur.
- PacketSelection.AppendedDisplacesNothing: which entry stands for a pinned source, and the ranking by score before it, are left out; scores are floating point.
- SQL stores, embeddings and lexical scores of the knowledge manager: floating point and unseen code.
- Policy, SOPS envelope and PGP checks of the backup script: regular expressions over file contents.
- The Discord gateway and its message rendering, the HTTP surfaces, cluster and runtime plumbing, the model guard, and the legacy stage agents: input and output, or easy members.
