# Verified models of the Kaspa Gateway CI and end-to-end tools

A Dafny 4.11 project that models the tools under `xtask/src` whose results other steps of the release
and test pipeline rely on, and proves what they are relied on for. `dafny verify dfyconfig.toml`
checks all of it.

One module models one tool (or one part of it):

- `WindowsProcesses`, `ProcessIdentity`: process objects, the PID table and open handles, with
  everything other programs may do; FILETIME conversion and the two-second identity comparison.
  `OwnedProcessKill`, `OwnedProcessGuard` and `OwnedProcessWait` are the three protocols of
  `e2e_owned_process.rs`: one step for each call, any system events in between, every call able to
  fail. A run is a list of steps, so each theorem covers every interleaving and every stopping point.
- `FunctionScanner`: the byte loop that cuts one function out of a source text, against a grammar of
  nested blocks and against a one-byte-at-a-time reading.
- `ReleaseDraft`, `ChecksumManifest`, `StagedAssets`: the check that a draft release carries exactly the
  staged files, the reader of SHA256SUMS files with the writers it has to agree with, and the assembly of
  the files that both of them are then about.
- `CiDiagnostics`: the two-phase replacement of three report files, on a file system in which every
  operation may fail and every intermediate state is recorded.
- `DirectoryWalk`: the recursive directory walk and the one with an explicit stack.
- `PosixPath`, `Clipboard`, `LogTail`, `VersionScan`, `OwnerStatus`: text algorithms.
- `PortSpan`: the least-free-span port search in u16 arithmetic.
- `Text`, `Wrappers`: the parts of `str`, `Option` and `Result` these use.

## What turned out

- The wait that opens the PID itself drops its handle before it writes the evidence, so
  `exact_identity_exited` and `pid_reused` are true when they are settled but can be false by the time
  they are written. `WrittenVerdictOverEveryRun` says exactly when they stay true until the write: as long
  as nobody is given the free PID and no reused PID is released. `WrittenVerdictCanBeStale` is a run in
  which that happens. The wait on a prepared guard does not have this gap (`GuardedEvidenceIsTrue`), as
  the comment in the code claims.
- The second replacement check of that wait never fires: `pid_reused=true` has one origin.
- `(actual - expected).abs() <= 2` overflows for an expected start time at or below `actual - 2^63`. With
  overflow checks it panics exactly there; without them exactly one far difference, 2^63, is accepted.
- `verify_draft` compares counts and looks each staged name up. That is exact if and only if no two
  staged names are the same (`ExactOnlyForDistinctNames`). The names that `assemble_assets` makes always
  differ (`NamesDiffer`), so for the one caller there is no gap (`DraftCarriesTheArtifacts`).
- A log that only grows is shown without losing or repeating anything if and only if every poll that
  showed something cut it between two lines or in one of the few harmless places inside a line end
  (`PollsLoseNothingExactly`, `CutExactly`). A poll that cuts a line elsewhere shows its beginning as a
  line, and its rest is never shown.

## Model

| member | source | states |
|---|---|---|
| ProcessIdentity.FiletimeConversion | xtask/src/e2e_owned_process.rs:242-252 | conversion is exact floor division into the range of i64, fails exactly below the Unix epoch, and is monotone |
| ProcessIdentity.JoinedBits | xtask/src/e2e_owned_process.rs:246 | the 64-bit shift and or is the sum high * 2^32 + low, from which both words can be read back |
| ProcessIdentity.CompareTimesExact | xtask/src/e2e_owned_process.rs:128 | when the i64 comparison says near, and when it overflows, for every start time and expected time, in both build profiles |
| ProcessIdentity.ToleranceOnTicks | xtask/src/e2e_owned_process.rs:126-129 | start times at most 2 s apart are accepted, 3 s or more rejected, and exactly which pairs in between |
| ProcessIdentity.SpellsOnePath | xtask/src/e2e_owned_process.rs:118-124 | every text spells exactly one path: what is left without the white space around it, one long-path prefix and the slashes at its end |
| ProcessIdentity.ExecutableKey | xtask/src/e2e_owned_process.rs:118-124 | two executables have the same key exactly when the paths they spell are equally long and have the same letter at every place, capital or small; nothing outside ASCII is folded |
| ProcessIdentity.SameIdentityExactly | xtask/src/e2e_owned_process.rs:126-129 | same exactly for equal keys and start times at most 2 s apart (or 2^63 s in a build without overflow checks); a panic exactly for equal keys, overflow checks and 2^63 s or more |
| WindowsProcesses.HandlePinsPid | xtask/src/e2e_owned_process.rs:350-353 | under any sequence of other events an open handle keeps its PID naming the same object |
| WindowsProcesses.UnpinnedPidIsReused | xtask/src/e2e_owned_process.rs:350-353 | without a handle the PID of an exited process can come to name another one |
| WindowsProcesses.OtherHandlePinsPid | xtask/src/e2e_owned_process.rs:350-353 | a handle of another program pins the PID of an exited process too, until it is closed |
| WindowsProcesses.HappenKeepsValid | xtask/src/e2e_owned_process.rs:350-353 | every event keeps the table, the handles and running processes consistent, and identities never change |
| WindowsProcesses.MatchMeaning | xtask/src/e2e_owned_process.rs:118-129 | a process matches if and only if it has the PID, was created since 1970, has the same key and started -2..2 s from the expected time (or 2^63 s, wrapped); the comparison panics exactly for the far later ones |
| WindowsProcesses.QueryMeaning | xtask/src/e2e_owned_process.rs:242-252 | the query reads the executable as it is and whole seconds since 1970, and fails exactly before 1970 |
| WindowsProcesses.ClaimsMeaning | xtask/src/e2e_owned_process.rs:451-500 | the two evidence fields as statements about the process asked for, in the same numbers |
| OwnedProcessKill.RunKeepsInvariant | xtask/src/e2e_owned_process.rs:366-429 | in every state of every run the tool holds one handle, has established what its next call needs, and any evidence is true |
| OwnedProcessKill.OnlyTheExactProcessIsKilled | xtask/src/e2e_owned_process.rs:366-429 | at most one object is ever terminated and it is the process asked for, by PID, key and start time in numbers; written evidence gives the options and that object's executable and start time, it has exited, and its PID still names it until the handle is dropped |
| OwnedProcessKill.TerminatesWhatItOpened | xtask/src/e2e_owned_process.rs:366-408 | what is terminated is what the PID named at the open, and the PID names nothing else until the handle is dropped |
| OwnedProcessKill.MatchCanBeKilled | xtask/src/e2e_owned_process.rs:366-429 | every process with the PID, the key and a start time within 2 s is terminated and reported when no call fails |
| OwnedProcessKill.FailedCallLeavesNoEvidence | xtask/src/e2e_owned_process.rs:366-429 | after a failing call of any kind no evidence is written in any continuation of the run |
| OwnedProcessKill.EveryRunEnds | xtask/src/e2e_owned_process.rs:366-429 | every run has finished, with no handle open, after seven calls that do more than wait on |
| OwnedProcessGuard.RunKeepsInvariant | xtask/src/e2e_owned_process.rs:266-363 | over every run a guard is to a match, and after the wait that match has exited |
| OwnedProcessGuard.GuardedEvidenceIsTrue | xtask/src/e2e_owned_process.rs:336-355 | the evidence names the options, and `exact_identity_exited=true` and `pid_reused=false` are true of the system when written and until the guard is dropped |
| OwnedProcessGuard.QuietOutcome | xtask/src/e2e_owned_process.rs:266-355 | when no call fails the evidence is written exactly for the process asked for, in numbers, once it has exited and with a positive timeout; a running one is waited for; anything else is refused |
| OwnedProcessGuard.FailedCallLeavesNoEvidence | xtask/src/e2e_owned_process.rs:266-355 | after a failing call no evidence is written in any continuation of the run |
| OwnedProcessGuard.EveryRunEnds | xtask/src/e2e_owned_process.rs:266-363 | every run has finished, with no handle open, after seven calls that do more than wait on |
| OwnedProcessWait.WaitEvidenceOverEveryRun | xtask/src/e2e_owned_process.rs:432-502 | the second replacement check never fires; written evidence names the request, and every match that existed when the exit was observed is gone |
| OwnedProcessWait.ReuseOnlyFromFirstOpen | xtask/src/e2e_owned_process.rs:453-464 | `pid_reused=true` arises only from a mismatch at the first open, and names the process the PID then named |
| OwnedProcessWait.ComparingEstablishes | xtask/src/e2e_owned_process.rs:483-495 | the identity read after the wait is that of the pinned object, so the comparison cannot differ |
| OwnedProcessWait.SettledVerdictIsTrue | xtask/src/e2e_owned_process.rs:451-500 | at the step that settles the evidence both fields are exactly right |
| OwnedProcessWait.WrittenVerdictCanBeStale | xtask/src/e2e_owned_process.rs:451-501 | a run in which `pid_reused=false` is written while the PID names another program |
| OwnedProcessWait.SpoiledExactlyByRebinding | xtask/src/e2e_owned_process.rs:451-501 | one event makes a true verdict false exactly by giving out the free PID or releasing a reused one |
| OwnedProcessWait.HoldsExactlyUnspoiled | xtask/src/e2e_owned_process.rs:451-501 | over any number of events a true verdict stays true all the way exactly when none of them spoils it |
| OwnedProcessWait.WrittenVerdictOverEveryRun | xtask/src/e2e_owned_process.rs:451-501 | over every run, only events of the rest of the system lie between settling and writing; the settled draft is what is written, and without a spoiling event it is true when it is written |
| OwnedProcessWait.QuietOutcome | xtask/src/e2e_owned_process.rs:432-502 | what is reported when no call fails, for every system: a free PID and an exited process as exited; the process asked for not before it has exited; another one as a replacement, with its executable and start time; one that cannot be compared not at all |
| OwnedProcessWait.FailedCallLeavesNoEvidence | xtask/src/e2e_owned_process.rs:432-502 | after a failing call of any kind no evidence is written in any continuation of the run |
| OwnedProcessWait.EveryRunEnds | xtask/src/e2e_owned_process.rs:432-502 | every run has finished, with no handle open, after ten calls that do more than wait on |
| FunctionScanner.FindEnd | xtask/src/bridge_node_mode_routing.rs:134-176 | the loop returns the end of the block by the grammar, which is the least end at depth zero; depth is at least 1 before; none exactly when there is no such end |
| FunctionScanner.RemainingStep | xtask/src/bridge_node_mode_routing.rs:140-174 | each byte the loop reads leaves the same block end to find, or is it |
| FunctionScanner.ExtractFunction | xtask/src/bridge_node_mode_routing.rs:112-177 | the extract runs from the declaration to the end of its first block, with 1 plus the newlines before each as its lines; none exactly when the block never closes or there is no brace |
| FunctionScanner.WrittenFunctionIsExtracted | xtask/src/bridge_node_mode_routing.rs:131-176 | any function written as a head and a body of nested braces, literals in the three kinds of quotes with escapes, and other bytes is cut out whole from any text around it, with the lines it begins and ends on |
| FunctionScanner.TailDoesNotMatter | xtask/src/bridge_node_mode_routing.rs:131-176 | any text after the extract can be replaced without changing extract or line numbers |
| FunctionScanner.RescanReturnsAll | xtask/src/bridge_node_mode_routing.rs:131-176 | scanning an extract again returns all of it |
| FunctionScanner.LineNumbersSpanExtract | xtask/src/bridge_node_mode_routing.rs:90-96 | end line minus start line is the number of newlines in the extract |
| ReleaseDraft.VerifyDraft | xtask/src/desktop_release_draft_stage.rs:743-789 | accepts exactly when identity, count and every lookup pass; otherwise the error is that of the first check or staged file that fails |
| ReleaseDraft.AcceptedRelease | xtask/src/desktop_release_draft_stage.rs:748-758 | acceptance field by field: the id, an unpublished draft and no prerelease, tag `desktop-v` and the version, the commit as target |
| ReleaseDraft.AcceptedDeterminesRequest | xtask/src/desktop_release_draft_stage.rs:743-758 | an accepted release determines id, version and commit that were asked for |
| ReleaseDraft.ProblemMeaning | xtask/src/desktop_release_draft_stage.rs:769-787 | each error about a staged file exactly when it applies to the first asset of its name |
| ReleaseDraft.ResolveCreatedDraft | xtask/src/desktop_release_draft_stage.rs:724-741 | the first of five listings with a matching draft decides: its id, or that it has none, or that there are several; a listing that fails ends the search |
| ReleaseDraft.MatchingCounts | xtask/src/desktop_release_draft_stage.rs:212-220 | the matching drafts are exactly the listed drafts with that tag and target |
| ReleaseDraft.CreatedDraftIsFoundAndAccepted | xtask/src/desktop_release_draft_stage.rs:696-758 | the draft that was created is the one that is resolved among others, and is accepted exactly when its assets pass |
| ReleaseDraft.AcceptsExactlyTheStagedFiles | xtask/src/desktop_release_draft_stage.rs:760-789 | for distinct staged names the count and the lookups accept exactly the asset lists that are the staged files, each once with its digest and a size, and nothing else |
| ReleaseDraft.AcceptedExactlyForDistinctNames | xtask/src/desktop_release_draft_stage.rs:769-787 | an asset list that passes is exactly the staged files if and only if no two staged names are the same |
| ReleaseDraft.ExactOnlyForDistinctNames | xtask/src/desktop_release_draft_stage.rs:769-787 | for staged files that some list passes for: every list that passes is the staged files if and only if no two staged names are the same |
| StagedAssets.NamesSpelled | xtask/src/desktop_release_draft_stage.rs:611-691 | the eleven file names, for every version and commit |
| StagedAssets.NumbersMakeVersion | xtask/src/desktop_release_draft_stage.rs:58-64 | three runs of digits joined by dots are a version |
| StagedAssets.VersionIsNumbers | xtask/src/desktop_release_draft_stage.rs:58-64 | and every version is three such runs |
| StagedAssets.CommitMeaning | xtask/src/desktop_release_draft_stage.rs:66-71 | a commit is forty of the sixteen small hexadecimal characters |
| StagedAssets.NamesDiffer | xtask/src/desktop_release_draft_stage.rs:611-694 | for every version and commit that the request check lets through, the ten artifact names and SHA256SUMS.txt are pairwise distinct |
| StagedAssets.AssembleAssets | xtask/src/desktop_release_draft_stage.rs:611-695 | succeeds exactly when every copy and the write do; then the directory holds each artifact under its own name, the checksum file for all of them, and nothing else |
| StagedAssets.DraftCarriesTheArtifacts | xtask/src/desktop_release_draft_stage.rs:743-789 | after the assembly the draft check accepts exactly the lists of eleven assets that carry each of the ten artifacts and the checksum file under its name, with its digest and a size |
| StagedAssets.ChecksumFileEntries | xtask/src/desktop_release_draft_stage.rs:681-691 | the checksum file reads as one entry for each artifact, in order of their names, with the digest of its content |
| StagedAssets.ChecksumFileGuardsTheArtifacts | xtask/src/desktop_release_draft_stage.rs:679-691 | the checksum file written for the ten artifacts is accepted by the checksum reader, later exactly while each of them is there with its old digest |
| ChecksumManifest.VerifyManifest | xtask/src/desktop_release_draft_stage.rs:394-421 | accepts exactly when some line speaks and every one that does is well formed and confirmed; the error is that of the first bad line, or that nothing is said |
| ChecksumManifest.JudgementMeaning | xtask/src/desktop_release_draft_stage.rs:398-415 | a line is in order exactly when it is a 64-byte digest, a gap, any stars and a name, with white space around, and the named file hashes to that digest ignoring case; malformed exactly when it is not blank and not of that shape; and when it names a missing or changed file |
| ChecksumManifest.DigestCaseDoesNotMatter | xtask/src/desktop_release_draft_stage.rs:410 | rewriting the digests of any lines in upper or lower case changes neither acceptance nor the first problem |
| ChecksumManifest.UpperCaseManifest | xtask/src/desktop_release_draft_stage.rs:410 | a manifest printed with upper-case digests is accepted exactly when it is with lower-case ones |
| ChecksumManifest.Utf8LengthCounts | xtask/src/desktop_release_draft_stage.rs:407 | the length test counts bytes: one a character and one more from U+0080, U+0800 and U+10000 on |
| ChecksumManifest.ShapedLineIsRead | xtask/src/desktop_release_draft_stage.rs:399-409 | every line made of a 64-byte digest, a gap, any stars and a name is read as that entry |
| ChecksumManifest.ReadLineIsShaped | xtask/src/desktop_release_draft_stage.rs:399-409 | no other line is read as an entry |
| ChecksumManifest.ManifestRoundTrip | xtask/src/desktop_release_draft_stage.rs:682-688 | a printed manifest is read back as exactly the list it was printed from |
| ChecksumManifest.PrintedText | xtask/src/desktop_release_draft_stage.rs:681-688 | what is written is digest, two spaces, name and line feed for each entry in turn |
| ChecksumManifest.PrintedManifestAccepted | xtask/src/desktop_release_draft_stage.rs:394-421 | a printed manifest is accepted exactly when it is not empty and every named file hashes to its digest |
| ChecksumManifest.WrittenManifestDetectsChange | xtask/src/desktop_artifacts_stage.rs:548-556 | what the writers write is accepted, and later exactly while every listed file is there with its old digest |
| CiDiagnostics.ReadRecords | xtask/src/ci_diagnostics.rs:90-97 | succeeds exactly when every value can be read and fits, with value and newline for each target |
| CiDiagnostics.Stage | xtask/src/ci_diagnostics.rs:104-112 | new content only ever appears in a fresh temporary file, which is dropped on failure |
| CiDiagnostics.Commit | xtask/src/ci_diagnostics.rs:113-120 | a target changes only by one rename to its complete content; a failed read-back leaves it so, every other failure leaves it as it was |
| CiDiagnostics.PreserveReview | xtask/src/ci_diagnostics.rs:90-122 | nothing changes when a value cannot be read or is too large, when the preflight finds a problem, or when one of its calls fails, and the error is that of the first such problem; every state passed through is consistent; success is each of the three variables in its own file with a line feed; without faults it succeeds exactly when the preflight passes |
| CiDiagnostics.PreflightMeaning | xtask/src/ci_diagnostics.rs:9-103 | the preflight in its own terms: three named values of at most 16 MiB, the directory, and none of three named targets there as anything but a file |
| CiDiagnostics.ConsistentMeaning | xtask/src/ci_diagnostics.rs:90-122 | in a consistent state the replaced targets form a prefix with complete content, the others hold their old content, and no other file has changed |
| CiDiagnostics.SavedMeaning | xtask/src/ci_diagnostics.rs:9-13 | what saving the first k targets means path by path, which needs their names to differ |
| DirectoryWalk.FindFilesRecursive | xtask/src/desktop_artifacts_stage.rs:137-155 | returns the chosen files depth first; a missing root has none and a file as root is an error |
| DirectoryWalk.FindFilesStack | xtask/src/e2e_installed_nsis.rs:128-151 | returns the same files as the recursive walk, counted with multiplicity, and terminates |
| DirectoryWalk.WalksFindEachFileOnce | xtask/src/e2e_installed_nsis.rs:128-151 | a path is returned exactly when following its names leads to a file the predicate accepts, and once |
| PosixPath.NormalizePosixPath | xtask/src/clippy_policy.rs:147-160 | the result has only ordinary segments without slashes or backslashes, and is its own normal form |
| PosixPath.NormalizeIdempotent | xtask/src/clippy_policy.rs:147-160 | normalising twice is normalising once, and keeps the parts |
| PosixPath.NormalFormsDetermineParts | xtask/src/clippy_policy.rs:147-160 | two paths compare equal exactly when the same segments are left of them |
| PosixPath.NormalizePrefixFirst | xtask/src/clippy_policy.rs:147-160 | norm(a/b) = norm(norm(a)/b) |
| PosixPath.DetourChangesNothing | xtask/src/clippy_policy.rs:147-160 | an ordinary segment followed by `..` can be inserted anywhere: before a path, after it, inside it, or as all of it |
| PosixPath.PartsFromTheRight | xtask/src/clippy_policy.rs:150-158 | the stack leaves exactly the segments that survive counting pending `..` from the right |
| Clipboard.DecodeEncode | xtask/src/e2e_clipboard.rs:307 | decoding the UTF-16 encoding of a text gives the text back (sections 2.1 and 2.2 of RFC 2781) |
| Clipboard.UnitsOfCharacter | xtask/src/e2e_clipboard.rs:307 | the one or two units of a character, bit for bit (section 2.1 of RFC 2781) |
| Clipboard.UnpairedIsReplaced | xtask/src/e2e_clipboard.rs:298 | a surrogate without its other half is read as one U+FFFD and reading goes on after it |
| Clipboard.LossyDecodingIsLossless | xtask/src/e2e_clipboard.rs:298 | lossy decoding loses nothing exactly when every surrogate is paired |
| Clipboard.WriteClipboardText | xtask/src/e2e_clipboard.rs:306-329 | the block holds the encoding, a terminator and only zeros |
| Clipboard.ReadClipboardText | xtask/src/e2e_clipboard.rs:281-303 | decodes the units before the first zero, or the whole block; an empty block is an error |
| Clipboard.ClipboardRoundTrip | xtask/src/e2e_clipboard.rs:293-329 | write then read returns the text up to its first U+0000, for any padding |
| Clipboard.Utf16Length | xtask/src/e2e_clipboard.rs:131-133 | the count is one a character plus one for each beyond the basic plane, and is additive |
| Clipboard.LineCountIsOnePass | xtask/src/e2e_clipboard.rs:135-143 | two replacements and a split count what one pass counts: 1 + CRs + LFs - CRLFs, 0 for no text |
| Clipboard.LineCountOfConcat | xtask/src/e2e_clipboard.rs:135-143 | joining two texts adds the counts minus 1, or minus 2 when a CRLF forms at the joint |
| LogTail.LogTailer.ShowNewLogLines | xtask/src/desktop_diagnostic.rs:451-543 | one poll moves the cursor and adds the effects of exactly the lines beyond it; when a call fails the cursor stays and a first part of those effects has been added |
| LogTail.RoutingTable | xtask/src/desktop_diagnostic.rs:467-540 | each of the six effects of a line exactly when, and at most once |
| LogTail.RoutingOfLine | xtask/src/desktop_diagnostic.rs:467-553 | the same by the text of the line alone: which beginnings and words lead to the child log, the clipboard log, the console, a capture and either snapshot |
| LogTail.RoutingOrder | xtask/src/desktop_diagnostic.rs:467-540 | the effects of a line come in the order child log, clipboard log, console, capture or snapshot |
| LogTail.NothingElse | xtask/src/desktop_diagnostic.rs:467-540 | a line has no other effects |
| LogTail.PrefixesDiffer | xtask/src/desktop_diagnostic.rs:468-473 | no line is both a child line and a start trace |
| LogTail.CursorNeverDecreases | xtask/src/desktop_diagnostic.rs:464-541 | no poll moves a cursor back or takes back an effect, whatever the file does |
| LogTail.PollsShowEachLineOnce | xtask/src/desktop_diagnostic.rs:244-269 | over any interleaved polls of the two logs that grow by whole lines, each log is routed as in one pass over its final content |
| LogTail.CutExactly | xtask/src/desktop_diagnostic.rs:463-464 | the lines of a text are the first lines of any longer text exactly when the cut between them is harmless |
| LogTail.PollsLoseNothingExactly | xtask/src/desktop_diagnostic.rs:463-541 | over any interleaved polls, a log that only grows is routed as in one pass over its last content exactly when every poll that showed something cut it harmlessly |
| VersionScan.ContainsHardcodedVisibleVersion | xtask/src/desktop_version.rs:83-94 | true exactly when the needle stands somewhere directly followed by three dotted numbers |
| VersionScan.VisibleVersionMeaning | xtask/src/desktop_version.rs:83-115 | such a place exists exactly when the text is something, `KaspaGateway V`, three dotted numbers and something |
| VersionScan.SemverPrefix | xtask/src/desktop_version.rs:96-115 | true exactly when the text begins with three dotted numbers |
| VersionScan.GreedyIsComplete | xtask/src/desktop_version.rs:99-112 | taking each run of digits as long as possible loses no match |
| VersionScan.NoOverlap | xtask/src/desktop_version.rs:84-91 | two occurrences of the needle never overlap |
| VersionScan.JumpSkipsNothing | xtask/src/desktop_version.rs:86-92 | jumping a whole needle past a failed occurrence loses no version |
| PortSpan.SpanIsAvailable | xtask/src/e2e_lifecycle_stress.rs:221-243 | true exactly when the span is not empty, ends at or below 65534 and every port of it can be bound; no u16 overflow |
| PortSpan.CheckedAvailablePort | xtask/src/e2e_lifecycle_stress.rs:212-258 | the least free start within 128 of the nominal port; each error exactly when it applies |
| PortSpan.WiderStartsLater | xtask/src/e2e_lifecycle_stress.rs:245-258 | a wider request never gets an earlier start |
| Text.EqIgnoreCaseMeaning | xtask/src/desktop_release_draft_stage.rs:410 | equal ignoring case means as long and the same letter at every place, capital or small, with nothing outside ASCII folded |
| Text.ContainsMeaning | xtask/src/desktop_diagnostic.rs:551-553 | a text contains another exactly when it is that text between two others |
| Text.StartsWithMeaning | xtask/src/desktop_diagnostic.rs:468-473 | a text starts with another exactly when it is that text and a rest |
| Text.DigitMeaning | xtask/src/desktop_release_draft_stage.rs:63 | a digit is one of the ten ASCII digits |
| Text.WhitespaceMeaning | xtask/src/e2e_static_smokes.rs:86 | white space is these 25 characters |
| OwnerStatus.StatusRoundTrip | xtask/src/e2e_static_smokes.rs:79-89 | printed fields are parsed back as the same list; values may contain `=` |
| OwnerStatus.JunkPartIsIgnored | xtask/src/e2e_static_smokes.rs:80-87 | a part without `=` or without a key adds no field wherever it stands |
| OwnerStatus.PrintedFieldIsFound | xtask/src/e2e_static_smokes.rs:91-96 | each key of a printed status is looked up to its own value |
| OwnerStatus.PartMeaning | xtask/src/e2e_static_smokes.rs:80-87 | a part is read as a field exactly when it is key, equals sign and value with white space around each, and not empty before the first equals sign |
| OwnerStatus.WordingMeaning | xtask/src/e2e_static_smokes.rs:104-108 | the wording says stopped exactly when the word stands in it in any case of letters, or `no ` and later on the same line `worker status yet` |
| OwnerStatus.RunningFieldDecides | xtask/src/e2e_static_smokes.rs:98-110 | in any text the first running field decides, letter by letter in either case: true is never stopped, false always is, with another value the wording decides |
| OwnerStatus.RunningAnywhere | xtask/src/e2e_static_smokes.rs:79-96 | a part that writes a running value, with white space wherever it may stand, between any two texts, the first without a field of that name, is the field that decides |
| OwnerStatus.TextDecidesWithoutRunning | xtask/src/e2e_static_smokes.rs:98-110 | in any text without a running field exactly the wording decides |

## Left out

- FindEnd: the depth is an unbounded integer where the code has an i32. They agree for texts below 2 GiB, because the loop invariant bounds the depth by the bytes read.
- VerifyDraft: takes the staged files in the order of the sorted directory listing. The sort only decides which of several failing files is named; acceptance does not depend on the order.
- AssembleAssets: files are named as in the directory, without the path before them; a file that cannot be read back for its digest is not modelled, and the encoding of the checksum text as bytes is a parameter.
- VerifyManifest: a file is found under the name in the manifest; how the path is joined and resolved is not modelled.
- ShowNewLogLines: the log is text, already decoded; a poll that ends inside a UTF-8 sequence is one that ends inside a line. What a clipboard snapshot writes into its own files is one effect here.
- ResolveCreatedDraft: the pages of a listing are one list of releases, and the pause between two attempts is not modelled.
- IsStoppedOwnerStatus: the regular expression `no .*worker status yet` is modelled by what it matches.
- The handle protocols are state machines over calls; access rights of handles, the timeout clock, `observed_at` values and a partly written evidence file are not modelled. TerminateProcess only asks; the exit is an event of the system.
- The executable key strips one `\\?\` prefix and trailing slashes after trimming, so it is not idempotent (`SpellsOnePath` says what it strips); it is used as a comparison key only.
- The regular expressions that find where a declaration starts: the scanner takes the position they found.
- SHA-256, JSON decoding and lossy UTF-8 decoding are parameters or are done before the model begins.
- Symlink cycles, errors in the middle of a directory walk, and other writers to the same files.
- Port 0 and processes that take a port between the search and its use.
- WebDriver sessions, Tauri calls, HTTP, `gh`, `git`, cargo, npm, installers, sleeps and deadlines.
- Gates that only test for substrings in workflow or source files, the navigation guard, argument parsers, allowlist counting and PE header reads: sequences of independent conditions with no algorithm or state of their own.
- The product crates and the desktop application.
