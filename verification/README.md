# Verified models of Foton's hardest small algorithms

Foton is a Minecraft server in Rust with Python tooling around it. This project models the parts of
it where state, concurrency, byte arithmetic or recursion make mistakes likely, and proves what
those parts are for. `dafny verify dfyconfig.toml` checks everything.

| files | what they model |
|---|---|
| ReportFiling, ReportFilingSafety, ReportFilingRuns, ReportFilingRetry, ReportFilingAccepted, ReportFilingListing, ReportFilingCalls, ReportFilingSync | the bug-report filing protocol: concurrent invocations, compare-and-swap on one file, claims, a remote issue list, crashes and lost answers |
| GotRelax, GotRelaxSearch, GotRelaxScan, GotRelaxSamples | the backward search over a disassembly that looks for `adrp`/`add` pairs entered with another page |
| JvmInstructions, Bytecode, BytecodeEdges | two independent JVM instruction decoders, each with its own operand tables, measured against an assembler written from the instruction formats of JVMS section 6.5 |
| ClassWorld | member lookup by depth-first search with a shared visited set, on tables that may be cyclic |
| AnnotationFormat, Annotations | mutually recursive annotation skipping, measured against the element values of JVMS section 4.7.16.1 |
| ConstantPool, StrictUtf8, BanEntryBridge, BanEntryRewrite | the byte-level class-file walks and the rewrite that adds one bridge method, measured against the constants of JVMS section 4.4 and the structures of sections 4.1, 4.6 and 4.7.3 |
| EnchantmentRequirements | three three-valued evaluators over one condition language |
| WireFraming, Login, NbtFormat, NbtSkipping | packet framing over a chunked stream, the login that turns compression on inside it, and skipping NBT values |
| Base64, Floodgate | the Bedrock identity envelope: hostname segment, base64 (RFC 4648 section 4), decryption, twelve fields |
| GeyserSupervision, GeyserConfig | the restart loop with backoff, and YAML quoting in the generated configuration (YAML 1.2.2 sections 5.7 and 7.3.1) |
| KeyRace | several processes creating one key file at first start |
| Certification | the certified set of plugin artifacts as a least fixed point |
| JsonPointers, ObservationCompare | strict comparison of JSON trees with masked paths (RFC 6901 section 4) |
| Wrappers, Bytes, Segments, Decimals | shared vocabulary: optional values, big-endian integers, splitting and joining, decimal notation |

Code that works step by step is a method or a class with loops, proved against a specification
function or predicate; the laws are then proved of the specification. Protocols are state machines
whose every choice (who moves next, what a remote call answers, whether it took effect) belongs to
the environment.

## What the code does that its documentation does not say

Each of these is a theorem below, together with the exact condition under which the promise holds.

- **A listing that answers 404 opens a second issue.** `_find_existing_issue` returns `(404, None)`
  both for "no such issue" and when GitHub answers the listing itself with 404 (api/report.py:211-218),
  and `_open_issue` posts on 404 (api/report.py:231-240). `OneIssueUnlessMisled` is exact for whole runs: every
  state has one issue per report if and only if no invocation misled in this way creates one later.
  `ListingErrorOpensASecondIssue` builds such a run from the empty state.
- **An interrupted claim is never resumed.** REPORTING.md:111-113 and the comment at
  api/report.py:289-291 promise that a retry resumes a report. An invocation that dies after
  committing its claim and before posting leaves a claim nobody releases; every later invocation gets
  409, finds no issue and returns 502. `RecoverableIffNotOrphaned` is the exact boundary,
  and `CrashOrphansFirstReport` a run from the empty state.
- **202 without a link.** A listing or creation answered with status 202 makes `_file` return 202
  (api/report.py:297-299) with nothing linked. `AcceptedUnlinkedExactly` is the exact condition: that answer was
  202 and the report was not linked. `AcceptedListingRun` and `AcceptedCreationRun` are runs from the empty
  state, and `AcceptedMeansLinked` holds for every invocation that gets no such answer itself.
- **Two Geyser processes can run at once.** When the wait for the child fails, `supervise` starts another one
  while it still holds the first (geyser.rs:918-946), whose handle kills it only when it is replaced.
  `TwoChildrenExactly`: two run together if and only if a child starts after a failed wait, and never more.
- **`_code_edges` may never end.** It lets a switch with a negative number of targets move it backwards
  (dev/plugin_api_usage.py:974-981), where the link check refuses the code. `LoopsForeverExactly`: it runs for ever
  if and only if it reads from some offset twice, which shows within 2n+1 turns over n bytes.
  `StandsStill` is such code, and `EndsWithoutNegativeSwitch` gives a guard that a caller can check.
- **The link check does not look at some operands.** It accepts an empty `tableswitch` (`AcceptsEmptyTable`) and any
  value in the bytes section 6.5 fixes. `LawfulExactly` gives the check
  of bytes that would make it exact.
- **A killed first start blocks every later one.** key.rs:77-87 mentions a reader that arrives before
  the key is written. Worse, a creator that dies there leaves a short file that no later start repairs:
  `SucceedsUnlessBroken` and `KilledCreatorBreaksTheFile`.
- **`yaml_quote` writes control characters raw.** Control characters other than tab, line feed and
  carriage return are not allowed inside a YAML scalar; `QuoteReadBack` says the value is read back
  exactly when there is none. (The comment at geyser.rs:243-244 says only the MOTD is quoted; the key
  file path is too.)
- **A difference of whole trees is reported at a path that names something else.** `compare_observations`
  reports the root as "/", which `_pointer` reads as the member with the empty name
  (dev/compat/compare.py:123-124, 175): `ReportedPathReaches`, `RootReportLeadsNowhere`.
- **The 60-second backoff cap never binds**, because five failures end a streak first: every sleep is
  1, 2, 4 or 8 seconds (`SleepsAreShort`).
- **`decrypt` does not look at the version byte** (floodgate.rs:98), although `VERSION` is documented as
  the version it understands: `DecryptsExactly` accepts envelopes of any version.

## Assumptions

- Report filing: each GitHub call is one atomic step that takes effect before its answer arrives, or
  never; a read sees the current file; a write answered 409 did not take effect; the file is changed by
  nothing but this function; a 200 listing is a JSON list, newest first, and labelled issues are never
  removed; an issue carries the marker of a report only if this function opened it; issue numbers are
  positive and new; random tokens are never drawn twice. The content hash is modelled as equality of
  content.
- The `adrp` results about hits assume that objdump lists each address once; the search itself needs no
  assumption.
- The rewrite results are about byte strings that encode a class file; `Transform` is total on all others.
- `Send` and `WriteVarint` take natural numbers: Python's loop never ends on a negative one.
- Floodgate: opening undoes sealing with the same key and nonce (`Inverts`); nothing is assumed about
  other keys. UTF-8 validity is a given test. zlib is likewise an inverse pair.
- Supervision: a sleep begun after the token has fired ends as cancelled, because its time has not
  passed; when both are ready either may win. A child whose wait failed counts as running until its handle is
  dropped, and dropping it kills it (geyser.rs:730).
- Key file: nothing but these processes touches the file, exclusive creation is atomic, and writes and
  reads may move any number of bytes.
- Comparison: the two regular expressions are given tests; floats are real numbers, with the infinities and NaN
  apart.

## Model

| member | source | states |
|---|---|---|
| `ReportFilingSafety.StepKeepsLog` | api/report.py:58-81 | whatever an invocation does, the file stays a log of distinctly keyed records numbered 1, 2, 3, …; a write that takes effect changes or appends exactly one record, and nothing else touches the file |
| `ReportFilingSafety.RunKeepsLog` | api/report.py:100-121 | over any run, record i keeps its number, its key and its intake fields, and a link once set is never changed |
| `ReportFilingSafety.NextPcProposal` | api/report.py:71-81 | every file an invocation proposes is one edit of the snapshot it read |
| `ReportFilingCalls.AppliedWrite` | api/report.py:100-269 | what each kind of write leaves in the file as it stands, field by field, with every other line kept |
| `ReportFilingCalls.ReadDecides` | api/report.py:100-269 | what each read goes on to, by the first line with the report's key |
| `ReportFilingCalls.ReadFails` | api/report.py:100-305 | a failed read ends the invocation with its answer; one that the caller takes for success makes it use a record that is not there |
| `ReportFilingCalls.WriteDecides` | api/report.py:100-269 | a commit goes on, a conflict is read again twice, and the third conflict or another answer ends the call |
| `ReportFilingCalls.ListingDecides` | api/report.py:204-240 | the first issue with the marker on a page of a hundred is attached, a full page leads to the next, and a short one ends the search |
| `ReportFilingCalls.LabelDecides` | api/report.py:177-230 | four labels, and any failure gives the claim back and answers 502 |
| `ReportFilingCalls.OtherAnswers` | api/report.py:204-305 | every other answer to a listing, a creation or the refresh, and the issue a creation attaches |
| `ReportFilingSync.SyncReadDecides` | api/report.py:324-359 | after a read it writes if and only if the issue's first line has another status or predates the integration, and it changes that line's status, and its link if it had none, and nothing else |
| `ReportFilingSync.SyncFinishes` | api/report.py:324-359 | from any state of any run, a synchronisation answered without errors leaves that line at the status seen |
| `ReportFilingSync.WebhookReachesFile` | api/report.py:324-359 | so does a signed webhook that comes in at any time |
| `ReportFilingSync.RefreshReachesFile` | api/report.py:272-277 | so does the refresh at the end of a filing |
| `ReportFilingSafety.PageSearched` | api/report.py:204-219 | a page without the marker lets the search move on without skipping an issue |
| `ReportFilingSafety.WriteTouchesOwnClaims` | api/report.py:124-175 | a compare-and-swap over the current file changes no claim but the writer's own, unless it links the line |
| `ReportFilingSafety.StepKeepsInv` | api/report.py:124-305 | every step, whatever GitHub answers, keeps the claim discipline: who searches or posts for an unlinked report holds the line's claim, a linked line names a listed issue, and a finished filing is linked |
| `ReportFilingSafety.StepKeepsSingle` | api/report.py:204-240 | an honest step keeps one issue per report and every search reliable; a misled invocation does no harm unless its creation takes effect |
| `ReportFilingSafety.RunKeepsInv` | api/report.py:124-305 | the claim discipline holds in every state of every run |
| `ReportFilingRuns.OneIssuePerReport` | api/report.py:222-305 | in every interleaving with crashes, conflicts and lost answers in which no listing answers 404 while its report has an issue, no report key gets two issues, and whoever may post holds the file's current claim |
| `ReportFilingListing.OneIssueUnlessMisled` | api/report.py:204-240 | over any run whatsoever, all states keep one issue per report if and only if no invocation whose listing answered 404 while an issue of its report existed creates one later |
| `ReportFilingRuns.ListingErrorIsSafeIffUnposted` | api/report.py:211-240 | one such answer followed at once by a successful creation is harmless if and only if no issue existed |
| `ReportFilingRetry.ListingErrorOpensASecondIssue` | api/report.py:211-240 | from the empty state there is a run in which that answer gives one report two issues |
| `ReportFilingRuns.LinksAreDurable` | api/report.py:244-269 | in every run a committed link names the same issue in every later state |
| `ReportFilingRuns.AcceptedMeansLinked` | api/report.py:280-305 | an invocation whose own listing and creation are not answered 202 returns 202 only once its report is linked to an issue carrying its marker, whatever the others are answered |
| `ReportFilingAccepted.AcceptedUnlinkedExactly` | api/report.py:222-305 | after an answer to the claim holder's listing or creation, some continuation without a further 202 there ends the invocation with 202 and an unlinked report if and only if that answer was 202 and the report was not linked |
| `ReportFilingAccepted.AcceptedListingRun` | api/report.py:231-240 | from the empty state a listing answered 202 leads there |
| `ReportFilingAccepted.AcceptedCreationRun` | api/report.py:231-240 | so does a creation answered 202 |
| `ReportFilingRuns.RunKeepsPlainAnswers` | api/report.py:295-299 | such an invocation never ends with 202 from the creation branch |
| `ReportFilingRuns.OrphanForever` | api/report.py:130-149 | a claim whose owner is gone and whose report has no issue stays in every continuation |
| `ReportFilingRuns.StepsOnlyMoveIssuesDown` | api/report.py:204-219 | new issues push listed ones down and remove none |
| `ReportFilingRuns.ScanMissesNothing` | api/report.py:204-219 | pages read one after another, with issues inserted in between, never miss an issue that existed when the scan began |
| `ReportFilingRetry.RetryFinishes` | api/report.py:280-305 | from any state whose report is not orphaned, a fresh invocation answered without errors links it and returns 202 |
| `ReportFilingRetry.RecoverableIffNotOrphaned` | api/report.py:284-305 | once all invocations are over, however their listings were answered, some later run can link the report if and only if it is not left claimed without an issue |
| `ReportFilingRetry.CrashAfterClaimOrphans` | api/report.py:137-143 | dying right after the claim is committed leads into that state |
| `ReportFilingRetry.CrashOrphansFirstReport` | api/report.py:130-149 | from the empty state there is a run to it, after which no run ever links the report |
| `GotRelaxScan.Scan` | dev/check-arm64-got-relax.py:76-143 | the counts, and the text of every pair that some recorded branch enters without being settled, in order, over exactly the instructions and labels of the listing |
| `GotRelaxSearch.ReachesWithPage` | dev/check-arm64-got-relax.py:104-124 | the worklist answers true exactly when every path into the start last wrote the register with the page and the search stays within the limit; a no within the limit means that some path did not; it terminates on every graph |
| `GotRelaxScan.EnteredOtherwise` | dev/check-arm64-got-relax.py:138-142 | a pair is reported exactly when some branch into it has a violating path, a search past the limit, or the page cannot be read |
| `GotRelaxScan.BuildIndex` | dev/check-arm64-got-relax.py:88-94 | the index and the branch sources record exactly the listing |
| `GotRelaxScan.Decode` | dev/check-arm64-got-relax.py:78-87 | the instructions are those of the lines that have one, in order, and an address is a barrier exactly when a label is the next thing behind an instruction there |
| `GotRelaxScan.ListingIsUnique` | dev/check-arm64-got-relax.py:78-87 | a listing has one reading |
| `GotRelaxScan.FallsUnlessLabelled` | dev/check-arm64-got-relax.py:78-102 | control falls through to the next instruction exactly when it is adjacent, the first is no unconditional branch, and no label stands in between |
| `GotRelaxSamples.CallsWrite` | dev/check-arm64-got-relax.py:60-74 | a call may change x0 to x18 and x30, and nothing else |
| `GotRelaxSamples.DestinationsWrite` | dev/check-arm64-got-relax.py:60-74 | ordinary instructions write their first operand |
| `GotRelaxSamples.LoadsWrite` | dev/check-arm64-got-relax.py:60-74 | so does a load, and a load of a pair writes its second too |
| `GotRelaxSamples.BranchesWriteNothing` | dev/check-arm64-got-relax.py:60-74 | comparisons and branches write nothing |
| `GotRelaxSamples.StoresWriteNothing` | dev/check-arm64-got-relax.py:60-74 | stores write nothing but an exclusive store's status |
| `GotRelaxSamples.WritebackWrites` | dev/check-arm64-got-relax.py:60-74 | a base that is written back changes |
| `GotRelaxSamples.PairExactly` | dev/check-arm64-got-relax.py:126-137 | what a pair is: an `adrp` and right behind it an `add` of the same named register to itself |
| `GotRelaxSamples.StalePageIsReported` | dev/check-arm64-got-relax.py:76-143 | a branch at the start of a function into the middle of a pair is a hit, whatever stands before the function's label |
| `GotRelaxSearch.PredecessorsAreEdges` | dev/check-arm64-got-relax.py:96-102 | predecessors are exactly the edges of the direct-branch control-flow graph |
| `GotRelax.SafeIffNothingBad` | dev/check-arm64-got-relax.py:104-124 | all paths, cycles included, are safe if and only if no write-free way back meets a foreign write or an entry |
| `GotRelax.UnflaggedPairIsSound` | dev/check-arm64-got-relax.py:126-142 | no hit for a pair: on every path into its `add` the last write of the register is an `adrp` of the pair's page |
| `GotRelaxScan.NoHitIsSound` | dev/check-arm64-got-relax.py:126-143 | a scan without a hit proves it of every pair of the listing |
| `Bytecode.InstructionEnd` | dev/plugin_link_check.py:236-278 | the branches step to the end of the instruction, or name the fault |
| `Bytecode.CodeAccesses` | dev/plugin_link_check.py:231-285 | the loop returns the accesses of the instructions in order, or the fault at the first bad one |
| `Bytecode.FaultsExactly` | dev/plugin_link_check.py:236-278 | which instruction is refused as what, by the format of its opcode |
| `Bytecode.TablesMatchFormats` | dev/plugin_link_check.py:121-127 | the four operand tables give every opcode the operand bytes its format in section 6.5 has |
| `Bytecode.AcceptsExactlyEncodings` | dev/plugin_link_check.py:231-285 | accepted with these accesses if and only if the code is the assembly of some instruction list, laid out by the formats of section 6.5, whose accesses these are |
| `Bytecode.OnlyOneReading` | dev/plugin_link_check.py:231-285 | no code is the assembly of two instruction lists |
| `Bytecode.LawfulExactly` | dev/plugin_link_check.py:231-285 | code is the assembly of a list that obeys section 6.5 in its operands' values as well if and only if a check of the bytes at its accepted boundaries succeeds |
| `Bytecode.AcceptsEmptyTable` | dev/plugin_link_check.py:239-250 | a tableswitch from 1 to 0, which the section forbids, is accepted |
| `Bytecode.AssembledDecodesFrom` | dev/plugin_link_check.py:235-285 | decoding inverts assembling, aligned switches and `wide` included |
| `Bytecode.AcceptedIsAssembled` | dev/plugin_link_check.py:235-285 | accepted code is the assembly of an instruction list found by cutting it at the boundaries |
| `Bytecode.AcceptedIsTiled` | dev/plugin_link_check.py:235-278 | accepted code is tiled by instruction extents with no gap, overlap or rest |
| `BytecodeEdges.TablesMatchFormats` | dev/plugin_api_usage.py:940-946 | the second decoder's own two sets and four branches agree with the formats too |
| `BytecodeEdges.MovesPastEncoding` | dev/plugin_api_usage.py:974-995 | it steps over every instruction of section 6.5 by exactly its length |
| `BytecodeEdges.SameBoundaries` | dev/plugin_api_usage.py:947-995 | on every accepted instruction it steps to the same boundary as the first decoder |
| `BytecodeEdges.RaisesExactly` | dev/plugin_api_usage.py:947-995 | from an offset inside the code it raises exactly where the bytes it reads are not all there |
| `BytecodeEdges.CodeEdges` | dev/plugin_api_usage.py:935-996 | on any code for which it ends, negative offsets included, the loop collects what the turns find, or raises where one of them does |
| `BytecodeEdges.LoopsForeverExactly` | dev/plugin_api_usage.py:947-996 | the loop never ends if and only if it reads from some offset twice, and then it is not done after 2n+1 turns over n bytes |
| `BytecodeEdges.EndsWithoutNegativeSwitch` | dev/plugin_api_usage.py:974-981 | code with no negative switch at an offset the loop visits is done with in n turns |
| `BytecodeEdges.StandsStill` | dev/plugin_api_usage.py:974-977 | a tableswitch from 0 to -5 leads back to itself for ever |
| `BytecodeEdges.FindsExactlyTheInstructions` | dev/plugin_api_usage.py:935-996 | on the assembly of any instruction list it ends without raising and finds the calls and events of exactly those instructions |
| `BytecodeEdges.EdgesAreAccesses` | dev/plugin_api_usage.py:950-973 | its calls are the members the first decoder sees invoked, plus what invokedynamic adds |
| `BytecodeEdges.EventsExactly` | dev/plugin_api_usage.py:955-972 | the events found are those the `new` instructions construct and the invokedynamic instructions implement |
| `BytecodeEdges.CallsOfOne` | dev/plugin_api_usage.py:950-963 | the calls of one instruction: the method its index names, or what the invokedynamic links to |
| `BytecodeEdges.AcceptedByBoth` | dev/plugin_api_usage.py:935-996 | on all code the first decoder accepts, the second ends without raising and calls exactly those members |
| `ClassWorld.World.constructor` | dev/plugin_link_check.py:487-491 | earlier layers win, and nothing else is known |
| `ClassWorld.World.Resolve` | dev/plugin_link_check.py:496-514 | a declaration is found if and only if one is reachable, cyclic tables included; on an acyclic table it is the one the plain search finds |
| `ClassWorld.World.IsSubclass` | dev/plugin_link_check.py:516-527 | the reflexive-transitive closure of the parent relation |
| `ClassWorld.World.Field` | dev/plugin_link_check.py:536-552 | true exactly when a reachable class declares the field |
| `ClassWorld.World.Method` | dev/plugin_link_check.py:554-576 | true over unknown over false, each decided by the reachable set |
| `ClassWorld.World.Concrete` | dev/plugin_link_check.py:602-621 | a body is supplied exactly when one is reachable without passing a redeclaration |
| `ClassWorld.ConcreteIsPlain` | dev/plugin_link_check.py:602-621 | on acyclic tables that is the answer of the search without a visited set |
| `ClassWorld.EdgesExactly` | dev/plugin_link_check.py:505-619 | the parents of a class: its named superclass and interfaces, and for methods of an interface also Object |
| `ClassWorld.FirstParentWins` | dev/plugin_link_check.py:496-514 | of a superclass and an interface that both declare a member, a method is the superclass's and a field the interface's |
| `ClassWorld.BodyExactly` | dev/plugin_link_check.py:602-621 | a body is a declaration that is not abstract, static or private, or a known JDK method |
| `ClassWorld.AnswerExactly` | dev/plugin_link_check.py:529-576 | what one class answers about a method, unknown only for a JDK class that is not modelled |
| `ClassWorld.InterfacesReachObject` | dev/plugin_link_check.py:566-568 | a method of Object is found on every interface |
| `ClassWorld.RankedIffAcyclic` | dev/plugin_link_check.py:496-527 | the tables on which the searches are compared are exactly those where no class is its own ancestor |
| `Annotations.SkipsValue` | dev/plugin_api_usage.py:256-272 | skipping an element value advances by exactly its encoded length, for every tree |
| `Annotations.SkipsAnnotation` | dev/plugin_api_usage.py:246-253 | skipping an annotation advances by exactly its encoded length |
| `StrictUtf8.DecodesLeftToRight` | dev/add-banentry-bridge.py:90-93 | the texts the script can decode are those a decoder accepts that goes from character to character |
| `StrictUtf8.DecodesExactly` | dev/add-banentry-bridge.py:90-93 | a text can be decoded if and only if it is a row of Unicode scalar values written as RFC 3629 lays them out |
| `BanEntryBridge.PoolEnd` | dev/add-banentry-bridge.py:33-56 | the loop returns the pool's end and its slots, with the hole after each wide entry |
| `BanEntryBridge.SkipAttributes` | dev/add-banentry-bridge.py:59-65 | the loop ends behind the attribute table |
| `BanEntryBridge.MethodTableOffset` | dev/add-banentry-bridge.py:68-81 | the loops find the method count and the end of the methods |
| `BanEntryBridge.HasStringTarget` | dev/add-banentry-bridge.py:83-98 | whether some method is named getTarget and returns String, or raises at the first text that strict UTF-8 cannot decode |
| `BanEntryRewrite.EntryInPlace` | dev/add-banentry-bridge.py:33-56 | over each of the seventeen kinds of constant the walker steps by exactly its length, and counts two indices for Long and Double only |
| `BanEntryRewrite.EncodingWalks` | dev/add-banentry-bridge.py:33-98 | on the encoding of any class file over those constants every walk arrives where the structure says |
| `BanEntryRewrite.BridgedPool` | dev/add-banentry-bridge.py:113-123 | the new pool is the old one, every index unchanged, plus ten entries |
| `BanEntryRewrite.BridgeTexts` | dev/add-banentry-bridge.py:113-122 | through the new pool the new method's indices name what the JVM must find |
| `BanEntryRewrite.BridgeCalls` | dev/add-banentry-bridge.py:124-129 | the new method's code calls BanEntry.getTarget returning Object and casts to String |
| `BanEntryRewrite.BridgedIsWellFormed` | dev/add-banentry-bridge.py:100-135 | the rewritten class file is well formed and readable, and has the method that stops a second rewrite |
| `BanEntryRewrite.RewriteIsIdempotent` | dev/add-banentry-bridge.py:109-112 | rewriting twice is rewriting once |
| `BanEntryRewrite.OutputIsEncoding` | dev/add-banentry-bridge.py:123-135 | the bytes spliced together are the encoding of the rewritten class file, exactly when there is room |
| `BanEntryRewrite.Transform` | dev/add-banentry-bridge.py:100-135 | on the encoding of any class file it returns the encoding of the rewritten one, and raises exactly when a name it looks at is not strict UTF-8 or a count would overflow |
| `EnchantmentRequirements.RequirementsState` | foton-core/src/enchantment_helper.rs:1220-1260 | the damage-time loops compute the strong Kleene value of the tree over what damage time knows |
| `EnchantmentRequirements.PostAttackRequirementsState` | foton-core/src/enchantment_helper.rs:1170-1218 | the same over what the attack knows; a missing entity fails its term |
| `EnchantmentRequirements.EntityRequirementsState` | foton-core/src/enchantment_helper.rs:1277-1320 | the same over one entity |
| `EnchantmentRequirements.DecidedHoldsUnderCompletions` | foton-core/src/enchantment_helper.rs:1170-1320 | a decided answer is the truth under every completion of the unknown atoms |
| `EnchantmentRequirements.OrderDoesNotMatter` | foton-core/src/enchantment_helper.rs:1170-1320 | reordering terms at any depth changes no answer, decided or unknown |
| `EnchantmentRequirements.PermutedTerms` | foton-core/src/enchantment_helper.rs:1170-1320 | every permutation of terms is such a reordering |
| `EnchantmentRequirements.RefinedEvaluation` | foton-core/src/enchantment_helper.rs:1170-1320 | knowing more atoms never changes a decided answer |
| `EnchantmentRequirements.MatchedExactly` | foton-core/src/enchantment_helper.rs:1358-1451 | an entity matches if and only if every part of the predicate is supported and every constraint is met; false and unknown are never guesses |
| `EnchantmentRequirements.TypeDecisionsHold` | foton-core/src/enchantment_helper.rs:1322-1439 | what the type alone decides, every entity of that type decides identically, given `has_constraints` |
| `EnchantmentRequirements.PostAttackRefinesDamage` | foton-core/src/enchantment_helper.rs:1161-1260 | whatever damage time decides, post-attack decides identically |
| `EnchantmentRequirements.PostAttackRefinesEntity` | foton-core/src/enchantment_helper.rs:1277-1320 | whatever the single-entity evaluator decides of the victim, post-attack decides identically, given the same draws |
| `EnchantmentRequirements.WindBurstNeedsPostAttack` | foton-core/src/enchantment_helper.rs:1161-1169 | Wind Burst's condition is never met at damage time and is met post-attack exactly when its wielder falls as asked |
| `EnchantmentRequirements.SourceTermExactly` | foton-core/src/enchantment_helper.rs:1453-1467 | a damage-source term holds exactly when every expected tag is there, no ruled-out tag is, and directness agrees; it is decided at damage time and post-attack alike |
| `EnchantmentRequirements.EntityTermsExactly` | foton-core/src/enchantment_helper.rs:1145-1160 | which entity or type judges a term about the victim, the attacker or the direct attacker in each evaluator |
| `EnchantmentRequirements.OtherTermsExactly` | foton-core/src/enchantment_helper.rs:1170-1320 | chances are known to the two later evaluators, and what is not modelled never is |
| `EnchantmentRequirements.TypeMatchedExactly` | foton-core/src/enchantment_helper.rs:1322-1356 | a type alone decides exactly the predicates that ask no more than the type or being a player |
| `EnchantmentRequirements.ConnectivesExactly` | foton-core/src/enchantment_helper.rs:1170-1320 | a conjunction holds when all terms do and fails when one does, and a disjunction the other way round |
| `EnchantmentRequirements.KnownLeavesDecide` | foton-core/src/enchantment_helper.rs:1170-1320 | when every leaf is known, every condition is decided |
| `EnchantmentRequirements.FireProtectionAtDamageTime` | foton-core/src/enchantment_helper.rs:1453-1467 | Fire Protection's tags, one expected and one ruled out, are decided at damage time |
| `WireFraming.WriteVarint` | dev/join.py:228-235 | the loop writes the seven-bit groups of the value |
| `WireFraming.ReadVarint` | dev/join.py:345-353 | the loop reads the value and the rest, or fails on the sixth byte or the end of the data |
| `WireFraming.VarintReadBack` | dev/join.py:228-235 | a varint is read back exactly when it is below 2^35 and refused otherwise |
| `WireFraming.Connection.Fill` | dev/join.py:300-305 | the stream of bytes still to come is unchanged, and the buffer has enough unless the peer closed |
| `WireFraming.Connection.ReadVarintFromStream` | dev/join.py:307-316 | reads across chunk boundaries what it would read from the joined stream, and consumes five bytes or all there are when it fails |
| `WireFraming.Connection.Send` | dev/join.py:318-328 | sends exactly the packet's frame at the current threshold |
| `WireFraming.Connection.Receive` | dev/join.py:330-342 | returns the next packet of the stream or the error, however it was chunked, and leaves exactly what follows its frame, whatever the frame holds |
| `WireFraming.Connection.ReceiveAll` | dev/join.py:330-342 | successive calls, the threshold changing in between, return the packets of the joined stream in turn |
| `WireFraming.ReceivedAsSent` | dev/join.py:318-342 | a frame is received as it was sent if and only if its id and lengths are below 2^35, compression on or off |
| `WireFraming.PacketsArrive` | dev/join.py:318-342 | for any packets and thresholds, reading the frames in turn gives exactly the packets sent and leaves the tail |
| `WireFraming.CompressedFromThreshold` | dev/join.py:318-328 | from the threshold on a frame holds the compressed body and its length, below it a zero and the body |
| `WireFraming.SampleVarints` | dev/join.py:228-235 | sample values have the protocol's encodings |
| `Login.RunLogin` | dev/join.py:443-465 | the loop says hello and follows the login over the joined stream: outcome, threshold and what is left unread |
| `Login.LoginFollowsServer` | dev/join.py:449-465 | whatever the server says and whenever it changes the threshold, the login succeeds exactly when the ending packet accepts the player, at the threshold told last, with nothing read behind it |
| `Login.SaidIsHeard` | foton-login/src/handlers/login.rs:283-307 | each packet of the login state means to the client what the server meant, a clamped threshold included |
| `NbtSkipping.Skipped` | dev/join.py:1636-1673 | whatever the data, negative lengths included, skipping ends, and what it returns is a suffix of the data |
| `NbtSkipping.SkipNbt` | dev/join.py:1636-1673 | the recursion with loops computes that skip on all data |
| `NbtSkipping.SkipList` | dev/join.py:1659-1665 | the element loop |
| `NbtSkipping.SkipCompound` | dev/join.py:1666-1672 | the entry loop, which always ends |
| `NbtSkipping.SkipIsExact` | dev/join.py:1636-1673 | skipping any written value, all thirteen constructors with their own layouts nested at will, leads exactly to what follows it |
| `NbtSkipping.SkipRootIsExact` | dev/join.py:1644-1645 | the same with the tag in front |
| `Base64.DecodesExactly` | foton-bedrock/src/floodgate.rs:108-116 | a text decodes to some bytes if and only if it is their canonical encoding |
| `Base64.OnlyAlphabet` | foton-bedrock/src/floodgate.rs:48-50 | an encoding holds nothing but the alphabet and padding, so neither splitter nor NUL |
| `Base64.LettersInOrder` | foton-bedrock/src/floodgate.rs:108-116 | the alphabet is that of RFC 4648, in its order |
| `Base64.TestVectors` | foton-bedrock/src/floodgate.rs:108-116 | the test vectors of section 10 of RFC 4648 |
| `Segments.JoinOfSplit` | foton-bedrock/src/floodgate.rs:82-91 | joining the segments gives the text back, and no segment holds the separator |
| `Segments.SplitOfJoin` | foton-bedrock/src/floodgate.rs:82-91 | splitting joined separator-free parts gives the parts back |
| `Floodgate.ExtractPayload` | foton-bedrock/src/floodgate.rs:78-92 | the first Floodgate segment and the hostname without it, or nothing exactly when there is none |
| `Floodgate.ExtractsOne` | foton-bedrock/src/floodgate.rs:78-92 | that answer is unique |
| `Floodgate.OrdinaryHostname` | foton-bedrock/src/floodgate.rs:75-78 | a hostname without a Floodgate segment gives nothing |
| `Floodgate.Encrypt` | foton-bedrock/src/floodgate.rs:148-174 | builds the envelope of the sealed plaintext, or fails exactly when sealing fails |
| `Floodgate.DecryptsExactly` | foton-bedrock/src/floodgate.rs:97-130 | a payload decrypts to a plaintext if and only if it is an envelope, of any version, with a twelve-byte IV whose ciphertext opens to it |
| `Floodgate.EnvelopeOpens` | foton-bedrock/src/floodgate.rs:97-130 | what is answered on an envelope: the plaintext, or which of the last two checks failed |
| `Floodgate.EnvelopeLayout` | foton-bedrock/src/floodgate.rs:30-50 | the envelope byte by byte |
| `Floodgate.MarkedExactly` | foton-bedrock/src/floodgate.rs:20-24 | a segment is Floodgate's exactly when it begins with the eleven bytes |
| `Floodgate.RefusedExactly` | foton-bedrock/src/floodgate.rs:97-118 | which payloads are refused before anything is opened, and as what |
| `Floodgate.NumberReadBack` | foton-bedrock/src/floodgate.rs:230-234 | every 32-bit number in decimal is read back and holds no NUL |
| `Floodgate.ParsesFields` | foton-bedrock/src/floodgate.rs:224-249 | twelve NUL-free fields joined by NUL are parsed to the same fields |
| `Floodgate.ParsesByPosition` | foton-bedrock/src/floodgate.rs:224-249 | which of the twelve fields is which, and which counts and numbers are refused |
| `Floodgate.SegmentRecovered` | foton-bedrock/src/floodgate.rs:78-92 | a segment put in at any boundary with no earlier Floodgate segment is found, and the hostname comes back |
| `Floodgate.IdentityRoundTrip` | foton-bedrock/src/floodgate.rs:78-249 | fields sealed, put into a hostname, extracted, decrypted and parsed are the fields, and the hostname is the original |
| `GeyserSupervision.Supervisor.Respawn` | foton-bedrock/src/geyser.rs:859-900 | the retry loop takes exactly the steps of the restart state machine, sleeps and children included |
| `GeyserSupervision.Supervisor.Supervise` | foton-bedrock/src/geyser.rs:905-948 | every run ends in the state machine's state with the machine's sleeps, its most children at once, and no child left once it is over |
| `GeyserSupervision.TwoChildrenExactly` | foton-bedrock/src/geyser.rs:915-946 | at most one child runs at any time, except two if and only if one starts after a failed wait |
| `GeyserSupervision.ChildrenAtRest` | foton-bedrock/src/geyser.rs:905-948 | a supervisor that has stopped leaves no child, and one that watches has exactly its own |
| `GeyserSupervision.BackoffFollowsFailures` | foton-bedrock/src/geyser.rs:867-888 | in every run the backoff is two to the number of failures in seconds, capped |
| `GeyserSupervision.SleepsAreShort` | foton-bedrock/src/geyser.rs:868-888 | every sleep of every run is 1, 2, 4 or 8 seconds: the cap never binds |
| `GeyserSupervision.RestartsAreBounded` | foton-bedrock/src/geyser.rs:868-900 | a run with H healthy exits makes at most 4(H+1) spawn attempts |
| `GeyserSupervision.FourBetweenHealthyExits` | foton-bedrock/src/geyser.rs:868-900 | any stretch of a run without a healthy exit has at most four spawn attempts |
| `GeyserSupervision.GivesUpExactly` | foton-bedrock/src/geyser.rs:868-876 | the supervisor gives up exactly at the fifth exit or failed spawn in a row, a healthy child's exit counting as the first |
| `GeyserSupervision.CrashLoopEnds` | foton-bedrock/src/geyser.rs:868-932 | children that all die within sixty seconds are restarted four times at most, and given up exactly at the fifth exit or failed spawn |
| `GeyserSupervision.CrashLoopSleeps` | foton-bedrock/src/geyser.rs:868-932 | such a loop waits 1, 2, 4 and 8 seconds, in this order |
| `GeyserSupervision.LongLivedChildren` | foton-bedrock/src/geyser.rs:929-932 | after children that all live sixty seconds every wait is one second, and without failed spawns the supervisor never gives up |
| `GeyserSupervision.CancellationEnds` | foton-bedrock/src/geyser.rs:884-923 | after the token fires at most one more child is spawned and four outcomes later all is over |
| `GeyserConfig.YamlQuote` | foton-bedrock/src/geyser.rs:249-264 | the loop quotes the text character by character |
| `GeyserConfig.QuoteReadBack` | foton-bedrock/src/geyser.rs:249-264 | unescaping reads back exactly the text with nothing spilled, if and only if it has no control character YAML forbids |
| `GeyserConfig.QuotedIsOneLine` | foton-bedrock/src/geyser.rs:253-259 | the quoted text has no raw line break |
| `GeyserConfig.RendersLines` | foton-bedrock/src/geyser.rs:287-320 | the file falls into exactly its lines, whatever the MOTD and the key path |
| `GeyserConfig.SettingsReadBack` | foton-bedrock/src/geyser.rs:287-320 | every setting stands under its section, and both ports, the MOTD and the key path are read back |
| `GeyserConfig.EscapesOfYaml` | foton-bedrock/src/geyser.rs:253-259 | the five escapes are those of YAML 1.2.2 |
| `GeyserConfig.CarriedExactly` | foton-bedrock/src/geyser.rs:249-264 | which characters are not read back |
| `GeyserConfig.MotdOnlySetsItsValue` | foton-bedrock/src/geyser.rs:289-296 | two nonempty MOTDs give files that differ in one line, which has the same key and the MOTD as its value |
| `KeyRace.StepKeepsInv` | foton-bedrock/src/key.rs:45-105 | every step of every process keeps all of them in agreement with the file, and at most one writer |
| `KeyRace.RunKeepsInv` | foton-bedrock/src/key.rs:45-105 | so does every run |
| `KeyRace.KeysAgree` | foton-bedrock/src/key.rs:45-105 | all processes that return a key return the same sixteen bytes, which are the file |
| `KeyRace.ReturnedKeyWasDrawn` | foton-bedrock/src/key.rs:54-91 | on a first start every returned key is the one drawn by the process that made the file |
| `KeyRace.ReturnedKeyWasStored` | foton-bedrock/src/key.rs:45-52 | with a file to start from every returned key is its content |
| `KeyRace.ReturnedKeyIsFinal` | foton-bedrock/src/key.rs:59-91 | from the first return on the file is that key in every continuation |
| `KeyRace.SucceedsUnlessBroken` | foton-bedrock/src/key.rs:59-105 | a process at work can still obtain a key if and only if the file is not a wrong-sized one without a writer |
| `KeyRace.BrokenForever` | foton-bedrock/src/key.rs:94-105 | such a file stays, and no start ever succeeds |
| `KeyRace.KilledCreatorBreaksTheFile` | foton-bedrock/src/key.rs:59-62 | one kill between creating and writing leads there |
| `KeyRace.SharedKey.InitShared` | foton-bedrock/src/key.rs:154-156 | the first call wins and later ones change nothing |
| `Certification.CertifiedSet` | dev/plugin_compat.py:191-204 | the loop ends, and certifies exactly the artifacts all of whose required dependencies, transitively and themselves included, pass without a cycle |
| `Certification.CertifiedIsDeserving` | dev/plugin_compat.py:191-204 | any set reached by the rule that it cannot extend is that set, whatever the order |
| `Certification.DeservingIsLeast` | dev/plugin_compat.py:192-204 | it is contained in every set the rule cannot extend |
| `Certification.DeservingIsFixed` | dev/plugin_compat.py:201-204 | an artifact is certified if and only if it passes and all it requires is certified |
| `Certification.RowOrderDoesNotMatter` | dev/plugin_compat.py:197-204 | permuting the manifest changes nothing |
| `Certification.UniqueExactly` | dev/plugin_compat.py:58-64 | no identity occurs twice exactly when there are as many identities as rows |
| `JsonPointers.EscapeRoundTrip` | dev/compat/compare.py:123 | unescaping undoes escaping for every member name, and an escaped name has no slash |
| `JsonPointers.ReportedPathReaches` | dev/compat/compare.py:120-128 | a path written on the way down leads `_pointer` back to its place if and only if the place is not the whole tree |
| `JsonPointers.IndicesOfPython` | dev/compat/compare.py:126-127 | a list of n elements is indexed from -n to n - 1 |
| `JsonPointers.RootReportLeadsNowhere` | dev/compat/compare.py:174-175 | the smallest trees where the reported root path names nothing, or another place |
| `ObservationCompare.NormalizeObservation` | dev/compat/compare.py:131-147 | the loop applies the rules in turn, or raises at the first that does not fit |
| `ObservationCompare.NormalizedView` | dev/compat/compare.py:131-147 | normalizing changes the masked places and no other |
| `ObservationCompare.OnlyValidValuesAreMasked` | dev/compat/compare.py:139-146 | only a value its rule's kind accepts is ever masked |
| `ObservationCompare.MaskedExactly` | dev/compat/compare.py:139-146 | a port is a number from 1 to 65535, a UUID or timestamp a text its expression matches, and nothing else is masked |
| `ObservationCompare.Comparison.Walk` | dev/compat/compare.py:155-175 | the recursion appends one report for every place where the trees differ, none twice, and nothing else |
| `ObservationCompare.OneReportOnePlace` | dev/compat/compare.py:155-175 | no two differing places have the same report |
| `ObservationCompare.CompareObservations` | dev/compat/compare.py:150-178 | it raises exactly when a normalizer does, and otherwise reports exactly the differing places |
| `ObservationCompare.NothingReportedIffSame` | dev/compat/compare.py:155-178 | nothing is reported if and only if both trees hold the same values of the same types everywhere and no NaN |
| `ObservationCompare.SameIsEqual` | dev/compat/compare.py:174 | being the same everywhere is structural equality |
| `ObservationCompare.ComparesEqualExactly` | dev/compat/compare.py:150-178 | no difference if and only if the trees agree, type for type, away from the masked places, and carry the same masks there |
| `ObservationCompare.ReportedPathsLead` | dev/compat/compare.py:155-175 | every reported path leads to a place where the trees differ, unless they differ as a whole |

## Left out

- Report filing: HTTP, webhook signatures, label colours, environment variables, issue text, how an issue's state and labels give its status (the answer carries the status), and the JSON lines format, which does not survive U+0085, U+2028 or U+2029; retry loops are steps with an attempt counter instead of loops, because other invocations move between them.
- `ReportFilingRuns.OneIssuePerReport`: excludes listings answered 404 while an issue of that report exists, where the code does open a second one; `OneIssueUnlessMisled` covers those runs too.
- `GotRelaxScan.Scan`: starts from decoded instructions; the regular expressions over objdump's text, and digits outside ASCII, are not modelled.
- `Bytecode.CodeAccesses`: the constant pool is a map from index to member reference, so a malformed pool entry is a missing one.
- `BytecodeEdges.CodeEdges`: states no result for code on which the source never ends.
- Class world: `abstract_methods`, whose result depends on parent order in diamonds, and zip reading, size limits and JDK extraction.
- Enchantments: the three evaluators are three methods over one definition of the connectives; one draw per chance node stands for the random number; floats are reals; the effects themselves live in crates outside this model.
- NBT: Python's recursion limit.
- Floodgate: the Java user name and UUID, and the text of error messages.
- Geyser: downloading, log relaying, process spawning itself and the three comment lines of the configuration file.
- `GeyserConfig.QuoteReadBack`: the hexadecimal escapes of YAML and multi-line scalars are not read, because the writer never produces them.
- Key file: permission bits, directory creation and file-system errors beyond a failed step.
- `Certification.CertifiedSet`: of manifest validation only identities and dependencies, and a row's own checks as one outcome; the product counts and status words of the report are left out.
- Comparison: `sorted` only orders the report, so `Walk` visits members in any order; malformed rules, and what `int` accepts beyond an optional sign and ASCII digits, are not modelled; negative zero is zero.
- The generators, the site, dialogs, benchmarks, the packet-reporting code of dev/join.py and the world configuration would only add easier members.
