# Kizuki release and evidence toolchain: a verified model

Kizuki's `scripts/` directory holds the tools that decide whether a build may be released: they read proofs, pack and unpack
archives, keep journals, score extractions, inspect CI history, mask published history, and clean up after themselves. The shell
around them is I/O; inside each is an algorithm whose promise is easy to say and not easy to see in the code. This project models
those algorithms in Dafny and proves the promises for every input, every run and every behaviour of the world outside.

Each module models one script, or one part of it. Code that works step by step is a method with loops and, where it keeps state
between calls, a class; each is proved against a specification that does not mention the steps. Exceptions are results. What lies
outside (hashing, compression, git, the service manager, the file system, a clock) is a parameter or a nondeterministic choice.

| module | what it is about |
|---|---|
| `JsonGrammar`, `JsonParser` | the grammar of RFC 8259 as syntax trees, and the JSON.parse stand-in, which accepts exactly that grammar |
| `ProofJson` | the bounded reader: a flat token scan with a stack of key sets, against the recursive reading of depth and duplicate names |
| `CanonicalJson` | the canonical printer: equal texts mean equal values up to member order |
| `Octal`, `PackageArchive` | the ustar writer and strict reader inside a canonical gzip member: mutual inverses |
| `QualificationJournal`, `JournalCodec` | the lock-protected, hash-chained journal, as a step system with samplers, torn writes, crashes, removed locks and lock-free readers; and the JSON codec that meets its assumptions |
| `EngineSession` | the streaming session against the batch parse of the same output |
| `ExtractionScore`, `GreedyMatching` | greedy matching of drafts with reference claims, and when it is optimal |
| `SourceClosure` | the bounded import worklist against reachability |
| `SkillRepair` | repair and rollback on a disk that may fail or stop at any point |
| `WorkflowAttempts` | paged listings, and the choice of a workflow's current attempt |
| `HistoryMask` | frames, pinned spans and masking of published commit messages |
| `GateEvaluation` | gate receipts, the offline evaluation and the release decision |
| `FixtureCleanup` | cleaning up owned services when any call may throw |
| `TraceProjection` | the bounded syscall trace and the namespace id map |
| `Utf8`, `NoticeLayout` | the notice builder against its own verifier, down to the bytes |
| `LifecycleSteps` | one cursor over the recorded steps, the phases and services, and the cleanup list |
| `Bytes`, `UnicodeText`, `TextOrder`, `Lines`, `Sequences`, `Sorting`, `Intervals`, `Wrappers` | what several of the above share |

Text is a sequence of UTF-16 code units and a byte is a number below 256. A hash that has to be collision-free is an injective
function; every other foreign function is arbitrary.

## What turned out otherwise

Each of these has a lemma at inputs that show it, and a theorem that says when it happens.

- Greedy matching is not optimal: two claims and two drafts that could all be matched may yield one match
  (`GreedyMatching.GreedyCanMiss`). A reference list is safe, whatever the drafts, exactly when of any two claims that overlap the
  later covers the earlier (`GreedyMatching.GreedyIsMaximum`); on any list at least half of the best is found.
- A repair writes the canonical bytes through a temporary sibling. If the canonical file itself stands at that sibling's path it is
  consumed (`SkillRepair.CanonicalConsumed`); `SkillRepair.CanonicalSurvives` says that this is the only case in which it does not
  stay sound.
- When gate receipts cannot be mapped to gates, the reason given depends on the order of the receipts (`GateEvaluation.ReasonsDiffer`),
  exactly when they name each gate once and contain both an unknown producer and a mismatched gate
  (`GateEvaluation.ReasonDependsOnOrder`). No status and no other gate depends on it.
- The notice builder does not always satisfy its own verifier: an empty licence text and one in Latin-1 are laid out and then refused
  (`NoticeLayout.RefusedTexts`). `NoticeLayout.BuilderSatisfiesVerifier` gives the exact condition on what the builder is given.
- A journal's last hash fixes the entries, not the spelling of the lines that hold them: a line is parsed before it is hashed again
  (`JournalCodec.TwoSpellings`, on lines of JSON). With lines read as JSON.parse reads them, every accepted journal that is neither
  empty nor at the byte limit has another spelling (`QualificationJournal.SpacedTwin`), and just one that is as the samplers print it
  (`QualificationJournal.PrintedTwin`); among printed journals the last hash fixes the whole text
  (`QualificationJournal.PrintedIdentifies`).

## Model

| member | source | states |
|---|---|---|
| JsonParser.ParseExactlyJson | scripts/proof-json.ts:29 | The parser that stands for JSON.parse accepts a text exactly when it is a text of the RFC 8259 grammar. |
| JsonParser.DocumentComplete | scripts/proof-json.ts:29 | Parsing the text of any syntax tree, in any whitespace and any choice of escapes, gives back that very tree. |
| JsonParser.NodeSound | scripts/proof-json.ts:29 | Whatever the parser returns is a valid tree whose text is exactly what it consumed. |
| JsonParser.Unambiguous | scripts/proof-json.ts:29 | No text has two syntax trees, so depth and names are properties of the text. |
| ProofJson.ParseProofJson | scripts/proof-json.ts:9-31 | Success exactly when the input is within the byte limit and is the text of a tree at most 32 deep without repeated names at any depth; the result is that tree's value. Each refusal of a grammatical text is the one that the recursive reading gives; any other text is refused for the first fault of the scan, as invalid where the scan finds none or nothing decodes. |
| ProofJson.ScanTokens | scripts/proof-json.ts:13-29 | The indexed token loop over the raw text refuses exactly when the recursive specification of the scan does, with the same reason. |
| ProofJson.MatchString | scripts/proof-json.ts:14 | The string alternative of the token pattern, matched step by step, ends where the specification says: at the first quote that no backslash stands before, unless a backslash stands before a line terminator or the end. |
| ProofJson.ReadString | scripts/proof-json.ts:20-28 | Looking past whitespace for a colon decides whether a string token is a key, and a key that the innermost object already has is the only thing refused. |
| ProofJson.ScanDocument | scripts/proof-json.ts:10-28 | On the text of any tree the flat scan finds what the recursive check finds, and otherwise closes everything that it opened. |
| ProofJson.CheckNodeMeaning | scripts/proof-json.ts:12-28 | The recursive check passes exactly the trees that are shallow enough and repeat no name in any object; a depth fault means too deep, a duplicate fault means a repeated name. |
| ProofJson.CheckSameValue | scripts/proof-json.ts:12-28 | The verdict depends on the value alone: two spellings of one value, whatever their whitespace and escapes, are judged alike. |
| ProofJson.StepString | scripts/proof-json.ts:14-22 | The token pattern takes exactly one whole string literal, escapes included, whatever follows it. |
| CanonicalJson.CanonicalText | scripts/evaluate-extraction.ts:101-109 | What is printed is the compact text of the normalised value's syntax tree, so printing is within the grammar. |
| CanonicalJson.CanonicalRoundTrip | scripts/evaluate-extraction.ts:101-109 | The printed text parses, to the same value with sorted members. |
| CanonicalJson.SameNormal | scripts/evaluate-extraction.ts:101-109 | Two values are equal up to member order, at every depth, exactly when sorting their members makes them equal. |
| CanonicalJson.CanonicalInjective | scripts/evaluate-extraction.ts:101-109 | Two values print alike exactly when they are the same JSON value up to the order of members. |
| CanonicalJson.DigestIdentifies | scripts/evaluate-extraction.ts:111-113 | Under a collision-free hash, two corpora have one digest exactly when they are the same up to the order of members. |
| Octal.FieldRoundTrip | scripts/release-download.ts:46-53 | A number below 8 to the power of the field's width, padded with zeros, reads back from its octal digits. |
| PackageArchive.FillHeader | scripts/release-download.ts:46-54 | The buffer that is filled field by field, summed with a blank checksum field and then patched is the header of the specification, byte for byte. |
| PackageArchive.HeaderReadsBack | scripts/release-download.ts:46-54 | In every header the size field reads back as the size, and the checksum field as the byte sum of the header with that field blanked. |
| PackageArchive.WriteTar | scripts/release-download.ts:69-72 | The blocks pushed in the loop, joined, are the seven entries and the closing blocks of the specification. |
| PackageArchive.ReadMember | scripts/release-download.ts:91-98 | Reading one member at an offset agrees with cutting it off the front of the rest of the stream, refusals included. |
| PackageArchive.ReadMembers | scripts/release-download.ts:89-100 | The loop over offsets returns what the recursive reader returns on the whole stream. |
| PackageArchive.ReadWrittenTar | scripts/release-download.ts:67-101 | Whatever members within their limits are written, the strict reader returns exactly those. |
| PackageArchive.WriteReadTar | scripts/release-download.ts:67-101 | Whatever stream the strict reader accepts is, byte for byte, what the writer makes of the members read from it. |
| PackageArchive.RawLimitValue | scripts/release-download.ts:31-32 | The bound on the unpacked size that the seven limits give is 541,790,720 bytes, which a 32-bit length trailer can announce. |
| PackageArchive.WrittenArchiveFits | scripts/release-download.ts:33-41 | Every admitted stream, compressed by any codec within zlib's bound, passes the reader's header, length and size checks and expands to itself. |
| PackageArchive.CreatePackageArchive | scripts/release-download.ts:67-74 | An archive is made exactly of members that are all there, none else, within their limits, and of which a build can be read; it is then the one canonical gzip of their tar stream. Otherwise the refusal says which of these failed. |
| PackageArchive.ParsePackageArchive | scripts/release-download.ts:75-101 | The reader's checks and loops return what the specification of strict reading returns, reason included; under the codec contract, members and build are returned exactly when the archive is the canonical gzip of the members' tar stream, the members are complete and within their limits, the build is the one read from them, and a source that is asked for is the build's own. |
| PackageArchive.ParsedExactly | scripts/release-download.ts:55-101 | The same of the specification itself: what is read, and from which archives, with each check on the contents spelt out. |
| PackageArchive.CreatedExactly | scripts/release-download.ts:55-74 | What is created, and from which contents, spelt out likewise, together with the reason for each refusal. |
| PackageArchive.InspectionMeaning | scripts/release-download.ts:55-66 | Contents pass inspection exactly when they are complete, within their limits, yield a build, and that build is of the source asked for. |
| PackageArchive.ParseCreated | scripts/release-download.ts:67-101 | Parsing any created archive returns the members it was created from, and the build they describe. |
| PackageArchive.CreateParsed | scripts/release-download.ts:75-101 | Any archive that parses is exactly the one that creating from its own members gives. |
| PackageArchive.ArchiveBijection | scripts/release-download.ts:67-101 | An archive parses to given members and build exactly when it is the archive created from those members and they are admitted with that build. |
| PackageArchive.GzipContractCanBeMet | scripts/release-download.ts:33-41 | The facts assumed of the compressor can all hold at once: a codec that only stores meets them. |
| QualificationJournal.LoadJournal | scripts/qualification.ts:178-191 | The loading loop accepts exactly the texts whose ended lines form one chain from the genesis hash, and returns its entries and last hash; a torn tail is refused. |
| QualificationJournal.LastHashIdentifies | scripts/qualification.ts:183-190 | Two linked chains from one genesis with one last hash are equal entry for entry, whatever their lengths. |
| QualificationJournal.TamperingShows | scripts/qualification.ts:183-190 | Of two accepted journals, the last hashes are equal exactly when the entries are; so any edit, reordering, removal or insertion is refused or shows. |
| QualificationJournal.CollectReceipts | scripts/qualification.ts:234-239 | The filter with its mutable map computes the specified collection, or refuses when a row contradicts a known run. |
| QualificationJournal.CollectCredits | scripts/qualification.ts:234-239 | What a collection credits was not known before, is credited once, comes from the rows and finished late enough. |
| QualificationJournal.CollectComplete | scripts/qualification.ts:234-239 | A run that was not known and appears only with late enough rows is credited. |
| QualificationJournal.CollectExactly | scripts/qualification.ts:234-239 | A collection is refused exactly when a row contradicts a credited run or an earlier row; otherwise it credits exactly the new runs. |
| QualificationJournal.NewRunsAre | scripts/qualification.ts:234-239 | A row is credited exactly when it is the first of its run, finished late enough, and the run has no credit on file. |
| QualificationJournal.BeginExactly | scripts/qualification.ts:297-312 | The entry that a sampler starts to write follows the loaded ones, is hashed over its own content, keeps the file within its limit, and credits exactly the new runs of its rows; none if the rows are refused or absent. |
| QualificationJournal.StepKeepsInv | scripts/qualification.ts:292-317 | Every step of every sampler, a crash and the removal of a dead sampler's lock included, keeps the journal a linked chain with at most one partial line, owned by the lock's holder, and no run credited twice. |
| QualificationJournal.JournalOnlyGrows | scripts/qualification.ts:292-317 | Over any run of any number of samplers the file only grows, its whole entries only grow, they stay linked, and no run id is ever credited twice. |
| QualificationJournal.ReaderSeesPrefix | scripts/qualification.ts:318-324 | A reader without a lock, who may see any front part of the file, refuses it exactly when it is torn or past a limit, and never as broken; otherwise it gets a valid chain that is a front part of what is on file then and ever after. |
| QualificationJournal.NeverTooLong | scripts/qualification.ts:312-313 | Over any run the journal on file stays within the byte limit that every load asks of it. |
| QualificationJournal.ReaderRefused | scripts/qualification.ts:178-191 | A reader is refused as torn exactly when what it sees does not end a line, and otherwise only for too many rows. |
| QualificationJournal.LineCanTear | scripts/qualification.ts:312-317 | A crash or a failed write in the middle of a line can happen; it leaves the journal as it is, and no one completes that line. |
| QualificationJournal.NoFork | scripts/qualification.ts:318-324 | Of the chains that any two readers accept at any two times, one continues the other. |
| QualificationJournal.TornStaysTorn | scripts/qualification.ts:180-181 | After a write was torn and abandoned, no later sampler changes the journal, and every load refuses it. |
| QualificationJournal.MutualExclusion | scripts/qualification.ts:294-295 | At most one process is past the exclusive creation of the lock file. |
| QualificationJournal.CrashRecovers | scripts/qualification.ts:292-317 | If a crash left no torn line, then once the dead sampler's lock is removed any other sampler can acquire, load, collect, write and release; the credits on file are then those from before and, with their digests, exactly the new runs of its rows that finished late enough. |
| QualificationJournal.PrintedIdentifies | scripts/qualification.ts:183-190 | Of two accepted journals whose lines are the prints of their entries, the last hashes are equal exactly when the texts are. |
| QualificationJournal.PrintedTwin | scripts/qualification.ts:180-190 | Every accepted journal has one printed text with the same entries and last hash, which is accepted exactly if it is short enough; a journal is that text exactly when its lines are as printed. |
| QualificationJournal.SpacedTwin | scripts/qualification.ts:185-188 | Where leading spaces are skipped, a space in front of any accepted journal that is neither empty nor at the limit is accepted too, with the same entries. |
| QualificationJournal.RunPrints | scripts/qualification.ts:310-313 | At every moment of every run the ended lines on file are the prints of the entries that they hold. |
| QualificationJournal.SameHashSameText | scripts/qualification.ts:318-324 | Two readers of one run, at any two times, whose chains end in one hash have read the same text. |
| JournalCodec.CodecContractCanBeMet | scripts/qualification.ts:183-190 | Printed by JSON.stringify, parsed by JSON.parse and checked for exactly its four members, entries meet all that is assumed of the printed forms, and leading spaces are skipped, whatever the genesis line and for a hash that loses nothing. |
| JournalCodec.EntryReadsBack | scripts/qualification.ts:186-187 | An entry's object decodes, member by member, to the entry that it was made from. |
| JournalCodec.TwoSpellings | scripts/qualification.ts:185-188 | After any genesis record within its limit, two different texts with lines of JSON are accepted as the same entries with the same last hash. |
| EngineSession.BatchIsComplete | scripts/artifact-engine.ts:154-161 | The batch parser accepts exactly the outputs with two ended lines, both valid replies, and nothing after them. |
| EngineSession.Session.OnLine | scripts/artifact-engine.ts:93-105 | A line is accepted only as the valid reply of the current phase; the notification and the tool call go out exactly when the initialize reply is accepted, and stdin closes exactly at the second reply. |
| EngineSession.Session.TakeLines | scripts/artifact-engine.ts:119-124 | However the text arrived, the loop over what is pending leaves the phase equal to the number of ended lines, or fails exactly when they are not the start of a valid session. |
| EngineSession.Session.OnStdout | scripts/artifact-engine.ts:111-133 | A chunk keeps the session reading exactly when the total stays within the limit, it decodes, and all ended lines are valid; otherwise the failure is the one already there, or else the limit if that is what was passed, or else an invalid response. |
| EngineSession.Session.OnStderr | scripts/artifact-engine.ts:111-133 | stderr is only counted: it stops at the limit or at a fault, with the failure that this is, and touches nothing else. |
| EngineSession.CollectEngineProcess | scripts/artifact-engine.ts:79-151 | For every way of cutting and interleaving the output, success exactly when the transport was sound, the child exited with 0 and the batch parser accepts the whole output; the error is otherwise what the first event that broke the session stands for, or an invalid response if none did; and the tool call is never sent before a valid initialize reply. |
| Lines.SplitAppend | scripts/artifact-engine.ts:119-124 | Splitting a text at line feeds can be done in two parts, joining the piece that the cut runs through. |
| Lines.SameLines | scripts/qualification.ts:180-181 | Texts with the same ended lines and nothing after them are the same text. |
| ExtractionScore.SameSetMeaning | scripts/evaluate-extraction.ts:255 | Comparing the sorted lists element by element decides equality as multisets. |
| ExtractionScore.AssignIsMatching | scripts/evaluate-extraction.ts:280-293 | Every claim is matched at most once, and only with a draft whose tuple matches it. |
| ExtractionScore.AssignIsMaximal | scripts/evaluate-extraction.ts:280-283 | A draft stays unmatched only if every claim that it matches was taken. |
| ExtractionScore.AtLeastHalf | scripts/evaluate-extraction.ts:280-293 | Against any matching whatever, and for any order of the drafts, the scorer finds at least half as many. |
| GreedyMatching.OverlapMeaning | scripts/evaluate-extraction.ts:255-261 | Two claims agree in their single fields and share an object and a citation set exactly when some draft matches both. |
| GreedyMatching.WithinMeaning | scripts/evaluate-extraction.ts:255-261 | Of two overlapping claims, the second has all objects and citation sets of the first exactly when it matches every draft that the first does. |
| GreedyMatching.AssignChoosesFirst | scripts/evaluate-extraction.ts:279-283 | A draft passes over a claim that it matches only if an earlier draft took it. |
| GreedyMatching.Exchange | scripts/evaluate-extraction.ts:279-283 | Any matching that agrees with the scorer's on the first drafts can be made to agree on one more without losing a match. |
| GreedyMatching.GreedyIsMaximum | scripts/evaluate-extraction.ts:277-293 | For a list of claims with distinct ids, the scorer finds a largest matching for every list of drafts exactly when of any two overlapping claims the later covers the earlier; otherwise no more drafts than claims, worded as the claims are, show a miss. |
| GreedyMatching.GreedyCanMiss | scripts/evaluate-extraction.ts:182-283 | The bound of one half is met by claims of the form that the corpus validation asks for: two claims and two drafts that could all be matched, of which the scorer matches one pair. |
| ExtractionScore.UnsupportedFaults | scripts/evaluate-extraction.ts:281-291 | The remarks on an unmatched draft are exactly those that the first claim with its predicate and object gives rise to, plus a citation fault for a foreign record. |
| ExtractionScore.ScoreDraft | scripts/evaluate-extraction.ts:280-299 | What one draft is told is exactly what its body, its label and, without a claim, its support give cause for; the label floor is that of its claim, or the highest without one. |
| ExtractionScore.ScoreDrafts | scripts/evaluate-extraction.ts:277-300 | The loop takes exactly the specified claims, counts exactly the drafts without one, the missed bodies and the low labels, and collects exactly the faults of its drafts. |
| ExtractionScore.FinalCounts | scripts/evaluate-extraction.ts:301-302 | As many ids are taken as drafts are matched, never more than there are claims, and all of them exactly when every claim is matched. |
| ExtractionScore.ScoreCase | scripts/evaluate-extraction.ts:269-309 | Counts are conserved against drafts and claims; every failure is there exactly when the reply, a draft or the claims as a whole give cause for it; and there is none exactly when the reply is sound and its drafts and claims are in perfect one-to-one correspondence with accepted bodies and labels. |
| ExtractionScore.ScoreExtraction | scripts/evaluate-extraction.ts:267-324 | Over a corpus the true positives are the matched drafts of all cases and the unscored bodies those among them with a body that is not their claim's; false positives and negatives are what is left of all drafts and all claims; every row is as above; and the corpus passes exactly when every case does. |
| SourceClosure.ScanImports | scripts/release-evidence.ts:464-484 | The import loop fails only for a refused import or one beyond the cap; otherwise it leaves pending exactly what was there and the internal imports, and counts all but the built-in ones. |
| SourceClosure.BindFile | scripts/release-evidence.ts:440-449 | One file is bound and its bytes added, or the file is unreadable, or with it a cap would be passed. |
| SourceClosure.BindMetadata | scripts/release-evidence.ts:488-490 | Binding the metadata files after the graph completes the closure or finds the fault. |
| SourceClosure.ClosedHolds | scripts/release-evidence.ts:453-487 | A set with the entrypoints that is closed under imports contains every file that any chain of imports reaches. |
| SourceClosure.SubWeight | scripts/release-evidence.ts:440-447 | Distinct files among others are no more and weigh no more than those, so a cap once passed is passed by the whole closure. |
| SourceClosure.NoFault | scripts/release-evidence.ts:453-492 | When the worklist is empty and the metadata bound, no reachable file is bad and no set of files that belong passes a cap. |
| SourceClosure.CollectProductSources | scripts/release-evidence.ts:433-492 | Terminates on cyclic imports too; refuses exactly when a reachable file is unsound or a cap is passed by files that belong; otherwise returns, once each, exactly the reachable files and the metadata, within the caps. |
| SkillRepair.PreviewMeaning | scripts/skill-provenance.ts:324-388 | A path is previewed as the first host that the lock has for it, and refused if it is none. A copy can be restored exactly when its entry locks one digest, the canonical file gives no provenance complaint and the copy gives one; it is left alone exactly when neither does; otherwise the refusal names the first of these to fail. A pointer is left alone or refused, as its bytes are or are not as locked. |
| SkillRepair.Disk.WriteNew | scripts/skill-provenance.ts:554-576 | Exclusive creation never writes over a file; at every instant the new file holds a front part of its bytes and nothing else has changed. |
| SkillRepair.Disk.KeepBackup | scripts/skill-provenance.ts:578-592 | A backup already there is never written; other bytes under its name are reported; on success exactly the given bytes are on record. |
| SkillRepair.Disk.Replace | scripts/skill-provenance.ts:554-576 | At every instant the file holds all of its old bytes or all of the new ones, and only its temporary sibling changes besides. |
| SkillRepair.Disk.MoveOver | scripts/skill-provenance.ts:566-575 | The temporary sibling takes the file's place in one step; if it cannot, it is removed, and nothing is left behind unless that fails too. |
| SkillRepair.Disk.RepairAdoption | scripts/skill-provenance.ts:606-643 | At every instant, a crash included, the destination is whole, new bytes appear only once the old ones are backed up, and no other path changes; a repair throws exactly if an operation failed, and finishes only if it could, and then the host has nothing left to complain of; where nothing is to be done, the receipt says why. |
| SkillRepair.Disk.RollbackAdoption | scripts/skill-provenance.ts:646-687 | A rollback happens exactly for a recorded copy with a backup that differs, and restores the backup's bytes through the same atomic replacement; it throws exactly if an operation failed, and in every other case the receipt says why nothing was done. |
| SkillRepair.RepairThenRollback | scripts/skill-provenance.ts:606-687 | A repair that does not throw restores exactly if it can; a rollback with the returned backup then either throws or undoes it, and leaves every path but the temporary sibling and the backup as it was; neither throws unless an operation failed. |
| SkillRepair.CanonicalSurvives | scripts/skill-provenance.ts:236-260 | After a finished repair the canonical file is still sound exactly unless it stood where the temporary sibling goes. |
| SkillRepair.CanonicalConsumed | scripts/skill-provenance.ts:554-576 | A lock and files for which a repair finishes and the canonical file is gone. |
| SkillRepair.RepairSettles | scripts/skill-provenance.ts:324-388 | After a finished repair the preview finds nothing to do, with the same one exception. |
| WorkflowAttempts.Pages | scripts/github-release-evidence.ts:119-134 | Success exactly when some number of pages is a complete listing (one total throughout, every page but the last full, and the total reached) and the budget grants one request a page; the result is that listing. |
| WorkflowAttempts.LatestIsMaximum | scripts/github-release-evidence.ts:140-145 | Sorting and one look at the second row find the one attempt that started after all others, and refuse exactly when there is none such among some. |
| WorkflowAttempts.InspectRun | scripts/github-release-evidence.ts:184-206 | A run is accepted exactly when it is unchanged, its event is allowed, its attempts 1 to n all belong to it and started one after the other, the last being the run itself, and the budget grants the n + 1 requests; pending is set exactly when one is unfinished. |
| WorkflowAttempts.LastIsLatest | scripts/github-release-evidence.ts:189-194 | Within an accepted run every attempt started before the last one. |
| WorkflowAttempts.LatestOfAll | scripts/github-release-evidence.ts:184-207 | The latest among the last attempts of all runs is the latest among all attempts of all runs, and conversely. |
| WorkflowAttempts.SelectionIsCurrent | scripts/github-release-evidence.ts:140-207 | The selection succeeds exactly when the runs share one workflow and one attempt is the latest of all, and it is that attempt. |
| WorkflowAttempts.OfWorkflowIs | scripts/github-release-evidence.ts:179 | The history of a workflow is every listed run with its path, as often as it is listed, and no other. |
| WorkflowAttempts.FilterRuns | scripts/github-release-evidence.ts:179 | The filter loop returns that history. |
| WorkflowAttempts.SelectLatest | scripts/github-release-evidence.ts:140-145 | The selection in the code is the specified one. |
| WorkflowAttempts.JudgeJobs | scripts/github-release-evidence.ts:211-236 | Going through the listed jobs and their steps rejects them, passes them or fails them exactly as the specification over the complete listing says, within the budget. |
| WorkflowAttempts.JudgeMeaning | scripts/github-release-evidence.ts:211-236 | The jobs pass exactly when the attempt succeeded, the listing is complete without repeated ids, names or step numbers, the listed jobs are by name the required ones and no others, and each of them succeeded with every step of its definition in its place, under its name and with its outcome. |
| WorkflowAttempts.InspectWorkflow | scripts/github-release-evidence.ts:178-236 | PASS exactly when the history is coherent, no attempt anywhere in it is unfinished, and the unique attempt that started last of all succeeded and its jobs pass; MISSING exactly when no listed run has the workflow's path; and exactly when the whole is refused, the budget included. A row that passed speaks for the whole listing: every attempt of every run listed with the path is finished, and started before the selected one or is it. |
| WorkflowAttempts.ListRuns | scripts/github-release-evidence.ts:135-139 | The listing succeeds exactly when it is complete, repeats no id and is within the budget, and is returned in the order of the ids. |
| WorkflowAttempts.RereadWorkflow | scripts/github-release-evidence.ts:240-244 | Going through the selected attempts and their listed runs once more, two requests each, decides whether any run of the workflow or its last attempt has changed. |
| WorkflowAttempts.InspectCandidate | scripts/github-release-evidence.ts:162-246 | The observation succeeds exactly when the repository is the right one, the listing is complete and the same twice, every workflow can be judged, no judged run or last attempt reads differently the second time, and the exact number of requests that this takes, one by one, is within 256 and in time; its rows are then the judgements, each told over the runs listed with its path as above. |
| WorkflowAttempts.RowOverListing | scripts/github-release-evidence.ts:178-236 | What a row says of the listing itself, run by run and attempt by attempt. |
| WorkflowAttempts.SelectionStillCurrent | scripts/github-release-evidence.ts:238-244 | If the history is coherent at the second reading too, the attempt that was selected is still the latest of all. |
| HistoryMask.FrameCut | scripts/verify-history.ts:172-187 | A frame can be cut off a text in one way only: the NULs found are its own. |
| HistoryMask.ParseFramedCommitRecords | scripts/verify-history.ts:165-189 | Reading frames inverts writing them: a bounded text is accepted exactly when it is the frames of some records with distinct 40-digit ids and NUL-free messages, and those are returned; any other is refused as empty, too long, or for what comes first after its last good frame: no frame, or one that repeats an id. |
| HistoryMask.PinMap | scripts/verify-history.ts:191-200 | A pin list is accepted exactly when it is not empty, well formed and free of repeated ids, and then every pin is found under its id; the refusal names the first pin at fault. |
| HistoryMask.ValidateOccurrences | scripts/verify-history.ts:209-230 | Comparing neighbours in sorted order accepts exactly the lists, in any order, whose spans are identifiers inside the message and pairwise disjoint. |
| HistoryMask.ReplaceOccurrences | scripts/verify-history.ts:232-243 | The result is the message read byte by byte: a mask where a span begins, nothing for a covered byte, every other byte itself. |
| HistoryMask.RedactedPermutation | scripts/verify-history.ts:232-243 | The masked message does not depend on the order in which the spans are listed. |
| HistoryMask.MaskingIsExact | scripts/verify-history.ts:209-243 | The masked message is as long as the message less the spans plus one mask each, and with the removed spans the message can be restored exactly. |
| HistoryMask.MaskRecord | scripts/verify-history.ts:293-308 | An unpinned message is copied; a pinned one is masked, and only if it hashes as pinned, its spans are valid, and git stores it as framed, on published main; the refusal names the first of these to fail. |
| HistoryMask.MaskRecords | scripts/verify-history.ts:288-311 | Success exactly when every pinned record is admitted and every pin met a record, and else the fault of the first record that has one, or a missing record; counting what was seen is enough to know. |
| HistoryMask.SanitizeHistoricalCommitRecords | scripts/verify-history.ts:281-311 | Success exactly when the input is frames of records that the pins fit, each pin meeting exactly one record, and then the output is the one determined by them; a refusal carries the fault of the frames, or else of the pins, or else of the first record at fault. |
| GateEvaluation.GatesDistinct | scripts/go-no-go.ts:111-133 | For any lists of targets, journeys and connectors without repetitions no two gates have one id. |
| GateEvaluation.GatesListed | scripts/go-no-go.ts:111-133 | The list holds exactly the known gates; each starts out unpassed, without evidence and required but for four, with its own target, and a connector with the evidence that it asks for. |
| GateEvaluation.PresentPolicyValid | scripts/release-evidence.ts:19-38 | The lists of targets, journeys and connectors as they stand hold no repetition, so everything proved of such lists holds of them. |
| GateEvaluation.ReleaseDecision | scripts/go-no-go.ts:19-39 | GO exactly when the rows are known gates without repetition, hold every required gate unaltered, every required row passed and none failed; accepted exactly when moreover the profile is 1.0. |
| GateEvaluation.DecisionPermutation | scripts/go-no-go.ts:19-39 | The order of the rows never matters to the decision. |
| GateEvaluation.GoMeansEveryGate | scripts/go-no-go.ts:19-39 | A GO means that every required gate of the policy has a row that passed. |
| GateEvaluation.MappingPermutation | scripts/release-evidence.ts:239-247 | Whether receipts map to gates, and whether a gate is named twice, does not depend on their order. |
| GateEvaluation.ReasonDependsOnOrder | scripts/release-evidence.ts:239-247 | The reason for refusing a mapping is the same for every order exactly unless the rows, naming each gate once, have faults of both kinds. |
| GateEvaluation.ReasonsDiffer | scripts/release-evidence.ts:239-247 | Two receipts that are refused for two reasons, depending on which is listed first. |
| GateEvaluation.AllowedGateThere | scripts/release-evidence.ts:208-237 | Every receipt that a producer may submit names a gate of the policy. |
| GateEvaluation.AllowsByGate | scripts/release-evidence.ts:208-237 | What each producer may submit, by producer and by gate: a receipt is allowed exactly when its gate takes receipts from its producer, for its target. |
| GateEvaluation.MapReceipts | scripts/release-evidence.ts:239-247 | The loop gives the specified answer: a repeated gate first, then the first row with a fault. |
| GateEvaluation.ConsumeReceipts | scripts/go-no-go.ts:165-204 | One pass over the receipts changes each row by exactly the receipts that name it. |
| GateEvaluation.VerifyArtifacts | scripts/go-no-go.ts:147-155 | The artifact pass changes only the artifact row and the engine row of each target. |
| GateEvaluation.EachReceiptItsGate | scripts/go-no-go.ts:165-204 | The three passes together do to a gate exactly what its own receipt says, once, and nothing to a gate that no receipt names. |
| GateEvaluation.FinalTold | scripts/go-no-go.ts:135-206 | The final state of each gate, which the passes lead to step by step, is the one that the report is said to tell, field by field. |
| GateEvaluation.ReceiptOrderIrrelevant | scripts/go-no-go.ts:135-206 | Reordering the receipts of an index moves no gate; if the mapping is refused, only the reason on the index gate may differ. |
| GateEvaluation.BeyondReach | scripts/go-no-go.ts:135-206 | Independent review, the unfamiliar user, the lifecycle gates and the superseded gates end as they began, whatever the evidence. |
| GateEvaluation.PassIsEarned | scripts/go-no-go.ts:165-204 | A gate that receipts moved to PASS was named by an allowed receipt whose own evaluation returned PASS. |
| GateEvaluation.NeverGo | scripts/go-no-go.ts:1 | The final rows never satisfy the decision's condition, whatever the index holds and whatever any verification returns. |
| GateEvaluation.EvaluateRelease | scripts/go-no-go.ts:135-211 | Every row of the report is told from the index and what was found outside alone. A gate whose receipt is consumed shows its evaluation's own status and reason, with the receipt's digest exactly if it credits, or FAIL with the error's reason; a native attestation is judged beside the first verified package of its target. The rows of a target are as its artifact verified; the index row passes exactly if the index was read and its receipts map, and else gives the first fault; every other row stays as listed. The decision is NO-GO for every index. |
| FixtureCleanup.StopAndWait | scripts/native-service-lifecycle.ts:174-176 | With any clock, a unit is stopped once and then only asked for its state: again exactly while it was not seen stopped and the clock was short of the deadline; a wait that has not ended after some number of questions was right to ask all of them. |
| FixtureCleanup.CleanUnit | scripts/native-service-lifecycle.ts:171-184 | One unit's part of the trace: gone exactly when it was seen stopped and then without a pid marker; its definition deleted only then, and then always if it is there; errors counted exactly when something threw; and nothing but the wait as long as that goes on. |
| FixtureCleanup.CleanupOwnedNativeFixtures | scripts/native-service-lifecycle.ts:163-193 | For every host behaviour and every clock, one row per owned unit, last unit first, each true to the trace, up to a wait that goes on; if none does, the root is removed exactly when every unit is gone, every definition is gone and nothing threw. |
| FixtureCleanup.DeletionIsSafe | scripts/native-service-lifecycle.ts:177-178 | Over the whole trace a definition is deleted nowhere but directly after its own unit was seen stopped and without a marker. |
| FixtureCleanup.RootGoesLast | scripts/native-service-lifecycle.ts:186-191 | Once the root's removal is attempted, every unit was seen gone, its definition last found missing, and nothing had failed. |
| TraceProjection.PutMany | scripts/native-service-trace.ts:112 | Merging the maps keeps one entry per index and the right row at each. |
| TraceProjection.Merged | scripts/native-service-trace.ts:104-112 | The three windows, merged and sorted, are exactly the first 80, the last 40 and the last 40 failing rows, in order and once each. |
| TraceProjection.Take | scripts/native-service-trace.ts:104-109 | Inserting and evicting keeps the three windows what they are to be after one more row. |
| TraceProjection.ProjectNativeSyscallTrace | scripts/native-service-trace.ts:82-114 | The rows are exactly the selection from all matched rows, the omitted count is the exact complement, and the unmatched non-empty lines are counted. |
| TraceProjection.ProjectNativeIdMap | scripts/native-service-trace.ts:125-142 | A map file is accepted exactly when it is short enough, ends its last line, is not blank, and, trimmed, consists of few enough lines that are each a range within 32 bits, no two ranges meeting on either side. |
| UnicodeText.TrimLeaves | scripts/native-service-trace.ts:127 | Trimming takes nothing but space off both ends and leaves none there. |
| UnicodeText.TrimIs | scripts/native-service-trace.ts:127 | Whatever text without space at its ends is put between spaces, trimming gives it back. |
| TraceProjection.PartialInjection | scripts/native-service-trace.ts:125-142 | An accepted map translates no id in two ways and no two ids alike, and never past 32 bits. |
| Intervals.NeighboursApart | scripts/native-service-trace.ts:137-140 | Comparing neighbours in sorted order decides whether any two of a list of non-empty spans meet. |
| NoticeLayout.Builder.Append | scripts/release-notices.ts:130 | A chunk goes to the end and its offset is the length before; refused exactly when the limit would be passed. |
| NoticeLayout.Builder.AddTexts | scripts/release-notices.ts:170-178 | The document and the records stay the specified layout of everything given so far; refused exactly when that layout is too long. |
| NoticeLayout.TakenIs | scripts/release-notices.ts:173 | What is taken of a source are its bytes from the start asked for, to its end or for the length asked for, and no others. |
| NoticeLayout.SameIdentity | scripts/release-notices.ts:57 | Two components have one identity exactly when they are of one kind and their names and versions are written alike. |
| NoticeLayout.RecordsReadBack | scripts/release-notices.ts:170-178 | Every recorded offset and length cuts the exact supplied text back out of the final document. |
| NoticeLayout.SpansNeverOverlap | scripts/release-notices.ts:170-178 | No two recorded spans, in whatever components, share a byte. |
| NoticeLayout.ParseDistribution | scripts/release-notices.ts:46-94 | The pass over the components accepts exactly the inventories of 1 to 256 components with ascending identities, one runtime and the right status, whose texts are few enough per component, have ascending path names, fit, and share no byte. |
| NoticeLayout.ParseComponent | scripts/release-notices.ts:53-91 | One component is accepted exactly when it has few enough texts, with ascending path names, each in form, a package without texts says so, and the runtime brings its pinned notice; its spans are those of its texts. |
| NoticeLayout.VerifyLayout | scripts/release-notices.ts:105-113 | The verifier accepts exactly what is in form, with the licence and the document as recorded, short enough and well-formed UTF-8, and with every recorded span hashing as recorded. |
| Utf8.Utf8Meaning | scripts/release-notices.ts:109 | The table of RFC 3629, section 4, accepts exactly the encodings of sequences of Unicode scalar values. |
| Utf8.EncodedLength | scripts/release-notices.ts:171 | An encoded text is as long as is counted for it, unpaired surrogates included. |
| Utf8.LineFeedParts | scripts/release-notices.ts:174 | A line feed parts well-formed text: the whole is well-formed exactly when both sides are. |
| TextOrder.TextLeqMeaning | scripts/release-notices.ts:42 | One text comes before another exactly when it starts it or has the lesser code unit where they first differ. |
| NoticeLayout.DocumentEncoding | scripts/release-notices.ts:170-178 | The document is well-formed UTF-8 exactly when every supplied text is, whatever the names and headings. |
| NoticeLayout.BuilderSatisfiesVerifier | scripts/release-notices.ts:105-222 | The verifier accepts what the builder made exactly when there are 1 to 256 components with distinct identities, one of them the runtime and some unresolved; each is in form, with at most 16 texts of distinct path names, none empty, all well-formed UTF-8; and so is the licence, within its limit. |
| NoticeLayout.Builder.Finish | scripts/release-notices.ts:216-222 | Sorting the components and verifying yields the distribution exactly under that condition. |
| NoticeLayout.RefusedTexts | scripts/release-notices.ts:105-113 | Of three suitable inventories that differ in one licence text, the verifier accepts the one with an ASCII text and refuses those with an empty and with a Latin-1 text, though all are laid out. |
| LifecycleSteps.CursorFindsSubsequence | scripts/native-lifecycle-proof.ts:173-213 | The single cursor reaches the end exactly when the required steps are a subsequence of the recorded ones. |
| LifecycleSteps.OriginalSteps | scripts/native-lifecycle-proof.ts:170-218 | The scan accepts exactly the inventories of at most 128 steps that fit and keep their counts, whose restarts show one process each and fresh instances, whose public status gives the manager's process id, and which contain the required steps in order. |
| LifecycleSteps.PublicStatusIsManager | scripts/native-lifecycle-proof.ts:191-201 | In an accepted inventory the public status, the service manager and the marker all name one process. |
| LifecycleSteps.ValidatePhases | scripts/native-lifecycle-proof.ts:229-247 | The phases are accepted exactly when they are the registered ones in order, all passed and in form, and no model instance and no receipt is shown twice; the units that they name are gathered. |
| LifecycleSteps.ValidateServices | scripts/native-lifecycle-proof.ts:255-258 | The recovery services are accepted exactly when they are the registered ones in order, each in form, with the text that its phase preserved and a unit of its own. |
| LifecycleSteps.ValidateInventory | scripts/native-lifecycle-proof.ts:226-262 | Accepted exactly when steps, phases and services are, the three recoveries agree on their copy, and the cleanup was complete: at most 32 rows that are, without repetition, the set of units gathered from the steps, the phases and the services, each gone and removed. |

## Left out

- Where text arrives in chunks its decoder is a parameter that yields a text or fails; UTF-8 itself is modelled where the builder and the verifier of notices meet.
- JSON numbers are their printed texts; converting them to floating point, and numbers that print alike after conversion, are not modelled.
- PackageArchive.ArchiveBijection: compression itself is a parameter with a contract; what `inspectContents` checks of the build file, the checksums and the notices is one parameter, as is the target list. The download manifest, the binding of a package to its proof and the preparation of a download are single-branch checks and are not modelled.
- QualificationJournal.LoadJournal: the manifest and genesis checks that come first, symbolic links and file identity are not modelled; the printed forms are parameters that lose nothing.
- QualificationJournal.StepKeepsInv: what a sample records besides its receipts is one opaque field; the evaluation of samples is not part of this model. Only the lock of a dead sampler is removed; removing a live one's is outside the protocol.
- EngineSession.CollectEngineProcess: the run without a session, a child that cannot be started, and a write to its stdin that fails are not modelled.
- ExtractionScore.ScoreExtraction: the extractor's own response parser and text normalisation are parameters; fractions, usage sums and slices of the report are left out.
- GreedyMatching.GreedyCanMiss: that a subject, a predicate and the cited records are registered is not part of the form asked of a claim.
- SourceClosure.CollectProductSources: module resolution, the enumeration of imports and the walk over directories for package.json files are parameters; the fingerprint over bindings is not modelled.
- SkillRepair.Disk.RepairAdoption: symbolic links, hard links and file identity are not modelled, nor is reading back what was written, which only another writer could disturb; a half-written backup left by an earlier crash makes a later repair refuse, as the code does.
- WorkflowAttempts.InspectCandidate: reading the workflow file, whose job definitions are a parameter, is left out, and whether the first answer names the repository and whether a request is in time are parameters; a rejection is not told apart by its code.
- HistoryMask.SanitizeHistoricalCommitRecords: the identifier pattern and git's answers are parameters; offsets are integers by type.
- GateEvaluation.EvaluateRelease: reading files, verifying an artifact, the fixture diagnostic and the evaluation of each receipt are parameters; digests of the verifier files and of the policy are left out.
- FixtureCleanup.CleanupOwnedNativeFixtures: when a state counts as stopped is a parameter; each wait is followed for any given number of questions, as with some clocks the original never returns; messages of errors are counted, not kept.
- TraceProjection.ProjectNativeSyscallTrace: how a line is matched and reduced is a parameter.
- TraceProjection.ProjectNativeIdMap: how one line is matched is a parameter.
- NoticeLayout.BuilderSatisfiesVerifier: which files supply texts is left out; the form of a component's single fields, its source among them, is one parameter, and digests are of the right form by assumption.
- LifecycleSteps.OriginalSteps: the form of each step's evidence, field by field, is one predicate of the step; the lists of names are parameters.
- LifecycleSteps.ValidateInventory: the form of a phase's and a service's evidence, field by field, is one predicate of each; the identity of the candidate, its package and its host is left out.
- The end-to-end harnesses, argument parsing, report writing, fixed-schema field checks and text policies would only add single-branch members.
