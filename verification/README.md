# Verified models of LynxDB's buffer manager, glob compiler, key store and algorithms

A Dafny model of the parts of LynxDB whose correctness is hardest to see from the code, with
proofs of what those parts promise:

- **Buffer manager.** The Clock eviction queue (`Eviction.dfy`, sequential, in place) and the
  frame pool around it (`BufferManager.dfy`), the pin protocol between threads and an eviction
  call (`PinProtocol.dfy`, one step per atomic operation) and its agreement with the sequential
  queue (`PinAgreement.dfy`), the life of a frame between its
  users, the background writeback, allocation and eviction (`FrameLifecycle.dfy`, one step per
  load or store of its pin count and state), and the open-addressing residency index (`Residency.dfy`, with `Bits.dfy` for
  its power-of-two arithmetic and `Ring.dfy` for its modular positions).
- **Globs.** The meaning of patterns (`GlobPattern.dfy`) and its laws, one for each way a
  pattern text can begin (`GlobLaws.dfy`), the subset of Go's regular
  expressions that compiled globs use, as text that is parsed and matched (`GoRegexp.dfy`),
  the text emitted for a pattern and the proof that it means the same (`GlobCompile.dfy`),
  the loops that emit it (`GlobTranslator.dfy`), the class validator (`GlobScanners.dfy`), when
  the text has one alternative (`GlobAlternatives.dfy`), the literal-prefix extractor
  (`GlobPrefix.dfy`), the prefix-bounded dictionary search (`GlobIndex.dfy`) and the shared
  compile cache (`GlobCache.dfy`).
- **API keys.** Memory, directory, saves that fail at any step, crashes and restarts of the
  key store (`ApiKeys.dfy`).
- **Algorithms.** Edit distance (`EditDistance.dfy`), version comparison (`SemVer.dfy`) and
  the table renderer with its column shrinker (`TableLayout.dfy`).

`Basics.dfy` holds the optional value, induction along sequences and the byte order of strings. `dafny verify dfyconfig.toml`
checks everything.

Hash functions, token hashing, randomness, clocks, save outcomes and the scheduler are
parameters or arbitrary inputs; nothing is assumed of them beyond what a `requires` says.

## What turned out not to hold as one might expect

- The residency index can hold two live entries for one key: an insertion takes the first
  tombstone before it looks for the key further on. Lookup and insertion are unaffected, but
  removal then uncovers the stale entry and the count exceeds the number of keys.
  `StaleEntryAfterRemove` is such a run for any two keys with the same home slot (with the
  code's hash and 16 slots, owner 1 with tags `a` and `q`); `RunSingleIff`,
  `RemoveIsDeletionIff` and `CountIsSizeIff` say exactly when it happens.
- A frame's contents can be lost although no writeback failed, in five ways. `TransitionTo`
  is documented as atomic but loads, checks and stores the state separately: a write that marks
  the frame dirty between the background writeback's check and its store of the clean state
  loses its mark. `MarkDirty` acts on clean frames only, so a change it announces during a
  writeback stays unmarked. `PinFrame` pins after it has released the manager's lock, so its
  pin may land on a frame that is already being evicted or is free, and is erased with whatever
  its holder writes. An eviction of a dirty frame for which no callback is configured writes
  nothing and says nothing. And `Close` drops all data without any writeback. `PerilIff` and
  `RunPerilIff` say that exactly these lose contents silently, `LeavesPathIff` that exactly the
  first and the third leave the documented life cycle.
- A pin count equals the number of holders exactly as long as no reset of the frame finds a
  holder (`RunExactIff`); a holder whose pin was erased fires the clamp (`ErasedPinClamps`).
- `Revoke` and `RotateRoot` do not roll back when the save fails. A key whose revocation
  or rotation failed to save comes back exactly when the process restarts before anything else
  is saved (`FailedRemovalReturnsIff`). A failed rotation drops the old root key from memory and
  keeps a new one whose token was never handed out; if no other root key is usable, nobody can use
  one again before a new one is issued, unless a restart precedes every save
  (`FailedRotationLocksOutIff`). `LockoutHappens` and `RestartUndoesRotation` are such runs.
- A compiled `**` does not cross a newline although `*` does. `FaithfulOnAllTextsIff`: a
  satisfiable pattern of plain classes is faithful on all texts exactly when it has no `**`.
- Class escapes are dropped on the way to the regular expression. An escaped `]` closes the
  class early, and a `|` after it becomes an alternative (`EscapedBracketCloses`,
  `EscapedBracketBreaksTranslation`); an escaped dash becomes a range, an escaped first caret a
  negation, an escaped backslash an escape (`EscapedDashMakesRange`, `EscapedCaretNegates`,
  `EscapedBackslashIsLost`, `EscapedBackslashMakesSet`).
- The literal prefix drops a backslash that the translator keeps, and knows nothing of injected
  alternatives: `PrefixSoundExactly` says for every pattern read when it bounds all matches,
  `PrefixSoundIff` gives the condition for patterns no class of which lists a `]` before a `|`.
- The class validator rejects patterns the translator would handle, because braces hide a
  bracket only from the translator. `DisagreeIff`: they disagree exactly on patterns with
  unclosed brackets all of which lie inside brace groups (`ValidatorIsStricter` is one).
- Version comparison takes a pre-release identifier such as `-1` for a number and one beyond
  64 bits for text; `AgreesIffConforming` says that these are the only departures from
  section 11 of SemVer 2.0.0. Mixing parseable and unparseable versions can make a chain of
  offered updates run in a circle (`MixedChainCanRevisit`), exactly if two parseable ones are
  inverted around an unparseable one (`RevisitsIff`).
- `nextPow2` is the least power of two at least `n` exactly up to 2^62.
- With pins fixed during a call the fallback passes of both eviction functions never select
  anything; with concurrent pins they can (`FallbackCanSelect`), but only frames that were
  unpinned during the call (`ForcedWasUnpinned`).

## Model

| member | source | states |
|---|---|---|
| `Eviction.SweepStep` | pkg/bufmgr/eviction.go:57-77 | visiting the slot under the hand advances the closed form of a sweep: after `i` steps each slot's content depends only on its distance from the start |
| `Eviction.SweepTakesMin` | pkg/bufmgr/eviction.go:108-140 | a sweep of at most two rounds takes exactly as many unpinned frames of its class as there are, up to the room left |
| `Eviction.SweepIsFair` | pkg/bufmgr/eviction.go:106-140 | second chance: a frame whose bit was set is taken only if every clear one of the class is |
| `Eviction.SweepLeavesNone` | pkg/bufmgr/eviction.go:142-155 | after two rounds no unpinned frame of the class is left, so the fallback is dead |
| `Eviction.SweptTwice` | pkg/bufmgr/eviction.go:57-77 | a sweep that goes on from where another stopped is one longer sweep: same slots, bits and frames taken |
| `Eviction.SweptStep` | pkg/bufmgr/eviction.go:57-77 | one visit also keeps the list of slots taken in the order in which the sweep takes them |
| `Eviction.ClockVictimUnique` | pkg/bufmgr/eviction.go:50-94 | first clear-bit unpinned frame clockwise, else first unpinned frame clockwise, determines the victim |
| `Eviction.TwoPasses` | pkg/bufmgr/eviction.go:99-158 | preferred sweep and general sweep together return min(n, unpinned) distinct frames, min(n, preferred unpinned) of the preferred owner, fairly within each class |
| `Eviction.EvictionQueue.constructor` | pkg/bufmgr/eviction.go:24-33 | an empty queue; a capacity below 1 becomes 1024 |
| `Eviction.EvictionQueue.Add` | pkg/bufmgr/eviction.go:36-46 | places the frame at its own slot, sets its bit, keeps the count equal to the filled slots |
| `Eviction.EvictionQueue.EvictOne` | pkg/bufmgr/eviction.go:50-94 | returns the clock's victim, nil exactly when nothing is unpinned; the hand is left just past the victim; the bits cleared on the way are exactly those passed |
| `Eviction.EvictionQueue.ForceOne` | pkg/bufmgr/eviction.go:80-93 | the fallback on its own: the first unpinned frame clockwise whatever its bit |
| `Eviction.EvictionQueue.PreferredPass` | pkg/bufmgr/eviction.go:106-121 | the first pass is a sweep over the preferred owner from an unmoved hand |
| `Eviction.EvictionQueue.AnyPass` | pkg/bufmgr/eviction.go:124-140 | the second pass is a sweep over all owners that moves the hand |
| `Eviction.EvictionQueue.ForcePass` | pkg/bufmgr/eviction.go:142-155 | the fallback selects distinct unpinned frames, empties exactly their slots, changes nothing else, and selects nothing exactly when nothing is unpinned |
| `Eviction.BatchedMeans` | pkg/bufmgr/eviction.go:99-158 | a batch is exactly min(n, unpinned) distinct unpinned frames, min(n, preferred) of them preferred, fairly within each class, and exactly their slots are emptied |
| `Eviction.EvictionQueue.EvictBatch` | pkg/bufmgr/eviction.go:99-158 | returns such a batch, in the order in which the preferred and then the general sweep reach the frames; the final hand, slots and reference bits are those of the two sweeps; the fallback selects nothing |
| `BufferManager.FramesConserved` | pkg/bufmgr/manager.go:110-126 | free frames and queued frames add up to the pool whenever they are complementary parts of it |
| `BufferManager.Manager.constructor` | pkg/bufmgr/manager.go:139-195 | frame `i` has slot `i` and all frames start free; a bound below 1 becomes 1024 |
| `BufferManager.Manager.AllocFrame` | pkg/bufmgr/manager.go:201-235 | hands out the last free frame or else the clock's victim, pinned once, owned by the caller and queued at its own slot; fails exactly when nothing is free and every queued frame is pinned; an eviction leaves the hand just past the victim and the other bits as the clock leaves them, and otherwise hand and bits of other frames do not change |
| `BufferManager.AllocsFollowTheClock` | pkg/bufmgr/manager.go:220-234 | consecutive allocations without free frames hand out, in order and with none passed over, the frames that a single hand meets, and leave the hand where one batch of as many frames would |
| `BufferManager.Manager.EvictBatch` | pkg/bufmgr/manager.go:281-293 | moves exactly the queue's batch, in its order, to the end of the free list, reset, and returns its size; hand and bits are those the batch leaves; every other frame keeps its slot, pins and owner, and free frames do not change |
| `BufferManager.Manager.Conserved` | pkg/bufmgr/manager.go:201-293 | the length of the free list plus the queue's count is the size of the pool |
| `FrameLifecycle.StepKeepsInv` | pkg/bufmgr/frame.go:136-228 | every atomic step of users, scheduler, allocation and eviction, except a pin that lands on a free frame or one chosen for eviction, keeps the pin count exact, a pinned frame resident and a frame in writeback pinned by the scheduler |
| `FrameLifecycle.RunKeepsInv` | pkg/bufmgr/manager.go:424-432 | without late pins, eviction finds the frame clean or dirty, never in writeback, and nobody uses it until it is free |
| `FrameLifecycle.StepOffPathIff` | pkg/bufmgr/frame.go:191-218 | a stored state, guarded or not, follows the transition table except exactly a clean state stored over a dirty one that came after the check |
| `FrameLifecycle.RunOffPathIff` | pkg/bufmgr/frame.go:191-218 | a run without late pins leaves the documented life cycle if and only if such a stale store occurs in it |
| `FrameLifecycle.LeavesPathIff` | pkg/bufmgr/frame.go:177-218 | a step leaves the life cycle, at once or in a continuation with no further slip, if and only if it is a stale store or a late pin |
| `FrameLifecycle.StepExposesIff` | pkg/bufmgr/writeback.go:103-147 | unsaved contents lose their last protection exactly by a stale store or an ignored MarkDirty after the callback with nobody else about to mark, or by an eviction that finds no callback |
| `FrameLifecycle.NoPerilNoSilentLoss` | pkg/bufmgr/manager.go:424-490 | a run that exposes nothing, has no late pin, evicts no unsaved contents without a callback and is not closed over any never loses contents that were offered to no callback |
| `FrameLifecycle.PerilIff` | pkg/bufmgr/manager.go:237-490 | a step of a safe frame loses contents silently, or makes that possible with nobody slipping any more, if and only if it exposes contents, is a late pin or closes over unsaved contents |
| `FrameLifecycle.RunPerilIff` | pkg/bufmgr/manager.go:237-490 | a run loses contents silently, or some point of it can be continued to such a loss with no further slip, if and only if it has such a step |
| `FrameLifecycle.ExposedCanBeLost` | pkg/bufmgr/writeback.go:128-147 | exposed contents are lost when scheduler and users finish and the frame is evicted |
| `FrameLifecycle.LatePinCanLose` | pkg/bufmgr/manager.go:237-249 | after a late pin in any phase of an eviction or allocation, what its holder writes can be lost silently |
| `FrameLifecycle.DiscardsOnlyAfterFailure` | pkg/bufmgr/manager.go:434-453 | without such steps a frame is freed with unsaved contents only if a callback was offered these contents and failed, never if it succeeded |
| `FrameLifecycle.StaleSettleLoses` | pkg/bufmgr/frame.go:108-119 | from a new frame: a write marked between the check and the store of a transition, and lost |
| `FrameLifecycle.IgnoredMarkLoses` | pkg/bufmgr/manager.go:261-272 | from a new frame: a mark ignored during writeback, and the change lost |
| `FrameLifecycle.LatePinLoses` | pkg/bufmgr/manager.go:237-249 | from a new frame: a pin on a frame already chosen for eviction, and what is written under it lost |
| `FrameLifecycle.MissingCallbackLoses` | pkg/bufmgr/manager.go:434-453 | from a new frame: a dirty frame evicted with no callback configured, and its contents lost |
| `FrameLifecycle.CloseLoses` | pkg/bufmgr/manager.go:340-351 | from a new frame: the manager closed over a dirty frame, and its contents lost |
| `PinProtocol.StepKeepsExactIff` | pkg/bufmgr/frame.go:136-152 | an atomic step in which an Unpin follows its own Pin keeps a pin count equal to its number of holders, and the clamp unarmed, unless it is a reset that finds a holder |
| `PinProtocol.RunExactIff` | pkg/bufmgr/frame.go:136-228 | over every interleaving, with eviction calls, allocations and resets of evicted and of free frames, the count is exact at every point if and only if no reset of the frame finds a holder |
| `PinProtocol.ErasedPinClamps` | pkg/bufmgr/frame.go:143-147 | after a reset that finds a holder, the holder's own Unpin arms the clamp |
| `PinProtocol.HeldThroughoutNotSelected` | pkg/bufmgr/eviction.go:50-158 | in any interleaving, a frame that has a holder at every moment and is queued, or at least not reset, is never selected, stays queued, and keeps its count exact |
| `PinProtocol.ForcedWasUnpinned` | pkg/bufmgr/eviction.go:79-155 | in any interleaving with evictOne or evictBatch, a frame whose count was exact at the start and which the fallback selected was unpinned during the call |
| `PinProtocol.QuietCallForcesNothing` | pkg/bufmgr/eviction.go:79-155 | so the fallback is dead when nobody unpins during the call, whoever pins |
| `PinProtocol.FallbackCanSelect` | pkg/bufmgr/eviction.go:80-91 | a run with a concurrent pin and unpin in which the fallback selects the frame |
| `PinProtocol.LateHolderIsSelected` | pkg/bufmgr/eviction.go:65-76 | from any state: a frame past its test with a clear bit is selected although it is pinned now |
| `PinProtocol.ClampErasesPins` | pkg/bufmgr/frame.go:143-147 | without the discipline, the clamp's store erases every pin taken since |
| `PinAgreement.OneAgrees` | pkg/bufmgr/eviction.go:50-94 | a stepwise evictOne that no other thread disturbs returns the clock's victim, or nothing exactly when nothing is unpinned, and leaves slots, bits and hand as the sequential queue does |
| `PinAgreement.BatchAgrees` | pkg/bufmgr/eviction.go:99-158 | a stepwise evictBatch that no other thread disturbs returns the frames of the sequential batch in its order, with its slots, bits and hand, and its fallback adds nothing |
| `PinAgreement.CallEnds` | pkg/bufmgr/eviction.go:50-158 | whatever the other threads do, a call on n slots takes at most 10 n + 3 steps of its own and can always take the next until it has returned |
| `PinAgreement.RunKeepsOnePlace` | pkg/bufmgr/eviction.go:36-46 | on every run no frame ever stands in two slots |
| `Bits.NextPow2` | pkg/bufmgr/residency.go:146-160 | for every 64-bit n, the result is the least power of two at least n if and only if n <= 2^62; beyond, the increment wraps to the minimum integer |
| `Bits.MaskIsModulo` | pkg/bufmgr/residency.go:66-87 | masking with 2^k - 1 is reduction modulo 2^k |
| `Residency.FindIsNearest` | pkg/bufmgr/residency.go:93-109 | Lookup answers the live entry its probe meets first, and fails exactly when the key has none |
| `Residency.InsertKeepsTable` | pkg/bufmgr/residency.go:59-91 | every live entry stays reachable from its home slot without crossing a never-used slot |
| `Residency.InsertIsSeen` | pkg/bufmgr/residency.go:59-91 | after an insertion the key answers the new frame, duplicates or not |
| `Residency.InsertKeepsOthers` | pkg/bufmgr/residency.go:59-91 | no other key changes its answer |
| `Residency.RemoveIsDeletionIff` | pkg/bufmgr/residency.go:111-129 | removal makes the key absent if and only if it had a single live slot |
| `Residency.DuplicatesIffShadowed` | pkg/bufmgr/residency.go:68-88 | an insertion duplicates a live key if and only if a tombstone precedes its slot on the probe path |
| `Residency.CountIsSizeIff` | pkg/bufmgr/residency.go:131-133 | the number of live slots is the number of keys if and only if no key is duplicated |
| `Residency.AllProbesLive` | pkg/bufmgr/residency.go:68-90 | probing visits every slot |
| `Residency.RunInsertIsUpdate` | pkg/bufmgr/residency.go:59-91 | on every run, each accepted insertion is a map update as seen by Lookup |
| `Residency.RunSingleIff` | pkg/bufmgr/residency.go:59-129 | a run never duplicates a key if and only if it contains no shadowed insertion |
| `Residency.RunRefinesMap` | pkg/bufmgr/residency.go:59-133 | without shadowed insertions the index is, for Lookup and Count, the finite map the same operations build |
| `Residency.StaleEntryAfterRemove` | pkg/bufmgr/residency.go:68-80 | for every hash, every capacity from 16 and any two keys with one home slot, a five-operation run after which a removed key is still found |
| `Residency.OpenAddressIndex.constructor` | pkg/bufmgr/residency.go:45-57 | an empty table whose capacity is the least power of two at least the requested one and at least 16 |
| `Residency.OpenAddressIndex.Insert` | pkg/bufmgr/residency.go:59-91 | returns false exactly when 4*count >= 3*capacity; otherwise writes the first slot that is free or holds the key |
| `Residency.OpenAddressIndex.Lookup` | pkg/bufmgr/residency.go:93-109 | finds the key exactly when some slot is a live entry of it |
| `Residency.OpenAddressIndex.Remove` | pkg/bufmgr/residency.go:111-129 | buries the nearest live entry; the key is gone exactly when it had one |
| `Residency.OpenAddressIndex.Count` | pkg/bufmgr/residency.go:131-133 | the number of live slots, which is the number of keys exactly without duplicates |
| `GlobLaws.EmptyLaw` | internal/glob/glob.go:134-198 | the empty pattern matches the empty text only, so a pattern must match a text to its end |
| `GlobLaws.StarLaw` | internal/glob/glob.go:144-153 | a single star matches any text without a slash, and the rest of the pattern what follows |
| `GlobLaws.DoubleStarLaw` | internal/glob/glob.go:144-153 | a double star matches any text, and the rest of the pattern what follows |
| `GlobLaws.QuestionLaw` | internal/glob/glob.go:154-159 | a question mark matches one character other than a slash |
| `GlobLaws.PlainLaw` | internal/glob/glob.go:186-191 | every other character matches itself |
| `GlobLaws.EscapeLaw` | internal/glob/glob.go:174-180 | a backslash before one of seven characters makes it match itself |
| `GlobLaws.BackslashLaw` | internal/glob/glob.go:180-185 | any other backslash matches itself |
| `GlobLaws.ClassLaw` | internal/glob/glob.go:241-279 | a closed class matches one character that its members list |
| `GlobLaws.NegatedClassLaw` | internal/glob/glob.go:249-252 | after an exclamation mark, one character that they do not |
| `GlobLaws.ListedCharacter` | internal/glob/glob.go:254-276 | a member that begins no range, escaped or not, lists itself |
| `GlobLaws.ListedRange` | internal/glob/glob.go:254-276 | two members, escaped or not, around a dash list the characters between them |
| `GlobLaws.UnclosedClassLaw` | internal/glob/glob.go:160-166 | a bracket that no bracket closes matches itself |
| `GlobLaws.GroupLaw` | internal/glob/glob.go:281-320 | braces around two or more words, however they are escaped, match any one of them |
| `GlobLaws.UnclosedGroupLaw` | internal/glob/glob.go:167-173 | a brace that begins no closed list of at least two words matches itself |
| `GlobCompile.RegexTextParses` | internal/glob/glob.go:134-198 | the text emitted for a pattern with plain classes is valid and reads back as one anchored sequence of the intended pieces: no character escapes its role |
| `GlobCompile.TranslationPreservesMeaning` | internal/glob/glob.go:134-198 | with plain classes, whatever the regular expression matches the glob matches; and conversely when the text has no newline or the pattern no `**` |
| `GlobCompile.FaithfulOnAllTextsIff` | internal/glob/glob.go:144-153 | a satisfiable pattern of plain classes is translated faithfully for all texts if and only if it has no `**` |
| `GlobCompile.EscapedDashMakesRange` | internal/glob/glob.go:265-275 | a class of two characters and an escaped dash is emitted as the range between them, which accepts what the glob does not |
| `GlobCompile.EscapedCaretNegates` | internal/glob/glob.go:265-275 | a class that starts with an escaped caret is emitted negated and rejects every character it lists |
| `GlobCompile.EscapedBackslashIsLost` | internal/glob/glob.go:265-275 | an escaped backslash before punctuation is emitted as its escape and no longer listed |
| `GlobCompile.EscapedBackslashMakesSet` | internal/glob/glob.go:265-275 | an escaped backslash before a letter such as d is emitted as a set of characters |
| `GlobCompile.EscapedBracketCloses` | internal/glob/glob.go:265-275 | a class that lists an escaped bracket is emitted so that it ends before the bracket and leaves the rest of its text as regular expression |
| `GlobTranslator.AppendGlobClass` | internal/glob/glob.go:241-279 | succeeds exactly when the class closes, and emits the class's text |
| `GlobTranslator.AppendGlobAlternatives` | internal/glob/glob.go:281-320 | succeeds exactly when the braces close and contain a comma, and emits the quoted alternatives |
| `GlobTranslator.EmitAt` | internal/glob/glob.go:142-192 | one iteration emits the text of the token at its position and stops after it |
| `GlobTranslator.BuildRegexString` | internal/glob/glob.go:134-198 | the loop emits exactly the anchored text whose meaning is proved |
| `GlobScanners.ValidateClasses` | internal/glob/glob.go:72-102 | accepts exactly the patterns in which every unescaped `[` has an unescaped `]` after it |
| `GlobScanners.ValidatedNeverFallsBack` | internal/glob/glob.go:72-102 | a validated pattern never takes the translator's literal bracket fallback, braces notwithstanding |
| `GlobScanners.FallbackIff` | internal/glob/glob.go:160-173 | the translator takes the literal bracket fallback if and only if some unclosed bracket lies outside every brace group it reads |
| `GlobScanners.DisagreeIff` | internal/glob/glob.go:72-102 | validator and translator disagree if and only if the pattern is rejected and all its unclosed brackets lie inside brace groups |
| `GlobScanners.AgreeWithoutGroups` | internal/glob/glob.go:72-102 | without brace groups they agree on every pattern |
| `GlobScanners.ValidatorIsStricter` | internal/glob/glob.go:167-173 | an example of the disagreement: a rejected pattern that takes no fallback |
| `GlobAlternatives.OneAlternative` | internal/glob/glob.go:134-320 | a pattern no class of which lists a `]` before a bar has, if the modelled syntax reads its text, one top-level alternative, whatever else its classes contain |
| `GlobPrefix.LiteralPrefix` | internal/glob/glob.go:211-230 | the characters before the first metacharacter with backslashes dropped |
| `GlobPrefix.PrefixLaw` | internal/glob/glob.go:211-230 | the prefix ends at a metacharacter, holds every other character, and an escaped one without its backslash, whatever it is |
| `GlobPrefix.PrefixIff` | internal/glob/glob.go:211-230 | a text the glob matches starts with the literal prefix if and only if every backslash before the first metacharacter is trailing or precedes an escapable character |
| `GlobPrefix.FirstAlternativeIff` | internal/glob/glob.go:134-230 | for every pattern whose text the modelled syntax reads, the same for every text the first alternative of the regular expression matches |
| `GlobPrefix.PrefixSoundExactly` | internal/glob/glob.go:205-230 | for every such pattern, all its matches start with the prefix if and only if the prefix is empty, or the pattern is clean (or its first alternative impossible) and every later alternative is impossible or anchored at the start and begins with the prefix |
| `GlobPrefix.PrefixSoundIff` | internal/glob/glob.go:205-230 | for every such pattern no class of which lists a `]` before a bar, a text it matches starts with the prefix if and only if the pattern is clean |
| `GlobPrefix.EscapedBracketBreaksTranslation` | internal/glob/glob.go:259-276 | a clean pattern with an escaped bracket whose regular expression matches a text the glob does not, outside the literal prefix |
| `GlobIndex.PrefixSuccessor` | pkg/storage/segment/index/inverted.go:284-294 | increments the last byte that can be and drops the rest; none if there is no such byte |
| `GlobIndex.SuccessorIsLeast` | pkg/storage/segment/index/inverted.go:284-294 | that is the least byte string above every extension of the prefix, and there is one whenever anything is |
| `GlobIndex.RangeIsPrefix` | pkg/storage/segment/index/inverted.go:244-249 | the scanned byte range contains exactly the keys that extend the prefix |
| `GlobIndex.BoundedScanExactly` | pkg/storage/segment/index/inverted.go:233-278 | for every pattern whose text the modelled syntax reads, the bounded search finds every matching term if and only if the pattern is clean or its first alternative matches no term, and terms that only later alternatives match start with the prefix |
| `GlobIndex.BoundedScanCompleteIff` | pkg/storage/segment/index/inverted.go:233-278 | if no class lists a `]` before a bar, it finds every matching term if and only if the pattern is clean or nothing matches, and otherwise nothing |
| `GlobCache.StepKeepsInv` | internal/glob/glob.go:26-48 | every critical section keeps each entry equal to the fresh compilation of its pattern and case flag, the cache within its cap, and existing entries unchanged |
| `GlobCache.CachedEqualsUncached` | internal/glob/glob.go:106-124 | under any interleaving of lookups, a cached match answers, or panics, exactly as an uncached one |
| `GlobCache.EntriesArePermanent` | internal/glob/glob.go:36-45 | an entry, once stored, is never replaced or evicted |
| `ApiKeys.RootSafety` | pkg/auth/keystore.go:95-389 | once a root key has been persisted, every later memory and file, restarts included, has one, whatever saves fail |
| `ApiKeys.RevocationIsPermanent` | pkg/auth/keystore.go:168-340 | after a reported success memory and disk are equal and no later verification of any run returns that key |
| `ApiKeys.FailedRemovalReturnsIff` | pkg/auth/keystore.go:271-340 | a key whose revocation or rotation failed to save returns to memory if and only if a restart comes before any save while the file lists it |
| `ApiKeys.RotateKeepsUsableRootIff` | pkg/auth/keystore.go:328-339 | a rotation leaves a root key whose token was handed out if and only if its save succeeds or another such key exists |
| `ApiKeys.FailedRotationLocksOutIff` | pkg/auth/keystore.go:328-339 | after a failed rotation that left no usable root key, and while no root token is issued, one is in memory again if and only if the file had one and a restart precedes every save; after a save that precedes every restart there is none on disk either |
| `ApiKeys.LockoutHappens` | pkg/auth/keystore.go:328-339 | for any root key: a run in which its rotation fails to save and another key is saved, after which nobody can use a root key, restart or not |
| `ApiKeys.RestartUndoesRotation` | pkg/auth/keystore.go:328-339 | for any root key: a run in which its rotation fails to save and a restart brings it back |
| `ApiKeys.RestartRestoresLastWrite` | pkg/auth/keystore.go:45-68 | on every run a restart loads exactly the memory that the last successful save stored, or nothing before the first |
| `ApiKeys.OpenKeyStore` | pkg/auth/keystore.go:45-68 | fails exactly if keys.json exists and cannot be read or parsed; otherwise memory and disk agree |
| `ApiKeys.KeyStore.SaveLocked` | pkg/auth/keystore.go:343-389 | whichever step fails, the directory is as before, except for the temporary file if it cannot be removed; on success only keys.json changes; a crash after any operation leaves keys.json whole, old or new, and no other file but the temporary one changed |
| `ApiKeys.KeyStore.CreateKey` | pkg/auth/keystore.go:136-149 | appends and saves, and rolls back when the save fails |
| `ApiKeys.KeyStore.RevokeKey` | pkg/auth/keystore.go:238-278 | removes the first key with the identifier unless it is the last root key; a failed save is reported but not undone |
| `ApiKeys.RevokeMeans` | pkg/auth/keystore.go:238-278 | refuses the first key with the identifier exactly if it is a root key and no other key is; otherwise it alone is removed |
| `ApiKeys.KeyStore.RotateRoot` | pkg/auth/keystore.go:282-340 | replaces a root key by a new one with the given identifier, prefix and hash; a failed save is reported but not undone |
| `ApiKeys.RotateMeans` | pkg/auth/keystore.go:282-340 | refuses a key that is not a root key; otherwise the new key is last and the old one alone is gone |
| `ApiKeys.KeyStore.VerifyToken` | pkg/auth/keystore.go:168-192 | returns, marked as used now, the first key that has not expired and whose hash matches the token, and nothing exactly if there is none; no other key and no other field changes |
| `ApiKeys.KeyStore.VerifyTokenById` | pkg/auth/keystore.go:198-222 | returns, marked as used now, the first key with the identifier if it has not expired and its hash matches the token, and otherwise nothing |
| `EditDistance.LevenshteinDistance` | cmd/lynxdb/fields.go:391-434 | the single-row loop returns the minimum length over all insert, delete and replace scripts |
| `EditDistance.UpdateRow` | cmd/lynxdb/fields.go:405-431 | the inner loop turns a row into the row below it, in place |
| `EditDistance.DistIsEditDistance` | cmd/lynxdb/fields.go:391-434 | the recurrence is the minimum over all scripts: one reaches it, none is shorter |
| `EditDistance.Metric` | cmd/lynxdb/fields.go:391-434 | zero exactly on equal texts, symmetric, triangle inequality, between the length difference and the longer length |
| `EditDistance.FindSimilarFields` | cmd/lynxdb/fields.go:372-388 | at most three names within two edits after lower-casing, at increasing positions, and none before or between them is left out; fewer only if there are no more |
| `SemVer.ComparePreSegments` | internal/upgrade/semver.go:92-133 | the segment loop computes the lexicographic order on classified identifiers |
| `SemVer.VersionsTotalPreorder` | internal/upgrade/semver.go:68-88 | reflexive, antisymmetric in sign and transitive on versions that all parse, and on versions that all do not |
| `SemVer.ParseRender` | internal/upgrade/semver.go:19-57 | parsing inverts rendering of every version in range, with or without a leading v |
| `SemVer.ParseIff` | internal/upgrade/semver.go:19-57 | parsed are exactly, after an optional v, three decimal numbers in range with dots between them, each possibly after a plus sign, and whatever follows the first hyphen as pre-release |
| `SemVer.AgreesWithSection11` | internal/upgrade/semver.go:68-133 | on conforming versions the comparison is the precedence of section 11 of SemVer 2.0.0 |
| `SemVer.AgreesIffConforming` | internal/upgrade/semver.go:92-149 | a version is ordered against every conforming version as section 11 orders it if and only if it conforms |
| `SemVer.CheckAgainstManifest` | internal/upgrade/upgrade.go:163-183 | fails exactly if the manifest is newer but lacks the platform; otherwise names both versions, and brings the platform's artifact exactly if the manifest is newer |
| `SemVer.ChainNeverRevisits` | internal/upgrade/upgrade.go:163-183 | no chain of offered updates over uniformly parseable versions returns to a version |
| `SemVer.MixedChainCanRevisit` | internal/upgrade/semver.go:72-75 | with an unparseable version in between, a chain of offers can run in a circle |
| `SemVer.RevisitsIff` | internal/upgrade/semver.go:68-88 | among any versions, some chain of offered updates comes back to a version if and only if two parseable ones are inverted in byte order around an unparseable one |
| `TableLayout.WidestColumn` | internal/ui/table.go:359-368 | the leftmost of the widest columns |
| `TableLayout.Shrink` | internal/ui/table.go:207-213 | ends with widths between 1 and the natural widths that meet the budget exactly when they had to shrink, fairly; the early exit is unreachable |
| `TableLayout.ColumnWidths` | internal/ui/table.go:187-216 | natural widths from headers and cells, then the fair layout of the available width |
| `TableLayout.LayoutUnique` | internal/ui/table.go:207-213 | budget, bounds, fairness and the leftmost rule determine the layout |
| `TableLayout.MaxMinFair` | internal/ui/table.go:207-213 | any other allocation in the budget widens a column only by narrowing one that is at most one wider |
| `TableLayout.RowLine` | internal/ui/table.go:218-247 | separators stand at the offsets the widths give, and each column shows its value: between spaces on the aligned side if it fits, else its beginning and an ellipsis |
| `TableLayout.RuleLine` | internal/ui/table.go:249-266 | a rule is as wide as a row, its frame characters stand at the same offsets, and only the fill stands between them |
| `TableLayout.VisibleRows` | internal/ui/table.go:165-185 | the first rows up to the limit, cut or filled to the columns, with missing and empty cells replaced by the null value |
| `TableLayout.RenderTable` | internal/ui/table.go:130-155 | the header shows the columns and body line k the cells of input row k, in order, with the style's rules first, after the header and last; all lines are equally wide, and the width is the target exactly whenever the columns of the visible rows did not fit and there is room for one character each |

## Left out

- Commands, HTTP clients, TLS, terminal user interface, installers and downloads: input and output over libraries.
- Case-insensitive globs and `ToContainsRegex`: folding belongs to Go's engine; the contains form drops the anchors and adds easy cases.
- GoRegexp.Parse: covers the syntax that compiled globs use and treats every other construct as outside the model, although Go compiles some: named classes such as `[:alpha:]`, Unicode classes, hexadecimal and octal escapes inside classes, and, in text that a class leaves behind, other quantifiers, nested groups and word boundaries.
- GlobCompile.TranslationPreservesMeaning: for classes that escape a bracket, a backslash, a first caret or a dash between two members, that contain `[:`, or that have reversed or no members it is not stated; each of these escapes has a lemma that shows what goes wrong.
- GlobTranslator.BuildRegexString: covers the case-sensitive anchored mode, which matching uses; the flags for folding, for missing anchors and for wildcards that cross a slash are not modelled.
- Multi-byte characters in globs: a character of the model is a character of the text; patterns and texts are taken to be valid in the same encoding.
- Eviction.EvictionQueue.ForcePass: which unpinned frames a fallback that does select would pass over, as its index moves with the hand, is not stated; both eviction functions are proved not to get that far.
- BufferManager.Manager.AllocFrame: the residency entry, the statistics, the memory governor, dirty writeback and a closed manager are not part of the pool's model; residency and writeback have models of their own.
- BufferManager.Manager.EvictBatch: writeback and the removal of residency entries are left out of the pool in the same way.
- FrameLifecycle.StepKeepsInv: a user writes and marks only between its Pin and its Unpin. A callback reads the contents at one moment, the clamp of Unpin is part of its step, and the pin that eviction itself takes around its callback is omitted, since nobody reads the count while the lock is held.
- ApiKeys.OpenKeyStore: serialising and parsing a file are taken to be inverse, and the rename to be atomic.
- Token generation, argon2, base64 and `splitDollar`: an arbitrary relation between tokens and hashes stands for them.
- TableLayout.RowLine: colours and wide or zero-width characters are not modelled; one character is one terminal column.
- TableLayout.RenderTable: the row-count footer and the vertical record layout are not modelled.
- SemVer.AgreesWithSection11: build metadata is not part of the versions considered; the code treats it as text of the last number or identifier.
- SemVer.CheckAgainstManifest: change log and notices are copied fields and are not modelled.
- EditDistance.FindSimilarFields: lower-casing is an arbitrary function on texts.
