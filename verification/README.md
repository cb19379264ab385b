# Verified models of SEDiff's hard cores

SEDiff combines a fork of the AFL fuzzer, written in C, with a static analyser in Python.  This
project models the state machines and algorithms at their heart and proves what they are for.
To verify: `dafny verify dfyconfig.toml` (Dafny 4.11).

| file | what it models |
|---|---|
| ForkServer.dfy, ForkProgress.dfy | the fork-server protocol between fuzzer, server, child, kernel and timer, as a step system |
| TminMinimize.dfy, TminStages.dfy | the test-case minimiser `afl-tmin`: normalization, deletion, alphabet and character stages; what each makes of any data |
| TrimCase.dfy | the trimmer `trim_case` |
| Coverage.dfy | hit-count classification and `has_new_bits`, by words and by bytes |
| WinnerTable.dfy | the table of best queue entries, its reference counts, and the favored set |
| DupTests.dfy | `could_be_bitflip`, `could_be_arith`, `could_be_interest` |
| DetStages.dfy, DetFuzzer.dfy | the deterministic stages of `fuzz_one` and the effector map: what they run, and the stages in place |
| DetCoverage.dfy | what the eight-bit deterministic stages cover |
| DetWords.dfy, WordTests.dfy | the 16- and 32-bit stages and the tests for earlier stages, on the bytes of the buffer |
| DictStages.dfy, AutoExtras.dfy | the stages that overwrite with dictionary tokens; the two dictionaries and `maybe_add_auto` |
| Havoc.dfy, HavocWords.dfy, PerfScore.dfy | the havoc stage and the score that sets its length |
| TokenDict.dfy, DictGrammar.dfy | the token printer and the dictionary parser; the lines that can be written by hand |
| Terms.dfy, Substitution.dfy | script terms, `Term.substitute`, and `SE.substitute` with the key node that it overwrites |
| DataFlow.dfy, SymbolicFacts.dfy | the data flow of a script; which expressions, flows, sources and results there are, exactly |
| SymbolicResolution.dfy | the resolution of the variables |
| SymbolicExtension.dfy, ExtensionMeaning.dfy | scripts extended by a defining equation: what stays, and when the meaning is kept |
| SymbolicEngine.dfy, SymbolicWitnesses.dfy | the analyser `SE` in place; scripts on which it goes wrong |
| LockPairs.dfy, LockReports.dfy | the lock checker `LockState` and `explore_path`; what it reports |
| Dislocator.dfy | the abusive allocator |
| Bytes.dfy, Wrappers.dfy | bytes, `next_p2`, memory copies, removal of a range; small shared definitions |

Code that updates state in place is modelled by classes and methods on arrays; each method is
proved equal to a function of its input, and the theorems are about these functions, for all
inputs.  The target program is an arbitrary deterministic function of its input; `hash32` is an
arbitrary function of the trace, so equal checksums are claimed, never equal traces.  Every
`UR(n)` is an arbitrary number below n.  What the kernel decides (scheduling of the protocol,
where a mapping goes, whether a fork succeeds) is arbitrary as well.  Machine words, wrap-around
and truncation are written out; multi-byte accesses are little endian.

Some results that one would not read off a single body:

* The kill-versus-stop race of the persistent mode is harmless: SIGCONT never reaches a killed
  child, and a run spends at most 50 steps for each round, whatever the target does.
* `__afl_persistent_loop(0)` means 2^32 rounds, and a call after the loop has returned 0 starts
  another 2^32 - 1.
* The minimiser's result is 1-minimal for deletion although it skips blocks.
* With arithmetics on, the eight-bit deterministic stages run each promised one-byte change
  exactly once; with arithmetics off they lose exactly the interesting values near the original.
* The 16- and 32-bit stages run exactly the words moved by a small step, or replaced by an interesting
  value, in one of the byte orders, as far as they do not leave them to another stage.
* The lock checker reports the first breach at each location, and nothing else until the locks left
  at the end.  In it the assertion never fails and "found unlocked lock" is never reported,
  but a failed search among trylocks does pop from an empty list.
* A text token that starts with a NUL is printed as a line the dictionary parser rejects; all
  other tokens come back byte for byte.
* `SE.substitute` overwrites its own key: with two or more values for a variable the later results
  keep the variable, and can take the `tmp` of another one for it.  All results are closed exactly
  if no variable has several values, and all tmp-free results keep their meaning exactly if each
  first value is tmp-free whenever any of its values is.
* A variable without definition at which a cycle is broken gets a bare entry; the analysis raises an
  exception exactly if an evaluated expression mentions it.
* A block freed by another thread than the one that allocated it makes both threads' budgets wrong.

## Model

| member | source | states |
|---|---|---|
| `ForkServer.WaitWord` | afl/hybrid_metric/afl-fuzz.c:2669-2713 | the wait macros recover from the status word exactly whether the child stopped, was signalled or exited, and with what |
| `ForkServer.InvStep` | afl/hybrid_metric/afl-fuzz.c:2515-2720 | every step of the fuzzer, the SIGALRM handler, the server, the child and the kernel keeps the protocol invariant |
| `ForkServer.InvRun` | afl/hybrid_metric/llvm_mode/afl-llvm-rt.o.c:102-178 | the invariant holds after every possible run |
| `ForkServer.PipesHoldOneRound` | afl/hybrid_metric/afl-fuzz.c:2625-2665 | in every reachable state at most one request is in flight, never together with a reply, and the status pipe holds, in order, only parts of one round's (pid, status) about one child |
| `ForkServer.StatusBelongsToPid` | afl/hybrid_metric/afl-fuzz.c:2632-2667 | the status read in a round is that of the child whose pid was read in the round; no word is taken for another |
| `ForkServer.ContOnlyToLiveStoppedChild` | afl/hybrid_metric/llvm_mode/afl-llvm-rt.o.c:123-157 | SIGCONT is only sent to a child that is stopped, was reported stopped and was not killed by the fuzzer, in every interleaving of stop, kill and relay |
| `ForkServer.OneUnreapedChild` | afl/hybrid_metric/llvm_mode/afl-llvm-rt.o.c:127-147 | at most one child is ever unreaped, and none when the next one is forked |
| `ForkServer.ChildServesAtMostMaxCnt` | afl/hybrid_metric/llvm_mode/afl-llvm-rt.o.c:183-233 | a child begins at most max_cnt rounds (2^32 if max_cnt is 0, because the counter is decremented before it is tested) and 2^32 - 1 more for each call after the loop has returned 0; with such a call it has begun no fewer than max_cnt |
| `ForkServer.PastMaxCntIff` | afl/hybrid_metric/llvm_mode/afl-llvm-rt.o.c:207-214 | a child running its target code is past its max_cnt rounds if and only if it called the loop again after a 0 |
| `ForkServer.OneRoundMore` | afl/hybrid_metric/llvm_mode/afl-llvm-rt.o.c:207-214 | a child to which the loop has returned 0 can call it again and begin one round beyond the limit |
| `ForkServer.TwoRoundsOfOne` | afl/hybrid_metric/llvm_mode/afl-llvm-rt.o.c:183-233 | a run with max_cnt 1 in which one child begins two rounds |
| `ForkServer.AbortOnlyWhenServerDied` | afl/hybrid_metric/llvm_mode/afl-llvm-rt.o.c:121-174 | no waitpid of the server ever fails and no bad pid is ever read: the fuzzer gives up only after a handshake timeout or a failed fork |
| `ForkServer.TimeoutIsThisRoundsKill` | afl/hybrid_metric/afl-fuzz.c:2692-2705 | a round is a timeout exactly if its own alarm killed its child and the child died of it, or, with ASAN, the child exited with the MSAN code; a child killed too late for that is remembered for the next request |
| `ForkServer.StatusIsTheChilds` | afl/hybrid_metric/afl-fuzz.c:2625-2665 | when a round is reported the status word tells how this round's child stopped or ended, and that is what the child really did |
| `ForkServer.ReportMeaning` | afl/hybrid_metric/afl-fuzz.c:2696-2718 | a crash is reported exactly if SIGUSR2 ended the child; a timeout exactly if this round's alarm killed it and it died of SIGKILL, or it exited with the MSAN code under ASAN; no fault in all other cases |
| `ForkProgress.NeverStuck` | afl/hybrid_metric/afl-fuzz.c:2620-2674 | unless the fuzzer gave up, some step other than the target's own free will is enabled: fuzzer and server never block each other for good |
| `ForkProgress.RankFalls` | afl/hybrid_metric/llvm_mode/afl-llvm-rt.o.c:114-176 | every step brings the current round nearer to its end, or ends it |
| `ForkProgress.RoundsAreBounded` | afl/hybrid_metric/llvm_mode/afl-llvm-rt.o.c:114-176 | n completed rounds take at most 50 n + 49 steps under any scheduling |
| `ForkProgress.RoundCanFinish` | afl/hybrid_metric/afl-fuzz.c:7093-7107 | from any state that satisfies the invariant the round can be finished without the target doing anything of its own accord |
| `ForkProgress.EveryRoundEnds` | afl/hybrid_metric/afl-fuzz.c:2515-2720 | a run with n completed rounds has at most 50 (n + 1) steps, and from every reachable state the round can be ended within 50 steps even if the target hangs |
| `TminMinimize.SkippedBlockIsSameCandidate` | afl/afl-tmin.c:502-513 | a block skipped for equalling its predecessor would have given the very candidate the predecessor gave |
| `TminMinimize.NormalizedKeeps` | afl/afl-tmin.c:430-464 | block normalization only writes '0' and keeps the data accepted |
| `TminMinimize.DeleteWalkKeeps` | afl/afl-tmin.c:485-535 | deleting blocks of one length keeps the data accepted, and shortens it if it changes it |
| `TminMinimize.UnchangedWalkRejects` | afl/afl-tmin.c:494-535 | if a walk deletes nothing then every aligned block, tried or skipped, gives a rejected candidate |
| `TminMinimize.OverwriteFalls` | afl/afl-tmin.c:574-627 | the length plus the number of bytes other than '0' falls whenever a replacement changes anything: passes that loop back terminate |
| `TminMinimize.WithoutFalls` | afl/afl-tmin.c:515-531 | the same measure falls with every deletion |
| `TminMinimize.PassesKeep` | afl/afl-tmin.c:471-634 | the pass loop keeps the data accepted, and ends with data that the whole deletion stage leaves alone |
| `TminMinimize.MinimizedIsAcceptedReduction` | afl/afl-tmin.c:415-651 | the result is accepted if the input was, and is the input with bytes deleted or overwritten by '0' |
| `TminMinimize.MinimizedIsBlockMinimal` | afl/afl-tmin.c:480-549 | no aligned block of the result, of any power-of-two length up to next_p2(length / 16), can be deleted |
| `TminMinimize.MinimizedIsOneMinimal` | afl/afl-tmin.c:480-549 | 1-minimality: no single byte of the result can be deleted |
| `TminMinimize.AlphabetFixpoint` | afl/afl-tmin.c:569-592 | the alphabet stage changes nothing if and only if no symbol can be replaced throughout |
| `TminMinimize.CharacterFixpoint` | afl/afl-tmin.c:608-627 | the character stage changes nothing if and only if no byte can be replaced |
| `TminMinimize.ReplacementFixpoint` | afl/afl-tmin.c:555-634 | both replacement stages together change nothing exactly under both conditions |
| `TminMinimize.Tmin.RunTarget` | afl/afl-tmin.c:341-399 | the verdict on a run; the first run settles the mode and the checksum, and accepts itself |
| `TminMinimize.Tmin.NormalizeBlocks` | afl/afl-tmin.c:430-464 | stage 0 in place computes the normalization function |
| `TminMinimize.Tmin.DeleteOne` | afl/afl-tmin.c:494-535 | one turn of the deletion loop, including the skip |
| `TminMinimize.Tmin.DeletionStage` | afl/afl-tmin.c:480-542 | stage 1 in place computes the deletion function, and changed_any says whether it changed anything |
| `TminMinimize.Tmin.AlphabetStage` | afl/afl-tmin.c:555-592 | stage 2 in place; alpha_map, counted once, stays right about the symbols still to come |
| `TminMinimize.Tmin.CharacterStage` | afl/afl-tmin.c:608-627 | stage 3 in place, tmp_buf keeping step with in_data |
| `TminMinimize.Tmin.Minimize` | afl/afl-tmin.c:415-651 | the gotos of minimize terminate and leave the minimized data |
| `TminMinimize.Tmin.MinimizeFile` | afl/afl-tmin.c:1121-1142 | dry run, then minimization: refused exactly on a timeout, else accepted reduced data in the mode of the dry run |
| `TminStages.AcceptsLikeOriginal` | afl/afl-tmin.c:341-399 | a candidate counts if it ends the way the original did: it crashes too, in exact mode along the same path, or it runs to an end without a crash along the same path |
| `TminStages.NormalizedIs` | afl/afl-tmin.c:436-464 | each aligned block is '0' exactly if that was accepted with the blocks before it as they became |
| `TminStages.NormalizedIdleIff` | afl/afl-tmin.c:436-464 | stage 0 leaves the data alone if and only if every aligned block that is not all '0' is rejected when overwritten |
| `TminStages.WalkIsGreedy` | afl/afl-tmin.c:494-535 | the walk, with its skips, deletes exactly the blocks that trying each block of the input once, in order, deletes |
| `TminStages.AlphabetIs` | afl/afl-tmin.c:569-592 | each symbol is overwritten throughout exactly if that was accepted with the smaller symbols as they became |
| `TminStages.CharacterIs` | afl/afl-tmin.c:608-627 | each byte is overwritten exactly if that was accepted with the bytes before it as they became |
| `TminStages.LeftWereTried` | afl/afl-tmin.c:471-634 | every byte of the result other than '0' was tried, alone and with its whole symbol, and rejected in the last pass with replacements |
| `TrimCase.TrimmedKeepsPathAndHead` | afl/afl-fuzz.c:4467-4584 | the trimmed case is a subsequence of the input, keeps its first four bytes, and if it changed has the original checksum, as has the trace that is scored again |
| `TrimCase.PassLeavesAloneIff` | afl/afl-fuzz.c:4497-4552 | a pass changes nothing if and only if every chunk it meets, taken out by itself, changes the checksum |
| `TrimCase.ChunkPassSifts` | afl/afl-fuzz.c:4497-4552 | a pass drops exactly the chunks that trying each chunk of the input once, in order, drops, and stops at an error of the target |
| `TrimCase.TrimmedLeavesAloneIff` | afl/afl-fuzz.c:4488-4556 | trimming changes nothing if and only if every chunk of every length tried, after the first, matters |
| `TrimCase.ChunkPassKeeps` | afl/afl-fuzz.c:4504-4552 | every commit of a pass keeps checksum, head and order |
| `TrimCase.Trimmer.WriteWithGap` | afl/afl-fuzz.c:2500-2526 | the file written is the buffer without the gap |
| `TrimCase.Trimmer.TrimChunk` | afl/afl-fuzz.c:4504-4552 | what was written with a gap is exactly what the buffer holds if the removal is kept; the loop makes progress |
| `TrimCase.Trimmer.TrimPass` | afl/afl-fuzz.c:4497-4552 | one chunk length in place |
| `TrimCase.Trimmer.TrimCase` | afl/afl-fuzz.c:4467-4584 | the whole trimmer terminates although len_p2 changes on the way, computes the trimming function, and rewrites and scores the entry exactly if it changed |
| `Coverage.ClassIsBucket` | afl/afl-fuzz.c:1115-1127 | two hit counts share a class bit exactly if they lie in the same of the ranges 1, 2, 3, 4-7, 8-15, 16-31, 32-127, 128 and more |
| `Coverage.InitCountClass16` | afl/afl-fuzz.c:1132-1142 | the 16-bit table classifies both bytes of every half word |
| `Coverage.ClassifyCounts64` | afl/afl-fuzz.c:1147-1170 | classification by 64-bit words is the bytewise one |
| `Coverage.ClassifyCounts32` | afl/afl-fuzz.c:1174-1195 | classification by 32-bit words is the bytewise one |
| `Coverage.Word64Test` | afl/afl-fuzz.c:905-905 | a 64-bit AND is non-zero exactly if some byte of the trace has a bit the virgin byte has |
| `Coverage.Word64Cleared` | afl/afl-fuzz.c:933-933 | the 64-bit update clears, byte by byte, exactly the bits of the trace |
| `Coverage.Word32Test` | afl/afl-fuzz.c:905-905 | the same at 32 bits |
| `Coverage.Word32Cleared` | afl/afl-fuzz.c:933-933 | the same at 32 bits |
| `Coverage.WordNoted` | afl/afl-fuzz.c:899-940 | one turn of the word loop extends verdict and map by the bytes of the word, at either word size |
| `Coverage.HasNewBits64` | afl/afl-fuzz.c:879-946 | 64-bit flavour: verdict and new virgin map are the bytewise ones |
| `Coverage.HasNewBits32` | afl/afl-fuzz.c:879-946 | 32-bit flavour: verdict and new virgin map are the bytewise ones |
| `Coverage.VirginMapMeaning` | afl/afl-fuzz.c:1347-1350 | after any runs from an all-ones map each byte is the complement of the union of the buckets seen there |
| `Coverage.VerdictMeaning` | afl/afl-fuzz.c:872-878 | 2 iff some tuple was never hit before, else 1 iff some bucket is new, else 0 |
| `Coverage.RepeatBringsNothing` | afl/afl-fuzz.c:872-876 | an immediate repeat returns 0 |
| `Coverage.VirginStep` | afl/afl-fuzz.c:933-933 | a run extends the history the virgin map stands for |
| `Coverage.Session.NoteRun` | afl/afl-fuzz.c:879-946 | classify and note a raw trace: the meaning of the verdict over the whole history, the same for both word sizes |
| `WinnerTable.MinimizeBits` | afl/afl-fuzz.c:1213-1224 | bit i of the compacted trace is set exactly if byte i of the trace is hit |
| `WinnerTable.QueueEntry.Release` | afl/afl-fuzz.c:1258-1261 | dropping a reference discards the compacted trace with the last one |
| `WinnerTable.QueueEntry.Acquire` | afl/afl-fuzz.c:1268-1273 | taking a reference makes the compacted trace if there is none |
| `WinnerTable.CountHandOver` | afl/afl-fuzz.c:1258-1268 | handing over one slot moves one unit of the reference counts |
| `WinnerTable.CountPositive` | afl/afl-fuzz.c:1258-1261 | an entry has references exactly if it holds a slot |
| `WinnerTable.Fuzzer.Challenge` | afl/afl-fuzz.c:1247-1277 | one byte: the challenger takes the slot exactly if it is free or it is not worse |
| `WinnerTable.Fuzzer.UpdateBitmapScore` | afl/afl-fuzz.c:1237-1279 | keeps tc_ref equal to the slots held, trace_mini present exactly if tc_ref > 0, and every slot with a minimal holder |
| `WinnerTable.Fuzzer.WinnersAreMinimal` | afl/afl-fuzz.c:1245-1277 | after the loop each slot minimises exec_us * len over all scored entries that hit the byte |
| `WinnerTable.Fuzzer.HolderIsCheapest` | afl/afl-fuzz.c:1245-1277 | every byte hit by a scored entry has a holder that hits it and than which no scored entry that hits it takes less time times length |
| `WinnerTable.Fuzzer.Trimmed` | afl/afl-fuzz.c:4561-4577 | the table stays minimal when an entry shrinks by trimming and is scored again |
| `WinnerTable.Fuzzer.Calibrated` | afl/afl-fuzz.c:2635-2643 | the table is right after the first scoring of an entry |
| `WinnerTable.Fuzzer.BeginCalibration` | afl/afl-fuzz.c:2557-2557 | a calibration counts as failed until it ends, never more often than CAL_CHANCES, and changes no counter of the queue |
| `WinnerTable.Fuzzer.GiveUp` | afl/afl-fuzz.c:2751-2758 | an entry skipped in the dry run has used up its chances |
| `WinnerTable.Fuzzer.AddToQueue` | afl/afl-fuzz.c:777-809 | a new entry is unfuzzed, not favored and holds no slot; the counters stay exact |
| `WinnerTable.Fuzzer.FinishEntry` | afl/afl-fuzz.c:6609-6613 | marking an entry fuzzed keeps both pending counters exact |
| `WinnerTable.PicksCover` | afl/afl-fuzz.c:1313-1329 | every byte with a winner is covered by a pick |
| `WinnerTable.PicksAreNeeded` | afl/afl-fuzz.c:1313-1329 | every pick covers a byte that no earlier pick covers |
| `WinnerTable.PicksDistinct` | afl/afl-fuzz.c:1313-1329 | no entry is picked twice, so queued_favored counts entries |
| `WinnerTable.UncoveredStep` | afl/afl-fuzz.c:1320-1322 | after clearing a trace from temp_v the set bits are the bytes no pick covers |
| `WinnerTable.Fuzzer.PickFavored` | afl/afl-fuzz.c:1298-1329 | favored are exactly the picks, and both favored counters agree with them |
| `WinnerTable.Fuzzer.CullQueue` | afl/afl-fuzz.c:1288-1338 | does nothing in dumb mode or without a change; else favors exactly the picks; all counters stay exact |
| `WinnerTable.Fuzzer.FavoredCover` | afl/afl-fuzz.c:1288-1338 | after a cull that acted, every byte with a winner is hit by some favored entry |
| `DupTests.CouldBeBitflip` | afl/afl-fuzz.c:4761-4785 | 1 iff the difference is 0, or 1, 3 or 15 walked by any number of bits, or 0xff, 0xffff or 0xffffffff walked by whole bytes |
| `DupTests.CouldBeArith` | afl/afl-fuzz.c:4791-4863 | for all values that fit in 1, 2 or 4 bytes: 1 iff new is old with some j of -35..35 added, wrapping, to one byte, one aligned half in either byte order, or the dword in either byte order |
| `DupTests.CouldBeInterest` | afl/afl-fuzz.c:4872-4937 | 1 iff new is old, or old with an interesting byte stored somewhere in it, or an interesting word (little endian in a word only when asked, big endian only in a dword where the loop tries it), or an interesting dword when asked |
| `DupTests.CountDiffs` | afl/afl-fuzz.c:4799-4806 | the loop that counts differing parts finds 1 exactly if one part differs, and remembers that part |
| `DupTests.ByteArithIsNear` | afl/afl-fuzz.c:4810-4815 | for one byte the test is distance at most 35 modulo 256 |
| `DetStages.FlipBitsUndo` | afl/afl-fuzz.c:5240-5250 | flipping the same bits again restores the buffer |
| `DetFuzzer.FuzzOne.WalkingBits` | afl/afl-fuzz.c:5117-5254 | bitflip 1/1, 2/1 and 4/1: the test cases in order, the buffer restored, stage_cur equal to stage_max |
| `DetFuzzer.FuzzOne.WalkingByte` | afl/afl-fuzz.c:5272-5342 | bitflip 8/8: the test cases, the buffer restored, and the effector map |
| `DetStages.EffMapMeaning` | afl/afl-fuzz.c:5272-5342 | a cell is set iff the map was too dense to keep, the cell is the first or last, or one of its bytes has an effect |
| `DetFuzzer.FuzzOne.WalkByte` | afl/afl-fuzz.c:5291-5325 | eff_cnt counts the set cells |
| `DetFuzzer.FuzzOne.Attempt` | afl/afl-fuzz.c:5463-5471 | run a candidate or take it off the total: every candidate is accounted for once |
| `DetFuzzer.FuzzOne.Arith8At` | afl/afl-fuzz.c:5443-5489 | arith 8/8 at one byte |
| `DetFuzzer.FuzzOne.Arith16At` | afl/afl-fuzz.c:5507-5583 | arith 16/8 at one position, both byte orders |
| `DetFuzzer.FuzzOne.Arith32At` | afl/afl-fuzz.c:5601-5675 | arith 32/8 at one position, both byte orders |
| `DetFuzzer.FuzzOne.Interest8At` | afl/afl-fuzz.c:5699-5732 | interest 8/8 at one byte |
| `DetFuzzer.FuzzOne.Interest16At` | afl/afl-fuzz.c:5750-5800 | interest 16/8 at one position |
| `DetFuzzer.FuzzOne.Interest32At` | afl/afl-fuzz.c:5818-5869 | interest 32/8 at one position |
| `DetFuzzer.FuzzOne.FlipWordAt` | afl/afl-fuzz.c:5362-5417 | bitflip 16/8 and 32/8 at one position |
| `DetFuzzer.FuzzOne.RunStage` | afl/afl-fuzz.c:5353-5874 | each stage from bitflip 16/8 to interest 32/8 leaves out_buf as it was, and ends with stage_cur equal to stage_max and to the number of runs |
| `DetFuzzer.FuzzOne.Deterministic` | afl/afl-fuzz.c:5117-5874 | all deterministic stages in order, with the skips for short inputs and no_arith: the list of test cases, and out_buf as it was |
| `DetWords.BitsFlipped` | afl/afl-fuzz.c:5099-5103 | the n bits from bit k on are complemented, the highest bit of a byte first, and no other |
| `DetWords.FlippedWords` | afl/afl-fuzz.c:5353-5417 | bitflip 16/8 and 32/8 run one test case for a word, with its bytes complemented |
| `DetWords.ArithWords` | afl/afl-fuzz.c:5507-5675 | for a word arith 16/8 and 32/8 run exactly the inputs that differ in this word only, where the little- or big-endian value moves by 1 to 35, up or down modulo its width, across its halves, and that no walking flip makes |
| `DetWords.InterestWords` | afl/afl-fuzz.c:5750-5869 | for a word interest 16/8 and 32/8 run exactly the inputs that differ in this word only, where the little- or big-endian value is an interesting one that no earlier stage or try makes |
| `DetWords.StageRuns` | afl/afl-fuzz.c:5353-5874 | a stage runs the test cases of exactly the words with a byte whose cell of the effector map is set |
| `DetWords.StagesAre` | afl/afl-fuzz.c:5426-5807 | which stages are run for which length, with and without arithmetics |
| `DetWords.DeterministicRuns` | afl/afl-fuzz.c:5117-5874 | all that the deterministic stages run: the walking flips, and for every stage that applies the test cases of the words visited |
| `WordTests.ArithTest` | afl/afl-fuzz.c:4791-4863 | on the bytes: could_be_arith tells whether one byte, one aligned pair in either byte order, or all four bytes in either byte order move by at most 35 |
| `WordTests.InterestTest` | afl/afl-fuzz.c:4872-4937 | on the bytes: could_be_interest tells whether nothing changes, or an interesting value stands in one byte, two neighbouring bytes or all four of them |
| `WordTests.InterestRuns` | afl/afl-fuzz.c:5750-5869 | interest 16/8 and 32/8 with both tests told on the bytes |
| `DetCoverage.ByteBitflip` | afl/afl-fuzz.c:4761-4785 | on the difference of two bytes could_be_bitflip says exactly what the flips inside a byte do |
| `DetCoverage.FlipHits` | afl/afl-fuzz.c:5209-5252 | flipping n bits turns one byte into v, and changes nothing else, exactly if it stays inside that byte and v differs by that mask |
| `DetCoverage.FlipsCount` | afl/afl-fuzz.c:5117-5325 | the walking flips run a one-byte change once if could_be_bitflip accepts it, else never |
| `DetCoverage.ArithCount` | afl/afl-fuzz.c:5443-5489 | arith 8/8 tries each value at distance 1 to j once, unless it is left to the flips |
| `DetCoverage.InterestCount` | afl/afl-fuzz.c:5699-5732 | interest 8/8 tries each of its values once, unless it is left to flips or arithmetics |
| `DetCoverage.ByteValueCount` | afl/afl-fuzz.c:5117-5732 | how often the eight-bit stages run any one-byte change, for every input, effector map and setting of no_arith |
| `DetCoverage.EveryByteChangeOnce` | afl/afl-fuzz.c:5117-5732 | with arithmetics on, at each byte with its effector cell set, every change by up to 35 and to every interesting value is run exactly once |
| `DetCoverage.NoArithLoses` | afl/afl-fuzz.c:5426-5426 | with arithmetics off an interesting value is lost if and only if it is near the original and no bit flip makes it |
| `DetCoverage.AllStagesCoverBytes` | afl/afl-fuzz.c:5117-5874 | the deterministic stages together run each of these test cases at least as often |
| `DictStages.OffsetState` | afl/afl-fuzz.c:5895-5930 | at one offset the clobbered bytes are those of the last token, and the buffer is the last run |
| `DictStages.RestoresInput` | afl/afl-fuzz.c:5932-5933 | because tokens are sorted by size, restoring last_len bytes gives the input back |
| `DictStages.RunsAreOverlays` | afl/afl-fuzz.c:5906-5930 | each run is the input with one usable token over it |
| `DictStages.TokensAreRun` | afl/afl-fuzz.c:5913-5921 | each usable token is run, unless it equals what is there: the comparison with the clobbered buffer loses nothing |
| `DictStages.UnsortedTokensLeak` | afl/afl-fuzz.c:1745-1745 | without the order bytes of a longer token would survive: a concrete case |
| `DictStages.Overwrite` | afl/afl-fuzz.c:5884-5935 | the stage leaves out_buf equal to in_buf, and stage_cur equal to stage_max and to the number of runs |
| `AutoExtras.ArrangedIs` | afl/afl-fuzz.c:1866-1874 | sorting by use and then the top by size keeps the entries, sorts the top by size and leaves there those used most |
| `AutoExtras.NotedKeeps` | afl/afl-fuzz.c:1822-1862 | the list before sorting stays free of duplicates up to case and of rejected tokens, and within its bound |
| `AutoExtras.UsedTokensStay` | afl/afl-fuzz.c:1851-1860 | a new token never evicts one of those in use |
| `AutoExtras.TopIsSorted` | afl/afl-fuzz.c:1871-1874 | the order the overwriting stage relies on |
| `AutoExtras.Dictionary.LoadExtras` | afl/afl-fuzz.c:1741-1746 | user tokens are sorted when they are loaded, after the tokens of an earlier session were collected again; nothing to load is fatal |
| `AutoExtras.Dictionary.TestBuiltin` | afl/afl-fuzz.c:1790-1810 | the builtin values in both byte orders, negative 16-bit ones only when swapped |
| `AutoExtras.Dictionary.TestUser` | afl/afl-fuzz.c:1812-1820 | comparing tokens of the same size only misses none, because user tokens are sorted |
| `AutoExtras.Dictionary.MaybeAddAuto` | afl/afl-fuzz.c:1775-1876 | a rejected token changes nothing; otherwise a hit, a new entry or an eviction; after every call the tokens in use are sorted by size, all are different up to case, and none collected since the user tokens were loaded is one of them |
| `AutoExtras.Dictionary.OverwriteUser` | afl/afl-fuzz.c:5884-5935 | the overwriting stage on the user tokens |
| `AutoExtras.Dictionary.OverwriteAuto` | afl/afl-fuzz.c:5995-6035 | the same for the at most USE_AUTO_EXTRAS collected tokens in use; no order is assumed |
| `Havoc.ChooseBlockLen` | afl/afl-fuzz.c:4643-4680 | never zero, never more than the limit; at most 32 in the first queue cycle or the first ten minutes, 128 in the second cycle and 32768 later, for all random numbers |
| `Havoc.HavocStage.SetInteresting` | afl/afl-fuzz.c:6109-6154 | cases 1 to 3 store an interesting value inside the test case |
| `Havoc.HavocStage.AddSomething` | afl/afl-fuzz.c:6156-6264 | cases 4 to 9 move a word by 1 to 35, in either byte order, inside the test case |
| `Havoc.HavocStage.DeleteSomething` | afl/afl-fuzz.c:6275-6298 | cases 11 and 12 delete a block and leave at least one byte |
| `Havoc.HavocStage.CloneSomething` | afl/afl-fuzz.c:6300-6348 | case 13 inserts a copy of a block or a constant block, below MAX_FILE, in a buffer of the right size |
| `Havoc.HavocStage.ReplaceSomething` | afl/afl-fuzz.c:6350-6374 | case 14 overwrites with a block of the test case or one byte |
| `Havoc.HavocStage.ReplaceByToken` | afl/afl-fuzz.c:6379-6414 | case 15 overwrites with a token that fits |
| `Havoc.HavocStage.InsertToken` | afl/afl-fuzz.c:6416-6466 | case 16 inserts a token, below MAX_FILE |
| `Havoc.HavocStage.TweakOnce` | afl/afl-fuzz.c:6100-6468 | whatever the switch picks, the new test case is what that case offers, and the buffer holds it |
| `Havoc.RandomByteChanges` | afl/afl-fuzz.c:6266-6273 | case 10 is never a no-op |
| `Havoc.StackedInBounds` | afl/afl-fuzz.c:6098-6470 | any stack of tweaks leaves between 1 and MAX_FILE bytes |
| `Havoc.HavocStage.Round` | afl/afl-fuzz.c:6092-6480 | a round runs the input with 2, 4, ... or 128 tweaks and restores in_buf[..len] |
| `Havoc.HavocStage.RunStage` | afl/afl-fuzz.c:6061-6496 | the rounds are max(16, cycles * score / havoc_div / 100), with cycles 32 when splicing, 1024 after the deterministic stages and 256 otherwise, doubled some times, and not at all if and only if no new path was found; never more than 32768, each run between 1 and MAX_FILE bytes |
| `HavocWords.ArithmeticMoves` | afl/afl-fuzz.c:6156-6264 | cases 6 to 9 on the bytes: one word changes, and read in one byte order it moves by 1 to 35 in the direction of the case |
| `HavocWords.InterestingStands` | afl/afl-fuzz.c:6109-6154 | cases 2 and 3 on the bytes: one word changes, and in one byte order it reads an interesting value |
| `PerfScore.ScoreBounds` | afl/afl-fuzz.c:4687-4751 | calculate_score lies in [2, 1600] |
| `PerfScore.ScoreBoundsAreTight` | afl/afl-fuzz.c:4687-4751 | both bounds are attained |
| `PerfScore.ScoreMonotone` | afl/afl-fuzz.c:4687-4751 | a not slower, not less covering, not earlier found and not shallower entry never scores lower |
| `PerfScore.SpeedIs` | afl/afl-fuzz.c:4695-4710 | the factor for the speed, threshold by threshold |
| `PerfScore.SizeIs` | afl/afl-fuzz.c:4713-4724 | the factor for the bitmap size in quarters, threshold by threshold |
| `PerfScore.ScoreFactors` | afl/afl-fuzz.c:4687-4751 | the capped product of speed, size, 1, 2 or 4 for the handicap, and 1 plus the number of depths 4, 8, 14 and 26 reached |
| `PerfScore.Entry.CalculateScore` | afl/afl-fuzz.c:4687-4751 | the score, within its bounds, and the handicap used up |
| `TokenDict.Dump` | afl/libtokencap/libtokencap.so.c:99-135 | what is printed for a token, cut at the first NUL in text mode; nothing outside 3..32 bytes; buf is never overrun and ptr never read past its NUL |
| `TokenDict.EmptyTokens` | afl/libtokencap/libtokencap.so.c:108-112 | the printed token is empty exactly for text that starts with a NUL |
| `TokenDict.UnescapedEscaped` | afl/afl-fuzz.c:1602-1641 | resolving the escapes of what is printed gives the bytes back |
| `TokenDict.LineParsed` | afl/afl-fuzz.c:1538-1654 | the line printed for a token parses to the token; for the empty token it is the fatal Empty keyword |
| `TokenDict.PrintedLoads` | afl/afl-fuzz.c:1526-1658 | a file printed for any tokens loads as these tokens in order, if and only if none is empty |
| `TokenDict.DumpedFileLoads` | afl/afl-fuzz.c:1526-1658 | whatever the printer was called with, its file loads as the cut tokens in order; the fuzzer stops, at Empty keyword, if and only if some text of a length in range starts with a NUL |
| `TokenDict.DecodeNext` | afl/afl-fuzz.c:1606-1639 | one character or escape of the value; no test reads past the NUL |
| `TokenDict.CopyValue` | afl/afl-fuzz.c:1600-1641 | the value with its escapes resolved fits in the block allocated for it |
| `TokenDict.ParseLine` | afl/afl-fuzz.c:1545-1647 | one line in its buffer: trimming, comment, closing quote, label, level, opening quote, value, with every fatal exit |
| `TokenDict.LoadExtrasFile` | afl/afl-fuzz.c:1526-1658 | the whole file line by line, lines as fgets cuts them |
| `DictGrammar.NextIff` | afl/afl-fuzz.c:1606-1639 | a byte is read exactly where it is spelled: as itself, as a quote or backslash behind a backslash, or as \xNN in either case |
| `DictGrammar.UnescapedIff` | afl/afl-fuzz.c:1602-1641 | resolving the escapes gives exactly the tokens the text spells |
| `DictGrammar.UnescapedFatal` | afl/afl-fuzz.c:1606-1639 | the loader stops exactly at the first place where nothing is spelled: at an unprintable character or a backslash that begins no escape |
| `DictGrammar.HandWritten` | afl/afl-fuzz.c:1538-1654 | any line of indentation, label, level, equals sign and quoted spelling is skipped if its level exceeds dict_level, and otherwise gives the token; an empty or too long one is fatal |
| `DictGrammar.LineIff` | afl/afl-fuzz.c:1538-1654 | a line gives a token if and only if it is written this way with a level that is not too high |
| `DictGrammar.SkippedLines` | afl/afl-fuzz.c:1545-1561 | blank lines and comments are skipped |
| `DictGrammar.LoadLine` | afl/afl-fuzz.c:1526-1658 | a file is the entry of its first line before those of the rest, or its error |
| `Terms.VarsCover` | static/juxta/analyzer/code.py:158-168 | find_all_var finds exactly the variables a term mentions, each once |
| `Terms.ReplaceMeaning` | static/juxta/analyzer/parsing/Ast.py:606-628 | replacing a key by a value that fits it preserves the meaning of a term, as long as no tmp shows up in the outcome |
| `Terms.ReplaceStaysOpen` | static/juxta/analyzer/parsing/Ast.py:593-628 | replacing a term over $A and tmp never removes the last script variable |
| `Substitution.KeyIsApart` | static/juxta/analyzer/code.py:187-191 | when the turn of a variable comes every result still mentions a script variable, so the overwritten key is never the whole of a copy and is overwritten just once |
| `Substitution.SubstitutedShape` | static/juxta/analyzer/code.py:171-200 | as many results as there are choices of values; the first has the first value of each variable, every other one still holds a script variable |
| `Substitution.SubstitutedClosedIff` | static/juxta/analyzer/code.py:171-200 | all results are over $A and tmp if and only if no variable of the expression has two or more values |
| `Substitution.FirstResultNoTmp` | static/juxta/analyzer/code.py:171-200 | the first result is free of tmp if and only if every variable has a first value that is |
| `Substitution.CopiesAt` | static/juxta/analyzer/code.py:182-191 | which copy of which result is taken for which value of the variable |
| `Substitution.SubstitutedMeans` | static/juxta/analyzer/code.py:171-200 | if each variable's first value is free of tmp whenever one of its values is, every tmp-free result means what the expression means |
| `Substitution.MeaningLost` | static/juxta/analyzer/code.py:187-191 | otherwise some expression has a tmp-free result of another meaning, under an interpretation that agrees with all values |
| `Substitution.MeaningKeptIff` | static/juxta/analyzer/code.py:171-200 | all tmp-free results of all expressions keep their meaning if and only if that condition holds |
| `DataFlow.BuildGraphMeaning` | static/juxta/analyzer/code.py:129-146 | there is an edge exactly if some pair orders the two variables |
| `DataFlow.SortedIsSound` | static/juxta/analyzer/code.py:38-74 | sorting an equation notes script terms only, and records the flow into the variable it notes them for |
| `DataFlow.SortedMeans` | static/juxta/analyzer/code.py:38-74 | under any interpretation that satisfies the equation the noted term equals its variable |
| `SymbolicFacts.EquationsAreSubterms` | static/juxta/analyzer/code.py:148-156 | find_all_equal finds exactly the subterms that are equations |
| `SymbolicFacts.CollectedExactly` | static/juxta/analyzer/code.py:38-74 | a variable has exactly the expressions that the equations of the script give it, once for each, and a source itself |
| `SymbolicFacts.FlowsExactly` | static/juxta/analyzer/code.py:38-74 | the pairs order exactly the variables between which an equation of the script flows |
| `SymbolicFacts.SourcesExactly` | static/juxta/analyzer/code.py:219-226 | the sources are exactly the marked variables of the script, and the k-th of them has $A k |
| `SymbolicFacts.AnalysisRecords` | static/juxta/analyzer/code.py:197-198 | symbolicValue holds exactly the results for the evaluated expressions all of whose variables have values |
| `SymbolicResolution.ResolveOrder` | static/juxta/analyzer/code.py:78-126 | the loop ends, with every graph variable placed once, after the sources, and after its predecessors unless a cycle was broken there |
| `SymbolicResolution.OrderIsTheGraphs` | static/juxta/analyzer/code.py:82-125 | order and broken cycles depend on the graph alone, not on expressions or values |
| `SymbolicResolution.BrokenIff` | static/juxta/analyzer/code.py:109-124 | a cycle was broken at a variable if and only if nothing was ready when its turn came and it was the first key left |
| `SymbolicResolution.BreaksOnlyCycles` | static/juxta/analyzer/code.py:109-125 | the cycle-breaking branch is never taken if and only if the graph without its sources is acyclic |
| `SymbolicResolution.PlacedOnceInOrder` | static/juxta/analyzer/code.py:78-126 | the final order of doneVariables, with both descriptions of where cycles were broken |
| `SymbolicResolution.ResolveKeepsInv` | static/juxta/analyzer/code.py:88-123 | unless an exception was raised, each evaluated variable ends with the results for its expressions under the final values, the others with none |
| `SymbolicResolution.ResolveFirsts` | static/juxta/analyzer/code.py:82-125 | the first value of every variable is over $A and tmp, whatever happens to the others |
| `SymbolicResolution.CollectedIsSound` | static/juxta/analyzer/code.py:213-229 | the facts start collects are over the script and record their flow |
| `SymbolicResolution.AnalysisCrashesIff` | static/juxta/analyzer/code.py:123-123 | the analysis raises an exception if and only if an evaluated expression mentions a variable without expressions at which a cycle was broken |
| `SymbolicResolution.AnalysisBareIff` | static/juxta/analyzer/code.py:115-124 | an entry is the bare variable in the end if and only if nothing defines the variable and it was the first key left when nothing was ready |
| `SymbolicResolution.AnalysisCounts` | static/juxta/analyzer/code.py:91-101 | a variable has as many values as its expressions leave choices |
| `SymbolicResolution.AnalysisClosedIff` | static/juxta/analyzer/code.py:171-200 | all values are over $A and tmp if and only if no evaluated expression mentions a variable that is evaluated from two or more expressions |
| `SymbolicResolution.AnalysisGroundedIff` | static/juxta/analyzer/code.py:171-200 | which variables have a tmp-free first value, and which have several values, read off the defining equations |
| `SymbolicResolution.AnalysisPreservesMeaning` | static/juxta/analyzer/code.py:202-233 | under any interpretation of the script's equations, with each $A its source, every tmp-free value found for a variable evaluates to the variable, if the first value of every variable used is tmp-free whenever any of its values is |
| `SymbolicResolution.GroundedScriptsKeepMeaning` | static/juxta/analyzer/code.py:202-233 | the same when every variable used is grounded or not multiply defined, which is read off the equations |
| `SymbolicResolution.OperandsAreDoneFirst` | static/juxta/analyzer/code.py:83-101 | a variable is resolved after all variables of its expressions, unless a cycle was broken there |
| `SymbolicExtension.ExtendedCollected` | static/juxta/analyzer/code.py:43-66 | an equation that defines a new variable adds one expression and one flow |
| `SymbolicExtension.ResolveAlike` | static/juxta/analyzer/code.py:82-125 | in the larger graph the variables of the smaller one are placed, and cycles broken at them, all the same |
| `SymbolicExtension.NoNewCrash` | static/juxta/analyzer/code.py:180-180 | the equation raises no exception unless it mentions a variable whose entry is bare |
| `SymbolicExtension.ExtensionKeepsValues` | static/juxta/analyzer/code.py:82-125 | the variables of a script keep their values when it is extended |
| `ExtensionMeaning.FitsStay` | static/juxta/analyzer/code.py:171-200 | the condition on first values carries over to every extension |
| `ExtensionMeaning.TrapLoses` | static/juxta/analyzer/code.py:187-191 | if it fails, some extension of a satisfiable script finds a tmp-free value of another meaning |
| `ExtensionMeaning.ExtensionsKeepMeaningIff` | static/juxta/analyzer/code.py:171-200 | every extension of a satisfiable script by an equation keeps the meaning of its new variable if and only if each first value is tmp-free whenever any value of that variable is |
| `SymbolicWitnesses.VariableStays` | static/juxta/analyzer/code.py:182-191 | one substitution by two values: the second result still holds the variable |
| `SymbolicWitnesses.TmpIsTaken` | static/juxta/analyzer/code.py:182-191 | one substitution where the second value takes the place of another variable's tmp |
| `SymbolicWitnesses.ValueHoldsVariable` | static/juxta/analyzer/code.py:171-200 | a script whose analysis leaves a script variable in a value |
| `SymbolicWitnesses.ValueChangesMeaning` | static/juxta/analyzer/code.py:171-200 | a script with a tmp-free value that does not mean its variable, the condition on first values failing |
| `SymbolicWitnesses.EntryIsBare` | static/juxta/analyzer/code.py:116-124 | a script that leaves a bare entry |
| `SymbolicWitnesses.BareEntryRaises` | static/juxta/analyzer/code.py:180-180 | a script on which the length of a bare entry is asked for |
| `SymbolicWitnesses.WitnessesAreThere` | static/juxta/analyzer/code.py:171-200 | all four for concrete names |
| `SymbolicEngine.ResultsAreOpen` | static/juxta/analyzer/code.py:187-191 | at each turn all results still hold a script variable, and the values used as keys do not |
| `SymbolicEngine.SE.SortOperands` | static/juxta/analyzer/code.py:38-74 | sortOperands on an equation |
| `SymbolicEngine.SE.CreateGraph` | static/juxta/analyzer/code.py:129-146 | createGraph |
| `SymbolicEngine.SE.SubstituteValues` | static/juxta/analyzer/code.py:181-191 | one variable: the copies, and the key that the first replacement overwrites |
| `SymbolicEngine.SE.Substitute` | static/juxta/analyzer/code.py:171-200 | substitute, what it adds to symbolicValue, and the exception at a bare entry |
| `SymbolicEngine.SE.Sweep` | static/juxta/analyzer/code.py:83-104 | one pass over the keys, or an exception on the way |
| `SymbolicEngine.SE.BreakCycle` | static/juxta/analyzer/code.py:115-124 | when nothing is ready, the first variable left is placed, with an empty list or the bare entry |
| `SymbolicEngine.SE.ResolveGraph` | static/juxta/analyzer/code.py:78-126 | resolveGraph terminates and computes the resolution function, or raises an exception where it says |
| `SymbolicEngine.SE.SeedSources` | static/juxta/analyzer/code.py:219-226 | the sources with their expressions and $A values |
| `SymbolicEngine.SE.Start` | static/juxta/analyzer/code.py:202-233 | start computes the analysis the theorems are about |
| `LockPairs.StepInv` | static/juxta/analyzer/lock.py:257-274 | every effect keeps the two stacks in step: the lock calls among the entries are exactly the locks; the assertion in unlock holds |
| `LockPairs.UnlockInv` | static/juxta/analyzer/lock.py:100-128 | unlock never meets the assertion failure, and never reports a found unlocked lock |
| `LockPairs.RunInv` | static/juxta/analyzer/lock.py:255-281 | the stacks stay in step on every path |
| `LockPairs.BelowKeepsLocks` | static/juxta/analyzer/lock.py:113-120 | popping entries down to a lock meets only locks popped before |
| `LockPairs.CrashIff` | static/juxta/analyzer/lock.py:103-111 | pop from the empty list happens exactly at an unlock with something held, all of it trylocks that do not pair |
| `LockPairs.RunClean` | static/juxta/analyzer/lock.py:257-274 | the table stays empty exactly while the discipline is kept |
| `LockPairs.ExploredClean` | static/juxta/analyzer/lock.py:255-281 | a path is explored without crash and with an empty table iff it keeps the discipline and leaves at most one lock, or only trylocks |
| `LockPairs.TryFreeClean` | static/juxta/analyzer/lock.py:255-281 | without trylocks nothing crashes, and the table is empty iff unlocks pair with the most recent lock, no identical lock is retaken, and at most one is left |
| `LockPairs.LockState.Lock` | static/juxta/analyzer/lock.py:76-87 | lock |
| `LockPairs.LockState.PopPaired` | static/juxta/analyzer/lock.py:102-111 | the search for the lock of an unlock |
| `LockPairs.LockState.Unlock` | static/juxta/analyzer/lock.py:89-128 | unlock, with both ways it can crash |
| `LockPairs.ExplorePath` | static/juxta/analyzer/lock.py:255-281 | explore_path computes the outcome the theorems are about |
| `LockPairs.Grep` | static/juxta/analyzer/lock.py:241-253 | the effects strictly between a lock and its unlock |
| `LockReports.RunReports` | static/juxta/analyzer/lock.py:255-274 | along every path the locks are those held, exploring goes on exactly while an unlock with something held answers to a lock, and the table holds the kind of the first breach at each location: an identical lock while held, an unlock with nothing held, or one that does not pair with the lock it answers to |
| `LockReports.ExploredReports` | static/juxta/analyzer/lock.py:255-281 | what explore_path reports on every path: the first breach at each location, and, if two or more locks are left, those that are no trylocks at locations without a breach |
| `LockReports.TryFreeHeld` | static/juxta/analyzer/lock.py:89-111 | without trylocks exploring never crashes, and only real locks are held |
| `LockReports.TryFreeUnlocks` | static/juxta/analyzer/lock.py:100-111 | without trylocks an unlock takes the most recent lock off and is reported exactly if it does not pair with it |
| `Dislocator.BudgetTest` | afl/libdislocator/libdislocator.so.c:94-104 | the wrapping test accepts exactly what fits the budget |
| `Dislocator.CallocOverflow` | afl/libdislocator/libdislocator.so.c:153-166 | calloc rejects as overflow if and only if the true product is at least 2^64 |
| `Dislocator.OwnDown` | afl/libdislocator/libdislocator.so.c:215-215 | the counters stay the threads' own live sums exactly if the freeing thread allocated the block, or it is empty |
| `Dislocator.WrappedCounterRefuses` | afl/libdislocator/libdislocator.so.c:94-95 | a thread whose counter wrapped because it freed more than it allocated can allocate nothing any more |
| `Dislocator.HeaderStored` | afl/libdislocator/libdislocator.so.c:109-137 | the block ends at its guard page, the header lies in the mapping below it, and the block is zero |
| `Dislocator.FreeDoesNotWrap` | afl/libdislocator/libdislocator.so.c:211-220 | the 32-bit sums of free do not wrap for any length that can be allocated |
| `Dislocator.FreeFindsBase` | afl/libdislocator/libdislocator.so.c:218-220 | free recovers the exact start of the mapping |
| `Dislocator.BlockFreed` | afl/libdislocator/libdislocator.so.c:201-225 | freeing protects the whole mapping and leaves all others intact |
| `Dislocator.Allocator.Alloc` | afl/libdislocator/libdislocator.so.c:89-143 | succeeds iff the budget of the calling thread and the kernel allow it; the counters of the threads stay the live lengths modulo 2^64, all blocks intact and apart; each thread's counter stays its own live sum |
| `Dislocator.Allocator.Malloc` | afl/libdislocator/libdislocator.so.c:182-194 | the same, with the block clobbered |
| `Dislocator.Allocator.Calloc` | afl/libdislocator/libdislocator.so.c:149-175 | the same for the true product, with the block zero and in place; which refusal gives which result |
| `Dislocator.Allocator.Free` | afl/libdislocator/libdislocator.so.c:201-225 | a live block is protected as a whole and its length taken from the counter of the freeing thread; the counters stay the threads' own live sums if and only if that thread allocated the block or the block is empty; a freed one faults; NULL does nothing |
| `Dislocator.Allocator.Realloc` | afl/libdislocator/libdislocator.so.c:231-250 | the old contents reach the new block as far as they fit and the old block is freed; a failed allocation changes nothing |
| `Dislocator.Allocator.ProgramWrites` | afl/libdislocator/libdislocator.so.c:69-70 | a write inside a block damages no header and no other block |

## Left out

- Files, fault codes of system calls other than those named, `stop_soon`, user interface and statistics: not part of this model; a stage or run that the user aborts is not described.
- ForkServer: the protocol is a step system on values rather than four programs with their own variables, because its properties are about interleavings; pipes carry whole words, and only SIGALRM, SIGKILL, SIGSTOP and SIGCONT occur.  A pid is never reused.  The no-fork-server mode of `run_target` is not modelled.
- TminMinimize: replacement of single bytes is not claimed minimal for the final data, because the last pass re-checks deletions only; `apply_mask`, the missing-instrumentation exit and file handling are left out.
- TminMinimize.Tmin.MinimizeFile: `orig_cksum` and `crash_mode` are fixed after the dry run, as in the code; `stop_soon` never occurs.
- TrimCase.Trimmer.TrimCase: if the target cannot be executed the entry's file stays untouched although the buffer and its length may have shrunk; this is the code's behaviour, not a promise of its documentation.
- Coverage: the map size is a parameter that is a multiple of the word size; `var_bytes` and the tmout and crash maps are not modelled.
- WinnerTable.Fuzzer.Trimmed: entries have a fixed trace, and exec_us * len of the trimmed entry fits in 64 bits.
- WinnerTable.Fuzzer.CullQueue: what `mark_as_redundant` does on disk is left out; the tables of the hybrid fuzzer, which assign winners without adjusting reference counts, are not modelled.
- WinnerTable.Fuzzer.AddToQueue: `next_100` links, depth and statistics are left out.
- DetFuzzer.FuzzOne.WalkingBits: the collection of automatic tokens during the first stage is left out, and the three stages share one method with the number of bits as a parameter.
- DetFuzzer.FuzzOne.WalkingByte: the effector map is a value that is reassigned cell by cell, so that it cannot share memory with the buffer is not part of the proof.
- DetFuzzer.FuzzOne.RunStage: the eight stages share one outer loop; what each 16- and 32-bit stage runs is stated (DetWords.ArithWords, DetWords.InterestWords), but not that the stages together lose nothing, because could_be_bitflip accepts patterns across bytes that the walking flips do not make in memory order.
- DetFuzzer.FuzzOne.Deterministic: stages that `common_fuzz_stuff` abandons are not described.
- Havoc.HavocStage.TweakOnce: which of the offered tweaks is picked is arbitrary; that each of them can be picked is not stated.
- DictStages.Overwrite: that the tokens are sorted is a precondition here; AutoExtras.Dictionary meets it for both dictionaries.  The insertion of user tokens, whose total is off by one position per token, is left out.
- Havoc.HavocStage.RunStage: splicing itself is left out; its effect on the length of the stage is a parameter.
- Havoc.HavocStage.CloneSomething: the random numbers are drawn in a slightly different order.
- PerfScore.Entry.CalculateScore: comparisons with fractional factors are over the reals, without the rounding of doubles.
- TokenDict.LoadExtrasFile: directories of tokens and the minimum and maximum lengths that are only printed are left out; overflow in `atoi` is taken as reduction modulo 2^32.
- TokenDict.Dump: finding read-only mappings and the libc replacements around the printer are left out.
- Terms: terms are values rather than shared nodes; that the key of `Term.substitute` is a node of the first result is written out.  Names of variables, `$A`s and `tmp` are kept apart, a name has one type, and the bindings of a let are not looked into, as in the code.
- SymbolicResolution.AnalysisPreservesMeaning: the condition on first values is sufficient for one script; that it cannot be weakened is shown for all extensions of a script (ExtensionMeaning.ExtensionsKeepMeaningIff), not for the script alone, where a wrong replacement may still come out right.
- ExtensionMeaning.ExtensionsKeepMeaningIff: for scripts without equations inside equations, which the code would take for further facts; the new equation brings no new source.
- SymbolicEngine.SE.ResolveGraph: bare entries are kept in a list of their own; the printed warnings and the lists of outgoing edges are left out.  A list of results is never equal to a term, so the test for duplicates never rejects.
- SymbolicEngine.SE.Start: equations have at least two sides, as the type checker of the scripts ensures.
- LockPairs: effects are distinct objects compared by identity; `LOCKS` is the table in the source; reports and the collection of protected fields are left out.
- AutoExtras.Dictionary.MaybeAddAuto: what `qsort` makes of equal elements is arbitrary, and so is its order by use once counts differ by 2^31 or more; reading and writing the tokens on disk is left out.
- Dislocator: calls of different threads do not overlap in time; `mprotect` never fails, and the program reads and writes only inside its blocks; environment variables and debug output are left out.
- Dislocator.Allocator.Free: frees of pointers that never came from the allocator are not described.
- Dislocator.Allocator.Realloc: the same holds for reallocations.
- The LLVM pass, the call-site printers, the wrappers for the assembler and compiler, the QEMU shim, post-processors and the remaining checkers of the analyser are not part of this model.
