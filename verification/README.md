# liblitmus: verified models of its algorithmic parts

liblitmus is the user-space library of LITMUS^RT together with a set of real-time benchmark
programs. Most of it wraps system calls; this project models the parts that compute something and
proves what they are for.

**Cache-line pointer chase** (`Permutations`, `Cycles`, `Shuffle`, `RandRange`, `ShuffleSafety`,
`CaSpin`, `CaThrash`, `CaSpinWrite`, `CaSpinV2`). The `ca_spin` programs fill an arena of cache
lines with successor indices, shuffle it with a backwards swap loop, and walk it for as many steps
as there are lines. The measurement means something only if the arena is one single cycle. Proved:
for every number of lines and every sequence of draws the loop leaves exactly one cycle; half way
through, every cycle holds exactly one index of the unprocessed prefix, so each swap joins two
cycles; the draw sequences and the single cycles correspond one to one; a walk from any line reads
each line once and returns to its start. The walks read and write lines through an arena object that
logs every access, and their contracts give the log: the orbit of the start under the successor
indices. `rand()` is an arbitrary stream that does not stay on rejected numbers forever. `randrange`
rejects only `retval == limit`. That keeps every result in range for exactly the limits with
`RAND_MAX % limit < RAND_MAX / limit`. `init_arena` is modelled for arenas all of whose limits are
of this kind, and `ShuffleSafety` proves that for any other number of lines the swap loop can go
wrong: it divides by zero beyond RAND_MAX + 1 lines, and up to there some stream makes it index
outside of the arena or leave more than one cycle. With glibc's `RAND_MAX` the good arenas are those
of at most 46409 lines.

**CPU masks** (`Bits`, `Quotients`, `CType`, `MaskText`, `StrToUl`, `KernelFile`, `Migration`,
`MappedText`). `read_mapping` parses comma-separated hex groups right to left. Its result is
specified for any file content, the `strtoul` of the C standard included, and proved to be exactly
the printed CPU set for every mask of up to 128 groups and every width of the first group, and to be
what the characters of the text say, digit by digit. The mask text has no trailing newline, as the
comment at src/migration.c:51-53 describes it. An empty file makes `read_mapping` return 0 with no
set; its callers then find no CPU, because the set size is 0 as well.

**Random linked list** (`CaSpinMeng`). The lines of a cache become list nodes that are threaded by
`next` in random order. Proved: acyclic, ends in NULL, meets every line once; the sums that the
check and the measurement compute, and the exact sequence of pads each traversal reads. `swap` is
taken to exchange two array slots.

**Non-preemptive sections** (`NpSection`). `enter_np` and `exit_np` as interleaved atomic steps of a
thread and of the kernel, and the code itself with any script of kernel steps between two of its
own: the contracts give the trace it adds, and the outermost exit yields exactly if a request stands
at its test. Assumed of the kernel: it raises `preempt` only when it sees `flag > 0` and clears it
only when the thread enters the scheduler. The control page is mapped.

**Partition monitor** (`PartitionMonitor`), **execution-time files** (`Decimals`, `FieldText`,
`ExecTimes`) and **timespec arithmetic** (`Timespec`). The event trace of `check_cp_setting`, the
two-pass reader of `rtspin` for any file, down to the decimal numbers that `fscanf` takes, and the
elapsed time of `uncache`.

Code that works in place is modelled by methods over arrays and objects, each proved against a
specification function or predicate; the lemmas are about those. A large method of the original is
sometimes split where a loop ends.

`dafny verify dfyconfig.toml` checks the whole project.

## Model

| member | source | states |
|---|---|---|
| RandRange.RandSource.Rand | bin/ca_spin.c:111 | a call of rand() takes the next number of an arbitrary stream |
| RandRange.RandRange | bin/ca_spin.c:105-117 | with d = RAND_MAX / limit, numbers in [d limit, d (limit + 1)) are skipped and the next one, in [d r, d (r + 1)), gives min + r; it terminates on every stream with such a number, and for a safe limit the result is in [min, max) |
| RandRange.DrawIff | bin/ca_spin.c:107-112 | that is what a draw is, in both directions |
| RandRange.InRangeIffSafeLimit | bin/ca_spin.c:106-112 | rejecting only `retval == limit` keeps all results in range if and only if RAND_MAX % limit < RAND_MAX / limit |
| RandRange.UnsafeDraw | bin/ca_spin.c:107-112 | for every other limit some rand() value is scaled to limit + 1 and is not rejected |
| RandRange.SmallLimitIsSafe | bin/ca_spin.c:106-112 | limits with limit * limit <= RAND_MAX are safe |
| RandRange.UniformPreimage | bin/ca_spin.c:107-111 | each result below limit comes from exactly RAND_MAX / limit values of rand() |
| RandRange.PreimageIsRun | bin/ca_spin.c:107-111 | these are the values in [d r, d (r + 1)) for d = RAND_MAX / limit |
| RandRange.InRangeIffSafeArena | bin/ca_spin.c:105-134 | randrange keeps its results in range for each of the limits i < n of the loop if and only if all of them are safe |
| RandRange.GlibcArenaLimit | bin/ca_spin.c:105-139 | with RAND_MAX = 2147483647 all limits below n are safe if and only if n is at most 46409 |
| ShuffleSafety.AllRunsGoodIffSafeArena | bin/ca_spin.c:105-139 | for exactly the numbers of lines whose limits are all safe there is no division by zero and every complete run of the swap loop, on any stream of rand() values, indexes the n lines only and leaves one single cycle |
| ShuffleSafety.UnsafeRun | bin/ca_spin.c:105-139 | for each unsafe limit below n there is a fair stream whose run draws a line outside of the arena or does not leave a single cycle |
| ShuffleSafety.SafeDrawsAreValid | bin/ca_spin.c:133-134 | with safe limits only, every draw a stream yields for counter i is in [0, i) |
| ShuffleSafety.GlibcRunGoesWrong | bin/ca_spin.c:105-139 | with glibc's RAND_MAX such a run exists for a working set of 1451 KB, 46432 lines |
| RandRange.NextDraw | bin/ca_spin.c:133-134 | the draw for counter i is in [0, i) and continues the list of draws taken from the stream |
| Shuffle.SwapsInsert | bin/ca_spin.c:133-139 | a run of the swap loop is a run over one slot less with the last index put in front of the index drawn first |
| Shuffle.ShuffledIsSingleCycle | bin/ca_spin.c:126-139 | for every number of lines and every sequence of draws the loop ends with one single cycle through all lines |
| Shuffle.OnePrefixIndexPerCycle | bin/ca_spin.c:133-139 | loop invariant: with slots [0, m) still to come, every cycle holds exactly one index of [0, m) |
| Shuffle.SwapJoinsTwoCycles | bin/ca_spin.c:133-139 | the two slots of every swap are on different cycles before it and on one cycle after it |
| Shuffle.ShuffledInjective | bin/ca_spin.c:133-139 | different sequences of draws leave different arrays |
| Shuffle.ShuffledSurjective | bin/ca_spin.c:133-139 | every single cycle on n lines is left by some sequence of draws |
| Shuffle.SingleCycleIffShuffled | bin/ca_spin.c:126-139 | the arrays the loop can leave are exactly the single cycles |
| Shuffle.SequentialIsSingleCycle | bin/ca_spin.c:142-148 | sequential mode forms one single cycle too |
| Cycles.SingleCycleIffAllReachAll | bin/ca_spin.c:164-169 | one tour of all lines is the same as every line being reachable from every line |
| Cycles.FullWalk | bin/ca_spin.c:157-172 | on a single cycle a walk of as many steps as lines leaves from every line exactly once, from any start, and returns to its start |
| CaSpin.LineGeometry | bin/ca_spin.c:46-54 | a line is 8 ints of 4 bytes, 32 bytes in all, and 32 lines make up 1 KB |
| CaSpin.InitArena | bin/ca_spin.c:119-150 | in both modes line[0] forms one single cycle and all ints of a line are equal; shuffle mode leaves the array that belongs to the draws taken from the stream, sequential mode (i + 1) mod n |
| CaSpin.SwapLoop | bin/ca_spin.c:133-139 | the loop exchanges whole lines, for counters n - 1 down to 1, with lines drawn below them |
| CaSpin.FillLine | bin/ca_spin.c:127-130 | the inner loop sets all eight ints of one line and leaves the other lines alone |
| CaSpin.FillWithOwnIndex | bin/ca_spin.c:126-131 | every line holds its own index in all its ints |
| CaSpin.ExchangeLines | bin/ca_spin.c:136-138 | two lines change places, nothing else changes |
| CaSpin.FullWalkSum | bin/ca_spin.c:160-171 | every partial sum of a walk is in [0, n(n-1)/2] and the full sum is n(n-1)/2, from any start |
| CaSpin.SumFitsIffAtMost64KLines | bin/ca_spin.c:158-168 | the int accumulator never overflows if and only if there are at most 65536 lines |
| CaSpin.Arena.ReadInt | bin/ca_spin.c:167 | an int of a line is read and the line is added to the log of reads |
| CaSpin.Arena.WriteInt | bin/ca_spinwrite.c:169-170 | an int of a line is overwritten, nothing else, and the line is added to the log of writes |
| CaSpin.CachelineWalk | bin/ca_spin.c:157-172 | the lines read are those of the cycle from `mem` on, in its order, each of them once; the sum is n(n-1)/2 |
| CaSpin.LoopOnce | bin/ca_spin.c:191-199 | one loop reads the lines of the cycle from line 0 on, each of them once |
| CaThrash.CachelineStart | bin/ca_thrash.c:138-140 | the start is one of the lines of wss KB, line 0 without shuffling, else the drawn one; a draw is made in both modes |
| CaThrash.LoopOnce | bin/ca_thrash.c:159-167 | the lines read are those of the cycle from the drawn start on; the sum is n(n-1)/2 |
| CaThrash.WalksReadEquallyOften | bin/ca_spin_backup.c:265-271 | full walks on a single cycle, whatever their starts, pass every line equally often |
| CaThrash.LoopMany | bin/ca_spin_backup.c:265-271 | the reads of any number of walks are the walks along the cycle from the starts drawn one after the other, every line as often as there are walks |
| CaThrash.InitializeAndLoop | bin/ca_spin_backup.c:254-298 | from any initial memory and in both modes: the cycle is the one that belongs to the draws, the reads are full walks on it from the starts drawn next, and every line is read equally often |
| CaThrash.ThrashArenaIsSafe | bin/ca_thrash.c:36-157 | with glibc the fixed arena of 1024 KB, 32768 lines, is safe for the shuffle, for the start lines and for the sum |
| CaSpinWrite.CachelineWalk | bin/ca_spinwrite.c:157-178 | a complete writing walk changes exactly line[1], to k + 1 in line k; it reads and writes the lines in the order of the cycle from `mem` on, each once, and returns n(n-1)/2 |
| CaSpinWrite.DirtyAndFollow | bin/ca_spinwrite.c:169-173 | one iteration writes line[1] of the line and reads its line[0] |
| CaSpinWrite.DirtiedKeepsCycle | bin/ca_spinwrite.c:167-174 | the walk leaves every line[0], hence the cycle, alone, and a second walk writes the same values |
| CaSpinWrite.LoopOnce | bin/ca_spinwrite.c:197-205 | one loop dirties the lines of the cycle from line 0 on, each once |
| CaSpinWrite.LoopMany | bin/ca_spinwrite.c:277-283 | after any number of loops the cycle is intact, and the lines have been read and written in that many turns of it, every line once per turn |
| CaSpinV2.ExchangeInts | bin/ca_spin_v2.c:143-145 | one int of two lines is exchanged, all other ints stay |
| CaSpinV2.SwapLoop | bin/ca_spin_v2.c:141-154 | the loop shuffles one column of the first m lines and leaves the other columns alone |
| CaSpinV2.InitShuffled | bin/ca_spin_v2.c:129-155 | the two shuffles do not interfere: line[0] is shuffled over all lines, line[1] over the hot lines with the draws that follow, other ints keep the line's index |
| CaSpinV2.HotLines | bin/ca_spin_v2.c:127 | the hot lines are the whole lines in hot_wss_B bytes, 32 per KB |
| CaSpinV2.InitArena | bin/ca_spin_v2.c:123-166 | line[0] is one cycle over all lines; line[1] is one cycle over the hot lines in shuffle mode and (i + 1) mod n on them in sequential mode |
| CaSpinV2.SwapsOfIdentityPrefix | bin/ca_spin_v2.c:147-154 | shuffling the hot prefix yields a cycle on the prefix and nothing outside of it |
| CaSpinV2.CachelineWalk | bin/ca_spin_v2.c:173-189 | the full walk reads the lines of the line[0] cycle from `mem` on, each once, and returns exactly -n(n-1)/2 |
| CaSpinV2.CachelineWalkHot | bin/ca_spin_v2.c:191-209 | from line 0 the hot walk reads along line[1], lines 0 to h-1 once each in both modes; the sum is h(h-1)/2 on a cycle and h(h+1)/2 where the last step leaves the hot lines |
| CaSpinV2.Job | bin/ca_spin_v2.c:309-345 | the reads of a job are `loops` turns of the line[0] cycle and then `hotLoops` turns of the line[1] trail from line 0; so each hot line is read once per full and once per hot loop, each other line once per full loop |
| CaSpinV2.FullLoops | bin/ca_spin_v2.c:320-326 | the first loop reads `loops` turns of the cycle |
| CaSpinV2.HotLoops | bin/ca_spin_v2.c:327-334 | all hot walks read the same trail through the hot lines |
| KernelFile.Descriptor.Read | src/kernel_iface.c:50 | read delivers between 1 and count bytes unless at the end or in error, into the given place only |
| KernelFile.ReadMore | src/kernel_iface.c:50-51 | each read appends to the prefix collected so far and keeps the rest of the buffer |
| KernelFile.ReadFile | src/kernel_iface.c:40-57 | however the reads are cut short, an error-free read_file returns min(maxlen, length), stores that prefix and leaves the rest of the buffer untouched |
| Migration.AddChunk | src/migration.c:75-80 | the lowest-bit loop terminates and adds exactly the set bits of the chunk shifted by 32 i, up to the capacity of the set |
| Migration.LowestBitSplit | src/migration.c:76-79 | finding and clearing the lowest bit removes exactly one CPU from a chunk |
| Migration.ParseChunks | src/migration.c:66-83 | the do-while loop adds the CPUs of all chunks, for any text |
| Migration.ReadMapping | src/migration.c:30-89 | more than 4096 CPUs or a failed read give -1 and no set; an empty file 0 and no set; otherwise the set is the one its text denotes, with the size computed from the text length; it depends on the content only |
| Migration.ChunksAreNumbers | src/migration.c:67-83 | on a mask the clamp and the exit test visit each group once, from right to left |
| Migration.ParseGroupAt | src/migration.c:74 | on a group strtoul stops at the comma or the terminator and returns the group's value |
| Migration.NBitsOfMask | src/migration.c:59-63 | nbits is 32 per full group and 4 per digit of the first one, and the allocated set holds that many |
| Migration.LengthSplit | src/migration.c:60-63 | nbits of a text of any length: 32 per 9 characters and 4 for each one more |
| Migration.AllocSize | src/migration.c:63 | the fewest whole 64-bit words that hold the bits, in bytes |
| Migration.KeptIff | src/migration.c:78 | the CPUs a set of sz bytes takes in are those below 8 sz |
| Migration.NoCpuDropped | src/migration.c:60-78 | every bit found in a mask is below nbits, so CPU_SET_S drops none |
| Migration.MaskFitsBuffer | src/migration.c:35-37 | a mask of 4096 CPUs fits the buffer with its terminator |
| Migration.MappedCpusOfMask | src/migration.c:51-83 | any mask of up to 128 groups, digits in either case, is read as exactly the CPUs it denotes |
| Migration.ParseUndoesPrint | src/migration.c:51-83 | for any CPU set, any number of groups and any width of the first group that fit, reading the printed mask returns the set |
| MappedText.MappedDigit | src/migration.c:51-83 | in a mask text of up to 1151 characters, 128 groups, CPU x is mapped if and only if digit number x / 4 from the right, with x / 32 commas to the right of it, has bit x mod 4, the digits being 0123456789abcdef or 0123456789ABCDEF |
| MappedText.MappedCpusIff | src/migration.c:66-83 | for any content: CPU x is mapped if and only if it fits the allocated set and number i from the right has bit x - 32 i, for some i |
| MappedText.ChunksRead | src/migration.c:67-83 | on a text of any length the loop reads one number per 9 characters and one more, each 9 further to the left, the last one at the start if less than 8 are left |
| MappedText.TextOfContent | src/migration.c:35-37 | the text is the content up to its first NUL, cut after 1152 characters |
| StrToUl.ReadsNumeral | src/migration.c:74 | strtoul in base 16 on spaces, a sign, a mark 0x, digits and other text gives the value of the digits, clipped to 64 bits and negated by a minus sign, and 0 without digits |
| StrToUl.EveryTextSplits | src/migration.c:74 | every text is of that form |
| MaskText.HexDigits | src/migration.c:74 | the digits with value d are character d of 0123456789abcdef and of 0123456789ABCDEF |
| MaskText.DigitsOnly | src/migration.c:74 | there are no other digits |
| MaskText.HexValueSnoc | src/migration.c:74 | one more digit multiplies the value by 16 and adds the digit |
| MaskText.GroupParse | src/migration.c:74 | strtoul on a group followed by a comma or the end is exact |
| MaskText.DenotesBound | src/migration.c:51-53 | a mask has a digit for each of its CPUs |
| MaskText.MaskGroupsDenote | src/migration.c:51-53 | the printed groups denote the printed CPU set |
| Migration.CpuSetToUll | src/migration.c:91-103 | the word has exactly the bits of the set's CPUs below 64 |
| Migration.DomainToCpus | src/migration.c:105-125 | fails with the mask untouched for more than 64 CPUs or an unknown count, else yields the word of the mapped set |
| Migration.WordRoundTrip | src/migration.c:105-125 | for any 64-bit mask, domain_to_cpus on a printed form of it returns it |
| Migration.DomainToFirstCpu | src/migration.c:149-172 | the lowest mapped CPU below the online count, or -1 if there is none or the mapping cannot be read |
| Bits.BitIsQuotient | src/migration.c:76-79 | bit k of v is the parity of v / 2^k |
| Bits.LowestBitIsLowest | src/migration.c:76 | ffsl finds a set bit, and no lower one is set |
| Bits.BitOfClearBit | src/migration.c:79 | clearing bit j clears that bit only |
| Bits.BitOfSetBit | src/migration.c:98 | setting bit i sets that bit only |
| CaSpinMeng.RandomIndices | bin/ca_spin_meng.c:144-154 | the index array is the identity with every slot exchanged in turn with slot rand() % n |
| CaSpinMeng.OwnIndices | bin/ca_spin_meng.c:144-146 | the index array starts as 0, ..., n - 1 |
| CaSpinMeng.ExchangeSlot | bin/ca_spin_meng.c:149-154 | slot i changes places with slot rand() % n |
| CaSpinMeng.ExchangesEnumerate | bin/ca_spin_meng.c:145-154 | for every sequence of draws it lists each index exactly once |
| CaSpinMeng.RandomFullEachLinePrepare | bin/ca_spin_meng.c:123-167 | the list starts at a fresh dummy head, links all lines in the order of the index array, and ends in NULL |
| CaSpinMeng.Link | bin/ca_spin_meng.c:156-163 | the loop links the stops in order; the guard against indices beyond the array is never needed |
| CaSpinMeng.ChainMeetsEveryLineOnce | bin/ca_spin_meng.c:110-116 | following `next` from the head meets each line after exactly one number of steps, and the list is over after n steps |
| CaSpinMeng.SanityCheckAccessPattern | bin/ca_spin_meng.c:94-121 | labels every pad of line k with k, counts n lines, and both sums are n(n-1)/2 |
| CaSpinMeng.LabelLines | bin/ca_spin_meng.c:100-106 | all pads of line k hold k, and sum1 is n(n-1)/2 |
| CaSpinMeng.SumList | bin/ca_spin_meng.c:108-116 | the list walk reads pad 0 of the lines in list order, counts n lines and adds their labels up to n(n-1)/2 |
| CaSpinMeng.PadReadsAt | bin/ca_spin_meng.c:84-89 | read number w t + i of a traversal that reads w pads per line is pad i of line t |
| CaSpinMeng.WarmCache | bin/ca_spin_meng.c:77-92 | exactly the seven pads of each line are read, line after line in list order, and 0 is returned |
| CaSpinMeng.MeasureEachLineAccessPattern | bin/ca_spin_meng.c:178-213 | with at least one iteration the result is n(n-1)/2, with none it is 0; each iteration reads pad 0 of the lines in list order |
| NpSection.FlagIsDepth | src/kernel_iface.c:117-136 | in every interleaving flag is the nesting depth of the calls, unmatched exits ignored, up to an exit call that has not decremented yet |
| NpSection.PreemptIsPending | src/kernel_iface.c:133-141 | preempt is set exactly while a request has not been followed by an entry into the scheduler; outside of all sections it is clear |
| NpSection.YieldOnlyWhenClosed | src/kernel_iface.c:130-134 | sched_yield is called only with all sections closed, flag 0, and after some request |
| NpSection.OpenExitClosedOutermost | src/kernel_iface.c:128-134 | the barrier, the test and the yield belong to the very exit call that took flag from 1 to 0 |
| NpSection.RequestsAreServed | src/kernel_iface.c:126-136 | when an outermost exit_np returns, every preemption requested before has been served by an entry into the scheduler |
| NpSection.ExitYieldsOnRequest | src/kernel_iface.c:133-134 | if the kernel has not scheduled meanwhile, exit_np itself yields |
| NpSection.Thread.EnterNp | src/kernel_iface.c:117-123 | flag and depth grow by one |
| NpSection.Thread.ExitNp | src/kernel_iface.c:126-136 | with any script of kernel steps in between the code adds exactly the trace of its branches, which is a run of the state machine; flag is the new depth; no request is left when it is 0 |
| NpSection.ExitYieldsIff | src/kernel_iface.c:126-136 | the last event of an exit from flag 1 is the yield if and only if a request stands when flag becomes 0 and the kernel does not schedule the thread before the test |
| NpSection.QuietExit | src/kernel_iface.c:126-136 | without kernel steps the exit is decrement, barrier, test, and the yield exactly if preempt was set |
| NpSection.Thread.CheckDelayedPreemption | src/kernel_iface.c:130-135 | adds the barrier, the test and, exactly if the test finds preempt set, the yield, with the kernel's scripted steps in between, and leaves flag alone |
| NpSection.Thread.RequestedToPreempt | src/kernel_iface.c:138-141 | true exactly if a request is pending |
| PartitionMonitor.CountBits | bin/ca_spin.c:201-212 | the count is the cardinality of the mask's bit set |
| PartitionMonitor.Monitor.CheckCpSetting | bin/ca_spin.c:220-255 | after each observation the flag is 1 exactly if it was bad, and the marks are those the observations call for |
| PartitionMonitor.Monitor.Job | bin/ca_spin.c:268-277 | a job resets the flag and appends the marks of its own observations |
| PartitionMonitor.MarksShape | bin/ca_spin.c:238-249 | the marks have the form (1 ... 1 2)* 1 ... 1 and end with 1 exactly while the partitions are wrong |
| PartitionMonitor.MarkCounts | bin/ca_spin.c:238-249 | one 1 per bad observation, one 2 per ended maximal run of bad observations |
| ExecTimes.Stream.GetC | bin/rtspin.c:40 | fgetc returns the next character, or EOF and raises the end-of-file indicator |
| ExecTimes.Stream.UngetC | bin/rtspin.c:49 | ungetc takes the last character back and clears the indicator; it ignores EOF |
| ExecTimes.SkipToNextLine | bin/rtspin.c:37-42 | stops behind the first newline and returns it, or EOF |
| ExecTimes.SkipComments | bin/rtspin.c:44-50 | skips all lines starting with #, and nothing else |
| ExecTimes.SplitLines | bin/rtspin.c:63-69 | every content is complete lines plus a last one without newline |
| ExecTimes.CountJobs | bin/rtspin.c:63-69 | pass one counts exactly the complete lines that are no comments, for any file |
| ExecTimes.DataLinesAppend | bin/rtspin.c:44-50 | the data lines of a file are those of its parts, in order |
| ExecTimes.DataLineIff | bin/rtspin.c:44-50 | a line is left out if and only if it begins with # |
| CType.SpaceCodes | bin/rtspin.c:86 | the spaces are the characters 32 and 9 to 13 |
| FieldText.FieldsOfSpaced | bin/rtspin.c:86 | fields with any spacing between, before and behind them are read as these fields |
| FieldText.EveryLineIsSpaced | bin/rtspin.c:86 | every line is its fields with some spacing |
| FieldText.FieldsAfter | bin/rtspin.c:83-86 | discarding c columns leaves the fields from number c on |
| FieldText.NumberOfField | bin/rtspin.c:89 | scanning a number sees nothing but the next field |
| Decimals.NumberTextIsLongest | bin/rtspin.c:89 | of any text fscanf takes the longest start that can become a decimal number by the grammar of strtod, and succeeds if and only if it is one |
| Decimals.DecimalIff | bin/rtspin.c:89 | the character-by-character scan accepts exactly the grammar: sign, digits with a point, exponent |
| Decimals.CanBecomeDecimalIff | bin/rtspin.c:89 | the scan gives up at the first character after which no continuation is a decimal number |
| Decimals.DecimalIsTaken | bin/rtspin.c:89 | a field that is a decimal number is taken as a whole |
| ExecTimes.SkipColumns | bin/rtspin.c:83-86 | in any file the fields before the column are discarded, column - 1 of them |
| ExecTimes.ReadRow | bin/rtspin.c:81-95 | in any file: comments, the columns before and the number are read and the line is finished; the end of file is noted if the line has no end |
| ExecTimes.RowIgnoresLineEnds | bin/rtspin.c:83-89 | in any file the number read is the field with that index of all that is left, across the ends of lines; without such a field or number the scan fails |
| ExecTimes.FillTimes | bin/rtspin.c:79-98 | on any file pass two stores the numbers row by row, ends as an invalid time at the first row without one, with the assertion failed if the file ends early, and otherwise with all slots filled |
| ExecTimes.FirstTimes | bin/rtspin.c:79-95 | as long as the data lines have a number in the column these are stored in order; the first line that has something else there ends the pass as an invalid time |
| ExecTimes.DoneIffAllHaveTimes | bin/rtspin.c:79-98 | if all data lines have the column, the pass is complete if and only if all have a number there, and ends as an invalid time otherwise |
| ExecTimes.GetExecTimes | bin/rtspin.c:52-100 | both passes together, on any file: as many slots as data lines, filled as pass two does; if every data line has a number in the column, slot k holds field column - 1 of data line k |
| Timespec.TimespecNormalize | bin/uncache.c:112-127 | both loops terminate; sec * 10^9 + nsec is kept; nsec ends in (0, 10^9] after carrying, in [0, 10^9) after borrowing, and is left alone in [0, 10^9] |
| Timespec.NormalizedUnique | bin/uncache.c:112-127 | there is exactly one such result |
| Timespec.NormalizedProperties | bin/uncache.c:114-126 | nsec is 10^9, which is no legal value, for exactly the positive whole numbers of seconds |
| Timespec.TimespecSub | bin/uncache.c:129-134 | the difference in nanoseconds, sec * 10^9 + nsec, is exact and nsec is in [0, 10^9] |
| Timespec.TimespecAdd | bin/uncache.c:136-141 | the sum in nanoseconds is exact and nsec is in [0, 10^9] |
| Timespec.ElapsedUs | bin/uncache.c:212 | the elapsed microseconds are the floor of the nanoseconds between start and end divided by 1000 |
| Timespec.ElapsedIsFloor | bin/uncache.c:143-149 | the conversion of any normalized difference is that floor |
| Timespec.ToUsIsFloorIff | bin/uncache.c:143-149 | the conversion alone is the floor if and only if nsec is non-negative or a whole number of microseconds, and one above it otherwise |
| Timespec.SubUndoesAdd | bin/uncache.c:129-141 | subtracting undoes adding, in value always and in representation for canonical times |

## Left out

- Machine widths: ints are unbounded here; the walk sums are shown to fit an int, chunks and masks are kept within 64 bits, the int64 range of the timespec functions and the width of the np flag are not modelled.
- CaSpin.InitArena: does not model arenas with an unsafe limit, on which ShuffleSafety.UnsafeRun shows the swap loop going wrong; `wss` is not negative.
- CaSpinV2.InitArena: does not model more hot lines than lines, on which the original writes beyond the arena.
- CaThrash.CachelineStart: `shuffle` is 0 or 1, as ca_spin_backup clamps it; ca_thrash does not clamp it. `wss` is at least 1, as randrange would divide by zero.
- NpSection.Thread.ExitNp: does not model a control page that is not mapped, nor lost updates between the bit fields of one word; increments and decrements are atomic.
- CaSpinMeng.RandomFullEachLinePrepare: the cache has at least one line, zeroed before the call as in the only caller; the guard that skips too large indices is not repeated, since it never holds.
- CaSpinMeng.MeasureEachLineAccessPattern: does not model the busy loop, which has no effect on the result.
- KernelFile.ReadFile: what a file yields is fixed in advance by a script of read lengths and errors; file descriptors are not modelled otherwise.
- Migration.DomainToFirstCpu: the number of online CPUs does not change between the two times it is asked for.
- ExecTimes.Stream.ScanNumber: reads the decimal numbers of strtod; hexadecimal numbers, infinities and NaNs, and the rounding to double, are not modelled.
- ExecTimes.GetExecTimes: does not model files that cannot be opened or rewound, or allocation failure.
- PartitionMonitor.Monitor.CheckCpSetting: does not model the CPU number, the clock, the printing, or a failing system call.
- cpu_to_domains: the same code as domain_to_cpus on another file.
- The other programs, system call wrappers, option parsing, migration calls, clocks, floating-point spin loops and scripts: no algorithmic content of their own.
- The locking protocols: implemented in the kernel, which is not part of this model.
- Cache behaviour, timing, alignment and memory allocation.
