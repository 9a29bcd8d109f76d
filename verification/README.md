# microblx in Dafny

This project models the parts of microblx that carry its hardest guarantees and proves what they are for. All state that
the sources change in place is kept in classes and arrays whose methods are proved against specification functions, and
the concurrent parts are transition systems about which every interleaving is covered.

| Part | Files |
|---|---|
| Shared-memory log: writers behind a spinlock, readers without one | `RingLayout`, `RingProtocol`, `RingShm` |
| Streaming MD5 against RFC 1321 | `Md5Spec`, `Md5Transform`, `Md5`, `Md5Vector` |
| Composition trees: breadth-first walk, two-phase configuration, node configurations, merge | `Composition`, `Configure`, `NodeConfig`, `Fqn`, `Merge` |
| Trigger chains, statistics and time values, and the trigger thread | `Timespec`, `Tstat`, `Chain`, `Ptrig` |
| Block lifecycle, teardown of a node, reference-counted configuration data | `Lifecycle`, `Teardown`, `RefCount` |
| Web server: glob matcher, socket queue, URL codec | `Glob`, `SockQueue`, `UrlCodec` |

`DivMod` holds facts about division by a variable, and `Common` what else several parts share.

Results a reader may not expect:

* Seeking to the oldest log message is right exactly under `Layout.SeekIsExact`: on its wrapping branch only if whole
  frames fill the data area. The size that the writer allocates leaves out the spinlock in front of the cursor, so frames
  never fill it, and with the shipped numbers a seek can leave the mapping (`ShippedSeekMisses`).
* `logc_has_data` can be misled by a reader that is 2^32 laps or more behind; `HasDataExact` says for any two cursors
  what is reported, and `NewDataIsNextMessage` which message such a reader is handed.
* The trigger counter wraps after 2^32 triggers, and the schedule then starts over (`DueRestarts`).
* After a stop is requested up to one more trigger begins (`StopIsPrompt`), but none after `ptrig_stop` returned early.
  The next start may still reconfigure the chains while the thread writes out their statistics (`ReportsDoOverlap`),
  and that is the only overlap (`OnlyReportsOverlap`).
* Assigning a datum to a configuration that holds the only reference to this very datum frees it before use
  (`LoseDatum`); `AssignIsSafe` shows that this is the only such case and that callers with a handle of their own are
  never in it.
* For blocks and connections, `system.merge(a, b, true)` and `system.merge(b, a, false)` answer alike for a key exactly
  if the first and the last entry of `b` for it agree (`MergeDual`); configurations have their own exact condition
  (`MergeConfigsDual`). Unique names are sufficient for all (`MergeLaws`).
* A merge looks at the first entry of a block only. If the parent has a key in a later entry of the block and not in the
  first, a weakly merged system wins over the parent (`SecondEntryLoses`); `WeakIsWeak` and `ParentFirst` say exactly when.
* Configurations are remembered under strings. If a launch succeeds, the highest level wins everywhere if and only if no
  two mentioned configurations share their string; otherwise one of each string is set (`ConfigureBlocks`).
  Names without `.` and `/` are enough (`PlainNamesAreDistinct`), a dot in a block name can make a launch skip a
  configuration (`DottedNamesSkipOne`), and two blocks can collide exactly if the string of one, with its dot, begins
  that of the other (`BlocksCollide`).
* `mg_url_encode` steps over a byte whose escape does not fit, and leaves what was in the buffer there before. A buffer
  gets a clean prefix of the encoding, whatever was in it, if and only if no escape meets its end
  (`TruncatesCleanly`).
* No wakeup of the socket queue is lost while the server runs (`NoLostWakeup`). When it stops, the listening thread may
  be left asleep on the full queue with nobody to wake it (`StopCanStick`), exactly if all the workers that are left
  are on their way out (`ProducerIsServed`, `StuckStays`). The final broadcast, which is sent without the mutex, misses
  a worker exactly if one is between its test and its wait (`BroadcastMisses`, `OneMaySleepOn`).

## Model

| member | source | states |
|---|---|---|
| RingLayout.OffBounds | libubx/rtlog.c:115-133 | Offsets of all messages are multiples of the frame size, and whole frames end inside the data area |
| RingLayout.AdvanceIsSuccessor | libubx/rtlog_client.c:203-216 | Advancing the cursor of message k gives the cursor of message k + 1, through every wrap of the offset and of the 32-bit wrap counter, for writer and reader |
| RingLayout.HasDataExact | libubx/rtlog_client.c:224-255 | What is reported for any two message numbers, including readers any number of laps behind or ahead |
| RingLayout.HasDataAgrees | libubx/rtlog_client.c:224-255 | The report agrees with unbounded indices if the reader is less than 2^32 laps behind, and otherwise if and only if the distance modulo 2^32 laps is an overrun too; ERROR never occurs then |
| RingLayout.VisibleBack | libubx/rtlog_client.c:224-255 | The message at the distance that the cursors show lies in the reader's slot, and is the reader's own if and only if less than N * 2^32 messages were missed |
| RingLayout.SeekFindsOldest | libubx/rtlog_client.c:77-117 | The seek lands on message max(0, W + C - N) if and only if the branch taken is exact: whole frames fill the data area, or the wrap counter did not just overflow |
| RingLayout.SeekKeepsDistance | libubx/rtlog_client.c:68-76 | From that position the reader is overrun by the C-th publish on a full ring, and by none of the C - 1 before |
| RingLayout.SeekIsSkewed | libubx/rtlog_client.c:88-95 | A seek that wraps and is not exact ends outside the data area, or at an offset that overlaps two slots |
| RingLayout.SkewStays | libubx/rtlog_client.c:203-216 | Advancing keeps it so until the cursor wraps |
| RingLayout.ShippedSizeHasSlack | libubx/rtlog.c:155-158 | The allocated size never divides into whole frames: one slot less than the depth, and frame - 8 bytes of slack |
| RingLayout.ShippedSeekMisses | libubx/internal/rtlog_common.h:44-49 | A concrete state with the shipped depth in which the seek should give message 0 and gives an offset near 2^32 |
| RingProtocol.StepKeepsInv | libubx/rtlog.c:135-146 | Every step of locked writers and of any number of lock-free readers keeps the invariant of slots, cursors and fetched bytes |
| RingProtocol.ReachableInv | libubx/rtlog.c:115-146 | The invariant holds in every state of every run |
| RingProtocol.StatusIsTrue | libubx/rtlog_client.c:224-255 | In every interleaving the status tells the true number of unread messages apart as none, fewer than N, or at least N, if and only if fewer than N are unread or the distance modulo 2^32 laps is an overrun too; in particular below 2^32 laps |
| RingProtocol.NewDataIsNextMessage | libubx/rtlog_client.c:267-283 | NEW_DATA at reader index R: the slot holds a published message complete and is not the one being copied into; it is the R-th message ever logged if and only if the reader is less than N * 2^32 messages behind |
| RingProtocol.ReadFrameIsMessage | libubx/rtlog_client.c:267-283 | A frame fetched byte by byte, with anything in between, is the message of its number until the writer starts message R + N |
| RingProtocol.ConsecutiveMessages | libubx/rtlog_client.c:203-283 | The t-th frame since the last reset or seek is that of message base + t, and if all its bytes were fetched in time, they are this message |
| RingProtocol.NothingLost | libubx/rtlog_client.c:203-283 | A reader that keeps up has read exactly the messages from its reset to its position: none lost, repeated or reordered |
| RingProtocol.SeekTrust | libubx/rtlog_client.c:77-127 | In every run a seek puts the reader on the message it should if and only if it is exact, and a reset always does |
| RingProtocol.SkewedReaderGetsNoMessage | libubx/rtlog_client.c:77-117 | After a seek that wraps and is not exact, no frame the reader is handed is a message's slot, until its cursor wraps or it seeks or resets |
| RingProtocol.LogIsAsked | libubx/rtlog.c:135-146 | In every run the history, with the message being copied, is what the writers were asked to log: nothing else, all of it, in the order in which they got the lock |
| RingProtocol.ReadIsAsked | libubx/rtlog_client.c:203-283 | From writer to reader: what a reader that keeps up has read is what the writers were asked to log, in order |
| RingProtocol.CanLog | libubx/rtlog.c:135-146 | Whatever happened before, with the lock free any message can be logged |
| RingProtocol.CanRead | libubx/rtlog_client.c:267-283 | A reader that lags by less than N can read the next message complete, also while another one is being copied |
| RingProtocol.MessageStays | libubx/rtlog.c:135-146 | A published message can be read from its slot in every continuation, until the writer starts the message N later |
| RingShm.LogShm.IncWoff | libubx/rtlog.c:115-133 | The update in place turns the cursor of message k into that of message k + 1, through every wrap |
| RingShm.LogShm.Log | libubx/rtlog.c:135-146 | Logging appends one message to the history and keeps the youngest N readable in the buffer |
| RingShm.LogClient.HasData | libubx/rtlog_client.c:224-255 | The report for any number of unread messages; below 2^32 laps it is decided by that number |
| RingShm.LogClient.CalcNextRoff | libubx/rtlog_client.c:203-216 | The next cursor is that of the next message number |
| RingShm.LogClient.ReadFrame | libubx/rtlog_client.c:267-283 | A consuming read hands out a message as logged, the next one if and only if less than N * 2^32 are unread, and moves on by one, or leaves the cursor alone |
| RingShm.LogClient.ResetRead | libubx/rtlog_client.c:124-127 | The reader continues behind the youngest message |
| RingShm.LogClient.SeekToOldest | libubx/rtlog_client.c:77-117 | All three branches of the seek, with its modular subtraction; exact where `SeekIsExact` |
| Md5Spec.FoldAppend | libubx/md5.c:103-109 | The hash of whole blocks and a rest is the hash of the rest from the chaining value of the blocks |
| Md5Spec.Rotation7 | libubx/md5.c:171-172 | A rotation by 7 moves the top 7 bits to the bottom and the others up; 15 more lemmas say so for the other amounts |
| Md5Spec.SumCounts | libubx/md5.c:171-172 | Addition of words counts on from 0 and wraps |
| Md5Spec.InitialBytes | libubx/md5.c:58-61 | The initial words are the bytes 01 23 45 67 and so on, low-order first |
| Md5Spec.PadShape | libubx/md5.c:129-154 | The padded message: the message, 0x80, at most 63 zeros, and the eight bytes of the length |
| Md5Vector.AbcDigest | libubx/md5.c:179-261 | All definitions together compute MD5 ("abc") as in the test suite of RFC 1321 |
| Md5Transform.F1IsF | libubx/md5.c:164-165 | The optimised F1 is F of section 3.4 of RFC 1321 |
| Md5Transform.F2IsG | libubx/md5.c:166-166 | F2, an F1 with its operands turned, is G of the RFC |
| Md5Transform.OpIsStep | libubx/md5.c:171-172 | The step macro, with the right round function, is an operation of the RFC |
| Md5Transform.Round1 | libubx/md5.c:179-204 | The 16 unrolled steps of the first round are operations 1 to 16 of the RFC: order of words, constants and shifts |
| Md5Transform.Transform | libubx/md5.c:179-261 | All 64 unrolled steps and the additions, in place, are one block of the RFC |
| Md5.ByteReversed | libubx/md5.c:39-49 | On hosts of either byte order the reversed bytes of a word are its little-endian bytes |
| Md5.ByteReverse | libubx/md5.c:39-49 | In place over any number of words, and no byte behind them |
| Md5.ByteReverseIfBig | std_blocks/webif/mongoose.c:2037-2049 | The web server's copy, which does nothing on little-endian hosts, meets the same contract |
| Md5.CountBits | libubx/md5.c:76-81 | Carry test and shift keep the two words at 8 times the bytes seen, modulo 2^64 |
| Md5.BytesBuffered | libubx/md5.c:83-83 | The low counter word alone tells how full the buffer is |
| Md5.PadFold | libubx/md5.c:126-156 | Hashing the padded rest with its length completes the hash of the padded message, with one or two last blocks |
| Md5.LengthIsRight | libubx/md5.c:152-154 | The last eight bytes are two words, the low one first, that make the length in bits modulo 2^64 |
| Md5.OutputBytes | libubx/md5.c:157-158 | The four words are given out low byte first, on hosts of either byte order |
| Md5.Md5Context.Init | libubx/md5.c:55-65 | The context of the empty message |
| Md5.Md5Context.Update | libubx/md5.c:71-114 | For every split: the hash covers the whole blocks of all pieces so far, the buffer the rest, the counter their length |
| Md5.Md5Context.Absorb | libubx/md5.c:85-113 | Partial, whole and remaining blocks of one piece |
| Md5.Md5Context.Final | libubx/md5.c:120-160 | The result is the RFC 1321 digest of all bytes fed in, and the context is cleared |
| Md5.Md5Parts | std_blocks/webif/mongoose.c:2233-2250 | A client of many updates, with the web server's copy of the code, gets the digest of the concatenation, however it is split |
| Md5.MgMd5 | std_blocks/webif/mongoose.c:2220-2250 | The text given out is the 32 hexadecimal digits of the digest of the concatenation |
| Md5.HexIsInjective | std_blocks/webif/mongoose.c:2220-2230 | The text determines the digest |
| Md5.HexAt | std_blocks/webif/mongoose.c:2220-2230 | Each byte gives two digits, the high half first |
| Md5.DigitIs | std_blocks/webif/mongoose.c:2223-2223 | Digits are 0 to 9 and a to f |
| Md5.Md5 | libubx/md5.c:267-275 | The one-shot function gives the digest of its input |
| Timespec.NormalIsUnique | libubx/ubx_time.c:162-186 | An amount of time has one normal form only |
| Timespec.CmpIsOrder | libubx/ubx_time.c:143-155 | On normal forms the comparison of fields is the order of the amounts |
| Timespec.Timespec.Norm | libubx/ubx_time.c:162-186 | Normalising keeps the amount and yields its one normal form, absent overflow |
| Timespec.TsSub | libubx/ubx_time.c:195-202 | The difference in normal form, also when the result replaces an operand |
| Timespec.TsAdd | libubx/ubx_time.c:211-218 | The sum in normal form, also when the result replaces an operand |
| Timespec.TsDiv | libubx/ubx_time.c:227-234 | The truncated quotient in normal form |
| Timespec.QuotTruncates | libubx/ubx_time.c:227-234 | Division truncates: the remainder is smaller than the divisor and has the sign of the dividend |
| Timespec.AddAfterSub | libubx/ubx_time.c:195-218 | Adding back what was subtracted recovers the normalised first operand |
| Tstat.Summarises | libubx/trig_utils.c:51-67 | Minimum and maximum are the true extrema of all durations, total and count are exact, all in normal form |
| Tstat.AverageBetweenExtrema | libubx/trig_utils.c:88-105 | min * cnt <= total <= max * cnt, and the average lies between the extrema in the order of the comparison |
| Tstat.TstatBuf.Update | libubx/trig_utils.c:51-67 | The update in place, total added to itself, accounts for exactly one more duration |
| Tstat.TstatBuf.Average | libubx/trig_utils.c:88-105 | The logged average exists if there are samples, and lies between the extrema |
| Chain.ChainBuf.constructor | libubx/trig_utils.c:111-143 | Fresh statistics and counter, and both fields of every triggee default to 1 |
| Chain.ChainBuf.TrigSingle | libubx/trig_utils.c:189-201 | Steps the block up to num_steps times, up to the first failure |
| Chain.ChainBuf.TrigPerBlock | libubx/trig_utils.c:209-245 | The steps of one trigger and every clock reading, sample by sample |
| Chain.ChainBuf.TrigGlobal | libubx/trig_utils.c:252-283 | The steps of one trigger between two clock readings |
| Chain.ChainBuf.TrigDisabled | libubx/trig_utils.c:290-308 | The steps of one trigger and no measurement |
| Chain.ChainBuf.ChainTrigger | libubx/trig_utils.c:310-337 | The whole effect of a trigger in every mode; the result reports a failure if and only if a step failed |
| Chain.SingleCounts | libubx/trig_utils.c:189-201 | A triggee is stepped as often as configured or its last attempt failed, and nobody else is stepped |
| Chain.FailureStopsNoOther | libubx/trig_utils.c:290-308 | A failing triggee never keeps a due one from being stepped; one that is not due is left alone |
| Chain.ModesAgree | libubx/trig_utils.c:310-337 | From a common state one trigger makes the same step attempts, in the same order, in all three statistics modes |
| Chain.ModesAlwaysAgree | libubx/trig_utils.c:310-337 | So do n triggers, for every n, although the statistics differ in between |
| Chain.DueIsCeil | libubx/trig_utils.c:298-300 | Up to 2^32 triggers, a triggee is due at ceil(n / every) of n |
| Chain.DueRestarts | libubx/trig_utils.c:335-336 | Then the 32-bit counter starts over, and the schedule with it |
| Chain.ScheduleIsExact | libubx/trig_utils.c:209-337 | After n triggers triggee i was stepped max(0, num_steps) * ceil(n / every) times, and sampled ceil(n / every) - ceil(min(n, skip) / every) times |
| Chain.GlobalCount | libubx/trig_utils.c:209-283 | In both modes that measure, each trigger after the skipped ones is one sample of the whole chain |
| Chain.GlobalTime | libubx/trig_utils.c:209-283 | A measured trigger adds to the chain's total exactly the time from its first clock reading to its last |
| Chain.MeasuredTotal | libubx/trig_utils.c:228-236 | A measured triggee adds exactly the time between the readings before and after its steps |
| Chain.BlocksWithinChain | libubx/trig_utils.c:209-245 | On a monotone clock a measured trigger adds no more time to its blocks than to the chain |
| Ptrig.StepKeepsInv | std_blocks/trig/ptrig.c:144-199 | Every step of either thread keeps mutual exclusion and what the reported thread state implies |
| Ptrig.EarlyStopIsFinal | std_blocks/trig/ptrig.c:448-463 | When a stop returns early no trigger is in progress, and none begins in any run without another start |
| Ptrig.AutostopIsExact | std_blocks/trig/ptrig.c:178-191 | With autostop k > 0 the thread requests its own stop exactly once, right after its k-th trigger, and else never |
| Ptrig.StopIsPrompt | std_blocks/trig/ptrig.c:438-445 | After a stop request by either thread at most one more trigger begins before the next start |
| Ptrig.StopsAreCalm | std_blocks/trig/ptrig.c:178-191 | Both an early return of stop and the stop that autostop requests leave the thread away from triggers |
| Ptrig.CalmLasts | std_blocks/trig/ptrig.c:144-199 | From then on no trigger is in progress and none begins until the next start takes effect |
| Ptrig.OnlyReportsOverlap | std_blocks/trig/ptrig.c:416-436 | So that start reconfigures the chains with no trigger in progress; the one thing the thread may do with them then is to write out their statistics |
| Ptrig.ReportsDoOverlap | std_blocks/trig/ptrig.c:148-153 | And that it can do, in the first start |
| Ptrig.StartActivates | std_blocks/trig/ptrig.c:416-436 | A start that goes through requests triggers |
| Ptrig.StopDeactivates | std_blocks/trig/ptrig.c:438-452 | A stop withdraws the request and then polls |
| Ptrig.PollsGiveUp | std_blocks/trig/ptrig.c:454-463 | It returns at the first poll that finds the thread inactive, and after 21 that do not |
| Ptrig.Requests | std_blocks/trig/ptrig.c:416-463 | No other step of the control thread changes what is requested, and none changes what the thread does or reports |
| Ptrig.TriggersGoOn | std_blocks/trig/ptrig.c:144-199 | While a start is in effect the thread, left to itself, begins another trigger if and only if it is not on its way to stop itself |
| Ptrig.StopIsServed | std_blocks/trig/ptrig.c:148-160 | While a stop is in effect the thread, left to itself, reports itself inactive |
| Composition.BreadthFirst | lua/blockdiagram.lua:131-150 | The queue walk ends, visits every system exactly once, and in non-decreasing depth |
| Composition.OrderIsTree | lua/blockdiagram.lua:131-150 | The walk meets exactly the systems that a path of subsystem names leads to |
| Composition.OrderIsOnce | lua/blockdiagram.lua:131-150 | No path is met twice |
| Configure.ExactApply | lua/blockdiagram.lua:741-767 | Setting an item whose string is not configured yet, to the value first given to it, keeps one exact call for each configured string |
| Configure.Launch.ApplyConfig | lua/blockdiagram.lua:776-796 | First pass over one entry: remembers the strings of what does not exist, skips what is configured, sets the rest |
| Configure.Launch.ReapplyConfig | lua/blockdiagram.lua:809-837 | Second pass over one entry: only strings that were remembered, whose items must exist by now |
| Configure.BothPasses | lua/blockdiagram.lua:843-914 | Both passes over a list of settings end early if and only if some setting stops them, and otherwise set one item for each string, once, to its first value, whether it exists before initialisation or only after |
| Configure.StopsAreBlocks | lua/blockdiagram.lua:776-837 | With distinct strings, what stops the passes is a mentioned item that never exists, or one whose highest value is unknown |
| Configure.FirstIsRootMost | lua/blockdiagram.lua:83-150 | All systems that mention a configuration lie on the path to its block, so the first setting met is that of the root-most one, whatever the order of siblings |
| Configure.PassesDecide | lua/blockdiagram.lua:843-914 | The launch does not abort if and only if all entries resolve and no setting stops it, with distinct strings if and only if the composition is launchable; then the highest level wins everywhere if and only if the strings are distinct |
| Configure.Launch.ConfigureBlocks | lua/blockdiagram.lua:843-914 | For each mentioned string exactly one configuration is set, once, to the value of the root-most system mentioning it; each mentioned configuration is set if and only if no two share their string; the launch succeeds if and only if every entry leads to a block and no setting met on the walk stops it, which with distinct strings depends on the highest systems only |
| Configure.AllSetIfDistinct | lua/blockdiagram.lua:786-792 | With one call for each string, every configuration is set if and only if no two mentioned ones share their string |
| Configure.PlainNamesAreDistinct | lua/blockdiagram.lua:779-779 | Names of systems and blocks without separators are enough for that |
| Configure.DottedNamesSkipOne | lua/blockdiagram.lua:786-788 | Two passes over two blocks, one with a dot in its name, that set one of two mentioned configurations only |
| NodeConfig.BuildTab | lua/blockdiagram.lua:685-706 | A name is in the table if and only if some system defines it, with the value of the first |
| NodeConfig.BuildNodecfgTab | lua/blockdiagram.lua:685-706 | The value of every name comes from a system of least depth among all that define it |
| NodeConfig.LaunchConfigs | lua/blockdiagram.lua:685-914 | Both together, on the tree alone: each value set is the root-most one if that is plain, and else what a system of least depth among all that define the name gives it |
| NodeConfig.ResolvedInTree | lua/blockdiagram.lua:741-767 | A value means itself, and a reference what a system of least depth defines under the name; it is unknown if and only if no system defines it |
| Configure.BlocktabGet | lua/blockdiagram.lua:83-100 | Following the names of subsystems finds a block if and only if the last system on the way has one of the last name |
| Fqn.BlocksCollide | lua/blockdiagram.lua:779-779 | Some configurations of two blocks share their string if and only if the string of one block, with its dot, begins that of the other |
| Fqn.CfgFqnInjective | lua/blockdiagram.lua:373-388 | The strings tell all configurations apart if block and system names hold no separator |
| Fqn.DottedNamesCollide | lua/blockdiagram.lua:811-811 | Two configurations with one key string |
| Merge.MergeLookup | lua/blockdiagram.lua:958-973 | Merging lists is a biased union: whose entry answers, for either setting of override |
| Merge.MergeDual | lua/blockdiagram.lua:958-973 | For blocks, and likewise connections, overriding and weak merge are mirror images for a key if and only if its first and last entry agree |
| Merge.MergeAgain | lua/blockdiagram.lua:953-1054 | Repeating a merge of lists changes no lookup |
| Merge.MergeConfigsLookup | lua/blockdiagram.lua:975-1001 | The first entry of a block, into which others are merged, answers like a biased union, key by key |
| Merge.MergeConfigsValue | lua/blockdiagram.lua:975-1001 | The value that a launch takes, the first over all entries of a block: after overriding the last of the merged list and then the first of the target, after a weak merge the first entry's, then the merged list's, then the others' |
| Merge.WeakIsWeak | lua/blockdiagram.lua:975-1001 | A weak merge is a union biased to the target if and only if the target's first entry of the block has the key, or the two sides do not differ |
| Merge.MergeConfigsDual | lua/blockdiagram.lua:975-1001 | When overriding and weak merge are mirror images for a key of a block |
| Merge.MergeConfigsAgain | lua/blockdiagram.lua:975-1001 | Repeating a merge changes no value, whatever the lists |
| Merge.SecondEntryLoses | lua/blockdiagram.lua:976-997 | Two entries for a block in the parent and a weakly merged one that wins |
| Merge.MergeLaws | lua/blockdiagram.lua:953-1054 | On systems with unique names: names stay unique, the two merges give the same blocks, connections, values and tables, a repeated merge changes none |
| Merge.ImportsKept | lua/blockdiagram.lua:1047-1047 | Every import of both systems is kept, in order, the target's first |
| Merge.UnnamedInOrder | lua/blockdiagram.lua:476-481 | Blocks of unnamed subsystems resolve to the parent first and then in list order; values of configurations to the parent's first entry for the block, then in list order, then to the parent's other entries |
| Merge.ParentFirst | lua/blockdiagram.lua:476-481 | The parent's values come first if and only if its first entry for the block has the key, or the two sides do not differ |
| Merge.UnnamedTables | lua/blockdiagram.lua:476-481 | Connections, node configurations and named subsystems resolve to the parent first and then in list order |
| Merge.SystemBuf.MergeConfigEntry | lua/blockdiagram.lua:975-1001 | The loop over configurations, in place |
| Merge.SystemBuf.Merge | lua/blockdiagram.lua:953-1054 | The six tables after a merge in place |
| Merge.SystemBuf.MergeUnnamedSubsystems | lua/blockdiagram.lua:476-481 | The constructor's weak merges one after the other |
| Lifecycle.PossibleIffPrefix | libubx/ubx.c:2038-2253 | The possible sequences of successful hook calls are exactly the prefixes of (init (start step* stop)* cleanup)* |
| Lifecycle.Block.BlockInit | libubx/ubx.c:2038-2083 | Succeeds exactly in PREINIT with checks and hook passing; otherwise nothing changes |
| Lifecycle.Block.BlockStart | libubx/ubx.c:2093-2134 | Succeeds exactly in INACTIVE with checks and hook passing; a failed start is taken back |
| Lifecycle.Block.BlockStop | libubx/ubx.c:2144-2173 | Succeeds exactly in ACTIVE |
| Lifecycle.Block.BlockCleanup | libubx/ubx.c:2183-2212 | Succeeds exactly in INACTIVE |
| Lifecycle.Block.CblockStep | libubx/ubx.c:2221-2253 | Succeeds exactly for active computation blocks, and counts the steps of those with a hook |
| Teardown.UbxNode.BlockRm | libubx/ubx.c:1151-1182 | Removes exactly the named instance, if it is in PREINIT |
| Teardown.UbxNode.Clear | libubx/ubx.c:312-344 | From any state: one stop for each active block, then one cleanup for each block that was not in PREINIT, each block's own calls accordingly, and what remains are the prototypes in order, all in PREINIT |
| Teardown.ProtosAreAll | libubx/ubx.c:336-343 | Exactly the registered prototypes remain |
| Teardown.EventsAreThose | libubx/ubx.c:318-334 | The calls counted for a phase are one for each block in one of its states |
| RefCount.CountsAreUnique | libubx/ubx.c:862-870 | Who refers to what determines all counts and which data are live |
| RefCount.FreeCounts | libubx/ubx.c:862-870 | Giving up a handle keeps the counts exact, and frees the datum exactly if it was the last reference |
| RefCount.AddCounts | libubx/ubx.c:1578-1642 | A new config with its own datum keeps them exact |
| RefCount.RemoveCounts | libubx/ubx.c:924-929 | Freeing a config keeps them exact, and frees the datum exactly if nothing else refers to it |
| RefCount.AssignCounts | libubx/ubx.c:942-953 | Reassigning a config keeps them exact |
| RefCount.AssignIsSafe | libubx/ubx.c:942-953 | The new datum survives the release of the old one, except if and only if the config holds the only reference to it already; a caller with a handle is safe |
| RefCount.NothingLeaks | libubx/ubx.c:965-983 | When all blocks are freed and all handles given back, no config and no datum is left |
| RefCount.Heap.DataAlloc | libubx/ubx.c:770-799 | A datum never seen before, on which the caller holds the first handle; the counts stay exact |
| RefCount.Heap.DataFree | libubx/ubx.c:862-870 | As `FreeCounts`, in place; types stay |
| RefCount.Heap.ConfigAdd | libubx/ubx.c:1578-1642 | Adds a config at the end of the list of the block, unless the name is taken |
| RefCount.Heap.ConfigAssign | libubx/ubx.c:942-953 | Rejects other types without effect; otherwise moves the reference with exact counts if the datum survives the release of the old one, and if not leaves the config pointing to freed data |
| RefCount.Heap.LoseDatum | libubx/ubx.c:942-953 | A run of calls that gets there: assigning a new config its own datum |
| RefCount.Heap.ConfigRm | libubx/ubx.c:1714-1733 | Takes a config of that name off the list and frees it, or reports that there is none |
| RefCount.Heap.BlockFree | libubx/ubx.c:965-983 | Frees exactly the configs of the block |
| Glob.SegBest | std_blocks/webif/mongoose.c:885-911 | Without alternatives, the backtracking result is the length of a match and misses none, positive if any positive length matches |
| Glob.MatchIsRight | std_blocks/webif/mongoose.c:875-912 | The result is positive if and only if some alternative matches a non-empty prefix under the meaning of `?`, `*`, `**` and `$`, and is then the length of such a prefix |
| Glob.SegGreedy | std_blocks/webif/mongoose.c:885-911 | Without alternatives, the result is the total length of the greediest match: against any other fitting pieces, the first one whose length differs is the longer one; -1 if none fit |
| Glob.MatchIsGreediest | std_blocks/webif/mongoose.c:875-912 | The result is the length of the greediest match of the first alternative that matches a non-empty prefix, and the last alternative's if none does |
| Glob.DoubleStarTakesAll | std_blocks/webif/mongoose.c:895-901 | An example: `/**` takes all of `/a/b` |
| Glob.Match | std_blocks/webif/mongoose.c:875-912 | The matcher with its loop over two indices ends with that result, never beyond the string |
| Glob.MatchStar | std_blocks/webif/mongoose.c:902-905 | The do-while loop finds the longest choice of a star for which the rest matches |
| SockQueue.WrappedKeeps | std_blocks/webif/mongoose.c:4993-4997 | Taking 20 off both indices, as often as needed, never changes what is queued |
| SockQueue.PutAppends | std_blocks/webif/mongoose.c:5068-5072 | Storing at the head appends to the queue, or drops the socket when it is full |
| SockQueue.TakeRemoves | std_blocks/webif/mongoose.c:4987-4998 | Taking at the tail removes the oldest, and indices stay in range |
| SockQueue.Context.ConsumeSocket | std_blocks/webif/mongoose.c:4977-5004 | The critical section hands out the oldest socket and removes it; the result tells whether to go on |
| SockQueue.Context.ProduceSocket | std_blocks/webif/mongoose.c:5059-5077 | The critical section appends the socket, always so unless stopping, and the head stays at most 40 |
| SockQueue.StepKeepsInv | std_blocks/webif/mongoose.c:4977-5077 | Every step of the listening thread and of any number of workers keeps order and contents, what becomes of taken sockets, and that sleepers are matched by woken workers |
| SockQueue.ExactlyOnceInOrder | std_blocks/webif/mongoose.c:4977-5077 | In every run the i-th socket got by any worker is the i-th taken in, at most 20 wait, and before a stop each socket produced is handled by the worker that took it, or about to be |
| SockQueue.TakenIsProduced | std_blocks/webif/mongoose.c:4977-5077 | Before a stop the workers get what the listening thread was given, each socket once, in order |
| SockQueue.FateIsDecided | std_blocks/webif/mongoose.c:5003-5022 | A socket is handled if the stop flag is not set when its worker reads it, and else dropped, and then the worker ends |
| SockQueue.CanHandle | std_blocks/webif/mongoose.c:4977-5022 | While the server runs the oldest queued socket can be taken and handled, whatever happened before |
| SockQueue.NoLostWakeup | std_blocks/webif/mongoose.c:4981-5003 | In every run, while sockets are queued or the producer sleeps, not all the workers that are left sleep, and if any sleeps while sockets are queued another one is woken and can take a socket; before a stop no worker ends |
| SockQueue.ProducerIsServed | std_blocks/webif/mongoose.c:5000-5003 | In every run, while the producer sleeps a worker can take a socket and thereby wakes it if and only if not all the workers that are left are leaving; before a stop a leaving one comes back |
| SockQueue.StuckStays | std_blocks/webif/mongoose.c:5019-5022 | When stopping with all remaining workers leaving, only an unsignalled wakeup ends the sleep of the producer |
| SockQueue.StopCanStick | std_blocks/webif/mongoose.c:5019-5022 | A run with one worker that gets there, with no worker left |
| SockQueue.AtMostOneLeftAsleep | std_blocks/webif/mongoose.c:5162-5170 | After the final broadcast at most one worker sleeps, and only one that was between its test and its wait |
| SockQueue.BroadcastMisses | std_blocks/webif/mongoose.c:5162-5170 | Some continuation of the final broadcast has a worker asleep if and only if one was between its test and its wait |
| SockQueue.NobodyWakes | std_blocks/webif/mongoose.c:5162-5170 | Then no step but an unsignalled wakeup ends its sleep |
| SockQueue.OneMaySleepOn | std_blocks/webif/mongoose.c:4982-4984 | A run in which one is |
| UrlCodec.DecodedEncoded | std_blocks/webif/mongoose.c:1661-1684 | Decoding undoes encoding for every byte string, in both form modes |
| UrlCodec.EncodedIsSafe | std_blocks/webif/mongoose.c:2572-2590 | The encoding is made of unreserved characters and percent signs, and at most three times as long |
| UrlCodec.PlainBytes | std_blocks/webif/mongoose.c:2573-2579 | Exactly letters, digits and nine other bytes are not escaped |
| UrlCodec.HexDigits | std_blocks/webif/mongoose.c:2574-2574 | Escapes are written with lower-case digits, and read with both |
| UrlCodec.PercentDecodes | std_blocks/webif/mongoose.c:1667-1673 | A percent sign with two hexadecimal digits decodes to their byte, and before anything else to itself |
| UrlCodec.NothingToDecode | std_blocks/webif/mongoose.c:1674-1678 | Text without percent signs decodes to itself, but for plus signs in forms |
| UrlCodec.EncodeFits | std_blocks/webif/mongoose.c:2577-2589 | A buffer that can hold the encoding and its terminator gets exactly these |
| UrlCodec.TruncatesCleanly | std_blocks/webif/mongoose.c:2577-2589 | Buffers of length n all get as much of the encoding as fits, with its terminator, if and only if no escape meets their end |
| UrlCodec.NoGap | std_blocks/webif/mongoose.c:2577-2589 | If none does, what fits is written and the rest of the buffer kept |
| UrlCodec.Gap | std_blocks/webif/mongoose.c:2577-2589 | If one does, the byte where it should begin stays what it was |
| UrlCodec.SmallBufferGap | std_blocks/webif/mongoose.c:2577-2589 | The least such buffer |
| UrlCodec.UrlEncode | std_blocks/webif/mongoose.c:2572-2590 | The loop over the string, for buffers of any size |
| UrlCodec.UrlDecode | std_blocks/webif/mongoose.c:1661-1684 | Decodes as much as fits and reports the length or -1, alike whether or not source and destination are one buffer |
| UrlCodec.DecodeUri | std_blocks/webif/mongoose.c:4313-4313 | Decoding a path where it lies always fits |
| UrlCodec.RoundTrip | std_blocks/webif/mongoose.c:2572-2590 | Every NUL-free string survives encoding into 3n + 1 bytes and decoding into n + 1 bytes |

## Left out

- RingProtocol.ConsecutiveMessages: speaks of readers whose last seek or reset was exact; `SkewedReaderGetsNoMessage` of those whose seek was not. Fetching outside the mapping is not modelled, nor what a reader gets after a skewed cursor wraps.
- RingShm.LogClient.SeekToOldest: promises a position only where the seek is exact, since it is wrong elsewhere (`SeekFindsOldest`).
- RingLayout.ShippedSizeHasSlack: takes the sizes of the usual ABI, a header of 16 bytes of which 8 are counted.
- Memory is sequentially consistent and the 64-bit cursor is read and written atomically; the mapping is fresh and zeroed. Opening, sizing and watching shared memory is not part of the model.
- RingProtocol.ReadFrameIsMessage: says nothing once the writer has begun message R + N; the sources have no means to notice that either.
- Md5.Md5Parts: lengths are below 2^32 as the parameter type demands. The two copies of the code, in libubx/md5.c and std_blocks/webif/mongoose.c:2030-2218, differ in byteReverse only; one model has both.
- Timespec.Timespec.Norm: requires that no field overflows, as do the sums, differences and quotients, and that a count of samples fits the divisor; the conversions to nanoseconds, microseconds and floating point are plain arithmetic and left out.
- Chain: printing of statistics, the throttled output port and the identifiers of statistics. In all modes the model keeps a statistic per block, which the sources allocate in per-block mode only. The outcome of a step and the clock are parameters.
- Ptrig.EarlyStopIsFinal: nothing is promised for a stop that times out, after which the sources unconfigure the chains under a possibly running trigger; cancelling the thread, its own write of the block state on autostop, priorities and affinities are not modelled. A wait of the thread may end spuriously.
- Configure: substitution of `#blockname` values, schema checks, failing hooks during initialisation, exit codes, and blocks found in an unexpected state. Which configurations exist before and after initialisation is a parameter. Tables keep an arbitrary but fixed order of iteration.
- Merge.SystemBuf.Merge: tables are values, so that the sharing of merged subtables between two systems is not modelled, nor are values that are `false`, or a missing table of subsystems.
- Lifecycle: hooks leave state and registry alone; a missing hook counts as one that succeeds. The configured log level is not modelled.
- Teardown.UbxNode.Clear: the registry keeps its order of insertion, as the hash table iterates. Freeing of ports is not modelled.
- RefCount.Heap.ConfigAdd: failing allocations, over-long names and contradictory length limits are not modelled.
- RefCount.Heap.ConfigAssign: the count that the sources write into freed memory is not modelled.
- Glob.Match: strings hold no NUL, and the character behind the pattern window is not `*`; both hold for the patterns that the server passes.
- SockQueue.Context.ConsumeSocket: reads the stop flag for its result in the same call; the step system reads it in a step of its own. The listening thread's wait for the number of threads is not modelled.
- UrlCodec.UrlDecode: source and destination are the same buffer or disjoint ones, and not shifted against each other.
- UrlCodec.UrlEncode: the destination is separate from the source and has room for the terminator.
- std_blocks/examples/simple_fifo.c, whose reads always have size 0, and the queues of liblfds and the kernel.
- Blocks that compute with floating point, the rest of the web server, and the foreign-function glue of the Lua modules.
