# Sunshine: a verified model of its bitstream codec and session machinery

This project models, in Dafny, two parts of Sunshine and proves properties of the models.

* **The bitstream codec under `third-party/cbs`**, with which Sunshine parses and re-emits
  video headers: variable-length codes, byte escaping and start codes, the realignment of
  slice data, the H.265 reference picture sets, SEI message lists, the AV1 tile layout and
  VP9 superframes. A bit stream is a `seq<bool>`, most significant bit first, read and written
  through `BitReader` and `BitWriter`; byte buffers are arrays.
* **Sunshine's own machinery**: the thread pool with its timer queue, the video packetizer
  with forward error correction, the session slots of the RTSP server, and the prep commands
  of applications.

Code that works by loops over mutable state is modelled by methods and classes whose `ensures`
equate the result with a specification function; what the source promises is then proved
about those functions, for all inputs, all runs or all reachable states. Concurrent code is a
step system in which one critical section, or one notification, is one step.

| files | what they model |
|---|---|
| `Arith`, `Bits`, `Buffers` | division facts, bits and bytes, the bit reader and writer, copying |
| `Golomb` | Exp-Golomb codes |
| `RefPicSet`, `RefPicSetSyntax`, `RefPicSetCodec` | H.265 short-term reference picture sets: prediction, syntax, READ and WRITE expansions, the SPS loop |
| `Nal`, `NalSplit`, `NalReader` | H.264/H.265 byte streams: assembling, and the splitter that reads them |
| `SliceData` | the slice data writer |
| `Mpeg2` | the start code scanner, splitting and assembling |
| `Av1Codes`, `Av1Coder` | uvlc, leb128, ns(n), increment and subexp: code words, and the readers and writers |
| `TileInfo`, `TileReader`, `TileCoder` | the AV1 tile layout: its limits, reading, and its code |
| `Superframe`, `SuperframeCoder` | VP9 superframes |
| `Sei`, `SeiReader` | SEI message lists, writing and reading |
| `TaskPool` | the timer queue |
| `ThreadPool`, `PoolDrain`, `PoolTimers` | the pool of workers: its steps and invariant, what becomes of the tasks, waiting for timers |
| `Fec`, `FecInfo` | shard arithmetic in the width of `size_t`, filling the shards, and the `fecInfo` word |
| `Packetizer`, `VideoSender` | header insertion and FEC blocks; datagrams, sequence numbers and the receiver |
| `Rtsp` | session slots |
| `ProcRunner` | prep commands and their undo commands |

## Where the code does less than its design promises

Each of these is proved as stated, with the exact condition under which the promise holds.

* `TaskPool::delay` keeps the timers sorted exactly when the new deadline is not before that of
  the timer behind the delayed one (`TaskPool.DelayedSortedIff`), and the parked workers still
  wake in time exactly under a further condition (`PoolTimers.DelayCoversIff`). The concrete run
  `PoolTimers.EarlierDelayMissesTimer` shows a worker that sleeps past a timer, and
  `TaskPool.EarlierDelayUnsorts` two timers that end up out of order.
* A predicted H.265 reference set is stored with steps of 16 bits. It is kept as predicted, and
  the writer accepts what the reader read, exactly when neighbouring pictures are at most 65536
  apart (`RefPicSet.NarrowedIff`, `RefPicSetCodec.ReadableAccepted`; `RefPicSet.FarPictureNarrowed`
  is a set for which it fails).
* The slice data writer ends at the last 1 bit exactly when the final byte is nonzero. With a
  zero final byte the aligned path copies the zeros along and the other path fails an assertion
  (`SliceData.CopyMeets`, `SliceData.WriteSliceData`; `SliceData.ZeroByteCopied` copies two bytes).
* `cbs_av1_write_ns` and `cbs_av1_write_subexp` let the value `n` (or `range_max`) pass their
  range check although it has no code (`Av1Codes.NsHeadFits`, with `Av1Codes.NsTopMisfits` for
  n = 5, and `Av1Coder.WriteSubexp`). For a `range_max` that is a power of two that value makes the
  assertion on `len` fail (`Av1Codes.TopBinFails`, `Av1Codes.TopBinOfSixteen`). For a `range_max`
  from 9 to 16 the two sides of subexp disagree, except for the values `Av1Codes.SubexpExact` lists.
* `cbs_av1_write_uvlc` cannot write 2^32 - 1 (`Av1Coder.WriteUvlc`), and `cbs_av1_write_leb128`
  truncates from 2^32 on (`Av1Codes.LebRoundTripIff`).
* Tile heights are stored in eight bits. With uniform spacing they add up to the frame exactly
  when the tile height is at most 256 superblocks (`TileReader.UniformMeaning`;
  `TileReader.TallTileStoredShort` decodes a frame for which they do not).
* A single VP9 frame whose last byte looks like the end of an index does not survive assembling and
  splitting (`Superframe.SingleFrameIff`), nor does an empty SEI list (`SeiReader.EmptyListIsLost`).
* The type and the size of an SEI message are summed up in 32 bits. A list that is read stands there
  as it would be written exactly when none of the sums wrapped (`SeiReader.ListCanonical`;
  `SeiReader.WrappedTypeRead` is a family of lists with one that did), which takes more than 16
  million bytes (`SeiReader.ShortListUnwrapped`).
* The parity minimum a client asks for is an int that becomes a `size_t`. A negative one makes
  the buffer of `fec::encode` shorter than the block exactly when the wrapped sum passes the check
  on the maximum (`Fec.PlanMeaning`, `Fec.Encode`, `VideoSender.NegativeMinimumInFrame`).
* When the minimum raises the FEC percentage, the receiver recovers the parity count exactly when
  the remainder of the division is below 100 (`Fec.ParityRecovered`; it misses it in the blocks of
  `VideoSender.ParityMissedInFrame`), and the percentage fits its eight bits exactly under the
  condition of `Fec.AdvertisedFits`.
* `fecInfo` has ten bits for the number of data shards. A frame is received exactly when each of
  its blocks has fewer than 1024 data shards and a percentage of eight bits
  (`VideoSender.Session.SendFrame`); `VideoSender.LongFrameNotCarried` and
  `VideoSender.RaisedPercentageNotCarried` are frames that are not.
* An ANNOUNCE that takes the launch event and is not valid loses its slot, and so does a raise over
  a launch event that timed out; the second can happen right after the admission check
  (`Rtsp.AnnounceLeaks`, `Rtsp.RaiseLeaksIff`). `Rtsp.RefusedAnnounceLeaks` and
  `Rtsp.RaiseOverPendingLeaks` are runs from the start of the server in which this happens. A lost
  slot never comes back, and a server that has lost them all admits nobody any more
  (`Rtsp.LeaksAreForGood`).
* The reset at the head of `proc_t::execute` is taken while app 0 runs, not when a process has
  exited (`ProcRunner.ResetOnlyForAppZero`).

Where comments and code disagree, as in the last item, the model follows the code.

## Model

| member | source | states |
|---|---|---|
| RefPicSet.PredictMeaning | third-party/cbs/cbs_h265_syntax_template.c:588-655 | the derived set holds a picture if and only if it is a nonzero sum of delta_rps and 0 or a reference delta whose use_delta flag is set, with the used flag sent for it |
| RefPicSet.PredictSides | third-party/cbs/cbs_h265_syntax_template.c:599-655 | the derived negative deltas are strictly decreasing and negative, the positive ones strictly increasing and positive, and every stored step is at least 0, so each picture is held once |
| RefPicSet.PredictSize | third-party/cbs/cbs_h265_syntax_template.c:554-570 | the derived set has no more pictures than use_delta flags that are set |
| RefPicSet.PredictSet | third-party/cbs/cbs_h265_syntax_template.c:588-655 | the loops over the arrays compute the specified prediction, before the fields narrow it |
| RefPicSet.NarrowedIff | third-party/cbs/cbs_h265_syntax_template.c:621-655 | uint16_t steps hold a predicted set if and only if neighbouring pictures, and the first and the current one, are at most 65536 apart |
| RefPicSet.FarPictureNarrowed | third-party/cbs/cbs_h265_syntax_template.c:621-655 | for a set of three steps of 32768 a prediction needs a step of 98305 and keeps 32769 |
| RefPicSet.PredictHalf | third-party/cbs/cbs_h265_syntax_template.c:599-626 | one half's three visits and re-storing yield the steps of the pictures selected in that order |
| RefPicSet.PicturesAt | third-party/cbs/cbs_h265_syntax_template.c:588-597 | the picture of each stored step: its distance from the one before, downwards or upwards, and its used flag |
| RefPicSet.PicturesDetermine | third-party/cbs/cbs_h265_syntax_template.c:572-586 | no two sets with steps of at least one have the same pictures, so the delta-step form loses nothing |
| RefPicSetSyntax.SetRoundTrip | third-party/cbs/cbs_h265_syntax_template.c:520-563 | the syntax elements of a set in range are read back wherever they stand and whatever follows |
| RefPicSetSyntax.SetCanonical | third-party/cbs/cbs_h265_syntax_template.c:520-563 | whatever is read is in range and stands there exactly as it would be written |
| RefPicSetCodec.ResolveWellFormed | third-party/cbs/cbs_h265_syntax_template.c:544-570 | a set that is accepted has fewer pictures than the picture buffer and steps of at least one, so a later set may refer to it |
| RefPicSetCodec.ResolveMeaning | third-party/cbs/cbs_h265_syntax_template.c:549-655 | a predicted set is refused if and only if 16 or more use_delta flags are set; otherwise its pictures are the nonzero ones among 0 and the reference deltas with a use_delta flag, moved up by abs_delta_rps_minus1 + 1, or down with delta_rps_sign, with the used flag sent |
| RefPicSetCodec.AcceptedIff | third-party/cbs/cbs_h265_syntax_template.c:577-586 | the writer accepts a set if and only if its fields are in range, its steps at least one, and its pictures those that its fields mean |
| RefPicSetCodec.KeptIff | third-party/cbs/cbs_h265_syntax_template.c:621-655 | the 16-bit fields keep a predicted set as it is if and only if its neighbouring pictures are at most 65536 apart |
| RefPicSetCodec.StoredRoundTrip | third-party/cbs/cbs_h265_syntax_template.c:520-673 | reading gives back a stored set if and only if its code stands there and the set is in range with the steps its fields keep |
| RefPicSetCodec.ReadableAccepted | third-party/cbs/cbs_h265_syntax_template.c:621-655 | the writer accepts a set that was read if and only if the pictures of its prediction are at most 65536 apart |
| RefPicSetCodec.Derive | third-party/cbs/cbs_h265_syntax_template.c:554-655 | counting the flags, refusing too many pictures and predicting give the resolved set |
| RefPicSetCodec.ReadSet | third-party/cbs/cbs_h265_syntax_template.c:520-673 | the READ expansion returns exactly the specified set; its pictures are those its fields mean, in steps reduced to 16 bits, and it can be referred to |
| RefPicSetCodec.ReadSets | third-party/cbs/cbs_h265_syntax_template.c:923-925 | every set stored by the SPS loop has fewer than HEVC_MAX_DPB_SIZE pictures, so the assertion at line 547 holds in every pass |
| RefPicSetCodec.WriteSets | third-party/cbs/cbs_h265_syntax_template.c:923-925 | the WRITE expansion of the loop appends the number and the codes of all sets exactly when there are at most 64, each is accepted after those before it, and there is room |
| RefPicSetCodec.SpsRoundTrip | third-party/cbs/cbs_h265_syntax_template.c:923-925 | reading gives back the sets of an SPS if and only if their number and codes stand there one after the other and each is kept as it is |
| RefPicSetCodec.WrittenSetsRead | third-party/cbs/cbs_h265_syntax_template.c:520-673 | what the writer makes of all sets of an SPS is read back as the same sets if and only if in every predicted set neighbouring pictures are at most 65536 apart |
| RefPicSetCodec.WriteSet | third-party/cbs/cbs_h265_syntax_template.c:520-673 | the WRITE expansion appends the code of the set exactly when the set is in range and its stored form is the one the prediction gives |
| ThreadPool.StepKeeps | sunshine/thread_pool.h:40-118 | every step of a client or a worker, with any delay, keeps the accounts of tasks, wakeups and stopping |
| ThreadPool.RunInv | sunshine/thread_pool.h:40-118 | they hold after every interleaving |
| ThreadPool.NoLostWakeup | sunshine/thread_pool.h:40-47 | while a worker is parked and no notification is under way, each queued immediate task has an awake idle worker |
| ThreadPool.StoppedIff | sunshine/thread_pool.h:75-80 | after every run the workers are told to leave if and only if stop has been called |
| ThreadPool.StopWakesAll | sunshine/thread_pool.h:75-80 | once stop has been called and has notified, no worker is parked |
| PoolTimers.DelayHeedsIff | sunshine/task_pool.h:143-172 | a delay keeps the waits in time if and only if its deadline is not before that of the timer behind nor before the end of a wait that no notification is about to end |
| PoolTimers.StepKeepsWaits | sunshine/thread_pool.h:55-111 | every other step keeps the timers in order and the waits in time |
| PoolTimers.DeadlinesNotLate | sunshine/thread_pool.h:55-111 | on every run whose delays meet that condition a worker waits without a deadline only while no timer is pending, and otherwise no longer than the earliest timer |
| PoolTimers.DueTimerRuns | sunshine/thread_pool.h:88-111 | on such runs, when a timer is due the wait of every parked worker has ended, and that worker alone can go on to run an earliest timer |
| PoolTimers.ClockGoesOn | sunshine/task_pool.h:222-226 | after every run the clock can go on to any time not past, and to no other |
| PoolDrain.DrainedOnExit | sunshine/thread_pool.h:88-118 | once all workers have exited, every immediate task pushed while a worker was left has run as often as it was pushed, what is still queued was pushed later, and every timer has run, is pending or was cancelled |
| PoolDrain.NoneStuck | sunshine/thread_pool.h:88-118 | once stop has been called, until all workers have exited, some worker can act or a notification under way can be sent |
| PoolDrain.DrainBounded | sunshine/thread_pool.h:75-118 | once stop has been called, whatever clients do and however threads interleave, the pool takes at most five steps for each worker, two for each task and timer held, one for a notification, three for each later push and one for each later stop |
| PoolDrain.StoppedDrains | sunshine/thread_pool.h:75-118 | from every state reached after stop all workers can exit within that bound without a wait timing out or a client call, and then what has run is what was pushed |
| PoolDrain.NoneLeavesBeforeStop | sunshine/thread_pool.h:88-111 | before stop is called no worker leaves its loop |
| PoolDrain.Conserved | sunshine/thread_pool.h:88-118 | at any moment the tasks of the push calls are queued, in a worker's hands or run, and those of the timer calls pending, held, run or cancelled, with multiplicity |
| PoolTimers.DelayCoversIff | sunshine/task_pool.h:143-172 | after delay the parked workers still wake in time if and only if the new deadline is neither before the timer behind nor before the end of any wait |
| PoolTimers.EarlierDelayMissesTimer | sunshine/task_pool.h:143-172 | a run after which the only worker waits for time 10 while a timer is due at 5, and nobody is about to notify it |
| TaskPool.InsertedSorted | sunshine/task_pool.h:93-104 | pushDelayed keeps the timers in order |
| TaskPool.InsertedKeeps | sunshine/task_pool.h:93-104 | pushDelayed adds its timer and changes no other |
| TaskPool.RemovedSorted | sunshine/task_pool.h:174-189 | cancel keeps the order and every other timer |
| TaskPool.BubbledIsInserted | sunshine/task_pool.h:162-171 | the swaps of delay put the timer where pushDelayed would have put it among those before it |
| TaskPool.DelayedSortedIff | sunshine/task_pool.h:143-172 | delay keeps the order if and only if the new deadline is not before that of the timer behind |
| TaskPool.EarlierDelayUnsorts | sunshine/task_pool.h:143-172 | of timers at 10 and 5 the first is moved up to 3 and stays in front |
| TaskPool.DelayedKeeps | sunshine/task_pool.h:143-172 | delay changes one deadline and nothing else |
| TaskPool.PoppedMeaning | sunshine/task_pool.h:203-226 | pop yields something exactly when ready, takes just that out, prefers the immediate queue in order, and otherwise yields an earliest due timer |
| TaskPool.TaskPool.Push | sunshine/task_pool.h:72-91 | appends to the immediate queue |
| TaskPool.TaskPool.PushDelayed | sunshine/task_pool.h:93-104 | the search for the place inserts as specified |
| TaskPool.TaskPool.Delay | sunshine/task_pool.h:143-172 | the swaps in place compute the specified order, and an unknown id changes nothing |
| TaskPool.TaskPool.Cancel | sunshine/task_pool.h:174-189 | reports whether the timer was there and removes the first of that id |
| TaskPool.TaskPool.IsReady | sunshine/task_pool.h:222-226 | true exactly when pop would yield something |
| TaskPool.TaskPool.NextDeadline | sunshine/task_pool.h:228-236 | nothing exactly without timers, and otherwise a timer's deadline, the least one when the timers are in order |
| TaskPool.TaskPool.PopTask | sunshine/task_pool.h:203-220 | takes what the specification of pop says |
| Golomb.UeRoundTrip | third-party/cbs/cbs_h2645.c:36-186 | every code number below 2^32 - 1 is read back from its code word, using 2 * floor(log2(codeNum + 1)) + 1 bits, whatever follows |
| Golomb.SeRoundTrip | third-party/cbs/cbs_h2645.c:89-236 | every signed value from -(2^31 - 1) to 2^31 - 1 is read back, using exactly the bits written |
| Golomb.UeCanonical | third-party/cbs/cbs_h2645.c:36-87 | the reader accepts nothing but what the writer produces |
| Golomb.ReadCode | third-party/cbs/cbs_h2645.c:47-72 | the length checks of the prefix loop cover every suffix bit, and the result is that of section 9.1 |
| Golomb.ReadUe | third-party/cbs/cbs_h2645.c:36-87 | reads the decoded value, or fails outside the range or on a bad code |
| Golomb.ReadSe | third-party/cbs/cbs_h2645.c:89-144 | reads the signed value, or fails outside the range or on a bad code |
| Golomb.WriteUe | third-party/cbs/cbs_h2645.c:146-186 | appends the code word, or reports range or space and appends nothing |
| Golomb.WriteSe | third-party/cbs/cbs_h2645.c:188-236 | appends the code word of the signed value, or reports range or space |
| Nal.EscapeIsClean | third-party/cbs/cbs_h2645.c:1237-1253 | no 00 00 00, 00 00 01 or 00 00 02 occurs in an escaped payload |
| Nal.EscapeSameIff | third-party/cbs/cbs_h2645.c:1237-1253 | a payload is written unchanged if and only if none of 00 00 00 to 00 00 03 occurs in it |
| Nal.EscapeLength | third-party/cbs/cbs_h2645.c:1206-1253 | escaping adds at most one byte for every two |
| Nal.ExtractEscaped | third-party/cbs/h2645_parse.c:35-150 | extracting undoes escaping and goes on with what follows the payload |
| NalSplit.StreamFits | third-party/cbs/cbs_h2645.c:1206-1256 | the stream never exceeds the sum of 4 + floor(3 * size / 2) |
| NalSplit.MaxSizeUnit | third-party/cbs/cbs_h2645.c:1206-1210 | the buffer has four bytes and one and a half times its data for each unit |
| NalSplit.StreamUnit | third-party/cbs/cbs_h2645.c:1180-1256 | four bytes of start code stand before the first unit and before parameter sets, types 7 and 8 of H.264 and 32 to 34 of H.265, and three before any other |
| NalSplit.NextStartMeaning | third-party/cbs/h2645_parse.c:328-341 | the search stops behind the first start code that a byte follows, or at the end |
| NalSplit.KeptIff | third-party/cbs/h2645_parse.c:460-516 | what is extracted is kept if and only if its bits state a valid header and a byte of it is not zero, or the start code E0 follows |
| NalSplit.HeaderIff | third-party/cbs/h2645_parse.c:289-326 | the header is parsed as its bits state it: a zero bit, then for H.264 two bits and five of the type, for H.265 six of the type, six of the layer and three that are not zero |
| NalSplit.Assemble | third-party/cbs/cbs_h2645.c:1195-1273 | the loops write exactly the specified stream inside the allocated buffer |
| NalSplit.StreamRoundTrip | third-party/cbs/cbs_h2645.c:1195-1273 | units with a valid base layer header and a nonzero last byte come back exactly |
| NalSplit.AssembleSplitIff | third-party/cbs/cbs_h2645.c:487-517 | assembling and splitting give back the same units if and only if the bits of each state a valid header of the base layer with its type, and its last byte is not zero |
| NalReader.ExtractRbsp | third-party/cbs/h2645_parse.c:35-150 | the two-bytes-at-a-time scan and the copy loop remove escapes as the simple definition does |
| NalReader.PacketSplit | third-party/cbs/h2645_parse.c:389-519 | the loop over the byte stream returns the specified units, and the bits of each state a valid header with the type and layer found |
| NalReader.AddNals | third-party/cbs/cbs_h2645.c:487-517 | enhancement layers and empty units are left out, trailing zeros removed |
| Mpeg2.FindStartCode | third-party/cbs/cbs_mpeg2.c:151-183 | the skipping scanner returns the position and state of the byte-by-byte search, for every buffer and state, and reads nothing before the start |
| Mpeg2.NaiveFinds | third-party/cbs/cbs_mpeg2.c:151-183 | the byte-by-byte search stops behind the first start code, or at the end without one |
| Mpeg2.NextSearch | third-party/cbs/cbs_mpeg2.c:201-228 | each search of the split loop finds the next start code, also an overlapping one, and none after a start code in the last four bytes |
| Mpeg2.SplitFragment | third-party/cbs/cbs_mpeg2.c:185-242 | fails exactly without a start code, and otherwise returns the units between start codes; the loop ends |
| Mpeg2.AssembleUnits | third-party/cbs/cbs_mpeg2.c:395-429 | assembling the units of a split gives the input from its first start code on, byte for byte |
| Mpeg2.AssembleFragment | third-party/cbs/cbs_mpeg2.c:395-429 | the copy loop fills a buffer of exactly the computed size with prefixes and units |
| SliceData.WriteSliceData | third-party/cbs/cbs_h2645.c:921-977 | for every alignment it appends the bits from the start through the last 1 bit and zeros to a byte boundary when the final byte is nonzero, and says when it aborts, copies zeros along or has no room |
| SliceData.CopyMeets | third-party/cbs/cbs_h2645.c:943-950 | the memcpy path gives that result if and only if the final byte is nonzero |
| SliceData.ZeroByteCopied | third-party/cbs/cbs_h2645.c:943-950 | for the bytes 80 00, whose final byte is zero, what is copied differs from the data cut behind its last 1 bit and filled to a byte |
| SliceData.TrimmedEnd | third-party/cbs/cbs_h2645.c:965-971 | the final byte shifted by its count of zeros ends the data in its last 1 bit |
| SliceData.TrailingZerosMasked | third-party/cbs/cbs_h2645.c:965-969 | counting zeros in the whole byte instead of the masked one makes no difference |
| SliceData.PutAllButLast | third-party/cbs/cbs_h2645.c:958-962 | the 32-bit and 8-bit loops append all bytes but the last |
| SliceData.PutLast | third-party/cbs/cbs_h2645.c:964-973 | fails exactly on a zero final byte, and otherwise appends its bits through the last 1 bit and pads |
| Packetizer.BodiesOfInserted | sunshine/stream.cpp:512-538 | removing the headers from the padded packets gives the payload and fewer zeros than a slice |
| Packetizer.BodiesConcat | sunshine/stream.cpp:953-987 | blocks of whole packets can be unpacked one after the other |
| Packetizer.Insert | sunshine/stream.cpp:512-538 | the loop puts a header before each slice, the last one possibly short, in a buffer of exactly the right size |
| Packetizer.ThreeBlocks | sunshine/stream.cpp:935-956 | above the threshold the first two blocks leave a nonempty third |
| Packetizer.AlignedLeast | sunshine/stream.cpp:950-951 | the size of the first two blocks is the least multiple of the packet size that is no less than a third of the bytes |
| Packetizer.SplitBlocks | sunshine/stream.cpp:935-964 | one block, or three nonempty ones of which the first two have the aligned size, that join to the payload |
| Packetizer.EvenFrame | sunshine/stream.cpp:923-956 | a frame of 3 * m full slices above the threshold makes three blocks of m packets |
| VideoSender.HeadersSay | sunshine/stream.cpp:989-1005 | the headers of a block say its indexes and count if fecInfo carries it; otherwise no header says index 0, or the first one says too small a count |
| VideoSender.BlockReceivedIff | sunshine/stream.cpp:989-1009 | a receiver that looks shards up by the unpacked index gets a block back exactly when it has fewer than 1024 data shards and a percentage of eight bits, and otherwise nothing or less |
| VideoSender.FrameReceived | sunshine/stream.cpp:966-1020 | it gets a frame back exactly when that holds of every block |
| VideoSender.Session.SendBlock | sunshine/stream.cpp:966-1020 | sends a block exactly when the minimum does not overrun the buffer: datagrams with packed fecInfo, the next sequence numbers, and the data in the data shards |
| VideoSender.Session.SendFrame | sunshine/stream.cpp:917-1022 | all blocks are sent exactly under the condition on payload size and minimum; then the receiver gets the payload and fewer zeros than a slice if and only if the condition on payload size, percentage and minimum holds; datagram k of the session carries k mod 2^16 |
| VideoSender.LongFrameNotCarried | sunshine/stream.cpp:935-998 | a frame of 3072 full slices fails the condition: its blocks announce no data shards |
| VideoSender.RaisedPercentageNotCarried | sunshine/stream.cpp:463-482 | a frame of one packet fails it for a minimum of three, advertised as 300 percent |
| VideoSender.NegativeMinimumInFrame | sunshine/stream.cpp:466-485 | a frame of thirty full slices overruns the buffer for a minimum of -1 |
| VideoSender.ParityMissedInFrame | sunshine/stream.cpp:463-468 | a frame of 303 full slices makes blocks of 101 data shards, for which a minimum of 102 is advertised as 100 percent and read back as 101 |
| Fec.PlanMeaning | sunshine/stream.cpp:460-482 | fewer shards than data shards are planned if and only if a negative minimum wraps past the maximum; otherwise the parity is the least that meets percentage and minimum if that fits DATA_SHARDS_MAX, and else there is none and the percentage is 0 |
| Fec.NegativeMinimumOverruns | sunshine/stream.cpp:466-474 | ten data shards and a minimum of -1 make nine shards |
| Fec.ParityRecovered | sunshine/stream.cpp:462-473 | evaluating the parity formula with the advertised percentage gives the parity sent if and only if the minimum did not raise it or the division's remainder is below 100 |
| Fec.ParityRecoveredUpTo100 | sunshine/stream.cpp:463-472 | for up to 100 data shards it always does |
| Fec.ParityMissed | sunshine/stream.cpp:463-472 | for 101 data shards and a minimum of 102 it does not |
| Fec.AdvertisedFits | sunshine/stream.cpp:463-482 | the advertised percentage is at most 255 if and only if the minimum did not raise it, parity was dropped, or 100 * minimum < 256 * data shards |
| Fec.PercentageTooWide | sunshine/stream.cpp:463-482 | one data shard and a minimum of three are advertised as 300 percent |
| FecInfo.FieldsHold | sunshine/stream.cpp:995-998 | what stands in the three fields for all values packed: a value too wide runs into the next field |
| FecInfo.FecInfoUnpacks | sunshine/stream.cpp:995-998 | the fields come out of fecInfo as packed if and only if they fit 10, 10 and 8 bits |
| Fec.Encode | sunshine/stream.cpp:457-509 | the buffer holds the block exactly when the minimum does not overrun it; then the data shards hold the block and zeros, with the planned counts |
| Av1Codes.UvlcRoundTrip | third-party/cbs/cbs_av1.c:29-146 | every value below 2^32 - 1 is read back from its code word |
| Av1Codes.UvlcZeros | third-party/cbs/cbs_av1.c:29-107 | 32 or more zeros and a one are read as 2^32 - 1, and zeros up to the end are an error |
| Av1Codes.NsRoundTrip | third-party/cbs/cbs_av1.c:209-307 | every value below n is read back, using the bits written, when the w bits the reader asks for are there |
| Av1Codes.NsCanonical | third-party/cbs/cbs_av1.c:209-258 | the reader yields only values below n, from their code words |
| Av1Codes.NsHeadFits | third-party/cbs/cbs_av1.c:266-291 | what the writer puts fits its w - 1 bits if and only if the value is below n |
| Av1Codes.NsTopMisfits | third-party/cbs/cbs_av1.c:266-291 | for n = 5 the value 5 has the head 4, which needs more than its two bits |
| Av1Codes.IncrementRoundTrip | third-party/cbs/cbs_av1.c:309-385 | every value of the range is read back, whatever follows |
| Av1Codes.IncrementCanonical | third-party/cbs/cbs_av1.c:309-345 | what is read stands there as the writer writes it |
| Av1Codes.IncrementBits | third-party/cbs/cbs_av1.c:381-382 | the number put in one go is the run of ones with its closing zero |
| Av1Codes.SubexpRoundTrip | third-party/cbs/cbs_av1.c:387-499 | for a range of at least 17, or a value below 8, the value is read back, using exactly the bits written |
| Av1Codes.SubexpExact | third-party/cbs/cbs_av1.c:387-499 | for ranges from 9 on a value is read back if and only if the range is at least 17, or the value below 8, or value + range_max at least 24 |
| Av1Codes.TopBinIsNext | third-party/cbs/cbs_av1.c:453-470 | for values below range_max the assertion len == max_len + 1 holds whenever it is reached |
| Av1Codes.TopBinFails | third-party/cbs/cbs_av1.c:443-469 | for the value range_max it fails if and only if that is a power of two |
| Av1Codes.TopBinOfSixteen | third-party/cbs/cbs_av1.c:443-469 | for range_max 16 the value 16 has len 2 and max_len 0 |
| Av1Codes.LebRoundTripIff | third-party/cbs/cbs_av1.c:148-207 | a value survives leb128 if and only if it has at most 32 bits |
| Av1Codes.LebLengthLeast | third-party/cbs/cbs_av1.c:180-192 | the writer takes the least number of bytes for the 32 bits it keeps |
| Av1Codes.LebUsed | third-party/cbs/cbs_av1.c:148-178 | the reader takes bytes up to the first one without its top bit, but no more than eight |
| Av1Coder.ReadUvlc | third-party/cbs/cbs_av1.c:29-107 | reads the decoded value, 32 or more zeros meaning 2^32 - 1, or fails |
| Av1Coder.WriteUvlc | third-party/cbs/cbs_av1.c:109-146 | appends the code word below 2^32 - 1; for that value the shifted-out number does not fit its zero bits |
| Av1Coder.ReadLeb | third-party/cbs/cbs_av1.c:148-178 | the loop over at most eight bytes decodes the value, and refuses more than 32 bits |
| Av1Coder.WriteLeb | third-party/cbs/cbs_av1.c:180-207 | appends the bytes of the truncated length, if they all fit |
| Av1Coder.ReadNs | third-party/cbs/cbs_av1.c:209-258 | decodes ns(n) for n below 2^31, and fails without w bits |
| Av1Coder.WriteNs | third-party/cbs/cbs_av1.c:260-307 | appends the code below n; refuses more than n, and has no code for n |
| Av1Coder.ReadIncrement | third-party/cbs/cbs_av1.c:309-345 | the loop decodes the increment |
| Av1Coder.WriteIncrement | third-party/cbs/cbs_av1.c:347-385 | appends the code, or reports range or space |
| Av1Coder.ReadSubexp | third-party/cbs/cbs_av1.c:387-435 | decodes as specified, for ranges of up to 2^31 |
| Av1Coder.WriteSubexp | third-party/cbs/cbs_av1.c:437-499 | appends the code of a value below range_max if there is room; for range_max itself fails the assertion exactly for powers of two, and otherwise has no code |
| Sei.TwoPassesSuffice | third-party/cbs/cbs_sei_syntax_template.c:157-305 | whatever size a message began with, after one pass the size is that of the bits the second pass writes |
| Sei.WritePayload | third-party/cbs/cbs_sei_syntax_template.c:135-216 | the payload is appended with extension and trailing bits, also when the body itself sets extension_present, and payload_size of a known type becomes its length |
| Sei.WriteMessage | third-party/cbs/cbs_sei_syntax_template.c:276-305 | the message is appended with the settled size, when both passes find room |
| Sei.WriteList | third-party/cbs/cbs_sei_syntax_template.c:271-307 | the list is appended with every size field equal to the payload bytes behind it, and so are the sizes in memory |
| SeiReader.RunRoundTrip | third-party/cbs/cbs_sei_syntax_template.c:230-242 | a type or size comes back from its run of 0xFF bytes |
| SeiReader.ListRoundTrip | third-party/cbs/cbs_sei_syntax_template.c:218-310 | a nonempty list of raw messages, written and followed by trailing bits, is read back as it was if and only if every type has 32 bits and every size is below 2^32 - 1 |
| SeiReader.EmptyListIsLost | third-party/cbs/cbs_sei_syntax_template.c:224-252 | an empty list is not: reading its trailing byte fails |
| SeiReader.MoreDataIff | third-party/cbs/cbs_h2645.c:346-355 | nothing more is found exactly when nothing is left, or at most a byte whose bits after the first are zeros |
| SeiReader.ListCanonical | third-party/cbs/cbs_sei_syntax_template.c:223-269 | a list that is read stands there as it would be written if and only if no type and no size wrapped at 32 bits, and one byte follows it whose last seven bits are zeros |
| SeiReader.ShortListUnwrapped | third-party/cbs/cbs_sei_syntax_template.c:230-242 | nothing wraps in a list of at most 16,843,010 bytes |
| SeiReader.WrappedTypeRead | third-party/cbs/cbs_sei_syntax_template.c:230-242 | a type with 2^32 added is read as if it had not been added |
| SeiReader.ExtensionRecovered | third-party/cbs/cbs_sei_syntax_template.c:157-199 | the reader finds the length of the extension bits from the last 1 bit of the payload |
| SeiReader.ReadList | third-party/cbs/cbs_sei_syntax_template.c:223-270 | the reading loop returns the specified list of raw messages, or fails, with the length test in 32 bits |
| SeiReader.ReadRun | third-party/cbs/cbs_sei_syntax_template.c:230-242 | the loop over 0xFF bytes yields the sum of the run modulo 2^32, wrapping in each addition |
| TileInfo.TileLog2Reaches | third-party/cbs/cbs_av1.c:502-507 | the shift reaches the target |
| TileInfo.TileLog2Least | third-party/cbs/cbs_av1.c:502-507 | no smaller shift reaches it |
| TileInfo.ComputeTileLog2 | third-party/cbs/cbs_av1.c:502-507 | the loop computes that shift |
| TileInfo.RangesNonempty | third-party/cbs/cbs_av1_syntax_template.c:600-631 | for every frame of up to 65536 by 65536 the ranges of both increments are nonempty and short, so their assertion holds |
| TileInfo.SbCountLeast | third-party/cbs/cbs_av1_syntax_template.c:600-604 | the superblock counts are the least that cover the frame |
| TileInfo.LimitsMeaning | third-party/cbs/cbs_av1_syntax_template.c:600-616 | in samples: the counts cover the frame, a tile is at most 4096 wide, the least column exponent is the least that covers the width, the least tile exponent also keeps the area within 4096 by 2304, and the largest exponents admit 64 or one for each superblock |
| TileInfo.TileCountBounds | third-party/cbs/cbs_av1_syntax_template.c:625-635 | uniform spacing gives between 1 and 2^log2 tiles, the last one not empty |
| TileInfo.TileSizeFits | third-party/cbs/cbs_av1_syntax_template.c:612-626 | the uniform width is at most max_tile_width_sb for every count the increment admits |
| TileInfo.UniformTotal | third-party/cbs/cbs_av1_syntax_template.c:637-644 | the stored sizes add up to the frame if and only if the tile size is at most 256 |
| TileReader.UniformMeaning | third-party/cbs/cbs_av1_syntax_template.c:618-645 | uniform spacing: even tile columns of at most 4096 samples that cover the frame width with none to spare, rows that cover the height if and only if 2^log2 tiles of 256 superblocks would, and counts that allow for the largest area |
| TileReader.ExplicitMeaning | third-party/cbs/cbs_av1_syntax_template.c:646-677 | explicit spacing: columns of at most 4096 samples and rows that cover the frame with none to spare unless 64 sizes fall short, least exponents for the counts, and no tile above the area limit or one superblock of height |
| TileReader.MaxHeightIff | third-party/cbs/cbs_av1_syntax_template.c:661-665 | the height limit is the largest height at which a widest tile keeps to the area |
| TileReader.WidestIsOne | third-party/cbs/cbs_av1_syntax_template.c:649-657 | widest_tile_sb is the size of one of the tiles |
| TileReader.TallTileStoredShort | third-party/cbs/cbs_av1_syntax_template.c:618-645 | an 8 by 65536 frame and two bits decode to a tile of 1024 superblocks whose stored height says 256 |
| TileReader.SizesMeaning | third-party/cbs/cbs_av1_syntax_template.c:651-658 | the sizes read by one loop are in range and add up to at most the frame |
| TileReader.Header.ReadTileInfo | third-party/cbs/cbs_av1_syntax_template.c:590-695 | the READ expansion fills the header with exactly the specified layout, inside its 64-entry arrays |
| TileCoder.TileInfoRoundTrip | third-party/cbs/cbs_av1_syntax_template.c:618-688 | every layout the syntax can code is read back from its code, wherever it stands, if at least one more bit follows |
| Superframe.SuperframeIff | third-party/cbs/cbs_vp9.c:560-648 | two to eight frames come back from their superframe if and only if every size has at most 32 bits |
| Superframe.SingleFrameIff | third-party/cbs/cbs_vp9.c:426-494 | a single frame comes back if and only if it is not empty and its last byte does not announce an index |
| Superframe.SizeLengthBounds | third-party/cbs/cbs_vp9.c:593-602 | the chosen width is one to four bytes and holds the largest size |
| Superframe.SizeLengthLeast | third-party/cbs/cbs_vp9.c:593-602 | no smaller width holds it |
| Superframe.IndexRoundTrip | third-party/cbs/cbs_vp9_syntax_template.c:401-421 | the index is read back, and its two header bytes are C0 with the width and the count, which announce its exact size |
| Superframe.LeRoundTrip | third-party/cbs/cbs_vp9.c:170-233 | a value that fits comes back from its little-endian bytes |
| SuperframeCoder.ReadLe | third-party/cbs/cbs_vp9.c:170-206 | the shifting loop reads the little-endian value |
| SuperframeCoder.WriteLe | third-party/cbs/cbs_vp9.c:208-233 | the shifting loop appends the little-endian bytes |
| SuperframeCoder.ReadSuperframeIndex | third-party/cbs/cbs_vp9_syntax_template.c:401-421 | reads the index, also one whose two headers differ |
| SuperframeCoder.SplitFragment | third-party/cbs/cbs_vp9.c:426-494 | returns the specified frames or error for every packet |
| SuperframeCoder.AssembleFragment | third-party/cbs/cbs_vp9.c:560-648 | fills a buffer of exactly the computed size, refuses more than eight frames and none |
| Rtsp.StepAccounts | sunshine/rtsp.cpp:293-358 | every step conserves free count, pending event, held events, occupied slots and leaks together |
| Rtsp.RunAccounts | sunshine/rtsp.cpp:293-358 | on every run these sum to the channels |
| Rtsp.CountIsSafe | sunshine/rtsp.cpp:306-308 | session_count never under-reports, and is exact if and only if nothing leaked |
| Rtsp.CheckedRun | sunshine/nvhttp.cpp:640-681 | with the admission check before every raise the slot count stays nonnegative, and positive while a check stands |
| Rtsp.AnnounceFindsSlot | sunshine/rtsp.cpp:549-663 | on such runs an ANNOUNCE that holds the launch event finds a free slot |
| Rtsp.AnnounceOutcome | sunshine/rtsp.cpp:549-675 | when an ANNOUNCE answers 200, 400, 500 and 503, and that only 200 fills a slot, the first free one |
| Rtsp.AnnounceLeaks | sunshine/rtsp.cpp:549-675 | an ANNOUNCE that takes the launch event keeps the account balanced unless the request is not valid or no slot is free, and then loses one slot |
| Rtsp.RaiseLeaksIff | sunshine/rtsp.cpp:293-325 | a raise after the admission check overwrites an event if and only if one was pending that had not timed out before the check and has by the raise |
| Rtsp.LeaksAreForGood | sunshine/rtsp.cpp:293-358 | along every checked run leaks never decrease nor exceed the channels, and once they equal them nobody is ever admitted again and no session or pending event exists |
| Rtsp.ClearedSlots | sunshine/rtsp.cpp:319-337 | a clearing frees the stopping sessions, or all, leaves every other running session alone and occupies no slot |
| Rtsp.SlotMoves | sunshine/rtsp.cpp:293-358 | what each step does to each slot: only an accept fills one, the first free one |
| Rtsp.SessionStays | sunshine/rtsp.cpp:319-358 | on every run a session keeps its slot until its start fails, everything is cleared, or it was told to stop and a clearing follows |
| Rtsp.RefusedAnnounceLeaks | sunshine/rtsp.cpp:549-675 | a checked run after which a server with one channel reports a session and has none |
| Rtsp.RaiseOverPendingLeaks | sunshine/rtsp.cpp:293-325 | a checked run in which a raise right after its admission check overwrites an event and loses a slot |
| Rtsp.RtspServer.SessionRaise | sunshine/rtsp.cpp:293-304 | raises as specified, or leaves a live pending event alone |
| Rtsp.RtspServer.Clear | sunshine/rtsp.cpp:312-337 | discards a timed-out event, frees exactly the slots of stopping sessions, or all, and gives each back once |
| Rtsp.RtspServer.Admit | sunshine/nvhttp.cpp:640-645 | clears what is over and admits exactly while session_count is below the channels |
| Rtsp.RtspServer.AcceptSession | sunshine/rtsp.cpp:347-358 | fills the first free slot, if there is one |
| Rtsp.RtspServer.Announce | sunshine/rtsp.cpp:549-675 | has the specified effect on event, slots and count on each of its exits |
| ProcRunner.RunsOrderly | sunshine/process.cpp:48-185 | on every run of calls the log of commands obeys the stack discipline |
| ProcRunner.UndoneExactlyOnce | sunshine/process.cpp:48-185 | a command that succeeded and has an undo has been undone exactly once for each success, except while its app holds it |
| ProcRunner.OnlyNonempty | sunshine/process.cpp:162-183 | on every run empty undo commands are never run |
| ProcRunner.CleanBeforeFirst | sunshine/process.cpp:62-69 | before the first command of any app everything done earlier has been undone |
| ProcRunner.UndoReversesLatest | sunshine/process.cpp:162-166 | an undo reverses the latest command in force that has one, and never a command that failed |
| ProcRunner.ExecuteOutcome | sunshine/process.cpp:48-136 | when execute returns 404, -1 and 0, and what is in force and running afterwards |
| ProcRunner.RunningUntilExit | sunshine/process.cpp:112-144 | after a successful execute the app is running, and when its process exits it still is if and only if it has no command |
| ProcRunner.TerminateOnce | sunshine/process.cpp:146-185 | terminate leaves no app and no process behind, and a second one runs nothing |
| ProcRunner.ResetOnlyForAppZero | sunshine/process.cpp:49-54 | the reset happens if and only if app 0 is running |
| ProcRunner.Runner.Terminate | sunshine/process.cpp:146-185 | runs the nonempty undo commands last first, and aborts exactly if one of them fails |
| ProcRunner.Runner.Execute | sunshine/process.cpp:48-136 | has the specified effect and code, and undoes on every failure |

## Left out

- VideoSender.Session.SendFrame: of the packet headers only the sequence number, fecInfo and the block numbers are modelled; frame index, stream packet index and the start and end flags are not. `lowseq` does not overflow, the receiver, which is not part of the repository, is taken to look shards up by the fields of fecInfo, to get every datagram and to correct no errors, frames are below 2^32 bytes, DATA_SHARDS_MAX is below 1024, and the parity bytes are whatever the Reed-Solomon encoder computes.
- Packetizer.Insert: the payload is that after the fixed eight-byte frame prefix has been put before it and the key frame replacements made, which are not modelled.
- Fec.PlanMeaning: DATA_SHARDS_MAX is not defined in this repository, and the statements hold for every value of it below 2^31, for percentages of up to 255 and fewer than 2^32 data shards.
- Fec.Encode: what std::copy writes past a buffer that is too short is not modelled; the result says that it is too short.
- SeiReader.ListRoundTrip: payloads of known types are bits of their own syntax when written, and are not parsed when read.
- Sei.WriteList: the bits that the syntax of a known type writes are given, and do not depend on payload_size.
- Superframe.SuperframeIff: the 3, 2 and 3 bits of the index headers are taken together as a byte.
- TileCoder.TileInfoRoundTrip: the code that the WRITE expansion of tile_info produces is modelled, not its checks on the fields.
- Av1Coder.WriteNs: what put_bits does with a value that does not fit its width is not modelled; the status says that it happened. ReadNs and WriteNs cover n below 2^31, up to which the shift of the code is defined.
- Av1Coder.WriteSubexp: covers ranges of up to 2^31, up to which the shifts of the code are defined.
- NalReader.ExtractRbsp: the portable scan of two bytes at a time is modelled, not the word-sized one.
- NalReader.PacketSplit: length-prefixed streams (AVCC and HVCC) are not modelled.
- ThreadPool.RunInv: one critical section or notification is one step; every task that is run ends; the C++ memory model, `start` after `stop`, the `pushDelayed` overload that takes a pair, and `TaskPool::pop` with an id are not modelled.
- Rtsp.RunAccounts: one critical section is one step, the two HTTP handlers that check and raise run on one thread, and the wait of an ANNOUNCE whose event is discarded between its test and its pop is not modelled.
- ProcRunner.RunsOrderly: a failing undo command ends the program, so runs with one are not continued; a process that cannot be waited for is not modelled.
- Trace output, buffer reference counts, allocation failure, and the cached window of the bit reader.
- Sockets, ENet, Boost.Asio, HTTP, cryptography, audio, capture and encoders.
- The flag-by-flag syntax of parameter sets and slice headers, which adds only branch-local members.
