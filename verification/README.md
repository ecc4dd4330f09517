# Verified models of the duckbox driver and application core

This project models the data-handling core of a set-top-box software collection and proves what
that code is for.  Code that updates fields, buffers and arrays step by step is modelled by
classes and methods over arrays, each proved against a specification function or predicate; the
laws about those specifications are lemmas.

| module | component | main results |
|---|---|---|
| `LfsDisk`, `LfsLog`, `LfsPath`, `LfsTree` | log-structured file system: buffers, segment log, block paths, inode block tree | `LfsTree.Inode.UpdateInode`, `LfsTree.HistoryIsMap`, `LfsLog.Log.SegmentWriteBlock`, `LfsPath.BlockThenPath` |
| `LfsSegsum` | segment summary: serialiser, parser, file-info cache | `LfsSegsum.WriteThenRead`, `LfsSegsum.ImageDetermines` |
| `Rtime` | JFFS2 rtime compressor | `Rtime.CompressThenDecompress` |
| `Crc32` | table-driven CRC-32 | `Crc32.CrcIsSerial`, `Crc32.FourByteBurstDetected` |
| `PtiRing`, `PtiQueue`, `PtiDemux`, `PtiStream`, `PtiSlots` | transport stream driver: DMA ring, work queue, demultiplexer, the three together, PID table | `PtiStream.EndToEnd`, `PtiQueue.RunIsSafe`, `PtiDemux.Inject`, `PtiSlots.Slots.SetPid` |
| `Ramzswap` | compressed swap in memory | `Ramzswap.Device.ServeAll`, `Ramzswap.NewDeviceServes` |
| `Atr` | smartcard answer to reset (section 8.2 of ISO/IEC 7816-3) | `Atr.Atr.InitFromArray`, `Atr.Reparse` |
| `TimerRepeat`, `TimerEntry`, `TimerLists`, `TimerLife`, `Timer` | recording timer | `Timer.RecordTimer.CalcNextActivation`, `Timer.RecordTimer.RemoveEntry`, `Timer.RecordTimer.Run` |

`Bytes` holds the types that several modules share.  The tree and the log are proved
together: an update is safe because the log hands out only fresh blocks, and the log's promise is
phrased so that the tree can use it across the appends of the segment usage table, which may
happen at every allocation.  `dafny verify dfyconfig.toml` checks the whole project.

## Where the code falls short

Some promises of the code hold only under a condition; these lemmas and contracts give it, and for
each there is a state or run of the model in which it fails.

- A segment summary is assumed to fit one block.  `LfsSegsum.ImageSize` says exactly when it does;
  `LfsSegsum.FullSegmentDoesNotFit` shows that recording more than 122 file blocks breaks the
  assumption although a segment holds 511, and `LfsSegsum.OutgrowsItsBlock` gets there.
- The arrays of a summary have room for 64 files and 511 blocks of each, and recording tests neither.
  `LfsSegsum.SegSum.HasRoom` is the condition, and `LfsSegsum.FillsItsTable` and
  `LfsSegsum.FillsItsEntry` lead to summaries without room, the first one after only 64 blocks.
- The cache of the segment summary is one static pointer for all mounted file systems.
  `LfsSegsum.SegSum.UpdateFinfo` records a block in its own segment exactly when the cache does not
  match segment number and inode while pointing elsewhere; `LfsSegsum.ForeignCacheHit` is the other
  case.
- The work queue has no test for being full.  Runs with at most n outstanding items never throw a
  wake-up away if and only if n is below 400 (`PtiQueue.DiscardThreshold`, with the run of
  `PtiQueue.OverflowDiscards`); once 400 unclaimed items are queued, that many stay unprocessed for
  the rest of the run (`PtiQueue.LossIsForever`).
- Setting a PID keeps the PID table consistent if and only if the slot had no PID before and the
  PID is not 0xffff (`PtiSlots.Slots.SetPid`; `PtiSlots.SecondPidBreaks` and
  `PtiSlots.ReservedPidBreaks` break it).
- A recording whose service cannot be found is refused without being postponed
  (`TimerEntry.RefusalPostpones`, an equivalence), so that the activation loop tries it again at once,
  over and over, as long as look-ups fail and the clock has not reached the end of the entry
  (`TimerLists.StuckBeforeEnd`, an equivalence; `TimerEntry.NeverFound` is such an entry).  When the
  clock gets there the entry ends (`TimerLists.OverEnds`).  Apart from these tries the loop is short:
  n entries are activated at most 3n times plus 3n times for each recurrence
  (`Timer.RecordTimer.ProcessActivation`), however the clock runs.
- A repeated entry that comes round is moved and filed by a re-entrant call.  Such calls end if the
  operation does not outlast some second, however late, or if no entry is repeated; each repeated
  entry recurs at most once and once more for each second (`TimerLists.RecurrencesBounded`).  While
  the clock runs on, recurrences may follow one another without end (`TimerLists.RecursAgain`).
- The search for the next day of a repeated event ends if and only if one of the seven weekday
  bits is set (`TimerRepeat.FitsSomewhere`); with the mask 128 it does not
  (`TimerRepeat.EighthBitNeverFits`).
- A repeated event that ends exactly now counts as running only if it was not moved: moved times
  compare as earlier because their daylight-saving flag is unknown (`TimerRepeat.SearchIsMisfit`).

## Model

| member | source | states |
|---|---|---|
| LfsTree.Inode.UpdateInode | tdt/cvs/driver/logfs/tree.c:311-365 | Mapping logical block i to b: afterwards the walk returns b for i and its old answer for every other block of the file, at all four depths and whatever part of the branch was missing or lay outside the current segment; the index blocks stay an unshared tree on the log, and those on the path lie in the segment that was current or behind it; out-of-range blocks fail and change nothing |
| LfsTree.Inode.Rebuild | tdt/cvs/driver/logfs/tree.c:330-362 | The missing part of a branch is allocated and the existing part re-linked, and the result is one rebuilt path: each index block is its old content with one pointer replaced, in place in the current segment or in a fresh block |
| LfsTree.Inode.GetBranch | tdt/cvs/driver/logfs/tree.c:146-185 | The chain holds the pointers along the path up to the first zero one, whose level is returned, or all of them |
| LfsTree.Inode.AllocBranch | tdt/cvs/driver/logfs/tree.c:212-253 | Every allocated index block is zero except for the pointer to the block below it, and lies in a block that the log just handed out |
| LfsTree.Inode.LinkBranch | tdt/cvs/driver/logfs/tree.c:341-361 | From the bottom up, every existing index block gets the new pointer, in place if it lies in the current segment and as a copy otherwise |
| LfsTree.Inode.DiskBlock | tdt/cvs/driver/logfs/tree.c:275-295 | The walk returns the pointer at the end of the logical block's path, zero if any pointer on the way is zero |
| LfsTree.GraftedOnPath | tdt/cvs/driver/logfs/tree.c:311-365 | Reading along a rebuilt path yields the new pointers |
| LfsTree.GraftedOffPath | tdt/cvs/driver/logfs/tree.c:311-365 | Reading along any path that leaves the rebuilt one yields the old pointers |
| LfsTree.GraftedTreeOk | tdt/cvs/driver/logfs/tree.c:311-365 | A rebuilt path shares no index block with any other path, and each index block stays or moves to a freshly handed-out block |
| LfsTree.GraftedLookup | tdt/cvs/driver/logfs/tree.c:275-365 | Update and look-up together behave like one change of a map |
| LfsTree.GraftedUpdated | tdt/cvs/driver/logfs/tree.c:311-365 | A rebuilt path amounts to an update at one logical block, with everything outside the tree kept |
| LfsTree.GraftedRecent | tdt/cvs/driver/logfs/tree.c:330-362 | The index blocks along a rebuilt path have left the segments already written |
| LfsTree.OtherFileKept | tdt/cvs/driver/logfs/tree.c:311-365 | Updating one file changes neither the mapping nor the tree of a file whose index blocks are apart from it, and the two stay apart |
| LfsTree.UntouchedKey | tdt/cvs/driver/logfs/tree.c:146-185 | A tree whose index blocks are unchanged answers as before |
| LfsTree.HistoryIsMap | tdt/cvs/driver/logfs/tree.c:311-365 | After any run of updates of the file, among log writes and updates of other files, every logical block maps to the last disk block it was given |
| LfsTree.AsideKeeps | tdt/cvs/driver/logfs/tree.c:275-295 | Whatever leaves the index blocks of a file alone, and only lets the log and the usage table grow, keeps its tree and its whole mapping |
| LfsTree.OtherUpdateIsAside | tdt/cvs/driver/logfs/tree.c:311-365 | An update of a file with separate index blocks leaves the index blocks of this file alone |
| LfsTree.WriteData | tdt/cvs/driver/logfs/segment.c:370-399 | A data write, in place or at the log head, leaves the index blocks of every file alone unless it is aimed at one, and reads back |
| LfsTree.NewInodeEmpty | tdt/cvs/driver/logfs/tree.c:146-185 | A new inode maps nothing, along any path |
| LfsTree.MissingBelow | tdt/cvs/driver/logfs/tree.c:146-185 | Below a zero pointer every path reads as a hole |
| LfsPath.BlockToPath | tdt/cvs/driver/logfs/tree.c:75-115 | Offsets and length are the path of the block; the length is 0 exactly out of range; boundary is set exactly on the last pointer of an index block or of the direct area |
| LfsPath.LastHasNoNeighbour | tdt/cvs/driver/logfs/tree.c:75-115 | The boundary flag is set exactly if the next block has its pointer elsewhere than right behind this one |
| LfsPath.PathThenBlock | tdt/cvs/driver/logfs/tree.c:75-115 | An arithmetic inverse recovers the block number from its path |
| LfsPath.BlockThenPath | tdt/cvs/driver/logfs/tree.c:75-115 | Every well-formed path of length 1 to 4 is the path of exactly the block that the inverse gives, so paths and in-range blocks are in bijection |
| LfsPath.PathsDiverge | tdt/cvs/driver/logfs/tree.c:75-115 | Paths of different blocks are never prefixes of each other |
| LfsLog.Log.SegmentGetNextBlock | tdt/cvs/driver/logfs/segment.c:29-45 | The head moves to a block never handed out before, which is no summary block, stays inside a segment, and skips nothing but summaries and what the usage table took |
| LfsLog.Log.SegmentAllocateNew | tdt/cvs/driver/logfs/segment.c:200-212 | The next segment starts at the end of the full one; earlier data is kept; what the usage table appends lies behind the new start |
| LfsLog.Log.SegmentGetBh | tdt/cvs/driver/logfs/segment.c:283-309 | A buffer is found exactly for blocks of the current segment, and it is the buffer of that block, wherever the ring of four starts |
| LfsLog.Log.ContainsIsSegment | tdt/cvs/driver/logfs/include/lfs.h:228-231 | The current segment holds exactly the blocks with its segment number |
| LfsLog.Log.WriteAtHead | tdt/cvs/driver/logfs/segment.c:324-347 | The returned block holds the data over its old tail, block numbers only grow and none is skipped, and no other block changes except usage blocks and summaries that are still to be written |
| LfsLog.Log.SegmentWriteBlock | tdt/cvs/driver/logfs/segment.c:370-399 | Read your writes: the returned block holds the data; blocks of segments already written are never altered; a block of the current segment is rewritten in place and any other gets a new block |
| LfsLog.Log.SegmentWriteBlockFromBh | tdt/cvs/driver/logfs/segment.c:350-368 | A partial change of a buffer reads back in the returned block with the rest of the buffer around it, and only that buffer and that block change |
| LfsDisk.OverlayReads | tdt/cvs/driver/logfs/segment.c:324-347 | A copy into a buffer reads back, and the bytes around it are kept |
| LfsDisk.SetWord | tdt/cvs/driver/logfs/tree.c:212-253 | Storing one pointer of an index block leaves the other 255 alone |
| LfsSegsum.SegSum.Write | tdt/cvs/driver/logfs/segsum.c:28-59 | The serialised header, inode list and file infos land at the front of the block and the rest is kept |
| LfsSegsum.SegSum.Read | tdt/cvs/driver/logfs/segsum.c:61-122 | From any block that starts with the image of a summary exactly that summary is restored |
| LfsSegsum.WriteThenRead | tdt/cvs/driver/logfs/segsum.c:28-122 | Reading what was written restores header, inode list and every file info with both of its arrays |
| LfsSegsum.ImageDetermines | tdt/cvs/driver/logfs/segsum.c:28-122 | No block starts with the images of two different summaries |
| LfsSegsum.ImageSize | tdt/cvs/driver/logfs/segsum.c:28-59 | The size of the image, which says exactly which summaries fit one block |
| LfsSegsum.FullSegmentDoesNotFit | tdt/cvs/driver/logfs/segsum.c:28-59 | The code's assumption that a summary fits one block fails as soon as more than 122 file blocks are recorded |
| LfsSegsum.OutgrowsItsBlock | tdt/cvs/driver/logfs/segsum.c:125-171 | Recording 123 blocks of one file in a new summary, one after the other, leads to one that does not fit its block |
| LfsSegsum.FillsItsEntry | tdt/cvs/driver/logfs/segsum.c:125-171 | Recording 511 blocks of one file leads to an entry without room for another one |
| LfsSegsum.FillsItsTable | tdt/cvs/driver/logfs/segsum.c:125-171 | Recording one block each of 64 files leads to a summary without room for any other file |
| LfsSegsum.WordsCell | tdt/cvs/driver/logfs/segsum.c:84-91 | Cell i of a serialised array holds word i |
| LfsSegsum.SegSum.UpdateFinfo | tdt/cvs/driver/logfs/segsum.c:125-171 | The block is recorded in this segment exactly when the static cache is not foreign, that is, does not match segment number and inode while pointing into another mount's summary; a foreign hit records it there and leaves this summary as it was |
| LfsSegsum.SegSum.SearchAndAppend | tdt/cvs/driver/logfs/segsum.c:139-163 | Without a cache hit the file's entry is found or added and grows by the block |
| LfsSegsum.ForeignCacheHit | tdt/cvs/driver/logfs/segsum.c:130-137 | Two mounts whose current segments have the same number: a block of the second is recorded in the summary of the first |
| LfsSegsum.RecordGrows | tdt/cvs/driver/logfs/segsum.c:125-171 | Recording always changes the list it goes to |
| LfsSegsum.RecordAppends | tdt/cvs/driver/logfs/segsum.c:125-171 | Recording appends one block to one file, keeps every other file's list, and files stay distinct |
| LfsSegsum.SegSum.AddInob | tdt/cvs/driver/logfs/segsum.c:173-183 | An inode block is listed once |
| Rtime.CompressThenDecompress | tdt/cvs/hostapps/mkfs.jffs2/compr_rtime.c:29-102 | Over real arrays: the compressor accepts exactly what its encoding makes smaller; that is restored byte for byte, the decompressor reads exactly the bytes written, and the output is within dstlen |
| Rtime.RoundTrip | tdt/cvs/hostapps/mkfs.jffs2/compr_rtime.c:29-102 | Decoding the encoder's output restores the consumed prefix of any input and leaves nothing unread |
| Rtime.DecodeEncode | tdt/cvs/hostapps/mkfs.jffs2/compr_rtime.c:29-102 | From any point on at which the two position tables agree, decoder and encoder stay in step |
| Rtime.RunIsLongest | tdt/cvs/hostapps/mkfs.jffs2/compr_rtime.c:29-66 | The encoder's run equals what followed the last occurrence and cannot be extended |
| Rtime.RepeatRestoresRun | tdt/cvs/hostapps/mkfs.jffs2/compr_rtime.c:69-102 | Repeating from the last occurrence rewrites exactly the skipped run, also where it overlaps itself |
| Rtime.RepeatIsCopy | tdt/cvs/hostapps/mkfs.jffs2/compr_rtime.c:89-98 | Where the run does not reach its own output, byte-by-byte repetition equals one block copy |
| Rtime.Compress | tdt/cvs/hostapps/mkfs.jffs2/compr_rtime.c:29-66 | The array loop writes the encoding and nothing else; success exactly if it is shorter than the consumed input |
| Rtime.CompressPair | tdt/cvs/hostapps/mkfs.jffs2/compr_rtime.c:39-54 | One round: a literal, the longest run, and the table updated |
| Rtime.EqualBytesShrink | tdt/cvs/hostapps/mkfs.jffs2/compr_rtime.c:29-66 | Up to 256 equal bytes become two |
| Rtime.Decompress | tdt/cvs/hostapps/mkfs.jffs2/compr_rtime.c:69-102 | The array loop writes the decoding and nothing else, and reads exactly what belongs to it |
| Rtime.DecompressPair | tdt/cvs/hostapps/mkfs.jffs2/compr_rtime.c:79-99 | Both branches of the decoder restore the run |
| Rtime.CopyOverlapping | tdt/cvs/hostapps/mkfs.jffs2/compr_rtime.c:90-94 | The byte loop repeats bytes that it is itself writing |
| Crc32.Compute | tdt/cvs/hostapps/mkfs.jffs2/crc32.h:12-19 | The loop computes the byte-wise register for every buffer; a negative length leaves the value alone |
| Crc32.FeedbackIsShifts | tdt/cvs/hostapps/mkfs.jffs2/crc32.c:44-97 | Each of the 256 table entries is eight bit-steps of its index with polynomial 0xedb88320 |
| Crc32.ByteStepIsSerial | tdt/cvs/hostapps/mkfs.jffs2/crc32.h:12-19 | One table step is eight steps of the bit-serial register fed with the byte, low bit first |
| Crc32.CrcIsSerial | tdt/cvs/hostapps/mkfs.jffs2/crc32.h:12-19 | The table loop equals the bit-serial shift register for every buffer and initial value |
| Crc32.CrcConcat | tdt/cvs/hostapps/mkfs.jffs2/crc32.h:12-19 | The CRC of a concatenation chains |
| Crc32.CrcLinear | tdt/cvs/hostapps/mkfs.jffs2/crc32.h:12-19 | The CRC is linear over exclusive-or of equal-length messages and initial values |
| Crc32.ByteStepLinear | tdt/cvs/hostapps/mkfs.jffs2/crc32.h:12-19 | One byte step is linear in register and byte together |
| Crc32.ShiftTimesInjective | tdt/cvs/hostapps/mkfs.jffs2/crc32.c:44-97 | Any number of bit-steps is a bijection on the register |
| Crc32.SerialInjective | tdt/cvs/hostapps/mkfs.jffs2/crc32.h:12-19 | The same further input never merges two different registers |
| Crc32.BurstDetected | tdt/cvs/hostapps/mkfs.jffs2/crc32.h:12-19 | Bit strings that differ only within 32 consecutive bits, at any offset, have different CRCs |
| Crc32.FourByteBurstDetected | tdt/cvs/hostapps/mkfs.jffs2/crc32.h:12-19 | Buffers of equal length that differ only inside four consecutive bytes have different CRCs |
| PtiDemux.Inject | tdt/cvs/driver/pti/pti_main.c:373-495 | For a work item of any length and any tag, the calls for that tag concatenate to the stripped payloads of exactly its packets in order, those whose first byte has the tag in bits 2 to 5; each call carries 1 to 20 packets for an existing demultiplexer, no buffer overflows and nothing stays behind |
| PtiDemux.TagIs | tdt/cvs/driver/pti/pti_main.c:394-398 | A first byte carries tag t exactly if its low six bits are one of 4t to 4t + 3 |
| PtiDemux.SortOneKeeps | tdt/cvs/driver/pti/pti_main.c:388-483 | Sorting one more packet keeps every stream exact |
| PtiDemux.StoreKeeps | tdt/cvs/driver/pti/pti_main.c:459-481 | Storing a payload, and passing on the twentieth, keeps every stream in order |
| PtiDemux.FlushTagKeeps | tdt/cvs/driver/pti/pti_main.c:484-494 | Flushing one tag completes its stream and leaves the others alone |
| PtiDemux.PassOn | tdt/cvs/driver/pti/pti_main.c:467-480 | Handing over what was collected moves it from the buffer to the calls |
| PtiDemux.SortPacket | tdt/cvs/driver/pti/pti_main.c:388-483 | One round over the real buffers and counters does what the abstract step says |
| PtiRing.Poller.Poll | tdt/cvs/driver/pti/pti_main.c:513-606 | One or two items are queued that continue the ring from the read to the aligned write pointer, each inside the buffer, their counts summing to what the firmware is told; nothing changes while the firmware is busy or nothing is new |
| PtiRing.Forward | tdt/cvs/driver/pti/pti_main.c:552-597 | Without wrap the one item covers exactly the new packets |
| PtiRing.Around | tdt/cvs/driver/pti/pti_main.c:553-590 | With wrap the two items cover exactly the new packets |
| PtiRing.LapsContinue | tdt/cvs/driver/pti/pti_main.c:513-606 | Tiling the ring without gap or overlap is kept by every extension |
| PtiRing.Poller.HandOver | tdt/cvs/driver/pti/pti_main.c:561-599 | The new packets become one item, or two around the end of the ring, and the firmware is told their number |
| PtiRing.Poller.PollWritten | tdt/cvs/driver/pti/pti_main.c:513-606 | A poll hands over exactly the packets that the hardware has completed, unless it is a full lap ahead |
| PtiRing.WrittenAhead | tdt/cvs/driver/pti/pti_main.c:518-559 | The write pointer tells how many packets are new |
| PtiRing.ItemPlace | tdt/cvs/driver/pti/pti_main.c:579-597 | Each item holds the packets that follow those of the items before it, in their slots, without reaching beyond the end of the ring |
| PtiRing.RingBytes | tdt/cvs/driver/pti/pti_main.c:127 | The ring holds 4096 packets of 194 bytes |
| PtiStream.EndToEnd | tdt/cvs/driver/pti/pti_main.c:301-606 | In any run of poller and injector with fewer than 400 outstanding items, while the hardware keeps overwriting the ring and demultiplexers come and go between the items, each stream receives the payloads of its packets in the items processed while it had one, each once and in the order written; an item has to be processed before the hardware comes round to it again |
| PtiStream.ItemsDeliverStream | tdt/cvs/driver/pti/pti_main.c:373-495 | The items processed so far, each with the ring and the demultiplexers as they were at its moment, deliver each stream its packets in order |
| PtiStream.AllWanted | tdt/cvs/driver/pti/pti_main.c:373-495 | A stream with a demultiplexer throughout gets all packets from the first one on |
| PtiStream.ItemDelivers | tdt/cvs/driver/pti/pti_main.c:373-495 | The calls for one item carry the payloads of its packets as the hardware wrote them |
| PtiStream.ItemIntact | tdt/cvs/driver/pti/pti_main.c:373-390 | The ring still holds the packets of an item as long as the hardware has not come round to it |
| PtiStream.RingHolds | tdt/cvs/driver/pti/pti_main.c:518-522 | After any number of laps the ring holds the last bytes written, each at its place |
| PtiStream.SlotHolds | tdt/cvs/driver/pti/pti_main.c:518-522 | A packet stays in its slot until the hardware comes round to that slot |
| PtiQueue.RunIsSafe | tdt/cvs/driver/pti/pti_main.c:330-351 | In every state of every interleaving a nonempty queue has a wake-up pending; while fewer than 400 items were ever outstanding, items are processed once each and in order |
| PtiQueue.BalancedPoll | tdt/cvs/driver/pti/pti_main.c:579-597 | Each step of the poller keeps indices, counters and semaphore balanced |
| PtiQueue.BalancedInject | tdt/cvs/driver/pti/pti_main.c:330-351 | Each step of the injector keeps indices, counters and semaphore balanced |
| PtiQueue.BalancedWakesUp | tdt/cvs/driver/pti/pti_main.c:330-351 | The semaphore is at least the index distance modulo 400 whenever both sides rest |
| PtiQueue.FifoPoll | tdt/cvs/driver/pti/pti_main.c:579-597 | Queueing keeps first-in first-out order below 400 |
| PtiQueue.FifoInject | tdt/cvs/driver/pti/pti_main.c:330-351 | Taking keeps first-in first-out order below 400 |
| PtiQueue.SemaphoreCountsItems | tdt/cvs/driver/pti/pti_main.c:330-351 | Below 400 outstanding items the semaphore, the item being signalled and the wake-up in hand count the waiting items, and so do the indices |
| PtiQueue.PeakIsMaximum | tdt/cvs/driver/pti/pti_main.c:545-600 | The recorded peak is the largest number of items outstanding in any state of the run |
| PtiQueue.Drains | tdt/cvs/driver/pti/pti_main.c:331-498 | Below 400 outstanding items an injector that is left alone processes everything that has been queued |
| PtiQueue.LossIsForever | tdt/cvs/driver/pti/pti_main.c:330-351 | Once 400 unclaimed items are queued, at least 400 items stay unprocessed in the rest of every run |
| PtiQueue.LossStays | tdt/cvs/driver/pti/pti_main.c:330-351 | No step of either side gets out of the state in which 400 unclaimed items are queued |
| PtiQueue.DiscardThreshold | tdt/cvs/driver/pti/pti_main.c:335-344 | Runs with at most n outstanding items never throw a wake-up away if and only if n is below 400 |
| PtiQueue.FilledReachable | tdt/cvs/driver/pti/pti_main.c:579-597 | Every fill level is reached by some run |
| PtiQueue.OverflowDiscards | tdt/cvs/driver/pti/pti_main.c:335-344 | The bound is tight: a run with 400 outstanding items in which a wake-up is thrown away |
| PtiSlots.Slots.GetNewSlotHandle | tdt/cvs/driver/pti/pti_main.c:992-1013 | The first free slot is reserved, all before it being in use, or none was free; PIDs are untouched |
| PtiSlots.Slots.SetPid | tdt/cvs/driver/pti/pti_main.c:948-990 | The PID enters table and slot exactly if the slot is in use and the PID is new; the table stays consistent, each entry being the PID of a slot with that position, if and only if the slot had no PID before and the PID is not 0xffff; a former position is left to nobody |
| PtiSlots.Slots.StorePid | tdt/cvs/driver/pti/pti_main.c:969-975 | Entering a PID appends it to the table and gives the slot its position; every entry still has its slot if and only if the slot had none before and the PID is not the reserved one |
| PtiSlots.SecondPidBreaks | tdt/cvs/driver/pti/pti_main.c:948-990 | A new device, one slot and two PIDs for it: two entries in the table, but one slot that collects, and no slot at position 0 |
| PtiSlots.ReservedPidBreaks | tdt/cvs/driver/pti/pti_main.c:948-990 | A new device and the reserved PID: the slot has a position in the table, and looks as if it had no PID |
| PtiSlots.Slots.ClearPid | tdt/cvs/driver/pti/pti_main.c:874-916 | Swap-with-last deletion removes exactly this slot's PID and keeps all indices and PIDs matched |
| PtiSlots.Slots.SlotFree | tdt/cvs/driver/pti/pti_main.c:918-934 | Freeing clears the PID, releases the slot and nothing else |
| PtiSlots.Slots.RoomForPid | tdt/cvs/driver/pti/pti_main.c:948-990 | There are never more than 32 PIDs, and a slot without one leaves room for one |
| Ramzswap.RunIsLastWritten | tdt/cvs/driver/compcache/ramzswap.c:213-233 | After any run of requests a page is what was last written to it, zeros if that write failed, and its initial content if there was none |
| Ramzswap.StaysWritten | tdt/cvs/driver/compcache/ramzswap.c:101-208 | A page that was stored stays as it is until the next valid write to it |
| Ramzswap.NeverWritten | tdt/cvs/driver/compcache/ramzswap.c:79-99 | A page without a valid write stays as it was at first |
| Ramzswap.Device.ServeAll | tdt/cvs/driver/compcache/ramzswap.c:213-233 | The device refines an array of pages over any run of requests, and every request is answered: an invalid one fails, a read returns what was last written to its page, a write succeeds exactly if the page compresses and there is memory |
| Ramzswap.RunAnswers | tdt/cvs/driver/compcache/ramzswap.c:213-233 | Served after the requests before it, a request gets the answer that the array of pages promises |
| Ramzswap.NewDeviceServes | tdt/cvs/driver/compcache/ramzswap.c:283-395 | On a new device every write of a whole page is done exactly if the page compresses and there is memory, and is read back until the next write; page 0 reads as the swap header and other pages as zeros while they are untouched; every other request fails |
| Ramzswap.Device.MakeRequest | tdt/cvs/driver/compcache/ramzswap.c:213-233 | Invalid requests fail and change nothing, valid ones act on the page array |
| Ramzswap.Device.ReadPage | tdt/cvs/driver/compcache/ramzswap.c:101-141 | A read returns the page, zeros for a slot not in use, whether it is stored compressed or not |
| Ramzswap.Device.WritePage | tdt/cvs/driver/compcache/ramzswap.c:143-208 | A write is stored exactly if the page compresses and there is memory, compressed exactly if that makes it smaller; otherwise it fails and the page reads as zeros; no other page changes |
| Ramzswap.Device.Release | tdt/cvs/driver/compcache/ramzswap.c:155-164 | The old buffer is freed and the page becomes empty, other pages stay |
| Ramzswap.Device.Fill | tdt/cvs/driver/compcache/ramzswap.c:175-195 | A fresh buffer holds the page, compressed or not, and other pages stay |
| Ramzswap.Device.HeapIsExact | tdt/cvs/driver/compcache/ramzswap.c:101-208 | The live buffers are exactly those of the slots in use, one each |
| Ramzswap.FillConsistent | tdt/cvs/driver/compcache/ramzswap.c:175-195 | Filling a free slot keeps buffers and slots in one-to-one correspondence |
| Ramzswap.ReleaseConsistent | tdt/cvs/driver/compcache/ramzswap.c:155-164 | Freeing a slot keeps buffers and slots in one-to-one correspondence |
| Ramzswap.IndexInTable | tdt/cvs/driver/compcache/ramzswap.c:64-77 | A request is valid exactly if it is about the whole of one page of the disk as one segment, and then it indexes inside the table |
| Ramzswap.DiskSize | tdt/cvs/driver/compcache/ramzswap.c:251-281 | The device has a whole number of pages, as many as fit into the given size or into a quarter of the memory |
| Atr.Atr.InitFromArray | tdt/cvs/driver/smartcard/atr.c:63-182 | Accepted: the structure is a well-formed answer whose printed form is exactly the first `length` decoded bytes, with a check character exactly after a protocol number that is not zero; malformed: no well-formed answer starts the buffer |
| Atr.CheckCharacterThere | tdt/cvs/driver/smartcard/atr.c:144-149 | A well-formed answer has a check character exactly if the low half of its last TD byte is not zero |
| Atr.LowHalf | tdt/cvs/driver/smartcard/atr.c:147 | The parser reads the protocol number and the number of historical bytes as the remainder by 16 |
| Atr.IndicatorBits | tdt/cvs/driver/smartcard/atr.c:105-156 | An indicator announces TA, TB, TC and TD by its bits 4 to 7 |
| Atr.InvertedBits | tdt/cvs/driver/smartcard/atr.h:84-95 | Bit k of an inverted byte is bit 7 - k of the byte |
| Atr.Convention | tdt/cvs/driver/smartcard/atr.c:72-82 | A first byte of 3 is read as 3F and every other byte with its bits reversed and complemented; any other first byte leaves the buffer as it is |
| Atr.Atr.GetRaw | tdt/cvs/driver/smartcard/atr.c:401-437 | The printer emits the printed form of the answer that the structure holds |
| Atr.Reparse | tdt/cvs/driver/smartcard/atr.c:63-437 | Parsing what was printed for an accepted buffer is accepted and yields the same answer, in both conventions |
| Atr.PrintedIsAccepted | tdt/cvs/driver/smartcard/atr.c:63-182 | The printed form is in the direct convention and starts no other answer |
| Atr.Unambiguous | tdt/cvs/driver/smartcard/atr.c:84-182 | A buffer starts at most one well-formed answer |
| Atr.OpenRowsAgree | tdt/cvs/driver/smartcard/atr.c:96-157 | Any answer that a buffer starts with has the rows read so far |
| Atr.AllRowsAgree | tdt/cvs/driver/smartcard/atr.c:96-157 | Two answers that start a buffer have the same interface bytes |
| Atr.RowMissing | tdt/cvs/driver/smartcard/atr.c:99-103 | A buffer that ends inside announced interface bytes starts no answer |
| Atr.TailMissing | tdt/cvs/driver/smartcard/atr.c:162-178 | A buffer that ends before the historical bytes or the check character starts no answer |
| Atr.AnswerRow | tdt/cvs/driver/smartcard/atr.c:96-157 | Each row is announced by its predecessor, and exactly the last one has no TD |
| Atr.Atr.ReadRow | tdt/cvs/driver/smartcard/atr.c:105-156 | Exactly the announced bytes are stored, in order, with the others marked absent |
| Atr.NumIbIsAnnounced | tdt/cvs/driver/smartcard/atr.c:40 | The 16-entry table counts the bits of the indicator |
| Atr.DecodeTwice | tdt/cvs/driver/smartcard/atr.h:84-95 | Inverting the convention twice gives the byte back |
| Timer.RecordTimer.CalcNextActivation | tdt/cvs/apps/enigma2-nightly/timer.py:209-232 | Re-entrant recalculation ends, for a clock that runs on in any way if no entry is repeated, and up to any last second otherwise. It activates at most 3n(1 + recurrences) times for n entries, besides stuck activations, and each repeated entry recurs at most once, and once more for each second that passes; every entry only goes through stages of its life, after a clock set back all processed ones have started over, nothing is due in the second it began, and the wake-up is the first pending activation or 100 seconds ahead |
| Timer.RecordTimer.ProcessActivation | tdt/cvs/apps/enigma2-nightly/timer.py:276-282 | The activation loop, whose bound t is fixed when it begins, ends and leaves no pending entry that was due then; entries only go through stages of their lives, and the bound on the activations does not depend on how far the clock runs |
| Timer.RecordTimer.DoActivate | tdt/cvs/apps/enigma2-nightly/RecordTimer.py:459-486 | One activation, through all branches including the re-entrant one, keeps the lists in order and leaves less to do before t unless it is stuck. Given the answer of the outside world it says what becomes of the entry, repeated or not, and nothing happens to the others before it has been filed; a repeated entry that has ended is filed as its next occurrence, on a selected weekday, ending later, and waiting unless it is disabled or over, and it is pending on return unless its time has come. A waiting entry ends once the clock has reached its end and is stuck only before; then the first pending entry is as due as before |
| Timer.RecordTimer.AddTimerEntry | tdt/cvs/apps/enigma2-nightly/timer.py:163-179 | An entry that is in no list is filed, and then everything due is activated, while every entry only goes through stages of its life; the lists stay in order, an aborted entry does not become pending, and the wake-up stays in time |
| Timer.RecordTimer.File | tdt/cvs/apps/enigma2-nightly/timer.py:163-179 | A repeated entry is moved; then the entry goes to the processed list exactly when it has ended, waits while disabled, or is over before it began, and else to its place among the pending ones |
| Timer.RecordTimer.ProcessAgain | tdt/cvs/apps/enigma2-nightly/timer.py:210-217 | After the clock was set back every processed entry starts over and is filed again, no other entry changes, and none is lost or doubled |
| Timer.RecordTimer.ComputeNext | tdt/cvs/apps/enigma2-nightly/timer.py:219-232 | The wake-up is no later than any pending activation and no more than 100 seconds away |
| Timer.RecordTimer.TimeChanged | tdt/cvs/apps/enigma2-nightly/timer.py:234-245 | An edited entry is found where its state says and filed again with its preparation planned anew, an ended one as waiting; if its preparation and its end lie ahead it is pending and waits on return; other entries only move forward |
| Timer.RecordTimer.Edit | tdt/cvs/apps/enigma2-nightly/timer.py:234-245 | The same for an entry with new times and weekdays |
| Timer.RecordTimer.Recur | tdt/cvs/apps/enigma2-nightly/RecordTimer.py:478-482 | A repeated entry that has ended is moved, waits, and is filed; then everything due is activated |
| Timer.RecordTimer.Renew | tdt/cvs/apps/enigma2-nightly/RecordTimer.py:478-480 | The entry is moved to its next occurrence and waits |
| Timer.RecordTimer.RemoveEntry | tdt/cvs/apps/enigma2-nightly/RecordTimer.py:728-752 | The final removal never fails: an aborted entry in any state has run through its remaining states; afterwards it is in neither list and all other entries, with their settings, are in exactly one. Before the other recordings are extended, entries only go through stages of their lives |
| Timer.RecordTimer.ExtendOthers | tdt/cvs/apps/enigma2-nightly/RecordTimer.py:745-749 | Step k of the loop over the changing list is about the entry that is then the k-th pending one, extends it exactly if it is open-ended and has room, and files it again; the loop ends after as many steps as there are entries left, and never makes the aborted entry pending again |
| Timer.RecordTimer.Extend | tdt/cvs/apps/enigma2-nightly/RecordTimer.py:745-749 | One step: the entry is extended if it is open-ended and has room, and filed again |
| Timer.RecordTimer.Record | tdt/cvs/apps/enigma2-nightly/RecordTimer.py:646-664 | A new entry is filed with its preparation planned; if its preparation and its end lie ahead it is pending and waits on return |
| Timer.RecordTimer.Run | tdt/cvs/apps/enigma2-nightly/timer.py:163-282 | Any run of additions, wake-ups, edits, removals and clock changes keeps the quiescent state in order; the known entries are then the old and the added ones without the removed ones, as many as the operations say, and all but the edited ones keep their settings |
| Timer.RecordTimer.Perform | tdt/cvs/apps/enigma2-nightly/timer.py:163-282 | Each operation adds one new entry, removes the one it names, or keeps the known ones; a wake-up leaves nothing due and lets entries only go through stages of their lives |
| Timer.AccountedOn | tdt/cvs/apps/enigma2-nightly/timer.py:163-282 | The account of additions and removals carries on over one more operation |
| TimerLife.StagesChain | tdt/cvs/apps/enigma2-nightly/timer.py:163-282 | Stages of one life follow one another: a due entry is activated or skipped, and renewed if it is repeated and has ended; an ended one starts over after the clock was set back |
| TimerLife.NotYet | tdt/cvs/apps/enigma2-nightly/timer.py:276-282 | An entry whose time has not come goes through no stage |
| TimerLife.Untouched | tdt/cvs/apps/enigma2-nightly/timer.py:276-282 | An unfinished entry that is still not due afterwards has not changed |
| TimerLife.EvolvesChain | tdt/cvs/apps/enigma2-nightly/timer.py:163-282 | Lives of all entries follow one another |
| TimerLife.RenewedIsNext | tdt/cvs/apps/enigma2-nightly/RecordTimer.py:478-482 | A renewed entry is the next occurrence: on a selected weekday, not before its first date, ending after the old one ended, and waiting unless it is disabled or over |
| TimerLife.StartedOverEvolves | tdt/cvs/apps/enigma2-nightly/timer.py:210-217 | Starting over is a stage of life if the clock was set back |
| TimerLife.FiledAhead | tdt/cvs/apps/enigma2-nightly/timer.py:163-179 | An enabled entry whose preparation and end lie ahead waits unchanged |
| TimerLists.ExactlyOnce | tdt/cvs/apps/enigma2-nightly/timer.py:163-282 | In a quiescent state every entry is in exactly one of the two lists, and only once |
| TimerLists.ActivationPays | tdt/cvs/apps/enigma2-nightly/RecordTimer.py:459-486 | An activation that is not stuck lowers the work left before t: three activations for each waiting entry, two for a prepared and one for a running one |
| TimerLists.RecurrencePays | tdt/cvs/apps/enigma2-nightly/RecordTimer.py:478-482 | A recurrence and all activations of its re-entrant call are paid for, and leave less to do before t |
| TimerLists.RoundsBounded | tdt/cvs/apps/enigma2-nightly/timer.py:276-282 | At most 3n(1 + recurrences) activations for n entries, besides the stuck ones |
| TimerLists.PlainRounds | tdt/cvs/apps/enigma2-nightly/timer.py:276-282 | With no repeated entry: at most three activations for each entry, besides the stuck ones |
| TimerLists.RecurrencesBounded | tdt/cvs/apps/enigma2-nightly/RecordTimer.py:478-482 | Each repeated entry recurs at most once, and once more for each second that passes |
| TimerLists.Nearer | tdt/cvs/apps/enigma2-nightly/RecordTimer.py:478-482 | A recurrence uses up an early entry or a second, which is what ends the re-entrant calls |
| TimerLists.RecursAgain | tdt/cvs/apps/enigma2-nightly/RecordTimer.py:478-482 | Without a last second recurrences need not end: any pending repeated entry that is enabled may be due when it is over, end, be moved and be filed as pending again |
| TimerLists.OverEnds | tdt/cvs/apps/enigma2-nightly/RecordTimer.py:462-463 | A due waiting entry whose end the clock has reached ends and is not stuck; it is stuck only before its end |
| TimerLists.StuckBeforeEnd | tdt/cvs/apps/enigma2-nightly/RecordTimer.py:166-182 | A preparation is stuck if and only if it is a recording whose service is not found and the clock has not reached its end |
| TimerLists.ActivationPasses | tdt/cvs/apps/enigma2-nightly/RecordTimer.py:224-310 | An activated entry advances, or is postponed beyond the current second, or is stuck in its state; the end of a plain entry never moves |
| TimerLists.StepChains | tdt/cvs/apps/enigma2-nightly/timer.py:163-282 | While the clock runs forward, no entry returns to an earlier state unless it is repeated |
| TimerLists.ResetProgress | tdt/cvs/apps/enigma2-nightly/timer.py:210-217 | An aborted entry survives a clock set back without becoming pending |
| TimerLists.FinishingIsDue | tdt/cvs/apps/enigma2-nightly/RecordTimer.py:728-752 | No aborted entry is pending after a recalculation |
| TimerLists.AbortedEnds | tdt/cvs/apps/enigma2-nightly/RecordTimer.py:728-740 | An aborted entry in any state is either skipped at once or only has to run through its states |
| TimerLists.TakeChanged | tdt/cvs/apps/enigma2-nightly/timer.py:237-240 | An entry is in the list that its state names, and only there |
| TimerLists.Drop | tdt/cvs/apps/enigma2-nightly/RecordTimer.py:750-751 | Dropping a processed entry leaves the rest in order |
| TimerLists.Insort | tdt/cvs/apps/enigma2-nightly/timer.py:174-177 | Binary search inserts in order, behind entries that are due at the same time, and adds exactly the entry |
| TimerLists.WithoutSorted | tdt/cvs/apps/enigma2-nightly/RecordTimer.py:471 | Removing an entry keeps the order of the others |
| TimerLists.FirstIsLeast | tdt/cvs/apps/enigma2-nightly/timer.py:225-228 | The first pending entry has the earliest activation |
| TimerEntry.RefusalPostpones | tdt/cvs/apps/enigma2-nightly/RecordTimer.py:224-284 | A refused activation leaves the current second if and only if the service was found; otherwise the entry stays exactly as due as it was |
| TimerEntry.NeverFound | tdt/cvs/apps/enigma2-nightly/RecordTimer.py:166-182 | A new entry whose preparation is due may be tried any number of times without success, at any moment before its end: each try leaves it as it is, and due |
| TimerEntry.Occurs | tdt/cvs/apps/enigma2-nightly/timer.py:51-96 | A repeated entry with a valid mask always has a next occurrence, which ends later |
| TimerEntry.MovedEndsLater | tdt/cvs/apps/enigma2-nightly/timer.py:51-96 | A moved entry is on a selected weekday, not before its first date, ends after now (or begins after now when running events do not count), and no earlier day qualifies |
| TimerEntry.Entry.ProcessRepeated | tdt/cvs/apps/enigma2-nightly/timer.py:51-96 | Begin and end move by the same least number of days, whether or not a running event counts; an empty event gets one second |
| TimerEntry.Entry.Activate | tdt/cvs/apps/enigma2-nightly/RecordTimer.py:224-310 | What each state accepts, refuses or extends, with its backoff, for every answer of the outside world |
| TimerEntry.Entry.TryPrepare | tdt/cvs/apps/enigma2-nightly/RecordTimer.py:166-213 | Preparation succeeds exactly for a mere channel change or if the service is found and can be prepared; it fails for want of a service without postponing, and else postpones |
| TimerEntry.Entry.SetAutoincreaseEnd | tdt/cvs/apps/enigma2-nightly/RecordTimer.py:312-332 | An open-ended recording is extended exactly if the room for it, up to thirty seconds before the first conflicting entry or for a day, is not over |
| TimerEntry.Entry.Abort | tdt/cvs/apps/enigma2-nightly/timer.py:113-121 | An aborted entry ends now and does not begin later |
| TimerEntry.Rec.BackedOff | tdt/cvs/apps/enigma2-nightly/RecordTimer.py:215-222 | Backoff starts at five seconds and never passes a hundred |
| TimerRepeat.FindDay | tdt/cvs/apps/enigma2-nightly/timer.py:67-84 | The day loop ends at the least shift that qualifies |
| TimerRepeat.FitsSomewhere | tdt/cvs/apps/enigma2-nightly/timer.py:77-84 | The day loop ends if and only if some weekday is selected |
| TimerRepeat.FirstFitExists | tdt/cvs/apps/enigma2-nightly/timer.py:77-84 | With a weekday selected there is a least shift that qualifies |
| TimerRepeat.EighthBitNeverFits | tdt/cvs/apps/enigma2-nightly/RecordTimer.py:438 | The mask 128, which the timer file may hold, lets the search for a day go on for ever |
| TimerRepeat.SearchIsMisfit | tdt/cvs/apps/enigma2-nightly/timer.py:77-80 | The loop condition, with its comparison of broken-down times, says exactly that the day does not qualify; an event that ends now counts as running only if it was not moved |
| TimerRepeat.FirstFitUnique | tdt/cvs/apps/enigma2-nightly/timer.py:77-84 | The shift is determined |
| TimerRepeat.FirstFitIsStable | tdt/cvs/apps/enigma2-nightly/timer.py:77-84 | Moving twice at the same moment is moving once |
| TimerRepeat.OneDayLater | tdt/cvs/apps/enigma2-nightly/timer.py:43-48 | With a fixed zone offset a calendar day is always 86400 seconds and the two-day branch is never taken |
| TimerRepeat.WeekdayAfter | tdt/cvs/apps/enigma2-nightly/timer.py:77-84 | Weekdays advance with the days |
| TimerRepeat.KnownWeekdays | tdt/cvs/apps/enigma2-nightly/timer.py:77-78 | Weekdays count from Monday: 1 January 1970 was a Thursday, 1 January 2010 a Friday |
| TimerRepeat.Days | tdt/cvs/apps/enigma2-nightly/timer.py:67-75 | The list built from the mask marks exactly the selected days |
| TimerRepeat.SomeDay | tdt/cvs/apps/enigma2-nightly/timer.py:36-37 | A nonzero seven-bit mask selects a day |

## Left out

- LfsTree.Inode.UpdateInode: an index block that cannot be read and a branch that changes while it is walked (errors -EIO and -EAGAIN) are not modelled; reads always succeed, and one thread works on the file system
- LfsTree.Inode.GetBranch: the same errors
- LfsTree.Inode.DiskBlock: a block number out of range, for which the C code reads offsets that were never set
- LfsSegsum.SegSum.UpdateFinfo: a 65th file in one summary and a 512th block of one file, which the C code writes past its arrays; a cache that still points into a summary that was freed
- LfsSegsum.SegSum.SearchAndAppend: the same 65th file and 512th block
- LfsTree.HistoryIsMap: snapshots, which would let two trees share index blocks, are not part of this model
- LfsLog.Log.UsageUpdate: the content of the segment usage table is left open; its calls are any number of appends and rewrites of its own blocks, at most `maxUsage` each time
- LfsLog.Log.SegmentAllocateNew: the choice of the next segment is the following one, so the device does not wrap; the summary that is written for the full segment may have any content, because it may not fit; the per-segment state and the ring of sixteen segments are not modelled
- LfsTree.Inode.LinkBranch: the log must stay below 2^31 blocks, because the code keeps block numbers in an int
- page cache eviction, write-back order, file writes, directories, the cleaner ioctl
- Rtime.Compress: inputs over 32767 bytes and output space under two bytes, which the C code handles with overflowing arithmetic
- Rtime.Decompress: input that ends early or whose last run has no room in the output; the C code checks neither
- Crc32.FeedbackIsShifts: the table is written as sixteen rows of sixteen entries instead of one array of 256
- PtiRing.Poller.Poll: the reset of the DMA engine after discarded packets, the status registers and the firmware words other than the packet count
- PtiQueue.RunIsSafe: a step of the model is one access to a shared index or the semaphore; the memory order of the processor is taken as sequential
- PtiDemux.Inject: the SPARK7162 retagging, the stream checks and the build without `__TDT__`; the static buffers are parameters
- PtiStream.EndToEnd: the ring is seen as it is at one moment per item; by `PtiStream.SlotHolds` the item's part of it does not change as long as the hardware stays behind; the demultiplexers do not come or go while an item is processed
- PtiSlots.Slots.SetPid: a PID for a slot when all 32 entries of the table are taken, which the C code writes past the table
- PtiSlots.Slots.GetNewSlotHandle: the stream context that the slot is tied to, and the transport controller's own tables
- Ramzswap.Device.ReadPage: LZO is any compressor with an inverse; cache flushes, the lock and the LZO output bound are not modelled; the bytes of the swap header are a parameter
- Atr.Atr.InitFromArray: chains of more than six TD bytes, for which the array of protocols has no room; the getters of single parameters
- TimerEntry.Clock.Time: within one operation the clock does not run backwards; if there is a last second the clock does not pass it, which an operation on repeated entries needs in order to end; between operations the clock and its budget may be set to anything
- TimerEntry.Entry.TryPrepare: the recording service is any sequence of successes and failures, except that during one operation look-ups of services fail only finitely often, any number of times; file names and the programme guide are not modelled
- TimerEntry.Entry.SetAutoincreaseEnd: which entry is in conflict is left open, so it may begin at any moment; during one operation that is off the whole second only finitely often, any number of times
- TimerRepeat.OneDayLater: the zone has a fixed offset; changes of daylight saving are not modelled
- Timer.RecordTimer.Run: an edit changes begin, end and the seven weekday bits, and the clock is set only between operations, to any moment and with any last second for the operations that follow
- Timer.RecordTimer.DoActivate: callbacks on state changes do not touch the timer; the base class version, which removes the entry before activating it, is not modelled
- Timer.RecordTimer.Record: the check for conflicting and double timers, and saving the list
- Timer.RecordTimer.ProcessActivation: every activation gets some answer of the outside world, found, prepared and free of conflicts or not; which one it gets is left open
- Timer.RecordTimer.CalcNextActivation: the system timer that is started with the computed delay
- cleaning up processed timers, loading and saving them, and the look-up of an event in the timer list
- LZO and zlib internals, display, tuner, audio and video drivers, skins, dialogs and input handling
