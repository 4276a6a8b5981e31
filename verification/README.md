# Verified model of the WebX engine's core

WebX Engine mirrors an X11 desktop to many remote clients. This project models the parts of it where a
mistake is silent, and proves what they promise, for every input and every run:

- **Checksums** (`Crc32*.dfy`). The engine decides by CRC-32 whether an image or a window shape has changed.
  Ten C++ routines compute it; each is a method here, with the loops of the original, and each is proved equal
  to one definition, a register clocked once per bit. The definition is in turn proved to be the frame check
  sequence of ITU-T V.42, section 8.1.1.6.2, stated as long division of polynomials, and to detect every error
  burst of up to 32 bits. The lookup tables are given by the recurrence that the source states for them.
- **Window coverage** (`Rectangles`, `WindowCoverage`, `CoverageGeometry`, `SweepLine`). A sweep line over
  sorted window edges computes how much of a window is covered and whether the mouse is on its visible part.
  The reference is a count of cells in a union of rectangles.
- **Damage** (`WindowDamage`, `ClientWindows`). Damaged rectangles are merged by in-place erasure, and handed
  over to an update handler at a limited rate.
- **Clients** (`ClientIndices`, `Clients`, `ClientGroups`, `ClientRegistry`). Clients hold one-bit indices in a
  64-bit mask, belong to quality groups, and are pinged.
- **Logging** (`CircularQueue`, `BlockingQueue`, `ThreadPool`). A ring buffer refines a bounded queue with
  three overflow policies; a pool of workers drains it and is shut down through it.
- **Messages** (`BinaryBuffer`, `PriorityQueue`). Aligned typed fields in a byte buffer with 32-bit offsets,
  and the queue of messages to publish.
- **Data buffer** (`Words`, `PowersOfTwo`, `DataBuffer`). Amortised growth by a bit trick on 64-bit words.

Objects that the source updates in place are classes with a `Valid()` invariant. A public operation that runs
under a lock is one atomic method; a wait on a condition variable is a precondition of the step it waits for.
An invariant kept by every method therefore holds in every run. Time comes from a clock whose readings never
decrease (`Clocks`), in whole microseconds.

## What is false of the code, and exactly when it holds

- The covered area is exact if and only if no window reaches below y = 0 inside the base and no two that share
  a column strictly nest there. Otherwise it is too small, by exactly the cells below y = 0 and, for every column
  and every interval of it, as many cells as that ends below the highest earlier end; it can be negative.
- The mouse test is right unless the mouse is below y = 0 and hidden there: then the function reports it as
  visible. Such a mouse is an input of the function; the engine's own pointer coordinates are replaced by those
  the X server reports as soon as it reads them again (`src/display/input/WebXMouse.cpp:19-26`).
- The merging of damage is a single pass. It leaves separate areas separate if and only if the growing box never
  comes to touch an area that it had already passed. Nothing is lost in either case.
- After a typed write overflows, all later writes fail if and only if no field that could fit at all comes to
  stand on a full turn of the 32-bit offset, or passes one. A failing write that ends on 2^32 makes the next one
  overwrite the header. Writes succeed just when the fields fit, for all lists of fields, if and only if the
  buffer is at most 2^32 - 8 bytes long.
- A data buffer whose growth cannot be allocated loses its contents, and is left with a size and a capacity that
  it does not have. It stays consistent if and only if nothing had been allocated before.
- `upperPowerOfTwo` has no step for the upper half of the word. It is right up to 2^32, and beyond exactly when
  no 32 consecutive bits are clear below the highest bit of v - 1. 2^33 + 1 is a value it fails for.
- A pool whose queue holds nothing never shuts down; one whose queue holds anything always does. This needs
  that nobody posts during the shutdown, which the `weak_ptr` of every logger sees to
  (`lib/spdlog/async_logger-inl.h:35-47`). Without it the shutdown still completes after a late post, unless
  that overruns a terminate message; there is one to overrun only with at least as many threads as queue slots.
- The guard of the prefetching checksum leaves a whole block to read if and only if the sum of block size and
  look-ahead does not wrap.
- `disconnectAll` forgets the clients but keeps their bits in the mask. Clients are refused if and only if the
  registered clients and the indices so lost are 64 in all; a registry without clients can refuse everyone.

Where code and comments disagree the model follows the code: `hasClients` is true for an empty group
(`src/controller/client/WebXClientGroup.h:97`); `setClientMaxQuality` moves a client to its new limit even from a
lower quality (`src/controller/client/WebXClientRegistry.cpp:98`); `enqueue_nowait` overruns the oldest item and
returns nothing (`lib/spdlog/details/mpmc_blocking_q.h:8`); damage is reset even when the update handler fails
(`src/controller/client/WebXClientGroup.cpp:77`).

## Model

| member | source | states |
|---|---|---|
| Crc32.BitStepLinear | lib/crc32/Crc32.cpp:95 | one clock of the register is linear over xor |
| Crc32.BitUnstepStep | lib/crc32/Crc32.cpp:95 | a clock can be undone: the top bit tells whether the polynomial went in |
| Crc32.BitStepUnstep | lib/crc32/Crc32.cpp:95 | every register value is reached, so a clock is a bijection |
| Crc32.UpdateInjective | lib/crc32/Crc32.cpp:83-106 | the same data drives different registers to different ones |
| Crc32.UpdatePacked | lib/crc32/Crc32.cpp:83-106 | up to four bytes can be xored in as one word before the register is clocked |
| Crc32.ChecksumConcat | lib/crc32/Crc32.cpp:83-106 | the checksum of A then B is that of B with A's as previous value |
| Crc32Fast.Bitwise | lib/crc32/Crc32.cpp:83-106 | the bitwise routine returns the checksum for all data and previous values |
| Crc32Fast.HalfLookupIsSteps | lib/crc32/Crc32.cpp:115-120 | the 16 literals of the half-byte table are four clocks of each nibble |
| Crc32Fast.HalfByte | lib/crc32/Crc32.cpp:110-130 | the half-byte routine returns the same checksum |
| Crc32Fast.Remaining | lib/crc32/Crc32.cpp:140-141 | the byte loop continues a register over the rest of the data |
| Crc32Fast.OneByte | lib/crc32/Crc32.cpp:135-144 | the byte-table routine returns the same checksum |
| Crc32Fast.MultipliedIsLookup | lib/crc32/Crc32.cpp:149-199 | the multiplications by constants, carries and all, compute the byte table |
| Crc32Fast.Tableless | lib/crc32/Crc32.cpp:149-199 | the first tableless routine returns the same checksum |
| Crc32Fast.MaskedIsSteps | lib/crc32/Crc32.cpp:203-225 | the eight sign masks compute eight clocks |
| Crc32Fast.Tableless2 | lib/crc32/Crc32.cpp:203-225 | the second tableless routine returns the same checksum |
| Crc32Tables.LookupIsSteps | lib/crc32/Crc32.cpp:539-551 | table k of the recurrence holds every byte clocked 8(k+1) times |
| Crc32Tables.SwapLoad | lib/crc32/Crc32.cpp:50-60 | `swap` turns a little-endian word into the big-endian one of the same memory |
| Crc32Tables.WordLookupOrder | lib/crc32/Crc32.cpp:230-261 | on either byte order the four lookups of a word come to the same |
| Crc32Tables.WordLookupIsSteps | lib/crc32/Crc32.cpp:230-261 | four lookups in tables k to k+3 clock a word 8(k+4) times |
| Crc32Slicing.UpdateAffine | lib/crc32/Crc32.cpp:230-510 | the register's share of an update separates from the data's |
| Crc32Slicing.Block8IsUpdate | lib/crc32/Crc32.cpp:275-297 | the xor of a block's eight lookups feeds its eight bytes, on either byte order |
| Crc32Slicing.Block16IsUpdate | lib/crc32/Crc32.cpp:376-426 | the xor of a block's sixteen lookups feeds its sixteen bytes, on either byte order |
| Crc32Slicing.Bytes4 | lib/crc32/Crc32.cpp:230-261 | slicing by 4 returns the same checksum |
| Crc32Slicing.Bytes8 | lib/crc32/Crc32.cpp:267-308 | slicing by 8 returns the same checksum |
| Crc32Slicing.Bytes4x8 | lib/crc32/Crc32.cpp:312-361 | unrolled slicing by 8 returns the same checksum |
| Crc32Slicing.Bytes16 | lib/crc32/Crc32.cpp:367-434 | slicing by 16, also the fast default, returns the same checksum |
| Crc32Slicing.Bytes16Prefetch | lib/crc32/Crc32.cpp:438-510 | slicing by 16 with prefetch returns the same checksum for every look-ahead that does not wrap |
| Crc32Slicing.PrefetchGuardLeavesBlock | lib/crc32/Crc32.cpp:446-450 | the loop guard leaves a whole block for every length if and only if its sum does not wrap |
| Crc32Bits.EqualEndings | lib/crc32/Crc32.cpp:83-106 | two inputs of at most 32 bits that end in one register differ just as the registers they start from |
| Crc32Bits.BurstDetected | lib/crc32/Crc32.cpp:83-106 | inputs that differ only within 32 consecutive bits have different checksums |
| Crc32Bits.FourBytesDetected | lib/crc32/Crc32.cpp:83-106 | so have inputs that differ only within four consecutive bytes |
| Crc32Division.PolynomialBits | lib/crc32/Crc32.cpp:47 | the constant is the generator polynomial, reflected |
| Crc32Division.BitUpdateIsRemainder | lib/crc32/Crc32.cpp:83-106 | the register holds the remainder of long division by the generator |
| Crc32Division.ChecksumIsFrameCheckSequence | lib/crc32/Crc32.cpp:83-106 | a checksum from 0 is the frame check sequence of ITU-T V.42, section 8.1.1.6.2 |
| SweepLine.SortEvents | src/models/WebXWindowCoverage.h:88-89 | sorting arranges the events by x, in some order among equals |
| SweepLine.LeaveFindsInterval | src/models/WebXWindowCoverage.h:124-129 | every leave event finds its interval among the active ones, whatever the order of ties |
| SweepLine.StripActive | src/models/WebXWindowCoverage.h:93-129 | between events the active intervals are those of the rectangles entered and not left |
| SweepLine.SeenIffTouched | src/models/WebXWindowCoverage.h:103-118 | the test by gaps finds the mouse on an interval exactly when some active interval holds it |
| SweepLine.SweepStrip | src/models/WebXWindowCoverage.h:101-122 | the inner loops add the covered cells of the strip from y = 0 up, less what nesting costs, and look for the mouse |
| SweepLine.Sweep | src/models/WebXWindowCoverage.h:91-130 | over all strips the loop sums the area, and finds the mouse, with any arrangement of ties |
| SweepLine.OverlapCalc | src/models/WebXWindowCoverage.h:74-133 | the coverage is the number of covered cells less the shortfall, over the area of the window; at most 1, and exact if and only if `AreaExact`; the mouse is over exactly when it is in the base and, unless below y = 0, in no rectangle that overlaps it, nested ones included |
| SweepLine.NestedWindowsUndercount | src/models/WebXWindowCoverage.h:102-118 | a fully covered window of 10 cells for which the code reports -4 |
| SweepLine.HiddenBelowZero | src/models/WebXWindowCoverage.h:102-118 | the function answers that a mouse at y = -5 on a wholly covered window is over it |
| CoverageGeometry.HeightShortfall | src/models/WebXWindowCoverage.h:102-118 | in a column the code misses for each interval, in order, as many cells as it ends below the highest earlier end |
| CoverageGeometry.ShortfallUpTo | src/models/WebXWindowCoverage.h:91-132 | over the columns the summed area is the covered cells less those below y = 0 and those so missed |
| CoverageGeometry.HeightAgainstUnion | src/models/WebXWindowCoverage.h:102-118 | the code's height of a column never exceeds its covered cells, and when it equals them |
| CoverageGeometry.SweptAreaAgainstCells | src/models/WebXWindowCoverage.h:91-132 | the summed area is the number of covered cells less the shortfall, which is 0 if and only if `AreaExact` |
| Rectangles.TouchIffSharePoint | src/models/WebXRectangle.h:88-94 | rectangles overlap or touch exactly when the closed rectangles have a point in common |
| Rectangles.OverlapIffShareCell | src/models/WebXRectangle.h:96-102 | rectangles overlap exactly when they have a cell in common |
| WindowDamage.HasDamageIff | src/models/WebXWindowDamage.h:145-147 | there is damage exactly when some cell is damaged |
| WindowDamage.ExtendBounds | src/models/WebXRectangle.h:134-151 | `operator+=` makes the bounding box of all that either side bounds |
| WindowDamage.BoundingBoxLeast | src/models/WebXRectangle.h:134-151 | whatever rectangle holds the members holds their bounding box |
| WindowDamage.PassPartition | src/models/WebXWindowDamage.h:162-182 | one merging pass keeps some classes and swallows the rest |
| WindowDamage.AccumulatedPartition | src/models/WebXWindowDamage.h:70-87 | over any run the window is reported full, or the list is the bounding boxes of a partition of all rectangles added |
| WindowDamage.NoCellLost | src/models/WebXWindowDamage.h:70-87 | no damaged cell of any run is lost |
| WindowDamage.KeptMembers | src/models/WebXWindowDamage.h:170-179 | just those areas stay in place that do not touch the box as it comes by |
| WindowDamage.KeptApart | src/models/WebXWindowDamage.h:170-179 | that is, areas without a point in common with the box as it comes by |
| WindowDamage.MergeSeparatedIff | src/models/WebXWindowDamage.h:162-182 | a pass leaves separate areas separate if and only if the box never grows into an area it had passed |
| WindowDamage.PassLeavesTouchingAreas | src/models/WebXWindowDamage.h:162-182 | a pass over two separate areas that leaves two touching |
| WindowDamage.WindowDamage.AddRectangle | src/models/WebXWindowDamage.h:162-182 | the erasing loop ends, and leaves the merged list: in front just the areas without a point in common with the box as it came by |
| WindowDamage.WindowDamage.Add | src/models/WebXWindowDamage.h:70-87 | `operator+=` adds the other damage, one rectangle at a time; adding to itself wherever that does not go through the list |
| WindowDamage.WindowDamage.Reset | src/models/WebXWindowDamage.h:152-155 | no damage is left |
| WindowDamage.WindowDamage.IsFullWindow | src/models/WebXWindowDamage.h:110-119 | full by flag, or by one area of the window's size |
| WindowDamage.TotalAreaConcat | src/models/WebXWindowDamage.h:133-139 | the damaged area adds up over any split of the list, width times height for each area |
| WindowDamage.WindowDamage.DamagedArea | src/models/WebXWindowDamage.h:133-139 | the loop sums the areas listed |
| ClientWindows.GroupWindows.AnyTwoSent | src/controller/client/WebXClientWindow.h:163-165 | two images of a window are more than the update time of the later one apart, also if the window disappeared in between |
| ClientWindows.ClientWindow.AddDamage | src/controller/client/WebXClientWindow.h:86-88 | damage added since the last reset stays covered |
| ClientWindows.ClientWindow.OnImageTransfer | src/controller/client/WebXClientWindow.h:219-230 | a transfer is recorded and keeps its distance; a full image also sets the checksums |
| ClientWindows.GroupWindows.AddWindowDamage | src/controller/client/WebXClientGroup.h:111-125 | damage reaches just its window; if there is none it is created, with the quality of the group |
| ClientWindows.GroupWindows.RemoveInvisible | src/controller/client/WebXClientGroup.cpp:17-24 | just the visible windows are kept |
| ClientWindows.GroupWindows.Show | src/controller/client/WebXClientGroup.cpp:27-41 | a listed window takes size and shape checksum from the entry; a new one also has the quality of the group, nothing to deliver, and a refresh time read meanwhile |
| ClientWindows.EntriesExist | src/controller/client/WebXClientGroup.cpp:27-41 | every window in the visibility list has a first and a last entry |
| ClientWindows.ReshapedIsDue | src/controller/client/WebXClientGroup.cpp:35-61 | so a window whose last entry has another shape checksum than the one last sent is due |
| ClientWindows.GroupWindows.UpdateVisibleWindows | src/controller/client/WebXClientGroup.cpp:16-47 | afterwards the windows are the visible ones, with distinct ids, and each has the size and shape checksum of its last entry; those that stay keep damage, checksums and times; new ones have nothing to deliver |
| ClientWindows.Serve | src/controller/client/WebXClientGroup.cpp:54-80 | a window is handed over only when due and not refreshed within its update time |
| ClientWindows.CallOf | src/controller/client/WebXClientGroup.cpp:54-80 | one handler call for each window handed over, in the order of the windows, with the mask and all of its damage |
| ClientWindows.PendingIsDue | src/controller/client/WebXClientGroup.cpp:62 | a window with a damaged cell not yet handed over is due |
| ClientWindows.GroupWindows.HandleGraphicalUpdates | src/controller/client/WebXClientGroup.cpp:52-81 | the handler gets just the windows that are due, each with all of its damage and with the mask given; others are untouched |
| ClientGroups.ClientGroup.HandleWindowGraphicalUpdates | src/controller/client/WebXClientGroup.cpp:49-81 | every call of the handler has the mask of just the clients in the group |
| ClientRegistry.ClientRegistry.GroupMaskReachesMembers | src/controller/client/WebXClientGroup.cpp:64 | in every registry a group's mask meets the index of a registered client exactly when that is in the group |
| Qualities.UpdateTimeUs | src/models/WebXQuality.cpp:5-18 | for every quality, a million microseconds over its frame rate, truncated |
| Qualities.RuntimeMax | src/models/WebXQuality.h:146-155 | the runtime maximum is the index asked for, or the nearer end of the range |
| Qualities.ForIndex | src/models/WebXQuality.h:91-100 | the quality of an index within the runtime maximum, the lowest for 0, and the maximum for one beyond or negative |
| Clocks.Clock.Now | src/controller/client/WebXClient.h:170 | readings of the clock never decrease |
| ClientIndices.FindFreeIndex | src/controller/client/WebXClientRegistry.cpp:30-33 | the shift loop ends on the lowest free bit of a mask that is not full |
| ClientIndices.OrAllRemove | src/controller/client/WebXClientGroup.h:79-91 | clearing one member's bit leaves the or of the others |
| ClientIndices.FullIffSixtyFour | src/controller/client/WebXClientRegistry.cpp:25 | distinct indices fill the mask exactly when there are 64 |
| ClientIndices.MaskCount | src/controller/client/WebXClientRegistry.cpp:48 | the mask holds a bit for each client and each lost index |
| ClientIndices.ComplementAddressesOthers | src/controller/WebXController.cpp:351 | the complement of an index meets every other index and not that one |
| Clients.AlternatesNext | src/controller/client/WebXClient.h:192-207 | between any two pings to a client there stays a pong |
| Clients.Client.UpdatePingStatus | src/controller/client/WebXClient.h:169-179 | the status changes only after the interval or the timeout |
| Clients.Client.OnPingSent | src/controller/client/WebXClient.h:192-195 | the client waits for a pong from now on |
| Clients.Client.OnPongReceived | src/controller/client/WebXClient.h:202-207 | the client waits to be pinged again |
| ClientGroups.RemovedMask | src/controller/client/WebXClientGroup.h:79-91 | without one client the mask is the or of the others |
| ClientGroups.ClientGroup.AddClient | src/controller/client/WebXClientGroup.h:63-73 | a client not in the group joins it, and its bit the mask |
| ClientGroups.ClientGroup.RemoveClient | src/controller/client/WebXClientGroup.h:79-91 | just the client of that id leaves, with its bit |
| ClientRegistry.ClassesWithout | src/controller/client/WebXClientRegistry.cpp:234-246 | dropping the empty group restores the table |
| ClientRegistry.GroupOfClient | src/controller/client/WebXClientRegistry.h:201-207 | the group found for a registered client exists and is the one of its quality |
| ClientRegistry.ListedRemove | src/controller/client/WebXClientRegistry.cpp:66-73 | ids and indices stay distinct, and the mask is that of the clients left |
| ClientRegistry.ClientRegistry.FindGroupWithClient | src/controller/client/WebXClientRegistry.h:201-207 | finds a group that holds the id, or tells that none does |
| ClientRegistry.ClientRegistry.RemoveFromGroups | src/controller/client/WebXClientRegistry.cpp:226-246 | the client leaves its group, and no empty group stays |
| ClientRegistry.ClientRegistry.GetOrCreateGroup | src/controller/client/WebXClientRegistry.h:180-194 | no two groups share a quality |
| ClientRegistry.ClientRegistry.AddClient | src/controller/client/WebXClientRegistry.cpp:21-58 | fails exactly when the mask is full, and otherwise gives the lowest free index, the default group, the configured timeout and a pong time read meanwhile; ids, indices, masks, groups, limits and timeouts stay consistent |
| ClientRegistry.ClientRegistry.RemoveClient | src/controller/client/WebXClientRegistry.cpp:60-87 | a known client leaves list, mask and groups; an unknown one changes nothing; a valid registry stays valid |
| ClientRegistry.ClientRegistry.SetClientQuality | src/controller/client/WebXClientRegistry.cpp:201-224 | the client, always found in a group, moves to the group of the quality and is told |
| ClientRegistry.ClientRegistry.SetClientMaxQuality | src/controller/client/WebXClientRegistry.cpp:89-103 | the limit is set, and the client moves there |
| ClientRegistry.ClientRegistry.OnPongReceived | src/controller/client/WebXClientRegistry.h:92-100 | just that client waits to be pinged again, from the time of the call |
| ClientRegistry.ClientRegistry.UpdateStatuses | src/controller/client/WebXClientRegistry.cpp:108-111 | every status is brought up to date by the clock |
| ClientRegistry.WithStatusMembers | src/controller/client/WebXClientRegistry.cpp:114-117 | the clients collected are just those of the status, each once |
| ClientRegistry.ClientRegistry.DropTimeouts | src/controller/client/WebXClientRegistry.cpp:108-126 | just the clients that timed out are told once and removed |
| ClientRegistry.ClientRegistry.SendPings | src/controller/client/WebXClientRegistry.cpp:128-135 | just the clients that require a ping get one |
| ClientRegistry.ClientRegistry.HandleClientPings | src/controller/client/WebXClientRegistry.cpp:105-136 | clients whose ping stayed unanswered past the registry's timeout get one disconnect message and leave list and groups; clients silent for the interval get one ping; afterwards every client waits |
| ClientRegistry.VerifiedFollows | src/controller/client/WebXClientRegistry.cpp:155-176 | a ratio of 0.8 or more costs a level down to 1, one below 0.2 earns a level up to the client's limit, and any other or none changes nothing |
| ClientRegistry.HigherRatioNoBetter | src/controller/client/WebXClientRegistry.cpp:155-176 | from the same quality a higher ratio never ends in a higher one |
| ClientRegistry.ClientRegistry.VerifyQuality | src/controller/client/WebXClientRegistry.cpp:144-185 | the client's group is found, and the client moves a level down for a high ratio and a level up for a low one, within its limit |
| ClientRegistry.ClientRegistry.PerformQualityVerification | src/controller/client/WebXClientRegistry.cpp:138-186 | every client moves a level down for a high ratio and a level up for a low one, within its limit, and just those that move are told |
| ClientRegistry.JoinThenPing | src/controller/client/WebXClientRegistry.cpp:105-136 | a client that just joined is not dropped, and not pinged within the interval of joining |
| ClientRegistry.ClientRegistry.DisconnectAll | src/controller/client/WebXClientRegistry.cpp:188-199 | every client is told, clients and groups are cleared, and the whole mask is lost |
| ClientRegistry.ClientRegistry.FullAtSixtyFour | src/controller/client/WebXClientRegistry.cpp:24-27 | the mask is full exactly when the clients and the lost indices are 64 in all |
| ClientRegistry.LoseAllIndices | src/controller/client/WebXClientRegistry.cpp:188-199 | a run after which a registry without clients has a full mask |
| ClientRegistry.ClientRegistry.ComplementReachesOthers | src/controller/WebXController.cpp:351 | a message for `~index` reaches every client but the sender |
| CircularQueue.RingPush | lib/spdlog/details/circular_q.h:46-57 | filling the free slot appends; if none is left the first item gives way |
| CircularQueue.LastNPush | lib/spdlog/details/circular_q.h:46-57 | keeping the last n after each push keeps the last n of all pushed |
| CircularQueue.CircularQueue.constructor | lib/spdlog/details/circular_q.h:28-32 | an empty queue of capacity n; the largest `size_t` wraps to a disabled one |
| CircularQueue.CircularQueue.Moved | lib/spdlog/details/circular_q.h:101-112 | the contents move over, and the other queue is disabled |
| CircularQueue.CircularQueue.PushBack | lib/spdlog/details/circular_q.h:46-57 | the queue holds the last items up to its capacity, and an overrun is counted exactly when it was full |
| CircularQueue.CircularQueue.PopFront | lib/spdlog/details/circular_q.h:83 | the oldest item goes |
| CircularQueue.CircularQueue.Size | lib/spdlog/details/circular_q.h:66-72 | the number of items, at most the capacity |
| CircularQueue.CircularQueue.At | lib/spdlog/details/circular_q.h:76-79 | item i from the oldest, through any wrap-around |
| CircularQueue.CircularQueue.Full | lib/spdlog/details/circular_q.h:87-93 | true exactly when no item fits, and never for a disabled queue |
| BlockingQueue.Queue.PushKeeps | lib/spdlog/details/mpmc_blocking_q.h:31-47 | what is queued is the newest of what was queued and the new item |
| BlockingQueue.Queue.PopKeeps | lib/spdlog/details/mpmc_blocking_q.h:82-90 | items are dequeued in the order they entered |
| BlockingQueue.Queue.Conserved | lib/spdlog/details/mpmc_blocking_q.h:31-90 | posted = dequeued + queued + overrun + discarded, for any queue not disabled |
| BlockingQueue.BlockingQueue.Conservation | lib/spdlog/details/mpmc_blocking_q.h:150-167 | the same by the counters, up to their resets |
| BlockingQueue.BlockingQueue.Enqueue | lib/spdlog/details/mpmc_blocking_q.h:31-38 | once there is room the item enters, and nothing is overrun |
| BlockingQueue.BlockingQueue.EnqueueNowait | lib/spdlog/details/mpmc_blocking_q.h:41-47 | the item enters, over the oldest if need be |
| BlockingQueue.BlockingQueue.EnqueueIfHaveRoom | lib/spdlog/details/mpmc_blocking_q.h:49-64 | the item enters a queue with room, and is counted as discarded otherwise |
| BlockingQueue.BlockingQueue.Dequeue | lib/spdlog/details/mpmc_blocking_q.h:82-90 | the oldest item leaves |
| BlockingQueue.BlockingQueue.DequeueFor | lib/spdlog/details/mpmc_blocking_q.h:68-79 | the oldest item leaves, if there is one |
| ThreadPool.Create | lib/spdlog/details/thread_pool-inl.h:16-33 | fails exactly for 0 or more than 1000 threads; otherwise the pool has that many workers and an empty queue of the given size |
| ThreadPool.Pool.StepKeeps | lib/spdlog/details/thread_pool-inl.h:45-124 | every step keeps live workers = queued and unposted terminate messages, and terminate messages last |
| ThreadPool.Pool.NotStuck | lib/spdlog/details/thread_pool-inl.h:45-56 | until a shutdown is done some worker is live and some step is possible |
| ThreadPool.ShutdownEnds | lib/spdlog/details/thread_pool-inl.h:45-56 | every interleaving of a shutdown is bounded in length, and changes nothing in how many workers will never be told to end |
| ThreadPool.ShutdownCompletes | lib/spdlog/details/thread_pool-inl.h:45-56 | from every reachable state a shutdown can be completed if and only if the queue's capacity is at least 1 |
| ThreadPool.NoCapacityNeverDone | lib/spdlog/details/thread_pool-inl.h:45-56 | without capacity no run ever ends a worker |
| ThreadPool.Pool.DoneDrained | lib/spdlog/details/thread_pool-inl.h:45-56 | when all workers have ended the queue is empty, and every accepted message that was not overrun was dequeued once and in order |
| ThreadPool.BlockingDeliversAll | lib/spdlog/details/thread_pool-inl.h:80-124 | if all loggers wait for room, every message posted is processed once and in order |
| ThreadPool.Pool.PolicyDecides | lib/spdlog/details/thread_pool-inl.h:80-90 | on a full queue the oldest message gives way, or the new one is discarded and counted, by policy; with room it is queued last |
| ThreadPool.PolicyLosses | lib/spdlog/details/thread_pool-inl.h:80-90 | in no run are messages overrun unless a post overruns, or discarded unless a post discards |
| ThreadPool.AcceptedDelivered | lib/spdlog/details/thread_pool-inl.h:80-124 | if no logger overruns, every message accepted is processed once and in order, and the others are counted as discarded |
| ThreadPool.LatePostStrands | lib/spdlog/details/thread_pool-inl.h:45-56 | after a message posted during the shutdown it can still be completed if and only if that overran no terminate message |
| ThreadPool.StrandingReachable | lib/spdlog/details/thread_pool-inl.h:45-56 | a shutdown comes to a full queue with a terminate message in front if and only if the queue has capacity, and no more than there are threads |
| ThreadPool.ThreadPool.PostAsyncMessage | lib/spdlog/details/thread_pool-inl.h:80-90 | a post is the step of its overflow policy |
| ThreadPool.ThreadPool.ProcessNextMessage | lib/spdlog/details/thread_pool-inl.h:100-124 | a worker dequeues one message, and ends on a terminate message |
| ThreadPool.ThreadPool.Destroy | lib/spdlog/details/thread_pool-inl.h:45-56 | in every interleaving the destructor comes to an end with all workers ended and the queue drained |
| BinaryBuffer.Turn | src/utils/WebXBinaryBuffer.h:228-237 | offsets are aligned, and wrap to 0 exactly at the top of the 32-bit range |
| BinaryBuffer.Buffer.WriteSucceeds | src/utils/WebXBinaryBuffer.h:157-167 | a typed write succeeds exactly when the value fits where it is aligned, or the aligned offset wraps |
| BinaryBuffer.Buffer.StoredAt | src/utils/WebXBinaryBuffer.h:157-176 | a write changes the bytes it covers and no others |
| BinaryBuffer.FieldsDisjoint | src/utils/WebXBinaryBuffer.h:228-237 | typed fields are aligned, and no two fields overlap |
| BinaryBuffer.WritesFit | src/utils/WebXBinaryBuffer.h:157-176 | fields that fit are all written, and nothing before them changes |
| BinaryBuffer.AllSucceedIffFit | src/utils/WebXBinaryBuffer.h:157-176 | in a buffer of at most 2^32 - 8 bytes writes all succeed if and only if the fields fit |
| BinaryBuffer.SuccessMeansFitIff | src/utils/WebXBinaryBuffer.h:157-176 | for all lists of fields that is so if and only if the buffer is at most 2^32 - 8 bytes long |
| BinaryBuffer.RoundTrip | src/utils/WebXBinaryBuffer.h:157-205 | any list of typed values and raw bytes that fits is read back by the same shapes in the same order |
| BinaryBuffer.ReadsBackAll | src/utils/WebXBinaryBuffer.h:184-205 | being read back means that each read in turn yields the bytes of its field |
| BinaryBuffer.OverflowExhausts | src/utils/WebXBinaryBuffer.h:157-163 | a typed write that overflows leaves the offset beyond the buffer, unless it ends on a full turn |
| BinaryBuffer.ExhaustedStaysSo | src/utils/WebXBinaryBuffer.h:157-176 | while the offset has not gone round every write fails and changes no byte |
| BinaryBuffer.AllFailIff | src/utils/WebXBinaryBuffer.h:157-176 | after an overflow all later writes fail if and only if no field that could fit at all stands on a full turn of the offset or passes one; where all could fit, if and only if the offset has not gone round before the last, nor passes the round with it |
| BinaryBuffer.TooLargeFails | src/utils/WebXBinaryBuffer.h:161-163 | a field larger than the buffer overflows wherever the offset stands |
| BinaryBuffer.ExhaustionWraps | src/utils/WebXBinaryBuffer.h:228-237 | a failing write that ends on a full turn makes the next value overwrite the header |
| BinaryBuffer.BinaryBuffer.constructor | src/utils/WebXBinaryBuffer.h:60-75 | the header is written, and the offsets start behind it |
| BinaryBuffer.BinaryBuffer.Write | src/utils/WebXBinaryBuffer.h:157-167 | the value is stored in place, or the call overflows with the offset advanced |
| BinaryBuffer.BinaryBuffer.Append | src/utils/WebXBinaryBuffer.h:169-176 | the bytes are stored in place, or the call overflows with nothing changed |
| BinaryBuffer.BinaryBuffer.Read | src/utils/WebXBinaryBuffer.h:184-193 | the value at the aligned offset, or an overflow |
| BinaryBuffer.Buffer.ReadSucceeds | src/utils/WebXBinaryBuffer.h:184-193 | a typed read succeeds exactly when the value lies in the buffer where it is aligned, or the aligned offset wraps, and yields its bytes |
| BinaryBuffer.Buffer.ReadStringSucceeds | src/utils/WebXBinaryBuffer.h:196-205 | for every 64-bit length just the strings within the buffer are read, and else nothing changes |
| BinaryBuffer.BinaryBuffer.ReadString | src/utils/WebXBinaryBuffer.h:196-205 | the bytes at the offset, an overflow, or a string too long to make where the end wraps round |
| BinaryBuffer.BinaryBuffer.ResetReadOffset | src/utils/WebXBinaryBuffer.h:210-212 | reading starts behind the header again |
| PriorityQueue.InsertSorted | src/utils/WebXQueue.h:105-118 | the place of insertion keeps the order of priority numbers |
| PriorityQueue.PutAccounted | src/utils/WebXQueue.h:91-121 | within its priority the new item comes last |
| PriorityQueue.GetAccounted | src/utils/WebXQueue.h:138-142 | within its priority the item delivered was the oldest |
| PriorityQueue.PriorityQueue.Put | src/utils/WebXQueue.h:91-121 | an item is accepted unless the queue is stopped; accepted = delivered + queued, and in order for each priority |
| PriorityQueue.PriorityQueue.Get | src/utils/WebXQueue.h:124-144 | the oldest item of the lowest priority number, or nothing once stopped |
| PriorityQueue.PriorityQueue.Stop | src/utils/WebXQueue.h:155-161 | the queue is stopped, and nothing else changes |
| Words.ValueOrder | src/utils/WebXDataBuffer.h:101 | words compare as the numbers they stand for |
| Words.ValueSum | src/utils/WebXDataBuffer.h:97 | a word sum stands for the sum of the numbers that fits |
| PowersOfTwo.LeastIffNoWideGap | src/utils/WebXDataBuffer.h:148-157 | the bit trick finds the least power of two if and only if no 32 bits in a row are clear below the highest |
| PowersOfTwo.UpperLeast | src/utils/WebXDataBuffer.h:148-157 | up to 2^32 it always does, and it is never below v nor as large as 2v |
| PowersOfTwo.GapBeyond32 | src/utils/WebXDataBuffer.h:148-157 | 2^33 + 1 is a value it fails for |
| PowersOfTwo.UpperPowerOfTwo | src/utils/WebXDataBuffer.h:148-157 | the seven assignments compute the function these lemmas are about |
| DataBuffer.Grown | src/utils/WebXDataBuffer.h:97-108 | the capacity is doubled as often as needed and no more, from the next power of two at first |
| DataBuffer.DataBuffer.AppendData | src/utils/WebXDataBuffer.h:96-131 | the contents are the concatenation; a first capacity is the next power of two, a later one a doubling; growth leaves the capacity below twice the size; all growth moves fewer bytes than the capacity it ends with; it fails exactly when it must grow and that is not allocated, and then loses the contents |
| DataBuffer.DataBuffer.Reserve | src/utils/WebXDataBuffer.h:110-124 | a larger buffer with the same contents, or none where it is not allocated |
| DataBuffer.DataBuffer.CalculateChecksum | src/utils/WebXDataBuffer.h:137-140 | the CRC-32 of the contents |

## Left out

- WindowDamage.WindowDamage.Add: excludes going through a damage object's own list, which in C++ iterates over the list being erased.
- ClientWindows.ClientWindow.Update: a new coverage may choose any quality, because the rate heuristics of the quality handler are short branches over floating point.
- ClientWindows.GroupWindows.HandleGraphicalUpdates: the image grabbed and sent is an arbitrary answer of the handler.
- SweepLine.OverlapCalc: the window has an area, since the code divides by it, and the covering rectangles have a width, since one without could be removed before it is inserted, which C++ leaves undefined; X11 has no such windows. Areas are mathematical integers, without 32-bit overflow.
- ClientRegistry.ClientRegistry.AddClient: the random id is a parameter that is not in use, because the source draws until that is so.
- ClientRegistry.ClientRegistry.PerformQualityVerification: the measured bitrate ratios are parameters, as real numbers; the windows' own quality verification is not modelled.
- ClientRegistry.ClientRegistry.SetClientMaxQuality: the quality is one that `QualityForIndex` returned, so it is within the runtime maximum.
- ThreadPool.ThreadPool.ProcessNextMessage: what a logger does with a message is left out, and dequeuing and processing are one step.
- BinaryBuffer.BinaryBuffer.Write: a value is the bytes of its object representation, so byte order and padding do not appear.
- PriorityQueue.PriorityQueue.Put: insert-or-append as intended; the source compares an iterator after an insertion may have invalidated it.
- DataBuffer.DataBuffer.AppendData: no buffer is larger than 2^63 - 1 bytes, and whether an allocation succeeds is a parameter. A buffer that has lost its contents is not used again, because the next call would write through a null pointer.
- The registry's fan-out of damage, visibility and updates to all groups is not modelled: each group sees the same calls.
- Counters of overruns and discards are unbounded.
- Wake-ups of condition variables, memory ordering and starting of threads.
- Bitrate, latency and frame statistics, and the formulas from coverage to quality.
- X11, ZeroMQ, image compression, settings, the command line, and log sinks and formatters.
