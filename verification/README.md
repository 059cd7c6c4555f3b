# Portfolio file system and dipir readers: a verified model

This project models, in Dafny, the parts of the Portfolio file folio and of the disc boot code whose
correctness is least obvious from reading them, and proves what they are for:

- **The linked-memory (NVRAM) allocator** (`LinkedMem*.dfy`). A state machine that makes one raw transfer per
  activation adds, grows, moves, splits, deletes and merges blocks of a circular, doubly linked list on the medium.
  Its activations are a function on values (`LinkedMem`); the invariant of each of its states is in
  `LinkedMemInvariant`; `LinkedMemSteps` proves that each state's activation and transfer lead to the invariant of the
  next; `LinkedMemRuns` puts whole requests together; `LinkedMemShrink` says exactly which allocations keep their
  promise, and what the others do; `LinkedMemDisk` is the device record updated in place, proved to do what the
  function says, with the three requests that users make.
- **The byte-stream reader** (`FileStream.dfy`). A circular buffer with readahead that completes whenever it likes,
  transfers straight to the caller, and lazy seeks; it refines a plain positional reader over any session.
- **The BARF network protocol** (`Barf*.dfy`). `BarfMultiRead` is the transfer of many blocks under loss, repetition
  and reordering, as a state machine over events; `BarfAttention` proves that no read is forgotten and that every one
  can be brought to its end; `BarfStrays` says exactly which replies it survives; `BarfPageBits` and `BarfRequest` are
  the bit vectors, requests, work orders and the scheduler's loop over an order, updated in place and proved to do what
  the events say; `BarfWindow` is the window of sequence numbers and the timeout estimator.
- **The low-cost CD driver's reader** (`LowCostDisc.dfy`). Two buffers, a DMA engine that may take any number of steps
  between any two accesses of the reader, and no lock: what is handed over is right whatever the engine does, and in any
  run that is laid down, poll by poll, a block that arrives in time is handed over.
- **The optimised disk scheduler** (`DiskSweep.dfy`, `OptimizedDisk.dfy`). The order in which a batch is served, and
  where every request is from being queued until it is completed, for any limit on the size of a batch.
- **File nodes and the directory cache** (`FileNodes.dfy`, `DirectoryCache.dfy`). Use counts, the two scavengers and
  dismounting; looking a name up through the cache of directory blocks.
- **The signed-image readers** (`SignedImage.dfy`). Three readers that digest, copy and split off the signature.

`Common.dfy` holds what several of them use. `dafny verify dfyconfig.toml` checks all of it.

Integers are unbounded except where a width matters: the unsigned comparisons and differences of the allocator and of
`BottomIsCloser`, the 16-bit sequence field, the byte-sized block count of a multi-block read, the 32-bit count of its
pending pages, and the int32 block numbers that the scheduler and the allocator require are written out. Timing
(completion of I/O, the DMA engine, the clock), the outcome of transfers and replies, and whether a drive that is
waited for looks open are nondeterministic. The operations of the CD reader take a parameter `still` that picks the runs
in which nothing happens by itself; `plans` then says, pass by pass, what happens between two polls: nothing, a whole
transfer of the engine, flawed or not, or that a tenth of a second is over. Which blocks of a directory, and which bytes
of an image, cannot be read is a parameter of those readers.

## Where the code falls short of its purpose

- An allocation of a negative count can destroy another file. Nothing checks the sign
  (`src/filesystem/FileDriver.c:315`, `src/filesystem/LinkedMemFileSystem.c:157` and `255-264`); the `allocate` command
  passes on what it is given (`src/filesystem/allocate.c:71` and `91-99`), and a block of the NVRAM device is one byte
  (`src/hwcd/StorageDriver.c:468`). The block searched for is then smaller than the file, and the whole file is copied
  to it. `LinkedMemShrink.AllocBlocksIff` says for every count when the promise is kept: exactly if the first free block
  of the wanted size, should there be one, holds header and content even after its surplus is cut off. Asking for no
  less than the file takes is enough (`LinkedMemShrink.EnoughIsRoomy`). Every other run does harm
  (`LinkedMemShrink.NotRoomyHarms`): it destroys the header of the next block, writes out of the volume, or puts a free
  block into the file's content. `LinkedMemShrink.NextFileLost` is such a run, of a count of -190.
- A multi-block read can be reported done without an error although blocks are missing, in two ways. A reply that does
  not fit the user's buffer marks the work order done and sets no error
  (`src/filesystem/BarfFileSystem.c:1357-1362`, `BarfStrays.DoneYetEmpty`). And the index of a page in the request's
  bit vector is not checked: a reply for a page below the request's first page, such as a repeated reply after a smart
  retry has moved that page, is looked up in the fields in front of the vector (`src/filesystem/includes/barf.h:97-99`),
  where the count of pending pages passes for a bit (`BarfStrays.RepeatedReplyEndsRead`); the read's own end is then
  lost for good (`BarfStrays.RepeatCostsTheRead`). `BarfStrays.ReplySoundIff` says exactly which replies do no harm, and
  `BarfStrays.WithinVectorIff`, for requests of any size up to 255 pages, which of them do none whatever the memory
  holds: those in the vector, and those whose lookup meets a bit that no request of that size has set.
- A sequence number can be on the wire twice: a request whose write timed out counts as unsent, and its number is used
  again if it is released as the newest one, so that a late reply to it reaches the next request
  (`BarfWindow.ReuseAfterTimeOut`). `BarfWindow.BarfDisk.GetServerRequest` says that this is the only way.
- A server that reports a window of no numbers at all leaves one in use that the window does not allow. A report comes
  only when a filesystem is mounted, which uses one number, so no other report does harm (`BarfWindow.StartAtMount`).
- An entry whose name fills all 32 characters of its field is not found by name, because the field has no terminator
  and the comparison reads on into the fingerprint behind it (`src/filesystem/LinkedMemFileSystem.c:813`); it is found
  only while that word begins with a zero byte (`LinkedMemRuns.FullNameNotFound`), which no fingerprint does. Paths
  refuse such names; a request to add an entry does not, and the entry it adds cannot be deleted by its name
  (`LinkedMemDevice.AddThenDelete`).
- Where the optimised disk takes the head to stand after a transfer is where the file goes on exactly if the filesystem's
  blocks are as large as the device's (`OptimizedDisk.HeadAtNextIff`): the length of a transfer is counted in the
  former (`src/filesystem/FileDriver.c:1129-1130`), the block it is added to in the latter
  (`src/filesystem/FileDriver.c:782-783`). With larger ones the nearest copy and the shortest order are reckoned
  from a place that the head has passed.
- When a filesystem refuses to open a directory entry, its directory's use count stays one too high for good:
  `FileNodes.FileFolio.AddNode` says that the counts stay exact if and only if the entry is not refused. Nothing in use
  is ever deleted because of it.
- `ReadBlock` of the CD driver returns the block asked for the time before if the drive looks open when the read is
  started and not when it is waited for, because the number waited for is then not updated
  (`LowCostDisc.Reader.ReadBlock`); `LowCostDisc.ReadOldBlock` is such a read. Block number 0 marks an empty buffer, so a read of block 0 can be answered from a
  buffer that received nothing; `LowCostDisc.Reader.WaitReadBlock` says exactly when, and
  `LowCostDisc.ReadZeroAtOnce` is such a read.
- A directory whose volume and file identifiers are both zero is looked up in cache entries that were never filled
  (`DirectoryCache.UnfilledAnswers`). `DirectoryCache.Cache.Lookup` answers as if that entry's page were the directory's
  first block; if the page links on as that block does, every name is answered rightly exactly if page and block hold
  the same under every name (`DirectoryCache.Cache.RightIffSame`).

## Model

| member | source | states |
|---|---|---|
| LinkedMem.Mount | src/filesystem/MountFileSystem.c:626-635 | the header of a file entry fits the blocks set aside for it and needs all of them, the copy buffer holds as many whole blocks as are counted and no more, the volume is the one mounted, and the geometry is usable exactly if a device block fits the copy buffer |
| LinkedMem.QuotientIsDivision | src/filesystem/LinkedMemFileSystem.c:241-249 | rounding sizes up to blocks, which the proofs do by repeated subtraction, is the integer division of the source |
| LinkedMem.HowManyCovers | src/filesystem/LinkedMemFileSystem.c:241-249 | rounding up gives the fewest blocks that cover a size |
| LinkedMemInvariant.ContentCovers | src/filesystem/MountFileSystem.c:626-635 | on any volume mounted, the blocks counted for a file's content hold all of its bytes with less than a block to spare, and so do header and content together with less than two |
| LinkedMem.TruncatedIs | src/filesystem/LinkedMemFileSystem.c:660-680 | the name an entry gets is the one given, up to its terminator or to 32 characters |
| Common.SameNameIff | src/filesystem/LinkedMemFileSystem.c:813-820 | two names are taken for one exactly if they differ only in the case of letters |
| LinkedMemRuns.AddEntryRuns | src/filesystem/LinkedMemFileSystem.c:522-781 | adding an entry to a well-formed volume ends after finitely many transfers; the medium tiles after each of them; on success a new empty entry stands in the lowest free block that is large enough, of a size within the slack, everything else is kept and the list is well formed; no space means nothing was written and no free block is large enough |
| LinkedMemRuns.AllocBlocksRuns | src/filesystem/LinkedMemFileSystem.c:522-781 | the same for an allocation of any count, positive or negative, that is roomy: the block its search finds, if it finds one, holds header and content even when cut. The file stays in place exactly when its successor can be absorbed and goes to the first fit otherwise; its name, type and bytes, and all other files, are kept; its size is at least the one asked for and within the slack |
| LinkedMemShrink.AllocBlocksIff | src/filesystem/LinkedMemFileSystem.c:255-264 | an allocation of any count has a run that keeps the promise of `AllocBlocksRuns` if and only if it is roomy, which a caller can tell from the list before the call |
| LinkedMemShrink.EnoughIsRoomy | src/filesystem/LinkedMemFileSystem.c:635-652 | an allocation is roomy if the wanted size holds header and content, or no free block has it |
| LinkedMemShrink.NotRoomyHarms | src/filesystem/LinkedMemFileSystem.c:635-713 | one that is not roomy wants less than the file takes, finds a block, and reaches a medium on which the header of the next block is gone, or it has written out of the volume, or a free block's header stands in the file's content |
| LinkedMemShrink.NextFileLost | src/filesystem/LinkedMemFileSystem.c:696-713 | a volume of one-byte blocks with a file of 200 bytes, allocated -190 blocks: it is copied to a free block of 80, and the header of the file behind that one is overwritten |
| LinkedMemRuns.DeleteEntryRuns | src/filesystem/LinkedMemFileSystem.c:732-866 | the same for deleting by name, from any remembered scan position: the file that matched is gone, its space merged with every free neighbour; no such file means that nothing was written and no entry matches. An entry matches if its name is the one given and, in case it fills its 32 characters, the byte behind it in memory, the first of the other block's fingerprint, is zero |
| LinkedMemRuns.FullNameNotFound | src/filesystem/LinkedMemFileSystem.c:800-820 | a deletion by a name that fills the 32 characters ends without a match while the word behind the name does not begin with a zero byte |
| LinkedMemRuns.TiledTiles | src/filesystem/LinkedMemFileSystem.c:522-781 | the invariant's set of linked blocks is exactly what following the forward links from the anchor visits, each block ending where the next begins, with one wrap |
| LinkedMemRuns.RunExamineNewBlock | src/filesystem/LinkedMemFileSystem.c:635-695 | the search for a free block ends, in the first fit or with no space |
| LinkedMemRuns.RunWriteCopiedData | src/filesystem/LinkedMemFileSystem.c:696-713 | the copy loop ends with the whole content copied |
| LinkedMemRuns.RunBackUpOne | src/filesystem/LinkedMemFileSystem.c:747-756 | backing up over free blocks ends |
| LinkedMemRuns.RunAttemptMerge | src/filesystem/LinkedMemFileSystem.c:762-781 | merging ahead ends in a list with no two free neighbours and no stale back link |
| LinkedMemRuns.RunExamineEntry | src/filesystem/LinkedMemFileSystem.c:794-866 | the circular scan for a name ends, whatever block it starts from |
| LinkedMemRuns.CompletesChomp | src/filesystem/LinkedMemFileSystem.c:617-627 | an add, or a growth in place, that is finished here has done what was asked |
| LinkedMemRuns.CompletesDelete | src/filesystem/LinkedMemFileSystem.c:779-781 | a deletion, or a growth by moving, that is finished here has done what was asked |
| LinkedMemSteps.StepInitialization | src/filesystem/LinkedMemFileSystem.c:522-543 | from the start into the search, or to the file's own header |
| LinkedMemSteps.StepCheckIsThisLast | src/filesystem/LinkedMemFileSystem.c:544-551 | a file that is last in the volume goes to the search, any other one looks at its successor |
| LinkedMemSteps.StepCheckSuccessorAbsorb | src/filesystem/LinkedMemFileSystem.c:552-564 | absorbing the successor keeps the list tiled, the files and their bytes |
| LinkedMemSteps.StepCheckSuccessorRefuse | src/filesystem/LinkedMemFileSystem.c:552-564 | a successor that is in use or too small starts the search from the anchor |
| LinkedMemSteps.StepExamineNewBlockSkip | src/filesystem/LinkedMemFileSystem.c:635-652 | a block passed over does not suit, so the first that does is the lowest |
| LinkedMemSteps.StepExamineNewBlockAdd | src/filesystem/LinkedMemFileSystem.c:653-669 | the block found becomes the new entry |
| LinkedMemSteps.StepExamineNewBlockMove | src/filesystem/LinkedMemFileSystem.c:653-695 | the block found becomes the copy's place before it is a file |
| LinkedMemSteps.StepReadToCopy | src/filesystem/LinkedMemFileSystem.c:696-704 | the next chunk of the content is in the copy buffer |
| LinkedMemSteps.StepWriteCopiedData | src/filesystem/LinkedMemFileSystem.c:705-713 | the content copied so far has grown by the chunk, and no other file's bytes were touched |
| LinkedMemSteps.StepCopyDone | src/filesystem/LinkedMemFileSystem.c:714-731 | the new block's header takes over the file's identity while the old one still stands |
| LinkedMemSteps.StepCutTheSlackKeep | src/filesystem/LinkedMemFileSystem.c:565-596 | a surplus too small to split is kept |
| LinkedMemSteps.StepCutTheSlackSplit | src/filesystem/LinkedMemFileSystem.c:565-596 | a surplus split off becomes a free block inside the old one that is not yet linked |
| LinkedMemSteps.StepCutOffExcess | src/filesystem/LinkedMemFileSystem.c:597-602 | the split block is linked in |
| LinkedMemSteps.StepGetOldBackLink | src/filesystem/LinkedMemFileSystem.c:603-607 | the block whose back link is stale is read |
| LinkedMemSteps.StepFixOldBackLink | src/filesystem/LinkedMemFileSystem.c:608-616 | all back links are inverse to the forward links again |
| LinkedMemSteps.StepSuccessfulChompMerge | src/filesystem/LinkedMemFileSystem.c:617-627 | a file that moved goes on to release its old block |
| LinkedMemSteps.StepMarkItFree | src/filesystem/LinkedMemFileSystem.c:732-746 | the block released is free and no other block has changed |
| LinkedMemSteps.StepBackUpOne | src/filesystem/LinkedMemFileSystem.c:747-756 | the cursor has gone back over free blocks only |
| LinkedMemSteps.StepScanAhead | src/filesystem/LinkedMemFileSystem.c:757-761 | the block after the first of the free run is read |
| LinkedMemSteps.StepAttemptMergeMore | src/filesystem/LinkedMemFileSystem.c:762-769 | one more free block is counted into the merged one |
| LinkedMemSteps.StepAttemptMergeStop | src/filesystem/LinkedMemFileSystem.c:769-774 | the block after the run links back to its start before the run is joined |
| LinkedMemSteps.StepFixFlink | src/filesystem/LinkedMemFileSystem.c:775-778 | joining the run keeps the tiling and leaves a well-formed list |
| LinkedMemSteps.StepInitScan | src/filesystem/LinkedMemFileSystem.c:782-793 | the scan starts at the remembered block, or at the anchor |
| LinkedMemSteps.StepExamineEntryMiss | src/filesystem/LinkedMemFileSystem.c:794-866 | an entry passed over does not match the name |
| LinkedMemSteps.StepExamineEntryHit | src/filesystem/LinkedMemFileSystem.c:800-820 | the first entry that matches the name is released |
| LinkedMemDevice.LinkedMemDisk.FiniteStateMachine | src/filesystem/LinkedMemFileSystem.c:465-972 | one activation, in place, has the outcome of the function that the invariants are proved about |
| LinkedMemDevice.LinkedMemDisk.CheckSuccessor | src/filesystem/LinkedMemFileSystem.c:552-564 | every field of the record afterwards, and the transfer asked for, are those of `OnCheckSuccessor` |
| LinkedMemDevice.LinkedMemDisk.CutTheSlack | src/filesystem/LinkedMemFileSystem.c:565-596 | the same of `OnCutTheSlack` |
| LinkedMemDevice.LinkedMemDisk.ExamineNewBlock | src/filesystem/LinkedMemFileSystem.c:635-695 | the same of `OnExamineNewBlock` |
| LinkedMemDevice.LinkedMemDisk.CopyDone | src/filesystem/LinkedMemFileSystem.c:714-731 | the same of `OnCopyDone` |
| LinkedMemDevice.LinkedMemDisk.AttemptMerge | src/filesystem/LinkedMemFileSystem.c:762-774 | the same of `OnAttemptMerge` |
| LinkedMemDevice.LinkedMemDisk.ExamineEntry | src/filesystem/LinkedMemFileSystem.c:794-866 | the same of `OnExamineEntry` |
| LinkedMemDevice.LinkedMemDisk.RawTransfer | src/filesystem/LinkedMemFileSystem.c:900-972 | one raw transfer changes only the record read, or only the cells written |
| LinkedMemDevice.LinkedMemDisk.Serve | src/filesystem/LinkedMemFileSystem.c:372-463 | activations and transfers alternate until the request completes, with the outcome of the run |
| LinkedMemDevice.LinkedMemDisk.AddEntry | src/filesystem/LinkedMemFileSystem.c:241-249 | from one well-formed volume to the next, with the new entry first fit, or unchanged if there is no space |
| LinkedMemDevice.LinkedMemDisk.AllocBlocks | src/filesystem/LinkedMemFileSystem.c:255-264 | the file has grown or shrunk in place or moved with its bytes, or nothing has changed and no block is large enough, for any count that is roomy |
| LinkedMemDevice.LinkedMemDisk.DeleteEntry | src/filesystem/LinkedMemFileSystem.c:265-274 | a file that matches the name is gone and its space merged, or nothing has changed and none matches; a name that fills its field is not found unless the word behind it begins with a zero byte |
| LinkedMemDevice.AddThenDelete | src/filesystem/LinkedMemFileSystem.c:241-274 | an entry added under a name of 32 characters or more is not found when it is deleted by that name at once |
| LinkedMemDevice.AllocationEnds | src/filesystem/LinkedMemFileSystem.c:522-781 | an allocation ends in success or no space, and the open file's block and size in memory agree with the medium |
| FileStream.BufferSizeAligned | src/filesystem/FileStream.c:158-180 | the buffer is a whole number of blocks exactly when the 256-byte minimum is not what decides, or is one itself |
| FileStream.BufferSizeAsked | src/filesystem/FileStream.c:158-180 | the buffer holds the bytes asked for with less than a block to spare, or the blocks asked for if the file has as many, or by default two blocks, or one for a file of up to two; and never less than 256 bytes |
| FileStream.Session | src/filesystem/FileStream.c:250-608 | any sequence of reads and seeks, under any timing of the readahead, gets the replies of a plain positional reader |
| FileStream.SeekThenRead | src/filesystem/FileStream.c:573-608 | for the plain reader, a seek to a place in the file, counted from the start, from where it stands or back from the end, followed by a read, gives the bytes from that place on |
| FileStream.Perform | src/filesystem/FileStream.c:250-608 | one read or seek gives the plain reader's reply and leaves its position |
| FileStream.DiskStream.ReadDiskStream | src/filesystem/FileStream.c:250-571 | delivers exactly the next min(n, length - position) bytes, terminates, and keeps the buffer's invariant |
| FileStream.DiskStream.SeekDiskStream | src/filesystem/FileStream.c:573-608 | if the target lies in the file the position afterwards is the offset, or as far from the one before, or as far from the end; otherwise it is unchanged |
| FileStream.DiskStream.Open | src/filesystem/FileStream.c:119-221 | a stream starts at position 0 with a readahead of the whole buffer, or of the whole file, under way |
| FileStream.DiskStream.HandleEndAction | src/filesystem/FileStream.c:296-314 | the bytes that arrived extend what is available, in the file's order |
| FileStream.DiskStream.CheckIo | src/filesystem/FileStream.c:282-288 | whatever part of a readahead has arrived, nothing the buffer holds has changed |
| FileStream.DiskStream.SeekWithinBuffer | src/filesystem/FileStream.c:316-350 | a target in the buffer, also one behind the cursor in the same block, is reached by moving the cursor |
| FileStream.DiskStream.Moved | src/filesystem/FileStream.c:316-350 | where the cursor may move in the buffer, block offsets in file and buffer keep agreeing, around the end as well |
| FileStream.DiskStream.SeekOutsideBuffer | src/filesystem/FileStream.c:350-356 | otherwise the buffer is emptied and starts at the target's block |
| FileStream.DiskStream.TakeFromBuffer | src/filesystem/FileStream.c:357-404 | bytes are taken from the buffer in the file's order, around its end |
| FileStream.DiskStream.SlurpBlocks | src/filesystem/FileStream.c:423-456 | whole blocks go straight to the caller |
| FileStream.DiskStream.FractionOfBlock | src/filesystem/FileStream.c:457-508 | the rest of a request is taken from one more block, which stays in the buffer |
| FileStream.DiskStream.ReadThrough | src/filesystem/FileStream.c:423-508 | together they deliver what is left of the request |
| FileStream.DiskStream.StartReadahead | src/filesystem/FileStream.c:509-568 | the readahead is block aligned, goes on where the buffer ends, and overwrites neither unread bytes nor the consumed part of the current block |
| FileStream.DiskStream.FillBounds | src/filesystem/FileStream.c:526-560 | the free stretch it fills is a whole number of blocks within the buffer and the file |
| BarfProtocol.TransferSound | src/filesystem/BarfFileSystem.c:1308-1491 | after any replies of which none does harm, also after the order is done, and any losses, reorderings and retries, each page is delivered, on the wire in exactly one request, or not requested yet; counts agree; an error-free Done means every block is in place; what was delivered stays |
| BarfProtocol.EventSound | src/filesystem/BarfFileSystem.c:1308-1491 | each single event that does no harm keeps that invariant and what was delivered |
| BarfProtocol.StartSound | src/filesystem/BarfFileSystem.c:2295-2344 | a read starts in that invariant, with all its pages unrequested |
| BarfProtocol.SubmitInv | src/filesystem/BarfFileSystem.c:2122-2169 | the scheduler's next run of pages goes on the wire once |
| BarfProtocol.ReplySound | src/filesystem/BarfFileSystem.c:1355-1491 | a reply within the buffer whose lookups do not go astray delivers exactly the pages that were missing, and Done means complete |
| BarfProtocol.HitsTaken | src/filesystem/BarfFileSystem.c:1370-1435 | the pages a reply delivers leave the wire and join the delivered ones, which they were not among |
| BarfProtocol.CopiedIsTaken | src/filesystem/BarfFileSystem.c:1370-1435 | page by page the copy loop does the same, at most one count and one bit for each page that was missing |
| BarfProtocol.RetryInv | src/filesystem/BarfFileSystem.c:1753-1858 | a smart retry leaves every page where it was |
| BarfAttention.EventAlive | src/filesystem/BarfFileSystem.c:2122-2190 | every event that does no harm, submissions and pauses as the scheduler makes them, keeps it so that a read is done, or has a request on the wire, or needs attention, and that one left alone has a full window or nothing to ask for |
| BarfAttention.NeverForgotten | src/filesystem/BarfFileSystem.c:1439-1490 | so after any run of such events, for all limits |
| BarfAttention.CanEnd | src/filesystem/BarfFileSystem.c:1308-1491 | and from every state of a read that has not failed there is a run of such events that brings it to its end with every block in place |
| BarfAttention.StartAttended | src/filesystem/BarfFileSystem.c:2295-2344 | a read starts that way |
| BarfStrays.ReplySoundIff | src/filesystem/BarfFileSystem.c:1355-1491 | a reply with the file's data leaves the invariant standing if and only if it fits the user's buffer, or comes when the order is done, and no lookup outside the request's bit vector finds a bit |
| BarfStrays.DoneIsCompleteIff | src/filesystem/BarfFileSystem.c:1355-1491 | after a reply to an order that is not done, the books and an error-free Done can be relied on if and only if the reply fits the buffer and no lookup goes astray; one that does not fit ends the read as done, without an error and incomplete |
| BarfStrays.StrayReplyUnsound | src/filesystem/includes/barf.h:97-99 | one lookup astray that finds a bit, wherever in the reply, breaks the invariant for good: what the later pages of the reply do cannot mend it |
| BarfStrays.WithinVectorIff | src/filesystem/BarfFileSystem.c:1363-1376 | for every limit up to 255 pages, a reply at a given distance is safe for all requests on the wire of at most that many pages, whatever stands in memory around their bit vectors, if and only if each of its pages is looked up in the vector or in a bit that no such request has set |
| BarfStrays.FarBelowIsSafe | src/filesystem/BarfFileSystem.c:1363-1376 | for the largest requests these are the 256 pages from the first one on, the 9th to the 32nd below it, and the 64th below it |
| BarfStrays.OvercountedIncomplete | src/filesystem/BarfFileSystem.c:1391-1435 | once more pages were counted than delivered, no events afterwards, in any order, lead to an end by the count with every block in place |
| BarfStrays.RepeatCostsTheRead | src/filesystem/BarfFileSystem.c:1363-1435 | a reply of pages already delivered of which one is looked up astray and found is such a miscount, whatever arrives afterwards |
| BarfStrays.RepeatEndsRead | src/filesystem/BarfFileSystem.c:1363-1435 | a repeated reply for the page below a re-based request is looked up in the count of pending pages, which is 1, and ends the read |
| BarfStrays.RepeatedReplyEndsRead | src/filesystem/BarfFileSystem.c:1308-1491 | the whole run: two pages asked for, the first delivered, a smart retry, the first reply repeated: done without an error, and the second page never came |
| BarfStrays.DoneYetEmpty | src/filesystem/BarfFileSystem.c:1355-1362 | a reply shifted by one page ends a read as done, without an error and with nothing delivered |
| BarfPageBits.SetPageBits | src/filesystem/BarfFileSystem.c:1125-1141 | exactly the first pages' bits are set |
| BarfPageBits.MissingPageRange | src/filesystem/BarfFileSystem.c:1663-1699 | finds the smallest and the largest set bit, or that there is none |
| BarfPageBits.UpdatePageBits | src/filesystem/BarfFileSystem.c:1707-1725 | the bits of a range move to the front, and the others are cleared |
| BarfRequests.ServerRequest.SmartRetry | src/filesystem/BarfFileSystem.c:1753-1858 | the set of missing pages is the same as before, the range asked for is the smallest that covers it, and the request is the one that the protocol's retry event leaves |
| BarfRequests.Rebased | src/filesystem/BarfFileSystem.c:1707-1725 | shifting the bits and moving the first page up by as much names the same pages |
| BarfRequests.SmartRetryIsRetried | src/filesystem/BarfFileSystem.c:1828-1858 | a request re-based at its first missing page is the protocol's retried one |
| BarfRequests.ServerRequest.Ask | src/filesystem/BarfFileSystem.c:2122-2169 | a new request misses exactly the pages it asks for |
| BarfRequests.WorkOrder.constructor | src/filesystem/BarfFileSystem.c:2295-2344 | the work order of a read is the protocol's first order |
| BarfRequests.ProcessMultiRead | src/filesystem/BarfFileSystem.c:1308-1491 | processing any reply in place, for all work orders, requests and contents of the memory around the bit vector, is the protocol's reply event; an order with pages left whose request is released needs attention, one without is done |
| BarfRequests.Settle | src/filesystem/BarfFileSystem.c:1439-1490 | on the fields: a request that waits for nothing is released and counted off, the order is done if no page is left, and is marked for the scheduler exactly if a request is released with pages left |
| BarfRequests.AttendTo | src/filesystem/BarfFileSystem.c:2122-2190 | the scheduler's loop, in place, is a run of the protocol's events that are due under the limits on the size of a request and on the number on the wire; unless a request is refused it leaves the order alone, and then its window is full or all its pages are asked for |
| BarfRequests.SubmitNext | src/filesystem/BarfFileSystem.c:2129-2169 | one turn of it: the next run of pages, of the size that the limit allows, becomes a fresh request that misses exactly these |
| BarfRequests.TakePages | src/filesystem/BarfFileSystem.c:1363-1435 | the copy loop, in place, is the protocol's page-by-page copying, lookups astray included |
| BarfRequests.TakePage | src/filesystem/BarfFileSystem.c:1371-1428 | one turn of it: what is found set is copied and ticked off, anything else is skipped as a duplicate |
| BarfRequests.ServerRequest.LookUp | src/filesystem/BarfFileSystem.c:1371-1375 | the lookup of a page in the words of the vector agrees with the set of missing pages, and outside the vector with the pending count, the first page's number and the memory around |
| BarfRequests.ServerRequest.Clear | src/filesystem/BarfFileSystem.c:1376 | clearing the bit found takes the page off the missing ones, or clears that bit of the pending count or of the first page's number |
| BarfRequests.WorkOrder.Deliver | src/filesystem/BarfFileSystem.c:1377-1391 | the page is stored at its place in the user's buffer and counted once |
| BarfRequests.PagesNamedIff | src/filesystem/BarfFileSystem.c:1363-1376 | the page-bit words of a reply exist exactly for replies from the request's first page on and within 256 pages |
| BarfWindow.BarfDisk.constructor | src/filesystem/BarfFileSystem.c:2870-2871 | the table starts empty with the full window of 32, and no number has been on the wire |
| BarfWindow.BarfDisk.GetServerRequest | src/filesystem/BarfFileSystem.c:525-610 | refused exactly if the window is full; otherwise its slot was free, it stands there unsent, no other slot has changed, the window invariant holds, and the number was on the wire before if and only if it was handed back after its request's write had timed out |
| BarfWindow.BarfDisk.MarkSent | src/filesystem/BarfFileSystem.c:703-717 | a request put on the wire stays outstanding under its number, is marked as sent, and its number is remembered as used; no other slot has changed |
| BarfWindow.BarfDisk.WriteTimedOut | src/filesystem/BarfFileSystem.c:2083-2102 | a request whose write timed out stays outstanding under its number, and counts as never sent although it may still get through |
| BarfWindow.BarfDisk.ReleaseSequenceNum | src/filesystem/BarfFileSystem.c:635-659 | exactly that request is gone, the number of the newest one is handed back exactly if it counts as unsent, the window starts at the oldest outstanding one, and the invariant holds |
| BarfWindow.BarfDisk.AdvanceOldest | src/filesystem/BarfFileSystem.c:648-659 | the window's start passes free slots only, and stops at the first request outstanding |
| BarfWindow.ReuseAfterTimeOut | src/filesystem/BarfFileSystem.c:2083-2102 | a request is sent, its write times out, and it is answered and released: the next request has the number that is still on the wire, and a late reply to the first one finds the second |
| BarfWindow.BarfDisk.LookUp | src/filesystem/BarfFileSystem.c:1176-1200 | a 16-bit number finds the one outstanding request it is the number of, or nothing if there is none |
| BarfWindow.BarfDisk.Started | src/filesystem/BarfFileSystem.c:1256-1263 | the window invariant survives the server's report if and only if no more numbers are in use than reported |
| BarfWindow.StartAtMount | src/filesystem/BarfFileSystem.c:3008-3024 | the report is asked for when the filesystem is mounted, by the first request: the window invariant survives every report but that of a window of 0 |
| BarfWindow.SlotsDiffer | src/filesystem/BarfFileSystem.c:664-679 | numbers less than a table apart never share a slot |
| BarfWindow.UpdateTimeOut | src/filesystem/BarfFileSystem.c:1639-1655 | both estimators stay non-negative and move towards what was seen without overshooting it, and the timeout is never below the delay just seen |
| DiscTime.TimeRoundTrip | src/dipir/lccddev.c:761-769 | a disc time gives back its block, and fits 24 bits, for every block of a disc |
| DiscTime.TimesDiffer | src/dipir/lccddev.c:761-769 | different blocks of a disc have different times |
| LowCostDisc.Reader.WaitReadBlock | src/dipir/lccddev.c:818-924 | what is handed over as good is the block asked for, whatever the DMA engine does meanwhile, if and only if the block is safe: not block 0 in a session that began elsewhere, of which nothing is acknowledged or about to be, while the empty buffer passes for a block 0 that it does not hold; if it is not safe, the run in which nothing happens meanwhile ends well with other data; at most 12 seeks. In any run laid down poll by poll, from a reader that keeps step with the engine and waits for a transfer still to come: the block is handed over as soon as it arrives without a flaw before the timeout, after one new seek for each pass that ended in a timeout or with a flawed block, and given up only after 12 of them |
| LowCostDisc.Reader.AwaitBlock | src/dipir/lccddev.c:833-866 | the polling loop goes on while the block is still to come, and ends with it in the buffer found, or, with a flawed one or at the timeout, in a restart |
| LowCostDisc.Reader.Clock | src/dipir/lccddev.c:841-852 | in a run laid down, the wait is given up exactly at the eleventh tenth of a second; otherwise the loop goes on with what is left of the run |
| LowCostDisc.Reader.RestartUntilRead | src/dipir/lccddev.c:914-923 | after the first pass, passes follow a new seek each until one ends well, at most 12; what they hand over is the block |
| LowCostDisc.Reader.ReadBlock | src/dipir/lccddev.c:929-935 | the same for a whole read, of the block last asked for with a drive that did not look open: what is handed over is the block asked for now if and only if the drive did not look open or the two blocks are alike; with one that looked open and the old block in a buffer, a read does end well. Of the runs laid down: a block that is far is sought once and then read as there; one that is coming, or close ahead, is read without a seek |
| LowCostDisc.Reader.ReadLate | src/dipir/lccddev.c:929-935 | a block that arrives after any number of polls is read, without a seek if it is the one after the last block read |
| LowCostDisc.ReadInOrder | src/dipir/lccddev.c:774-935 | a fresh reader asked for any number of blocks in order, each arriving after any number of polls, hands over each of them, and the disc was sought once |
| LowCostDisc.ReadOldBlock | src/dipir/lccddev.c:929-935 | a reader that has received one block is asked for another one while the drive looks open: the read ends well and hands over the old block |
| LowCostDisc.Reader.AsyncReadBlock | src/dipir/lccddev.c:774-799 | the block waited for changes exactly if the drive does not look open; a block that is safe stays so; at most one seek |
| LowCostDisc.Reader.SeekIfFar | src/dipir/lccddev.c:785-798 | the disc is sought exactly if the block is neither in a buffer nor close ahead of the latest one |
| LowCostDisc.Reader.CloseAheadIff | src/dipir/lccddev.c:791-797 | close ahead is one, two or three blocks behind the later of the two buffers' blocks |
| LowCostDisc.Reader.TakeBlock | src/dipir/lccddev.c:869-912 | after the checks the copy is the block asked for, if an empty buffer that passes for block 0 holds it |
| LowCostDisc.Reader.TimeIdentifies | src/dipir/lccddev.c:891-912 | a buffer still believed full, or empty, with the right time in its header, has had no later transfer |
| LowCostDisc.Reader.Believed | src/dipir/lccddev.c:736-755 | the buffer believed full is that of the latest acknowledged transfer, which is complete; before the first one it is the empty buffer of a session that began elsewhere |
| LowCostDisc.Reader.CopyOut | src/dipir/lccddev.c:805-813 | the copy is what the buffer held when it began, unless a later transfer began in the buffer meanwhile |
| LowCostDisc.Reader.CheckMarks | src/dipir/lccddev.c:869-887 | although the words are read one after the other, a buffer passes exactly if they agreed at the start, unless a later transfer has begun in it |
| LowCostDisc.Reader.CheckAgain | src/dipir/lccddev.c:891-912 | the second look tells that the transfer was the latest all along, and that nothing of it has changed |
| LowCostDisc.Reader.CopyAndCheck | src/dipir/lccddev.c:869-912 | what passes both looks had passed the first, with the right time, when it began, and has been copied as it was then |
| LowCostDisc.Reader.UpdateDMA | src/dipir/lccddev.c:715-755 | at most one completion is acknowledged, never more than there were, one that was flagged always, and the driver's view follows |
| LowCostDisc.Reader.StartPlaying | src/dipir/lccddev.c:637-712 | a new session starts at the block, with nothing acknowledged; the block is safe in it |
| LowCostDisc.Reader.EngineStep | src/dipir/lccddev.h:120-129 | header first, completion word last, ascending blocks: a complete transfer stays as it is until a later one begins in its place |
| LowCostDisc.Reader.Deliver | src/dipir/lccddev.h:120-129 | one whole transfer, flawed or not: in step with the driver, it fills the buffer that the driver believes is being filled, and is flagged |
| LowCostDisc.Reader.DeliverFirst | src/dipir/lccddev.h:120-129 | left alone after a session has begun, the engine delivers its first block whole, stamped and flagged |
| LowCostDisc.Reader.UnsafeIsPresented | src/dipir/lccddev.c:158-184 | where block 0 is not safe it is found in the empty buffer, which passes every check with other data |
| LowCostDisc.ReadZeroAtOnce | src/dipir/lccddev.c:929-935 | a fresh reader starts on another block and is asked for block 0 at once: the read ends well and hands over what the memory held |
| DiskSweep.SweepOptimal | src/filesystem/FileDriver.c:973-1059 | the two sweeps, nearer side first by an unsigned comparison that may wrap, move the head no farther than any other order |
| DiskSweep.OrderJobs | src/filesystem/FileDriver.c:973-1059 | sort, reversal and queueing in place give a permutation of the picked requests that no order beats |
| DiskSweep.SortJobs | src/filesystem/FileDriver.c:988-1012 | the exchange sort sorts and permutes, and finds the split at the head |
| DiskSweep.ReverseFront | src/filesystem/FileDriver.c:1019-1027 | the front part is reversed in place and the rest is kept |
| DiskSweep.ReachesBoth | src/filesystem/FileDriver.c:973-1059 | no order that serves two blocks is shorter than going to one and then to the other |
| DiskSweep.DistanceCounts | src/filesystem/FileDriver.c:786-797 | the distance between blocks n apart is n, either way |
| OptimizedDisk.ChooseAvatar | src/filesystem/FileDriver.c:779-803 | the copy chosen is one of the least flawed ones, and of those one nearest to the head |
| OptimizedDisk.BlocksFollow | src/filesystem/FileDriver.c:782-783 | the blocks of a copy follow one another from the copy's first block on |
| OptimizedDisk.HeadAtNextIff | src/filesystem/FileDriver.c:1129-1130 | where the head is taken to stand after a transfer is where the file goes on exactly if the filesystem's blocks are the device's, or nothing was read |
| OptimizedDisk.HighestPriority | src/filesystem/FileDriver.c:1375-1391 | the largest priority on the list |
| OptimizedDisk.WithPriorityHas | src/filesystem/FileDriver.c:690-711 | of the requests on a list those of one priority are taken as often as they are queued, and no others |
| OptimizedDisk.PickOff | src/filesystem/FileDriver.c:690-711 | the first requests of the top priority, up to the limit, and nothing is lost |
| OptimizedDisk.Disk.QueueRequest | src/filesystem/FileDriver.c:505-554 | a request in order waits on the to-do list; one above the running priority raises the boink |
| OptimizedDisk.Disk.Schedule | src/filesystem/FileDriver.c:657-1066 | a batch is the first requests of the highest priority waiting on either list, as many as the limit allows, deferred ones before new ones, on preferred copies and in a shortest order; every request is in exactly one place |
| OptimizedDisk.Disk.ChooseList | src/filesystem/FileDriver.c:657-680 | the list chosen has the highest priority of both |
| OptimizedDisk.Disk.StartIo | src/filesystem/FileDriver.c:1068-1136 | one transfer is sent for the head of the running list, from its block on, or every running request of an offline filesystem is completed with that error |
| OptimizedDisk.Disk.EndAction | src/filesystem/FileDriver.c:1184-1372 | the request is completed once, or waits again, exactly if its read failed for its medium or its parameters and the file has another copy, and then the copy it read counts one failure more, up to the limit, every other copy and file as many as before; a boink moves the running requests to the front of the deferred ones in order; at most one transfer is in flight, for the head of the running list and from its block on |
| OptimizedDisk.Disk.FinishTransfer | src/filesystem/FileDriver.c:1258-1309 | a read that failed for its medium, of a file with other copies, waits again and its copy, and only it, has failed once more, up to the limit; any other one is completed with its status |
| OptimizedDisk.Disk.Blame | src/filesystem/FileDriver.c:1287-1298 | the flaw of the copy that was read goes up by one below the soft limit and stays there at it; every other copy, and every other file, is as it was |
| OptimizedDisk.AnotherCopyNext | src/filesystem/FileDriver.c:779-803 | after a failure below the limit, if another copy was no more flawed, the copy that failed is not among those preferred next, wherever the head stands |
| OptimizedDisk.Disk.DeferRunning | src/filesystem/FileDriver.c:1317-1325 | the running requests keep their order at the front of the deferred list |
| OptimizedDisk.Disk.Abort | src/filesystem/FileDriver.c:1145-1169 | the request in flight is left to its end action, any other one is completed at once, and only it |
| FileNodes.FileFolio.TrimAllZeroUseFiles | src/filesystem/OpenClose.c:431-452 | one pass leaves no unused node; whoever was deleted was held by nobody |
| FileNodes.FileFolio.TrimSomeZeroUseFiles | src/filesystem/OpenClose.c:405-429 | of the unused nodes the first 16 on the list are kept, and no other one is left |
| FileNodes.FileFolio.FirstMeans | src/filesystem/OpenClose.c:414-427 | these are the unused nodes with fewer than so many unused ones before them |
| FileNodes.FileFolio.OpenAFile | src/filesystem/OpenClose.c:556-623 | the node opened is kept and, unless a directory, comes first; children stay before their parents; every eighth time unused nodes are scavenged, and none that is held |
| FileNodes.FileFolio.CleanupOpenFile | src/filesystem/OpenClose.c:508-554 | one reference less; the node goes only if it was the last and its information must not be kept |
| FileNodes.FileFolio.AddNode | src/filesystem/OpenClose.c:1257-1326 | a new node stands before its parent and is counted there; the counts stay exact if and only if the entry is not refused |
| FileNodes.FileFolio.MountRoot | src/filesystem/MountFileSystem.c:682-707 | a root is listed before the root of the world and locked in |
| FileNodes.FileFolio.constructor | src/filesystem/FileDriver.c:252-286 | the folio starts with the root of the world listed, a directory of no filesystem that is held once and counted once |
| FileNodes.FileFolio.DeleteFileItem | src/filesystem/FileFolio.c:640-690 | a node goes if and only if it is unused, and then nobody holds it and it has no children |
| FileNodes.FileFolio.SwitchDirectory | src/filesystem/FileFolio.c:520-585 | a task's reference moves from one directory to the other |
| FileNodes.FileFolio.DeleteFileTask | src/filesystem/FileFolio.c:713-745 | the task's references are given up, and unless it is a thread no unused node is left |
| FileNodes.FileFolio.ReleasePass | src/filesystem/MountFileSystem.c:886-918 | after one pass every node of the filesystem that is left is in use, and they are counted; only unheld nodes of that filesystem went; nothing goes in a filesystem all of whose nodes are in use |
| FileNodes.FileFolio.Dismount | src/filesystem/MountFileSystem.c:884-941 | the repeated passes are at most two; if the filesystem is released all its nodes are gone and its root was held by the mount alone; if it is busy all its nodes left are in use; no held node is deleted |
| FileNodes.WithoutLeaf | src/filesystem/FileFolio.c:684-688 | deleting a node without children leaves every child before its parent |
| FileNodes.ToHead | src/filesystem/OpenClose.c:615-618 | so does moving such a node to the head |
| DirectoryCache.Cache.Lookup | src/filesystem/OpenClose.c:1106-1252 | if the cache is not used or can be trusted for the directory, a name is found if and only if a scan along the chain without a cache finds it, and is that scan's record if no name occurs in two blocks; otherwise the same holds of the directory as the cache shows it, with the page of the first entry that looks like block 0 in place of that block; in any case what that entry holds under the name is the answer. It ends in a read error only if a block that cannot be read stands in the chain in front of the name, and without the cache exactly then; with every block readable there is none. A name that the cache holds is found without a read, one found is held afterwards, and a lookup that the first pass does not answer ages the entries once; the cache stays ordered, unique and, but for entries without identifiers, true to the medium |
| DirectoryCache.Cache.RightIffSame | src/filesystem/OpenClose.c:1541-1551 | if that page links on as block 0 does and no name occurs in two blocks, every name is answered rightly if and only if the page holds under every name what block 0 holds under it |
| DirectoryCache.Cache.CachePass | src/filesystem/OpenClose.c:1128-1202 | what the first pass finds by number, in a cache that holds these blocks of the directory, is right for them whatever the chain's order; it finds a name exactly if an entry of a block of that number holds it |
| DirectoryCache.Cache.ChainPass | src/filesystem/OpenClose.c:1115-1236 | the second pass agrees with the plain scan of the blocks that it sees, which are the directory as the cache shows it or, without a cache, the medium, up to the first that cannot be read, and then follows no more links than there are blocks; only such a block makes it fail |
| DirectoryCache.InPageFirst | src/filesystem/OpenClose.c:1188-1202 | the scan of a block finds the first record of the name, or there is none |
| DirectoryCache.ChainShort | src/filesystem/OpenClose.c:1210-1230 | a chain of blocks that ends visits none of them twice |
| DirectoryCache.ChainUnique | src/filesystem/OpenClose.c:1203-1236 | a directory has one chain at most |
| DirectoryCache.Cache.FindCache | src/filesystem/OpenClose.c:1531-1551 | finds the first entry for the block if there is one |
| DirectoryCache.Cache.AddCacheEntry | src/filesystem/OpenClose.c:1553-1586 | refuses a block larger than a page of the cache, replaces the last entry unless that has a higher priority, keeps the order, and keeps a cache that holds a directory's blocks holding them; a block taken in is found there afterwards |
| DirectoryCache.Cache.AgeCache | src/filesystem/OpenClose.c:1588-1602 | every positive priority drops by one although the loop stops at the first zero |
| DirectoryCache.AgedBy | src/filesystem/OpenClose.c:1588-1602 | ageing takes one off a positive priority and changes nothing else |
| DirectoryCache.Cache.constructor | src/filesystem/FileFolio.c:468-499 | a new cache has only unfilled entries: no identifiers, block 0, and a page of whatever the memory held |
| DirectoryCache.InsertNodeFromTail | src/filesystem/OpenClose.c:1581-1584 | the entry is queued behind those of its own or a higher priority |
| DirectoryCache.FoundInChain | src/filesystem/OpenClose.c:1188-1202 | a record found in any block of the chain is an answer of the plain scan's kind |
| DirectoryCache.UnfilledAnswers | src/filesystem/OpenClose.c:1541-1547 | a directory without identifiers, looked up in a fresh cache: a name that the memory of the first entry happens to hold is found although the directory does not have it |
| SignedImage.Dipir.ReadOsComponentCd | src/dipir/cdromdipir.c:96-178 | exactly the bytes before the last 64 are digested and copied, and the last 64 are the signature, if and only if all that it reads can be read; it gives up exactly if one of the whole blocks cannot; no buffer is looked at while a read into it is under way |
| SignedImage.Dipir.ReadOsComponentFmv | src/dipir/fmvdipir.c:41-129 | the same with synchronous reads, which are all checked: it comes to its end if and only if all that it reads can be read |
| SignedImage.Dipir.LoadDepot | src/dipir/depotdipir.c:27-87 | the same with small blocks, for every size from a bare signature on |
| SignedImage.Dipir.TakeSignature | src/dipir/cdromdipir.c:153-170 | the signature is whole whether or not it straddles a block |
| SignedImage.Dipir.TakeBlock | src/dipir/cdromdipir.c:117-143 | a block joins on to what was digested and copied before it |
| SignedImage.Dipir.Straddles | src/dipir/cdromdipir.c:159-170 | its two parts are the last bytes of the image |

## Left out

- LinkedMemDevice.LinkedMemDisk.AllocBlocks: the method in place takes counts that are roomy; what the code does with the others is proved about its state machine in `LinkedMemShrink`, up to the transfer that does the harm.
- LinkedMemRuns.AddEntryRuns: takes a volume whose device block is at most 256 bytes, the size of the copy buffer; with a larger one a chunk of the copy loop is zero blocks (`LinkedMem.Mount`).
- LinkedMemRuns.AllocBlocksRuns: takes a count and a wanted size that fit an int32.
- The allocator's SETEOF, SETTYPE, READDIR, READENTRY and FSSTAT commands, and reading and writing file data: one or two transfers each.
- A raw transfer that fails: it ends the request where it stands, which "tiled after every transfer" covers; what a user is told is not modelled.
- FileStream.Session: device reads succeed and are complete, the buffer is a whole number of blocks, and the last block is whole on the medium; `CloseDiskStream` and the error flag are not modelled.
- BarfProtocol.TransferSound: replies come with the file's own data and do no harm, see `BarfStrays.ReplySoundIff`; what memory a stray lookup finds beyond the fields named in `BarfProtocol.BitSet` is a parameter, and what clearing a bit there does to it is not modelled.
- BarfRequests.ProcessMultiRead: counts whole blocks; the short last block of a file, and statistics, timers and the network below the replies are left out, as is the single-block read, which has one reply.
- BarfRequests.AttendTo: the limits on the size of a request and on the number on the wire are parameters, of at least 1, and so are the sequence numbers of the requests it is given; that it is called again for an order marked, and that some reply ever arrives, is the business of the daemon and the network.
- BarfWindow.BarfDisk.GetServerRequest: sequence numbers do not wrap around 2^32, and memory for requests is there.
- BarfWindow.UpdateTimeOut: delays are not negative and the estimators do not overflow an int32.
- LowCostDisc.Reader.WaitReadBlock: error correction is not modelled; a block flagged as flawed is read again, as after a correction that failed. Blocks have the disc's 2048 bytes of data. In the runs that are laid down the engine rests while a block found is checked and copied; what may happen then is covered by the runs in which anything does.
- Catapult files of the optimised disk, and interleaved files, which the code leaves out by a switch of its own.
- OptimizedDisk.Disk.EndAction: that a request is not tried again for ever is not claimed: of a file with several copies that all fail it is.
- FileNodes.FileFolio.OpenAFile: creating the open-file item succeeds; the path parsing, aliases and links of `FindFile` around it are left out. That `FindFile` does not itself hold the directory it stands in is not modelled.
- FileNodes.FileFolio.MountRoot: the root of the world's link to itself is left out; it is locked in for good.
- DirectoryCache.Cache.Lookup: the directory's chain ends, and so does the one that the cache shows; entries of blocks that neither of them visits, which a scan led astray by an entry since replaced may have left, are not among those the statement covers; no catapult page is in the list; memory in an unfilled entry is read as some page of records; a scan that has been led astray by such an entry, and has followed more links than there are blocks, is cut off there.
- SignedImage.Dipir.ReadOsComponentCd: the image has at least one block and the signature, as the code's unsigned block count requires; the digest and the signature's check are left out.
- Kernel lists, items, tasks and semaphores, the XBus, and everything below the raw device.
- The Mac file system, table-of-contents parsing, boot policy and display code, and the command-line tools.
