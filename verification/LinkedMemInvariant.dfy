/**
 What the state machine keeps true between any two raw transfers, state by state, and the
 proof that every activation followed by its transfer keeps it.
 */
module LinkedMemInvariant {
  import opened LinkedMem

  function H(m: Medium, b: int): Header { ReadHeader(m, b) }

  function Next(m: Medium, b: int): int { H(m, b).flink }

  /** The cursor that follows a block ending at e: the list wraps to the anchor at the end of the volume. */
  function Wrap(v: Volume, e: int): int { if e == v.limit then v.root else e }

  // ---------------------------------------------------------------- shape of the block list

  /** The linked blocks s tile [root, limit): each ends where its forward link points, and none overlap. */
  ghost predicate Tiled(v: Volume, m: Medium, s: set<int>) {
    && v.root in s
    && (forall b | b in s ::
          && b in m.headers
          && v.root <= b
          && 0 < H(m, b).blockCount
          && b + H(m, b).blockCount <= v.limit
          && H(m, b).flink == Wrap(v, b + H(m, b).blockCount))
    && (forall b {:trigger Next(m, b)} | b in s :: Next(m, b) in s)
    && (forall b, c | b in s && c in s && b < c :: b + H(m, b).blockCount <= c)
  }

  /** How many blocks the file's bytes take. */
  function ContentBlocks(v: Volume, h: Header): int
    requires v.Valid()
  {
    HowMany(h.byteCount, v.blockSize)
  }

  /** They hold all of the file's bytes, with less than a block to spare, and the header in front of them likewise. */
  lemma ContentCovers(v: Volume, h: Header, root: int, limit: int, blockSize: int)
    requires 0 < root < limit < 0x8000_0000 && 0 < blockSize <= LINKED_MEM_COPY_BUFFER_SIZE
    requires v == Mount(root, limit, blockSize) && 0 < h.byteCount
    ensures h.byteCount <= ContentBlocks(v, h) * blockSize < h.byteCount + blockSize
    ensures SIZEOF_LINKED_MEM_FILE_ENTRY + h.byteCount <= Need(v, h) * blockSize
    ensures Need(v, h) * blockSize < SIZEOF_LINKED_MEM_FILE_ENTRY + h.byteCount + 2 * blockSize
  {
    HowManyCovers(h.byteCount, blockSize);
    BothCovered(SIZEOF_LINKED_MEM_FILE_ENTRY, v.fileHeaderBlocks, h.byteCount, ContentBlocks(v, h), blockSize);
  }

  lemma BothCovered(m: int, a: int, n: int, b: int, unit: int)
    requires (a - 1) * unit < m <= a * unit && (b - 1) * unit < n <= b * unit
    ensures n <= b * unit < n + unit
    ensures m + n <= (a + b) * unit < m + n + 2 * unit
  {
    assert (a - 1) * unit == a * unit - unit && (b - 1) * unit == b * unit - unit;
    assert (a + b) * unit == a * unit + b * unit;
  }

  /** The blocks that a file's header and content take. */
  function Need(v: Volume, h: Header): int
    requires v.Valid()
  {
    v.fileHeaderBlocks + ContentBlocks(v, h)
  }

  /** Exactly the first block is the anchor; every other block is a file or free and holds a file entry;
      a file's content fits behind its header. */
  ghost predicate Sized(v: Volume, m: Medium, s: set<int>)
    requires v.Valid()
  {
    forall b | b in s :: Fits(v, b, H(m, b))
  }

  ghost predicate Fits(v: Volume, b: int, h: Header)
    requires v.Valid()
  {
    && (h.IsAnchor() <==> b == v.root)
    && (b != v.root ==> (h.IsFile() || h.IsFree()) && v.fileHeaderBlocks <= h.blockCount)
    && (h.IsFile() ==>
          0 <= h.byteCount && h.headerBlockCount == v.fileHeaderBlocks && Need(v, h) <= h.blockCount)
  }

  /** Back links invert forward links, except possibly into the block `stale`. */
  ghost predicate BackLinked(m: Medium, s: set<int>, stale: int) {
    forall b {:trigger Next(m, b)} | b in s && Next(m, b) != stale :: H(m, Next(m, b)).blink == b
  }

  /** No two neighbouring blocks are both free, except possibly next to the block `dirty`. */
  ghost predicate Coalesced(m: Medium, s: set<int>, dirty: int) {
    forall b {:trigger Next(m, b)} | b in s && H(m, b).IsFree() && H(m, Next(m, b)).IsFree() ::
      b == dirty || Next(m, b) == dirty
  }

  const NONE := -1

  ghost predicate Shape(v: Volume, m: Medium, s: set<int>, stale: int, dirty: int)
    requires v.Valid()
  {
    Tiled(v, m, s) && Sized(v, m, s) && BackLinked(m, s, stale) && Coalesced(m, s, dirty)
  }

  ghost predicate WellFormed(v: Volume, m: Medium, s: set<int>)
    requires v.Valid()
  {
    Shape(v, m, s, NONE, NONE)
  }

  // ---------------------------------------------------------------- relation to the medium at the start of the run

  predicate SameButBlink(h: Header, k: Header) { k == h.(blink := k.blink) }

  predicate SameFile(h: Header, k: Header) {
    h.name == k.name && h.byteCount == k.byteCount && h.fileType == k.fileType && h.uniqueId == k.uniqueId
  }

  ghost predicate SameCells(v: Volume, m0: Medium, m: Medium, b: int)
    requires v.Valid()
  {
    forall i {:trigger m.data(i)} | b + v.fileHeaderBlocks <= i < b + H(m0, b).blockCount :: m.data(i) == m0.data(i)
  }

  /** Every block in use at the start, except ex, is still there, unchanged but for its back link. */
  ghost predicate Kept(v: Volume, m0: Medium, s0: set<int>, m: Medium, s: set<int>, ex: int)
    requires v.Valid()
  {
    forall b | b in s0 && b != ex && !H(m0, b).IsFree() ::
      b in s && SameButBlink(H(m0, b), H(m, b)) && SameCells(v, m0, m, b)
  }

  ghost predicate NoNewFiles(m0: Medium, s0: set<int>, m: Medium, s: set<int>, taken: int) {
    forall b | b in s && H(m, b).IsFile() && b != taken :: b in s0 && H(m0, b).IsFile()
  }

  /** The run's constants and the current set of linked blocks: the medium and its blocks at the start,
      the block of the file acted on, and the free block taken over (NONE until one is); and what stood in memory
      behind the current header, the fingerprint of the record's other block, at the start. */
  datatype Ghost = Ghost(m0: Medium, s0: set<int>, behind: int, s: set<int>, target: int, taken: int)

  ghost predicate Based(v: Volume, g: Ghost, m: Medium, stale: int, dirty: int, ex: int)
    requires v.Valid()
  {
    && WellFormed(v, g.m0, g.s0)
    && Shape(v, m, g.s, stale, dirty)
    && Kept(v, g.m0, g.s0, m, g.s, ex)
    && NoNewFiles(g.m0, g.s0, m, g.s, g.taken)
  }

  /** Nothing has been written yet. */
  ghost predicate Untouched(v: Volume, g: Ghost, m: Medium)
    requires v.Valid()
  {
    g.s == g.s0 && g.taken == NONE && m == g.m0 && WellFormed(v, m, g.s)
  }

  /** The block x holds the file the request is to leave behind: a taken empty entry, or the target with its content. */
  ghost predicate Placed(v: Volume, r: Request, g: Ghost, m: Medium, x: int)
    requires v.Valid()
  {
    && x in g.s
    && H(m, x).IsFile()
    && match r.command
       case AddEntry =>
         && H(m, x).name == Truncated(r.name) && H(m, x).byteCount == 0
         && H(m, x).fileType == BLANK_TYPE && H(m, x).uniqueId == 0
       case AllocBlocks =>
         var h := H(g.m0, g.target);
         SameFile(H(m, x), h) && ContentCopied(v, g.m0, m, g.target, x, ContentBlocks(v, h))
       case DeleteEntry => true
  }

  /** The first n content cells of the block x equal those the block t had at the start. */
  ghost predicate ContentCopied(v: Volume, m0: Medium, m: Medium, t: int, x: int, n: int)
    requires v.Valid()
  {
    forall j {:trigger m.data(j)} | x + v.fileHeaderBlocks <= j < x + v.fileHeaderBlocks + n ::
      m.data(j) == m0.data(j - x + t)
  }

  predicate Suits(m: Medium, b: int, size: int) { H(m, b).IsFree() && Unsigned(size) <= H(m, b).blockCount }

  /** What is left of a block once its surplus over the wanted size has been split off, if it is large enough. */
  function Cut(blockCount: int, size: int): int {
    if UnsignedDifference(blockCount, size) < SPLIT_LIMIT then blockCount else size
  }

  /** The file's block can grow in place: the next block follows it on the medium, is free and large enough. */
  predicate CanAbsorb(m: Medium, t: int, extra: int) {
    t < Next(m, t) && Suits(m, Next(m, t), extra)
  }

  /** The block taken over is the first free block, from the anchor up, of at least the wanted size; for an
      allocation, only when the file's block cannot grow in place, and it holds the file even when it is cut. */
  ghost predicate FirstFit(v: Volume, r: Request, g: Ghost, size: int)
    requires v.Valid()
  {
    && IsFirstFit(g.m0, g.s0, size, g.taken)
    && (r.command.AllocBlocks? ==>
          && !CanAbsorb(g.m0, g.target, r.offset)
          && Need(v, H(g.m0, g.target)) <= Cut(H(g.m0, g.taken).blockCount, size))
  }

  ghost predicate IsFirstFit(m: Medium, s: set<int>, size: int, n: int) {
    n in s && Suits(m, n, size) && forall b | b in s && b < n :: !Suits(m, b, size)
  }

  /** The block that the search for the wanted size finds, if it finds one, holds the file of the block t. */
  ghost predicate Roomy(v: Volume, m: Medium, s: set<int>, t: int, size: int)
    requires v.Valid()
  {
    forall n | IsFirstFit(m, s, size, n) :: Need(v, H(m, t)) <= Cut(H(m, n).blockCount, size)
  }

  ghost function Files(m: Medium, s: set<int>): set<int> {
    set b | b in s && H(m, b).IsFile()
  }

  /** The scan position remembered from an earlier request, if any, is a file's block. */
  ghost predicate Remembered(d: Device, m: Medium, s: set<int>) {
    0 < d.entryOffset ==> d.entryOffset in Files(m, s)
  }

  /** The request is an add or an allocation, and asks for a block of this size. */
  ghost predicate Acquiring(v: Volume, r: Request, g: Ghost, size: int)
    requires v.Valid()
  {
    match r.command
    case AddEntry => g.target == NONE && size == v.fileHeaderBlocks
    case AllocBlocks => AllocTarget(v, r, g) && size == H(g.m0, g.target).blockCount + r.offset
    case DeleteEntry => false
  }

  ghost predicate AllocTarget(v: Volume, r: Request, g: Ghost) {
    && g.target in g.s0 && H(g.m0, g.target).IsFile()
    && -0x8000_0000 <= r.offset && H(g.m0, g.target).blockCount + r.offset < 0x8000_0000
  }

  /** The File node agrees with the target's header. */
  ghost predicate NodeAgrees(v: Volume, g: Ghost, d: Device) {
    d.fileAvatar == g.target && d.fileBlocks == H(g.m0, g.target).blockCount - v.fileHeaderBlocks
  }

  ghost predicate HoldsTarget(v: Volume, r: Request, g: Ghost, d: Device) {
    r.command.AllocBlocks? ==>
      d.thisCursor == g.target && NodeAgrees(v, g, d) && d.thisBlock == H(g.m0, g.target)
  }

  // ---------------------------------------------------------------- invariants of the single states

  ghost predicate InInitialization(v: Volume, r: Request, g: Ghost, w: World)
    requires v.Valid()
  {
    && Untouched(v, g, w.medium) && Acquiring(v, r, g, w.dev.desiredSize) && Remembered(w.dev, g.m0, g.s0)
    && (r.command.AllocBlocks? ==> w.dev.thisCursor == g.target && NodeAgrees(v, g, w.dev))
  }

  ghost predicate InCheckIsThisLast(v: Volume, r: Request, g: Ghost, w: World)
    requires v.Valid()
  {
    && Untouched(v, g, w.medium) && Acquiring(v, r, g, w.dev.desiredSize) && r.command.AllocBlocks?
    && HoldsTarget(v, r, g, w.dev) && w.dev.mergeCursor == 0 && Remembered(w.dev, g.m0, g.s0)
  }

  ghost predicate InCheckSuccessor(v: Volume, r: Request, g: Ghost, w: World)
    requires v.Valid()
  {
    && InCheckIsThisLast(v, r, g, w)
    && w.dev.otherCursor == w.dev.thisBlock.flink && w.dev.thisCursor <= w.dev.otherCursor
    && w.dev.otherBlock == H(g.m0, w.dev.otherCursor)
  }

  ghost predicate InExamineNewBlock(v: Volume, r: Request, g: Ghost, w: World)
    requires v.Valid()
  {
    var d := w.dev;
    && Untouched(v, g, w.medium) && Acquiring(v, r, g, d.desiredSize) && HoldsTarget(v, r, g, d) && d.mergeCursor == 0
    && Remembered(d, g.m0, g.s0)
    && d.otherCursor in g.s && d.otherBlock == H(g.m0, d.otherCursor)
    && (r.command.AllocBlocks? ==> !CanAbsorb(g.m0, g.target, r.offset))
    && forall b | b in g.s && b < d.otherCursor :: !Suits(g.m0, b, d.desiredSize)
  }

  /** A new block has been taken over for the file, and `done` cells have been copied to it. */
  ghost predicate Copying(v: Volume, r: Request, g: Ghost, m: Medium, size: int, done: int)
    requires v.Valid()
  {
    && Based(v, g, m, NONE, NONE, NONE) && g.s == g.s0
    && r.command.AllocBlocks? && Acquiring(v, r, g, size)
    && FirstFit(v, r, g, size)
    && (forall b | b in g.s && b != g.taken :: H(m, b) == H(g.m0, b))
    && H(m, g.taken).blockCount == H(g.m0, g.taken).blockCount
    && H(m, g.taken).flink == H(g.m0, g.taken).flink
    && H(m, g.taken).IsFile() && SameFile(H(m, g.taken), H(g.m0, g.target))
    && 0 <= done <= ContentBlocks(v, H(g.m0, g.target))
    && ContentCopied(v, g.m0, m, g.target, g.taken, done)
  }

  ghost predicate InCopy(v: Volume, r: Request, g: Ghost, w: World, done: int)
    requires v.Valid()
  {
    var d := w.dev;
    && Copying(v, r, g, w.medium, d.desiredSize, done)
    && HoldsTarget(v, r, g, d) && d.mergeCursor == 0 && Remembered(d, g.m0, g.s0)
    && d.otherCursor == g.taken && d.otherBlock == H(w.medium, g.taken)
    && done + d.blocksToCopy == ContentBlocks(v, H(g.m0, g.target))
  }

  ghost predicate InReadToCopy(v: Volume, r: Request, g: Ghost, w: World)
    requires v.Valid()
  {
    && InCopy(v, r, g, w, w.dev.contentOffset + w.dev.blocksToRead - v.fileHeaderBlocks)
    && 0 < w.dev.blocksToCopy
  }

  ghost predicate InWriteCopiedData(v: Volume, r: Request, g: Ghost, w: World)
    requires v.Valid()
  {
    var d := w.dev;
    && InCopy(v, r, g, w, d.contentOffset - v.fileHeaderBlocks)
    && 0 < d.blocksToRead <= d.blocksToCopy
    && |d.copyBuffer| == d.blocksToRead
    && forall i | 0 <= i < d.blocksToRead :: d.copyBuffer[i] == g.m0.data(g.target + d.contentOffset + i)
  }

  ghost predicate InCopyDone(v: Volume, r: Request, g: Ghost, w: World)
    requires v.Valid()
  {
    InCopy(v, r, g, w, ContentBlocks(v, H(g.m0, g.target)))
  }

  /** The file sits in the block x; the old block of a moved file is still to be merged at `merge`. */
  ghost predicate Settled(v: Volume, r: Request, g: Ghost, m: Medium, size: int, x: int, stale: int, merge: int)
    requires v.Valid()
  {
    && Based(v, g, m, stale, if merge != 0 then merge else NONE, g.target)
    && Acquiring(v, r, g, size) && Placed(v, r, g, m, x)
    && (if r.command.AllocBlocks? && merge == 0 then x == g.target && g.taken == NONE && CanAbsorb(g.m0, x, r.offset)
        else g.taken == x && FirstFit(v, r, g, size) && x != g.target)
    && (r.command.AddEntry? ==> merge == 0)
    && (merge != 0 ==> merge == g.target && g.target in g.s && H(m, g.target).IsFree() && g.target != x)
  }

  ghost predicate Settling(v: Volume, r: Request, g: Ghost, w: World, x: int, stale: int)
    requires v.Valid()
  {
    && Settled(v, r, g, w.medium, w.dev.desiredSize, x, stale, w.dev.mergeCursor)
    && (r.command.AllocBlocks? ==> w.dev.fileAvatar == x)
    && Remembered(w.dev, g.m0, g.s0)
  }

  /** The device holds the file's block, which is large enough, as its current block. */
  ghost predicate Fitted(v: Volume, r: Request, g: Ghost, d: Device, m: Medium)
    requires v.Valid()
  {
    && Settled(v, r, g, m, d.desiredSize, d.thisCursor, d.thisBlock.flink, d.mergeCursor)
    && (r.command.AllocBlocks? ==> d.fileAvatar == d.thisCursor)
    && Remembered(d, g.m0, g.s0)
    && H(m, d.thisCursor) == d.thisBlock && 0 <= d.desiredSize <= d.thisBlock.blockCount
    && Need(v, d.thisBlock) <= Cut(d.thisBlock.blockCount, d.desiredSize)
    && (H(m, d.thisBlock.flink).IsFree() ==> d.thisBlock.flink == d.mergeCursor)
  }

  ghost predicate InCutTheSlack(v: Volume, r: Request, g: Ghost, w: World)
    requires v.Valid()
  {
    Fitted(v, r, g, Adopted(r, w.dev), w.medium)
  }

  ghost predicate InCutOffExcess(v: Volume, r: Request, g: Ghost, w: World)
    requires v.Valid()
  {
    var d := w.dev;
    && Fitted(v, r, g, d, w.medium)
    && d.otherCursor == d.thisCursor + d.desiredSize
    && d.otherCursor in w.medium.headers && H(w.medium, d.otherCursor) == d.otherBlock
    && d.otherBlock.IsFree() && d.otherBlock.flink == d.thisBlock.flink && d.otherBlock.blink == d.thisCursor
    && d.otherBlock.blockCount == d.thisBlock.blockCount - d.desiredSize
    && SPLIT_LIMIT <= d.otherBlock.blockCount
  }

  ghost predicate InGetOldBackLink(v: Volume, r: Request, g: Ghost, w: World)
    requires v.Valid()
  {
    var d := w.dev;
    && Settling(v, r, g, w, d.thisCursor, d.otherBlock.flink)
    && H(w.medium, d.thisCursor) == d.thisBlock && d.thisBlock.blockCount == d.desiredSize
    && d.otherCursor == d.thisBlock.flink && d.otherCursor != v.root
    && H(w.medium, d.otherCursor) == d.otherBlock
  }

  ghost predicate InFixOldBackLink(v: Volume, r: Request, g: Ghost, w: World)
    requires v.Valid()
  {
    var d := w.dev;
    && Settling(v, r, g, w, d.thisCursor, d.otherCursor)
    && H(w.medium, d.thisCursor) == d.thisBlock
    && d.desiredSize <= d.thisBlock.blockCount < d.desiredSize + SPLIT_LIMIT
    && H(w.medium, d.otherCursor) == d.otherBlock
    && (d.otherCursor == d.thisBlock.flink ||
        (d.thisBlock.flink != v.root && H(w.medium, d.thisBlock.flink).flink == d.otherCursor))
    && d.otherCursor in g.s
  }

  ghost predicate InSuccessfulChomp(v: Volume, r: Request, g: Ghost, w: World)
    requires v.Valid()
  {
    var d := w.dev;
    && Settling(v, r, g, w, d.thisCursor, NONE)
    && H(w.medium, d.thisCursor) == d.thisBlock
    && d.desiredSize <= d.thisBlock.blockCount < d.desiredSize + SPLIT_LIMIT
    && d.otherBlock.IsBlock()
  }

  /** The target's block has been, or is about to be, given up; for a moved file the new block is settled. */
  ghost predicate Released(v: Volume, r: Request, g: Ghost, m: Medium, size: int, dirty: int, stale: int)
    requires v.Valid()
  {
    && Based(v, g, m, stale, dirty, g.target)
    && g.target in g.s0 && H(g.m0, g.target).IsFile()
    && match r.command
       case AddEntry => false
       case AllocBlocks =>
         && Acquiring(v, r, g, size) && FirstFit(v, r, g, size) && g.taken != g.target
         && Placed(v, r, g, m, g.taken)
         && size <= H(m, g.taken).blockCount < size + SPLIT_LIMIT
       case DeleteEntry => g.taken == NONE
  }

  ghost predicate Releasing(v: Volume, r: Request, g: Ghost, w: World, dirty: int, stale: int)
    requires v.Valid()
  {
    var d := w.dev;
    && Released(v, r, g, w.medium, d.desiredSize, dirty, stale)
    && match r.command
       case AddEntry => false
       case AllocBlocks =>
         d.fileAvatar == g.taken && d.fileBlocks == H(w.medium, g.taken).blockCount - v.fileHeaderBlocks
       case DeleteEntry => NameMatches(H(g.m0, g.target), g.behind, Truncated(r.name))
  }

  ghost predicate InMarkItFree(v: Volume, r: Request, g: Ghost, w: World)
    requires v.Valid()
  {
    && r.command.AllocBlocks? && Releasing(v, r, g, w, g.target, NONE)
    && g.target in g.s && H(w.medium, g.target).IsFree()
    && w.dev.thisCursor == g.target && w.dev.thisBlock == H(w.medium, g.target)
  }

  /** Every linked block from a up to and including the target is free. */
  ghost predicate FreeUpTo(g: Ghost, m: Medium, a: int) {
    forall b | b in g.s && a <= b <= g.target :: H(m, b).IsFree()
  }

  ghost predicate InBackUpOne(v: Volume, r: Request, g: Ghost, w: World)
    requires v.Valid()
  {
    && Releasing(v, r, g, w, g.target, NONE)
    && g.target in g.s && H(w.medium, g.target).IsFree()
    && w.dev.thisCursor in g.s && w.dev.thisBlock == H(w.medium, w.dev.thisCursor)
    && w.dev.thisCursor <= g.target && FreeUpTo(g, w.medium, w.dev.thisCursor + 1)
    && w.dev.entryOffset == 0
  }

  ghost predicate InScanAhead(v: Volume, r: Request, g: Ghost, w: World)
    requires v.Valid()
  {
    var d := w.dev;
    && Releasing(v, r, g, w, g.target, NONE)
    && d.thisCursor in g.s && d.thisBlock == H(w.medium, d.thisCursor)
    && g.target in g.s && d.thisCursor <= g.target && FreeUpTo(g, w.medium, d.thisCursor)
    && (forall p | p in g.s && H(w.medium, p).flink == d.thisCursor :: !H(w.medium, p).IsFree())
    && d.entryOffset == 0
  }

  /** The block at thisCursor as it will be: it spans every linked block in [thisCursor, thisCursor + count). */
  ghost predicate Absorbing(v: Volume, g: Ghost, m: Medium, d: Device) {
    && d.thisCursor in g.s && g.target in g.s && d.thisCursor <= g.target
    && FreeUpTo(g, m, d.thisCursor)
    && d.thisBlock == H(m, d.thisCursor).(blockCount := d.thisBlock.blockCount, flink := d.thisBlock.flink)
    && H(m, d.thisCursor).blockCount <= d.thisBlock.blockCount
    && d.thisCursor + d.thisBlock.blockCount <= v.limit
    && d.thisBlock.flink == Wrap(v, d.thisCursor + d.thisBlock.blockCount)
    && d.otherCursor == d.thisBlock.flink && d.otherCursor in g.s
    && (forall b | b in g.s && d.thisCursor <= b < d.thisCursor + d.thisBlock.blockCount ::
          H(m, b).IsFree() && b + H(m, b).blockCount <= d.thisCursor + d.thisBlock.blockCount)
    && (forall p | p in g.s && H(m, p).flink == d.thisCursor :: !H(m, p).IsFree())
    && d.entryOffset == 0
  }

  ghost predicate InAttemptMerge(v: Volume, r: Request, g: Ghost, w: World)
    requires v.Valid()
  {
    && Releasing(v, r, g, w, g.target, NONE) && Absorbing(v, g, w.medium, w.dev)
    && w.dev.otherBlock == H(w.medium, w.dev.otherCursor)
  }

  ghost predicate InFixFlink(v: Volume, r: Request, g: Ghost, w: World)
    requires v.Valid()
  {
    var d := w.dev;
    && Releasing(v, r, g, w, g.target, d.otherCursor) && Absorbing(v, g, w.medium, d)
    && !H(w.medium, d.otherCursor).IsFree() && H(w.medium, d.otherCursor).blink == d.thisCursor
  }

  /** The run is over and the target's block has been given back. */
  ghost predicate InDoneDeleting(v: Volume, r: Request, g: Ghost, w: World)
    requires v.Valid()
  {
    && Releasing(v, r, g, w, NONE, NONE)
    && (g.target in g.s ==> H(w.medium, g.target).IsFree())
    && w.dev.entryOffset == 0
  }

  /** Blocks the circular scan has passed when it stands at `here` after starting at `halt`. */
  predicate Passed(halt: int, here: int, b: int) {
    if halt <= here then halt <= b < here else b >= halt || b < here
  }

  predicate Matches(m: Medium, r: Request, behind: int, b: int) {
    H(m, b).IsFile() && NameMatches(H(m, b), behind, Truncated(r.name))
  }

  ghost predicate InInitScan(v: Volume, r: Request, g: Ghost, w: World)
    requires v.Valid()
  {
    && r.command.DeleteEntry? && Untouched(v, g, w.medium) && w.dev.copyName == Truncated(r.name)
    && w.dev.otherBlock.fingerprint == g.behind
    && Remembered(w.dev, g.m0, g.s0)
  }

  ghost predicate InExamineEntry(v: Volume, r: Request, g: Ghost, w: World)
    requires v.Valid()
  {
    var d := w.dev;
    && InInitScan(v, r, g, w)
    && d.haltCursor in g.s && d.thisCursor in g.s && d.thisBlock == H(w.medium, d.thisCursor)
    && forall b | b in g.s && Passed(d.haltCursor, d.thisCursor, b) :: !Matches(w.medium, r, g.behind, b)
  }
}
