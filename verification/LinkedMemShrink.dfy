/**
 Allocating a negative count of blocks: the search looks for a block of the smaller size, which need not hold the
 file. Exactly when an allocation keeps its promise, and what it does when it does not.
 */
module LinkedMemShrink {
  import opened LinkedMem
  import opened LinkedMemInvariant
  import opened LinkedMemSteps
  import opened LinkedMemRuns

  function Start(s: set<int>, t: int, w: World): Ghost {
    Ghost(w.medium, s, w.dev.otherBlock.fingerprint, s, t, NONE)
  }

  /** No run of any length keeps the promise. */
  ghost predicate Hopeless(v: Volume, r: Request, g: Ghost, w: World)
    requires v.Valid()
  {
    forall n: nat :: !Runs(v, r, g.m0, g.s0, g.behind, g.target, w, n)
  }

  lemma HopelessBefore(v: Volume, r: Request, g: Ghost, w: World)
    requires v.Valid() && StepStatus(v, r, w).Running? && Hopeless(v, r, g, Step(v, r, w))
    ensures Hopeless(v, r, g, w)
  {
    forall n: nat ensures !Runs(v, r, g.m0, g.s0, g.behind, g.target, w, n) {
      assert n > 0 ==> !Runs(v, r, g.m0, g.s0, g.behind, g.target, Step(v, r, w), n - 1);
    }
  }

  // ---------------------------------------------------------------- once a block too small is taken

  /** The block count that the device has for the file, or will have, is too small for header and content. */
  predicate Doomed(v: Volume, d: Device, need: int) {
    match d.fsm
    case ReadToCopy | WriteCopiedData | CopyDone => Cut(d.otherBlock.blockCount, d.desiredSize) < need
    case CutTheSlack => Cut(d.thisBlock.blockCount, d.desiredSize) < need
    case CutOffExcess => d.desiredSize < need
    case GetOldBackLink | FixOldBackLink | SuccessfulChomp => d.thisBlock.blockCount < need
    case FetchHeader | MarkItFree | BackUpOne | ScanAhead | AttemptMerge | FixFlink | DoneDeleting =>
      d.fileBlocks + v.fileHeaderBlocks < need
    case _ => false
  }

  predicate StillDoomed(v: Volume, r: Request, w: World, need: int)
    requires v.Valid()
  {
    var d := Step(v, r, w).dev;
    if StepStatus(v, r, w).Running? then Doomed(v, d, need)
    else StepStatus(v, r, w).Success? && d.fileBlocks + v.fileHeaderBlocks < need
  }

  lemma DoomedWhileReleasing(v: Volume, r: Request, w: World, need: int)
    requires v.Valid() && r.command.AllocBlocks? && Doomed(v, w.dev, need)
    requires match w.dev.fsm
             case FetchHeader | MarkItFree | BackUpOne | ScanAhead | AttemptMerge | FixFlink | DoneDeleting => true
             case _ => false
    ensures StillDoomed(v, r, w, need)
  {
  }

  lemma DoomedWhileSettling(v: Volume, r: Request, w: World, need: int)
    requires v.Valid() && r.command.AllocBlocks? && Doomed(v, w.dev, need)
    requires match w.dev.fsm
             case CutOffExcess | GetOldBackLink | FixOldBackLink | SuccessfulChomp => true
             case _ => false
    ensures StillDoomed(v, r, w, need)
  {
  }

  /** It stays so whatever the medium holds. */
  lemma DoomedOn(v: Volume, r: Request, w: World, need: int)
    requires v.Valid() && r.command.AllocBlocks? && Doomed(v, w.dev, need)
    ensures StillDoomed(v, r, w, need)
  {
    match w.dev.fsm
    case ReadToCopy | WriteCopiedData | CopyDone | CutTheSlack =>
    case CutOffExcess | GetOldBackLink | FixOldBackLink | SuccessfulChomp => DoomedWhileSettling(v, r, w, need);
    case _ => DoomedWhileReleasing(v, r, w, need);
  }

  lemma {:induction false} DoomedNeverRuns(v: Volume, r: Request, g: Ghost, w: World, n: nat)
    requires v.Valid() && r.command.AllocBlocks? && g.target != NONE && Doomed(v, w.dev, Need(v, H(g.m0, g.target)))
    ensures !Runs(v, r, g.m0, g.s0, g.behind, g.target, w, n)
    decreases n
  {
    DoomedOn(v, r, w, Need(v, H(g.m0, g.target)));
    if StepStatus(v, r, w).Running? {
      if n > 0 {
        DoomedNeverRuns(v, r, g, Step(v, r, w), n - 1);
      }
    } else {
      TooSmallNeverEnds(v, r, g, Step(v, r, w));
    }
  }

  /** The file's node would not agree with a well-formed medium. */
  lemma TooSmallNeverEnds(v: Volume, r: Request, g: Ghost, w: World)
    requires v.Valid() && r.command.AllocBlocks? && g.target != NONE
    requires w.dev.fileBlocks + v.fileHeaderBlocks < Need(v, H(g.m0, g.target))
    ensures !Ends(v, r, g.m0, g.s0, g.behind, g.target, w, Success)
  {
    forall g': Ghost | g'.m0 == g.m0 && g'.s0 == g.s0 && g'.target == g.target
      ensures !Completed(v, r, g', w, Success)
    {
      assert Completed(v, r, g', w, Success) ==> w.dev.fileAvatar in Files(w.medium, g'.s);
    }
  }

  // ---------------------------------------------------------------- the way there

  lemma OneFirstFit(m: Medium, s: set<int>, size: int, a: int, b: int)
    requires IsFirstFit(m, s, size, a) && IsFirstFit(m, s, size, b)
    ensures a == b
  {
  }

  lemma {:induction false} HopelessSearch(v: Volume, r: Request, g: Ghost, w: World)
    requires v.Valid() && w.dev.fsm.ExamineNewBlock? && InExamineNewBlock(v, r, g, w) && r.command.AllocBlocks?
    requires !Roomy(v, g.m0, g.s0, g.target, w.dev.desiredSize)
    ensures Hopeless(v, r, g, w)
    decreases v.limit - w.dev.otherCursor
  {
    var size := w.dev.desiredSize;
    var n :| IsFirstFit(g.m0, g.s0, size, n) && Need(v, H(g.m0, g.target)) > Cut(H(g.m0, n).blockCount, size);
    var w' := After(v, OnExamineNewBlock(v, r, w.dev), w.medium);
    assert Step(v, r, w) == w';
    if Suits(g.m0, w.dev.otherCursor, size) {
      OneFirstFit(g.m0, g.s0, size, w.dev.otherCursor, n);
      assert Doomed(v, w'.dev, Need(v, H(g.m0, g.target)));
      forall k: nat ensures !Runs(v, r, g.m0, g.s0, g.behind, g.target, w', k) {
        DoomedNeverRuns(v, r, g, w', k);
      }
    } else {
      StepExamineNewBlockSkip(v, r, g, w);
      HopelessSearch(v, r, g, w');
    }
    HopelessBefore(v, r, g, w);
  }

  /** Only a negative count can ask for less than the file takes, and then no successor is absorbed. */
  lemma NotRoomyIsNegative(v: Volume, r: Request, g: Ghost, size: int)
    requires v.Valid() && r.command.AllocBlocks? && Acquiring(v, r, g, size) && WellFormed(v, g.m0, g.s0)
    requires !Roomy(v, g.m0, g.s0, g.target, size)
    ensures r.offset < 0 && 0 <= size < Need(v, H(g.m0, g.target))
  {
    var n :| IsFirstFit(g.m0, g.s0, size, n) && Need(v, H(g.m0, g.target)) > Cut(H(g.m0, n).blockCount, size);
    CutWithin(H(g.m0, n).blockCount, size);
  }

  lemma HopelessSuccessor(v: Volume, r: Request, g: Ghost, w: World)
    requires v.Valid() && w.dev.fsm.CheckSuccessor? && InCheckSuccessor(v, r, g, w)
    requires !Roomy(v, g.m0, g.s0, g.target, w.dev.desiredSize)
    ensures Hopeless(v, r, g, w)
  {
    var w' := After(v, OnCheckSuccessor(v, w.dev), w.medium);
    assert Step(v, r, w) == w';
    NotRoomyIsNegative(v, r, g, w.dev.desiredSize);
    assert Next(w.medium, g.target) in g.s;
    StepCheckSuccessorRefuse(v, r, g, w);
    HopelessSearch(v, r, g, w');
    HopelessBefore(v, r, g, w);
  }

  lemma HopelessLast(v: Volume, r: Request, g: Ghost, w: World)
    requires v.Valid() && w.dev.fsm.CheckIsThisLast? && InCheckIsThisLast(v, r, g, w)
    requires !Roomy(v, g.m0, g.s0, g.target, w.dev.desiredSize)
    ensures Hopeless(v, r, g, w)
  {
    var w' := After(v, OnCheckIsThisLast(v, w.dev), w.medium);
    assert Step(v, r, w) == w';
    StepCheckIsThisLast(v, r, g, w);
    if w'.dev.fsm.ExamineNewBlock? {
      HopelessSearch(v, r, g, w');
    } else {
      HopelessSuccessor(v, r, g, w');
    }
    HopelessBefore(v, r, g, w);
  }

  lemma HopelessFromStart(v: Volume, r: Request, s: set<int>, t: int, w: World)
    requires v.Valid() && Requested(v, r, s, t, w) && !Roomy(v, w.medium, s, t, w.dev.desiredSize)
    ensures Hopeless(v, r, Start(s, t, w), w)
  {
    var g := Start(s, t, w);
    var w' := After(v, OnInitialization(v, r, w.dev), w.medium);
    assert Step(v, r, w) == w';
    StepInitialization(v, r, g, w);
    HopelessLast(v, r, g, w');
    HopelessBefore(v, r, g, w);
  }

  /** An allocation of any count, which may be negative, keeps its promise if and only if the block that the search for
      the wanted size finds, once it is cut, holds the file. */
  lemma AllocBlocksIff(v: Volume, r: Request, s: set<int>, t: int, w: World)
    requires v.Valid() && Requested(v, r, s, t, w)
    ensures Hopeless(v, r, Start(s, t, w), w) <==> !Roomy(v, w.medium, s, t, w.dev.desiredSize)
  {
    if Roomy(v, w.medium, s, t, w.dev.desiredSize) {
      var n := AllocBlocksRuns(v, r, s, t, w);
      var g := Start(s, t, w);
      assert Runs(v, r, g.m0, g.s0, g.behind, g.target, w, n);
    } else {
      HopelessFromStart(v, r, s, t, w);
    }
  }

  /** A caller who asks for no less than the file takes is safe; so is one who asks for what no free block has. */
  lemma EnoughIsRoomy(v: Volume, m: Medium, s: set<int>, t: int, size: int)
    requires v.Valid() && WellFormed(v, m, s) && t in Files(m, s)
    requires Need(v, H(m, t)) <= size || forall b | b in s :: !Suits(m, b, size)
    ensures Roomy(v, m, s, t, size)
  {
    forall n | IsFirstFit(m, s, size, n) ensures Need(v, H(m, t)) <= Cut(H(m, n).blockCount, size) {
      NoContent(v);
      CutWithin(H(m, n).blockCount, size);
    }
  }

  // ---------------------------------------------------------------- what harm it does

  /** Within k more transfers the medium comes to be in this state. */
  ghost predicate Reaches(v: Volume, r: Request, w: World, bad: Medium -> bool, k: nat)
    requires v.Valid()
    decreases k
  {
    bad(w.medium) || (k > 0 && StepStatus(v, r, w).Running? && Reaches(v, r, Step(v, r, w), bad, k - 1))
  }

  /** There is no header at c any more. */
  function NoHeaderAt(c: int): Medium -> bool {
    (m: Medium) => c !in m.headers
  }

  /** The header of a free block stands at c. */
  function FreeHeaderAt(c: int): Medium -> bool {
    (m: Medium) => c in m.headers && H(m, c).IsFree()
  }

  /** The copy loop stands in front of c and will go on beyond it. */
  ghost predicate Overrunning(d: Device, c: int) {
    && d.fsm.ReadToCopy?
    && d.otherCursor + d.contentOffset + d.blocksToRead <= c
    && c < d.otherCursor + d.contentOffset + d.blocksToRead + d.blocksToCopy
  }

  lemma {:induction false} OverrunLoses(v: Volume, r: Request, w: World, c: int) returns (k: nat)
    requires v.Valid() && Overrunning(w.dev, c)
    ensures Reaches(v, r, w, NoHeaderAt(c), k)
    decreases w.dev.blocksToCopy
  {
    var w1 := Step(v, r, w);
    assert w1 == After(v, OnReadToCopy(v, w.dev), w.medium);
    var w2 := Step(v, r, w1);
    assert w2 == After(v, OnWriteCopiedData(w1.dev), w1.medium);
    if c < w1.dev.otherCursor + w1.dev.contentOffset + w1.dev.blocksToRead {
      k := 0;
    } else {
      k := OverrunLoses(v, r, w2, c);
    }
    assert Reaches(v, r, w1, NoHeaderAt(c), k + 1);
    k := k + 2;
  }

  /** The copy loop, or what follows it, will split the new block at c. */
  ghost predicate Splitting(d: Device, c: int) {
    && (d.fsm.ReadToCopy? || d.fsm.CopyDone?)
    && d.otherBlock.blockCount - d.desiredSize >= SPLIT_LIMIT && d.otherBlock.blockCount < 0x8000_0000
    && 0 <= d.desiredSize && c == d.otherCursor + d.desiredSize
  }

  lemma {:induction false} SplitHappens(v: Volume, r: Request, w: World, c: int) returns (k: nat)
    requires v.Valid() && r.command.AllocBlocks? && Splitting(w.dev, c)
    requires w.dev.fsm.ReadToCopy? ==> 0 < w.dev.blocksToCopy
    ensures Reaches(v, r, w, FreeHeaderAt(c), k)
    decreases w.dev.blocksToCopy, w.dev.fsm.ReadToCopy?
  {
    var w1 := Step(v, r, w);
    var w2 := Step(v, r, w1);
    if w.dev.fsm.ReadToCopy? {
      assert w1 == After(v, OnReadToCopy(v, w.dev), w.medium);
      assert w2 == After(v, OnWriteCopiedData(w1.dev), w1.medium);
      k := SplitHappens(v, r, w2, c);
    } else {
      assert w1 == After(v, OnCopyDone(v, w.dev), w.medium);
      assert w2 == After(v, CutTheSlackOf(v, w1.dev), w1.medium);
      k := 0;
    }
    assert Reaches(v, r, w1, FreeHeaderAt(c), k + 1);
    k := k + 2;
  }

  /** What happens once the block n is found. */
  lemma HarmDone(v: Volume, r: Request, g: Ghost, w: World, n: int) returns (k: nat)
    requires v.Valid() && w.dev.fsm.ExamineNewBlock? && InExamineNewBlock(v, r, g, w) && r.command.AllocBlocks?
    requires n == w.dev.otherCursor && Suits(g.m0, n, w.dev.desiredSize) && 0 <= w.dev.desiredSize
    requires Cut(H(g.m0, n).blockCount, w.dev.desiredSize) < Need(v, H(g.m0, g.target))
    ensures Reaches(v, r, w, Harm(v, g.m0, g.target, n, w.dev.desiredSize), k)
  {
    var c := n + Cut(H(g.m0, n).blockCount, w.dev.desiredSize);
    var w' := After(v, OnExamineNewBlock(v, r, w.dev), w.medium);
    assert Step(v, r, w) == w';
    CutWithin(H(g.m0, n).blockCount, w.dev.desiredSize);
    if H(g.m0, n).blockCount < Need(v, H(g.m0, g.target)) {
      k := OverrunLoses(v, r, w', n + H(g.m0, n).blockCount);
    } else {
      k := SplitHappens(v, r, w', c);
    }
    k := k + 1;
  }

  /** If the block n is shorter than the file, the copy runs over the header behind it, or out of the volume; if not, it
      is split in front of the end of the file's content. */
  function Harm(v: Volume, m0: Medium, t: int, n: int, size: int): Medium -> bool
    requires v.Valid()
  {
    var b := H(m0, n).blockCount;
    if b < Need(v, H(m0, t)) then NoHeaderAt(n + b) else FreeHeaderAt(n + size)
  }

  lemma {:induction false} SearchHarms(v: Volume, r: Request, g: Ghost, w: World, n: int) returns (k: nat)
    requires v.Valid() && w.dev.fsm.ExamineNewBlock? && InExamineNewBlock(v, r, g, w) && r.command.AllocBlocks?
    requires IsFirstFit(g.m0, g.s0, w.dev.desiredSize, n) && 0 <= w.dev.desiredSize
    requires Cut(H(g.m0, n).blockCount, w.dev.desiredSize) < Need(v, H(g.m0, g.target))
    ensures Reaches(v, r, w, Harm(v, g.m0, g.target, n, w.dev.desiredSize), k)
    decreases v.limit - w.dev.otherCursor
  {
    if Suits(g.m0, w.dev.otherCursor, w.dev.desiredSize) {
      OneFirstFit(g.m0, g.s0, w.dev.desiredSize, w.dev.otherCursor, n);
      k := HarmDone(v, r, g, w, n);
    } else {
      var w' := After(v, OnExamineNewBlock(v, r, w.dev), w.medium);
      assert Step(v, r, w) == w';
      StepExamineNewBlockSkip(v, r, g, w);
      k := SearchHarms(v, r, g, w', n);
      k := k + 1;
    }
  }

  lemma LastHarms(v: Volume, r: Request, g: Ghost, w: World, n: int) returns (k: nat)
    requires v.Valid() && w.dev.fsm.CheckIsThisLast? && InCheckIsThisLast(v, r, g, w)
    requires IsFirstFit(g.m0, g.s0, w.dev.desiredSize, n) && 0 <= w.dev.desiredSize && r.offset < 0
    requires Cut(H(g.m0, n).blockCount, w.dev.desiredSize) < Need(v, H(g.m0, g.target))
    ensures Reaches(v, r, w, Harm(v, g.m0, g.target, n, w.dev.desiredSize), k)
  {
    var w1 := After(v, OnCheckIsThisLast(v, w.dev), w.medium);
    assert Step(v, r, w) == w1;
    StepCheckIsThisLast(v, r, g, w);
    if w1.dev.fsm.ExamineNewBlock? {
      k := SearchHarms(v, r, g, w1, n);
    } else {
      var w2 := After(v, OnCheckSuccessor(v, w1.dev), w1.medium);
      assert Step(v, r, w1) == w2;
      assert Next(w.medium, g.target) in g.s;
      StepCheckSuccessorRefuse(v, r, g, w1);
      k := SearchHarms(v, r, g, w2, n);
      k := k + 1;
    }
    k := k + 1;
  }

  /** An allocation that is not roomy damages the medium: it destroys the header of the block behind the one it finds,
      or writes out of the volume, or puts a free block inside the content of the file. */
  lemma NotRoomyHarms(v: Volume, r: Request, s: set<int>, t: int, w: World) returns (n: int, k: nat)
    requires v.Valid() && Requested(v, r, s, t, w) && !Roomy(v, w.medium, s, t, w.dev.desiredSize)
    ensures IsFirstFit(w.medium, s, w.dev.desiredSize, n)
    ensures Reaches(v, r, w, Harm(v, w.medium, t, n, w.dev.desiredSize), k)
    ensures var e := n + H(w.medium, n).blockCount; e < v.limit ==> e in s && e in w.medium.headers
    ensures 0 <= w.dev.desiredSize < Need(v, H(w.medium, t))
  {
    var g, size := Start(s, t, w), w.dev.desiredSize;
    n :| IsFirstFit(w.medium, s, size, n) && Need(v, H(w.medium, t)) > Cut(H(w.medium, n).blockCount, size);
    NotRoomyIsNegative(v, r, g, size);
    assert Next(w.medium, n) in s;
    var w' := After(v, OnInitialization(v, r, w.dev), w.medium);
    assert Step(v, r, w) == w';
    StepInitialization(v, r, g, w);
    k := LastHarms(v, r, g, w', n);
    k := k + 1;
  }

  // ---------------------------------------------------------------- a file that is asked to give back 190 blocks

  function AnchorBlock(flink: int, blink: int, blocks: int): Header {
    Header(FINGERPRINT_ANCHORBLOCK, flink, blink, blocks, 1, 0, 0, 0, "")
  }

  function FileBlock(flink: int, blink: int, blocks: int, bytes: int, name: string): Header {
    Header(FINGERPRINT_FILEBLOCK, flink, blink, blocks, 64, bytes, 0, BLANK_TYPE, name)
  }

  function FreeBlock(flink: int, blink: int, blocks: int): Header {
    Header(FINGERPRINT_FREEBLOCK, flink, blink, blocks, 20, 0, 0, 0, "")
  }

  /** Blocks of one byte, as the NVRAM driver has them: files of 264, 100 and 491 blocks, and 80 free blocks. */
  const SMALL := Volume(1, 1000, 1, 64, 256)
  const SMALL_BLOCKS := {1, 65, 329, 429, 509}

  function SmallMedium(): Medium {
    Medium(map[1 := AnchorBlock(65, 509, 64),
               65 := FileBlock(329, 1, 264, 200, "save"),
               329 := FileBlock(429, 65, 100, 10, "score"),
               429 := FreeBlock(509, 329, 80),
               509 := FileBlock(1, 429, 491, 100, "next")],
           _ => Blank)
  }

  function SmallDevice(): Device {
    Device(Initialization, 65, 0, 0, 0, 74, 0, 0, 0, 0, 0, 0, NO_HEADER, NO_HEADER, [], "", 65, 200)
  }

  lemma SmallTiled()
    ensures SMALL.Valid() && Tiled(SMALL, SmallMedium(), SMALL_BLOCKS)
  {
    var m := SmallMedium();
    assert Next(m, 1) == 65 && Next(m, 65) == 329 && Next(m, 329) == 429 && Next(m, 429) == 509 && Next(m, 509) == 1;
  }

  lemma SmallLinked()
    ensures BackLinked(SmallMedium(), SMALL_BLOCKS, NONE) && Coalesced(SmallMedium(), SMALL_BLOCKS, NONE)
  {
    var m := SmallMedium();
    assert Next(m, 1) == 65 && Next(m, 65) == 329 && Next(m, 329) == 429 && Next(m, 429) == 509 && Next(m, 509) == 1;
  }

  lemma SmallSized()
    ensures Sized(SMALL, SmallMedium(), SMALL_BLOCKS) && Need(SMALL, H(SmallMedium(), 65)) == 264
  {
    OneByteBlocks(200);
    OneByteBlocks(10);
    OneByteBlocks(100);
  }

  lemma SmallWellFormed()
    ensures SMALL.Valid() && WellFormed(SMALL, SmallMedium(), SMALL_BLOCKS)
    ensures Need(SMALL, H(SmallMedium(), 65)) == 264
  {
    SmallTiled();
    SmallLinked();
    SmallSized();
  }

  lemma OneByteBlocks(bytes: nat)
    ensures HowMany(bytes, 1) == bytes
  {
    QuotientIsDivision(bytes, 1);
  }

  /** Of the file of 200 bytes 74 blocks are wanted, so the copy goes to the 80 free ones and overruns the next file. */
  lemma NextFileLost() returns (k: nat)
    ensures var r := Request(Command.AllocBlocks, -190, "");
            var w := World(SmallDevice(), SmallMedium());
            && SMALL.Valid() && Requested(SMALL, r, SMALL_BLOCKS, 65, w)
            && 509 in Files(w.medium, SMALL_BLOCKS) && Reaches(SMALL, r, w, NoHeaderAt(509), k)
  {
    var r := Request(Command.AllocBlocks, -190, "");
    var w := World(SmallDevice(), SmallMedium());
    SmallWellFormed();
    assert IsFirstFit(w.medium, SMALL_BLOCKS, 74, 429);
    assert !Roomy(SMALL, w.medium, SMALL_BLOCKS, 65, 74);
    var n;
    n, k := NotRoomyHarms(SMALL, r, SMALL_BLOCKS, 65, w);
    OneFirstFit(w.medium, SMALL_BLOCKS, 74, n, 429);
  }
}
