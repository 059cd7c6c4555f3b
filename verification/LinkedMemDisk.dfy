/**
 The device itself: the record's fields updated in place by the state machine, the raw device
 driven one transfer at a time, and the requests users make, from one well-formed volume to the next.
 */
module LinkedMemDevice {
  import opened LinkedMem
  import opened LinkedMemInvariant
  import opened LinkedMemRuns

  class LinkedMemDisk {
    const volume: Volume
    /** The raw device's contents. */
    var medium: Medium
    /** The linked blocks of the volume. */
    ghost var blocks: set<int>

    var fsm: State
    var thisCursor: int
    var otherCursor: int
    var mergeCursor: int
    var haltCursor: int
    var desiredSize: int
    var contentOffset: int
    var blocksToCopy: int
    var blocksToRead: int
    var thisIndex: int
    var entryIndex: int
    var entryOffset: int
    var thisBlock: Header
    var otherBlock: Header
    var copyBuffer: seq<Cell>
    var copyName: string
    /** fi_AvatarList[0] and fi_BlockCount of the file acted on. */
    var fileAvatar: int
    var fileBlocks: int

    ghost function View(): Device
      reads this
    {
      Device(fsm, thisCursor, otherCursor, mergeCursor, haltCursor, desiredSize, contentOffset, blocksToCopy,
             blocksToRead, thisIndex, entryIndex, entryOffset, thisBlock, otherBlock, copyBuffer, copyName,
             fileAvatar, fileBlocks)
    }

    ghost function Here(): World
      reads this
    {
      World(View(), medium)
    }

    /** No request is in progress, and the volume is well formed. */
    ghost predicate Valid()
      reads this
    {
      volume.Valid() && WellFormed(volume, medium, blocks) && Remembered(View(), medium, blocks)
    }

    // -------------------------------------------------------------- the state machine

    /** This activation had the outcome o, and touched only the device record. */
    twostate predicate Answers(o: Outcome, action: Action, status: Status)
      reads this
    {
      Outcome(View(), action, status) == o && medium == old(medium) && blocks == old(blocks)
    }

    method TryNewBlock() returns (action: Action, status: Status)
      requires volume.Valid()
      modifies this
      ensures Answers(GoTryNewBlock(volume, old(View())), action, status)
    {
      otherCursor := volume.root;
      fsm := State.ExamineNewBlock;
      return ReadOther, Running;
    }

    method FetchHeader() returns (action: Action, status: Status)
      requires volume.Valid()
      modifies this
      ensures Answers(GoFetchHeader(old(View())), action, status)
    {
      fsm := State.MarkItFree;
      return ReadThis, Running;
    }

    method MarkItFree() returns (action: Action, status: Status)
      requires volume.Valid()
      modifies this
      ensures Answers(GoMarkItFree(volume, old(View())), action, status)
    {
      entryIndex := 0;
      entryOffset := 0;
      thisBlock := thisBlock.(fingerprint := FINGERPRINT_FREEBLOCK,
                              headerBlockCount := HowMany(SIZEOF_LINKED_MEM_BLOCK, volume.blockSize));
      fsm := State.BackUpOne;
      return WriteThis, Running;
    }

    method Initialize(r: Request) returns (action: Action, status: Status)
      requires volume.Valid()
      modifies this
      ensures Answers(OnInitialization(volume, r, old(View())), action, status)
    {
      mergeCursor := 0;
      if r.command.AddEntry? {
        action, status := TryNewBlock();
        return;
      }
      fsm := State.CheckIsThisLast;
      return ReadThis, Running;
    }

    method CheckIsThisLast() returns (action: Action, status: Status)
      requires volume.Valid()
      modifies this
      ensures Answers(OnCheckIsThisLast(volume, old(View())), action, status)
    {
      if thisBlock.flink < thisCursor {
        action, status := TryNewBlock();
        return;
      }
      otherCursor := thisBlock.flink;
      fsm := State.CheckSuccessor;
      return ReadOther, Running;
    }

    method CheckSuccessor() returns (action: Action, status: Status)
      requires volume.Valid()
      modifies this
      ensures Answers(OnCheckSuccessor(volume, old(View())), action, status)
    {
      if !otherBlock.IsFree() || otherBlock.blockCount < UnsignedDifference(desiredSize, thisBlock.blockCount) {
        action, status := TryNewBlock();
        return;
      }
      thisBlock := thisBlock.(blockCount := thisBlock.blockCount + otherBlock.blockCount, flink := otherBlock.flink);
      fsm := State.CutTheSlack;
      return WriteThis, Running;
    }

    method ExamineNewBlock(r: Request) returns (action: Action, status: Status)
      requires volume.Valid() && fsm.ExamineNewBlock?
      modifies this
      ensures Answers(OnExamineNewBlock(volume, r, old(View())), action, status)
    {
      if !otherBlock.IsFree() || otherBlock.blockCount < Unsigned(desiredSize) {
        otherCursor := otherBlock.flink;
        if otherCursor == volume.root {
          fsm := State.Fault;
          return NoAction, NoSpace;
        }
        return ReadOther, Running;
      }
      var taken := otherBlock.(fingerprint := FINGERPRINT_FILEBLOCK, headerBlockCount := volume.fileHeaderBlocks);
      if r.command.AddEntry? {
        otherBlock := taken.(byteCount := 0, fileType := BLANK_TYPE, uniqueId := 0, name := Truncated(r.name));
        fsm := State.CutTheSlack;
      } else {
        otherBlock := taken.(byteCount := thisBlock.byteCount, fileType := thisBlock.fileType,
                             uniqueId := thisBlock.uniqueId, name := thisBlock.name);
        contentOffset := volume.fileHeaderBlocks;
        blocksToCopy := HowMany(thisBlock.byteCount, volume.blockSize);
        fsm := if blocksToCopy > 0 then State.ReadToCopy else State.CopyDone;
        blocksToRead := 0;
      }
      return WriteOther, Running;
    }

    method ReadToCopy() returns (action: Action, status: Status)
      requires volume.Valid()
      modifies this
      ensures Answers(OnReadToCopy(volume, old(View())), action, status)
    {
      contentOffset := contentOffset + blocksToRead;
      blocksToRead := blocksToCopy;
      if blocksToRead > volume.copyBlocks {
        blocksToRead := volume.copyBlocks;
      }
      fsm := State.WriteCopiedData;
      return ReadData, Running;
    }

    method WriteCopiedData() returns (action: Action, status: Status)
      requires volume.Valid()
      modifies this
      ensures Answers(OnWriteCopiedData(old(View())), action, status)
    {
      blocksToCopy := blocksToCopy - blocksToRead;
      fsm := if blocksToCopy <= 0 then State.CopyDone else State.ReadToCopy;
      return WriteData, Running;
    }

    method CopyDone() returns (action: Action, status: Status)
      requires volume.Valid()
      modifies this
      ensures Answers(OnCopyDone(volume, old(View())), action, status)
    {
      var tempBlock := thisBlock.(fingerprint := FINGERPRINT_FREEBLOCK,
                                  headerBlockCount := HowMany(SIZEOF_LINKED_MEM_BLOCK, volume.blockSize));
      thisBlock, otherBlock := otherBlock, tempBlock;
      mergeCursor, thisCursor, otherCursor := thisCursor, otherCursor, thisCursor;
      fileAvatar := thisCursor;
      fileBlocks := thisBlock.blockCount - volume.fileHeaderBlocks;
      fsm := State.CutTheSlack;
      action, status := WriteOther, Running;
      assert OnCopyDone(volume, old(View())) == Outcome(View(), action, status);
    }

    method CutTheSlack(r: Request) returns (action: Action, status: Status)
      requires volume.Valid()
      modifies this
      ensures Answers(OnCutTheSlack(volume, r, old(View())), action, status)
    {
      if r.command.AddEntry? {
        thisBlock := otherBlock;
        thisCursor := otherCursor;
      }
      if UnsignedDifference(thisBlock.blockCount, desiredSize) < SPLIT_LIMIT {
        otherCursor := thisBlock.flink;
        fsm := State.FixOldBackLink;
        return ReadOther, Running;
      }
      otherCursor := thisCursor + desiredSize;
      otherBlock := otherBlock.(fingerprint := FINGERPRINT_FREEBLOCK,
                                headerBlockCount := HowMany(SIZEOF_LINKED_MEM_BLOCK, volume.blockSize),
                                flink := thisBlock.flink,
                                blink := thisCursor,
                                blockCount := thisBlock.blockCount - desiredSize);
      fsm := State.CutOffExcess;
      return WriteOther, Running;
    }

    method CutOffExcess() returns (action: Action, status: Status)
      requires volume.Valid()
      modifies this
      ensures Answers(OnCutOffExcess(old(View())), action, status)
    {
      thisBlock := thisBlock.(blockCount := desiredSize, flink := otherCursor);
      fsm := State.GetOldBackLink;
      return WriteThis, Running;
    }

    method GetOldBackLink() returns (action: Action, status: Status)
      requires volume.Valid()
      modifies this
      ensures Answers(OnGetOldBackLink(old(View())), action, status)
    {
      otherCursor := otherBlock.flink;
      fsm := State.FixOldBackLink;
      return ReadOther, Running;
    }

    method FixOldBackLink() returns (action: Action, status: Status)
      requires volume.Valid()
      modifies this
      ensures Answers(OnFixOldBackLink(old(View())), action, status)
    {
      if otherCursor == thisBlock.flink {
        otherBlock := otherBlock.(blink := thisCursor);
      } else {
        otherBlock := otherBlock.(blink := thisBlock.flink);
      }
      fsm := State.SuccessfulChomp;
      return WriteOther, Running;
    }

    method SuccessfulChomp() returns (action: Action, status: Status)
      requires volume.Valid()
      modifies this
      ensures Answers(OnSuccessfulChomp(volume, old(View())), action, status)
    {
      fileBlocks := thisBlock.blockCount - volume.fileHeaderBlocks;
      if mergeCursor != 0 {
        thisCursor := mergeCursor;
        action, status := FetchHeader();
        return;
      }
      fsm := State.Done;
      return NoAction, Success;
    }

    method BackUpOne() returns (action: Action, status: Status)
      requires volume.Valid() && fsm.BackUpOne?
      modifies this
      ensures Answers(OnBackUpOne(old(View())), action, status)
    {
      if thisBlock.IsFree() {
        thisCursor := thisBlock.blink;
      } else {
        thisCursor := thisBlock.flink;
        fsm := State.ScanAhead;
      }
      return ReadThis, Running;
    }

    method ScanAhead() returns (action: Action, status: Status)
      requires volume.Valid()
      modifies this
      ensures Answers(OnScanAhead(old(View())), action, status)
    {
      otherCursor := thisBlock.flink;
      fsm := State.AttemptMerge;
      return ReadOther, Running;
    }

    method AttemptMerge() returns (action: Action, status: Status)
      requires volume.Valid() && fsm.AttemptMerge?
      modifies this
      ensures Answers(OnAttemptMerge(old(View())), action, status)
    {
      if otherBlock.IsFree() {
        thisBlock := thisBlock.(blockCount := thisBlock.blockCount + otherBlock.blockCount, flink := otherBlock.flink);
        otherCursor := otherBlock.flink;
        return ReadOther, Running;
      }
      otherBlock := otherBlock.(blink := thisCursor);
      fsm := State.FixFlink;
      return WriteOther, Running;
    }

    method InitScan() returns (action: Action, status: Status)
      requires volume.Valid()
      modifies this
      ensures Answers(OnInitScan(volume, old(View())), action, status)
    {
      thisIndex := entryIndex;
      thisCursor := entryOffset;
      if thisCursor <= 0 || thisIndex <= 0 {
        thisCursor := volume.root;
        thisIndex := 0;
      }
      haltCursor := thisCursor;
      fsm := State.ExamineEntry;
      return ReadThis, Running;
    }

    method NoteEntry()
      modifies this
      ensures View() == Noted(old(View())) && medium == old(medium) && blocks == old(blocks)
    {
      if thisBlock.IsAnchor() {
        thisIndex := 0;
      } else if thisBlock.IsFile() && entryOffset != thisCursor {
        thisIndex := thisIndex + 1;
        entryIndex := thisIndex;
        entryOffset := thisCursor;
      }
    }

    method ExamineEntry(r: Request) returns (action: Action, status: Status)
      requires volume.Valid() && fsm.ExamineEntry?
      modifies this
      ensures Answers(OnExamineEntry(volume, r, old(View())), action, status)
    {
      NoteEntry();
      if thisBlock.IsFile() && r.command.DeleteEntry? && NameMatches(thisBlock, otherBlock.fingerprint, copyName) {
        action, status := MarkItFree();
        return;
      }
      thisCursor := thisBlock.flink;
      if thisCursor == haltCursor {
        fsm := State.Done;
        return NoAction, NoFile;
      }
      return ReadThis, Running;
    }

    /** One activation: the switch over the states. */
    method FiniteStateMachine(r: Request) returns (action: Action, status: Status)
      requires volume.Valid()
      modifies this
      ensures Answers(Activate(volume, r, old(View())), action, status)
    {
      match fsm
      case Initialization => action, status := Initialize(r);
      case CheckIsThisLast => action, status := CheckIsThisLast();
      case CheckSuccessor => action, status := CheckSuccessor();
      case ExamineNewBlock => action, status := ExamineNewBlock(r);
      case ReadToCopy => action, status := ReadToCopy();
      case WriteCopiedData => action, status := WriteCopiedData();
      case CopyDone => action, status := CopyDone();
      case CutTheSlack => action, status := CutTheSlack(r);
      case CutOffExcess => action, status := CutOffExcess();
      case GetOldBackLink => action, status := GetOldBackLink();
      case FixOldBackLink => action, status := FixOldBackLink();
      case SuccessfulChomp => action, status := SuccessfulChomp();
      case TryNewBlock => action, status := TryNewBlock();
      case FetchHeader => action, status := FetchHeader();
      case MarkItFree => action, status := MarkItFree();
      case BackUpOne => action, status := BackUpOne();
      case ScanAhead => action, status := ScanAhead();
      case AttemptMerge => action, status := AttemptMerge();
      case InitScan => action, status := InitScan();
      case ExamineEntry => action, status := ExamineEntry(r);
      case FixFlink =>
        fsm := State.DoneDeleting;
        return WriteThis, Running;
      case DoneDeleting =>
        fsm := State.Fault;
        return NoAction, Success;
      case Fault => return NoAction, Success;
      case Idle => return NoAction, Success;
      case Done =>
        fsm := State.Idle;
        return NoAction, Success;
    }

    // -------------------------------------------------------------- the raw device

    method RawTransfer(action: Action)
      requires volume.Valid()
      modifies this
      ensures (View(), medium) == Transfer(volume, action, old(View()), old(medium))
      ensures blocks == old(blocks)
    {
      match action
      case NoAction =>
      case ReadThis => thisBlock := ReadHeader(medium, thisCursor);
      case ReadOther => otherBlock := ReadHeader(medium, otherCursor);
      case WriteThis => medium := WriteHeader(volume, medium, thisCursor, thisBlock);
      case WriteOther => medium := WriteHeader(volume, medium, otherCursor, otherBlock);
      case ReadData => copyBuffer := ReadCells(medium, thisCursor + contentOffset, blocksToRead);
      case WriteData => medium := WriteCells(medium, otherCursor + contentOffset, copyBuffer);
    }

    /** Runs a prepared request to its end, the state machine and the raw device taking turns. */
    method Serve(r: Request, ghost t: int, ghost bound: nat) returns (status: Status, ghost g: Ghost)
      requires volume.Valid() && Runs(volume, r, medium, blocks, otherBlock.fingerprint, t, Here(), bound)
      modifies this
      ensures g.m0 == old(medium) && g.s0 == old(blocks) && g.behind == old(otherBlock.fingerprint)
      ensures t == NONE || g.target == t
      ensures Completed(volume, r, g, Here(), status) && blocks == g.s
    {
      ghost var n, m0, w := bound, medium, Here();
      var action;
      action, status := FiniteStateMachine(r);
      while status.Running?
        invariant blocks == old(blocks) && m0 == old(medium) && w.medium == medium
        invariant Outcome(View(), action, status) == Activate(volume, r, w.dev)
        invariant Runs(volume, r, m0, blocks, old(otherBlock.fingerprint), t, w, n)
        decreases n
      {
        RawTransfer(action);
        n, w := n - 1, Step(volume, r, w);
        assert Here() == w;
        action, status := FiniteStateMachine(r);
      }
      StopsIdle(volume, r, w.dev);
      assert Step(volume, r, w) == Here();
      g :| g.m0 == m0 && g.s0 == blocks && g.behind == old(otherBlock.fingerprint) && (t == NONE || g.target == t)
           && Completed(volume, r, g, Here(), status);
      blocks := g.s;
    }

    // -------------------------------------------------------------- the requests

    /** FILECMD_ADDENTRY */
    method AddEntry(name: string) returns (status: Status)
      requires Valid()
      modifies this
      ensures Valid()
      ensures status.Success? || status.NoSpace?
      ensures var r := Request(Command.AddEntry, 0, name);
              status.Success? ==> exists n :: Added(volume, r, old(medium), old(blocks), medium, blocks, n)
      ensures status.Success? ==> otherBlock.IsBlock()
      ensures status.NoSpace? ==>
                && medium == old(medium) && blocks == old(blocks)
                && forall b | b in blocks :: !Suits(medium, b, volume.fileHeaderBlocks)
    {
      var r := Request(Command.AddEntry, 0, name);
      desiredSize := volume.fileHeaderBlocks;
      fsm := State.Initialization;
      ghost var n := AddEntryRuns(volume, r, blocks, Here());
      ghost var g;
      status, g := Serve(r, NONE, n);
    }

    /** FILECMD_ALLOCBLOCKS, on the file whose node records its block and its size. */
    method AllocBlocks(count: int) returns (status: Status)
      requires Valid()
      requires fileAvatar in Files(medium, blocks)
      requires fileBlocks == H(medium, fileAvatar).blockCount - volume.fileHeaderBlocks
      requires -0x8000_0000 <= count && fileBlocks + count + volume.fileHeaderBlocks < 0x8000_0000
      requires Roomy(volume, medium, blocks, fileAvatar, fileBlocks + count + volume.fileHeaderBlocks)
      modifies this
      ensures Valid()
      ensures fileAvatar in Files(medium, blocks)
      ensures fileBlocks == H(medium, fileAvatar).blockCount - volume.fileHeaderBlocks
      ensures status.Success? || status.NoSpace?
      ensures var r := Request(Command.AllocBlocks, count, "");
              status.Success? ==>
                Allocated(volume, r, old(medium), old(blocks), old(fileAvatar), medium, blocks, fileAvatar)
      ensures status.NoSpace? ==>
                && medium == old(medium) && blocks == old(blocks)
                && !CanAbsorb(medium, old(fileAvatar), count)
                && forall b | b in blocks :: !Suits(medium, b, old(fileBlocks) + count + volume.fileHeaderBlocks)
    {
      var r := Request(Command.AllocBlocks, count, "");
      ghost var t := fileAvatar;
      desiredSize := fileBlocks + count + volume.fileHeaderBlocks;
      fsm := State.Initialization;
      thisCursor := fileAvatar;
      ghost var n := AllocBlocksRuns(volume, r, blocks, t, Here());
      ghost var g;
      status, g := Serve(r, t, n);
      AllocationEnds(volume, r, g, Here(), status);
    }

    /** FILECMD_DELETEENTRY */
    method DeleteEntry(name: string) returns (status: Status)
      requires Valid()
      modifies this
      ensures Valid()
      ensures status.Success? || status.NoFile?
      ensures var r := Request(Command.DeleteEntry, 0, name);
              status.Success? ==> exists t ::
                Deleted(volume, r, old(medium), old(blocks), old(otherBlock.fingerprint), t, medium, blocks)
      ensures status.NoFile? ==>
                && medium == old(medium) && blocks == old(blocks)
                && var r := Request(Command.DeleteEntry, 0, name);
                   forall b | b in blocks :: !Matches(medium, r, old(otherBlock.fingerprint), b)
      ensures |Truncated(name)| >= FILESYSTEM_MAX_NAME_LEN && !BeginsWithZero(old(otherBlock.fingerprint)) ==>
                status.NoFile?
    {
      var r := Request(Command.DeleteEntry, 0, name);
      copyName := Truncated(name);
      fsm := State.InitScan;
      ghost var n := DeleteEntryRuns(volume, r, blocks, Here());
      ghost var g;
      status, g := Serve(r, NONE, n);
      if |Truncated(name)| >= FILESYSTEM_MAX_NAME_LEN && !BeginsWithZero(old(otherBlock.fingerprint)) {
        FullNameNotFound(volume, r, g, Here(), status);
      }
    }
  }

  /** An entry is added under a name of 32 characters or more and deleted by it at once: it is not found. */
  method AddThenDelete(disk: LinkedMemDisk, name: string) returns (added: Status, deleted: Status)
    requires disk.Valid() && |Truncated(name)| >= FILESYSTEM_MAX_NAME_LEN
    modifies disk
    ensures added.Success? ==> deleted.NoFile?
  {
    added := disk.AddEntry(name);
    deleted := Status.Running;
    if added.Success? {
      deleted := disk.DeleteEntry(name);
    }
  }

  lemma AllocationEnds(v: Volume, r: Request, g: Ghost, w: World, status: Status)
    requires v.Valid() && r.command.AllocBlocks? && Completed(v, r, g, w, status)
    requires WellFormed(v, g.m0, g.s0) && g.target in Files(g.m0, g.s0)
    ensures status.Success? || status.NoSpace?
    ensures WellFormed(v, w.medium, g.s) && w.dev.fileAvatar in Files(w.medium, g.s)
    ensures w.dev.fileBlocks == H(w.medium, w.dev.fileAvatar).blockCount - v.fileHeaderBlocks
  {
  }

  lemma StopsIdle(v: Volume, r: Request, d: Device)
    requires v.Valid()
    ensures !Activate(v, r, d).status.Running? ==> Activate(v, r, d).action.NoAction?
  {
  }
}
