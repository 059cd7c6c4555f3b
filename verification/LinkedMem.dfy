/**
 The linked-memory (NVRAM) disk: the device record, the medium it drives, and the
 finite state machine that performs at most one raw device transfer per activation.

 A block of the medium is addressed by its block number, its cursor.  A block's header
 record and the content cells that follow it are kept apart in the model, but they
 compete for the same cells: writing a header wipes the content cells (and any older
 header record) it covers, and writing content wipes every header record in its way.
 */
module LinkedMem {
  import opened Common

  const FINGERPRINT_FILEBLOCK := 0xBE4F32A6
  const FINGERPRINT_FREEBLOCK := 0x7AA565BD
  const FINGERPRINT_ANCHORBLOCK := 0x855A02B6
  const LINKED_MEM_SLACK := 32
  const LINKED_MEM_COPY_BUFFER_SIZE := 256
  const SIZEOF_LINKED_MEM_BLOCK := 20
  const SIZEOF_LINKED_MEM_FILE_ENTRY := 64
  const FILESYSTEM_MAX_NAME_LEN := 32
  const BLANK_TYPE := 0x20202020

  /** A block whose surplus stays below this many blocks is not split. */
  const SPLIT_LIMIT := SIZEOF_LINKED_MEM_FILE_ENTRY + LINKED_MEM_SLACK

  /** One content cell: a device block that holds file data, or nothing the file system wrote. */
  datatype Cell = Blank | Bytes(value: int)

  /** A header record as it stands on the medium. */
  datatype Header = Header(fingerprint: int, flink: int, blink: int, blockCount: int, headerBlockCount: int,
                           byteCount: int, uniqueId: int, fileType: int, name: string)
  {
    predicate IsFile() { fingerprint == FINGERPRINT_FILEBLOCK }
    predicate IsFree() { fingerprint == FINGERPRINT_FREEBLOCK }
    predicate IsAnchor() { fingerprint == FINGERPRINT_ANCHORBLOCK }
    predicate IsBlock() { IsFile() || IsFree() || IsAnchor() }
  }

  /** What a read returns where no header record stands. */
  const NO_HEADER := Header(0, 0, 0, 0, 0, 0, 0, 0, "")

  datatype Medium = Medium(headers: map<int, Header>, data: int -> Cell)

  /** The mounted volume: the anchor's cursor, one past the last block, the block size in bytes, the
      blocks a file entry's header takes and the blocks the copy buffer holds. */
  datatype Volume = Volume(root: int, limit: int, blockSize: int, fileHeaderBlocks: int, copyBlocks: int)
  {
    /** The label occupies block 0; the copy buffer must hold at least one block. */
    predicate Valid() {
      && 0 < root < limit < 0x8000_0000
      && 0 < blockSize
      && 1 <= fileHeaderBlocks <= SIZEOF_LINKED_MEM_FILE_ENTRY
      && 1 <= copyBlocks
    }
  }

  /** Integer division, in a form that keeps products and quotients of two variables out of the proofs. */
  function Quotient(a: int, b: int): (q: int)
    requires 0 < b
    ensures 0 <= q
    decreases a
  {
    if a < b then 0 else 1 + Quotient(a - b, b)
  }

  lemma {:induction false} QuotientBounds(a: int, b: int)
    requires 0 <= a && 0 < b
    ensures Quotient(a, b) * b <= a < Quotient(a, b) * b + b
    decreases a
  {
    if a >= b {
      QuotientBounds(a - b, b);
    }
  }

  lemma NotBelow(a: int, b: int, p: int, q: int)
    requires 0 < b && a < p * b + b && q * b <= a
    ensures q <= p
  {
    assert p < q ==> (q - p - 1) * b >= 0;
  }

  lemma QuotientIsDivision(a: int, b: int)
    requires 0 <= a && 0 < b
    ensures Quotient(a, b) == a / b
  {
    QuotientBounds(a, b);
    assert a == a / b * b + a % b;
    NotBelow(a, b, Quotient(a, b), a / b);
    NotBelow(a, b, a / b, Quotient(a, b));
  }

  function HowMany(size: int, unit: int): int
    requires unit > 0
  {
    Quotient(size + (unit - 1), unit)
  }

  /** As many units as it takes, and no more. */
  lemma HowManyCovers(size: int, unit: int)
    requires 0 <= size && 0 < unit
    ensures (HowMany(size, unit) - 1) * unit < size <= HowMany(size, unit) * unit || size == HowMany(size, unit) == 0
  {
    QuotientBounds(size + (unit - 1), unit);
  }

  /** The geometry the mount computes from the device's block size: a file entry's header fits its blocks, and needs
      all of them; the copy buffer holds that many whole blocks, and no more. */
  function Mount(root: int, limit: int, blockSize: int): (v: Volume)
    requires 0 < root < limit < 0x8000_0000 && 0 < blockSize
    ensures v.root == root && v.limit == limit && v.blockSize == blockSize
    ensures (v.fileHeaderBlocks - 1) * blockSize < SIZEOF_LINKED_MEM_FILE_ENTRY <= v.fileHeaderBlocks * blockSize
    ensures v.copyBlocks * blockSize <= LINKED_MEM_COPY_BUFFER_SIZE < (v.copyBlocks + 1) * blockSize
    ensures v.Valid() <==> blockSize <= LINKED_MEM_COPY_BUFFER_SIZE
  {
    HowManyBounds(SIZEOF_LINKED_MEM_FILE_ENTRY, blockSize);
    HowManyCovers(SIZEOF_LINKED_MEM_FILE_ENTRY, blockSize);
    QuotientBounds(LINKED_MEM_COPY_BUFFER_SIZE, blockSize);
    Volume(root, limit, blockSize, HowMany(SIZEOF_LINKED_MEM_FILE_ENTRY, blockSize),
           Quotient(LINKED_MEM_COPY_BUFFER_SIZE, blockSize))
  }

  lemma {:induction false} HowManyBounds(size: int, unit: int)
    requires 0 < size && 0 < unit
    ensures 1 <= HowMany(size, unit) <= size
    decreases size
  {
    assert HowMany(size, unit) == 1 + Quotient(size - 1, unit);
    if size > unit {
      HowManyBounds(size - unit, unit);
    }
  }

  // ---------------------------------------------------------------- the medium

  function ReadHeader(m: Medium, c: int): Header {
    if c in m.headers then m.headers[c] else NO_HEADER
  }

  /** Cells a header write covers; only the anchor may be shorter than a file entry, and what
      follows it there is rewritten with the value just read. */
  function HeaderSpan(v: Volume, c: int): int
    requires v.Valid()
  {
    if c == v.root then 1 else v.fileHeaderBlocks
  }

  function WriteHeader(v: Volume, m: Medium, c: int, h: Header): Medium
    requires v.Valid()
  {
    var end := c + HeaderSpan(v, c);
    Medium((map k | k in m.headers && !(c < k < end) :: m.headers[k])[c := h],
           k => if c <= k < end then Blank else m.data(k))
  }

  function ReadCells(m: Medium, c: int, n: int): seq<Cell> {
    if n <= 0 then [] else seq(n, i requires 0 <= i < n => m.data(c + i))
  }

  function WriteCells(m: Medium, c: int, cells: seq<Cell>): Medium {
    Medium(map k | k in m.headers && !(c <= k < c + |cells|) :: m.headers[k],
           k => if c <= k < c + |cells| then cells[k - c] else m.data(k))
  }

  // ---------------------------------------------------------------- requests and the device record

  datatype Command = AddEntry | AllocBlocks | DeleteEntry

  /** The user's request: ioi_Offset and the name in the send buffer. */
  datatype Request = Request(command: Command, offset: int, name: string)

  datatype State =
    | Idle | Done | Fault | Initialization | CheckIsThisLast | CheckSuccessor | CutTheSlack | CutOffExcess
    | GetOldBackLink | FixOldBackLink | SuccessfulChomp | TryNewBlock | ExamineNewBlock | ReadToCopy
    | WriteCopiedData | CopyDone | FetchHeader | MarkItFree | BackUpOne | ScanAhead | AttemptMerge | FixFlink
    | DoneDeleting | InitScan | ExamineEntry

  datatype Action = NoAction | ReadThis | ReadOther | WriteThis | WriteOther | ReadData | WriteData

  /** What one activation returns: keep running, or complete the request with or without an error. */
  datatype Status = Running | Success | NoSpace | NoFile

  /** The device record, with the fields of the File it is acting on. */
  datatype Device = Device(
    fsm: State,
    thisCursor: int, otherCursor: int, mergeCursor: int, haltCursor: int,
    desiredSize: int, contentOffset: int, blocksToCopy: int, blocksToRead: int,
    thisIndex: int, entryIndex: int, entryOffset: int,
    thisBlock: Header, otherBlock: Header,
    copyBuffer: seq<Cell>, copyName: string,
    fileAvatar: int, fileBlocks: int)

  datatype Outcome = Outcome(dev: Device, action: Action, status: Status)

  /** The characters of a string in memory, up to its terminator. */
  function CString(s: string): string {
    if s == [] || s[0] == '\0' then [] else [s[0]] + CString(s[1..])
  }

  /** What strncpy leaves in a name field, which holds no terminator if the name fills it. */
  function Truncated(name: string): string {
    CString(if |name| <= FILESYSTEM_MAX_NAME_LEN then name else name[..FILESYSTEM_MAX_NAME_LEN])
  }

  /** That is the name up to its terminator, or up to the end of the field. */
  lemma TruncatedIs(name: string)
    ensures var n := |Truncated(name)|;
            && n <= |name| && n <= FILESYSTEM_MAX_NAME_LEN && Truncated(name) == name[..n]
            && '\0' !in name[..n]
            && (n == |name| || n == FILESYSTEM_MAX_NAME_LEN || name[n] == '\0')
  {
    var field := if |name| <= FILESYSTEM_MAX_NAME_LEN then name else name[..FILESYSTEM_MAX_NAME_LEN];
    CStringIs(field);
    assert field[..|CString(field)|] == name[..|CString(field)|];
  }

  lemma {:induction false} CStringIs(s: string)
    ensures var n := |CString(s)|;
            n <= |s| && CString(s) == s[..n] && '\0' !in s[..n] && (n == |s| || s[n] == '\0')
  {
    if s != [] && s[0] != '\0' {
      CStringIs(s[1..]);
    }
  }

  /** The comparison of an entry's name with the one looked for, which stands in zeroed memory.  Behind a name that
      fills its field, strcasecmp() reads on: there stands the fingerprint of the record's other block. */
  predicate NameMatches(h: Header, behind: int, name: string) {
    SameName(h.name, name) && (|h.name| < FILESYSTEM_MAX_NAME_LEN || BeginsWithZero(behind))
  }

  /** The first byte of a 32-bit word in memory, which is its highest one. */
  predicate BeginsWithZero(word: int) { 0 <= word < 0x100_0000 }

  // ---------------------------------------------------------------- the state machine, state by state

  function GoTryNewBlock(v: Volume, d: Device): Outcome {
    Outcome(d.(otherCursor := v.root, fsm := ExamineNewBlock), ReadOther, Running)
  }

  function GoFetchHeader(d: Device): Outcome {
    Outcome(d.(fsm := MarkItFree), ReadThis, Running)
  }

  function GoMarkItFree(v: Volume, d: Device): Outcome
    requires v.Valid()
  {
    Outcome(d.(entryIndex := 0, entryOffset := 0,
               thisBlock := d.thisBlock.(fingerprint := FINGERPRINT_FREEBLOCK,
                                         headerBlockCount := HowMany(SIZEOF_LINKED_MEM_BLOCK, v.blockSize)),
               fsm := BackUpOne), WriteThis, Running)
  }

  function OnInitialization(v: Volume, r: Request, d0: Device): Outcome {
    var d := d0.(mergeCursor := 0);
    if r.command.AddEntry? then GoTryNewBlock(v, d)
    else Outcome(d.(fsm := CheckIsThisLast), ReadThis, Running)
  }

  function OnCheckIsThisLast(v: Volume, d: Device): Outcome {
    if d.thisBlock.flink < d.thisCursor then GoTryNewBlock(v, d)
    else Outcome(d.(otherCursor := d.thisBlock.flink, fsm := CheckSuccessor), ReadOther, Running)
  }

  /** An int32 where the source compares it with a block count, which is unsigned. */
  function Unsigned(a: int): int {
    if a < 0 then a + 0x1_0000_0000 else a
  }

  /** The difference is unsigned in the source: a wanted size below the present one wraps to a huge number. */
  function UnsignedDifference(a: int, b: int): int {
    (a - b) % 0x1_0000_0000
  }

  function OnCheckSuccessor(v: Volume, d: Device): Outcome {
    if !d.otherBlock.IsFree() ||
       d.otherBlock.blockCount < UnsignedDifference(d.desiredSize, d.thisBlock.blockCount)
    then GoTryNewBlock(v, d)
    else
      Outcome(d.(thisBlock := d.thisBlock.(blockCount := d.thisBlock.blockCount + d.otherBlock.blockCount,
                                           flink := d.otherBlock.flink),
                 fsm := CutTheSlack), WriteThis, Running)
  }

  /** A new entry's block takes the place of the current one. */
  function Adopted(r: Request, d: Device): Device {
    if r.command.AddEntry? then d.(thisBlock := d.otherBlock, thisCursor := d.otherCursor) else d
  }

  function CutTheSlackOf(v: Volume, d: Device): Outcome
    requires v.Valid()
  {
    if UnsignedDifference(d.thisBlock.blockCount, d.desiredSize) < SPLIT_LIMIT then
      Outcome(d.(otherCursor := d.thisBlock.flink, fsm := FixOldBackLink), ReadOther, Running)
    else
      Outcome(d.(otherCursor := d.thisCursor + d.desiredSize,
                 otherBlock := d.otherBlock.(fingerprint := FINGERPRINT_FREEBLOCK,
                                             headerBlockCount := HowMany(SIZEOF_LINKED_MEM_BLOCK, v.blockSize),
                                             flink := d.thisBlock.flink,
                                             blink := d.thisCursor,
                                             blockCount := d.thisBlock.blockCount - d.desiredSize),
                 fsm := CutOffExcess), WriteOther, Running)
  }

  function OnCutTheSlack(v: Volume, r: Request, d: Device): Outcome
    requires v.Valid()
  {
    CutTheSlackOf(v, Adopted(r, d))
  }

  function OnCutOffExcess(d: Device): Outcome {
    Outcome(d.(thisBlock := d.thisBlock.(blockCount := d.desiredSize, flink := d.otherCursor),
               fsm := GetOldBackLink), WriteThis, Running)
  }

  function OnGetOldBackLink(d: Device): Outcome {
    Outcome(d.(otherCursor := d.otherBlock.flink, fsm := FixOldBackLink), ReadOther, Running)
  }

  function OnFixOldBackLink(d: Device): Outcome {
    var back := if d.otherCursor == d.thisBlock.flink then d.thisCursor else d.thisBlock.flink;
    Outcome(d.(otherBlock := d.otherBlock.(blink := back), fsm := SuccessfulChomp), WriteOther, Running)
  }

  function OnSuccessfulChomp(v: Volume, d0: Device): Outcome
    requires v.Valid()
  {
    var d := d0.(fileBlocks := d0.thisBlock.blockCount - v.fileHeaderBlocks);
    if d.mergeCursor != 0 then GoFetchHeader(d.(thisCursor := d.mergeCursor))
    else Outcome(d.(fsm := Done), NoAction, Success)
  }

  function OnExamineNewBlock(v: Volume, r: Request, d0: Device): Outcome
    requires v.Valid()
  {
    if !d0.otherBlock.IsFree() || d0.otherBlock.blockCount < Unsigned(d0.desiredSize) then
      var d := d0.(otherCursor := d0.otherBlock.flink);
      if d.otherCursor == v.root then Outcome(d.(fsm := Fault), NoAction, NoSpace)
      else Outcome(d.(fsm := ExamineNewBlock), ReadOther, Running)
    else
      var taken := d0.otherBlock.(fingerprint := FINGERPRINT_FILEBLOCK, headerBlockCount := v.fileHeaderBlocks);
      if r.command.AddEntry? then
        Outcome(d0.(otherBlock := taken.(byteCount := 0, fileType := BLANK_TYPE, uniqueId := 0,
                                         name := Truncated(r.name)),
                    fsm := CutTheSlack), WriteOther, Running)
      else
        var blocks := HowMany(d0.thisBlock.byteCount, v.blockSize);
        Outcome(d0.(otherBlock := taken.(byteCount := d0.thisBlock.byteCount, fileType := d0.thisBlock.fileType,
                                         uniqueId := d0.thisBlock.uniqueId, name := d0.thisBlock.name),
                    contentOffset := v.fileHeaderBlocks,
                    blocksToCopy := blocks,
                    blocksToRead := 0,
                    fsm := if blocks > 0 then ReadToCopy else CopyDone), WriteOther, Running)
  }

  function OnReadToCopy(v: Volume, d: Device): Outcome
    requires v.Valid()
  {
    Outcome(d.(contentOffset := d.contentOffset + d.blocksToRead,
               blocksToRead := if d.blocksToCopy > v.copyBlocks then v.copyBlocks else d.blocksToCopy,
               fsm := WriteCopiedData), ReadData, Running)
  }

  function OnWriteCopiedData(d: Device): Outcome {
    var left := d.blocksToCopy - d.blocksToRead;
    Outcome(d.(blocksToCopy := left, fsm := if left <= 0 then CopyDone else ReadToCopy), WriteData, Running)
  }

  function OnCopyDone(v: Volume, d: Device): Outcome
    requires v.Valid()
  {
    Outcome(d.(thisBlock := d.otherBlock,
               otherBlock := d.thisBlock.(fingerprint := FINGERPRINT_FREEBLOCK,
                                          headerBlockCount := HowMany(SIZEOF_LINKED_MEM_BLOCK, v.blockSize)),
               mergeCursor := d.thisCursor,
               thisCursor := d.otherCursor,
               otherCursor := d.thisCursor,
               fileAvatar := d.otherCursor,
               fileBlocks := d.otherBlock.blockCount - v.fileHeaderBlocks,
               fsm := CutTheSlack), WriteOther, Running)
  }

  function OnBackUpOne(d: Device): Outcome {
    if d.thisBlock.IsFree() then
      Outcome(d.(thisCursor := d.thisBlock.blink, fsm := BackUpOne), ReadThis, Running)
    else
      Outcome(d.(thisCursor := d.thisBlock.flink, fsm := ScanAhead), ReadThis, Running)
  }

  function OnScanAhead(d: Device): Outcome {
    Outcome(d.(otherCursor := d.thisBlock.flink, fsm := AttemptMerge), ReadOther, Running)
  }

  function OnAttemptMerge(d: Device): Outcome {
    if d.otherBlock.IsFree() then
      Outcome(d.(thisBlock := d.thisBlock.(blockCount := d.thisBlock.blockCount + d.otherBlock.blockCount,
                                           flink := d.otherBlock.flink),
                 otherCursor := d.otherBlock.flink,
                 fsm := AttemptMerge), ReadOther, Running)
    else
      Outcome(d.(otherBlock := d.otherBlock.(blink := d.thisCursor), fsm := FixFlink), WriteOther, Running)
  }

  function OnFixFlink(d: Device): Outcome {
    Outcome(d.(fsm := DoneDeleting), WriteThis, Running)
  }

  function OnInitScan(v: Volume, d: Device): Outcome {
    var fromRoot := d.entryOffset <= 0 || d.entryIndex <= 0;
    var cursor := if fromRoot then v.root else d.entryOffset;
    Outcome(d.(thisIndex := if fromRoot then 0 else d.entryIndex,
               thisCursor := cursor,
               haltCursor := cursor,
               fsm := ExamineEntry), ReadThis, Running)
  }

  /** The scan counts the entry it has come to, and remembers where it is. */
  function Noted(d: Device): Device {
    if d.thisBlock.IsAnchor() then d.(thisIndex := 0)
    else if d.thisBlock.IsFile() && d.entryOffset != d.thisCursor then
      d.(thisIndex := d.thisIndex + 1, entryIndex := d.thisIndex + 1, entryOffset := d.thisCursor)
    else d
  }

  function OnExamineEntry(v: Volume, r: Request, d0: Device): Outcome
    requires v.Valid()
  {
    var d := Noted(d0);
    if d.thisBlock.IsFile() && r.command.DeleteEntry?
       && NameMatches(d.thisBlock, d.otherBlock.fingerprint, d.copyName) then
      GoMarkItFree(v, d)
    else
      var d1 := d.(thisCursor := d.thisBlock.flink);
      if d1.thisCursor == d1.haltCursor then Outcome(d1.(fsm := Done), NoAction, NoFile)
      else Outcome(d1.(fsm := ExamineEntry), ReadThis, Running)
  }

  /** One activation of the state machine; the raw transfer it asks for is the outcome's action. */
  function Activate(v: Volume, r: Request, d: Device): Outcome
    requires v.Valid()
  {
    match d.fsm
    case Idle => Outcome(d.(fsm := Idle), NoAction, Success)
    case Done => Outcome(d.(fsm := Idle), NoAction, Success)
    case Fault => Outcome(d.(fsm := Fault), NoAction, Success)
    case Initialization => OnInitialization(v, r, d)
    case CheckIsThisLast => OnCheckIsThisLast(v, d)
    case CheckSuccessor => OnCheckSuccessor(v, d)
    case CutTheSlack => OnCutTheSlack(v, r, d)
    case CutOffExcess => OnCutOffExcess(d)
    case GetOldBackLink => OnGetOldBackLink(d)
    case FixOldBackLink => OnFixOldBackLink(d)
    case SuccessfulChomp => OnSuccessfulChomp(v, d)
    case TryNewBlock => GoTryNewBlock(v, d)
    case ExamineNewBlock => OnExamineNewBlock(v, r, d)
    case ReadToCopy => OnReadToCopy(v, d)
    case WriteCopiedData => OnWriteCopiedData(d)
    case CopyDone => OnCopyDone(v, d)
    case FetchHeader => GoFetchHeader(d)
    case MarkItFree => GoMarkItFree(v, d)
    case BackUpOne => OnBackUpOne(d)
    case ScanAhead => OnScanAhead(d)
    case AttemptMerge => OnAttemptMerge(d)
    case FixFlink => OnFixFlink(d)
    case DoneDeleting => Outcome(d.(fsm := Fault), NoAction, Success)
    case InitScan => OnInitScan(v, d)
    case ExamineEntry => OnExamineEntry(v, r, d)
  }

  /** The raw transfer: the device record and the medium once it has completed. */
  function Transfer(v: Volume, a: Action, d: Device, m: Medium): (Device, Medium)
    requires v.Valid()
  {
    match a
    case NoAction => (d, m)
    case ReadThis => (d.(thisBlock := ReadHeader(m, d.thisCursor)), m)
    case ReadOther => (d.(otherBlock := ReadHeader(m, d.otherCursor)), m)
    case WriteThis => (d, WriteHeader(v, m, d.thisCursor, d.thisBlock))
    case WriteOther => (d, WriteHeader(v, m, d.otherCursor, d.otherBlock))
    case ReadData => (d.(copyBuffer := ReadCells(m, d.thisCursor + d.contentOffset, d.blocksToRead)), m)
    case WriteData => (d, WriteCells(m, d.otherCursor + d.contentOffset, d.copyBuffer))
  }

  /** The machine together with the medium, between two raw transfers. */
  datatype World = World(dev: Device, medium: Medium)

  /** The activation's outcome carried out on the medium. */
  function After(v: Volume, o: Outcome, m: Medium): World
    requires v.Valid()
  {
    var (d, m') := Transfer(v, o.action, o.dev, m);
    World(d, m')
  }

  function Step(v: Volume, r: Request, w: World): World
    requires v.Valid()
  {
    After(v, Activate(v, r, w.dev), w.medium)
  }

  function StepStatus(v: Volume, r: Request, w: World): Status
    requires v.Valid()
  {
    Activate(v, r, w.dev).status
  }
}
