/**
 The low-cost CD driver's reader: two buffers filled by a DMA engine that runs on by itself, polled
 without any lock. The engine may take any number of steps between any two accesses of the reader.
 */
module DiscTime {

  const FRAMES_PER_SEC := 75
  const SECS_PER_MIN := 60
  /** Disc times have two-digit minutes, so this many blocks. */
  const DISC_BLOCKS := 450000

  /** Of a number below a hundred: its two decimal digits, a nibble each. */
  function Bin2Bcd(bin: nat): nat { bin / 10 * 0x10 + bin % 10 }

  function Bcd2Bin(bcd: nat): nat { bcd / 0x10 * 10 + bcd % 0x10 }

  /** The fields do not overlap, so joining them is adding them. */
  function BlockToMSF(block: nat): nat {
    var m := block / (FRAMES_PER_SEC * SECS_PER_MIN);
    var s := block % (FRAMES_PER_SEC * SECS_PER_MIN) / FRAMES_PER_SEC;
    var f := block % FRAMES_PER_SEC;
    Bin2Bcd(m) * 0x1_0000 + Bin2Bcd(s) * 0x100 + Bin2Bcd(f)
  }

  /** The block at a disc time. */
  function MSFToBlock(msf: nat): nat {
    (Bcd2Bin(msf / 0x1_0000) * SECS_PER_MIN + Bcd2Bin(msf / 0x100 % 0x100)) * FRAMES_PER_SEC + Bcd2Bin(msf % 0x100)
  }

  lemma BcdRoundTrip(bin: nat)
    ensures Bcd2Bin(Bin2Bcd(bin)) == bin
    ensures bin < 100 ==> Bin2Bcd(bin) < 0x100
  {
    assert bin == bin / 10 * 10 + bin % 10;
  }

  lemma TimeFields(block: nat, m: nat, s: nat, f: nat)
    requires m == block / (FRAMES_PER_SEC * SECS_PER_MIN)
    requires s == block % (FRAMES_PER_SEC * SECS_PER_MIN) / FRAMES_PER_SEC
    requires f == block % FRAMES_PER_SEC
    ensures block == (m * SECS_PER_MIN + s) * FRAMES_PER_SEC + f
    ensures s < SECS_PER_MIN && f < FRAMES_PER_SEC && (block < DISC_BLOCKS ==> m < 100)
  {
    var rest := block % 4500;
    Remainder(block, 60 * m + s, rest - 75 * s) by {
      assert block == 4500 * m + rest;
      assert rest == 75 * s + rest % 75;
    }
  }

  lemma Remainder(n: nat, q: int, r: nat)
    requires n == 75 * q + r && r < 75
    ensures n % 75 == r
  {
    assert n == 75 * (n / 75) + n % 75;
  }

  /** A disc time gives back its block; every block of a disc has its own, of 24 bits. */
  lemma TimeRoundTrip(block: nat)
    requires block < DISC_BLOCKS
    ensures MSFToBlock(BlockToMSF(block)) == block
    ensures BlockToMSF(block) < 0x100_0000
  {
    var m := block / (FRAMES_PER_SEC * SECS_PER_MIN);
    var s := block % (FRAMES_PER_SEC * SECS_PER_MIN) / FRAMES_PER_SEC;
    var f := block % FRAMES_PER_SEC;
    TimeFields(block, m, s, f);
    JoinedFields(m, s, f, BlockToMSF(block));
  }

  lemma JoinedFields(m: nat, s: nat, f: nat, msf: nat)
    requires m < 100 && s < 100 && f < 100
    requires msf == Bin2Bcd(m) * 0x1_0000 + Bin2Bcd(s) * 0x100 + Bin2Bcd(f)
    ensures MSFToBlock(msf) == (m * SECS_PER_MIN + s) * FRAMES_PER_SEC + f && msf < 0x100_0000
  {
    BcdRoundTrip(m);
    BcdRoundTrip(s);
    BcdRoundTrip(f);
    Separated(Bin2Bcd(m), Bin2Bcd(s), Bin2Bcd(f), msf);
  }

  lemma Separated(bm: nat, bs: nat, bf: nat, msf: nat)
    requires bm < 0x100 && bs < 0x100 && bf < 0x100
    requires msf == bm * 0x1_0000 + bs * 0x100 + bf
    ensures MSFToBlock(msf) == (Bcd2Bin(bm) * SECS_PER_MIN + Bcd2Bin(bs)) * FRAMES_PER_SEC + Bcd2Bin(bf)
    ensures msf < 0x100_0000
  {
    FieldsApart(bm, bs, bf);
  }

  lemma FieldsApart(m: nat, s: nat, f: nat)
    requires s < 0x100 && f < 0x100
    ensures var t := m * 0x1_0000 + s * 0x100 + f;
            t / 0x1_0000 == m && t / 0x100 % 0x100 == s && t % 0x100 == f
  {
    var t := m * 0x1_0000 + s * 0x100 + f;
    assert t / 0x100 == m * 0x100 + s;
  }

  lemma TimesDiffer(a: nat, b: nat)
    requires a < DISC_BLOCKS && b < DISC_BLOCKS && BlockToMSF(a) == BlockToMSF(b)
    ensures a == b
  {
    TimeRoundTrip(a);
    TimeRoundTrip(b);
  }
}

module LowCostDisc {
  import opened DiscTime

  type Word = int
  /** A disc block is 2048 bytes of user data. */
  const WORDS := 512
  type Sector = s: seq<Word> | |s| == WORDS witness seq(WORDS, _ => 0)

  /** What static memory holds before anything is read. */
  const EMPTY: Sector := seq(WORDS, _ => 0)

  const WAITLIMIT := 4
  const READ_RETRIES := 12
  const READ_TIMEOUT := 1000

  /** A header or completion word: the disc time in its upper 24 bits, and of the lower eight the one that is ever
      looked at, COMPL_ECC. */
  datatype Mark = Mark(msf: nat, eccError: bool)

  datatype Outcome = Got | DriveOpen | Restart

  /** What happens between two polls, in a run that is laid down: nothing, a whole transfer, or that a tenth of a second
      is over. */
  datatype Moment = Quiet | Arrival(flaw: bool) | Tick

  /** So many tenths of a second are waited for a block. */
  const TICKS := READ_TIMEOUT / 100

  /** How such a run ends: with the block, to no avail, or after what is laid down. */
  datatype Ending = Well | InVain | Later

  /** The wait for the block that is, of the transfers to come, the one with that number, counted from 1: it is to no
      avail if time runs out first or the block arrives with a flaw. */
  function End(plan: seq<Moment>, want: nat, ticks: nat): Ending
    decreases plan
  {
    if plan == [] then Later else
    match plan[0]
    case Quiet => End(plan[1..], want, ticks)
    case Tick => if ticks == 0 then InVain else End(plan[1..], want, ticks - 1)
    case Arrival(flaw) =>
      if 1 < want then End(plan[1..], want - 1, ticks) else if flaw then InVain else Well
  }

  /** The same after a look at the clock, with what has happened since the last poll. */
  function GoingOn(now: Moment, rest: seq<Moment>, want: nat, ticks: nat): Ending {
    if !now.Arrival? then End(rest, want, ticks)
    else if 1 < want then End(rest, want - 1, ticks)
    else if now.flaw then InVain else Well
  }

  /** Pass after pass, each but the first from a new start on the block. */
  function Conclusion(plans: seq<seq<Moment>>, want: nat, retries: nat): Ending
    decreases retries
  {
    if plans == [] then Later
    else if !End(plans[0], want, TICKS).InVain? || retries == 0 then End(plans[0], want, TICKS)
    else Conclusion(plans[1..], 1, retries - 1)
  }

  function Head(plans: seq<seq<Moment>>): seq<Moment> { if plans == [] then [] else plans[0] }

  function Tail(plans: seq<seq<Moment>>): seq<seq<Moment>> { if plans == [] then [] else plans[1..] }

  function Restarts(plans: seq<seq<Moment>>, want: nat, retries: nat): nat
    decreases retries
  {
    if plans == [] || !End(plans[0], want, TICKS).InVain? || retries == 0 then 0
    else 1 + Restarts(plans[1..], 1, retries - 1)
  }

  /** So many polls find nothing, and then the block arrives. */
  function Late(polls: nat): (plan: seq<Moment>)
    ensures End(plan, 1, TICKS).Well?
  {
    if polls == 0 then [Arrival(false)] else [Quiet] + Late(polls - 1)
  }

  /** A block as it comes from the drive: the header first, the completion word last. */
  datatype DiscBlock = DiscBlock(header: Mark, data: Sector, completion: Mark)

  class DiscBuffer {
    var blockNumber: nat
    var inTransit: bool
    /** What the engine writes to. */
    var discBlock: DiscBlock
    /** The latest transfer of the session whose header was written here; -1 if there was none. */
    ghost var index: int

    constructor ()
      ensures blockNumber == 0 && !inTransit && index == -1
      ensures discBlock == DiscBlock(Mark(0, false), EMPTY, Mark(0, false))
    {
      blockNumber, inTransit, index := 0, false, -1;
      discBlock := DiscBlock(Mark(0, false), EMPTY, Mark(0, false));
    }
  }

  class Reader {
    const first: DiscBuffer
    const second: DiscBuffer
    /** The caller's buffer, CurrentBuff. */
    const current: array<Word>
    /** The blocks of the disc, and the time that each of them is stamped with. */
    const disc: nat -> Sector
    const stamp: nat -> nat
    var intransit: DiscBuffer?
    var reqBlock: nat

    // The DMA engine.
    var enabled: bool
    var target: DiscBuffer
    var nextTarget: DiscBuffer
    var progress: nat
    var flawed: bool
    var done: bool

    /** The session: its first block, how many transfers the engine has completed, how many were acknowledged. */
    var start: nat
    var completed: nat
    ghost var acked: nat
    /** How often the disc was sought. */
    ghost var seeks: nat

    // ---------------------------------------------------------------- the invariant

    ghost predicate Apart()
    {
      first != second && current.Length == WORDS
    }

    ghost predicate IsBuffer(x: DiscBuffer) { x == first || x == second }

    /** The completion word and the data of a block, which may be anything if the word says so. */
    ghost predicate Holds(completion: Mark, data: seq<Word>, block: nat) {
      && completion.msf == stamp(block)
      && (!completion.eccError ==> data == disc(block))
    }

    /** What stands in a buffer: the header of the latest transfer begun there and, once that is complete, its
        completion word and, unless flagged, its data. */
    ghost predicate Filled(x: DiscBuffer)
      reads this`start, this`completed, this`target, this`progress, x`discBlock, x`index
    {
      && -1 <= x.index <= completed
      && (0 <= x.index ==> x.discBlock.header.msf == stamp(start + x.index))
      && (0 <= x.index < completed ==>
            start + x.index < DISC_BLOCKS && Holds(x.discBlock.completion, x.discBlock.data, start + x.index))
      && (x.index == completed <==> x == target && 0 < progress)
    }

    /** The transfer under way. */
    ghost predicate Engine()
      reads this`start, this`completed, this`target, this`progress, this`flawed, target`discBlock
    {
      && IsBuffer(target)
      && progress <= WORDS + 2
      && (0 < progress ==> start + completed < DISC_BLOCKS)
      && (0 < completed ==> start + completed <= DISC_BLOCKS)
      && (0 < progress && !flawed ==>
            forall i | 0 <= i < progress - 1 && i < WORDS :: target.discBlock.data[i] == disc(start + completed)[i])
      && (progress == WORDS + 2 ==>
            && target.discBlock.completion.msf == stamp(start + completed)
            && target.discBlock.completion.eccError == flawed)
    }

    /** Where the session's transfers go: the first two as the driver set it up. */
    ghost predicate Addressed()
      reads this`completed, this`target, this`nextTarget
    {
      && IsBuffer(nextTarget)
      && (completed == 0 ==> target == first && nextTarget == second)
      && (completed == 1 ==> target == second)
    }

    function Other(x: DiscBuffer): DiscBuffer { if x == first then second else first }

    /** The driver's own view: the buffer believed to be filled, and the one believed to be full. */
    ghost predicate Tracked()
      reads this`intransit, this`start, this`acked, this`completed, this`done
      reads first`blockNumber, first`inTransit, second`blockNumber, second`inTransit
    {
      && acked <= completed && (done ==> acked < completed)
      && intransit == (if acked % 2 == 0 then first else second)
      && intransit.blockNumber == start + acked && intransit.inTransit
      && Other(intransit).blockNumber == (if acked == 0 then 0 else start + acked - 1)
      && !Other(intransit).inTransit
    }

    ghost predicate Valid()
      reads this`intransit, this`start, this`acked, this`completed, this`done, this`enabled
      reads this`target, this`nextTarget, this`progress, this`flawed
      reads first, second
    {
      && Apart()
      && (intransit == null ==> !enabled)
      && (intransit != null ==> Receiving() && Tracked())
    }

    /** The engine's side of a session. */
    ghost predicate Receiving()
      reads this`start, this`completed, this`target, this`nextTarget, this`progress, this`flawed
      reads first`discBlock, first`index
      reads second`discBlock, second`index
    {
      && Apart() && IsBuffer(target)
      && Filled(first) && Filled(second) && Engine() && Addressed()
      && (1 <= completed ==> 0 <= first.index) && (2 <= completed ==> 0 <= second.index)
    }

    /** InitBuffers: nothing is read yet. */
    constructor (userBuffer: array<Word>, blocks: nat -> Sector, times: nat -> nat)
      requires userBuffer.Length == WORDS
      ensures Valid() && fresh(first) && fresh(second)
      ensures current == userBuffer && disc == blocks && stamp == times && intransit == null && !done
      ensures first.blockNumber == second.blockNumber == 0 && seeks == 0
      ensures second.discBlock == DiscBlock(Mark(0, false), EMPTY, Mark(0, false))
    {
      var one := new DiscBuffer();
      var two := new DiscBuffer();
      first, second, current, disc, stamp := one, two, userBuffer, blocks, times;
      intransit, reqBlock := null, 0;
      enabled, target, nextTarget, progress, flawed, done := false, one, two, 0, false, false;
      start, completed, acked, seeks := 0, 0, 0, 0;
    }

    // ---------------------------------------------------------------- the engine

    /** What the engine may do to a buffer while the reader looks on: nothing to a complete transfer, unless it
        begins another one, later than all complete ones, in its place. */
    twostate predicate Untouched(x: DiscBuffer)
      reads this`completed, x`discBlock, x`index
    {
      old(completed) <= x.index || SameContents(x)
    }

    method EngineStep()
      requires Valid()
      modifies this`target, this`progress, this`flawed, this`done, this`completed
      modifies first`discBlock, first`index
      modifies second`discBlock, second`index
      ensures Valid() && old(completed) <= completed && (old(done) ==> done)
      ensures Untouched(first) && Untouched(second)
    {
      if !enabled || start + completed >= DISC_BLOCKS {
        return;
      }
      if progress == 0 {
        var flaw: bool := *;
        BeginTransfer(flaw);
      } else if progress <= WORDS {
        TransferWord();
      } else if progress == WORDS + 1 {
        EndTransfer();
      } else {
        NextTransfer();
      }
    }

    /** The header comes first. */
    method BeginTransfer(flaw: bool)
      requires Receiving() && progress == 0 && start + completed < DISC_BLOCKS
      modifies this`progress, this`flawed, target`discBlock, target`index
      ensures Receiving() && completed <= target.index && progress == 1 && flawed == flaw
    {
      flawed := flaw;
      var bit: bool := *;
      target.discBlock := target.discBlock.(header := Mark(stamp(start + completed), bit));
      target.index := completed;
      progress := 1;
    }

    method TransferWord()
      requires Receiving() && 0 < progress <= WORDS
      modifies this`progress, target`discBlock
      ensures Receiving() && progress == old(progress) + 1
    {
      var word: Word := *;
      var data := target.discBlock.data[progress - 1 := if flawed then word else disc(start + completed)[progress - 1]];
      target.discBlock := target.discBlock.(data := data);
      progress := progress + 1;
    }

    /** The completion word comes last. */
    method EndTransfer()
      requires Receiving() && progress == WORDS + 1
      modifies this`progress, target`discBlock
      ensures Receiving() && progress == WORDS + 2
    {
      target.discBlock := target.discBlock.(completion := Mark(stamp(start + completed), flawed));
      progress := WORDS + 2;
    }

    /** The engine raises its flag and goes on with the next address it was given. */
    method NextTransfer()
      requires Receiving() && progress == WORDS + 2 && acked <= completed
      modifies this`target, this`progress, this`done, this`completed
      ensures Receiving() && completed == old(completed) + 1 && done && progress == 0 && target == nextTarget
    {
      completed := completed + 1;
      done := true;
      progress := 0;
      target := nextTarget;
      StillFilled(first);
      StillFilled(second);
    }

    /** The complete transfer counts as such, and no other one has begun. */
    twostate lemma StillFilled(x: DiscBuffer)
      requires IsBuffer(x) && old(Filled(x)) && old(Engine()) && old(progress) == WORDS + 2
      requires completed == old(completed) + 1 && progress == 0 && start == old(start)
      requires unchanged(x`discBlock, x`index)
      ensures Filled(x)
    {
      if x == old(target) {
        assert old(Holds(x.discBlock.completion, x.discBlock.data, start + completed));
      }
    }

    /** Nothing that the reader looks at has changed, nor has the engine done anything. */
    twostate predicate AtRest()
      reads this`intransit, this`start, this`acked, this`done, this`target, this`progress, this`completed
      reads first`discBlock, first`index, first`blockNumber, first`inTransit
      reads second`discBlock, second`index, second`blockNumber, second`inTransit
    {
      && intransit == old(intransit) && start == old(start) && acked == old(acked) && done == old(done)
      && first.blockNumber == old(first.blockNumber) && second.blockNumber == old(second.blockNumber)
      && first.inTransit == old(first.inTransit) && second.inTransit == old(second.inTransit)
      && SameContents(first) && SameContents(second) && EngineIdle()
    }

    twostate predicate EngineIdle()
      reads this`target, this`progress, this`completed
    {
      target == old(target) && progress == old(progress) && completed == old(completed)
    }

    twostate predicate SameContents(x: DiscBuffer)
      reads x`discBlock, x`index
    {
      x.discBlock == old(x.discBlock) && x.index == old(x.index)
    }

    /** Any number of steps of the engine, before an access of the reader. Every operation has the runs in which
        anything may happen, and, if `still`, one of them: the engine does nothing, no clock ticks and nothing fails. */
    method Interfere(still: bool)
      requires Valid()
      modifies this`target, this`progress, this`flawed, this`done, this`completed
      modifies first`discBlock, first`index
      modifies second`discBlock, second`index
      ensures Valid() && old(completed) <= completed && (old(done) ==> done)
      ensures Untouched(first) && Untouched(second)
      ensures still ==> AtRest()
    {
      if still {
        return;
      }
      var n: nat := *;
      while n > 0
        invariant Valid() && old(completed) <= completed && (old(done) ==> done)
        invariant Untouched(first) && Untouched(second)
      {
        EngineStep();
        n := n - 1;
      }
    }

    // ---------------------------------------------------------------- what may be believed

    /** Every block of the disc is stamped with its time. */
    ghost predicate Stamped() {
      forall b: nat {:trigger BlockToMSF(b)} | b < DISC_BLOCKS :: stamp(b) == BlockToMSF(b)
    }

    /** Header and completion word are of the same time, and the block is without error. */
    ghost predicate MarksAgree(x: DiscBuffer)
      reads x`discBlock
    {
      x.discBlock.header.msf == x.discBlock.completion.msf && !x.discBlock.completion.eccError
    }

    /** An empty buffer that looks as if it held block 0 does hold it. */
    ghost predicate EmptyIsZero()
      reads second`discBlock, second`index
    {
      second.index == -1 && second.discBlock.header.msf == stamp(0) && MarksAgree(second) ==>
        second.discBlock.data == disc(0)
    }

    /** Block 0 is the driver's own mark of an empty buffer. It is mistaken for one only in a session that began
        elsewhere and of which no transfer is acknowledged, or about to be. */
    ghost predicate Safe(block: nat)
      reads this`intransit, this`start, this`acked, this`done
      reads second`discBlock, second`index
    {
      block == 0 && intransit != null && start != 0 && acked == 0 && !done ==> EmptyIsZero()
    }

    /** The same after a look at the engine's flag. */
    ghost predicate Settled(block: nat)
      reads this`intransit, this`start, this`acked
      reads second`discBlock, second`index
    {
      block == 0 && intransit != null && start != 0 && acked == 0 ==> EmptyIsZero()
    }

    /** What FindBuffer comes to first. */
    function Found(): DiscBuffer
      reads this`reqBlock, first`blockNumber
    {
      if first.blockNumber == reqBlock then first else second
    }

    /** The buffer found is believed to hold the block. */
    ghost predicate Awaited(bp: DiscBuffer)
      reads this`reqBlock, first`blockNumber, first`inTransit, second`blockNumber, second`inTransit
    {
      bp == Found() && bp.blockNumber == reqBlock && !bp.inTransit
    }

    /** The buffer found passes every check of WaitReadBlock, if nothing happens meanwhile. */
    ghost predicate Presented()
      reads this`reqBlock, this`intransit, this`done
      reads first`blockNumber, first`inTransit, first`discBlock
      reads second`blockNumber, second`inTransit, second`discBlock
    {
      && intransit != null && !done
      && Awaited(Found()) && MarksAgree(Found()) && Found().discBlock.header.msf == stamp(reqBlock)
    }

    /** The data in the buffer found. */
    ghost function Offered(): Sector
      reads this`reqBlock, first`blockNumber, first`discBlock, second`discBlock
    {
      Found().discBlock.data
    }

    /** What the checks of a buffer found come down to. */
    ghost predicate Passes(bp: DiscBuffer)
      reads this`reqBlock, this`acked, bp`discBlock, bp`index
    {
      MarksAgree(bp) && bp.index == acked - 1 && bp.discBlock.header.msf == stamp(reqBlock)
    }

    /** The one buffer believed to be full is that of the latest acknowledged transfer; before the first, it is the
        empty one, of a session that began elsewhere. */
    lemma Believed(bp: DiscBuffer)
      requires Valid() && intransit != null && Awaited(bp)
      ensures bp == Other(intransit) && reqBlock < DISC_BLOCKS
      ensures 0 < acked <= completed ==> reqBlock == start + acked - 1 && 0 <= bp.index
      ensures acked == 0 ==> bp == second && reqBlock == 0 && start != 0
    {
    }

    /** With the right time in its header, it has had no later transfer: times identify blocks, and the blocks of
        a session ascend. */
    lemma TimeIdentifies(bp: DiscBuffer)
      requires Valid() && Stamped() && intransit != null && bp == Other(intransit) && (acked == 0 ==> start != 0)
      requires bp.discBlock.header.msf == stamp(bp.blockNumber)
      ensures bp.index == acked - 1
    {
      if 0 <= bp.index {
        StampIdentifies(start + bp.index, bp.blockNumber);
      }
    }

    lemma StampIdentifies(found: nat, block: nat)
      requires Stamped() && found < DISC_BLOCKS && block < DISC_BLOCKS && stamp(found) == stamp(block)
      ensures found == block
    {
      TimesDiffer(found, block);
    }

    lemma CompleteIsBlock(x: DiscBuffer)
      requires Filled(x) && 0 <= x.index < completed && MarksAgree(x)
      ensures x.discBlock.data == disc(start + x.index)
    {
    }

    /** What passes all checks is the block, if it is not taken for block 0. */
    lemma PassedIsBlock(bp: DiscBuffer)
      requires Valid() && Stamped() && intransit != null && Awaited(bp) && Settled(reqBlock)
      requires Passes(bp)
      ensures bp.discBlock.data == disc(reqBlock)
    {
      Believed(bp);
      if 0 < acked {
        CompleteIsBlock(bp);
      }
    }

    /** Where block 0 is not safe, the empty buffer passes every check. */
    lemma UnsafeIsPresented(block: nat)
      requires Valid() && Stamped() && !Safe(block) && reqBlock == block
      ensures block == 0 && Presented() && Found() == second && second.discBlock.data != disc(0)
    {
      assert stamp(0) == BlockToMSF(0);
    }

    // ---------------------------------------------------------------- the reader

    /** At most one completion is noticed at a time; several may have happened. */
    method UpdateDMA(still: bool)
      requires Valid()
      modifies this`target, this`progress, this`flawed, this`done, this`completed
      modifies this`intransit, this`nextTarget, this`acked
      modifies first`discBlock, first`index, first`blockNumber, first`inTransit
      modifies second`discBlock, second`index, second`blockNumber, second`inTransit
      ensures Valid() && old(completed) <= completed
      ensures Untouched(first) && Untouched(second)
      ensures (intransit == null) == old(intransit == null)
      ensures old(acked) <= acked <= old(acked) + 1
      ensures old(intransit != null && done) ==> acked == old(acked) + 1
      ensures intransit != null ==> !done
      ensures still && !old(done) ==> AtRest() && nextTarget == old(nextTarget)
      ensures still ==> SameContents(first) && SameContents(second) && EngineIdle()
      ensures still && old(intransit != null && done) ==> Switched()
    {
      Interfere(still);
      if intransit == null || !done {
        return;
      }
      Note(still);
    }

    /** The driver has turned to the other buffer, and told the engine where to go on after that. */
    twostate predicate Switched()
      reads this`intransit, this`nextTarget
    {
      old(intransit) != null && intransit == Other(old(intransit)) && nextTarget == Other(intransit)
    }

    method Note(still: bool)
      requires Valid() && intransit != null && done
      modifies this`target, this`progress, this`flawed, this`done, this`completed
      modifies this`intransit, this`nextTarget, this`acked
      modifies first`discBlock, first`index, first`blockNumber, first`inTransit
      modifies second`discBlock, second`index, second`blockNumber, second`inTransit
      ensures Valid() && old(completed) <= completed && intransit != null && acked == old(acked) + 1 && !done
      ensures Untouched(first) && Untouched(second)
      ensures still ==> SameContents(first) && SameContents(second) && EngineIdle()
      ensures still ==> Switched()
    {
      Interfere(still);
      Acknowledge();
    }

    /** Once the flag has been looked at, a safe block stays so. */
    twostate lemma FlagSeen(block: nat)
      requires old(Valid()) && old(Safe(block)) && Untouched(second)
      requires start == old(start) && (intransit == null) == old(intransit == null)
      requires old(acked) <= acked && (old(intransit != null && done) ==> old(acked) < acked)
      ensures Settled(block)
    {
    }

    method Acknowledge()
      requires Receiving() && Tracked() && acked < completed
      modifies this`intransit, this`nextTarget, this`acked, this`done
      modifies first`blockNumber, first`inTransit, second`blockNumber, second`inTransit
      ensures Receiving() && Tracked() && acked == old(acked) + 1 && !done && Switched()
    {
      done := false;
      SwitchBuffers();
      ConfigNextDMA(Other(intransit));
    }

    method ConfigNextDMA(bp: DiscBuffer)
      requires Receiving() && IsBuffer(bp) && 0 < completed
      modifies this`nextTarget
      ensures Receiving() && nextTarget == bp
    {
      nextTarget := bp;
    }

    /** The driver's side of a completion: the other buffer is receiving now. */
    method SwitchBuffers()
      requires Tracked() && first != second && acked < completed && !done
      modifies this`intransit, this`acked
      modifies first`blockNumber, first`inTransit, second`blockNumber, second`inTransit
      ensures Tracked() && acked == old(acked) + 1 && intransit == Other(old(intransit))
    {
      var bp := intransit;
      intransit := Other(intransit);
      bp.inTransit := false;
      intransit.inTransit := true;
      intransit.blockNumber := bp.blockNumber + 1;
      acked := acked + 1;
    }

    /** A session has just begun at a block. */
    ghost predicate JustStarted(block: nat)
      reads this`intransit, this`start, this`acked, this`done, this`enabled, second`index
      reads this`target, this`progress, this`completed
    {
      && intransit == first && start == block && acked == 0 && !done && second.index == -1
      && enabled && target == first && progress == 0 && completed == 0
    }

    /** The first transfer of a session has arrived without a flaw, and is flagged. */
    ghost predicate FirstArrived(block: nat)
      reads this`intransit, this`start, this`acked, this`done, this`completed, first`discBlock, first`index
    {
      && intransit == first && start == block && acked == 0 && done && 0 < completed && first.index == 0
      && MarksAgree(first) && first.discBlock.header.msf == stamp(block)
    }

    /** The driver and the engine agree on where the next transfer goes, which has not begun. */
    ghost predicate InStep()
      reads this`intransit, this`acked, this`done, this`enabled, this`target, this`nextTarget
      reads this`progress, this`completed
    {
      && intransit != null && enabled && !done && progress == 0 && completed == acked
      && target == intransit && nextTarget == Other(intransit)
    }

    /** That transfer has arrived, flawed or not, and the driver has not noticed yet. */
    ghost predicate Flagged(flaw: bool)
      reads this`intransit, this`start, this`acked, this`done, this`enabled, this`target
      reads this`progress, this`completed, first`discBlock, first`index, second`discBlock, second`index
    {
      && intransit != null && enabled && done && progress == 0 && completed == acked + 1
      && IsBuffer(intransit) && target == Other(intransit)
      && intransit.index == acked && HasMarks(intransit, start + acked, flaw)
    }

    /** The number of a block among the transfers to come, if it is one of them. */
    ghost function ToCome(block: nat): nat
      reads this`start, this`acked
    {
      if start + acked <= block < DISC_BLOCKS then block + 1 - start - acked else 0
    }

    /** The block waited for is, of the transfers to come, the one with that number. */
    ghost predicate Waiting(want: nat)
      reads this`intransit, this`start, this`acked, this`done, this`enabled, this`target, this`nextTarget
      reads this`progress, this`completed, this`reqBlock
    {
      InStep() && 0 < want == ToCome(reqBlock)
    }

    /** The first of them has arrived. */
    ghost predicate Coming(want: nat, flaw: bool)
      reads this`intransit, this`start, this`acked, this`done, this`enabled, this`target
      reads this`progress, this`completed, this`reqBlock
      reads first`discBlock, first`index, second`discBlock, second`index
    {
      Flagged(flaw) && 0 < want == ToCome(reqBlock)
    }

    /** The block waited for is in the buffer found. */
    ghost predicate Here(flaw: bool)
      reads this`reqBlock, this`intransit, this`done
      reads first`blockNumber, first`inTransit, first`discBlock
      reads second`blockNumber, second`inTransit, second`discBlock
    {
      intransit != null && !done && Awaited(Found()) && HasMarks(Found(), reqBlock, flaw)
    }

    /** The block is the last one that has come, and the driver and the engine agree on where the next one goes. */
    ghost predicate Past(block: nat)
      reads this`intransit, this`start, this`acked, this`done, this`enabled, this`target, this`nextTarget
      reads this`progress, this`completed
    {
      InStep() && block + 1 == start + acked
    }

    ghost predicate HasMarks(x: DiscBuffer, block: nat, flaw: bool)
      reads x`discBlock
    {
      && x.discBlock.header.msf == stamp(block)
      && x.discBlock.completion.msf == stamp(block) && x.discBlock.completion.eccError == flaw
    }

    /** The engine at work, undisturbed, on a whole block, if it can begin one. */
    method Deliver(flaw: bool)
      requires Valid()
      modifies this`target, this`progress, this`flawed, this`done, this`completed
      modifies first`discBlock, first`index
      modifies second`discBlock, second`index
      ensures Valid() && old(completed) <= completed && (old(done) ==> done)
      ensures Untouched(first) && Untouched(second)
      ensures done || AtRest()
      ensures old(InStep()) && start + old(completed) < DISC_BLOCKS ==> Flagged(flaw)
    {
      if enabled && progress == 0 && start + completed < DISC_BLOCKS {
        WholeTransfer(flaw);
      }
    }

    method WholeTransfer(flaw: bool)
      requires Receiving() && progress == 0 && start + completed < DISC_BLOCKS && acked <= completed
      modifies this`target, this`progress, this`flawed, this`done, this`completed, target`discBlock, target`index
      ensures Receiving() && completed == old(completed) + 1 && done && progress == 0 && target == nextTarget
      ensures old(target).index == old(completed) && HasMarks(old(target), start + old(completed), flaw)
    {
      HeaderAndData(flaw);
      CompleteTransfer(flaw);
    }

    method HeaderAndData(flaw: bool)
      requires Receiving() && progress == 0 && start + completed < DISC_BLOCKS
      modifies this`progress, this`flawed, target`discBlock, target`index
      ensures Receiving() && progress == WORDS + 1 && flawed == flaw
    {
      BeginTransfer(flaw);
      AllWords();
    }

    method CompleteTransfer(flaw: bool)
      requires Receiving() && progress == WORDS + 1 && acked <= completed && flawed == flaw
      modifies this`target, this`progress, this`done, this`completed, target`discBlock
      ensures Receiving() && completed == old(completed) + 1 && done && progress == 0 && target == nextTarget
      ensures old(target).index == old(completed) && HasMarks(old(target), start + old(completed), flaw)
    {
      EndTransfer();
      TargetFilled();
      NextTransfer();
    }

    lemma TargetFilled()
      requires Receiving() && progress == WORDS + 2
      ensures target.index == completed && HasMarks(target, start + completed, flawed)
    {
    }

    method AllWords()
      requires Receiving() && progress == 1
      modifies this`progress, target`discBlock
      ensures Receiving() && progress == WORDS + 1
    {
      while progress <= WORDS
        invariant Receiving() && 0 < progress <= WORDS + 1
        decreases WORDS - progress
      {
        TransferWord();
      }
    }

    /** The engine at work, undisturbed, on the first block of a session. */
    method DeliverFirst()
      requires Valid() && JustStarted(start) && start < DISC_BLOCKS
      modifies this`target, this`progress, this`flawed, this`done, this`completed
      modifies first`discBlock, first`index
      modifies second`discBlock, second`index
      ensures Valid() && FirstArrived(start)
    {
      Deliver(false);
    }

    /** Seeks and plays from a block, dropping what the buffers hold; any step of it may fail. */
    method StartPlaying(block: nat, still: bool) returns (ok: bool)
      requires Valid()
      modifies this`target, this`progress, this`flawed, this`done, this`completed, this`enabled, this`start
      modifies this`intransit, this`nextTarget, this`acked, this`seeks
      modifies first`index, first`blockNumber, first`inTransit, second`index, second`blockNumber, second`inTransit
      ensures Valid() && seeks == old(seeks) + 1
      ensures (ok ==> JustStarted(block)) && (still ==> ok)
      ensures old(Safe(block)) ==> Safe(block)
    {
      enabled := false;
      seeks := seeks + 1;
      var failed: bool :| still ==> !failed;
      if failed {
        return false;
      }
      BeginSession(block);
      failed :| still ==> !failed;
      return !failed;
    }

    method BeginSession(block: nat)
      requires Apart()
      modifies this`target, this`progress, this`done, this`completed, this`enabled, this`start
      modifies this`intransit, this`nextTarget, this`acked
      modifies first`index, first`blockNumber, first`inTransit, second`index, second`blockNumber, second`inTransit
      ensures Valid() && JustStarted(block)
    {
      EmptyBuffers();
      intransit := first;
      intransit.blockNumber, intransit.inTransit := block, true;
      acked := 0;
      EnableDMA(block);
    }

    /** The engine's addresses are set, its flag is cleared, and it starts. */
    method EnableDMA(block: nat)
      requires Apart() && first.index == second.index == -1
      modifies this`target, this`nextTarget, this`progress, this`done, this`start, this`completed, this`enabled
      ensures Receiving() && !done && start == block && completed == 0 && progress == 0 && target == first && enabled
    {
      target, nextTarget := first, second;
      start, completed, progress, done := block, 0, 0, false;
      enabled := true;
    }

    method EmptyBuffers()
      modifies first`index, first`blockNumber, first`inTransit, second`index, second`blockNumber, second`inTransit
      ensures first.blockNumber == second.blockNumber == 0 && !first.inTransit && !second.inTransit
      ensures first.index == second.index == -1
    {
      first.blockNumber, first.inTransit, first.index := 0, false, -1;
      second.blockNumber, second.inTransit, second.index := 0, false, -1;
    }

    method FindBuffer(block: nat) returns (bp: DiscBuffer?)
      requires Valid()
      ensures Valid()
      ensures bp == null <==> first.blockNumber != block && second.blockNumber != block
      ensures bp != null ==> bp == (if first.blockNumber == block then first else second) && bp.blockNumber == block
    {
      return if first.blockNumber == block then first else if second.blockNumber == block then second else null;
    }

    method LatestBlock() returns (latest: nat)
      requires Valid()
      ensures Valid()
      ensures first.blockNumber <= latest && second.blockNumber <= latest
      ensures latest == first.blockNumber || latest == second.blockNumber
    {
      return if first.blockNumber > second.blockNumber then first.blockNumber else second.blockNumber;
    }

    /** A buffer holds the block, or will. */
    predicate Buffered(block: nat)
      reads first`blockNumber, second`blockNumber
    {
      first.blockNumber == block || second.blockNumber == block
    }

    /** The block comes soon after the latest one, if there is one. */
    predicate CloseAhead(block: nat)
      reads first`blockNumber, second`blockNumber
    {
      var latest := if first.blockNumber > second.blockNumber then first.blockNumber else second.blockNumber;
      latest != 0 && latest < block < latest + WAITLIMIT
    }

    /** That is one, two or three blocks behind the later of the blocks in the buffers. */
    lemma CloseAheadIff(block: nat)
      ensures CloseAhead(block) <==>
                && (first.blockNumber != 0 || second.blockNumber != 0)
                && first.blockNumber < block && second.blockNumber < block
                && (block - first.blockNumber in {1, 2, 3} || block - second.blockNumber in {1, 2, 3})
    {
    }

    /** Seeks exactly if the block is neither in a buffer nor close ahead. */
    method SeekIfFar(block: nat, still: bool)
      requires Valid()
      modifies this`target, this`progress, this`flawed, this`done, this`completed, this`enabled, this`start
      modifies this`intransit, this`nextTarget, this`acked, this`seeks
      modifies first`index, first`blockNumber, first`inTransit, second`index, second`blockNumber, second`inTransit
      ensures Valid()
      ensures seeks == old(seeks) + if old(Buffered(block) || CloseAhead(block)) then 0 else 1
      ensures old(Buffered(block) || CloseAhead(block)) ==>
                AtRest() && (old(InStep()) ==> InStep()) && ToCome(block) == old(ToCome(block))
      ensures still && !old(Buffered(block) || CloseAhead(block)) ==> JustStarted(block)
      ensures old(Safe(block)) ==> Safe(block)
    {
      var far := IsFar(block);
      if far {
        var ok := StartPlaying(block, still);
      }
    }

    method IsFar(block: nat) returns (far: bool)
      requires Valid()
      ensures Valid()
      ensures far <==> !Buffered(block) && !CloseAhead(block)
    {
      var bp := FindBuffer(block);
      if bp != null {
        return false;
      }
      var latest := LatestBlock();
      return latest == 0 || block <= latest || latest + WAITLIMIT <= block;
    }

    /** Start reading a block: nothing to do if it is, or soon will be, in a buffer. A drive that looks open is left
        alone, and so is the number of the block that is waited for. */
    method AsyncReadBlock(block: nat, looksOpen: bool, still: bool)
      requires Valid()
      modifies this, first, second
      ensures Valid()
      ensures reqBlock == if looksOpen then old(reqBlock) else block
      ensures seeks <= old(seeks) + 1
      ensures looksOpen ==> AtRest()
      ensures !looksOpen && old(Safe(block)) ==> Safe(block)
      ensures still && !looksOpen && !old(Safe(block)) ==> !Safe(block)
      ensures still && !looksOpen && old(FirstArrived(block)) ==> Presented() && Safe(block)
      ensures still && !looksOpen && old(!done && !Buffered(block) && !CloseAhead(block)) ==>
                JustStarted(block) && second.discBlock == old(second.discBlock) && seeks == old(seeks) + 1
      ensures still && !looksOpen && old(InStep() && (Buffered(block) || CloseAhead(block))) ==>
                InStep() && ToCome(block) == old(ToCome(block)) && seeks == old(seeks)
    {
      if !looksOpen {
        reqBlock := block;
        Approach(block, still);
      }
    }

    method Approach(block: nat, still: bool)
      requires Valid()
      modifies this`target, this`progress, this`flawed, this`done, this`completed, this`enabled, this`start
      modifies this`intransit, this`nextTarget, this`acked, this`seeks
      modifies first, second
      ensures Valid() && seeks <= old(seeks) + 1
      ensures old(Safe(block)) ==> Safe(block)
      ensures still && !old(Safe(block)) ==> !Safe(block)
      ensures still && old(FirstArrived(block)) && reqBlock == block ==> Presented() && 0 < acked
      ensures still && old(!done && !Buffered(block) && !CloseAhead(block)) ==>
                JustStarted(block) && second.discBlock == old(second.discBlock) && seeks == old(seeks) + 1
      ensures still && old(InStep() && (Buffered(block) || CloseAhead(block))) ==>
                InStep() && ToCome(block) == old(ToCome(block)) && seeks == old(seeks)
    {
      LookFirst(block, still);
      SeekIfFar(block, still);
    }

    /** The engine's flag is looked at before it is decided whether to seek. */
    method LookFirst(block: nat, still: bool)
      requires Valid()
      modifies this`target, this`progress, this`flawed, this`done, this`completed
      modifies this`intransit, this`nextTarget, this`acked
      modifies first`discBlock, first`index, first`blockNumber, first`inTransit
      modifies second`discBlock, second`index, second`blockNumber, second`inTransit
      ensures Valid()
      ensures old(Safe(block)) ==> Settled(block)
      ensures still && !old(Safe(block)) ==> !Safe(block) && Buffered(block)
      ensures still && old(FirstArrived(block)) && reqBlock == block ==> Presented() && Buffered(block) && 0 < acked
      ensures still && !old(done) ==>
                && Buffered(block) == old(Buffered(block)) && CloseAhead(block) == old(CloseAhead(block))
                && (old(InStep()) ==> InStep()) && ToCome(block) == old(ToCome(block))
                && second.discBlock == old(second.discBlock)
    {
      UpdateDMA(still);
      if old(Safe(block)) {
        FlagSeen(block);
      }
      if still && !old(done) {
        AsNear(block);
      }
    }

    twostate lemma AsNear(block: nat)
      requires AtRest() && nextTarget == old(nextTarget) && enabled == old(enabled)
      ensures Buffered(block) == old(Buffered(block)) && CloseAhead(block) == old(CloseAhead(block))
      ensures (old(InStep()) ==> InStep()) && ToCome(block) == old(ToCome(block))
    {
    }

    /** The polling loop of WaitReadBlock; the clock is looked at between polls. If `still`, what happens between them
        is as planned. */
    method AwaitBlock(still: bool, plan: seq<Moment>, ghost want: nat) returns (outcome: Outcome, bp: DiscBuffer?)
      requires Valid() && intransit != null
      modifies this`target, this`progress, this`flawed, this`done, this`completed
      modifies this`intransit, this`nextTarget, this`acked
      modifies first`discBlock, first`index, first`blockNumber, first`inTransit
      modifies second`discBlock, second`index, second`blockNumber, second`inTransit
      ensures Valid() && intransit != null
      ensures outcome.Got? ==> bp != null && Awaited(bp) && (old(Safe(reqBlock)) ==> Settled(reqBlock))
      ensures still && plan == [] && old(Presented()) ==> outcome.Got? && Presented() && Offered() == old(Offered())
      ensures still && old(Waiting(want)) ==> EndsAs(outcome, End(plan, want, TICKS))
    {
      var timeInLoop, rest := 0, plan;
      var polls: nat :| still && plan == [] ==> 0 < polls;
      ghost var end, ticks: nat := End(plan, want, TICKS), TICKS;
      ghost var w, due, atOnce := want, still && Waiting(want) && !end.Later?, still && plan == [] && Presented();
      while true
        invariant Valid() && intransit != null && timeInLoop + 100 * ticks == READ_TIMEOUT
        invariant old(Safe(reqBlock)) ==> Safe(reqBlock)
        invariant atOnce ==> Presented() && Offered() == old(Offered()) && 0 < polls && rest == []
        invariant !due || Due(rest, w, ticks, end)
        decreases ticks, |rest|, polls
      {
        var now, over;
        now, rest, over, outcome, timeInLoop, polls, ticks := Clock(still, rest, timeInLoop, polls, ticks, w);
        if over {
          return outcome, null;
        }
        over, outcome, bp, w := Examine(still, now, w, rest, ticks);
        if over {
          return outcome, bp;
        }
      }
    }

    /** The block waited for is, of the transfers to come, the one with that number, and so the wait will end. */
    ghost predicate Due(plan: seq<Moment>, want: nat, ticks: nat, end: Ending)
      reads this`intransit, this`start, this`acked, this`done, this`enabled, this`target, this`nextTarget
      reads this`progress, this`completed, this`reqBlock
    {
      Waiting(want) && End(plan, want, ticks) == end
    }

    /** The block is here, without a flaw; or it is here with one, or is waited for no longer. */
    ghost predicate EndsAs(outcome: Outcome, end: Ending)
      reads this`intransit, this`start, this`acked, this`done, this`enabled, this`target, this`nextTarget
      reads this`progress, this`completed, this`reqBlock
      reads first`blockNumber, first`inTransit, first`discBlock
      reads second`blockNumber, second`inTransit, second`discBlock
    {
      match end
      case Well => outcome.Got? && Here(false) && Past(reqBlock)
      case InVain => outcome.Restart? || (outcome.Got? && Here(true))
      case Later => true
    }

    /** The clock is reset every tenth of a second, and the drive may look open then. */
    method Clock(still: bool, plan: seq<Moment>, timeInLoop: nat, polls: nat, ghost ticks: nat, ghost want: nat)
      returns (now: Moment, rest: seq<Moment>, over: bool, outcome: Outcome, timeInLoop': nat, polls': nat,
        ghost ticks': nat)
      requires Valid() && intransit != null && timeInLoop + 100 * ticks == READ_TIMEOUT
      ensures Valid() && Safe(reqBlock) == old(Safe(reqBlock)) && Waiting(want) == old(Waiting(want))
      ensures old(Presented()) ==> Presented() && Offered() == old(Offered())
      ensures timeInLoop' + 100 * ticks' == READ_TIMEOUT && outcome != Got
      ensures !over ==> ticks' < ticks || (ticks' == ticks && (|rest| < |plan| || (rest == plan && polls' < polls)))
      ensures still && plan != [] ==>
                if over then outcome.Restart? && End(plan, want, ticks) == InVain
                else End(plan, want, ticks) == GoingOn(now, rest, want, ticks')
      ensures still && plan == [] && 0 < polls ==> !over && now == Quiet
    {
      now, rest, polls' := Quiet, plan, polls;
      if still && plan != [] {
        now, rest := plan[0], plan[1..];
      } else if polls == 0 {
        now := Tick;
      } else {
        polls' := polls - 1;
      }
      if now != Tick {
        return now, rest, false, Restart, timeInLoop, polls', ticks;
      }
      var driveOpen: bool :| still ==> !driveOpen;
      if driveOpen {
        return now, rest, true, DriveOpen, timeInLoop, polls', ticks;
      }
      if timeInLoop + 100 > READ_TIMEOUT {
        return now, rest, true, Restart, timeInLoop, polls', ticks;
      }
      var more: nat := *;
      return now, rest, false, Restart, timeInLoop + 100, more, ticks - 1;
    }

    method Happen(now: Moment, ghost want: nat)
      requires Valid() && intransit != null
      modifies this`target, this`progress, this`flawed, this`done, this`completed
      modifies first`discBlock, first`index
      modifies second`discBlock, second`index
      ensures Valid() && (old(Safe(reqBlock)) ==> Safe(reqBlock))
      ensures !now.Arrival? && old(Presented()) ==> Presented() && Offered() == old(Offered())
      ensures old(Waiting(want)) ==> if now.Arrival? then Coming(want, now.flaw) else Waiting(want)
    {
      if now.Arrival? {
        Deliver(now.flaw);
      }
    }

    /** What arrives, a poll, and whether the block has been missed. */
    method Examine(still: bool, now: Moment, ghost want: nat, ghost rest: seq<Moment>, ghost ticks: nat)
      returns (over: bool, outcome: Outcome, bp: DiscBuffer?, ghost want': nat)
      requires Valid() && intransit != null
      modifies this`target, this`progress, this`flawed, this`done, this`completed
      modifies this`intransit, this`nextTarget, this`acked
      modifies first`discBlock, first`index, first`blockNumber, first`inTransit
      modifies second`discBlock, second`index, second`blockNumber, second`inTransit
      ensures Valid() && intransit != null
      ensures old(Safe(reqBlock)) ==> Settled(reqBlock)
      ensures over && outcome.Got? ==> bp != null && Awaited(bp)
      ensures still && !now.Arrival? && old(Presented()) ==>
                over && outcome.Got? && Presented() && Offered() == old(Offered())
      ensures still && old(Waiting(want)) ==>
                var end := GoingOn(now, rest, want, ticks);
                if over then EndsAs(outcome, end) else Due(rest, want', ticks, end)
    {
      Happen(now, want);
      outcome, want' := Got, if now.Arrival? && 1 < want then want - 1 else want;
      over, bp := Poll(still, want, now == Arrival(true));
      if !over {
        over, outcome := intransit.blockNumber > reqBlock, Restart;
      }
    }

    /** One look at the engine and the buffers. */
    method Poll(still: bool, ghost want: nat, ghost flaw: bool) returns (got: bool, bp: DiscBuffer?)
      requires Valid() && intransit != null
      modifies this`target, this`progress, this`flawed, this`done, this`completed
      modifies this`intransit, this`nextTarget, this`acked
      modifies first`discBlock, first`index, first`blockNumber, first`inTransit
      modifies second`discBlock, second`index, second`blockNumber, second`inTransit
      ensures Valid() && intransit != null
      ensures got ==> bp != null && Awaited(bp)
      ensures old(Safe(reqBlock)) ==> Settled(reqBlock)
      ensures still && old(Presented()) ==> got && Presented() && Offered() == old(Offered())
      ensures still && old(Waiting(want)) ==> !got && Waiting(want)
      ensures still && old(Coming(want, flaw)) ==> 
                if want <= 1 then got && Here(flaw) && Past(reqBlock) else !got && Waiting(want - 1)
    {
      Notice(still, want, flaw);
      got, bp := Look();
    }

    /** The first half of a poll. */
    method Notice(still: bool, ghost want: nat, ghost flaw: bool)
      requires Valid() && intransit != null
      modifies this`target, this`progress, this`flawed, this`done, this`completed
      modifies this`intransit, this`nextTarget, this`acked
      modifies first`discBlock, first`index, first`blockNumber, first`inTransit
      modifies second`discBlock, second`index, second`blockNumber, second`inTransit
      ensures Valid() && intransit != null
      ensures old(Safe(reqBlock)) ==> Settled(reqBlock)
      ensures still && old(Presented()) ==> Presented() && Offered() == old(Offered())
      ensures still && old(Waiting(want)) ==> Waiting(want)
      ensures still && old(Coming(want, flaw)) ==> if want <= 1 then Here(flaw) && Past(reqBlock) else Waiting(want - 1)
    {
      UpdateDMA(still);
      if old(Safe(reqBlock)) {
        FlagSeen(reqBlock);
      }
      if still && old(done) {
        NowHere();
      } else if still {
        StillWaiting();
      }
    }

    twostate lemma StillWaiting()
      requires AtRest()
      requires enabled == old(enabled) && nextTarget == old(nextTarget) && reqBlock == old(reqBlock)
      ensures forall want: nat | old(Waiting(want)) :: Waiting(want)
      ensures old(Presented()) ==> Presented() && Offered() == old(Offered())
    {
    }

    twostate lemma NowHere()
      requires Valid() && intransit != null && Switched() && EngineIdle()
      requires acked == old(acked) + 1 && !done && SameContents(first) && SameContents(second)
      requires enabled == old(enabled) && start == old(start) && reqBlock == old(reqBlock)
      ensures forall want: nat, flaw | old(Coming(want, flaw)) ::
                if want <= 1 then Here(flaw) && Past(reqBlock) else Waiting(want - 1)
    {
    }

    /** Is the block in a buffer that is not receiving? */
    method Look() returns (got: bool, bp: DiscBuffer?)
      requires Valid() && intransit != null
      ensures Valid()
      ensures got ==> bp != null && Awaited(bp)
      ensures Presented() ==> got
      ensures got <==> Awaited(Found())
    {
      bp := FindBuffer(reqBlock);
      got := bp != null && !bp.inTransit;
    }

    /** memcpy32 out of a buffer, with the engine running. */
    method CopyOut(bp: DiscBuffer, still: bool)
      requires Valid() && IsBuffer(bp)
      modifies this`target, this`progress, this`flawed, this`done, this`completed, current
      modifies first`discBlock, first`index
      modifies second`discBlock, second`index
      ensures Valid() && old(completed) <= completed && Untouched(bp) && (still ==> AtRest())
      ensures bp.index < old(completed) ==> current[..] == old(bp.discBlock.data)
    {
      var i := 0;
      while i < WORDS
        invariant 0 <= i <= WORDS && Valid() && old(completed) <= completed && Untouched(bp) && (still ==> AtRest())
        invariant bp.index < old(completed) ==> current[..i] == old(bp.discBlock.data)[..i]
      {
        CopyWord(bp, i, still);
        i := i + 1;
      }
      assert current[..WORDS] == current[..] && old(bp.discBlock.data)[..WORDS] == old(bp.discBlock.data);
    }

    method CopyWord(bp: DiscBuffer, i: nat, still: bool)
      requires Valid() && IsBuffer(bp) && i < WORDS
      modifies this`target, this`progress, this`flawed, this`done, this`completed, current
      modifies first`discBlock, first`index
      modifies second`discBlock, second`index
      ensures Valid() && old(completed) <= completed && Untouched(bp) && (still ==> AtRest())
      ensures current[..] == old(current[..])[i := bp.discBlock.data[i]]
    {
      Interfere(still);
      current[i] := bp.discBlock.data[i];
    }

    /** Header and completion word must be of the same time, and the block without error. */
    method CheckMarks(bp: DiscBuffer, still: bool) returns (good: bool)
      requires Valid() && IsBuffer(bp)
      modifies this`target, this`progress, this`flawed, this`done, this`completed
      modifies first`discBlock, first`index
      modifies second`discBlock, second`index
      ensures Valid() && old(completed) <= completed && Untouched(bp) && (still ==> AtRest())
      ensures bp.index < old(completed) || still ==> good == old(MarksAgree(bp))
    {
      Interfere(still);
      var header := bp.discBlock.header;
      Interfere(still);
      var completion := bp.discBlock.completion;
      if header.msf != completion.msf {
        return false;
      }
      Interfere(still);
      completion := bp.discBlock.completion;
      return !completion.eccError;
    }

    method CopyIfGood(bp: DiscBuffer, still: bool) returns (good: bool)
      requires Valid() && IsBuffer(bp)
      modifies this`target, this`progress, this`flawed, this`done, this`completed, current
      modifies first`discBlock, first`index
      modifies second`discBlock, second`index
      ensures Valid() && old(completed) <= completed && Untouched(bp) && (still ==> AtRest())
      ensures bp.index < old(completed) || still ==> good == old(MarksAgree(bp))
      ensures good && bp.index < old(completed) ==> current[..] == old(bp.discBlock.data)
    {
      good := CheckMarks(bp, still);
      if good {
        CopyOut(bp, still);
      }
    }

    /** The DMA may have caught up: the buffer must still be believed full. */
    method StillFull(bp: DiscBuffer, still: bool) returns (good: bool)
      requires Valid() && intransit != null && Awaited(bp)
      modifies this`target, this`progress, this`flawed, this`done, this`completed
      modifies this`intransit, this`nextTarget, this`acked
      modifies first`discBlock, first`index, first`blockNumber, first`inTransit
      modifies second`discBlock, second`index, second`blockNumber, second`inTransit
      ensures Valid() && intransit != null && Untouched(bp) && old(completed) <= completed
      ensures good ==> acked == old(acked) && bp == Other(intransit) && bp.blockNumber == reqBlock
      ensures still && !old(done) ==> good && AtRest() && nextTarget == old(nextTarget)
    {
      Believed(bp);
      UpdateDMA(still);
      good := bp.blockNumber == reqBlock && !bp.inTransit;
    }

    /** Moreover it must have the right time. */
    method HasTime(bp: DiscBuffer, still: bool) returns (good: bool)
      requires Valid() && Stamped() && intransit != null && bp == Other(intransit) && (acked == 0 ==> start != 0)
      requires bp.blockNumber == reqBlock
      modifies this`target, this`progress, this`flawed, this`done, this`completed
      modifies first`discBlock, first`index
      modifies second`discBlock, second`index
      ensures Valid() && Untouched(bp)
      ensures good ==> bp.index == acked - 1 && bp.discBlock.header.msf == stamp(reqBlock)
      ensures still ==> AtRest() && good == old(bp.discBlock.header.msf == stamp(reqBlock))
    {
      Interfere(still);
      good := bp.discBlock.header.msf == BlockToMSF(reqBlock);
      if good {
        TimeIdentifies(bp);
      }
    }

    method CheckAgain(bp: DiscBuffer, still: bool) returns (good: bool)
      requires Valid() && Stamped() && intransit != null && Awaited(bp)
      modifies this`target, this`progress, this`flawed, this`done, this`completed
      modifies this`intransit, this`nextTarget, this`acked
      modifies first`discBlock, first`index, first`blockNumber, first`inTransit
      modifies second`discBlock, second`index, second`blockNumber, second`inTransit
      ensures Valid() && intransit != null
      ensures good ==> SameContents(bp) && bp.index == old(acked) - 1 && bp.discBlock.header.msf == stamp(reqBlock)
      ensures still && !old(done) ==> good == old(bp.discBlock.header.msf == stamp(reqBlock))
      ensures still && old(InStep()) ==> InStep() && acked == old(acked)
    {
      Believed(bp);
      good := StillFull(bp, still);
      if good {
        good := HasTime(bp, still);
        assert good ==> bp.index < old(completed);
      }
    }

    /** What passes both looks was complete, with the right marks, before the copy and has been copied as it was. */
    method CopyAndCheck(bp: DiscBuffer, still: bool) returns (good: bool)
      requires Valid() && Stamped() && intransit != null && Awaited(bp)
      modifies this`target, this`progress, this`flawed, this`done, this`completed, current
      modifies this`intransit, this`nextTarget, this`acked
      modifies first`discBlock, first`index, first`blockNumber, first`inTransit
      modifies second`discBlock, second`index, second`blockNumber, second`inTransit
      ensures Valid() && intransit != null
      ensures good ==> old(Passes(bp)) && current[..] == old(bp.discBlock.data)
      ensures still && old(!done && MarksAgree(bp) && bp.discBlock.header.msf == stamp(reqBlock)) ==> good
      ensures still && !old(MarksAgree(bp)) ==> !good
      ensures still && old(InStep()) ==> InStep() && acked == old(acked)
    {
      assert acked <= completed;
      good := CopyIfGood(bp, still);
      if good {
        ghost var k, copy := acked - 1, current[..];
        assert bp.index == k ==> SameContents(bp) && old(MarksAgree(bp)) && copy == old(bp.discBlock.data);
        good := CheckAgain(bp, still);
        assert good ==> old(bp.index) == k;
        assert current[..] == copy;
      }
    }

    /** The part of WaitReadBlock after its polling loop. */
    method TakeBlock(bp: DiscBuffer, still: bool) returns (outcome: Outcome)
      requires Valid() && Stamped() && intransit != null && Awaited(bp)
      modifies this`target, this`progress, this`flawed, this`done, this`completed, current
      modifies this`intransit, this`nextTarget, this`acked
      modifies first`discBlock, first`index, first`blockNumber, first`inTransit
      modifies second`discBlock, second`index, second`blockNumber, second`inTransit
      ensures Valid() && intransit != null
      ensures outcome.Got? && old(Settled(reqBlock)) ==> current[..] == disc(reqBlock)
      ensures still && old(Presented()) ==> outcome.Got?
      ensures still && !old(MarksAgree(bp)) ==> outcome.Restart?
      ensures still && old(Past(reqBlock)) ==> Past(reqBlock)
      ensures outcome.Got? ==> current[..] == old(bp.discBlock.data)
    {
      if Settled(reqBlock) && Passes(bp) {
        PassedIsBlock(bp);
      }
      var good := CopyAndCheck(bp, still);
      return if good then Got else Restart;
    }

    /** WaitReadBlock: what it hands over as good is the block that was asked for, whatever the engine did
        meanwhile, if and only if the block is safe: if it is not, a run in which nothing happens ends well and
        hands over something else. In a run that is laid down, pass by pass, the block is handed over from the
        first pass that ends well, after a restart for each pass before it, and given up only if all fail. */
    method WaitReadBlock(still: bool, plans: seq<seq<Moment>>, ghost want: nat) returns (ok: bool)
      requires Valid() && Stamped()
      modifies this`target, this`progress, this`flawed, this`done, this`completed, this`enabled, this`start, current
      modifies this`intransit, this`nextTarget, this`acked, this`seeks
      modifies first, second
      ensures Valid()
      ensures ok && old(Safe(reqBlock)) ==> current[..] == disc(reqBlock)
      ensures still && plans == [] && !old(Safe(reqBlock)) ==> ok && current[..] != disc(reqBlock)
      ensures still && plans == [] && old(Presented()) ==> ok && current[..] == old(Offered())
      ensures still && old(Waiting(want)) ==> AsLaidDown(ok, reqBlock, plans, want, old(seeks))
      ensures seeks <= old(seeks) + READ_RETRIES
    {
      if !Safe(reqBlock) {
        UnsafeIsPresented(reqBlock);
      }
      ghost var end, all := Conclusion(plans, want, READ_RETRIES), seeks + Restarts(plans, want, READ_RETRIES);
      var outcome := TryToRead(still, Head(plans), want);
      if outcome.Restart? {
        outcome := RestartUntilRead(still, Tail(plans), end, all);
      }
      return outcome.Got?;
    }

    /** The passes after the first, as long as there are retries left. */
    method RestartUntilRead(still: bool, plans: seq<seq<Moment>>, ghost end: Ending, ghost all: nat)
      returns (outcome: Outcome)
      requires Valid() && Stamped()
      modifies this`target, this`progress, this`flawed, this`done, this`completed, this`enabled, this`start, current
      modifies this`intransit, this`nextTarget, this`acked, this`seeks
      modifies first, second
      ensures Valid() && seeks <= old(seeks) + READ_RETRIES
      ensures outcome.Got? ==> current[..] == disc(reqBlock)
      ensures still && !end.Later? && old(AfterPass(Restart, plans, READ_RETRIES, end, all)) ==>
                outcome.Got? == end.Well? && seeks == all && (outcome.Got? ==> Past(reqBlock))
    {
      ghost var most := seeks + READ_RETRIES;
      ghost var due := still && !end.Later? && AfterPass(Restart, plans, READ_RETRIES, end, all);
      ghost var left: nat := READ_RETRIES;
      var retries, rest := 0, plans;
      outcome := Restart;
      while outcome.Restart? && retries < READ_RETRIES
        invariant Valid() && retries + left == READ_RETRIES && seeks + left <= most
        invariant outcome.Got? ==> current[..] == disc(reqBlock)
        invariant due ==> AfterPass(outcome, rest, left, end, all)
      {
        outcome := TryAgain(still, Head(rest), rest, left, end, all);
        retries, left, rest := retries + 1, left - 1, Tail(rest);
      }
    }

    /** A pass has handed over the block, or will be followed by those that are left. */
    ghost predicate AfterPass(outcome: Outcome, plans: seq<seq<Moment>>, left: nat, end: Ending, all: nat)
      reads this`intransit, this`start, this`acked, this`done, this`enabled, this`target, this`nextTarget
      reads this`progress, this`completed, this`reqBlock, this`seeks, current
    {
      && reqBlock < DISC_BLOCKS
      && match outcome
         case Got => end.Well? && seeks == all && current[..] == disc(reqBlock) && Past(reqBlock)
         case DriveOpen => false
         case Restart =>
           if left == 0 then end.InVain? && seeks == all
           else end == Conclusion(plans, 1, left - 1) && all == seeks + 1 + Restarts(plans, 1, left - 1)
    }

    /** A new start, and another pass. */
    method TryAgain(still: bool, plan: seq<Moment>, ghost plans: seq<seq<Moment>>, ghost left: nat, ghost end: Ending,
        ghost all: nat)
      returns (outcome: Outcome)
      requires Valid() && Stamped() && plan == Head(plans) && 0 < left
      modifies this`target, this`progress, this`flawed, this`done, this`completed, this`enabled, this`start, current
      modifies this`intransit, this`nextTarget, this`acked, this`seeks
      modifies first, second
      ensures Valid() && seeks == old(seeks) + 1
      ensures outcome.Got? ==> current[..] == disc(reqBlock)
      ensures still && !end.Later? && old(AfterPass(Restart, plans, left, end, all)) ==>
                AfterPass(outcome, Tail(plans), left - 1, end, all)
    {
      var started := StartPlaying(reqBlock, still);
      if !started {
        return DriveOpen;
      }
      outcome := TryToRead(still, plan, 1);
    }

    /** One pass of WaitReadBlock, from its start to success, to a restart or to an open drive. */
    method TryToRead(still: bool, plan: seq<Moment>, ghost want: nat) returns (outcome: Outcome)
      requires Valid() && Stamped()
      modifies this`target, this`progress, this`flawed, this`done, this`completed, current
      modifies this`intransit, this`nextTarget, this`acked
      modifies first, second
      ensures Valid()
      ensures outcome.Got? && old(Safe(reqBlock)) ==> current[..] == disc(reqBlock)
      ensures still && plan == [] && old(Presented()) ==> outcome.Got? && current[..] == old(Offered())
      ensures still && old(Waiting(want)) && End(plan, want, TICKS).Well? ==>
                outcome.Got? && current[..] == disc(reqBlock) && Past(reqBlock)
      ensures still && old(Waiting(want)) && End(plan, want, TICKS).InVain? ==> outcome.Restart?
    {
      if intransit == null {
        return Restart;
      }
      var bp;
      outcome, bp := AwaitBlock(still, plan, want);
      if outcome.Got? {
        outcome := TakeBlock(bp, still);
      }
    }

    /** ReadBlock. If the drive looked open to AsyncReadBlock and no longer does to WaitReadBlock, what is handed over
        as good is the block asked for the last time: it is the right one if and only if the drive did not look
        open or both blocks are alike. */
    method ReadBlock(block: nat, looksOpen: bool, still: bool, plans: seq<seq<Moment>>) returns (ok: bool)
      requires Valid() && Stamped()
      modifies this, first, second, current
      ensures Valid()
      ensures reqBlock == if looksOpen then old(reqBlock) else block
      ensures ok && old(Safe(if looksOpen then reqBlock else block)) ==>
                current[..] == disc(reqBlock)
                && (current[..] == disc(block) <==> !looksOpen || disc(old(reqBlock)) == disc(block))
      ensures still && plans == [] && !old(Safe(if looksOpen then reqBlock else block)) ==>
                ok && current[..] != disc(reqBlock)
      ensures still && plans == [] && looksOpen && old(Presented()) ==> ok
      ensures still && !looksOpen && old(!done && !Buffered(block) && !CloseAhead(block)) && block < DISC_BLOCKS ==>
                AsLaidDown(ok, block, plans, 1, old(seeks) + 1)
      ensures still && !looksOpen && old(InStep() && (Buffered(block) || CloseAhead(block)) && 0 < ToCome(block)) ==>
                AsLaidDown(ok, block, plans, old(ToCome(block)), old(seeks))
      ensures seeks <= old(seeks) + 1 + READ_RETRIES
    {
      AsyncReadBlock(block, looksOpen, still);
      ok := WaitReadBlock(still, plans, ToCome(block));
    }

    /** The next block is read on without a seek, the first of a run with one. */
    method ReadLate(block: nat, polls: nat)
      requires Valid() && Stamped() && block < DISC_BLOCKS
      requires !done && (Buffered(block) || CloseAhead(block) ==> 0 < block && Past(block - 1))
      modifies this, first, second, current
      ensures Valid() && Past(block) && current[..] == disc(block)
      ensures seeks == old(seeks) + if old(Buffered(block) || CloseAhead(block)) then 0 else 1
    {
      var plans := [Late(polls)];
      var ok := ReadBlock(block, false, true, plans);
    }

    lemma PastIsNext(block: nat)
      requires Valid() && Past(block)
      ensures Buffered(block + 1)
    {
    }

    /** If what is laid down comes to an end, the block is handed over, or it is given up, after so many seeks. */
    ghost predicate AsLaidDown(ok: bool, block: nat, plans: seq<seq<Moment>>, want: nat, sought: nat)
      reads this`intransit, this`start, this`acked, this`done, this`enabled, this`target, this`nextTarget
      reads this`progress, this`completed, this`seeks, current
    {
      var end := Conclusion(plans, want, READ_RETRIES);
      end != Later ==>
        && ok == end.Well? && seeks == sought + Restarts(plans, want, READ_RETRIES)
        && (ok ==> current[..] == disc(block) && Past(block))
    }
  }

  /** A fresh reader starts on another block and is asked for block 0 at once: it is handed what the empty buffer
      holds, as good. */
  method ReadZeroAtOnce(userBuffer: array<Word>, disc: nat -> Sector, block: nat) returns (reader: Reader, ok: bool)
    requires userBuffer.Length == WORDS && block != 0 && disc(0) != EMPTY
    modifies userBuffer
    ensures ok && reader.disc == disc && userBuffer[..] != disc(0)
  {
    reader := new Reader(userBuffer, disc, BlockToMSF);
    reader.AsyncReadBlock(block, false, true);
    ok := reader.ReadBlock(0, false, true, []);
  }

  /** A fresh reader has received its first block when a read of another one is started while the drive looks open. It
      no longer does when the block is waited for: the old block is handed over, as good. */
  method ReadOldBlock(userBuffer: array<Word>, disc: nat -> Sector, block: nat, other: nat)
    returns (reader: Reader, ok: bool)
    requires userBuffer.Length == WORDS && 0 < block < DISC_BLOCKS && disc(other) != disc(block)
    modifies userBuffer
    ensures ok && reader.disc == disc && userBuffer[..] == disc(block) != disc(other)
  {
    reader := new Reader(userBuffer, disc, BlockToMSF);
    reader.AsyncReadBlock(block, false, true);
    reader.DeliverFirst();
    reader.AsyncReadBlock(block, false, true);
    ok := reader.ReadBlock(other, true, true, []);
  }

  /** A fresh reader is asked for blocks in order, each of which arrives after any number of polls: the last one, and so
      each of them, is handed over, and the disc was sought once. */
  method ReadInOrder(userBuffer: array<Word>, disc: nat -> Sector, block: nat, last: nat)
    returns (reader: Reader)
    requires userBuffer.Length == WORDS && 0 < block <= last < DISC_BLOCKS
    modifies userBuffer
    ensures reader.disc == disc && userBuffer[..] == disc(last) && reader.seeks == 1
  {
    reader := new Reader(userBuffer, disc, BlockToMSF);
    var polls: nat := *;
    reader.ReadLate(block, polls);
    var latest := block;
    while latest != last
      invariant block <= latest <= last && reader.Valid() && reader.Stamped() && reader.disc == disc
      invariant fresh(reader) && fresh(reader.first) && fresh(reader.second) && reader.current == userBuffer
      invariant reader.seeks == 1 && reader.Past(latest) && userBuffer[..] == disc(latest)
    {
      reader.PastIsNext(latest);
      latest := latest + 1;
      polls := *;
      reader.ReadLate(latest, polls);
    }
  }
}
