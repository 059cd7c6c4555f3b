/**
 The byte-stream reader: a circular buffer over a block device, filled by an asynchronous
 readahead, with direct transfers of whole blocks into the caller's buffer and lazy seeks.
 */
module Congruence {

  lemma {:induction false} AddMultiple(x: int, q: int, m: int)
    requires 0 < m
    ensures (x + q * m) % m == x % m
    decreases if q < 0 then -q else q
  {
    if q > 0 {
      AddMultiple(x, q - 1, m);
      AddOne(x + (q - 1) * m, m);
      assert x + (q - 1) * m + m == x + q * m;
    } else if q < 0 {
      AddMultiple(x, q + 1, m);
      AddOne(x + q * m, m);
      assert x + q * m + m == x + (q + 1) * m;
    }
  }

  lemma AddOne(x: int, m: int)
    requires 0 < m
    ensures (x + m) % m == x % m
  {
    var q, r := x / m, x % m;
    var q', r' := (x + m) / m, (x + m) % m;
    assert x == q * m + r && x + m == q' * m + r';
    assert (q' - q - 1) * m == r - r';
    Multiple(q' - q - 1, r - r', m);
  }

  /** A multiple of m that lies strictly between -m and m is zero. */
  lemma Multiple(k: int, d: int, m: int)
    requires 0 < m && k * m == d && -m < d < m
    ensures k == 0 && d == 0
  {
    Product(k, m);
  }

  lemma Product(k: int, m: int)
    requires 0 < m
    ensures k > 0 ==> k * m >= m
    ensures k < 0 ==> k * m <= -m
  {
  }

  lemma Shift(a: int, b: int, k: int, m: int)
    requires 0 < m && a % m == b % m
    ensures (a + k) % m == (b + k) % m
  {
    var q := a / m - b / m;
    assert a == a / m * m + a % m && b == b / m * m + b % m;
    assert a + k == (b + k) + q * m;
    AddMultiple(b + k, q, m);
  }

  /** Moving on by k grows the offset within a block by at most k. */
  lemma Advance(c: int, k: int, m: int)
    requires 0 < m && 0 <= k
    ensures (c + k) % m <= c % m + k
  {
    var q, r := c / m, c % m;
    assert c == q * m + r;
    AddMultiple(r + k, q, m);
    assert (c + k) % m == (r + k) % m;
    if r + k < m {
      Small(r + k, m);
    }
  }

  lemma Small(r: int, m: int)
    requires 0 <= r < m
    ensures r % m == r && r / m == 0
  {
    var q, s := r / m, r % m;
    assert r == q * m + s;
    Multiple(q, r - s, m);
  }

  /** Rounding down to a multiple: x is one, and less than m more was added. */
  lemma Floor(x: int, r: int, m: int)
    requires 0 < m && x % m == 0 && 0 <= r < m
    ensures (x + r) / m * m == x && (x + r) % m == r
  {
    var q := x / m;
    assert x == q * m;
    AddMultiple(r, q, m);
    Small(r, m);
    var p := (x + r) / m;
    assert x + r == p * m + (x + r) % m;
  }

  /** Two positions in the same block are apart by the difference of their offsets in it. */
  lemma SameBlock(a: int, b: int, m: int)
    requires 0 < m && a / m == b / m
    ensures b - a == b % m - a % m
  {
    assert a == a / m * m + a % m && b == b / m * m + b % m;
  }

  lemma AddWhole(a: int, b: int, m: int)
    requires 0 < m && b % m == 0
    ensures (a + b) % m == a % m
  {
    assert b == b / m * m;
    AddMultiple(a, b / m, m);
  }

  lemma Sum(a: int, b: int, m: int)
    requires 0 < m && a % m == 0 && b % m == 0
    ensures (a + b) % m == 0 && (a - b) % m == 0
  {
    assert b == b / m * m;
    AddMultiple(a, b / m, m);
    AddMultiple(a, -(b / m), m);
    assert a - b == a + -(b / m) * m;
  }
}

module FileStream {
  import opened Congruence

  newtype Byte = x: int | 0 <= x < 256

  datatype SeekOrigin = SeekNot | SeekSet | SeekCur | SeekEnd

  /** Where ReadDiskStream stands: its labels. */
  datatype Label = CheckIoInProgress | EndAction | CheckFinished | FollowOn | Fini

  function Min(a: int, b: int): int { if a <= b then a else b }

  const FILESTREAM_BUFFER_MIN_BLOCKS := 2
  const FILESTREAM_BUFFER_MIN_BYTES := 256

  /** The size the caller's wish asks for: a count of blocks if negative, of bytes if positive. */
  function WantedSize(bSize: int, blockSize: int, blockCount: int): int
    requires 0 < blockSize
  {
    var minBlocks := if blockCount > FILESTREAM_BUFFER_MIN_BLOCKS then FILESTREAM_BUFFER_MIN_BLOCKS else 1;
    if bSize < 0 then
      Min(-bSize, blockCount) * blockSize
    else if bSize == 0 then
      blockSize * minBlocks
    else
      var up := bSize + blockSize - 1;
      var size := up - up % blockSize;
      if size == 0 then blockSize * minBlocks else size
  }

  function BufferSize(bSize: int, blockSize: int, blockCount: int): int
    requires 0 < blockSize
  {
    var size := WantedSize(bSize, blockSize, blockCount);
    if size < FILESTREAM_BUFFER_MIN_BYTES then FILESTREAM_BUFFER_MIN_BYTES else size
  }

  /** The buffer holds the bytes asked for, with less than a block to spare, or the blocks asked for, if the file has as
      many; without a wish two blocks, or one for a file of up to two. It is never below the minimum size. */
  lemma BufferSizeAsked(bSize: int, blockSize: int, blockCount: int)
    requires 0 < blockSize && 0 <= blockCount
    ensures 0 < bSize ==> bSize <= WantedSize(bSize, blockSize, blockCount) < bSize + blockSize
    ensures -blockCount <= bSize < 0 ==> WantedSize(bSize, blockSize, blockCount) == -bSize * blockSize
    ensures bSize < -blockCount ==> WantedSize(bSize, blockSize, blockCount) == blockCount * blockSize
    ensures bSize == 0 && 2 < blockCount ==> WantedSize(bSize, blockSize, blockCount) == blockSize + blockSize
    ensures bSize == 0 && blockCount <= 2 ==> WantedSize(bSize, blockSize, blockCount) == blockSize
    ensures WantedSize(bSize, blockSize, blockCount) <= BufferSize(bSize, blockSize, blockCount)
    ensures FILESTREAM_BUFFER_MIN_BYTES <= BufferSize(bSize, blockSize, blockCount)
    ensures BufferSize(bSize, blockSize, blockCount) == FILESTREAM_BUFFER_MIN_BYTES
            || BufferSize(bSize, blockSize, blockCount) == WantedSize(bSize, blockSize, blockCount)
  {
    BlockOffset(bSize + blockSize - 1, blockSize);
  }

  /** The buffer is a whole number of blocks unless the minimum size, which need not be, was forced on it. */
  lemma BufferSizeAligned(bSize: int, blockSize: int, blockCount: int)
    requires 0 < blockSize && 0 <= blockCount
    ensures BufferSize(bSize, blockSize, blockCount) % blockSize == 0 <==>
              WantedSize(bSize, blockSize, blockCount) >= FILESTREAM_BUFFER_MIN_BYTES ||
              FILESTREAM_BUFFER_MIN_BYTES % blockSize == 0
  {
    AddMultiple(0, Min(-bSize, blockCount), blockSize);
    AddMultiple(0, 1, blockSize);
    AddMultiple(0, FILESTREAM_BUFFER_MIN_BLOCKS, blockSize);
    WholePart(bSize + blockSize - 1, blockSize);
    Small(0, blockSize);
    assert WantedSize(bSize, blockSize, blockCount) % blockSize == 0;
  }

  /** Where a seek leads from position p, or -1. */
  function SeekTarget(p: int, fileLength: int, offset: int, whence: SeekOrigin): int {
    var target := match whence
                  case SeekNot => -1
                  case SeekSet => offset
                  case SeekCur => p + offset
                  case SeekEnd => fileLength - offset;
    if target < 0 || target > fileLength then -1 else target
  }

  /** The destination d is d0 with len bytes of the file, from position i, put in from the index at. */
  ghost predicate Delivered(file: seq<Byte>, d0: seq<Byte>, d: seq<Byte>, at: int, i: int, len: int) {
    && 0 <= i && 0 <= len && i + len <= |file| && 0 <= at && at + len <= |d0| && |d| == |d0|
    && forall k | 0 <= k < |d| :: d[k] == if at <= k < at + len then file[i + k - at] else d0[k]
  }

  /** Two consecutive deliveries are one. */
  lemma DeliveredOn(file: seq<Byte>, d0: seq<Byte>, d1: seq<Byte>, d2: seq<Byte>, at: int, i: int, len: int, more: int)
    requires Delivered(file, d0, d1, at, i, len) && Delivered(file, d1, d2, at + len, i + len, more)
    ensures Delivered(file, d0, d2, at, i, len + more)
  {
  }

  class DiskStream {
    /** The file's blocks on the medium, its block size, and its length in bytes. */
    const file: seq<Byte>
    const blockSize: int
    const fileLength: int
    const buffer: array<Byte>

    var nextBufByte: int
    var bufBytesAvail: int
    var fileOffset: int
    var cursor: int
    var seekTo: int
    var seekOrigin: SeekOrigin
    var ioInProgress: bool
    /** The request in flight: where in the file it reads, where into the buffer, and how much. */
    var ioOffset: int
    var ioFillAt: int
    var ioLength: int

    /** The circular buffer's index for a distance from its start of less than two rounds. */
    function Slot(i: int): int {
      if i < buffer.Length then i else i - buffer.Length
    }

    /** Bytes of the current block in front of the cursor; they stay in the buffer. */
    function Consumed(): int
      requires 0 < blockSize
      reads this
    {
      cursor % blockSize
    }

    /** Where the buffer keeps the byte at position j of the file. */
    function Index(j: int): int
      reads this
    {
      Slot(nextBufByte + (j - cursor))
    }

    ghost predicate Geometry()
    {
      && 0 < blockSize && 0 < buffer.Length && buffer.Length % blockSize == 0
      && |file| % blockSize == 0 && 0 <= fileLength <= |file|
    }

    ghost predicate Pointers()
      reads this
    {
      && Geometry()
      && 0 <= nextBufByte < buffer.Length && 0 <= bufBytesAvail && 0 <= cursor
      && fileOffset == cursor + bufBytesAvail && fileOffset % blockSize == 0 && fileOffset <= |file|
      && nextBufByte % blockSize == Consumed()
      && bufBytesAvail + Consumed() <= buffer.Length
      && Consumed() <= nextBufByte
    }

    /** The buffer holds the file's bytes from the start of the current block to fileOffset. */
    ghost predicate Filled()
      requires Pointers()
      reads this, buffer
    {
      forall j | 0 <= j && cursor - Consumed() <= j < fileOffset :: buffer[Index(j)] == file[j]
    }

    /** The readahead in flight goes on where the buffer ends, and touches nothing the buffer holds. */
    ghost predicate InFlight()
      requires Pointers()
      reads this
    {
      && ioOffset == fileOffset && ioFillAt == Slot(nextBufByte + bufBytesAvail)
      && 0 <= ioLength && ioLength % blockSize == 0
      && ioFillAt + ioLength <= buffer.Length && ioOffset + ioLength <= |file|
      && bufBytesAvail + ioLength + Consumed() <= buffer.Length
    }

    ghost predicate Valid()
      reads this, buffer
    {
      && Pointers() && Filled()
      && (ioInProgress ==> InFlight())
      && (if seekOrigin == SeekNot then cursor <= fileLength else 0 <= seekTo <= fileLength)
    }

    /** The logical position: where the next read takes its bytes from. */
    function Position(): int
      reads this
    {
      if seekOrigin == SeekNot then cursor else seekTo
    }

    // -------------------------------------------------------------- the device

    /** The readahead has completed: its bytes now belong to the buffer. */
    method HandleEndAction()
      requires Valid() && ioInProgress
      modifies this`bufBytesAvail, this`fileOffset, this`ioInProgress, buffer
      ensures Valid() && !ioInProgress && bufBytesAvail == old(bufBytesAvail) + ioLength
    {
      forall j | cursor - Consumed() <= j < fileOffset + ioLength
        ensures if j < fileOffset then 0 <= Index(j) < buffer.Length && !(ioFillAt <= Index(j) < ioFillAt + ioLength)
                else Index(j) == ioFillAt + (j - fileOffset)
      {
        FillPlace(j);
      }
      forall k | 0 <= k < ioLength {
        buffer[ioFillAt + k] := file[ioOffset + k];
      }
      Sum(fileOffset, ioLength, blockSize);
      bufBytesAvail := bufBytesAvail + ioLength;
      fileOffset := fileOffset + ioLength;
      ioInProgress := false;
    }

    /** Where a byte's place is relative to the stretch being filled. */
    lemma FillPlace(j: int)
      requires Pointers() && InFlight() && cursor - Consumed() <= j < fileOffset + ioLength
      ensures if j < fileOffset then 0 <= Index(j) < buffer.Length && !(ioFillAt <= Index(j) < ioFillAt + ioLength)
              else Index(j) == ioFillAt + (j - fileOffset)
    {
    }

    /** The device reports whether the readahead has completed; until it has, any part of it may have arrived. */
    method CheckIo() returns (completed: bool)
      requires Valid() && ioInProgress
      modifies buffer
      ensures Valid()
    {
      completed := *;
      var arrived: seq<Byte> := *;
      if |arrived| == ioLength {
        forall k | 0 <= k < ioLength {
          buffer[ioFillAt + k] := arrived[k];
        }
      }
    }

    // -------------------------------------------------------------- seeking

    /** The pending seek's target is in the buffer. */
    predicate SeekInBuffer()
      requires 0 < blockSize
      reads this
    {
      var seekDelta := seekTo - cursor;
      || 0 <= seekDelta < bufBytesAvail
      || (seekDelta < 0 && seekTo / blockSize == cursor / blockSize)
    }

    method SeekWithinBuffer()
      requires Valid() && seekOrigin != SeekNot && !ioInProgress && SeekInBuffer()
      modifies this`bufBytesAvail, this`cursor, this`nextBufByte, this`seekOrigin
      ensures Valid() && seekOrigin == SeekNot && cursor == seekTo
    {
      var seekDelta := seekTo - cursor;
      Moved(seekDelta);
      bufBytesAvail := bufBytesAvail - seekDelta;
      cursor := cursor + seekDelta;
      nextBufByte := (nextBufByte + seekDelta) % buffer.Length;
      seekOrigin := SeekNot;
    }

    /** Where the cursor may move to within the buffer, and what becomes of the offsets in the block. */
    lemma Moved(delta: int)
      requires Pointers()
      requires
        || 0 <= delta <= bufBytesAvail
        || (delta < 0 <= cursor + delta && (cursor + delta) / blockSize == cursor / blockSize)
      ensures delta < 0 ==> Consumed() + delta == (cursor + delta) % blockSize
      ensures (cursor + delta) % blockSize - delta <= Consumed()
      ensures delta < buffer.Length - nextBufByte ==>
                && (nextBufByte + delta) % buffer.Length == nextBufByte + delta
                && (nextBufByte + delta) % blockSize == (cursor + delta) % blockSize
                && (cursor + delta) % blockSize <= nextBufByte + delta
      ensures delta >= buffer.Length - nextBufByte ==>
                var wrapped := nextBufByte + delta - buffer.Length;
                && (nextBufByte + delta) % buffer.Length == wrapped < buffer.Length
                && wrapped % blockSize == (cursor + delta) % blockSize
                && (cursor + delta) % blockSize <= wrapped
    {
      var wrapped := nextBufByte + delta - buffer.Length;
      assert delta <= bufBytesAvail <= buffer.Length && wrapped < buffer.Length;
      Shift(nextBufByte, cursor, delta, blockSize);
      if delta < 0 {
        SameBlock(cursor + delta, cursor, blockSize);
      } else {
        Advance(cursor, delta, blockSize);
      }
      if delta < buffer.Length - nextBufByte {
        Small(nextBufByte + delta, buffer.Length);
        AtLeastRemainder(nextBufByte + delta, blockSize);
      } else {
        assert 0 <= wrapped;
        Small(wrapped, buffer.Length);
        AddOne(wrapped, buffer.Length);
        AddWhole(wrapped, buffer.Length, blockSize);
        AtLeastRemainder(wrapped, blockSize);
      }
    }

    /** The seek's target is not in the buffer: start over, empty, at the base of its block. */
    method SeekOutsideBuffer()
      requires Valid() && seekOrigin != SeekNot && !ioInProgress
      modifies this`fileOffset, this`cursor, this`bufBytesAvail, this`nextBufByte
      ensures Valid() && cursor == seekTo - seekTo % blockSize && bufBytesAvail == 0
    {
      var seekPoint := seekTo - seekTo % blockSize;
      BaseOfBlock(seekTo);
      fileOffset := seekPoint;
      cursor := seekPoint;
      bufBytesAvail := 0;
      nextBufByte := 0;
    }

    lemma BaseOfBlock(p: int)
      requires Geometry() && 0 <= p <= |file|
      ensures var base := p - p % blockSize;
              && base % blockSize == 0 && 0 <= base <= p
              && (p % blockSize != 0 ==> base + blockSize <= |file|)
    {
      var q := p / blockSize;
      assert p == q * blockSize + p % blockSize;
      AddMultiple(0, q, blockSize);
      Small(0, blockSize);
      assert p - p % blockSize == 0 + q * blockSize;
      AtLeastRemainder(p, blockSize);
      if p % blockSize != 0 {
        Sum(|file|, p - p % blockSize, blockSize);
        var gap := |file| - (p - p % blockSize);
        assert gap > 0;
        if gap < blockSize {
          Small(gap, blockSize);
        }
      }
    }

    // -------------------------------------------------------------- transfers to the caller

    /** Moves past len contiguous buffered bytes. */
    method Skip(len: int)
      requires Valid() && seekOrigin == SeekNot
      requires 0 <= len <= bufBytesAvail && nextBufByte + len <= buffer.Length && cursor + len <= fileLength
      modifies this`nextBufByte, this`bufBytesAvail, this`cursor
      ensures Valid() && cursor == old(cursor) + len && bufBytesAvail == old(bufBytesAvail) - len
      ensures nextBufByte == (if old(nextBufByte) + len == buffer.Length then 0 else old(nextBufByte) + len)
    {
      Moved(len);
      nextBufByte := if nextBufByte + len == buffer.Length then 0 else nextBufByte + len;
      bufBytesAvail := bufBytesAvail - len;
      cursor := cursor + len;
    }

    /** Copies len contiguous buffered bytes to dst[at..] and moves on past them. */
    method CopyOut(dst: array<Byte>, at: int, len: int)
      requires Valid() && seekOrigin == SeekNot && dst != buffer
      requires 0 <= len <= bufBytesAvail && nextBufByte + len <= buffer.Length
      requires 0 <= at && at + len <= dst.Length && cursor + len <= fileLength
      modifies this`nextBufByte, this`bufBytesAvail, this`cursor, dst
      ensures Valid() && cursor == old(cursor) + len && bufBytesAvail == old(bufBytesAvail) - len
      ensures nextBufByte == (if old(nextBufByte) + len == buffer.Length then 0 else old(nextBufByte) + len)
      ensures Delivered(file, old(dst[..]), dst[..], at, old(cursor), len)
    {
      assert forall j | cursor <= j < cursor + len :: buffer[nextBufByte + j - cursor] == file[j] by {
        assert forall j | cursor <= j < cursor + len :: Index(j) == nextBufByte + j - cursor;
      }
      forall k | 0 <= k < len {
        dst[at + k] := buffer[nextBufByte + k];
      }
      assert Delivered(file, old(dst[..]), dst[..], at, cursor, len);
      Skip(len);
    }

    /** Takes the entire remainder of the buffer if it is available and needed. */
    method TakeTail(dst: array<Byte>, at: int, nBytes: int) returns (chew: int)
      requires Valid() && seekOrigin == SeekNot && dst != buffer
      requires 0 < nBytes && 0 <= at && at + nBytes <= dst.Length && cursor + nBytes <= fileLength
      modifies this`nextBufByte, this`bufBytesAvail, this`cursor, dst
      ensures Valid() && 0 <= chew <= nBytes
      ensures cursor == old(cursor) + chew && bufBytesAvail == old(bufBytesAvail) - chew
      ensures nextBufByte + Min(nBytes - chew, bufBytesAvail) < buffer.Length
      ensures Delivered(file, old(dst[..]), dst[..], at, old(cursor), chew)
    {
      chew := buffer.Length - nextBufByte;
      if chew <= nBytes && chew <= bufBytesAvail {
        CopyOut(dst, at, chew);
      } else {
        chew := 0;
      }
    }

    /** Takes what the buffer has, in at most two pieces. */
    method TakeFromBuffer(dst: array<Byte>, at: int, nBytes: int) returns (taken: int)
      requires Valid() && seekOrigin == SeekNot && dst != buffer
      requires 0 < nBytes && 0 <= at && at + nBytes <= dst.Length && cursor + nBytes <= fileLength
      modifies this`nextBufByte, this`bufBytesAvail, this`cursor, dst
      ensures Valid() && taken == Min(nBytes, old(bufBytesAvail))
      ensures cursor == old(cursor) + taken && bufBytesAvail == old(bufBytesAvail) - taken
      ensures Delivered(file, old(dst[..]), dst[..], at, old(cursor), taken)
    {
      taken := TakeTail(dst, at, nBytes);
      var takeNow := if nBytes - taken <= bufBytesAvail then nBytes - taken else bufBytesAvail;
      if takeNow > 0 {
        ghost var d := dst[..];
        CopyOut(dst, at + taken, takeNow);
        DeliveredOn(file, old(dst[..]), d, dst[..], at, old(cursor), taken, takeNow);
        taken := taken + takeNow;
      }
    }

    /** The buffer is empty: whole blocks go straight from the medium to the caller. */
    method SlurpBlocks(dst: array<Byte>, at: int, nBytes: int) returns (taken: int)
      requires Valid() && seekOrigin == SeekNot && dst != buffer && !ioInProgress && bufBytesAvail == 0
      requires 0 <= nBytes && 0 <= at && at + nBytes <= dst.Length && cursor + nBytes <= fileLength
      modifies this`fileOffset, this`cursor, this`nextBufByte, dst
      ensures Valid() && cursor == old(cursor) + taken && bufBytesAvail == 0 && nextBufByte == 0
      ensures 0 <= taken && 0 <= nBytes - taken < blockSize
      ensures Delivered(file, old(dst[..]), dst[..], at, old(cursor), cursor - old(cursor))
    {
      taken := 0;
      nextBufByte := 0;
      Small(0, blockSize);
      while nBytes - taken >= blockSize
        invariant Valid() && 0 <= taken <= nBytes && cursor == old(cursor) + taken
        invariant bufBytesAvail == 0 && nextBufByte == 0
        invariant Delivered(file, old(dst[..]), dst[..], at, old(cursor), cursor - old(cursor))
        decreases nBytes - taken
      {
        var left := nBytes - taken;
        var chew := left - left % blockSize;
        WholeBlocks(left);
        ghost var d := dst[..];
        ReadBlocks(dst, at + taken, chew);
        DeliveredOn(file, old(dst[..]), d, dst[..], at, old(cursor), taken, chew);
        taken := taken + chew;
      }
    }

    /** Whole blocks are read to their destination. */
    method ReadBlocks(dst: array<Byte>, at: int, chew: int)
      requires Valid() && seekOrigin == SeekNot && dst != buffer
      requires !ioInProgress && bufBytesAvail == 0 && nextBufByte == 0
      requires 0 < chew && chew % blockSize == 0 && 0 <= at && at + chew <= dst.Length && cursor + chew <= fileLength
      modifies this`fileOffset, this`cursor, dst
      ensures Valid() && cursor == old(cursor) + chew
      ensures Delivered(file, old(dst[..]), dst[..], at, old(cursor), chew)
    {
      Sum(fileOffset, chew, blockSize);
      forall k | 0 <= k < chew {
        dst[at + k] := file[fileOffset + k];
      }
      fileOffset := fileOffset + chew;
      cursor := cursor + chew;
    }

    lemma WholeBlocks(n: int)
      requires 0 < blockSize <= n
      ensures var chew := n - n % blockSize; chew % blockSize == 0 && 0 < chew <= n
    {
      var q := n / blockSize;
      assert n == q * blockSize + n % blockSize;
      AddMultiple(0, q, blockSize);
      Small(0, blockSize);
      assert n - n % blockSize == 0 + q * blockSize;
    }

    /** Less than a block is wanted: one block is read to the start of the buffer. */
    method FractionOfBlock(dst: array<Byte>, at: int, nBytes: int)
      requires Valid() && seekOrigin == SeekNot && dst != buffer && !ioInProgress
      requires bufBytesAvail == 0 && nextBufByte == 0
      requires 0 < nBytes < blockSize && 0 <= at && at + nBytes <= dst.Length && cursor + nBytes <= fileLength
      modifies this`nextBufByte, this`bufBytesAvail, this`fileOffset, this`cursor, buffer, dst
      ensures Valid() && cursor == old(cursor) + nBytes
      ensures Delivered(file, old(dst[..]), dst[..], at, old(cursor), cursor - old(cursor))
    {
      BlockFits();
      ReadOneBlock(dst, at, nBytes);
      Floor(cursor, nBytes, blockSize);
      AddOne(fileOffset, blockSize);
      Small(nBytes, blockSize);
      fileOffset := fileOffset + blockSize;
      nextBufByte := nBytes;
      bufBytesAvail := blockSize - nBytes;
      cursor := cursor + nBytes;
    }

    method ReadOneBlock(dst: array<Byte>, at: int, nBytes: int)
      requires dst != buffer && 0 <= nBytes < blockSize <= buffer.Length && 0 <= at && at + nBytes <= dst.Length
      requires 0 <= fileOffset && fileOffset + blockSize <= |file|
      modifies buffer, dst
      ensures forall k | 0 <= k < blockSize :: buffer[k] == file[fileOffset + k]
      ensures Delivered(file, old(dst[..]), dst[..], at, fileOffset, nBytes)
    {
      forall k | 0 <= k < blockSize {
        buffer[k] := file[fileOffset + k];
      }
      forall k | 0 <= k < nBytes {
        dst[at + k] := buffer[k];
      }
    }

    /** At an aligned position in front of the end there is a whole block, and the buffer has room for one. */
    lemma BlockFits()
      requires Pointers() && fileOffset < |file|
      ensures blockSize <= buffer.Length && fileOffset + blockSize <= |file|
    {
      Sum(|file|, fileOffset, blockSize);
      if |file| - fileOffset < blockSize {
        Small(|file| - fileOffset, blockSize);
      }
      if buffer.Length < blockSize {
        Small(buffer.Length, blockSize);
      }
    }

    // -------------------------------------------------------------- readahead

    lemma Alignment()
      requires Pointers()
      ensures (bufBytesAvail + Consumed()) % blockSize == 0
      ensures Slot(nextBufByte + bufBytesAvail) % blockSize == 0
    {
      var p := Consumed();
      WholePart(cursor, blockSize);
      WholePart(nextBufByte, blockSize);
      Sum(fileOffset, cursor - p, blockSize);
      assert bufBytesAvail + p == fileOffset - (cursor - p);
      Sum(nextBufByte - p, bufBytesAvail + p, blockSize);
      assert nextBufByte + bufBytesAvail == (nextBufByte - p) + (bufBytesAvail + p);
      Sum(nextBufByte + bufBytesAvail, buffer.Length, blockSize);
    }

    /** The three limits on a readahead, in blocks and in bytes. */
    lemma Limits()
      requires Pointers()
      ensures (buffer.Length - bufBytesAvail) / blockSize * blockSize == buffer.Length - bufBytesAvail - Consumed()
      ensures (|file| / blockSize - fileOffset / blockSize) * blockSize == |file| - fileOffset
      ensures var fillAt := Slot(nextBufByte + bufBytesAvail);
              (buffer.Length - fillAt) / blockSize * blockSize == buffer.Length - fillAt
    {
      var p := Consumed();
      Alignment();
      Sum(buffer.Length, bufBytesAvail + p, blockSize);
      Floor(buffer.Length - (bufBytesAvail + p), p, blockSize);
      Quotients(|file|, fileOffset, blockSize);
      Sum(buffer.Length, Slot(nextBufByte + bufBytesAvail), blockSize);
      Quotients(buffer.Length - Slot(nextBufByte + bufBytesAvail), 0, blockSize);
    }

    /** Fills the free part of the buffer, up to its physical end or the end of the file, with one request. */
    method StartReadahead() returns (atEnd: bool)
      requires Valid() && !ioInProgress
      modifies this`ioInProgress, this`ioOffset, this`ioFillAt, this`ioLength
      ensures Valid()
      ensures bufBytesAvail == 0 ==> if fileOffset < |file| then !atEnd && ioInProgress && blockSize <= ioLength
                                     else atEnd && !ioInProgress
    {
      atEnd := false;
      Limits();
      var toFill := (buffer.Length - bufBytesAvail) / blockSize;
      Product(toFill, blockSize);
      if toFill > 0 {
        var toEOF := |file| / blockSize - fileOffset / blockSize;
        Product(toEOF, blockSize);
        if toEOF <= 0 {
          atEnd := true;
          return;
        }
        if toEOF < toFill {
          toFill := toEOF;
        }
        var fillAt := nextBufByte + bufBytesAvail;
        if fillAt < buffer.Length {
          var toEOB := (buffer.Length - fillAt) / blockSize;
          Product(toEOB, blockSize);
          if toEOB < toFill {
            toFill := toEOB;
          }
        } else {
          fillAt := fillAt - buffer.Length;
        }
        SendRead(toFill, fillAt);
      }
    }

    /** The request for n blocks is sent. */
    method SendRead(n: int, fillAt: int)
      requires Valid() && !ioInProgress && 0 < n && fillAt == Slot(nextBufByte + bufBytesAvail)
      requires n <= (buffer.Length - bufBytesAvail) / blockSize && n <= |file| / blockSize - fileOffset / blockSize
      requires nextBufByte + bufBytesAvail < buffer.Length ==> n <= (buffer.Length - fillAt) / blockSize
      modifies this`ioInProgress, this`ioOffset, this`ioFillAt, this`ioLength
      ensures Valid() && ioInProgress && blockSize <= ioLength
    {
      FillBounds(n, fillAt);
      ioOffset := fileOffset;
      ioFillAt := fillAt;
      ioLength := n * blockSize;
      ioInProgress := true;
    }

    lemma FillBounds(n: int, fillAt: int)
      requires Pointers() && 0 < n && fillAt == Slot(nextBufByte + bufBytesAvail)
      requires n <= (buffer.Length - bufBytesAvail) / blockSize && n <= |file| / blockSize - fileOffset / blockSize
      requires nextBufByte + bufBytesAvail < buffer.Length ==> n <= (buffer.Length - fillAt) / blockSize
      ensures blockSize <= n * blockSize && n * blockSize % blockSize == 0
      ensures bufBytesAvail + n * blockSize + Consumed() <= buffer.Length
      ensures fileOffset + n * blockSize <= |file| && fillAt + n * blockSize <= buffer.Length
    {
      Limits();
      Ordered(n, |file| / blockSize - fileOffset / blockSize, blockSize);
      Ordered(n, (buffer.Length - bufBytesAvail) / blockSize, blockSize);
      if nextBufByte + bufBytesAvail < buffer.Length {
        Ordered(n, (buffer.Length - fillAt) / blockSize, blockSize);
      }
      Product(n, blockSize);
      AddMultiple(0, n, blockSize);
      Small(0, blockSize);
    }

    // -------------------------------------------------------------- reading

    /** How far the pending seek is from being resolved: not pending, in reach of the readahead, or elsewhere. */
    ghost function SeekRank(): nat
      requires 0 < blockSize
      reads this
    {
      if seekOrigin == SeekNot then 0
      else if SeekInBuffer() || (ioInProgress && cursor <= seekTo < fileOffset + ioLength) then 1
      else 2
    }

    ghost function LabelRank(at: Label): nat
      reads this
    {
      match at
      case CheckIoInProgress => 5
      case EndAction => 3
      case CheckFinished => if ioInProgress then 4 else 2
      case FollowOn => 1
      case Fini => 0
    }

    /** The buffer is empty and no readahead runs: the wanted bytes are read from the medium. */
    method ReadThrough(dst: array<Byte>, at: int, nBytes: int)
      requires Valid() && seekOrigin == SeekNot && dst != buffer && !ioInProgress && bufBytesAvail == 0
      requires 0 < nBytes && 0 <= at && at + nBytes <= dst.Length && cursor + nBytes <= fileLength
      modifies this`nextBufByte, this`bufBytesAvail, this`fileOffset, this`cursor, buffer, dst
      ensures Valid() && cursor == old(cursor) + nBytes
      ensures Delivered(file, old(dst[..]), dst[..], at, old(cursor), nBytes)
    {
      var taken := SlurpBlocks(dst, at, nBytes);
      if taken < nBytes {
        ghost var d := dst[..];
        FractionOfBlock(dst, at + taken, nBytes - taken);
        DeliveredOn(file, old(dst[..]), d, dst[..], at, old(cursor), taken, nBytes - taken);
      }
    }

    /** From check_finished on, no seek being pending: moves bytes to dst[before..] from the buffer and, unless a
        readahead is to be awaited first, from the medium.  Returns where to go on. */
    method Transfer(dst: array<Byte>, nBytes: int, before: int) returns (at: Label, left: int, count: int)
      requires Valid() && seekOrigin == SeekNot && dst != buffer
      requires 0 <= before && before + nBytes <= dst.Length
      requires before > 0 ==> 0 < nBytes <= fileLength - cursor
      modifies this`nextBufByte, this`bufBytesAvail, this`fileOffset, this`cursor, buffer, dst
      ensures Valid() && 0 <= count - before && cursor == old(cursor) + (count - before)
      ensures Delivered(file, old(dst[..]), dst[..], before, old(cursor), count - before)
      ensures count + left == before + Min(nBytes, fileLength - old(cursor))
      ensures at == EndAction ==> ioInProgress && 0 < left
      ensures at != EndAction ==> at in {Label.FollowOn, Label.Fini} && left <= 0 && (left < 0 ==> count == 0)
    {
      count := before;
      left := nBytes;
      var toEOF := fileLength - cursor;
      if left > toEOF {
        left := toEOF;
      }
      if left <= 0 {
        return Label.Fini, left, 0;
      }
      var taken := Supply(dst, count, left);
      left, count := left - taken, count + taken;
      at := if left == 0 then Label.FollowOn else Label.EndAction;
    }

    /** Bytes from the buffer and, unless a readahead runs, the rest from the medium. */
    method Supply(dst: array<Byte>, at: int, n: int) returns (taken: int)
      requires Valid() && seekOrigin == SeekNot && dst != buffer
      requires 0 < n <= fileLength - cursor && 0 <= at && at + n <= dst.Length
      modifies this`nextBufByte, this`bufBytesAvail, this`fileOffset, this`cursor, buffer, dst
      ensures Valid() && 0 <= taken <= n && cursor == old(cursor) + taken && (taken < n ==> ioInProgress)
      ensures Delivered(file, old(dst[..]), dst[..], at, old(cursor), taken)
    {
      taken := TakeFromBuffer(dst, at, n);
      if taken < n && !ioInProgress {
        ghost var d := dst[..];
        ReadThrough(dst, at + taken, n - taken);
        DeliveredOn(file, old(dst[..]), d, dst[..], at, old(cursor), taken, n - taken);
        taken := n;
      }
    }

    /** What holds at each label: count bytes from position start are delivered, left are still wanted. */
    ghost predicate At(at: Label, start: int, nBytes: int, left: int, count: int)
      requires Pointers()
      reads this
    {
      && 0 <= count && Position() == start + count <= fileLength
      && (seekOrigin != SeekNot ==> count == 0)
      && (count + left == nBytes || count + left == fileLength - start <= nBytes)
      && (left < 0 ==> count == 0)
      && (0 < count && at != FollowOn && at != Fini ==> 0 < left <= fileLength - (start + count))
      && (at == EndAction ==> ioInProgress)
      && (at == CheckFinished && seekOrigin != SeekNot ==> !ioInProgress)
      && (at == FollowOn && seekOrigin != SeekNot ==>
            !ioInProgress && bufBytesAvail == 0 && cursor <= seekTo < cursor + blockSize)
      && (at == Fini || (at == FollowOn && seekOrigin == SeekNot) ==> left <= 0 || start + count == fileLength)
    }

    /** check_io_in_progress: a pending seek waits for the readahead; otherwise it is only looked at. */
    method Poll(ghost start: int, ghost wanted: int, left: int, count: int) returns (at: Label)
      requires Valid() && At(CheckIoInProgress, start, wanted, left, count)
      modifies buffer
      ensures Valid() && At(at, start, wanted, left, count)
      ensures SeekRank() == old(SeekRank()) && LabelRank(at) < LabelRank(CheckIoInProgress)
    {
      if !ioInProgress {
        return Label.CheckFinished;
      }
      if seekOrigin != SeekNot {
        return Label.EndAction;
      }
      var completed := CheckIo();
      at := if completed then Label.EndAction else Label.CheckFinished;
    }

    /** handle_endaction */
    method Arrive(ghost start: int, ghost wanted: int, left: int, count: int)
      requires Valid() && At(EndAction, start, wanted, left, count)
      modifies this`bufBytesAvail, this`fileOffset, this`ioInProgress, buffer
      ensures Valid() && At(CheckFinished, start, wanted, left, count)
      ensures SeekRank() <= old(SeekRank()) && LabelRank(CheckFinished) < old(LabelRank(EndAction))
    {
      HandleEndAction();
    }

    /** check_finished, a seek being pending: resolves it in the buffer, or starts over at its block. */
    method ResolveSeek(ghost start: int, ghost wanted: int, left: int) returns (resolved: bool)
      requires Valid() && seekOrigin != SeekNot && At(CheckFinished, start, wanted, left, 0)
      modifies this`nextBufByte, this`bufBytesAvail, this`fileOffset, this`cursor, this`seekOrigin
      ensures Valid() && resolved == (seekOrigin == SeekNot)
      ensures At(if resolved then CheckFinished else FollowOn, start, wanted, left, 0)
      ensures SeekRank() <= old(SeekRank()) && (resolved ==> SeekRank() < old(SeekRank()))
    {
      resolved := SeekInBuffer();
      if resolved {
        SeekWithinBuffer();
      } else {
        BlockOffset(seekTo, blockSize);
        SeekOutsideBuffer();
      }
    }

    /** check_finished: a pending seek first, then the bytes. */
    method AfterCheck(dst: array<Byte>, nBytes: int, before: int, ghost start: int, ghost wanted: int)
      returns (at: Label, left: int, count: int)
      requires Valid() && dst != buffer && before + nBytes <= dst.Length
      requires At(CheckFinished, start, wanted, nBytes, before)
      modifies this`nextBufByte, this`bufBytesAvail, this`fileOffset, this`cursor, this`seekOrigin, buffer, dst
      ensures Valid() && At(at, start, wanted, left, count) && count + left <= dst.Length
      ensures Delivered(file, old(dst[..]), dst[..], before, start + before, count - before)
      ensures SeekRank() <= old(SeekRank()) && LabelRank(at) < old(LabelRank(CheckFinished))
    {
      if seekOrigin != SeekNot {
        var resolved := ResolveSeek(start, wanted, nBytes);
        if !resolved {
          return Label.FollowOn, nBytes, before;
        }
      }
      at, left, count := Deliver(dst, nBytes, before, start, wanted);
    }

    /** What it delivers joins on to what was delivered before. */
    method GoOnAfterCheck(dst: array<Byte>, nBytes: int, before: int, ghost start: int, ghost wanted: int,
                          ghost d0: seq<Byte>)
      returns (at: Label, left: int, count: int)
      requires Valid() && dst != buffer && before + nBytes <= dst.Length
      requires At(CheckFinished, start, wanted, nBytes, before) && Delivered(file, d0, dst[..], 0, start, before)
      modifies this`nextBufByte, this`bufBytesAvail, this`fileOffset, this`cursor, this`seekOrigin, buffer, dst
      ensures Valid() && At(at, start, wanted, left, count) && count + left <= dst.Length
      ensures Delivered(file, d0, dst[..], 0, start, count)
      ensures SeekRank() <= old(SeekRank()) && LabelRank(at) < old(LabelRank(CheckFinished))
    {
      ghost var d := dst[..];
      at, left, count := AfterCheck(dst, nBytes, before, start, wanted);
      DeliveredOn(file, d0, d, dst[..], 0, start, before, count - before);
    }

    method Deliver(dst: array<Byte>, nBytes: int, before: int, ghost start: int, ghost wanted: int)
      returns (at: Label, left: int, count: int)
      requires Valid() && seekOrigin == SeekNot && dst != buffer && before + nBytes <= dst.Length
      requires At(CheckFinished, start, wanted, nBytes, before)
      modifies this`nextBufByte, this`bufBytesAvail, this`fileOffset, this`cursor, buffer, dst
      ensures Valid() && At(at, start, wanted, left, count) && count + left <= dst.Length
      ensures Delivered(file, old(dst[..]), dst[..], before, start + before, count - before)
      ensures LabelRank(at) < LabelRank(CheckFinished)
    {
      at, left, count := Transfer(dst, nBytes, before);
    }

    /** followon: tops the buffer up, and goes back if a seek is still to be resolved. */
    method TopUp(ghost start: int, ghost wanted: int, left: int, count: int) returns (at: Label)
      requires Valid() && At(FollowOn, start, wanted, left, count)
      modifies this`ioInProgress, this`ioOffset, this`ioFillAt, this`ioLength
      ensures Valid() && At(at, start, wanted, left, count)
      ensures at == Fini || (at == CheckIoInProgress && SeekRank() < old(SeekRank()))
      ensures at == Fini ==> SeekRank() <= old(SeekRank())
    {
      var atEnd := false;
      if !ioInProgress {
        atEnd := StartReadahead();
      }
      at := if !atEnd && seekOrigin != SeekNot && left > 0 then Label.CheckIoInProgress else Label.Fini;
    }

    /** Reads up to nBytes bytes into dst, and returns how many it read. */
    method ReadDiskStream(dst: array<Byte>, nBytes: int) returns (count: int)
      requires Valid() && dst != buffer && nBytes <= dst.Length
      modifies this, buffer, dst
      ensures Valid()
      ensures var n := Min(nBytes, fileLength - old(Position()));
              && count == (if n < 0 then 0 else n)
              && Position() == old(Position()) + count
              && Delivered(file, old(dst[..]), dst[..], 0, old(Position()), count)
    {
      ghost var start, d0 := Position(), dst[..];
      var left := nBytes;
      count := 0;
      var at := CheckIoInProgress;
      while at != Fini
        invariant Valid() && At(at, start, nBytes, left, count) && count + left <= dst.Length
        invariant Delivered(file, d0, dst[..], 0, start, count)
        decreases SeekRank(), LabelRank(at)
      {
        match at
        case CheckIoInProgress => at := Poll(start, nBytes, left, count);
        case EndAction =>
          Arrive(start, nBytes, left, count);
          at := CheckFinished;
        case CheckFinished =>
          at, left, count := GoOnAfterCheck(dst, left, count, start, nBytes, d0);
        case FollowOn => at := TopUp(start, nBytes, left, count);
        case Fini =>
      }
    }

    // -------------------------------------------------------------- opening and seeking

    /** OpenDiskStream: the first read, filling the buffer or reading the whole file, is already under way. */
    constructor Open(file: seq<Byte>, blockSize: int, fileLength: int, bSize: int)
      requires 0 < blockSize && |file| % blockSize == 0 && 0 <= fileLength <= |file|
      requires BufferSize(bSize, blockSize, |file| / blockSize) % blockSize == 0
      ensures Valid() && Position() == 0 && fresh(buffer)
      ensures this.file == file && this.fileLength == fileLength
      ensures buffer.Length == BufferSize(bSize, blockSize, |file| / blockSize)
      ensures ioInProgress && ioOffset == ioFillAt == 0 && ioLength == Min(buffer.Length, |file|)
    {
      this.file, this.blockSize, this.fileLength := file, blockSize, fileLength;
      var size := BufferSize(bSize, blockSize, |file| / blockSize);
      buffer := new Byte[size];
      nextBufByte, bufBytesAvail, fileOffset, cursor := 0, 0, 0, 0;
      seekOrigin, seekTo := SeekNot, 0;
      ioInProgress, ioOffset, ioFillAt, ioLength := true, 0, 0, if size > |file| then |file| else size;
      new;
      Small(0, blockSize);
    }

    /** Only notes where to go: the next read resolves it. */
    method SeekDiskStream(offset: int, whence: SeekOrigin) returns (result: int)
      requires Valid()
      modifies this`seekOrigin, this`seekTo
      ensures Valid()
      ensures result == SeekTarget(old(Position()), fileLength, offset, whence)
      ensures Position() == if result == -1 then old(Position()) else result
      ensures whence == SeekSet && 0 <= offset <= fileLength ==> Position() == offset
      ensures whence == SeekCur && 0 <= old(Position()) + offset <= fileLength ==>
                Position() - old(Position()) == offset
      ensures whence == SeekEnd && 0 <= offset <= fileLength ==> Position() + offset == fileLength
    {
      var target := offset;
      match whence {
        case SeekCur =>
          if seekOrigin == SeekNot {
            target := offset + cursor;
          } else {
            target := offset + seekTo;
          }
        case SeekEnd => target := fileLength - offset;
        case SeekSet =>
        case SeekNot => return -1;
      }
      if target < 0 || target > fileLength {
        return -1;
      }
      seekOrigin := whence;
      seekTo := target;
      return target;
    }
  }

  // ---------------------------------------------------------------- whole sessions

  datatype Operation = Read(nBytes: int) | Seek(offset: int, whence: SeekOrigin)
  datatype Reply = Bytes(bytes: seq<Byte>) | At(position: int)

  /** A plain positional reader over the file's bytes. */
  function PlainReply(file: seq<Byte>, fileLength: int, p: int, op: Operation): Reply
    requires 0 <= p <= fileLength <= |file|
  {
    match op
    case Read(n) => Bytes(if n <= 0 then [] else file[p..p + Min(n, fileLength - p)])
    case Seek(offset, whence) => At(SeekTarget(p, fileLength, offset, whence))
  }

  function PlainPosition(file: seq<Byte>, fileLength: int, p: int, op: Operation): (q: int)
    requires 0 <= p <= fileLength <= |file|
    ensures 0 <= q <= fileLength
  {
    match PlainReply(file, fileLength, p, op)
    case Bytes(b) => p + |b|
    case At(q) => if q == -1 then p else q
  }

  function PlainSession(file: seq<Byte>, fileLength: int, p: int, ops: seq<Operation>): seq<Reply>
    requires 0 <= p <= fileLength <= |file|
    decreases ops
  {
    if ops == [] then []
    else
      [PlainReply(file, fileLength, p, ops[0])] +
      PlainSession(file, fileLength, PlainPosition(file, fileLength, p, ops[0]), ops[1..])
  }

  /** Seeks lead where their names say: a read that follows begins at the start, so far from the end, or so far on; and
      nowhere outside the file. */
  lemma SeekThenRead(file: seq<Byte>, fileLength: int, p: int, op: Operation, q: int, n: int, r: int)
    requires 0 <= p <= fileLength <= |file| && 0 <= n && 0 <= q <= r == q + n <= fileLength
    requires op == Seek(q, SeekSet) || op == Seek(fileLength - q, SeekEnd) || op == Seek(q - p, SeekCur)
    ensures PlainSession(file, fileLength, p, [op, Read(n)]) == [At(q), Bytes(file[q..r])]
  {
    var ops := [op, Read(n)];
    assert ops[1..] == [Read(n)] && ops[1..][1..] == [];
    assert PlainReply(file, fileLength, q, Read(n)) == Bytes(file[q..r]);
    assert PlainSession(file, fileLength, q, ops[1..]) == [Bytes(file[q..r])] + PlainSession(file, fileLength, r, []);
  }

  method Perform(s: DiskStream, op: Operation) returns (reply: Reply)
    requires s.Valid()
    modifies s, s.buffer
    ensures s.Valid()
    ensures reply == PlainReply(s.file, s.fileLength, old(s.Position()), op)
    ensures s.Position() == PlainPosition(s.file, s.fileLength, old(s.Position()), op)
  {
    ghost var p := s.Position();
    match op
    case Read(n) =>
      var dst := new Byte[if n < 0 then 0 else n];
      var count := s.ReadDiskStream(dst, n);
      assert dst[..count] == s.file[p..p + count];
      return Bytes(dst[..count]);
    case Seek(offset, whence) =>
      var result := s.SeekDiskStream(offset, whence);
      return At(result);
  }

  /** Any sequence of reads and seeks, whatever the timing of the readahead, gets the plain reader's replies. */
  method Session(s: DiskStream, ops: seq<Operation>) returns (replies: seq<Reply>)
    requires s.Valid()
    modifies s, s.buffer
    ensures s.Valid()
    ensures replies == PlainSession(s.file, s.fileLength, old(s.Position()), ops)
    decreases ops
  {
    if ops == [] {
      return [];
    }
    var reply := Perform(s, ops[0]);
    var rest := Session(s, ops[1..]);
    return [reply] + rest;
  }

  lemma BlockOffset(p: int, m: int)
    requires 0 < m
    ensures 0 <= p % m < m
  {
  }

  lemma WholePart(x: int, m: int)
    requires 0 < m
    ensures (x - x % m) % m == 0
  {
    assert x - x % m == 0 + x / m * m;
    AddMultiple(0, x / m, m);
    Small(0, m);
  }

  lemma Quotients(a: int, b: int, m: int)
    requires 0 < m && a % m == 0 && b % m == 0
    ensures (a / m - b / m) * m == a - b
    ensures a / m * m == a
  {
  }

  lemma Ordered(i: int, j: int, m: int)
    requires 0 < m && i <= j
    ensures i * m <= j * m
  {
  }

  lemma AtLeastRemainder(x: int, m: int)
    requires 0 < m && 0 <= x
    ensures x % m <= x
  {
    if x < m {
      Small(x, m);
    }
  }
}
