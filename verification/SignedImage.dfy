/**
 Reading a signed image: everything but the last bytes is digested, and copied if it is wanted, block by
 block; the last bytes are the signature, wherever the blocks end.
 */
module SignedImage {
  import opened Common

  type byte = x: int | 0 <= x < 0x100

  const SIG_LEN := 64
  /** PHYS_BS on a CD, LOGICAL_BS for FMV, and LOGICAL_BS in depot space. */
  const PHYS_BS := 2048
  const DEPOT_BS := 128

  /** A read failed and the reader gave up; or it came to an end, and whether all its reads had been good. */
  datatype Outcome = GaveUp | Finished(allRead: bool)

  /** The n bytes of a medium from an address on. */
  function Range(medium: nat -> byte, from: nat, n: nat): (r: seq<byte>)
    ensures |r| == n && forall i | 0 <= i < n :: r[i] == medium(from + i)
  {
    seq(n, i requires 0 <= i < n => medium(from + i))
  }

  lemma Joined(medium: nat -> byte, from: nat, n: nat, m: nat)
    ensures Range(medium, from, n) + Range(medium, from + n, m) == Range(medium, from, n + m)
  {
    var a, b := Range(medium, from, n), Range(medium, from + n, m);
    forall i | 0 <= i < n + m ensures (a + b)[i] == medium(from + i) {
      if i >= n {
        assert b[i - n] == medium((from + n) + (i - n));
      }
    }
  }

  class Dipir {
    const databuff1: array<byte>
    const databuff2: array<byte>
    const medium: nat -> byte
    /** A read that takes in one of these bytes fails. A reader reads no byte twice, so any reads may fail. */
    const bad: set<nat>
    var currentBuff: array<byte>
    var nextBuff: array<byte>
    /** The address that an asynchronous read into `target` was started from and not waited for. */
    var pending: Option<nat>
    var target: array<byte>
    /** All that was fed to the digest. */
    var digest: seq<byte>

    ghost predicate Valid()
      reads this
    {
      && databuff1 != databuff2 && databuff1.Length == databuff2.Length == PHYS_BS
      && ((currentBuff == databuff1 && nextBuff == databuff2) || (currentBuff == databuff2 && nextBuff == databuff1))
    }

    /** The buffer may be looked at: nothing is on its way into it. */
    ghost predicate Settled(buff: array<byte>)
      reads this
    {
      pending.Some? ==> buff != target
    }

    predicate Readable(from: nat, n: nat) {
      forall i | from <= i < from + n :: i !in bad
    }

    constructor (m: nat -> byte, b: set<nat>)
      ensures Valid() && pending == None && digest == [] && fresh(databuff1) && fresh(databuff2)
      ensures medium == m && bad == b
    {
      var one := new byte[PHYS_BS](_ => 0);
      var two := new byte[PHYS_BS](_ => 0);
      databuff1, databuff2, currentBuff, nextBuff, target := one, two, one, two, one;
      medium, bad, pending, digest := m, b, None, [];
    }

    /** What a device may do to a buffer that it is about to fill. */
    method Scribble(buff: array<byte>)
      modifies buff
    {
      for i := 0 to buff.Length {
        buff[i] := *;
      }
    }

    method Fill(buff: array<byte>, from: nat, n: nat)
      requires n <= buff.Length
      modifies buff
      ensures buff[..n] == Range(medium, from, n)
    {
      for i := 0 to n
        invariant forall k | 0 <= k < i :: buff[k] == medium(from + k)
      {
        buff[i] := medium(from + i);
      }
    }

    /** READ and READBLOCK, into the current buffer. */
    method Read(from: nat, n: nat) returns (ok: bool)
      requires pending == None && n <= currentBuff.Length
      modifies currentBuff
      ensures ok == Readable(from, n)
      ensures ok ==> currentBuff[..n] == Range(medium, from, n)
    {
      Scribble(currentBuff);
      ok := Readable(from, n);
      if ok {
        Fill(currentBuff, from, n);
      }
    }

    /** ASYNCREADBLOCK: from now on the current buffer may hold anything. */
    method AsyncReadBlock(from: nat)
      requires Valid() && pending == None
      modifies this`pending, this`target, currentBuff
      ensures Valid() && pending == Some(from) && target == currentBuff
    {
      pending, target := Some(from), currentBuff;
      Scribble(currentBuff);
    }

    /** WAIT */
    method Wait() returns (ok: bool)
      requires Valid() && pending.Some? && target == currentBuff
      modifies this`pending, currentBuff
      ensures Valid() && pending == None
      ensures ok == Readable(old(pending).value, PHYS_BS)
      ensures ok ==> currentBuff[..PHYS_BS] == Range(medium, old(pending).value, PHYS_BS)
    {
      ok := Readable(pending.value, PHYS_BS);
      if ok {
        Fill(currentBuff, pending.value, PHYS_BS);
      } else {
        Scribble(currentBuff);
      }
      pending := None;
    }

    method DoubleBuffer()
      requires databuff1 != databuff2 && databuff1.Length == databuff2.Length == PHYS_BS
      modifies this`currentBuff, this`nextBuff
      ensures Valid() && currentBuff == databuff1
    {
      currentBuff, nextBuff := databuff1, databuff2;
    }

    method SwitchBuffers()
      requires Valid()
      modifies this`currentBuff, this`nextBuff
      ensures Valid() && currentBuff == old(nextBuff) && nextBuff == old(currentBuff)
    {
      currentBuff, nextBuff := nextBuff, currentBuff;
    }

    method UpdateDigest(buff: array<byte>, n: nat)
      requires n <= buff.Length && Settled(buff)
      modifies this`digest
      ensures digest == old(digest) + buff[..n]
    {
      digest := digest + buff[..n];
    }

    /** MEM_MOVE between buffers that do not overlap. */
    method MemMove(dst: array<byte>, at: nat, src: array<byte>, from: nat, n: nat)
      requires dst != src && at + n <= dst.Length && from + n <= src.Length && Settled(src)
      modifies dst
      ensures dst[at..at + n] == src[from..from + n]
      ensures forall i | 0 <= i < dst.Length && !(at <= i < at + n) :: dst[i] == old(dst[i])
    {
      for i := 0 to n
        invariant forall k | at <= k < at + i :: dst[k] == src[from + (k - at)]
        invariant forall k | 0 <= k < dst.Length && !(at <= k < at + i) :: dst[k] == old(dst[k])
      {
        dst[at + i] := src[from + i];
      }
    }

    // ---------------------------------------------------------------- the last block, and the signature

    /** Reads the last block with data in it, digests the data, and copies them if they are wanted. */
    method TakeLastData(dst: array<byte>, pos: nat, at: nat, size: nat, bs: nat, doload: bool) returns (ok: bool)
      requires Valid() && pending == None && size <= bs <= PHYS_BS
      requires dst != databuff1 && dst != databuff2 && (doload ==> pos + size <= dst.Length)
      modifies this`digest, this`currentBuff, databuff1, dst
      ensures currentBuff == databuff1 && ok == Readable(at, bs)
      ensures ok ==>
                && databuff1[..bs] == Range(medium, at, bs)
                && digest == old(digest) + Range(medium, at, size)
                && (doload ==> dst[pos..pos + size] == Range(medium, at, size))
      ensures forall i | 0 <= i < dst.Length && !(doload && pos <= i < pos + size) :: dst[i] == old(dst[i])
    {
      currentBuff := databuff1;
      ok := Read(at, bs);
      ghost var block := databuff1[..];
      UpdateDigest(databuff1, size);
      if doload {
        MemMove(dst, pos, databuff1, 0, size);
      }
      if ok {
        assert databuff1[..] == block;
        Slice(medium, at, bs, 0, size);
        assert block[..size] == block[..bs][0..size];
        assert block[0..size] == block[..size];
      }
    }

    /** Puts the signature together, which may go on in the block after the last one with data. */
    method TakeSignature(at: nat, bytes: nat, bs: nat) returns (ok: bool)
      requires pending == None && currentBuff == databuff1 && databuff1 != databuff2
      requires databuff1.Length == databuff2.Length == PHYS_BS
      requires SIG_LEN <= bs <= PHYS_BS && SIG_LEN <= bytes < bs + SIG_LEN
      modifies databuff1, databuff2
      ensures ok == (bytes <= bs || Readable(at + bs, bytes - bs))
      ensures ok && old(databuff1[..bs]) == Range(medium, at, bs) ==>
                databuff2[..SIG_LEN] == Range(medium, at + bytes - SIG_LEN, SIG_LEN)
    {
      ghost var block := databuff1[..];
      ghost var first := bytes - SIG_LEN;
      if bytes <= bs {
        MemMove(databuff2, 0, databuff1, bytes - SIG_LEN, SIG_LEN);
        ok := true;
        SignatureInBlock(block, bs, at, first, databuff2[..SIG_LEN]);
      } else {
        var straddle := bytes - bs;
        var here := SIG_LEN - straddle;
        MemMove(databuff2, 0, databuff1, bytes - SIG_LEN, here);
        ghost var part := databuff2[..here];
        assert part == block[first..bs];
        ok := Read(at + bs, straddle);
        ghost var rest := databuff1[..straddle];
        MemMove(databuff2, here, databuff1, 0, straddle);
        assert databuff2[..here] == part;
        assert databuff2[here..SIG_LEN] == rest;
        assert databuff2[..SIG_LEN] == part + rest;
        if ok && block[..bs] == Range(medium, at, bs) {
          Straddles(block[..bs], bs, at, first, part, rest);
        }
      }
    }

    lemma SignatureInBlock(block: seq<byte>, bs: nat, at: nat, first: nat, signature: seq<byte>)
      requires bs <= |block| && first + SIG_LEN <= bs && signature == block[first..first + SIG_LEN]
      ensures block[..bs] == Range(medium, at, bs) ==> signature == Range(medium, at + first, SIG_LEN)
    {
      if block[..bs] == Range(medium, at, bs) {
        Slice(medium, at, bs, first, SIG_LEN);
        assert block[..bs][first..first + SIG_LEN] == signature;
      }
    }

    lemma Straddles(block: seq<byte>, bs: nat, at: nat, first: nat, part: seq<byte>, rest: seq<byte>)
      requires block == Range(medium, at, bs) && first <= bs && part == block[first..bs]
      requires |rest| == SIG_LEN - (bs - first) && rest == Range(medium, at + bs, |rest|)
      ensures part + rest == Range(medium, at + first, SIG_LEN)
    {
      Slice(medium, at, bs, first, bs - first);
      Joined(medium, at + first, bs - first, |rest|);
    }

    /** Where a tail read badly leads. */
    static function Failed(checked: bool): Outcome { if checked then GaveUp else Finished(false) }

    /** Of the tail the last block with data is read, and what there is of the signature behind it. */
    predicate TailReadable(at: nat, bytes: nat, bs: nat) {
      Readable(at, if bytes <= bs then bs else bytes)
    }

    /** The end of all three readers. The CD reader does not look at the results of these reads, the others do. */
    method TakeTail(dst: array<byte>, pos: nat, at: nat, bytes: nat, bs: nat, doload: bool, checked: bool)
      returns (outcome: Outcome)
      requires Valid() && pending == None && SIG_LEN <= bs <= PHYS_BS && SIG_LEN <= bytes < bs + SIG_LEN
      requires dst != databuff1 && dst != databuff2 && (doload ==> pos + bytes - SIG_LEN <= dst.Length)
      modifies this`digest, this`currentBuff, databuff1, databuff2, dst
      ensures outcome == Finished(true) ==>
                && digest == old(digest) + Range(medium, at, bytes - SIG_LEN)
                && databuff2[..SIG_LEN] == Range(medium, at + bytes - SIG_LEN, SIG_LEN)
                && (doload ==> dst[pos..pos + bytes - SIG_LEN] == Range(medium, at, bytes - SIG_LEN))
      ensures outcome == if TailReadable(at, bytes, bs) then Finished(true) else Failed(checked)
      ensures forall i | 0 <= i < dst.Length && !(doload && pos <= i < pos + bytes - SIG_LEN) :: dst[i] == old(dst[i])
    {
      var ok := TakeLastData(dst, pos, at, bytes - SIG_LEN, bs, doload);
      if checked && !ok {
        return GaveUp;
      }
      ghost var copied := dst[..];
      var ok2 := TakeSignature(at, bytes, bs);
      assert dst[..] == copied;
      outcome := if checked && !ok2 then GaveUp else Finished(ok && ok2);
    }

    // ---------------------------------------------------------------- the three readers

    /** What is left of an image when its whole blocks have been read. */
    static function Tail(size: nat, bs: nat): (bytes: nat)
      requires 0 < bs
      ensures bytes <= size && (SIG_LEN <= size ==> SIG_LEN <= bytes < bs + SIG_LEN)
    {
      if size < bs + SIG_LEN then size else Tail(size - bs, bs)
    }

    /** All that a reader with blocks of this size reads. */
    predicate AllReadable(at: nat, size: nat, bs: nat)
      requires 0 < bs
    {
      var whole := size - Tail(size, bs);
      Readable(at, whole) && TailReadable(at + whole, size - whole, bs)
    }

    /** What a reader that has read everything has done with an image: its data digested, and copied if wanted, and
        its last bytes put up as the signature. */
    ghost predicate Taken(dst: array<byte>, at: nat, bytes: nat, doload: bool)
      requires SIG_LEN <= bytes && databuff2.Length == PHYS_BS && (doload ==> bytes - SIG_LEN <= dst.Length)
      reads this`digest, databuff2, dst
    {
      && digest == Range(medium, at, bytes - SIG_LEN)
      && databuff2[..SIG_LEN] == Range(medium, at + bytes - SIG_LEN, SIG_LEN)
      && (doload ==> dst[..bytes - SIG_LEN] == Range(medium, at, bytes - SIG_LEN))
    }

    /** One block is digested, and copied if it is wanted, behind what was taken before it. */
    method TakeBlock(buff: array<byte>, dst: array<byte>, pos: nat, bs: nat, doload: bool, ghost at: nat)
      requires dst != buff && bs <= buff.Length && Settled(buff) && (doload ==> pos + bs <= dst.Length)
      requires buff[..bs] == Range(medium, at + pos, bs)
      requires digest == Range(medium, at, pos) && (doload ==> dst[..pos] == Range(medium, at, pos))
      modifies this`digest, dst
      ensures digest == Range(medium, at, pos + bs) && (doload ==> dst[..pos + bs] == Range(medium, at, pos + bs))
      ensures forall i | 0 <= i < dst.Length && !(doload && i < pos + bs) :: dst[i] == old(dst[i])
    {
      ghost var front := if doload then dst[..pos] else [];
      Joined(medium, at, pos, bs);
      UpdateDigest(buff, bs);
      if doload {
        MemMove(dst, pos, buff, 0, bs);
        assert dst[..pos] == front;
        assert dst[..pos + bs] == front + dst[pos..pos + bs];
      }
    }

    /** ReadOsComponent of cdromdipir.c: while one block is digested, the next is on its way. */
    method ReadOsComponentCd(dst: array<byte>, startblock: nat, size: nat, doload: bool) returns (outcome: Outcome)
      requires databuff1 != databuff2 && databuff1.Length == databuff2.Length == PHYS_BS && pending == None
      requires PHYS_BS + SIG_LEN <= size
      requires dst != databuff1 && dst != databuff2 && (doload ==> size - SIG_LEN <= dst.Length)
      modifies this`currentBuff, this`nextBuff, this`pending, this`target, this`digest, databuff1, databuff2, dst
      ensures outcome == Finished(true) ==> Taken(dst, PHYS_BS * startblock, size, doload)
      ensures outcome == Finished(true) <==> AllReadable(PHYS_BS * startblock, size, PHYS_BS)
      ensures outcome == GaveUp <==> !Readable(PHYS_BS * startblock, size - Tail(size, PHYS_BS))
      ensures forall i | 0 <= i < dst.Length && !(doload && i < size - SIG_LEN) :: dst[i] == old(dst[i])
    {
      ghost var at := PHYS_BS * startblock;
      var bytes, block, pos := size, startblock, 0;
      var blocks := (bytes - SIG_LEN) / PHYS_BS;
      DoubleBuffer();
      AsyncReadBlock(PHYS_BS * block);
      block, blocks, bytes := block + 1, blocks - 1, bytes - PHYS_BS;
      digest := [];
      while blocks > 0
        invariant Valid() && 0 <= blocks
        invariant PHYS_BS * blocks + SIG_LEN <= bytes < PHYS_BS * (blocks + 1) + SIG_LEN
        invariant PHYS_BS * block == at + pos + PHYS_BS && pos + PHYS_BS + bytes == size
        invariant pending == Some(at + pos) && target == currentBuff
        invariant Readable(at, pos) && Tail(bytes, PHYS_BS) == Tail(size, PHYS_BS)
        invariant digest == Range(medium, at, pos) && (doload ==> dst[..pos] == Range(medium, at, pos))
        invariant forall i | 0 <= i < dst.Length && !(doload && i < pos) :: dst[i] == old(dst[i])
      {
        var ok := WaitAndGoOn(dst, pos, PHYS_BS * block, doload, at);
        if !ok {
          return GaveUp;
        }
        block, blocks, bytes, pos := block + 1, blocks - 1, bytes - PHYS_BS, pos + PHYS_BS;
      }
      outcome := FinishCd(dst, pos, PHYS_BS * block, bytes, doload, at);
    }

    /** A block has come and, while the next is on its way, is taken. */
    method WaitAndGoOn(dst: array<byte>, pos: nat, next: nat, doload: bool, ghost at: nat) returns (ok: bool)
      requires Valid() && pending == Some(at + pos) && target == currentBuff
      requires dst != databuff1 && dst != databuff2 && (doload ==> pos + PHYS_BS <= dst.Length)
      requires digest == Range(medium, at, pos) && (doload ==> dst[..pos] == Range(medium, at, pos))
      modifies this`currentBuff, this`nextBuff, this`pending, this`target, this`digest, databuff1, databuff2, dst
      ensures ok == Readable(at + pos, PHYS_BS)
      ensures ok ==> Valid() && pending == Some(next) && target == currentBuff
      ensures ok ==> digest == Range(medium, at, pos + PHYS_BS)
      ensures ok && doload ==> dst[..pos + PHYS_BS] == Range(medium, at, pos + PHYS_BS)
      ensures forall i | 0 <= i < dst.Length && !(doload && i < pos + PHYS_BS) :: dst[i] == old(dst[i])
    {
      ok := Wait();
      if ok {
        SwitchBuffers();
        AsyncReadBlock(next);
        TakeBlock(nextBuff, dst, pos, PHYS_BS, doload, at);
      }
    }

    /** The last whole block is on its way; the rest follows it. */
    method FinishCd(dst: array<byte>, pos: nat, from: nat, bytes: nat, doload: bool, ghost at: nat)
      returns (outcome: Outcome)
      requires Valid() && pending == Some(at + pos) && target == currentBuff && from == at + pos + PHYS_BS
      requires dst != databuff1 && dst != databuff2 && (doload ==> pos + PHYS_BS + bytes - SIG_LEN <= dst.Length)
      requires digest == Range(medium, at, pos) && (doload ==> dst[..pos] == Range(medium, at, pos))
      requires SIG_LEN <= bytes < PHYS_BS + SIG_LEN
      modifies this`currentBuff, this`pending, this`digest, databuff1, databuff2, dst
      ensures outcome == if !Readable(at + pos, PHYS_BS) then GaveUp else Finished(TailReadable(from, bytes, PHYS_BS))
      ensures outcome == Finished(true) ==> Taken(dst, at, pos + PHYS_BS + bytes, doload)
      ensures forall i | 0 <= i < dst.Length && !(doload && i < pos + PHYS_BS + bytes - SIG_LEN) ::
                dst[i] == old(dst[i])
    {
      var ok := Wait();
      if !ok {
        return GaveUp;
      }
      TakeBlock(currentBuff, dst, pos, PHYS_BS, doload, at);
      outcome := Finish(dst, pos + PHYS_BS, from, bytes, PHYS_BS, doload, false, at);
    }

    /** ReadOsComponent of fmvdipir.c: the same with reads that are waited for at once, by byte address. */
    method ReadOsComponentFmv(dst: array<byte>, start: nat, size: nat, doload: bool) returns (outcome: Outcome)
      requires databuff1 != databuff2 && databuff1.Length == databuff2.Length == PHYS_BS && pending == None
      requires PHYS_BS + SIG_LEN <= size
      requires dst != databuff1 && dst != databuff2 && (doload ==> size - SIG_LEN <= dst.Length)
      modifies this`currentBuff, this`nextBuff, this`digest, databuff1, databuff2, dst
      ensures outcome.Finished? ==> outcome.allRead && Taken(dst, start, size, doload)
      ensures outcome == Finished(true) <==> AllReadable(start, size, PHYS_BS)
      ensures forall i | 0 <= i < dst.Length && !(doload && i < size - SIG_LEN) :: dst[i] == old(dst[i])
    {
      var bytes, block, pos := size, start, 0;
      var blocks := (bytes - SIG_LEN) / PHYS_BS;
      DoubleBuffer();
      var ok := Read(block, PHYS_BS);
      if !ok {
        return GaveUp;
      }
      block, blocks, bytes := block + PHYS_BS, blocks - 1, bytes - PHYS_BS;
      digest := [];
      while blocks > 0
        invariant Valid() && 0 <= blocks && 0 <= pos && pending == None
        invariant PHYS_BS * blocks + SIG_LEN <= bytes < PHYS_BS * (blocks + 1) + SIG_LEN
        invariant block == start + pos + PHYS_BS && pos + PHYS_BS + bytes == size
        invariant currentBuff[..PHYS_BS] == Range(medium, start + pos, PHYS_BS)
        invariant Readable(start, pos + PHYS_BS) && Tail(bytes, PHYS_BS) == Tail(size, PHYS_BS)
        invariant digest == Range(medium, start, pos) && (doload ==> dst[..pos] == Range(medium, start, pos))
        invariant forall i | 0 <= i < dst.Length && !(doload && i < pos) :: dst[i] == old(dst[i])
      {
        ok := ReadAndGoOn(dst, pos, block, doload, start);
        if !ok {
          return GaveUp;
        }
        block, blocks, bytes, pos := block + PHYS_BS, blocks - 1, bytes - PHYS_BS, pos + PHYS_BS;
      }
      TakeBlock(currentBuff, dst, pos, PHYS_BS, doload, start);
      pos := pos + PHYS_BS;
      outcome := Finish(dst, pos, block, bytes, PHYS_BS, doload, true, start);
    }

    /** The next block is read, and the one before it taken. */
    method ReadAndGoOn(dst: array<byte>, pos: nat, next: nat, doload: bool, ghost at: nat) returns (ok: bool)
      requires Valid() && pending == None && currentBuff[..PHYS_BS] == Range(medium, at + pos, PHYS_BS)
      requires dst != databuff1 && dst != databuff2 && (doload ==> pos + PHYS_BS <= dst.Length)
      requires digest == Range(medium, at, pos) && (doload ==> dst[..pos] == Range(medium, at, pos))
      modifies this`currentBuff, this`nextBuff, this`digest, databuff1, databuff2, dst
      ensures Valid() && ok == Readable(next, PHYS_BS)
      ensures ok ==> currentBuff[..PHYS_BS] == Range(medium, next, PHYS_BS)
      ensures ok ==> digest == Range(medium, at, pos + PHYS_BS)
      ensures ok && doload ==> dst[..pos + PHYS_BS] == Range(medium, at, pos + PHYS_BS)
      ensures forall i | 0 <= i < dst.Length && !(doload && i < pos + PHYS_BS) :: dst[i] == old(dst[i])
    {
      SwitchBuffers();
      ok := Read(next, PHYS_BS);
      if ok {
        TakeBlock(nextBuff, dst, pos, PHYS_BS, doload, at);
      }
    }

    /** LoadDepot of depotdipir.c: one buffer, small blocks, and images that may be shorter than a block. */
    method LoadDepot(dst: array<byte>, start: nat, size: nat, doload: bool) returns (outcome: Outcome)
      requires databuff1 != databuff2 && databuff1.Length == databuff2.Length == PHYS_BS && pending == None
      requires SIG_LEN <= size
      requires dst != databuff1 && dst != databuff2 && (doload ==> size - SIG_LEN <= dst.Length)
      modifies this`currentBuff, this`nextBuff, this`digest, databuff1, databuff2, dst
      ensures outcome.Finished? ==> outcome.allRead && Taken(dst, start, size, doload)
      ensures outcome == Finished(true) <==> AllReadable(start, size, DEPOT_BS)
      ensures forall i | 0 <= i < dst.Length && !(doload && i < size - SIG_LEN) :: dst[i] == old(dst[i])
    {
      var bytes, block, pos := size, start, 0;
      DoubleBuffer();
      digest := [];
      while bytes >= DEPOT_BS + SIG_LEN
        invariant Valid() && pending == None && currentBuff == databuff1 && SIG_LEN <= bytes
        invariant block == start + pos && pos + bytes == size
        invariant Readable(start, pos) && Tail(bytes, DEPOT_BS) == Tail(size, DEPOT_BS)
        invariant digest == Range(medium, start, pos) && (doload ==> dst[..pos] == Range(medium, start, pos))
        invariant forall i | 0 <= i < dst.Length && !(doload && i < pos) :: dst[i] == old(dst[i])
      {
        var ok := Read(block, DEPOT_BS);
        if !ok {
          return GaveUp;
        }
        block, bytes := block + DEPOT_BS, bytes - DEPOT_BS;
        TakeBlock(databuff1, dst, pos, DEPOT_BS, doload, start);
        pos := pos + DEPOT_BS;
      }
      outcome := Finish(dst, pos, block, bytes, DEPOT_BS, doload, true, start);
    }

    /** The last data and the signature join on to what was taken before. */
    method Finish(dst: array<byte>, pos: nat, from: nat, bytes: nat, bs: nat, doload: bool, checked: bool,
                  ghost at: nat)
      returns (outcome: Outcome)
      requires Valid() && pending == None && SIG_LEN <= bs <= PHYS_BS && SIG_LEN <= bytes < bs + SIG_LEN
      requires dst != databuff1 && dst != databuff2 && (doload ==> pos + bytes - SIG_LEN <= dst.Length)
      requires from == at + pos && digest == Range(medium, at, pos)
      requires doload ==> dst[..pos] == Range(medium, at, pos)
      modifies this`digest, this`currentBuff, databuff1, databuff2, dst
      ensures outcome == if TailReadable(from, bytes, bs) then Finished(true) else Failed(checked)
      ensures outcome == Finished(true) ==> Taken(dst, at, pos + bytes, doload)
      ensures forall i | 0 <= i < dst.Length && !(doload && i < pos + bytes - SIG_LEN) :: dst[i] == old(dst[i])
    {
      ghost var front, size := if doload then dst[..pos] else [], bytes - SIG_LEN;
      Joined(medium, at, pos, size);
      outcome := TakeTail(dst, pos, from, bytes, bs, doload, checked);
      if doload {
        assert dst[..pos] == front;
        assert dst[..pos + size] == front + dst[pos..pos + size];
      }
    }
  }

  lemma Slice(medium: nat -> byte, from: nat, n: nat, a: nat, m: nat)
    requires a + m <= n
    ensures Range(medium, from, n)[a..a + m] == Range(medium, from + a, m)
  {
    var part, same := Range(medium, from, n)[a..a + m], Range(medium, from + a, m);
    forall i | 0 <= i < m ensures part[i] == same[i] {
      assert from + (a + i) == (from + a) + i;
    }
  }
}
