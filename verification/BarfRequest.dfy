/**
 The server request and the work order as the driver keeps them, updated in place: setting up a
 multi-block read, taking a reply, and re-basing a timed-out request. Each is proved to do what the
 corresponding event of the protocol model says.
 */
module BarfRequests {
  import opened BarfPageBits
  import opened BarfSizes
  import A = BarfAttention
  import P = BarfProtocol

  /** The absolute page numbers that a bit vector names. */
  ghost function Absolute(words: seq<Word>, low: int): set<int>
    requires |words| == BARF_PAGE_BITS_SIZE
  {
    set p | p in Pages(words) :: low + p
  }

  lemma InAbsolute(words: seq<Word>, low: int, q: int)
    requires |words| == BARF_PAGE_BITS_SIZE
    ensures q in Absolute(words, low) <==> low <= q < low + PAGES && BitIsSet(words, q - low)
  {
    if low <= q < low + PAGES && BitIsSet(words, q - low) {
      assert q - low in Pages(words);
      assert q == low + (q - low);
    }
  }

  lemma PageCleared(words: seq<Word>, low: int, bit: nat)
    requires |words| == BARF_PAGE_BITS_SIZE && bit < PAGES
    ensures Absolute(ClearBit(words, bit), low) == Absolute(words, low) - {low + bit}
  {
    OneBitChanges(words, bit);
    forall q ensures q in Absolute(ClearBit(words, bit), low) <==> q in Absolute(words, low) - {low + bit} {
      InAbsolute(words, low, q);
      InAbsolute(ClearBit(words, bit), low, q);
    }
  }

  /** Shifting the bits down and the first page up by the same amount names the same pages. */
  lemma Rebased(words: seq<Word>, shifted: seq<Word>, base: int, low: int, high: int, low': int, high': int)
    requires |words| == |shifted| == BARF_PAGE_BITS_SIZE && low' == base + low && high' == base + high
    requires low in Pages(words) && high in Pages(words)
    requires forall p | p in Pages(words) :: low <= p <= high
    requires forall p: nat | p < PAGES :: BitIsSet(shifted, p) <==> low + p <= high && BitIsSet(words, low + p)
    ensures Absolute(shifted, low') == Absolute(words, base)
    ensures P.Smallest(Absolute(words, base), low') && P.Largest(Absolute(words, base), high')
  {
    forall q ensures q in Absolute(shifted, low') <==> q in Absolute(words, base) {
      InAbsolute(words, base, q);
      InAbsolute(shifted, low', q);
      if q in Absolute(words, base) {
        assert q - base in Pages(words);
        assert BitIsSet(words, low + (q - base - low));
      }
    }
  }

  lemma Shifted(words: seq<Word>, low: int, moved: int)
    requires |words| == BARF_PAGE_BITS_SIZE
    ensures Absolute(words, low - moved) == set q | q in Absolute(words, low) :: q - moved
  {
    var all := Absolute(words, low);
    var shifted := set q | q in all :: q - moved;
    forall q ensures q in Absolute(words, low - moved) <==> q in shifted {
      var from := q + moved;
      InAbsolute(words, low - moved, q);
      InAbsolute(words, low, from);
      assert q == from - moved;
    }
  }

  class WorkOrder {
    var lowPage: int
    var highPage: int
    var pageCount: int
    var firstUnrequested: int
    var numRequestsSubmitted: int
    var needsAttention: bool
    var done: bool
    const buffer: array<P.Block>
    ghost var delivered: set<int>

    /** The delivered pages, as they stand in the user's buffer. */
    ghost function Delivered(): map<int, P.Block>
      reads this, buffer
      requires forall q | q in delivered :: lowPage <= q < lowPage + buffer.Length
    {
      At(delivered, buffer[..], lowPage)
    }

    ghost predicate Represents(o: P.Order)
      reads this, buffer
    {
      && (forall q | q in delivered :: lowPage <= q < lowPage + buffer.Length)
      && o.low == lowPage && o.high == highPage && o.length == buffer.Length
      && o.firstUnrequested == firstUnrequested
      && o.pageCount == pageCount && o.needsAttention == needsAttention && o.done == done
      && o.buffer == Delivered()
    }

    /** It also knows how many requests it has on the wire. */
    ghost predicate Tracks(o: P.Order)
      reads this, buffer
    {
      Represents(o) && |o.requests| == numRequestsSubmitted
    }

    /** The next run of pages goes out. */
    method Submit(blocks: nat, ghost o: P.Order, ghost after: P.Order)
      requires Tracks(o) && needsAttention && |after.requests| == |o.requests| + 1
      requires after == o.(requests := after.requests, firstUnrequested := o.firstUnrequested + blocks,
                           needsAttention := o.firstUnrequested + blocks <= o.high)
      modifies this`needsAttention, this`firstUnrequested, this`numRequestsSubmitted
      ensures Tracks(after)
      ensures firstUnrequested == old(firstUnrequested) + blocks && (needsAttention <==> firstUnrequested <= highPage)
    {
      firstUnrequested := firstUnrequested + blocks;
      numRequestsSubmitted := numRequestsSubmitted + 1;
      if firstUnrequested > highPage {
        needsAttention := false;
      }
    }

    method Pause(ghost o: P.Order)
      requires Tracks(o)
      modifies this`needsAttention
      ensures Tracks(o.(needsAttention := false)) && !needsAttention
    {
      needsAttention := false;
    }

    /** One more page stands in the buffer, and is counted. */
    method Deliver(offset: nat, block: P.Block, ghost page: int, ghost o: P.Order)
      requires Represents(o) && offset < buffer.Length && page == lowPage + offset
      modifies this`pageCount, this`delivered, buffer
      ensures Represents(o.(pageCount := o.pageCount - 1, buffer := o.buffer[page := block]))
    {
      StoredAt(delivered, buffer[..], lowPage, offset, page, block);
      ghost var stored := buffer[..][offset := block];
      buffer[offset] := block;
      assert buffer[..] == stored;
      pageCount := pageCount - 1;
      delivered := delivered + {page};
    }

    /** StartBarfDiskIo, CMD_READ */
    constructor (page: int, blocks: nat, userBuffer: array<P.Block>)
      ensures buffer == userBuffer && Tracks(P.Start(page, blocks, userBuffer.Length))
    {
      lowPage, highPage := page, page + blocks - 1;
      pageCount := blocks;
      firstUnrequested, numRequestsSubmitted := page, 0;
      needsAttention, done := true, false;
      buffer := userBuffer;
      delivered := {};
    }
  }

  class ServerRequest {
    var lowPage: int
    const pageBits: array<Word>
    var pagesPending: int

    ghost predicate Valid() reads this {
      pageBits.Length == BARF_PAGE_BITS_SIZE
    }

    ghost function Missing(): set<int>
      requires Valid()
      reads this, pageBits
    {
      Absolute(pageBits[..], lowPage)
    }

    ghost function View(): P.Request
      requires Valid()
      reads this, pageBits
    {
      P.Request(lowPage, Missing(), pagesPending)
    }

    constructor ()
      ensures Valid() && fresh(pageBits)
      ensures forall p: nat | p < PAGES :: !BitIsSet(pageBits[..], p)
    {
      pageBits := new Word[BARF_PAGE_BITS_SIZE](_ => ZERO);
      lowPage, pagesPending := 0, 0;
    }

    /** The set-up of a multi-block read, on a request whose bits were cleared. */
    method Ask(page: int, blocks: nat)
      requires Valid() && blocks <= P.MULTIREAD_BLOCK_MAX
      requires forall p: nat | p < PAGES :: !BitIsSet(pageBits[..], p)
      modifies this, pageBits
      ensures View() == P.Request(page, P.Interval(page, blocks), blocks)
    {
      pagesPending := blocks;
      lowPage := page;
      SetPageBits(pageBits, blocks);
      forall q ensures q in Missing() <==> q in P.Interval(page, blocks) {
        InAbsolute(pageBits[..], page, q);
      }
    }

    /** SmartRetryServerRequest: asks again for the smallest range that covers the missing pages. */
    method SmartRetry(ghost o: P.Order, ghost seqno: nat) returns (found: bool, last: int, blocks: int)
      requires Valid() && seqno in o.requests && o.requests[seqno] == View()
      modifies this`lowPage, pageBits
      ensures Missing() == old(Missing())
      ensures found <==> Missing() != {}
      ensures if found then blocks == last - lowPage + 1 && P.Smallest(Missing(), lowPage) && P.Largest(Missing(), last)
              else lowPage == old(lowPage) && pageBits[..] == old(pageBits[..])
      ensures seqno in P.Retried(o, seqno).requests && View() == P.Retried(o, seqno).requests[seqno]
    {
      ghost var words, base := pageBits[..], lowPage;
      var low, high;
      found, low, high := MissingPageRange(pageBits);
      if !found {
        assert Missing() == {};
        return false, 0, 0;
      }
      blocks := high - low + 1;
      UpdatePageBits(pageBits, low, high);
      lowPage := lowPage + low;
      last := lowPage + blocks - 1;
      Rebased(words, pageBits[..], base, low, high, lowPage, last);
      SmartRetryIsRetried(o, seqno, lowPage);
    }

    /** The bit that a reply's page is looked up in, inside the vector or in the fields before it. */
    method LookUp(rel: int, around: int -> bool) returns (isSet: bool)
      requires Valid()
      ensures isSet == P.BitSet(View(), around, rel)
    {
      if 0 <= rel < PAGES {
        InAbsolute(pageBits[..], lowPage, lowPage + rel);
        return pageBits[rel / 32][rel % 32];
      }
      return if -P.WORD <= rel < 0 then P.Bit(pagesPending, -1 - rel)
             else if -2 * P.WORD <= rel < -P.WORD then P.Bit(lowPage, -1 - P.WORD - rel)
             else around(rel);
    }

    /** Clears that bit, wherever it is. */
    method Clear(rel: int)
      requires Valid()
      modifies this`lowPage, this`pagesPending, pageBits
      ensures View() == P.Cleared(old(View()), rel)
    {
      ghost var words := pageBits[..];
      if 0 <= rel < PAGES {
        PageCleared(words, lowPage, rel);
        pageBits[rel / 32] := pageBits[rel / 32][rel % 32 := false];
        assert pageBits[..] == ClearBit(words, rel);
      } else if -P.WORD <= rel < 0 {
        pagesPending := pagesPending - P.Power(-1 - rel);
      } else if -2 * P.WORD <= rel < -P.WORD {
        Shifted(words, lowPage, P.Power(-1 - P.WORD - rel));
        lowPage := lowPage - P.Power(-1 - P.WORD - rel);
      }
    }
  }

  /** The retried request is the protocol's: only its first page has moved. */
  lemma SmartRetryIsRetried(o: P.Order, seqno: nat, low: int)
    requires seqno in o.requests && P.Smallest(o.requests[seqno].missing, low)
    ensures P.Retried(o, seqno) == o.(requests := o.requests[seqno := o.requests[seqno].(low := low)])
  {
    var missing := o.requests[seqno].missing;
    assert P.Smallest(missing, P.Lowest(missing));
  }

  /** The page-bit words that the pages of a reply are looked up in exist exactly for these replies. */
  lemma PagesNamedIff(low: int, base: int, n: nat)
    requires 0 < n
    ensures (forall k | 0 <= k < n :: 0 <= WordOf(low, base, k) < BARF_PAGE_BITS_SIZE)
              <==> low <= base && base - low + n <= PAGES
  {
    if forall k | 0 <= k < n :: 0 <= WordOf(low, base, k) < BARF_PAGE_BITS_SIZE {
      assert 0 <= WordOf(low, base, 0);
      assert WordOf(low, base, n - 1) < BARF_PAGE_BITS_SIZE;
    }
  }

  /** requestBase >> 5, an arithmetic shift */
  function WordOf(low: int, base: int, k: int): int {
    (base - low + k) / 32
  }

  /** ProcessReply, RF_MULTI_READ with a good status: the reply is any reply, and `around` any memory. */
  method ProcessMultiRead(req: ServerRequest, wo: WorkOrder, blockBase: int, data: seq<P.Block>,
                          around: int -> bool, ghost o: P.Order, ghost seqno: nat)
    returns (released: bool)
    requires req.Valid() && req.pageBits as object != wo.buffer as object
    requires wo.Tracks(o) && seqno in o.requests && o.requests[seqno] == req.View()
    modifies req, req.pageBits, wo, wo.buffer
    ensures req.Valid() && wo.Tracks(P.Received(o, seqno, blockBase, data, around))
    ensures released <==> seqno !in P.Received(o, seqno, blockBase, data, around).requests
    ensures !released ==> req.View() == P.Received(o, seqno, blockBase, data, around).requests[seqno]
    ensures released ==> req.pagesPending == 0 && wo.numRequestsSubmitted == old(wo.numRequestsSubmitted) - 1
    ensures released && wo.pageCount != 0 ==> wo.needsAttention
    ensures !released ==> wo.needsAttention == old(wo.needsAttention)
  {
    var offset := blockBase - wo.lowPage;
    if offset < 0 || offset + |data| > wo.buffer.Length {
      wo.done := true;
      return false;
    }
    TakePages(req, wo, blockBase, data, around, o, seqno);
    SameNumber(o.requests, P.Copied(o, seqno, around, blockBase, data, |data|).requests);
    released := Settle(req, wo, P.Copied(o, seqno, around, blockBase, data, |data|), seqno);
  }

  /** The end of it: is the request answered, or the order? */
  method Settle(req: ServerRequest, wo: WorkOrder, ghost o: P.Order, ghost seqno: nat) returns (released: bool)
    requires req.Valid() && wo.Tracks(o) && seqno in o.requests && o.requests[seqno] == req.View()
    modifies wo`done, wo`needsAttention, wo`numRequestsSubmitted
    ensures wo.Tracks(P.Settled(o, seqno)) && (released <==> seqno !in P.Settled(o, seqno).requests)
    ensures !released ==> req.View() == P.Settled(o, seqno).requests[seqno]
    ensures released <==> req.pagesPending == 0
    ensures wo.numRequestsSubmitted == old(wo.numRequestsSubmitted) - if released then 1 else 0
    ensures wo.pageCount == 0 ==> wo.done
    ensures wo.needsAttention == (old(wo.needsAttention) || (released && wo.pageCount != 0))
  {
    released := req.pagesPending == 0;
    if released {
      OneLess(o.requests, seqno);
      wo.numRequestsSubmitted := wo.numRequestsSubmitted - 1;
    }
    if wo.pageCount == 0 {
      wo.done := true;
    } else if released {
      wo.needsAttention := true;
    }
  }

  lemma SameNumber(m: map<nat, P.Request>, m': map<nat, P.Request>)
    requires m.Keys == m'.Keys
    ensures |m| == |m'|
  {
    assert |m| == |m.Keys| && |m'| == |m'.Keys|;
  }

  lemma OneMore(m: map<nat, P.Request>, seqno: nat, r: P.Request)
    requires seqno !in m
    ensures |m[seqno := r]| == |m| + 1
  {
    assert m[seqno := r].Keys == m.Keys + {seqno};
  }

  lemma OneLess(m: map<nat, P.Request>, seqno: nat)
    requires seqno in m
    ensures |m - {seqno}| == |m| - 1
  {
    assert (m - {seqno}).Keys == m.Keys - {seqno};
  }

  /** The scheduler's loop over an order that needs attention: it submits the next runs of pages until the order's
      window is full, or all are asked for, or no request is to be had. The numbers are those of the requests it
      gets. */
  method AttendTo(wo: WorkOrder, l: A.Limits, numbers: seq<nat>, ghost o: P.Order, ghost file: int -> P.Block)
    returns (asked: seq<ServerRequest>, refused: bool, ghost events: seq<P.Event>)
    requires l.Valid() && wo.Tracks(o) && !o.done && o.firstUnrequested <= o.high + 1
    requires Fresh(numbers, 0, o)
    modifies wo`needsAttention, wo`firstUnrequested, wo`numRequestsSubmitted
    ensures wo.Tracks(P.Run(o, events)) && A.Carried(file, l, o, events)
    ensures |asked| == wo.numRequestsSubmitted - old(wo.numRequestsSubmitted) <= |numbers|
    ensures refused ==> |asked| == |numbers|
    ensures !refused ==> !wo.needsAttention
    ensures old(wo.needsAttention) && !wo.needsAttention ==>
              l.window <= wo.numRequestsSubmitted || wo.highPage < wo.firstUnrequested
  {
    ghost var now := o;
    asked, refused, events := [], false, [];
    while wo.needsAttention
      invariant wo.Tracks(now) && !now.done && now.firstUnrequested <= now.high + 1
      invariant now == P.Run(o, events) && A.Carried(file, l, o, events)
      invariant |asked| == wo.numRequestsSubmitted - old(wo.numRequestsSubmitted) <= |numbers|
      invariant Fresh(numbers, |asked|, now)
      invariant old(wo.needsAttention) && !wo.needsAttention ==> P.NothingToDo(now, l.window)
      decreases wo.highPage + 1 - wo.firstUnrequested, wo.needsAttention
    {
      if wo.numRequestsSubmitted >= l.window || wo.firstUnrequested > wo.highPage {
        wo.Pause(now);
        A.OneMore(file, l, o, events, P.Pause(l.window));
        events, now := events + [P.Pause(l.window)], now.(needsAttention := false);
      } else if |asked| == |numbers| {
        return asked, true, events;
      } else {
        var req;
        ghost var e;
        req, e := SubmitNext(wo, l, now, numbers[|asked|], file);
        A.OneMore(file, l, o, events, e);
        events, now := events + [e], P.Apply(now, e);
        asked := asked + [req];
      }
    }
  }

  /** None of the numbers from the k-th on is in use, or there twice. */
  ghost predicate Fresh(numbers: seq<nat>, k: nat, o: P.Order) {
    && (forall i | k <= i < |numbers| :: numbers[i] !in o.requests)
    && (forall i, j | 0 <= i < j < |numbers| :: numbers[i] != numbers[j])
  }

  /** The next run of pages, as long as the limit allows. */
  method SubmitNext(wo: WorkOrder, l: A.Limits, ghost o: P.Order, ghost seqno: nat, ghost file: int -> P.Block)
    returns (req: ServerRequest, ghost e: P.Event)
    requires l.Valid() && wo.Tracks(o) && !o.done && wo.needsAttention && seqno !in o.requests
    requires wo.numRequestsSubmitted < l.window && wo.firstUnrequested <= wo.highPage
    modifies wo`needsAttention, wo`firstUnrequested, wo`numRequestsSubmitted
    ensures fresh(req) && fresh(req.pageBits) && req.Valid()
    ensures e.Submit? && e.seqno == seqno && A.Scheduled(l, o, e) && P.Legal(file, o, e)
    ensures wo.Tracks(P.Apply(o, e)) && P.Apply(o, e).requests == o.requests[seqno := req.View()]
    ensures !wo.needsAttention ==> wo.firstUnrequested > wo.highPage
    ensures old(wo.firstUnrequested) < wo.firstUnrequested <= wo.highPage + 1
  {
    var page, blocks := wo.firstUnrequested, wo.highPage - wo.firstUnrequested + 1;
    if blocks > l.blocks {
      blocks := l.blocks;
    }
    e := P.Submit(seqno, blocks);
    NextIsScheduled(l, o, seqno, blocks, file);
    req := NewRequest(page, blocks);
    SubmittedIs(o, seqno, blocks, req.View());
    wo.Submit(blocks, o, P.Apply(o, e));
  }

  lemma NextIsScheduled(l: A.Limits, o: P.Order, seqno: nat, blocks: nat, file: int -> P.Block)
    requires l.Valid() && !o.done && o.needsAttention && seqno !in o.requests
    requires |o.requests| < l.window && o.firstUnrequested <= o.high
    requires var left := o.high - o.firstUnrequested + 1; blocks == if left > l.blocks then l.blocks else left
    ensures A.Scheduled(l, o, P.Submit(seqno, blocks)) && P.Legal(file, o, P.Submit(seqno, blocks))
  {
  }

  lemma SubmittedIs(o: P.Order, seqno: nat, blocks: nat, r: P.Request)
    requires r == P.Request(o.firstUnrequested, P.Interval(o.firstUnrequested, blocks), blocks)
    ensures P.Apply(o, P.Submit(seqno, blocks)) ==
              o.(requests := o.requests[seqno := r], firstUnrequested := o.firstUnrequested + blocks,
                 needsAttention := o.firstUnrequested + blocks <= o.high)
    ensures seqno !in o.requests ==> |o.requests[seqno := r]| == |o.requests| + 1
  {
    if seqno !in o.requests {
      OneMore(o.requests, seqno, r);
    }
  }

  method NewRequest(page: int, blocks: nat) returns (req: ServerRequest)
    requires blocks <= P.MULTIREAD_BLOCK_MAX
    ensures fresh(req) && fresh(req.pageBits) && req.Valid()
    ensures req.View() == P.Request(page, P.Interval(page, blocks), blocks)
  {
    req := new ServerRequest();
    req.Ask(page, blocks);
  }

  /** The copy loop. */
  method TakePages(req: ServerRequest, wo: WorkOrder, blockBase: int, data: seq<P.Block>,
                   around: int -> bool, ghost o: P.Order, ghost seqno: nat)
    requires req.Valid() && req.pageBits as object != wo.buffer as object
    requires wo.lowPage <= blockBase && blockBase - wo.lowPage + |data| <= wo.buffer.Length
    requires wo.Represents(o) && seqno in o.requests && o.requests[seqno] == req.View()
    modifies req, req.pageBits, wo`pageCount, wo`delivered, wo.buffer
    ensures req.Valid() && wo.Represents(P.Copied(o, seqno, around, blockBase, data, |data|))
    ensures req.View() == P.Copied(o, seqno, around, blockBase, data, |data|).requests[seqno]
  {
    ghost var now := o;
    var k, offset, requestBase := 0, blockBase - wo.lowPage, blockBase - req.lowPage;
    while k < |data|
      invariant 0 <= k <= |data| && req.Valid()
      invariant now == P.Copied(o, seqno, around, blockBase, data, k)
      invariant wo.lowPage == o.low && offset == blockBase - o.low + k
      invariant requestBase == P.Distance(o.requests[seqno], blockBase, k)
      invariant wo.Represents(now) && req.View() == now.requests[seqno]
    {
      ghost var page := blockBase + k;
      P.NextCopied(o, seqno, around, blockBase, data, k);
      TakePage(req, wo, requestBase, offset, data[k], around, now, seqno, page);
      now := P.Looked(now, seqno, around, requestBase, page, data[k]);
      k, offset, requestBase := k + 1, offset + 1, requestBase + 1;
    }
  }

  /** One page of a reply: copied and ticked off if its bit is set, skipped as a duplicate if not. */
  method TakePage(req: ServerRequest, wo: WorkOrder, rel: int, offset: nat, block: P.Block, around: int -> bool,
                  ghost o: P.Order, ghost seqno: nat, ghost page: int)
    requires req.Valid() && req.pageBits as object != wo.buffer as object
    requires offset < wo.buffer.Length && page == wo.lowPage + offset
    requires wo.Represents(o) && seqno in o.requests && o.requests[seqno] == req.View()
    modifies req`lowPage, req`pagesPending, req.pageBits, wo`pageCount, wo`delivered, wo.buffer
    ensures req.Valid() && wo.Represents(P.Looked(o, seqno, around, rel, page, block))
    ensures req.View() == P.Looked(o, seqno, around, rel, page, block).requests[seqno]
  {
    var isSet := req.LookUp(rel, around);
    if isSet {
      req.Clear(rel);
      wo.Deliver(offset, block, page, o);
      req.pagesPending := (req.pagesPending - 1) % P.UINT32;
    }
  }

  lemma StoredAt(keys: set<int>, buffer: seq<P.Block>, low: int, offset: nat, page: int, block: P.Block)
    requires forall q | q in keys :: low <= q < low + |buffer|
    requires offset < |buffer| && page == low + offset
    ensures At(keys + {page}, buffer[offset := block], low) == At(keys, buffer, low)[page := block]
  {
  }

  ghost function At(keys: set<int>, buffer: seq<P.Block>, low: int): map<int, P.Block>
    requires forall q | q in keys :: low <= q < low + |buffer|
  {
    map q | q in keys :: buffer[q - low]
  }
}
