/**
 Multi-block reads over a lossy, duplicating and reordering network: the work order of one read,
 the requests it has on the wire, and what any sequence of replies and retries can do to them.
 Page numbers are absolute block numbers in the file.
 */
module BarfProtocol {
  import opened BarfSizes

  type Block = int

  /** Requested blocks per command; the count travels in one byte. */
  const MULTIREAD_BLOCK_MAX := 255
  const WORD := 32
  const UINT32 := 0x1_0000_0000

  /** A multi-block read on the wire: its first page, the pages not received yet, and their recorded number. */
  datatype Request = Request(low: int, missing: set<int>, pending: int)

  /** The work order of one CMD_READ: pages low..high into a buffer of `length` blocks. */
  datatype Order = Order(
    low: int, high: int, length: int, pageCount: int, firstUnrequested: int,
    requests: map<nat, Request>, buffer: map<int, Block>,
    needsAttention: bool, done: bool, failed: bool)

  /** The pages first .. first + n - 1. */
  function Interval(first: int, n: nat): (s: set<int>)
    ensures |s| == n
    ensures forall q :: q in s <==> first <= q < first + n
  {
    if n == 0 then {} else Interval(first, n - 1) + {first + n - 1}
  }

  /** StartBarfDiskIo, CMD_READ: the order before its first request. */
  function Start(low: int, blocks: nat, length: int): Order {
    Order(low, low + blocks - 1, length, blocks, low, map[], map[], true, false, false)
  }

  // ---------------------------------------------------------------- events

  datatype Event =
    | Submit(seqno: nat, blocks: nat)
    | Reply(seqno: nat, base: int, data: seq<Block>, around: int -> bool)
    | ErrorReply(seqno: nat)
    | SmartRetry(seqno: nat)
    | Pause(window: nat)

  /** The next run of pages goes out under a fresh sequence number. */
  function Submitted(o: Order, seqno: nat, blocks: nat): Order {
    var r := Request(o.firstUnrequested, Interval(o.firstUnrequested, blocks), blocks);
    var first := o.firstUnrequested + blocks;
    o.(requests := o.requests[seqno := r], firstUnrequested := first, needsAttention := first <= o.high)
  }

  /** The pages of a reply that the request still misses. */
  function Hits(r: Request, base: int, n: nat): set<int> {
    set q | q in r.missing && base <= q < base + n
  }

  predicate InBuffer(o: Order, base: int, n: nat) {
    o.low <= base && base + n <= o.low + o.length
  }

  function AfterHits(r: Request, hits: set<int>): Request {
    r.(missing := r.missing - hits, pending := r.pending - |hits|)
  }

  /** What a reply is meant to do: its pages that were missing are copied to the user's buffer and ticked off, and the
      others are skipped. */
  function Taken(o: Order, seqno: nat, base: int, data: seq<Block>): Order
    requires seqno in o.requests
  {
    var r := o.requests[seqno];
    var hits := Hits(r, base, |data|);
    o.(requests := o.requests[seqno := AfterHits(r, hits)],
       pageCount := o.pageCount - |hits|,
       buffer := o.buffer + map q | q in hits :: data[q - base])
  }

  /** A request that waits for nothing any more is released; an order with nothing left to read is done. */
  function Settled(o: Order, seqno: nat): Order
    requires seqno in o.requests
  {
    var o' := if o.requests[seqno].pending == 0 then o.(requests := o.requests - {seqno}) else o;
    if o.pageCount == 0 then o'.(done := true)
    else if o.requests[seqno].pending == 0 then o'.(needsAttention := true)
    else o'
  }

  function Power(b: nat): (p: nat)
    ensures p > 0
  {
    if b == 0 then 1 else 2 * Power(b - 1)
  }

  /** Bit b of a word, the lowest being bit 0. */
  predicate Bit(n: int, b: nat)
    decreases b
  {
    if b == 0 then n % 2 == 1 else Bit(n / 2, b - 1)
  }

  /** The bit that a reply's page is looked up in, by its distance from the request's first page. Nothing keeps the
      lookup within the vector: the word before it is req_PagesPending, the one before that req_LowPage, and
      `around` stands for the memory further off. */
  predicate BitSet(r: Request, around: int -> bool, rel: int) {
    if 0 <= rel < PAGES then r.low + rel in r.missing
    else if -WORD <= rel < 0 then Bit(r.pending, -1 - rel)
    else if -2 * WORD <= rel < -WORD then Bit(r.low, -1 - WORD - rel)
    else around(rel)
  }

  /** The request with that bit cleared; the fields further off are not part of it. */
  function Cleared(r: Request, rel: int): Request {
    if 0 <= rel < PAGES then r.(missing := r.missing - {r.low + rel})
    else if -WORD <= rel < 0 then r.(pending := r.pending - Power(-1 - rel))
    else if -2 * WORD <= rel < -WORD then
      var moved := Power(-1 - WORD - rel);
      Request(r.low - moved, set q | q in r.missing :: q - moved, r.pending)
    else r
  }

  /** One page of a reply: if its bit is set it is cleared, and the page is copied and counted. */
  function Looked(o: Order, seqno: nat, around: int -> bool, rel: int, page: int, block: Block): (o': Order)
    requires seqno in o.requests
    ensures o'.requests.Keys == o.requests.Keys && o'.low == o.low
  {
    var r := o.requests[seqno];
    if !BitSet(r, around, rel) then o
    else
      var c := Cleared(r, rel);
      o.(requests := o.requests[seqno := c.(pending := (c.pending - 1) % UINT32)],
         pageCount := o.pageCount - 1,
         buffer := o.buffer[page := block])
  }

  /** The first k pages of a reply, one by one. Their distances are taken from the first page as it is at the start. */
  function Copied(o: Order, seqno: nat, around: int -> bool, base: int, data: seq<Block>, k: nat): (o': Order)
    requires seqno in o.requests && k <= |data|
    ensures o'.requests.Keys == o.requests.Keys && o'.low == o.low
  {
    if k == 0 then o
    else
      Looked(Copied(o, seqno, around, base, data, k - 1), seqno, around, base - o.requests[seqno].low + (k - 1),
             base + (k - 1), data[k - 1])
  }

  /** ProcessReply, RF_MULTI_READ with a good status. */
  function Received(o: Order, seqno: nat, base: int, data: seq<Block>, around: int -> bool): Order {
    if seqno !in o.requests then o
    else if !InBuffer(o, base, |data|) then o.(done := true)
    else Settled(Copied(o, seqno, around, base, data, |data|), seqno)
  }

  /** The smallest range covering the missing pages starts at the smallest of them. */
  ghost predicate Smallest(s: set<int>, low: int) {
    low in s && forall q | q in s :: low <= q
  }

  ghost predicate Largest(s: set<int>, high: int) {
    high in s && forall q | q in s :: q <= high
  }

  ghost function Lowest(s: set<int>): (low: int)
    requires s != {}
    ensures Smallest(s, low)
  {
    LowestExists(s);
    var low :| Smallest(s, low);
    low
  }

  lemma {:induction false} LowestExists(s: set<int>)
    requires s != {}
    ensures exists low :: Smallest(s, low)
    decreases |s|
  {
    var q: int :| q in s;
    var below := set b | b in s && b < q;
    if below == {} {
      assert forall b | b in s :: q <= b || b in below;
      assert Smallest(s, q);
    } else {
      assert s == below + (s - below) && q in s - below;
      LowestExists(below);
      var low :| Smallest(below, low);
      assert forall b | b in s :: q <= b || b in below;
      assert Smallest(s, low);
    }
  }

  /** SmartRetryServerRequest: the request is re-based in place, keeping what it misses. */
  ghost function Retried(o: Order, seqno: nat): Order {
    if seqno !in o.requests || o.requests[seqno].missing == {} then o
    else
      var r := o.requests[seqno];
      o.(requests := o.requests[seqno := r.(low := Lowest(r.missing))])
  }

  ghost function Apply(o: Order, e: Event): Order {
    match e
    case Submit(seqno, blocks) => Submitted(o, seqno, blocks)
    case Reply(seqno, base, data, around) => Received(o, seqno, base, data, around)
    case ErrorReply(seqno) => if seqno in o.requests then o.(done := true, failed := true) else o
    case SmartRetry(seqno) => Retried(o, seqno)
    case Pause(_) => o.(needsAttention := false)
  }

  /** The blocks are the file's own, from block `base` on. */
  ghost predicate FromFile(file: int -> Block, base: int, data: seq<Block>) {
    forall i | 0 <= i < |data| :: data[i] == file(base + i)
  }

  /** The scheduler has nothing to submit: as many requests as it may have are on the wire, or all pages were asked
      for. */
  predicate NothingToDo(o: Order, window: nat) { window <= |o.requests| || o.high < o.firstUnrequested }

  /** What may happen next: the scheduler's next run of pages, or that it stops for a while, or anything that a server
      which answers with the file's blocks and a network that loses, repeats and reorders messages can cause. Replies
      are processed also after the order is done, until it is closed. */
  ghost predicate Legal(file: int -> Block, o: Order, e: Event) {
    match e
    case Submit(seqno, blocks) =>
      && !o.done && seqno !in o.requests
      && 0 < blocks <= MULTIREAD_BLOCK_MAX && o.firstUnrequested + blocks <= o.high + 1
    case Reply(seqno, base, data, _) => FromFile(file, base, data)
    case ErrorReply(_) => true
    case SmartRetry(_) => true
    case Pause(window) => !o.done && 0 < window && NothingToDo(o, window)
  }

  /** None of the reply's lookups outside the request's bit vector finds a bit set. */
  predicate NoStray(r: Request, around: int -> bool, base: int, n: nat) {
    forall k | 0 <= k < n :: 0 <= Distance(r, base, k) < PAGES || !BitSet(r, around, Distance(r, base, k))
  }

  /** How far the k-th page of a reply is from the request's first page. */
  function Distance(r: Request, base: int, k: int): int { base - r.low + k }

  /** The reply does no harm: it fits the user's buffer, or the order is done anyway, and no lookup goes astray. */
  predicate Harmless(o: Order, e: Event) {
    e.Reply? && e.seqno in o.requests ==>
      if InBuffer(o, e.base, |e.data|) then NoStray(o.requests[e.seqno], e.around, e.base, |e.data|) else o.done
  }

  // ---------------------------------------------------------------- the invariant

  /** Page q is on the wire in the request s. */
  predicate OnWire(o: Order, s: nat, q: int) { s in o.requests && q in o.requests[s].missing }

  /** Every page of the order is delivered, on the wire in exactly one request, or not requested yet. */
  ghost predicate Partitioned(o: Order) {
    && (forall q | q in o.buffer :: o.low <= q < o.firstUnrequested)
    && (forall s, q | OnWire(o, s, q) :: o.low <= q < o.firstUnrequested && q !in o.buffer)
    && (forall s, t, q | OnWire(o, s, q) && OnWire(o, t, q) :: s == t)
    && (forall q | o.low <= q < o.firstUnrequested && q !in o.buffer :: exists s :: OnWire(o, s, q))
  }

  /** The recorded number is that of the missing pages, which the request's bit vector can name. */
  ghost predicate CountedRequest(r: Request) {
    r.pending == |r.missing| && forall q | q in r.missing :: r.low <= q < r.low + PAGES
  }

  ghost predicate Counted(o: Order) {
    forall s | s in o.requests :: CountedRequest(o.requests[s])
  }

  /** No request is kept that waits for nothing. */
  ghost predicate NoneIdle(o: Order) {
    forall s | s in o.requests :: o.requests[s].missing != {}
  }

  ghost predicate Inv(file: int -> Block, o: Order) {
    Accounted(file, o) && NoneIdle(o)
  }

  ghost predicate Accounted(file: int -> Block, o: Order) {
    && o.low <= o.firstUnrequested <= o.high + 1 && o.high < o.low + o.length
    && Partitioned(o) && Counted(o)
    && o.pageCount == o.high - o.low + 1 - |o.buffer|
    && (forall q | q in o.buffer :: o.buffer[q] == file(q))
  }

  /** Every block is in the user's buffer, at its place. */
  ghost predicate Complete(file: int -> Block, o: Order) {
    forall q | o.low <= q <= o.high :: q in o.buffer && o.buffer[q] == file(q)
  }

  /** What a user relies on: an order that is done without an error has delivered everything, and one that is
      not done still waits for something. */
  ghost predicate Sound(file: int -> Block, o: Order) {
    && Inv(file, o)
    && (o.done && !o.failed ==> Complete(file, o))
    && (if o.done then 0 <= o.pageCount else 0 < o.pageCount && !o.failed)
  }

  lemma FullBuffer(file: int -> Block, o: Order)
    requires Inv(file, o) && o.pageCount == 0
    ensures Complete(file, o)
  {
    var all := Interval(o.low, o.high - o.low + 1);
    assert o.buffer.Keys <= all;
    SameSize(o.buffer.Keys, all);
  }

  lemma SameSize(a: set<int>, b: set<int>)
    requires a <= b && |a| == |b|
    ensures a == b
  {
    assert b == a + (b - a);
  }

  // ---------------------------------------------------------------- every event keeps the invariant

  /** A read begins sound. */
  lemma StartSound(file: int -> Block, low: int, blocks: nat, length: int)
    requires 0 < blocks <= length
    ensures Sound(file, Start(low, blocks, length))
  {
  }

  lemma SubmitInv(file: int -> Block, o: Order, seqno: nat, blocks: nat)
    requires Inv(file, o) && Legal(file, o, Submit(seqno, blocks))
    ensures Inv(file, Submitted(o, seqno, blocks))
  {
    var o' := Submitted(o, seqno, blocks);
    assert forall s, q ::
        OnWire(o', s, q) <==> OnWire(o, s, q) || (s == seqno && o.firstUnrequested <= q < o'.firstUnrequested);
    forall q | o'.low <= q < o'.firstUnrequested && q !in o'.buffer ensures exists s :: OnWire(o', s, q) {
      if q < o.firstUnrequested {
        var s :| OnWire(o, s, q);
        assert OnWire(o', s, q);
      } else {
        assert OnWire(o', seqno, q);
      }
    }
    assert o.firstUnrequested in o'.requests[seqno].missing;
  }

  lemma RetryInv(file: int -> Block, o: Order, seqno: nat)
    requires Inv(file, o)
    ensures Inv(file, Retried(o, seqno))
    ensures forall s, q :: OnWire(Retried(o, seqno), s, q) <==> OnWire(o, s, q)
  {
    SameWire(o, Retried(o, seqno));
  }

  /** Where every page is depends on the requests' missing pages, the buffer and what was asked for alone. */
  lemma SameWire(o: Order, o': Order)
    requires Partitioned(o) && o'.buffer == o.buffer && o'.low == o.low && o'.firstUnrequested == o.firstUnrequested
    requires o'.requests.Keys == o.requests.Keys
    requires forall s | s in o.requests :: o'.requests[s].missing == o.requests[s].missing
    ensures Partitioned(o') && forall s, q :: OnWire(o', s, q) <==> OnWire(o, s, q)
  {
    assert forall s, q :: OnWire(o', s, q) <==> OnWire(o, s, q);
    forall q | o'.low <= q < o'.firstUnrequested && q !in o'.buffer ensures exists s :: OnWire(o', s, q) {
      var s :| OnWire(o, s, q);
      assert OnWire(o', s, q);
    }
  }

  lemma WireAfterTaken(o: Order, seqno: nat, base: int, data: seq<Block>, s: nat, q: int)
    requires seqno in o.requests
    requires OnWire(o, seqno, q) && OnWire(o, s, q) ==> s == seqno
    ensures OnWire(Taken(o, seqno, base, data), s, q) <==>
              OnWire(o, s, q) && q !in Hits(o.requests[seqno], base, |data|)
  {
  }

  lemma HitsOffWire(o: Order, seqno: nat, base: int, data: seq<Block>)
    requires Partitioned(o) && seqno in o.requests
    ensures forall s, q :: OnWire(Taken(o, seqno, base, data), s, q) <==>
                             OnWire(o, s, q) && q !in Hits(o.requests[seqno], base, |data|)
  {
    forall s, q
      ensures OnWire(Taken(o, seqno, base, data), s, q) <==>
                OnWire(o, s, q) && q !in Hits(o.requests[seqno], base, |data|)
    {
      WireAfterTaken(o, seqno, base, data, s, q);
    }
  }

  lemma HitsMissed(o: Order, seqno: nat, base: int, n: nat)
    requires Partitioned(o) && seqno in o.requests
    ensures forall q | q in Hits(o.requests[seqno], base, n) ::
              OnWire(o, seqno, q) && o.low <= q < o.firstUnrequested && q !in o.buffer.Keys
  {
    assert forall q | q in Hits(o.requests[seqno], base, n) :: OnWire(o, seqno, q);
  }

  lemma HitsTaken(o: Order, seqno: nat, base: int, data: seq<Block>)
    requires Partitioned(o) && seqno in o.requests
    ensures var o' := Taken(o, seqno, base, data);
            var hits := Hits(o.requests[seqno], base, |data|);
            && o'.buffer.Keys == o.buffer.Keys + hits && o.buffer.Keys !! hits
            && (forall s, q :: OnWire(o', s, q) <==> OnWire(o, s, q) && q !in hits)
            && (forall q | q in hits :: OnWire(o, seqno, q) && o.low <= q < o.firstUnrequested)
  {
    HitsOffWire(o, seqno, base, data);
    HitsMissed(o, seqno, base, |data|);
  }

  lemma TakenPartitioned(file: int -> Block, o: Order, seqno: nat, base: int, data: seq<Block>)
    requires Inv(file, o) && seqno in o.requests
    ensures Partitioned(Taken(o, seqno, base, data))
  {
    var o' := Taken(o, seqno, base, data);
    HitsTaken(o, seqno, base, data);
    forall q | o'.low <= q < o'.firstUnrequested && q !in o'.buffer ensures exists s :: OnWire(o', s, q) {
      assert q !in o.buffer.Keys;
      var s :| OnWire(o, s, q);
      assert OnWire(o', s, q);
    }
  }

  lemma Remaining(a: set<int>, b: set<int>)
    requires a <= b
    ensures |b - a| == |b| - |a|
  {
    assert b == a + (b - a);
  }

  lemma KeysAdded(m: map<int, Block>, m': map<int, Block>, keys: set<int>)
    requires m'.Keys == m.Keys + keys && m.Keys !! keys
    ensures |m'| == |m| + |keys|
  {
    assert |m'.Keys| == |m.Keys| + |keys|;
  }

  lemma TakenCounted(file: int -> Block, o: Order, seqno: nat, base: int, data: seq<Block>)
    requires Inv(file, o) && seqno in o.requests
    ensures Counted(Taken(o, seqno, base, data))
    ensures var o' := Taken(o, seqno, base, data); o'.pageCount == o'.high - o'.low + 1 - |o'.buffer|
  {
    var r := o.requests[seqno];
    var hits := Hits(r, base, |data|);
    var o' := Taken(o, seqno, base, data);
    assert |o'.buffer| == |o.buffer| + |hits| by {
      HitsTaken(o, seqno, base, data);
      KeysAdded(o.buffer, o'.buffer, hits);
    }
    Remaining(hits, r.missing);
  }

  /** Releasing an exhausted request, or closing the order, leaves every page where it was. */
  lemma SettledPartitioned(o: Order, seqno: nat)
    requires seqno in o.requests && Partitioned(o) && Counted(o)
    ensures Partitioned(Settled(o, seqno)) && Counted(Settled(o, seqno))
  {
    var o' := Settled(o, seqno);
    forall s, q ensures OnWire(o', s, q) <==> OnWire(o, s, q) {
      if o.requests[seqno].pending == 0 {
        assert o.requests[seqno].missing == {};
      }
    }
    forall q | o'.low <= q < o'.firstUnrequested && q !in o'.buffer ensures exists s :: OnWire(o', s, q) {
      var s :| OnWire(o, s, q);
      assert OnWire(o', s, q);
    }
  }

  lemma TakenBuffer(file: int -> Block, o: Order, seqno: nat, base: int, data: seq<Block>)
    requires seqno in o.requests
    requires forall q | q in o.buffer :: o.buffer[q] == file(q)
    requires FromFile(file, base, data)
    ensures var o' := Taken(o, seqno, base, data); forall q | q in o'.buffer :: o'.buffer[q] == file(q)
  {
    var o' := Taken(o, seqno, base, data);
    forall q | q in o'.buffer ensures o'.buffer[q] == file(q) {
      if q in Hits(o.requests[seqno], base, |data|) {
        assert data[q - base] == file(base + (q - base));
      }
    }
  }

  lemma SettledNoneIdle(o: Order, seqno: nat, base: int, data: seq<Block>)
    requires seqno in o.requests && NoneIdle(o) && Counted(Taken(o, seqno, base, data))
    ensures NoneIdle(Settled(Taken(o, seqno, base, data), seqno))
  {
    var o1 := Taken(o, seqno, base, data);
    var o' := Settled(o1, seqno);
    forall s | s in o'.requests ensures o'.requests[s].missing != {} {
      if s != seqno {
        assert o'.requests[s] == o.requests[s];
      } else {
        assert o1.requests[s].pending == |o1.requests[s].missing|;
      }
    }
  }

  lemma TakenAccounted(file: int -> Block, o: Order, seqno: nat, base: int, data: seq<Block>)
    requires Inv(file, o) && FromFile(file, base, data) && seqno in o.requests
    ensures Accounted(file, Taken(o, seqno, base, data))
  {
    var o' := Taken(o, seqno, base, data);
    assert Partitioned(o') by { TakenPartitioned(file, o, seqno, base, data); }
    assert Counted(o') && o'.pageCount == o'.high - o'.low + 1 - |o'.buffer| by {
      TakenCounted(file, o, seqno, base, data);
    }
    assert forall q | q in o'.buffer :: o'.buffer[q] == file(q) by { TakenBuffer(file, o, seqno, base, data); }
    AccountedFrom(file, o');
  }

  lemma AccountedFrom(file: int -> Block, o: Order)
    requires o.low <= o.firstUnrequested <= o.high + 1 && o.high < o.low + o.length
    requires Partitioned(o) && Counted(o)
    requires o.pageCount == o.high - o.low + 1 - |o.buffer|
    requires forall q | q in o.buffer :: o.buffer[q] == file(q)
    ensures Accounted(file, o)
  {
  }

  lemma SettledAccounted(file: int -> Block, o: Order, seqno: nat)
    requires seqno in o.requests && Accounted(file, o)
    ensures Accounted(file, Settled(o, seqno))
  {
    SettledPartitioned(o, seqno);
  }

  lemma Fewer(a: set<int>, b: set<int>)
    requires a <= b
    ensures |a| <= |b|
  {
    assert b == a + (b - a);
  }

  lemma CountNotNegative(file: int -> Block, o: Order)
    requires Inv(file, o)
    ensures 0 <= o.pageCount
  {
    var all := Interval(o.low, o.high - o.low + 1);
    assert |o.buffer| == |o.buffer.Keys|;
    Fewer(o.buffer.Keys, all);
  }

  /** Nothing delivered is ever delivered again or overwritten. */
  ghost predicate Extends(o: Order, o': Order) {
    forall q | q in o.buffer :: q in o'.buffer && o'.buffer[q] == o.buffer[q]
  }

  lemma NextCopied(o: Order, seqno: nat, around: int -> bool, base: int, data: seq<Block>, k: nat)
    requires seqno in o.requests && k < |data|
    ensures Copied(o, seqno, around, base, data, k + 1)
              == Looked(Copied(o, seqno, around, base, data, k), seqno, around, Distance(o.requests[seqno], base, k),
                        base + k, data[k])
  {
  }

  // ---------------------------------------------------------------- replies that do no harm

  /** Without a stray lookup the copy loop has, page by page, just the hits of the reply's first pages. */
  lemma {:induction false} CopiedIsTaken(o: Order, seqno: nat, around: int -> bool, base: int, data: seq<Block>, k: nat)
    requires seqno in o.requests && CountedRequest(o.requests[seqno]) && k <= |data|
    requires NoStray(o.requests[seqno], around, base, k)
    ensures Copied(o, seqno, around, base, data, k) == Taken(o, seqno, base, data[..k])
    decreases k
  {
    if k == 0 {
      NothingTaken(o, seqno, base);
      assert data[..0] == [];
    } else {
      var j := k - 1;
      CopiedIsTaken(o, seqno, around, base, data, j);
      OnePageTaken(o, seqno, around, base, data, j);
      NextCopied(o, seqno, around, base, data, j);
    }
  }

  lemma NothingTaken(o: Order, seqno: nat, base: int)
    requires seqno in o.requests
    ensures Taken(o, seqno, base, []) == o
  {
    var r := o.requests[seqno];
    assert Hits(r, base, 0) == {} && r.missing - {} == r.missing;
    assert o.requests[seqno := r] == o.requests;
    assert Taken(o, seqno, base, []).buffer == o.buffer;
  }

  /** One page more of a reply is a hit exactly if the request missed it, and then there is still one to count. */
  lemma OneMorePage(r: Request, base: int, k: nat)
    requires CountedRequest(r)
    ensures base + k !in Hits(r, base, k)
    ensures base + k !in r.missing ==> Hits(r, base, k + 1) == Hits(r, base, k)
    ensures base + k in r.missing ==>
              Hits(r, base, k + 1) == Hits(r, base, k) + {base + k} && 0 < r.pending - |Hits(r, base, k)| <= PAGES
  {
    var hits := Hits(r, base, k);
    if base + k in r.missing {
      assert Hits(r, base, k + 1) == hits + {base + k};
      assert hits + {base + k} <= r.missing;
      Fewer(hits + {base + k}, r.missing);
      Fewer(r.missing, Interval(r.low, PAGES));
    } else {
      assert Hits(r, base, k + 1) == hits;
    }
  }

  /** A lookup in the vector asks whether the page is missing; the hits so far have changed no bit outside it that is
      still to be looked up. */
  lemma LookupMeansMissing(r: Request, around: int -> bool, base: int, k: nat)
    requires CountedRequest(r)
    requires 0 <= Distance(r, base, k) < PAGES || !BitSet(r, around, Distance(r, base, k))
    ensures BitSet(AfterHits(r, Hits(r, base, k)), around, Distance(r, base, k)) <==> base + k in r.missing
  {
    OneMorePage(r, base, k);
    if Distance(r, base, k) < 0 {
      assert Hits(r, base, k) == {};
    }
  }

  lemma HitTaken(o: Order, seqno: nat, base: int, data: seq<Block>, k: nat)
    requires seqno in o.requests && CountedRequest(o.requests[seqno])
    requires k < |data| && base + k in o.requests[seqno].missing
    ensures var r := o.requests[seqno];
            var u, c := Taken(o, seqno, base, data[..k]), AfterHits(r, Hits(r, base, k));
            Taken(o, seqno, base, data[..k + 1])
              == o.(requests := o.requests[seqno := Request(r.low, c.missing - {base + k}, (c.pending - 1) % UINT32)],
                    pageCount := u.pageCount - 1, buffer := u.buffer[base + k := data[k]])
  {
    var r := o.requests[seqno];
    var u, u', hits := Taken(o, seqno, base, data[..k]), Taken(o, seqno, base, data[..k + 1]), Hits(r, base, k);
    OneMorePage(r, base, k);
    assert r.missing - (hits + {base + k}) == r.missing - hits - {base + k};
    assert u'.buffer == u.buffer[base + k := data[k]];
  }

  lemma MissTaken(o: Order, seqno: nat, base: int, data: seq<Block>, k: nat)
    requires seqno in o.requests && CountedRequest(o.requests[seqno])
    requires k < |data| && base + k !in o.requests[seqno].missing
    ensures Taken(o, seqno, base, data[..k + 1]) == Taken(o, seqno, base, data[..k])
  {
    OneMorePage(o.requests[seqno], base, k);
    assert Taken(o, seqno, base, data[..k + 1]).buffer == Taken(o, seqno, base, data[..k]).buffer;
  }

  lemma OnePageTaken(o: Order, seqno: nat, around: int -> bool, base: int, data: seq<Block>, k: nat)
    requires seqno in o.requests && CountedRequest(o.requests[seqno]) && k < |data|
    requires var rel := Distance(o.requests[seqno], base, k);
             0 <= rel < PAGES || !BitSet(o.requests[seqno], around, rel)
    ensures Looked(Taken(o, seqno, base, data[..k]), seqno, around,
                   Distance(o.requests[seqno], base, k), base + k, data[k])
              == Taken(o, seqno, base, data[..k + 1])
  {
    var r := o.requests[seqno];
    LookupMeansMissing(r, around, base, k);
    if base + k in r.missing {
      HitTaken(o, seqno, base, data, k);
      assert r.low + Distance(r, base, k) == base + k;
      assert 0 <= Distance(r, base, k) < PAGES;
    } else {
      MissTaken(o, seqno, base, data, k);
    }
  }

  lemma ReplyInv(file: int -> Block, o: Order, seqno: nat, base: int, data: seq<Block>, around: int -> bool)
    requires Inv(file, o) && FromFile(file, base, data) && seqno in o.requests
    requires InBuffer(o, base, |data|) && NoStray(o.requests[seqno], around, base, |data|)
    ensures Received(o, seqno, base, data, around) == Settled(Taken(o, seqno, base, data), seqno)
    ensures Inv(file, Received(o, seqno, base, data, around))
  {
    CopiedIsTaken(o, seqno, around, base, data, |data|);
    assert data[..|data|] == data;
    TakenAccounted(file, o, seqno, base, data);
    SettledAccounted(file, Taken(o, seqno, base, data), seqno);
    SettledNoneIdle(o, seqno, base, data);
  }

  lemma TakenExtends(o: Order, seqno: nat, base: int, data: seq<Block>)
    requires Partitioned(o) && seqno in o.requests
    ensures Extends(o, Settled(Taken(o, seqno, base, data), seqno))
  {
    var o' := Taken(o, seqno, base, data);
    forall q | q in o.buffer ensures q in o'.buffer && o'.buffer[q] == o.buffer[q] {
      if q in Hits(o.requests[seqno], base, |data|) {
        assert OnWire(o, seqno, q);
      }
    }
  }

  lemma ReplySound(file: int -> Block, o: Order, seqno: nat, base: int, data: seq<Block>, around: int -> bool)
    requires Sound(file, o) && FromFile(file, base, data) && seqno in o.requests
    requires InBuffer(o, base, |data|) && NoStray(o.requests[seqno], around, base, |data|)
    ensures Sound(file, Received(o, seqno, base, data, around))
    ensures Extends(o, Received(o, seqno, base, data, around))
  {
    ReplyInv(file, o, seqno, base, data, around);
    TakenExtends(o, seqno, base, data);
    SoundOn(file, o, Taken(o, seqno, base, data), Received(o, seqno, base, data, around), seqno);
  }

  lemma SoundOn(file: int -> Block, o: Order, taken: Order, o': Order, seqno: nat)
    requires Sound(file, o) && seqno in taken.requests && o' == Settled(taken, seqno)
    requires taken.low == o.low && taken.high == o.high && taken.done == o.done && taken.failed == o.failed
    requires Inv(file, o') && Extends(o, o')
    ensures Sound(file, o')
  {
    CountNotNegative(file, o');
    if o'.pageCount == 0 {
      FullBuffer(file, o');
    }
  }

  lemma ErrorSound(file: int -> Block, o: Order)
    requires Sound(file, o)
    ensures Sound(file, o.(done := true, failed := true))
  {
    SameWire(o, o.(done := true, failed := true));
  }

  lemma PauseSound(file: int -> Block, o: Order)
    requires Sound(file, o)
    ensures Sound(file, o.(needsAttention := false))
  {
    SameWire(o, o.(needsAttention := false));
  }

  lemma EventSound(file: int -> Block, o: Order, e: Event)
    requires Sound(file, o) && Legal(file, o, e) && Harmless(o, e)
    ensures Sound(file, Apply(o, e)) && Extends(o, Apply(o, e))
  {
    match e
    case Submit(seqno, blocks) => SubmitInv(file, o, seqno, blocks);
    case SmartRetry(seqno) => RetryInv(file, o, seqno);
    case Pause(_) => PauseSound(file, o);
    case ErrorReply(seqno) => ErrorSound(file, o);
    case Reply(seqno, base, data, around) =>
      if seqno in o.requests && InBuffer(o, base, |data|) {
        ReplySound(file, o, seqno, base, data, around);
      }
  }

  // ---------------------------------------------------------------- whole transfers

  ghost function Run(o: Order, events: seq<Event>): Order
    decreases events
  {
    if events == [] then o else Run(Apply(o, events[0]), events[1..])
  }

  ghost predicate Possible(file: int -> Block, o: Order, events: seq<Event>)
    decreases events
  {
    events == [] ||
    (Legal(file, o, events[0]) && Harmless(o, events[0]) && Possible(file, Apply(o, events[0]), events[1..]))
  }

  /** A transfer stays sound under any losses, repetitions and reorderings of which no reply does harm. */
  lemma {:induction false} TransferSound(file: int -> Block, o: Order, events: seq<Event>)
    requires Sound(file, o) && Possible(file, o, events)
    ensures Sound(file, Run(o, events)) && Extends(o, Run(o, events))
    decreases events
  {
    if events != [] {
      EventSound(file, o, events[0]);
      TransferSound(file, Apply(o, events[0]), events[1..]);
    }
  }

  lemma NotDoneNotComplete(file: int -> Block, o: Order)
    requires Inv(file, o) && 0 < o.pageCount
    ensures !Complete(file, o)
  {
    var all := Interval(o.low, o.high - o.low + 1);
    assert Complete(file, o) ==> o.buffer.Keys == all;
  }
}
