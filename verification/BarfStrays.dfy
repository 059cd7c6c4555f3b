/**
 Replies that do harm: a lookup that leaves the request's bit vector and finds a bit set spoils the
 order's books for good, and a reply that does not fit the user's buffer ends it unfinished. All other
 replies are harmless.
 */
module BarfStrays {
  import opened BarfProtocol
  import opened BarfSizes

  /** More pages were counted than delivered. */
  predicate Overcounted(o: Order) { o.pageCount < o.high - o.low + 1 - |o.buffer| }

  /** Books that no later page can put in order: more pages were counted than delivered, or a page was delivered that
      is on the wire in another request or was never asked for. */
  ghost predicate Spoiled(o: Order, seqno: nat) {
    || Overcounted(o)
    || exists q :: Misplaced(o, seqno, q)
  }

  ghost predicate Misplaced(o: Order, seqno: nat, q: int) {
    q in o.buffer && (o.firstUnrequested <= q || exists s :: s != seqno && OnWire(o, s, q))
  }

  lemma SpoiledIsUnsound(file: int -> Block, o: Order, seqno: nat)
    requires Spoiled(o, seqno)
    ensures !Accounted(file, o)
  {
  }

  lemma BufferGrows(m: map<int, Block>, q: int, block: Block)
    ensures |m[q := block]| == if q in m then |m| else |m| + 1
  {
    var m' := m[q := block];
    if q in m {
      assert m'.Keys == m.Keys;
    } else {
      assert m'.Keys == m.Keys + {q};
    }
  }

  lemma LookedStaysSpoiled(o: Order, seqno: nat, around: int -> bool, rel: int, page: int, block: Block)
    requires seqno in o.requests && Spoiled(o, seqno)
    ensures Spoiled(Looked(o, seqno, around, rel, page, block), seqno)
  {
    var o' := Looked(o, seqno, around, rel, page, block);
    if Overcounted(o) {
      BufferGrows(o.buffer, page, block);
    } else {
      var q :| Misplaced(o, seqno, q);
      MisplacedStays(o, o', seqno, q);
    }
  }

  lemma MisplacedStays(o: Order, o': Order, seqno: nat, q: int)
    requires Misplaced(o, seqno, q) && q in o'.buffer && o'.firstUnrequested == o.firstUnrequested
    requires forall s | s in o.requests && s != seqno :: s in o'.requests && o'.requests[s] == o.requests[s]
    ensures Misplaced(o', seqno, q)
  {
    if q < o.firstUnrequested {
      var s :| s != seqno && OnWire(o, s, q);
      assert OnWire(o', s, q);
    }
  }

  predicate Balanced(o: Order) { o.pageCount == o.high - o.low + 1 - |o.buffer| }

  /** The page is delivered, in another request, or not requested yet. */
  ghost predicate Elsewhere(o: Order, seqno: nat, page: int) {
    page in o.buffer || o.firstUnrequested <= page || exists s :: s != seqno && OnWire(o, s, page)
  }

  /** The page of a stray lookup is not one that the request misses. */
  lemma StrayIsElsewhere(file: int -> Block, o: Order, seqno: nat, rel: int, page: int)
    requires Accounted(file, o) && seqno in o.requests && o.low <= page
    requires page == o.requests[seqno].low + rel && !(0 <= rel < PAGES)
    ensures Balanced(o) && Elsewhere(o, seqno, page)
  {
    if page !in o.buffer && page < o.firstUnrequested {
      var s :| OnWire(o, s, page);
      assert s != seqno;
    }
  }

  /** The stray lookup itself. */
  lemma StrayLookupSpoils(o: Order, seqno: nat, around: int -> bool, rel: int, page: int, block: Block)
    requires seqno in o.requests && Balanced(o) && Elsewhere(o, seqno, page)
    requires BitSet(o.requests[seqno], around, rel)
    ensures Spoiled(Looked(o, seqno, around, rel, page, block), seqno)
  {
    var o' := Looked(o, seqno, around, rel, page, block);
    BufferGrows(o.buffer, page, block);
    if page !in o.buffer {
      if page < o.firstUnrequested {
        var s :| s != seqno && OnWire(o, s, page);
        assert OnWire(o', s, page);
      }
      assert Misplaced(o', seqno, page);
    }
  }

  /** Before the first stray lookup the books are in order. */
  lemma FrontAccounted(file: int -> Block, o: Order, seqno: nat, around: int -> bool,
                       base: int, data: seq<Block>, k: nat)
    requires Inv(file, o) && FromFile(file, base, data) && seqno in o.requests && k <= |data|
    requires NoStray(o.requests[seqno], around, base, k)
    ensures Accounted(file, Copied(o, seqno, around, base, data, k))
  {
    CopiedIsTaken(o, seqno, around, base, data, k);
    TakenAccounted(file, o, seqno, base, data[..k]);
  }

  lemma {:induction false} FirstStray(r: Request, around: int -> bool, base: int, n: nat) returns (k: nat)
    requires !NoStray(r, around, base, n)
    ensures k < n && NoStray(r, around, base, k)
    ensures !(0 <= Distance(r, base, k) < PAGES) && BitSet(r, around, Distance(r, base, k))
  {
    if NoStray(r, around, base, n - 1) {
      k := n - 1;
    } else {
      k := FirstStray(r, around, base, n - 1);
    }
  }

  /** Once a page has gone astray, the rest of the reply cannot mend it. */
  lemma {:induction false} StaysSpoiled(o: Order, seqno: nat, around: int -> bool, base: int, data: seq<Block>,
                                        j: nat, k: nat)
    requires seqno in o.requests && j <= k <= |data| && Spoiled(Copied(o, seqno, around, base, data, j), seqno)
    ensures Spoiled(Copied(o, seqno, around, base, data, k), seqno)
    decreases k - j
  {
    if j < k {
      OnePageStaysSpoiled(o, seqno, around, base, data, j);
      StaysSpoiled(o, seqno, around, base, data, j + 1, k);
    }
  }

  lemma OnePageStaysSpoiled(o: Order, seqno: nat, around: int -> bool, base: int, data: seq<Block>, k: nat)
    requires seqno in o.requests && k < |data| && Spoiled(Copied(o, seqno, around, base, data, k), seqno)
    ensures Spoiled(Copied(o, seqno, around, base, data, k + 1), seqno)
  {
    NextCopied(o, seqno, around, base, data, k);
    LookedStaysSpoiled(Copied(o, seqno, around, base, data, k), seqno, around, Distance(o.requests[seqno], base, k),
                       base + k, data[k]);
  }

  /** The bits outside the vector are as they were before the reply when the first stray lookup comes. */
  lemma StillSet(o: Order, seqno: nat, around: int -> bool, base: int, data: seq<Block>, k: nat)
    requires seqno in o.requests && CountedRequest(o.requests[seqno]) && k < |data|
    requires NoStray(o.requests[seqno], around, base, k)
    requires var rel := Distance(o.requests[seqno], base, k);
             !(0 <= rel < PAGES) && BitSet(o.requests[seqno], around, rel)
    ensures var r := Copied(o, seqno, around, base, data, k).requests[seqno];
            r.low == o.requests[seqno].low && BitSet(r, around, Distance(o.requests[seqno], base, k))
  {
    var r := o.requests[seqno];
    CopiedIsTaken(o, seqno, around, base, data, k);
    if Distance(r, base, k) < 0 {
      assert Hits(r, base, k) == {};
    }
  }

  lemma NextIsSpoiled(o: Order, u: Order, seqno: nat, around: int -> bool, base: int, data: seq<Block>, k: nat)
    requires seqno in o.requests && k < |data| && u == Copied(o, seqno, around, base, data, k)
    requires Balanced(u) && Elsewhere(u, seqno, base + k)
    requires BitSet(u.requests[seqno], around, Distance(o.requests[seqno], base, k))
    ensures Spoiled(Copied(o, seqno, around, base, data, k + 1), seqno)
  {
    NextCopied(o, seqno, around, base, data, k);
    StrayLookupSpoils(u, seqno, around, Distance(o.requests[seqno], base, k), base + k, data[k]);
  }

  lemma SomeStraySpoils(file: int -> Block, o: Order, seqno: nat, around: int -> bool, base: int, data: seq<Block>)
    returns (k: nat)
    requires Inv(file, o) && FromFile(file, base, data) && seqno in o.requests && o.low <= base
    requires !NoStray(o.requests[seqno], around, base, |data|)
    ensures k < |data| && Spoiled(Copied(o, seqno, around, base, data, k + 1), seqno)
  {
    k := FirstStray(o.requests[seqno], around, base, |data|);
    StillSet(o, seqno, around, base, data, k);
    var u := Copied(o, seqno, around, base, data, k);
    assert Balanced(u) && Elsewhere(u, seqno, base + k) by {
      FrontAccounted(file, o, seqno, around, base, data, k);
      StrayIsElsewhere(file, u, seqno, Distance(o.requests[seqno], base, k), base + k);
    }
    NextIsSpoiled(o, u, seqno, around, base, data, k);
  }

  lemma SpoiledReplyUnsound(file: int -> Block, o: Order, seqno: nat, around: int -> bool, base: int, data: seq<Block>,
                          k: nat)
    requires seqno in o.requests && InBuffer(o, base, |data|)
    requires k < |data| && Spoiled(Copied(o, seqno, around, base, data, k + 1), seqno)
    ensures !Sound(file, Received(o, seqno, base, data, around))
  {
    StaysSpoiled(o, seqno, around, base, data, k + 1, |data|);
    SettledStaysSpoiled(Copied(o, seqno, around, base, data, |data|), seqno);
    SpoiledIsUnsound(file, Received(o, seqno, base, data, around), seqno);
  }

  lemma StrayReplyUnsound(file: int -> Block, o: Order, seqno: nat, around: int -> bool, base: int, data: seq<Block>)
    requires Inv(file, o) && FromFile(file, base, data) && seqno in o.requests && InBuffer(o, base, |data|)
    requires !NoStray(o.requests[seqno], around, base, |data|)
    ensures !Sound(file, Received(o, seqno, base, data, around))
  {
    var k := SomeStraySpoils(file, o, seqno, around, base, data);
    SpoiledReplyUnsound(file, o, seqno, around, base, data, k);
  }

  lemma MisfitSound(file: int -> Block, o: Order, seqno: nat, base: int, data: seq<Block>, around: int -> bool)
    requires Sound(file, o) && seqno in o.requests && !InBuffer(o, base, |data|)
    ensures Sound(file, Received(o, seqno, base, data, around)) <==> o.done
  {
    if o.done {
      assert Received(o, seqno, base, data, around) == o;
    } else {
      NotDoneNotComplete(file, o);
    }
  }

  /** A reply leaves a sound order sound if and only if it is harmless. */
  lemma ReplySoundIff(file: int -> Block, o: Order, seqno: nat, base: int, data: seq<Block>, around: int -> bool)
    requires Sound(file, o) && FromFile(file, base, data)
    ensures Sound(file, Received(o, seqno, base, data, around)) <==> Harmless(o, Reply(seqno, base, data, around))
  {
    if seqno in o.requests {
      if !InBuffer(o, base, |data|) {
        MisfitSound(file, o, seqno, base, data, around);
      } else if NoStray(o.requests[seqno], around, base, |data|) {
        assert Sound(file, Received(o, seqno, base, data, around)) by {
          ReplySound(file, o, seqno, base, data, around);
        }
      } else {
        StrayReplyUnsound(file, o, seqno, around, base, data);
      }
    }
  }

  lemma SettledStaysSpoiled(o: Order, seqno: nat)
    requires seqno in o.requests && Spoiled(o, seqno)
    ensures Spoiled(Settled(o, seqno), seqno)
  {
    if !Overcounted(o) {
      var q :| Misplaced(o, seqno, q);
      MisplacedStays(o, Settled(o, seqno), seqno, q);
    }
  }

  /** After a reply to an order that is not done, its books and an error-free Done can be relied on if and only if the
      reply fits the user's buffer and no lookup goes astray. One that does not fit ends the order unfinished. */
  lemma DoneIsCompleteIff(file: int -> Block, o: Order, seqno: nat, base: int, data: seq<Block>, around: int -> bool)
    requires Sound(file, o) && !o.done && FromFile(file, base, data) && seqno in o.requests
    ensures var o' := Received(o, seqno, base, data, around);
            && (Sound(file, o') <==>
                  InBuffer(o, base, |data|) && NoStray(o.requests[seqno], around, base, |data|))
            && (!InBuffer(o, base, |data|) ==> o'.done && !o'.failed && !Complete(file, o'))
  {
    ReplySoundIff(file, o, seqno, base, data, around);
    if !InBuffer(o, base, |data|) {
      NotDoneNotComplete(file, o);
    }
  }

  // ---------------------------------------------------------------- which lookups are safe for any request

  lemma {:induction false} PowerBit(b: nat)
    ensures Bit(Power(b), b)
  {
    if b > 0 {
      PowerBit(b - 1);
      assert Power(b) / 2 == Power(b - 1);
    }
  }

  lemma {:induction false} SmallHasNoBit(n: nat, b: nat)
    requires n < Power(b)
    ensures !Bit(n, b)
  {
    if b > 0 {
      SmallHasNoBit(n / 2, b - 1);
    }
  }


  /** A request as it may be on the wire: of no more pages than are asked for at once, from a block number that is an
      int32 and not negative. */
  ghost predicate OnTheWire(r: Request, limit: nat) {
    CountedRequest(r) && 0 < r.pending <= limit && 0 <= r.low < UINT32 / 2
  }

  /** A reply of n pages, d pages on from the request's first page, has no lookup go astray. */
  predicate Survives(r: Request, around: int -> bool, d: int, n: nat) {
    NoStray(r, around, r.low + d, n)
  }

  ghost predicate SafeFor(limit: nat, d: int, n: nat) {
    forall r, around | OnTheWire(r, limit) :: Survives(r, around, d, n)
  }

  /** The bits in front of the vector that no request has set: those of the count of pending pages above its limit, and
      the sign of the first page's number. */
  predicate AlwaysClear(limit: nat, rel: int) {
    (-WORD <= rel < 0 && limit < Power(-1 - rel)) || rel == -2 * WORD
  }

  predicate NeverAstray(limit: nat, rel: int) { 0 <= rel < PAGES || AlwaysClear(limit, rel) }

  /** A reply of n pages, d pages on from a request's first page, is safe for every request of at most `limit` pages and
      whatever the memory around holds if and only if each page is looked up in the vector or in a bit that is always
      clear. */
  lemma WithinVectorIff(limit: nat, d: int, n: nat)
    requires 0 < limit <= MULTIREAD_BLOCK_MAX
    ensures SafeFor(limit, d, n) <==> forall rel | d <= rel < d + n :: NeverAstray(limit, rel)
  {
    if forall rel | d <= rel < d + n :: NeverAstray(limit, rel) {
      forall r, around | OnTheWire(r, limit) ensures Survives(r, around, d, n) {
        NoneAstray(limit, d, n, r, around);
      }
    } else {
      var rel :| d <= rel < d + n && !NeverAstray(limit, rel);
      var r, around := AstrayAt(limit, rel);
      assert Distance(r, r.low + d, rel - d) == rel;
      assert !Survives(r, around, d, n);
    }
  }

  lemma NoneAstray(limit: nat, d: int, n: nat, r: Request, around: int -> bool)
    requires OnTheWire(r, limit) && forall rel | d <= rel < d + n :: NeverAstray(limit, rel)
    ensures Survives(r, around, d, n)
  {
    var base := r.low + d;
    forall k | 0 <= k < n ensures 0 <= Distance(r, base, k) < PAGES || !BitSet(r, around, Distance(r, base, k)) {
      assert Distance(r, base, k) == d + k && NeverAstray(limit, d + k);
      if AlwaysClear(limit, d + k) {
        ClearBit(limit, r, around, d + k);
      }
    }
  }

  lemma Powers()
    ensures Power(7) == 128 && Power(8) == 256 && Power(31) == UINT32 / 2
  {
    assert Power(12) == 0x1000 && Power(16) == 0x1_0000;
    assert Power(20) == 0x10_0000 && Power(24) == 0x100_0000 && Power(28) == 0x1000_0000;
  }

  lemma ClearBit(limit: nat, r: Request, around: int -> bool, rel: int)
    requires OnTheWire(r, limit) && AlwaysClear(limit, rel)
    ensures !BitSet(r, around, rel)
  {
    if rel == -2 * WORD {
      Powers();
      SmallHasNoBit(r.low, 31);
    } else {
      SmallHasNoBit(r.pending, -1 - rel);
    }
  }

  lemma AstrayAt(limit: nat, rel: int) returns (r: Request, around: int -> bool)
    requires 0 < limit <= MULTIREAD_BLOCK_MAX && !(0 <= rel < PAGES) && !AlwaysClear(limit, rel)
    ensures OnTheWire(r, limit) && BitSet(r, around, rel)
  {
    around := _ => true;
    r := Request(0, Interval(0, 1), 1);
    if -WORD <= rel < 0 {
      var pages := Power(-1 - rel);
      PowerBit(-1 - rel);
      r := Request(0, Interval(0, pages), pages);
    } else if -2 * WORD <= rel < -WORD {
      var low := Power(-1 - WORD - rel);
      PowerBit(-1 - WORD - rel);
      SmallPower(-1 - WORD - rel);
      r := Request(low, Interval(low, 1), 1);
    }
  }

  lemma SmallPower(b: nat)
    requires b < 31
    ensures Power(b) < UINT32 / 2
  {
    Powers();
    PowerAscends(b, 31);
  }

  lemma {:induction false} PowerAscends(a: nat, b: nat)
    requires a < b
    ensures Power(a) < Power(b)
  {
    if a < b - 1 {
      PowerAscends(a, b - 1);
    }
  }

  /** Of the largest requests, replies of one page are safe from 9 to 32 pages below the first page. */
  lemma FarBelowIsSafe(d: int)
    ensures SafeFor(MULTIREAD_BLOCK_MAX, d, 1) <==> 0 <= d < PAGES || -WORD <= d < -8 || d == -2 * WORD
  {
    WithinVectorIff(MULTIREAD_BLOCK_MAX, d, 1);
    assert SafeFor(MULTIREAD_BLOCK_MAX, d, 1) <==> NeverAstray(MULTIREAD_BLOCK_MAX, d);
    Powers();
    if -WORD <= d < -9 {
      PowerAscends(8, -1 - d);
    } else if -8 < d < 0 {
      PowerAscends(-1 - d, 7);
    }
  }

  // ---------------------------------------------------------------- what becomes of the read

  lemma {:induction false} CopiedOvercounted(o: Order, seqno: nat, around: int -> bool, base: int, data: seq<Block>,
                                             j: nat, k: nat)
    requires seqno in o.requests && j <= k <= |data| && Overcounted(Copied(o, seqno, around, base, data, j))
    ensures Overcounted(Copied(o, seqno, around, base, data, k))
    decreases k - j
  {
    if j < k {
      NextCopied(o, seqno, around, base, data, j);
      BufferGrows(Copied(o, seqno, around, base, data, j).buffer, base + j, data[j]);
      CopiedOvercounted(o, seqno, around, base, data, j + 1, k);
    }
  }

  lemma OvercountedOn(o: Order, e: Event)
    requires Overcounted(o)
    ensures Overcounted(Apply(o, e))
  {
    if e.Reply? && e.seqno in o.requests && InBuffer(o, e.base, |e.data|) {
      CopiedOvercounted(o, e.seqno, e.around, e.base, e.data, 0, |e.data|);
    }
  }

  /** Whatever happens next: when the count has come down to nothing, and the read is done, it is incomplete. */
  lemma {:induction false} OvercountedIncomplete(file: int -> Block, o: Order, events: seq<Event>)
    requires Overcounted(o)
    ensures Overcounted(Run(o, events)) && (0 <= Run(o, events).pageCount ==> !Complete(file, Run(o, events)))
    decreases events
  {
    if events == [] {
      assert Complete(file, o) ==> Interval(o.low, Pages(o)) <= o.buffer.Keys;
      if Interval(o.low, Pages(o)) <= o.buffer.Keys {
        Fewer(Interval(o.low, Pages(o)), o.buffer.Keys);
      }
    } else {
      OvercountedOn(o, events[0]);
      OvercountedIncomplete(file, Apply(o, events[0]), events[1..]);
    }
  }

  function Pages(o: Order): nat { if o.low <= o.high then o.high - o.low + 1 else 0 }

  /** A stray lookup of a page that had been delivered counts it twice. */
  lemma StrayRepeat(file: int -> Block, o: Order, seqno: nat, around: int -> bool, base: int, data: seq<Block>)
    requires Inv(file, o) && FromFile(file, base, data) && seqno in o.requests && InBuffer(o, base, |data|)
    requires !NoStray(o.requests[seqno], around, base, |data|)
    requires forall q | base <= q < base + |data| :: q in o.buffer
    ensures Overcounted(Received(o, seqno, base, data, around))
  {
    var k := SomeStrayCountsTwice(file, o, seqno, around, base, data);
    CopiedOvercounted(o, seqno, around, base, data, k + 1, |data|);
  }

  lemma SomeStrayCountsTwice(file: int -> Block, o: Order, seqno: nat, around: int -> bool, base: int,
                             data: seq<Block>)
    returns (k: nat)
    requires Inv(file, o) && FromFile(file, base, data) && seqno in o.requests && o.low <= base
    requires !NoStray(o.requests[seqno], around, base, |data|)
    requires forall q | base <= q < base + |data| :: q in o.buffer
    ensures k < |data| && Overcounted(Copied(o, seqno, around, base, data, k + 1))
  {
    k := FirstStray(o.requests[seqno], around, base, |data|);
    StillSet(o, seqno, around, base, data, k);
    assert Balanced(Copied(o, seqno, around, base, data, k)) by {
      FrontAccounted(file, o, seqno, around, base, data, k);
    }
    CopiedKeeps(o, seqno, around, base, data, k);
    NextIsOvercounted(o, Copied(o, seqno, around, base, data, k), seqno, around, base, data, k);
  }

  lemma NextIsOvercounted(o: Order, u: Order, seqno: nat, around: int -> bool, base: int, data: seq<Block>, k: nat)
    requires seqno in o.requests && k < |data| && u == Copied(o, seqno, around, base, data, k)
    requires Balanced(u) && base + k in u.buffer
    requires BitSet(u.requests[seqno], around, Distance(o.requests[seqno], base, k))
    ensures Overcounted(Copied(o, seqno, around, base, data, k + 1))
  {
    NextCopied(o, seqno, around, base, data, k);
    BufferGrows(u.buffer, base + k, data[k]);
  }

  lemma {:induction false} CopiedKeeps(o: Order, seqno: nat, around: int -> bool, base: int, data: seq<Block>, k: nat)
    requires seqno in o.requests && k <= |data|
    ensures o.buffer.Keys <= Copied(o, seqno, around, base, data, k).buffer.Keys
  {
    if k > 0 {
      CopiedKeeps(o, seqno, around, base, data, k - 1);
      NextCopied(o, seqno, around, base, data, k - 1);
    }
  }

  /** A repeated reply that goes astray costs the read its end: whatever arrives afterwards, in any order, a Done
      without an error that comes from the count is false. */
  lemma RepeatCostsTheRead(file: int -> Block, o: Order, seqno: nat, around: int -> bool, base: int, data: seq<Block>,
                           events: seq<Event>)
    requires Inv(file, o) && FromFile(file, base, data) && seqno in o.requests && InBuffer(o, base, |data|)
    requires !NoStray(o.requests[seqno], around, base, |data|)
    requires forall q | base <= q < base + |data| :: q in o.buffer
    ensures var o' := Run(Received(o, seqno, base, data, around), events);
            0 <= o'.pageCount ==> !Complete(file, o')
  {
    StrayRepeat(file, o, seqno, around, base, data);
    OvercountedIncomplete(file, Received(o, seqno, base, data, around), events);
  }

  // ---------------------------------------------------------------- runs that go wrong

  /** Pages low .. low + n - 1 were asked for, low + 1 .. low + n are answered: the read is reported done without an
      error although nothing was delivered. */
  lemma DoneYetEmpty(file: int -> Block, low: int, n: nat, data: seq<Block>, around: int -> bool)
    requires 0 < n == |data| && n <= MULTIREAD_BLOCK_MAX && FromFile(file, low + 1, data)
    ensures var o := Submitted(Start(low, n, n), 0, n);
            && Legal(file, Start(low, n, n), Submit(0, n)) && Legal(file, o, Reply(0, low + 1, data, around))
            && var o' := Received(o, 0, low + 1, data, around);
               o'.done && !o'.failed && o'.buffer == map[] && 0 < o'.pageCount
  {
  }

  /** Two pages were asked for and the first one was delivered; the request starts at `from`. */
  function FirstOfTwo(low: int, from: int, first: Block): Order {
    Order(low, low + 1, 2, 1, low + 2, map[0 := Request(from, {low + 1}, 1)], map[low := first], false, false, false)
  }

  /** The reply of the first page leads there. */
  lemma FirstPageDelivered(low: int, first: Block, around: int -> bool)
    ensures var o := Submitted(Start(low, 2, 2), 0, 2);
            && Received(o, 0, low, [first], around) == FirstOfTwo(low, low, first)
            && Harmless(o, Reply(0, low, [first], around))
  {
    var o := Submitted(Start(low, 2, 2), 0, 2);
    var r := o.requests[0];
    assert r.missing == {low, low + 1};
    assert r.missing - {low} == {low + 1};
    assert Distance(r, low, 0) == 0;
    assert Copied(o, 0, around, low, [first], 0) == o;
    var o1 := Looked(o, 0, around, 0, low, first);
    assert Copied(o, 0, around, low, [first], 1) == o1;
    assert o1.requests == FirstOfTwo(low, low, first).requests;
  }

  /** The smart retry then re-bases the request at the second page. */
  lemma SecondPageRetried(low: int, first: Block)
    ensures Retried(FirstOfTwo(low, low, first), 0) == FirstOfTwo(low, low + 1, first)
  {
    var o := FirstOfTwo(low, low, first);
    var missing := o.requests[0].missing;
    assert Smallest(missing, Lowest(missing));
    assert Retried(o, 0).requests == FirstOfTwo(low, low + 1, first).requests;
  }

  /** A repeat of the first reply is now looked up in the pending count, which is 1, and taken for a missing page. */
  lemma RepeatEndsRead(low: int, first: Block, around: int -> bool)
    ensures var o' := Received(FirstOfTwo(low, low + 1, first), 0, low, [first], around);
            && o'.done && !o'.failed && low + 1 !in o'.buffer && o'.pageCount == 0
            && 0 in o'.requests && o'.requests[0] == Request(low + 1, {low + 1}, UINT32 - 1)
  {
    var o := FirstOfTwo(low, low + 1, first);
    var r := o.requests[0];
    assert Bit(1, 0);
    assert BitSet(r, around, -1) && Cleared(r, -1) == r.(pending := 0);
    assert Copied(o, 0, around, low, [first], 0) == o;
    var o1 := Looked(o, 0, around, -1, low, first);
    assert Copied(o, 0, around, low, [first], 1) == o1;
  }

  lemma TwoAskedSound(file: int -> Block, low: int)
    ensures Sound(file, Submitted(Start(low, 2, 2), 0, 2))
  {
    StartSound(file, low, 2, 2);
    SubmitInv(file, Start(low, 2, 2), 0, 2);
  }

  /** The whole run: a read of two pages is reported done without an error although its second page never came,
      after a repeated reply, with nothing amiss before it. */
  lemma RepeatedReplyEndsRead(file: int -> Block, low: int, around: int -> bool)
    ensures var o := Submitted(Start(low, 2, 2), 0, 2);
            var first := Reply(0, low, [file(low)], around);
            && Sound(file, o) && Possible(file, o, [first, SmartRetry(0)])
            && Legal(file, Run(o, [first, SmartRetry(0)]), first)
            && var o' := Run(o, [first, SmartRetry(0), first]);
               o'.done && !o'.failed && low + 1 !in o'.buffer
  {
    var o := Submitted(Start(low, 2, 2), 0, 2);
    var first := Reply(0, low, [file(low)], around);
    TwoAskedSound(file, low);
    FirstPageDelivered(low, file(low), around);
    SecondPageRetried(low, file(low));
    RepeatEndsRead(low, file(low), around);
    ThreeEvents(o, first, SmartRetry(0), first);
    TwoPossible(file, o, first, SmartRetry(0));
  }

  lemma ThreeEvents(o: Order, a: Event, b: Event, c: Event)
    ensures Run(o, [a, b, c]) == Apply(Apply(Apply(o, a), b), c)
  {
    assert [a, b, c][1..] == [b, c] && [b, c][1..] == [c] && [c][1..] == [];
    assert Run(Apply(Apply(Apply(o, a), b), c), []) == Apply(Apply(Apply(o, a), b), c);
    assert Run(Apply(Apply(o, a), b), [c]) == Apply(Apply(Apply(o, a), b), c);
    assert Run(Apply(o, a), [b, c]) == Apply(Apply(Apply(o, a), b), c);
  }

  lemma TwoPossible(file: int -> Block, o: Order, a: Event, b: Event)
    requires Legal(file, o, a) && Harmless(o, a) && Legal(file, Apply(o, a), b) && Harmless(Apply(o, a), b)
    ensures Possible(file, o, [a, b])
  {
    assert [a, b][1..] == [b] && [b][1..] == [];
    assert Possible(file, Apply(o, a), [b]);
  }
}
