/**
 That a multi-block read does not get stuck: while it is not done it has a request on the wire or is looked at by the
 scheduler, and from wherever losses, repetitions and reorderings have led to it can still be brought to its end.
 */
module BarfAttention {
  import opened BarfProtocol
  import opened BarfSizes

  /** How many blocks a request asks for at most, and how many requests of one order may be on the wire. */
  datatype Limits = Limits(blocks: nat, window: nat) {
    predicate Valid() { 0 < blocks <= MULTIREAD_BLOCK_MAX && 0 < window }
  }

  /** The order is done, on the wire, or looked at. */
  predicate Alive(o: Order) {
    o.done || o.needsAttention || o.requests != map[]
  }

  /** An order is left alone only while its window is full or all its pages were asked for. */
  predicate Attended(l: Limits, o: Order) {
    o.done || o.needsAttention || NothingToDo(o, l.window)
  }

  // ---------------------------------------------------------------- what every event keeps

  /** The scheduler does as it is told by the limits. */
  predicate Scheduled(l: Limits, o: Order, e: Event) {
    match e
    case Submit(_, blocks) =>
      && o.needsAttention && !NothingToDo(o, l.window)
      && blocks == if o.high - o.firstUnrequested + 1 > l.blocks then l.blocks else o.high - o.firstUnrequested + 1
    case Pause(window) => window == l.window && o.needsAttention
    case _ => true
  }

  /** A page that was asked for and is not there is on the wire. */
  lemma WaitsFor(file: int -> Block, o: Order) returns (s: nat, q: int)
    requires Sound(file, o) && !o.done && o.high < o.firstUnrequested
    ensures OnWire(o, s, q)
  {
    var all := Interval(o.low, o.high - o.low + 1);
    assert |o.buffer| == |o.buffer.Keys|;
    if all <= o.buffer.Keys {
      Fewer(all, o.buffer.Keys);
      assert false;
    }
    q :| q in all && q !in o.buffer.Keys;
    s :| OnWire(o, s, q);
  }

  lemma EventAlive(file: int -> Block, l: Limits, o: Order, e: Event)
    requires l.Valid() && Sound(file, o) && Attended(l, o) && Alive(o)
    requires Legal(file, o, e) && Harmless(o, e) && Scheduled(l, o, e)
    ensures Attended(l, Apply(o, e)) && Alive(Apply(o, e))
  {
    match e
    case Submit(seqno, blocks) =>
      assert seqno in Apply(o, e).requests;
    case Reply(seqno, base, data, around) => ReplyAlive(l, o, seqno, base, data, around);
    case SmartRetry(seqno) => RetryAlive(l, o, seqno);
    case ErrorReply(_) =>
    case Pause(_) =>
      if o.high < o.firstUnrequested {
        var s, q := WaitsFor(file, o);
        assert s in o.requests;
      }
  }

  /** Whatever a reply does, and wherever its lookups go. */
  lemma ReplyAlive(l: Limits, o: Order, seqno: nat, base: int, data: seq<Block>, around: int -> bool)
    requires Attended(l, o) && Alive(o)
    ensures var o' := Received(o, seqno, base, data, around); Attended(l, o') && Alive(o')
  {
    if seqno in o.requests && InBuffer(o, base, |data|) {
      CopiedFlags(o, seqno, around, base, data, |data|);
      SettledAlive(l, o, Copied(o, seqno, around, base, data, |data|), seqno);
    }
  }

  lemma SettledAlive(l: Limits, o: Order, c: Order, seqno: nat)
    requires Attended(l, o) && seqno in c.requests && c.requests.Keys == o.requests.Keys && SameFlags(o, c)
    ensures Attended(l, Settled(c, seqno)) && Alive(Settled(c, seqno))
  {
    var o' := Settled(c, seqno);
    assert |c.requests| == |c.requests.Keys| == |o.requests.Keys| == |o.requests|;
    assert c.requests[seqno].pending != 0 ==> seqno in o'.requests;
  }

  predicate SameFlags(o: Order, c: Order) {
    && c.needsAttention == o.needsAttention && c.done == o.done
    && c.high == o.high && c.firstUnrequested == o.firstUnrequested
  }

  lemma {:induction false} CopiedFlags(o: Order, seqno: nat, around: int -> bool, base: int, data: seq<Block>, k: nat)
    requires seqno in o.requests && k <= |data|
    ensures SameFlags(o, Copied(o, seqno, around, base, data, k))
    decreases k
  {
    if 0 < k {
      CopiedFlags(o, seqno, around, base, data, k - 1);
      NextCopied(o, seqno, around, base, data, k - 1);
    }
  }

  lemma RetryAlive(l: Limits, o: Order, seqno: nat)
    requires Attended(l, o) && Alive(o)
    ensures Attended(l, Retried(o, seqno)) && Alive(Retried(o, seqno))
  {
    var o' := Retried(o, seqno);
    assert o'.requests.Keys == o.requests.Keys;
    assert |o'.requests| == |o'.requests.Keys| == |o.requests.Keys| == |o.requests|;
    if o.requests != map[] {
      var s :| s in o.requests;
      assert s in o'.requests;
    }
  }

  // ---------------------------------------------------------------- whole reads

  ghost predicate Carried(file: int -> Block, l: Limits, o: Order, events: seq<Event>)
    decreases events
  {
    events == [] ||
    (var e := events[0];
     Legal(file, o, e) && Harmless(o, e) && Scheduled(l, o, e) && Carried(file, l, Apply(o, e), events[1..]))
  }

  lemma {:induction false} OneMore(file: int -> Block, l: Limits, o: Order, events: seq<Event>, e: Event)
    requires Carried(file, l, o, events) && Legal(file, Run(o, events), e)
    requires Harmless(Run(o, events), e) && Scheduled(l, Run(o, events), e)
    ensures Run(o, events + [e]) == Apply(Run(o, events), e) && Carried(file, l, o, events + [e])
    decreases events
  {
    if events == [] {
      assert [e][1..] == [];
    } else {
      assert (events + [e])[1..] == events[1..] + [e];
      OneMore(file, l, Apply(o, events[0]), events[1..], e);
    }
  }

  /** At no time is a read forgotten. */
  lemma {:induction false} NeverForgotten(file: int -> Block, l: Limits, o: Order, events: seq<Event>)
    requires l.Valid() && Sound(file, o) && Attended(l, o) && Alive(o) && Carried(file, l, o, events)
    ensures Sound(file, Run(o, events)) && Attended(l, Run(o, events)) && Alive(Run(o, events))
    decreases events
  {
    if events != [] {
      EventSound(file, o, events[0]);
      EventAlive(file, l, o, events[0]);
      NeverForgotten(file, l, Apply(o, events[0]), events[1..]);
    }
  }

  /** What is left of a read: pages to deliver, and pages to ask for. */
  function Left(o: Order): int { o.pageCount + (o.high + 1 - o.firstUnrequested) }

  /** Wherever a read has got to, it can be ended: the scheduler's next request, and one page of a reply at a time,
      bring it to its end with every block in place. */
  lemma {:induction false} CanEnd(file: int -> Block, l: Limits, o: Order) returns (events: seq<Event>)
    requires l.Valid() && Sound(file, o) && Attended(l, o) && Alive(o) && !o.failed
    ensures Carried(file, l, o, events)
    ensures Run(o, events).done && !Run(o, events).failed && Complete(file, Run(o, events))
    decreases Left(o)
  {
    if o.done {
      events := [];
    } else {
      var e := NextStep(file, l, o);
      EventSound(file, o, e);
      EventAlive(file, l, o, e);
      CountNotNegative(file, Apply(o, e));
      var rest := CanEnd(file, l, Apply(o, e));
      events := [e] + rest;
      assert events[1..] == rest;
    }
  }

  lemma NextStep(file: int -> Block, l: Limits, o: Order) returns (e: Event)
    requires l.Valid() && Sound(file, o) && Attended(l, o) && Alive(o) && !o.done
    ensures Legal(file, o, e) && Harmless(o, e) && Scheduled(l, o, e) && !Apply(o, e).failed
    ensures Left(Apply(o, e)) < Left(o)
  {
    if o.requests != map[] {
      e := OnePage(file, o);
    } else {
      e := NextRun(file, l, o);
    }
  }

  lemma NextRun(file: int -> Block, l: Limits, o: Order) returns (e: Event)
    requires l.Valid() && Sound(file, o) && o.needsAttention && o.requests == map[] && !o.done
    ensures Legal(file, o, e) && Harmless(o, e) && Scheduled(l, o, e) && !Apply(o, e).failed
    ensures Left(Apply(o, e)) < Left(o)
  {
    if o.high < o.firstUnrequested {
      var s, q := WaitsFor(file, o);
      assert false;
    }
    var left := o.high - o.firstUnrequested + 1;
    e := Submit(0, if left > l.blocks then l.blocks else left);
  }

  /** A reply of one missing page. */
  lemma OnePage(file: int -> Block, o: Order) returns (e: Event)
    requires Sound(file, o) && o.requests != map[]
    ensures e.Reply? && Legal(file, o, e) && Harmless(o, e)
    ensures Left(Apply(o, e)) < Left(o) && Apply(o, e).failed == o.failed
  {
    var s, q := SomeMissing(o);
    var around: int -> bool := _ => false;
    var data := [file(q)];
    OnePageFits(file, o, s, q, around);
    OnePageCounts(file, o, s, q, around, data);
    e := Reply(s, q, data, around);
    ReplyStep(file, o, e);
  }

  lemma SomeMissing(o: Order) returns (s: nat, q: int)
    requires NoneIdle(o) && o.requests != map[]
    ensures OnWire(o, s, q)
  {
    s :| s in o.requests;
    q := Lowest(o.requests[s].missing);
  }

  lemma ReplyStep(file: int -> Block, o: Order, e: Event)
    requires e.Reply? && e.seqno in o.requests && FromFile(file, e.base, e.data)
    requires InBuffer(o, e.base, |e.data|) && NoStray(o.requests[e.seqno], e.around, e.base, |e.data|)
    ensures Legal(file, o, e) && Harmless(o, e)
    ensures Apply(o, e) == Received(o, e.seqno, e.base, e.data, e.around)
  {
  }

  lemma OnePageFits(file: int -> Block, o: Order, s: nat, q: int, around: int -> bool)
    requires Sound(file, o) && OnWire(o, s, q)
    ensures InBuffer(o, q, 1) && NoStray(o.requests[s], around, q, 1)
  {
    assert CountedRequest(o.requests[s]);
  }

  lemma OnePageCounts(file: int -> Block, o: Order, s: nat, q: int, around: int -> bool, data: seq<Block>)
    requires Sound(file, o) && OnWire(o, s, q) && FromFile(file, q, data) && |data| == 1
    requires InBuffer(o, q, 1) && NoStray(o.requests[s], around, q, 1)
    ensures Left(Received(o, s, q, data, around)) == Left(o) - 1 && Received(o, s, q, data, around).failed == o.failed
  {
    ReplyInv(file, o, s, q, data, around);
    OneHit(o.requests[s], q);
    TakenLeft(o, s, q, data);
  }

  lemma OneHit(r: Request, q: int)
    requires q in r.missing
    ensures Hits(r, q, 1) == {q}
  {
  }

  lemma TakenLeft(o: Order, s: nat, base: int, data: seq<Block>)
    requires s in o.requests
    ensures var o' := Settled(Taken(o, s, base, data), s);
            Left(o') == Left(o) - |Hits(o.requests[s], base, |data|)| && o'.failed == o.failed
  {
  }

  /** A read begins like that. */
  lemma StartAttended(file: int -> Block, l: Limits, low: int, blocks: nat, length: int)
    requires l.Valid() && 0 < blocks <= length
    ensures var o := Start(low, blocks, length); Sound(file, o) && Attended(l, o) && Alive(o)
  {
    StartSound(file, low, blocks, length);
  }
}
