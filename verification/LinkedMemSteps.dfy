/** Every activation of the state machine, with its transfer, keeps the invariant. */
module LinkedMemSteps {
  import opened LinkedMem
  import opened LinkedMemInvariant

  // ---------------------------------------------------------------- geometry of the block list

  lemma LargestBelow(s: set<int>, c: int) returns (p: int)
    requires exists b :: b in s && b < c
    ensures p in s && p < c && forall b | b in s && b < c :: b <= p
    decreases |s|
  {
    p :| p in s && p < c;
    var rest := set b | b in s && p < b;
    assert forall b | b in s && b < c :: b <= p || b in rest;
    if exists b :: b in rest && b < c {
      SmallerSet(rest, s);
      p := LargestBelow(rest, c);
    }
  }

  lemma SmallerSet(a: set<int>, b: set<int>)
    requires a < b
    ensures |a| < |b|
  {
    assert b == a + (b - a);
    assert b - a != {};
  }

  /** Every linked block but the anchor ends another one. */
  lemma Predecessor(v: Volume, m: Medium, s: set<int>, c: int) returns (p: int)
    requires v.Valid() && Tiled(v, m, s) && c in s && c != v.root
    ensures p in s && p < c && Next(m, p) == c
  {
    p := LargestBelow(s, c);
    assert Next(m, p) in s;
  }

  /** The medium m' is m with the header of the linked block c replaced by h. */
  ghost predicate Rewritten(m: Medium, m': Medium, s: set<int>, c: int, h: Header) {
    && c in m'.headers && H(m', c) == h
    && forall b | b in s && b != c :: b in m'.headers && H(m', b) == H(m, b)
  }

  lemma WriteLinked(v: Volume, m: Medium, s: set<int>, c: int, h: Header)
    requires v.Valid() && Tiled(v, m, s) && Sized(v, m, s) && c in s
    ensures var m' := WriteHeader(v, m, c, h);
            && Rewritten(m, m', s, c, h)
            && (forall k | k in m.headers && !(c <= k < c + HeaderSpan(v, c)) ::
                  k in m'.headers && H(m', k) == H(m, k))
            && (forall j | !(c <= j < c + HeaderSpan(v, c)) :: m'.data(j) == m.data(j))
  {
  }

  // Absorbing: the block c is stretched over the linked blocks behind it.

  ghost function LeavingOut(s: set<int>, c: int, end: int): set<int> {
    set b | b in s && !(c < b < end)
  }

  ghost predicate Stretch(v: Volume, m: Medium, m': Medium, s: set<int>, c: int, h: Header) {
    && c in s && Rewritten(m, m', s, c, h)
    && H(m, c).blockCount <= h.blockCount && c + h.blockCount <= v.limit
    && h.flink == Wrap(v, c + h.blockCount) && h.flink in s
    && forall b | b in s && c < b < c + h.blockCount ::
         H(m, b).IsFree() && b + H(m, b).blockCount <= c + h.blockCount
  }

  lemma StretchTiled(v: Volume, m: Medium, m': Medium, s: set<int>, c: int, h: Header)
    requires v.Valid() && Tiled(v, m, s) && Stretch(v, m, m', s, c, h)
    ensures Tiled(v, m', LeavingOut(s, c, c + h.blockCount))
  {
    var s' := LeavingOut(s, c, c + h.blockCount);
    forall b {:trigger Next(m', b)} | b in s' ensures Next(m', b) in s' {
      assert Next(m, b) in s;
    }
  }

  lemma StretchBackLinked(v: Volume, m: Medium, m': Medium, s: set<int>, c: int, h: Header, stale: int)
    requires v.Valid() && Tiled(v, m, s) && Stretch(v, m, m', s, c, h)
    requires BackLinked(m, s, stale) && (stale == NONE || stale == h.flink) && h.blink == H(m, c).blink
    ensures BackLinked(m', LeavingOut(s, c, c + h.blockCount), h.flink)
  {
    forall b {:trigger Next(m', b)} | b in LeavingOut(s, c, c + h.blockCount) && Next(m', b) != h.flink
      ensures H(m', Next(m', b)).blink == b
    {
      assert Next(m, b) in s;
    }
  }

  lemma StretchSized(v: Volume, m: Medium, m': Medium, s: set<int>, c: int, h: Header)
    requires v.Valid() && Tiled(v, m, s) && Sized(v, m, s) && Stretch(v, m, m', s, c, h)
    requires h == H(m, c).(blockCount := h.blockCount, flink := h.flink)
    ensures Sized(v, m', LeavingOut(s, c, c + h.blockCount))
  {
  }

  /** A stretched file block ends up before a block in use; a stretched free block also behind one. */
  ghost predicate Surrounded(m: Medium, s: set<int>, c: int, h: Header) {
    && h.IsFree() == H(m, c).IsFree() && !H(m, h.flink).IsFree()
    && (h.IsFree() ==> forall p | p in s && H(m, p).flink == c :: !H(m, p).IsFree())
  }

  lemma StretchCoalesced(v: Volume, m: Medium, m': Medium, s: set<int>, c: int, h: Header, dirty: int)
    requires v.Valid() && Tiled(v, m, s) && Stretch(v, m, m', s, c, h) && Surrounded(m, s, c, h)
    requires Coalesced(m, s, dirty) && (dirty == NONE || c <= dirty < c + h.blockCount)
    ensures Coalesced(m', LeavingOut(s, c, c + h.blockCount), NONE)
  {
    forall b {:trigger Next(m', b)} | b in LeavingOut(s, c, c + h.blockCount)
      ensures !(H(m', b).IsFree() && H(m', Next(m', b)).IsFree())
    {
      StretchCoalescedAt(v, m, m', s, c, h, dirty, b);
    }
  }

  lemma StretchCoalescedAt(v: Volume, m: Medium, m': Medium, s: set<int>, c: int, h: Header, dirty: int, b: int)
    requires v.Valid() && Tiled(v, m, s) && Stretch(v, m, m', s, c, h) && Surrounded(m, s, c, h)
    requires Coalesced(m, s, dirty) && (dirty == NONE || c <= dirty < c + h.blockCount)
    requires b in LeavingOut(s, c, c + h.blockCount)
    ensures !(H(m', b).IsFree() && H(m', Next(m', b)).IsFree())
  {
    if b == c {
      assert Next(m', b) == h.flink;
      assert h.flink != c ==> H(m', h.flink) == H(m, h.flink);
    } else {
      var n := Next(m, b);
      assert Next(m', b) == n && n in s;
      assert n == c || H(m', n) == H(m, n);
      assert b < c + h.blockCount ==> b < c;
      assert n != dirty || n == c;
    }
  }

  lemma StretchKept(v: Volume, g: Ghost, m: Medium, m': Medium, c: int, h: Header, ex: int)
    requires v.Valid() && Tiled(v, m, g.s) && Stretch(v, m, m', g.s, c, h)
    requires Tiled(v, g.m0, g.s0) && Sized(v, g.m0, g.s0)
    requires Kept(v, g.m0, g.s0, m, g.s, ex) && (c in g.s0 && !H(g.m0, c).IsFree() ==> c == ex)
    requires forall j | !(c <= j < c + HeaderSpan(v, c)) :: m'.data(j) == m.data(j)
    ensures Kept(v, g.m0, g.s0, m', LeavingOut(g.s, c, c + h.blockCount), ex)
  {
    forall b | b in g.s0 && b != ex && !H(g.m0, b).IsFree()
      ensures SameCells(v, g.m0, m', b)
    {
    }
  }

  // Relabelling: the header of the linked block c changes, but neither its size nor its forward link.

  ghost predicate Relabel(m: Medium, m': Medium, s: set<int>, c: int, h: Header) {
    c in s && Rewritten(m, m', s, c, h) && h.blockCount == H(m, c).blockCount && h.flink == H(m, c).flink
  }

  lemma RelabelTiled(v: Volume, m: Medium, m': Medium, s: set<int>, c: int, h: Header)
    requires v.Valid() && Tiled(v, m, s) && Relabel(m, m', s, c, h)
    ensures Tiled(v, m', s)
    ensures forall b {:trigger Next(m', b)} | b in s :: Next(m', b) == Next(m, b)
  {
    forall b {:trigger Next(m', b)} | b in s ensures Next(m', b) == Next(m, b) && Next(m', b) in s {
      assert Next(m, b) in s;
    }
  }

  /** How the only stale back link and the only place to merge at may move. */
  ghost predicate Relinks(m: Medium, s: set<int>, c: int, h: Header, stale: int, stale': int) {
    || (h.blink == H(m, c).blink && (stale' == stale || stale == NONE))
    || (stale == c && stale' == NONE && h.blink in s && Next(m, h.blink) == c)
    || (stale == NONE && stale' == c)
  }

  ghost predicate Remerges(m: Medium, c: int, h: Header, dirty: int, dirty': int) {
    (h.IsFree() ==> H(m, c).IsFree() || dirty' == c) && (dirty' == dirty || (dirty == NONE && dirty' == c))
  }

  /** The back link of c is left alone, or set to the block that c follows. */
  lemma RelabelBackLinked(v: Volume, m: Medium, m': Medium, s: set<int>, c: int, h: Header, stale: int, stale': int)
    requires v.Valid() && Tiled(v, m, s) && Relabel(m, m', s, c, h) && BackLinked(m, s, stale)
    requires Relinks(m, s, c, h, stale, stale')
    ensures BackLinked(m', s, stale')
  {
    RelabelTiled(v, m, m', s, c, h);
    forall b {:trigger Next(m', b)} | b in s && Next(m', b) != stale' ensures H(m', Next(m', b)).blink == b {
      assert Next(m, b) == Next(m', b) && Next(m, b) in s;
      if Next(m, b) == c && stale == c {
        SamePredecessor(v, m, s, b, h.blink);
      }
    }
  }

  lemma SamePredecessor(v: Volume, m: Medium, s: set<int>, p: int, q: int)
    requires v.Valid() && Tiled(v, m, s) && p in s && q in s && Next(m, p) == Next(m, q)
    ensures p == q
  {
  }

  /** A block that becomes used keeps the list coalesced; one that becomes free is the place to merge at. */
  lemma RelabelCoalesced(v: Volume, m: Medium, m': Medium, s: set<int>, c: int, h: Header, dirty: int, dirty': int)
    requires v.Valid() && Tiled(v, m, s) && Relabel(m, m', s, c, h) && Coalesced(m, s, dirty)
    requires Remerges(m, c, h, dirty, dirty')
    ensures Coalesced(m', s, dirty')
  {
    RelabelTiled(v, m, m', s, c, h);
    forall b {:trigger Next(m', b)} | b in s && H(m', b).IsFree() && H(m', Next(m', b)).IsFree()
      ensures b == dirty' || Next(m', b) == dirty'
    {
      assert Next(m, b) == Next(m', b) && Next(m, b) in s;
    }
  }

  lemma RelabelKept(v: Volume, g: Ghost, m: Medium, m': Medium, c: int, h: Header, ex: int)
    requires v.Valid() && Tiled(v, m, g.s) && Sized(v, m, g.s) && Relabel(m, m', g.s, c, h)
    requires Tiled(v, g.m0, g.s0) && Sized(v, g.m0, g.s0)
    requires Kept(v, g.m0, g.s0, m, g.s, ex)
    requires c in g.s0 && !H(g.m0, c).IsFree() && c != ex ==> SameButBlink(H(m, c), h)
    requires forall j | !(c <= j < c + HeaderSpan(v, c)) :: m'.data(j) == m.data(j)
    ensures Kept(v, g.m0, g.s0, m', g.s, ex)
  {
    forall b | b in g.s0 && b != ex && !H(g.m0, b).IsFree()
      ensures SameCells(v, g.m0, m', b)
    {
      KeptCellsApart(v, g, m, c, b, ex);
    }
  }

  /** A header written at the linked block c covers no content cell of a kept block. */
  lemma KeptCellsApart(v: Volume, g: Ghost, m: Medium, c: int, b: int, ex: int)
    requires v.Valid() && Tiled(v, m, g.s) && Sized(v, m, g.s)
    requires Tiled(v, g.m0, g.s0) && Kept(v, g.m0, g.s0, m, g.s, ex) && c in g.s
    requires b in g.s0 && b != ex && !H(g.m0, b).IsFree()
    ensures c + HeaderSpan(v, c) <= b + v.fileHeaderBlocks || b + H(g.m0, b).blockCount <= c
  {
    assert b in g.s && H(m, b).blockCount == H(g.m0, b).blockCount;
    assert c + HeaderSpan(v, c) <= c + H(m, c).blockCount;
  }

  lemma RelabelBased(v: Volume, g: Ghost, m: Medium, m': Medium, c: int, h: Header, stale: int, stale': int,
                     dirty: int, dirty': int, ex: int)
    requires v.Valid() && Based(v, g, m, stale, dirty, ex) && Relabel(m, m', g.s, c, h) && Fits(v, c, h)
    requires Relinks(m, g.s, c, h, stale, stale') && Remerges(m, c, h, dirty, dirty')
    requires c in g.s0 && !H(g.m0, c).IsFree() && c != ex ==> SameButBlink(H(m, c), h)
    requires h.IsFile() ==> c == g.taken || H(m, c).IsFile()
    requires forall j | !(c <= j < c + HeaderSpan(v, c)) :: m'.data(j) == m.data(j)
    ensures Based(v, g, m', stale', dirty', ex)
  {
    RelabelTiled(v, m, m', g.s, c, h);
    RelabelBackLinked(v, m, m', g.s, c, h, stale, stale');
    RelabelCoalesced(v, m, m', g.s, c, h, dirty, dirty');
    RelabelKept(v, g, m, m', c, h, ex);
  }

  // Splitting: the block x is cut off at c, where the header of a new block already stands.

  /** A header written inside the linked block x, behind its own header, is not linked yet. */
  lemma WriteInside(v: Volume, m: Medium, s: set<int>, x: int, c: int, h: Header)
    requires v.Valid() && Tiled(v, m, s) && Sized(v, m, s) && x in s
    requires x < c && c + v.fileHeaderBlocks <= x + H(m, x).blockCount
    ensures var m' := WriteHeader(v, m, c, h);
            && c in m'.headers && H(m', c) == h && c !in s
            && (forall b | b in s :: b in m'.headers && H(m', b) == H(m, b))
            && (forall j | !(c <= j < c + v.fileHeaderBlocks) :: m'.data(j) == m.data(j))
  {
  }

  ghost predicate Split(m: Medium, m': Medium, s: set<int>, x: int, h: Header, c: int) {
    && x in s && c !in s && Rewritten(m, m', s, x, h)
    && c == x + h.blockCount && 0 < h.blockCount < H(m, x).blockCount && h.flink == c
    && c in m'.headers && H(m', c).IsFree() && H(m', c).blink == x
    && H(m', c).blockCount == H(m, x).blockCount - h.blockCount && H(m', c).flink == H(m, x).flink
  }

  lemma SplitTiled(v: Volume, m: Medium, m': Medium, s: set<int>, x: int, h: Header, c: int)
    requires v.Valid() && Tiled(v, m, s) && Split(m, m', s, x, h, c)
    ensures Tiled(v, m', s + {c})
  {
    assert Next(m, x) in s;
    forall b {:trigger Next(m', b)} | b in s + {c} ensures Next(m', b) in s + {c} {
      assert b != c ==> Next(m, b) in s;
    }
  }

  lemma SplitBackLinked(v: Volume, m: Medium, m': Medium, s: set<int>, x: int, h: Header, c: int, stale: int)
    requires v.Valid() && Tiled(v, m, s) && Split(m, m', s, x, h, c)
    requires BackLinked(m, s, stale) && stale == H(m, x).flink && h.blink == H(m, x).blink
    ensures BackLinked(m', s + {c}, stale)
  {
    forall b {:trigger Next(m', b)} | b in s + {c} && Next(m', b) != stale ensures H(m', Next(m', b)).blink == b {
      if b != x && b != c {
        assert Next(m, b) == Next(m', b) && Next(m, b) in s;
      }
    }
  }

  lemma SplitCoalesced(v: Volume, m: Medium, m': Medium, s: set<int>, x: int, h: Header, c: int, dirty: int)
    requires v.Valid() && Tiled(v, m, s) && Split(m, m', s, x, h, c) && Coalesced(m, s, dirty)
    requires !h.IsFree() && !H(m, x).IsFree()
    requires H(m, H(m, x).flink).IsFree() ==> H(m, x).flink == dirty
    ensures Coalesced(m', s + {c}, dirty)
  {
    assert Next(m, x) in s;
    forall b {:trigger Next(m', b)} | b in s + {c} && H(m', b).IsFree() && H(m', Next(m', b)).IsFree()
      ensures b == dirty || Next(m', b) == dirty
    {
      if b != x && b != c {
        assert Next(m, b) == Next(m', b) && Next(m, b) in s;
      }
    }
  }

  lemma SplitSized(v: Volume, m: Medium, m': Medium, s: set<int>, x: int, h: Header, c: int)
    requires v.Valid() && Tiled(v, m, s) && Sized(v, m, s) && Split(m, m', s, x, h, c)
    requires H(m, x).IsFile() && h == H(m, x).(blockCount := h.blockCount, flink := h.flink)
    requires v.fileHeaderBlocks + ContentBlocks(v, h) <= h.blockCount && v.fileHeaderBlocks <= H(m', c).blockCount
    ensures Sized(v, m', s + {c})
  {
    assert ContentBlocks(v, h) >= 0;
  }

  lemma SplitKept(v: Volume, g: Ghost, m: Medium, m': Medium, x: int, h: Header, c: int, ex: int)
    requires v.Valid() && Tiled(v, m, g.s) && Sized(v, m, g.s) && Split(m, m', g.s, x, h, c)
    requires Tiled(v, g.m0, g.s0) && Kept(v, g.m0, g.s0, m, g.s, ex)
    requires x in g.s0 && !H(g.m0, x).IsFree() ==> x == ex
    requires forall j | !(x <= j < x + HeaderSpan(v, x)) :: m'.data(j) == m.data(j)
    ensures Kept(v, g.m0, g.s0, m', g.s + {c}, ex)
  {
    forall b | b in g.s0 && b != ex && !H(g.m0, b).IsFree()
      ensures SameCells(v, g.m0, m', b)
    {
      KeptCellsApart(v, g, m, x, b, ex);
    }
  }

  // Content written behind the header of the linked block n.

  lemma WriteContent(v: Volume, g: Ghost, m: Medium, n: int, at: int, cells: seq<Cell>)
    requires v.Valid() && Tiled(v, m, g.s) && n in g.s && n < at && at + |cells| <= n + H(m, n).blockCount
    ensures var m' := WriteCells(m, at, cells);
            && (forall b | b in g.s :: b in m'.headers && H(m', b) == H(m, b))
            && (forall b {:trigger Next(m', b)} | b in g.s :: Next(m', b) == Next(m, b))
  {
  }

  lemma SameHeadersShape(v: Volume, m: Medium, m': Medium, s: set<int>, stale: int, dirty: int)
    requires v.Valid() && Shape(v, m, s, stale, dirty)
    requires forall b | b in s :: b in m'.headers && H(m', b) == H(m, b)
    ensures Shape(v, m', s, stale, dirty)
  {
    forall b {:trigger Next(m', b)} | b in s ensures Next(m', b) == Next(m, b) && Next(m, b) in s {
    }
  }

  lemma ContentKept(v: Volume, g: Ghost, m: Medium, n: int, at: int, cells: seq<Cell>)
    requires v.Valid() && Tiled(v, m, g.s) && n in g.s && n < at && at + |cells| <= n + H(m, n).blockCount
    requires Tiled(v, g.m0, g.s0) && Kept(v, g.m0, g.s0, m, g.s, NONE)
    requires n in g.s0 && H(g.m0, n).IsFree()
    ensures Kept(v, g.m0, g.s0, WriteCells(m, at, cells), g.s, NONE)
  {
    var m' := WriteCells(m, at, cells);
    WriteContent(v, g, m, n, at, cells);
    forall b | b in g.s0 && b != NONE && !H(g.m0, b).IsFree()
      ensures SameCells(v, g.m0, m', b)
    {
      assert b in g.s && b != n && H(m, b).blockCount == H(g.m0, b).blockCount;
    }
  }

  // ---------------------------------------------------------------- acquiring a block

  ghost predicate SameRun(g: Ghost, g': Ghost) {
    g'.m0 == g.m0 && g'.s0 == g.s0 && g'.behind == g.behind && g'.target == g.target
  }

  lemma StepInitialization(v: Volume, r: Request, g: Ghost, w: World)
    requires v.Valid() && InInitialization(v, r, g, w)
    ensures var w' := After(v, OnInitialization(v, r, w.dev), w.medium);
            if r.command.AddEntry? then InExamineNewBlock(v, r, g, w') else InCheckIsThisLast(v, r, g, w')
  {
    assert v.root in g.s;
  }

  lemma StepCheckIsThisLast(v: Volume, r: Request, g: Ghost, w: World)
    requires v.Valid() && InCheckIsThisLast(v, r, g, w)
    ensures var w' := After(v, OnCheckIsThisLast(v, w.dev), w.medium);
            if w'.dev.fsm.ExamineNewBlock? then InExamineNewBlock(v, r, g, w')
            else w'.dev.fsm.CheckSuccessor? && InCheckSuccessor(v, r, g, w')
  {
    assert Next(w.medium, g.target) in g.s;
  }

  lemma StepCheckSuccessorRefuse(v: Volume, r: Request, g: Ghost, w: World)
    requires v.Valid() && InCheckSuccessor(v, r, g, w)
    requires !(w.dev.otherBlock.IsFree() && Unsigned(r.offset) <= w.dev.otherBlock.blockCount)
    ensures var w' := After(v, OnCheckSuccessor(v, w.dev), w.medium);
            w'.dev.fsm.ExamineNewBlock? && InExamineNewBlock(v, r, g, w')
  {
    assert v.root in g.s;
  }

  /** The free block behind the target is absorbed; the link back from behind it is stale. */
  lemma AbsorbedBased(v: Volume, g: Ghost, m: Medium, t: int, h: Header)
    requires v.Valid() && Untouched(v, g, m) && t in g.s && H(m, t).IsFile()
    requires t < Next(m, t) && H(m, Next(m, t)).IsFree()
    requires h == H(m, t).(blockCount := H(m, t).blockCount + H(m, Next(m, t)).blockCount, flink := Next(m, Next(m, t)))
    ensures var m' := WriteHeader(v, m, t, h);
            var s' := LeavingOut(g.s, t, t + h.blockCount);
            && Based(v, g.(s := s'), m', h.flink, NONE, t) && t in s' && H(m', t) == h
            && h.flink in s' && !H(m', h.flink).IsFree()
            && forall j | t + v.fileHeaderBlocks <= j < t + H(m, t).blockCount :: m'.data(j) == m.data(j)
  {
    var m' := WriteHeader(v, m, t, h);
    assert Next(m, t) in g.s && Next(m, Next(m, t)) in g.s;
    WriteLinked(v, m, g.s, t, h);
    StretchTiled(v, m, m', g.s, t, h);
    StretchBackLinked(v, m, m', g.s, t, h, NONE);
    StretchSized(v, m, m', g.s, t, h);
    StretchCoalesced(v, m, m', g.s, t, h, NONE);
    StretchKept(v, g, m, m', t, h, t);
  }

  lemma StepCheckSuccessorAbsorb(v: Volume, r: Request, g: Ghost, w: World) returns (g': Ghost)
    requires v.Valid() && InCheckSuccessor(v, r, g, w)
    requires w.dev.otherBlock.IsFree() && Unsigned(r.offset) <= w.dev.otherBlock.blockCount
    ensures SameRun(g, g')
    ensures var w' := After(v, OnCheckSuccessor(v, w.dev), w.medium);
            w'.dev.fsm.CutTheSlack? && InCutTheSlack(v, r, g', w')
  {
    var d, t := w.dev, g.target;
    var h := d.thisBlock.(blockCount := d.thisBlock.blockCount + d.otherBlock.blockCount, flink := d.otherBlock.flink);
    var d' := d.(thisBlock := h, fsm := CutTheSlack);
    assert OnCheckSuccessor(v, d) == Outcome(d', WriteThis, Running);
    g' := g.(s := LeavingOut(g.s, t, t + h.blockCount));
    AbsorbedBased(v, g, w.medium, t, h);
    AbsorbedFitted(v, r, g, g', d', WriteHeader(v, w.medium, t, h));
  }

  /** The stretched block is large enough for the file, which has stayed where it was. */
  lemma AbsorbedFitted(v: Volume, r: Request, g: Ghost, g': Ghost, d: Device, m: Medium)
    requires v.Valid() && r.command.AllocBlocks? && Acquiring(v, r, g, d.desiredSize) && Untouched(v, g, g.m0)
    requires SameRun(g, g') && g'.taken == NONE && CanAbsorb(g.m0, g.target, r.offset)
    requires d.thisCursor == g.target && d.fileAvatar == g.target && d.mergeCursor == 0 && Remembered(d, g.m0, g.s0)
    requires var h := H(g.m0, g.target);
             d.thisBlock == h.(blockCount := h.blockCount + H(g.m0, h.flink).blockCount, flink := d.thisBlock.flink)
    requires Based(v, g', m, d.thisBlock.flink, NONE, g.target) && g.target in g'.s && H(m, g.target) == d.thisBlock
    requires !H(m, d.thisBlock.flink).IsFree()
    requires forall j | g.target + v.fileHeaderBlocks <= j < g.target + H(g.m0, g.target).blockCount ::
               m.data(j) == g.m0.data(j)
    ensures InCutTheSlack(v, r, g', World(d, m))
  {
    assert Fits(v, g.target, H(g.m0, g.target));
  }

  lemma StepExamineNewBlockSkip(v: Volume, r: Request, g: Ghost, w: World)
    requires v.Valid() && InExamineNewBlock(v, r, g, w)
    requires !Suits(g.m0, w.dev.otherCursor, w.dev.desiredSize)
    ensures var o := OnExamineNewBlock(v, r, w.dev);
            var w' := After(v, o, w.medium);
            if o.status.NoSpace? then
              w'.medium == g.m0 && forall b | b in g.s0 :: !Suits(g.m0, b, w.dev.desiredSize)
            else o.status.Running? && w'.dev.fsm.ExamineNewBlock? && InExamineNewBlock(v, r, g, w')
  {
    assert Next(w.medium, w.dev.otherCursor) in g.s;
  }

  lemma NoContent(v: Volume)
    requires v.Valid()
    ensures HowMany(0, v.blockSize) == 0
  {
  }

  lemma StepExamineNewBlockAdd(v: Volume, r: Request, g: Ghost, w: World) returns (g': Ghost)
    requires v.Valid() && InExamineNewBlock(v, r, g, w) && r.command.AddEntry?
    requires Suits(g.m0, w.dev.otherCursor, w.dev.desiredSize)
    ensures SameRun(g, g')
    ensures var w' := After(v, OnExamineNewBlock(v, r, w.dev), w.medium);
            w'.dev.fsm.CutTheSlack? && InCutTheSlack(v, r, g', w')
  {
    var d, m, n := w.dev, w.medium, w.dev.otherCursor;
    var h := d.otherBlock.(fingerprint := FINGERPRINT_FILEBLOCK, headerBlockCount := v.fileHeaderBlocks, byteCount := 0,
                           fileType := BLANK_TYPE, uniqueId := 0, name := Truncated(r.name));
    var d' := d.(otherBlock := h, fsm := CutTheSlack);
    assert OnExamineNewBlock(v, r, d) == Outcome(d', WriteOther, Running);
    g' := g.(taken := n);
    EntryTaken(v, r, g, m, d.desiredSize, n, h);
    EntryFitted(v, r, g', d', WriteHeader(v, m, n, h));
  }

  /** The found block becomes the new, empty entry. */
  lemma EntryTaken(v: Volume, r: Request, g: Ghost, m: Medium, size: int, n: int, h: Header)
    requires v.Valid() && Untouched(v, g, m) && r.command.AddEntry? && Acquiring(v, r, g, size)
    requires n in g.s && FirstFit(v, r, g.(taken := n), size)
    requires h == H(m, n).(fingerprint := FINGERPRINT_FILEBLOCK, headerBlockCount := v.fileHeaderBlocks, byteCount := 0,
                           fileType := BLANK_TYPE, uniqueId := 0, name := Truncated(r.name))
    ensures var m' := WriteHeader(v, m, n, h);
            && Settled(v, r, g.(taken := n), m', size, n, NONE, 0) && H(m', n) == h && Fits(v, n, h)
            && h.flink in g.s && !H(m', h.flink).IsFree()
  {
    var m' := WriteHeader(v, m, n, h);
    NoContent(v);
    assert Next(m, n) in g.s && Fits(v, n, H(m, n));
    WriteLinked(v, m, g.s, n, h);
    assert Based(v, g.(taken := n), m, NONE, NONE, NONE);
    RelabelBased(v, g.(taken := n), m, m', n, h, NONE, NONE, NONE, NONE, NONE);
  }

  lemma EntryFitted(v: Volume, r: Request, g: Ghost, d: Device, m: Medium)
    requires v.Valid() && r.command.AddEntry? && d.mergeCursor == 0 && d.desiredSize == v.fileHeaderBlocks
    requires Settled(v, r, g, m, d.desiredSize, d.otherCursor, NONE, 0) && Remembered(d, g.m0, g.s0)
    requires H(m, d.otherCursor) == d.otherBlock && d.otherBlock.byteCount == 0
    requires d.otherBlock.flink in g.s && !H(m, d.otherBlock.flink).IsFree()
    ensures InCutTheSlack(v, r, g, World(d, m))
  {
    NoContent(v);
    assert Fits(v, d.otherCursor, d.otherBlock);
    StaleAnywhere(v, r, g, m, d.desiredSize, d.otherCursor, d.otherBlock.flink);
  }

  /** No back link is stale, so none but this one is. */
  lemma StaleAnywhere(v: Volume, r: Request, g: Ghost, m: Medium, size: int, x: int, stale: int)
    requires v.Valid() && Settled(v, r, g, m, size, x, NONE, 0)
    ensures Settled(v, r, g, m, size, x, stale, 0)
  {
    assert BackLinked(m, g.s, stale);
  }

  /** The found block takes the file's identity: the copy has begun. */
  lemma TakenBlock(v: Volume, r: Request, g: Ghost, m: Medium, size: int, n: int, h: Header)
    requires v.Valid() && Untouched(v, g, m) && r.command.AllocBlocks? && Acquiring(v, r, g, size)
    requires n in g.s && FirstFit(v, r, g.(taken := n), size)
    requires h.IsFile() && h.headerBlockCount == v.fileHeaderBlocks && SameFile(h, H(m, g.target))
    requires h.blockCount == H(m, n).blockCount && h.flink == H(m, n).flink && h.blink == H(m, n).blink
    ensures Copying(v, r, g.(taken := n), WriteHeader(v, m, n, h), size, 0)
    ensures H(WriteHeader(v, m, n, h), n) == h
  {
    var m' := WriteHeader(v, m, n, h);
    WriteLinked(v, m, g.s, n, h);
    assert Based(v, g.(taken := n), m, NONE, NONE, NONE);
    RelabelBased(v, g.(taken := n), m, m', n, h, NONE, NONE, NONE, NONE, NONE);
  }

  lemma StepExamineNewBlockMove(v: Volume, r: Request, g: Ghost, w: World) returns (g': Ghost)
    requires v.Valid() && InExamineNewBlock(v, r, g, w) && r.command.AllocBlocks?
    requires Suits(g.m0, w.dev.otherCursor, w.dev.desiredSize)
    requires Roomy(v, g.m0, g.s0, g.target, w.dev.desiredSize)
    ensures SameRun(g, g')
    ensures var w' := After(v, OnExamineNewBlock(v, r, w.dev), w.medium);
            if 0 < ContentBlocks(v, w.dev.thisBlock) then w'.dev.fsm.ReadToCopy? && InReadToCopy(v, r, g', w')
            else w'.dev.fsm.CopyDone? && InCopyDone(v, r, g', w')
  {
    var w' := After(v, OnExamineNewBlock(v, r, w.dev), w.medium);
    g' := g.(taken := w.dev.otherCursor);
    TakenBlock(v, r, g, w.medium, w.dev.desiredSize, w.dev.otherCursor, w'.dev.otherBlock);
    assert InCopy(v, r, g', w', 0);
  }

  /** The target's content still reads as it did at the start. */
  lemma ChunkRead(v: Volume, r: Request, g: Ghost, m: Medium, size: int, done: int, n: int, at: int)
    requires v.Valid() && Copying(v, r, g, m, size, done)
    requires 0 <= n && done + n <= ContentBlocks(v, H(g.m0, g.target)) && at == g.target + v.fileHeaderBlocks + done
    ensures |ReadCells(m, at, n)| == n && forall i | 0 <= i < n :: ReadCells(m, at, n)[i] == g.m0.data(at + i)
  {
    assert g.target in g.s && SameCells(v, g.m0, m, g.target);
  }

  lemma StepReadToCopy(v: Volume, r: Request, g: Ghost, w: World)
    requires v.Valid() && InReadToCopy(v, r, g, w)
    ensures var w' := After(v, OnReadToCopy(v, w.dev), w.medium);
            w'.dev.fsm.WriteCopiedData? && InWriteCopiedData(v, r, g, w')
  {
    AfterReadToCopy(v, w.dev, w.medium);
    ChunkHeld(v, r, g, w, After(v, OnReadToCopy(v, w.dev), w.medium), w.dev.contentOffset + w.dev.blocksToRead);
  }

  lemma AfterReadToCopy(v: Volume, d: Device, m: Medium)
    requires v.Valid()
    ensures var n := if d.blocksToCopy > v.copyBlocks then v.copyBlocks else d.blocksToCopy;
            var at := d.contentOffset + d.blocksToRead;
            After(v, OnReadToCopy(v, d), m) ==
              World(d.(contentOffset := at, blocksToRead := n, copyBuffer := ReadCells(m, d.thisCursor + at, n),
                       fsm := WriteCopiedData), m)
  {
  }

  /** The next chunk is in the copy buffer. */
  lemma ChunkHeld(v: Volume, r: Request, g: Ghost, w: World, w': World, at: int)
    requires v.Valid() && InReadToCopy(v, r, g, w) && at == w.dev.contentOffset + w.dev.blocksToRead
    requires var d := w'.dev;
             && d == w.dev.(contentOffset := at, blocksToRead := d.blocksToRead, copyBuffer := d.copyBuffer,
                            fsm := d.fsm)
             && d.blocksToRead == (if d.blocksToCopy > v.copyBlocks then v.copyBlocks else d.blocksToCopy)
             && d.copyBuffer == ReadCells(w.medium, d.thisCursor + at, d.blocksToRead)
    requires w'.medium == w.medium
    ensures InWriteCopiedData(v, r, g, w')
  {
    var d, done := w'.dev, at - v.fileHeaderBlocks;
    ChunkRead(v, r, g, w.medium, d.desiredSize, done, d.blocksToRead, d.thisCursor + at);
    SameCopy(v, r, g, w, w', done);
  }

  lemma SameCopy(v: Volume, r: Request, g: Ghost, w: World, w': World, done: int)
    requires v.Valid() && InCopy(v, r, g, w, done) && w'.medium == w.medium
    requires w'.dev == w.dev.(contentOffset := w'.dev.contentOffset, blocksToRead := w'.dev.blocksToRead,
                              copyBuffer := w'.dev.copyBuffer, fsm := w'.dev.fsm)
    ensures InCopy(v, r, g, w', done)
  {
  }

  lemma CutWithin(blockCount: int, size: int)
    requires 0 <= size <= blockCount < 0x8000_0000
    ensures size <= Cut(blockCount, size) <= blockCount
    ensures blockCount - size >= SPLIT_LIMIT ==> Cut(blockCount, size) == size
  {
  }

  /** One more chunk of the target's content arrives behind the cells copied so far. */
  lemma ChunkCopied(v: Volume, r: Request, g: Ghost, m: Medium, size: int, done: int, at: int, cells: seq<Cell>)
    requires v.Valid() && Copying(v, r, g, m, size, done)
    requires done + |cells| <= ContentBlocks(v, H(g.m0, g.target))
    requires forall i | 0 <= i < |cells| :: cells[i] == g.m0.data(g.target + v.fileHeaderBlocks + done + i)
    requires at == g.taken + v.fileHeaderBlocks + done
    ensures Copying(v, r, g, WriteCells(m, at, cells), size, done + |cells|)
    ensures H(WriteCells(m, at, cells), g.taken) == H(m, g.taken)
  {
    var m' := WriteCells(m, at, cells);
    CutWithin(H(m, g.taken).blockCount, size);
    WriteContent(v, g, m, g.taken, at, cells);
    ContentKept(v, g, m, g.taken, at, cells);
    SameHeadersShape(v, m, m', g.s, NONE, NONE);
    CopyGrows(v, g.m0, m, g.target, g.taken, done, at, cells);
  }

  lemma CopyGrows(v: Volume, m0: Medium, m: Medium, t: int, x: int, done: int, at: int, cells: seq<Cell>)
    requires v.Valid() && 0 <= done && ContentCopied(v, m0, m, t, x, done)
    requires forall i | 0 <= i < |cells| :: cells[i] == m0.data(t + v.fileHeaderBlocks + done + i)
    requires at == x + v.fileHeaderBlocks + done
    ensures ContentCopied(v, m0, WriteCells(m, at, cells), t, x, done + |cells|)
  {
  }

  lemma StepWriteCopiedData(v: Volume, r: Request, g: Ghost, w: World)
    requires v.Valid() && InWriteCopiedData(v, r, g, w)
    ensures var w' := After(v, OnWriteCopiedData(w.dev), w.medium);
            if w.dev.blocksToCopy <= w.dev.blocksToRead then w'.dev.fsm.CopyDone? && InCopyDone(v, r, g, w')
            else w'.dev.fsm.ReadToCopy? && InReadToCopy(v, r, g, w')
  {
    AfterWriteCopiedData(v, w.dev, w.medium);
    CopyMoved(v, r, g, w, After(v, OnWriteCopiedData(w.dev), w.medium), w.dev.otherCursor + w.dev.contentOffset);
  }

  lemma AfterWriteCopiedData(v: Volume, d: Device, m: Medium)
    requires v.Valid()
    ensures After(v, OnWriteCopiedData(d), m) ==
              World(OnWriteCopiedData(d).dev, WriteCells(m, d.otherCursor + d.contentOffset, d.copyBuffer))
  {
  }

  /** The chunk in the buffer has been written. */
  lemma CopyMoved(v: Volume, r: Request, g: Ghost, w: World, w': World, at: int)
    requires v.Valid() && InWriteCopiedData(v, r, g, w) && at == w.dev.otherCursor + w.dev.contentOffset
    requires w'.dev == w.dev.(blocksToCopy := w.dev.blocksToCopy - w.dev.blocksToRead, fsm := w'.dev.fsm)
    requires w'.medium == WriteCells(w.medium, at, w.dev.copyBuffer)
    ensures if w.dev.blocksToCopy <= w.dev.blocksToRead then InCopyDone(v, r, g, w') else InReadToCopy(v, r, g, w')
  {
    var done := w.dev.contentOffset - v.fileHeaderBlocks;
    ChunkCopied(v, r, g, w.medium, w.dev.desiredSize, done, at, w.dev.copyBuffer);
    CopiedSoFar(v, r, g, w, w', done);
  }

  lemma CopiedSoFar(v: Volume, r: Request, g: Ghost, w: World, w': World, done: int)
    requires v.Valid() && InCopy(v, r, g, w, done) && H(w'.medium, g.taken) == H(w.medium, g.taken)
    requires w'.dev == w.dev.(blocksToCopy := w.dev.blocksToCopy - w.dev.blocksToRead, fsm := w'.dev.fsm)
    requires Copying(v, r, g, w'.medium, w.dev.desiredSize, done + w.dev.blocksToRead)
    ensures InCopy(v, r, g, w', done + w.dev.blocksToRead)
  {
  }

  lemma StepCopyDone(v: Volume, r: Request, g: Ghost, w: World)
    requires v.Valid() && InCopyDone(v, r, g, w)
    ensures var w' := After(v, OnCopyDone(v, w.dev), w.medium);
            w'.dev.fsm.CutTheSlack? && InCutTheSlack(v, r, g, w')
  {
    var w' := After(v, OnCopyDone(v, w.dev), w.medium);
    OldBlockFreed(v, r, g, w.medium, w.dev.desiredSize, w'.dev.otherBlock, w'.medium);
  }

  /** The copy is complete, and the header of the block that the file has left is freed. */
  lemma OldBlockFreed(v: Volume, r: Request, g: Ghost, m: Medium, size: int, h: Header, m': Medium)
    requires v.Valid() && Copying(v, r, g, m, size, ContentBlocks(v, H(g.m0, g.target)))
    requires h == H(g.m0, g.target).(fingerprint := FINGERPRINT_FREEBLOCK, headerBlockCount := h.headerBlockCount)
    requires h.headerBlockCount == HowMany(SIZEOF_LINKED_MEM_BLOCK, v.blockSize)
    requires m' == WriteHeader(v, m, g.target, h)
    ensures Settled(v, r, g, m', size, g.taken, H(m, g.taken).flink, g.target)
    ensures H(m', g.taken) == H(m, g.taken)
    ensures var behind := H(m, g.taken).flink; H(m', behind).IsFree() ==> behind == g.target
  {
    var stale := H(m, g.taken).flink;
    assert Next(m, g.taken) in g.s && Next(g.m0, g.taken) in g.s;
    WriteLinked(v, m, g.s, g.target, h);
    assert Based(v, g, m, NONE, NONE, g.target);
    RelabelBased(v, g, m, m', g.target, h, NONE, stale, NONE, g.target, g.target);
  }

  // ---------------------------------------------------------------- giving back the surplus

  lemma StepCutTheSlackKeep(v: Volume, r: Request, g: Ghost, d: Device, m: Medium)
    requires v.Valid() && Fitted(v, r, g, d, m) && d.thisBlock.blockCount - d.desiredSize < SPLIT_LIMIT
    ensures var w' := After(v, CutTheSlackOf(v, d), m);
            w'.dev.fsm.FixOldBackLink? && InFixOldBackLink(v, r, g, w')
  {
    assert Next(m, d.thisCursor) in g.s;
    AfterKeep(v, d, m);
    SlackKept(v, r, g, d, m, After(v, CutTheSlackOf(v, d), m));
  }

  lemma AfterKeep(v: Volume, d: Device, m: Medium)
    requires v.Valid() && 0 <= d.thisBlock.blockCount - d.desiredSize < SPLIT_LIMIT
    ensures var next := d.thisBlock.flink;
            After(v, CutTheSlackOf(v, d), m) ==
              World(d.(otherCursor := next, otherBlock := H(m, next), fsm := FixOldBackLink), m)
  {
  }

  lemma SlackKept(v: Volume, r: Request, g: Ghost, d: Device, m: Medium, w': World)
    requires v.Valid() && Fitted(v, r, g, d, m) && d.thisBlock.blockCount - d.desiredSize < SPLIT_LIMIT
    requires w'.dev == d.(otherCursor := d.thisBlock.flink, otherBlock := H(m, d.thisBlock.flink), fsm := w'.dev.fsm)
    requires w'.medium == m && d.thisBlock.flink in g.s
    ensures InFixOldBackLink(v, r, g, w')
  {
  }

  /** A header written behind the wanted part of the block x disturbs nothing. */
  lemma InsideSettled(v: Volume, r: Request, g: Ghost, m: Medium, m': Medium, size: int, x: int, stale: int, merge: int)
    requires v.Valid() && Settled(v, r, g, m, size, x, stale, merge)
    requires x + size + v.fileHeaderBlocks <= x + H(m, x).blockCount && Need(v, H(m, x)) <= size
    requires forall b | b in g.s :: b in m'.headers && H(m', b) == H(m, b)
    requires forall j | !(x + size <= j < x + size + v.fileHeaderBlocks) :: m'.data(j) == m.data(j)
    ensures Settled(v, r, g, m', size, x, stale, merge)
  {
    SameHeadersShape(v, m, m', g.s, stale, if merge != 0 then merge else NONE);
    forall b | b in g.s0 && b != g.target && !H(g.m0, b).IsFree()
      ensures SameCells(v, g.m0, m', b)
    {
      assert b in g.s && b != x && H(m, b).blockCount == H(g.m0, b).blockCount;
    }
  }

  lemma InsideFitted(v: Volume, r: Request, g: Ghost, d: Device, d': Device, m: Medium, m': Medium)
    requires v.Valid() && Fitted(v, r, g, d, m) && d.thisBlock.blockCount - d.desiredSize >= SPLIT_LIMIT
    requires d' == d.(otherCursor := d'.otherCursor, otherBlock := d'.otherBlock, fsm := d'.fsm)
    requires forall b | b in g.s :: b in m'.headers && H(m', b) == H(m, b)
    requires var c := d.thisCursor + d.desiredSize;
             forall j | !(c <= j < c + v.fileHeaderBlocks) :: m'.data(j) == m.data(j)
    ensures Fitted(v, r, g, d', m')
  {
    assert Next(m, d.thisCursor) in g.s;
    CutWithin(d.thisBlock.blockCount, d.desiredSize);
    InsideSettled(v, r, g, m, m', d.desiredSize, d.thisCursor, d.thisBlock.flink, d.mergeCursor);
  }

  lemma StepCutTheSlackSplit(v: Volume, r: Request, g: Ghost, d: Device, m: Medium)
    requires v.Valid() && Fitted(v, r, g, d, m) && d.thisBlock.blockCount - d.desiredSize >= SPLIT_LIMIT
    ensures var w' := After(v, CutTheSlackOf(v, d), m);
            w'.dev.fsm.CutOffExcess? && InCutOffExcess(v, r, g, w')
  {
    assert Next(m, d.thisCursor) in g.s;
    AfterSplit(v, d, m);
    SplitOff(v, r, g, d, m, After(v, CutTheSlackOf(v, d), m));
  }

  /** A free header is written where the surplus begins. */
  lemma AfterSplit(v: Volume, d: Device, m: Medium)
    requires v.Valid() && SPLIT_LIMIT <= d.thisBlock.blockCount - d.desiredSize < 0x8000_0000
    ensures var w' := After(v, CutTheSlackOf(v, d), m);
            var h := w'.dev.otherBlock;
            && w'.dev == d.(otherCursor := d.thisCursor + d.desiredSize, otherBlock := h, fsm := CutOffExcess)
            && w'.medium == WriteHeader(v, m, w'.dev.otherCursor, h)
            && h.IsFree() && h.flink == d.thisBlock.flink && h.blink == d.thisCursor
            && h.blockCount == d.thisBlock.blockCount - d.desiredSize
  {
    assert UnsignedDifference(d.thisBlock.blockCount, d.desiredSize) == d.thisBlock.blockCount - d.desiredSize;
  }

  /** That is inside the block, and disturbs nothing. */
  lemma SplitOff(v: Volume, r: Request, g: Ghost, d: Device, m: Medium, w': World)
    requires v.Valid() && Fitted(v, r, g, d, m) && d.thisBlock.blockCount - d.desiredSize >= SPLIT_LIMIT
    requires var h := w'.dev.otherBlock;
             && w'.dev == d.(otherCursor := d.thisCursor + d.desiredSize, otherBlock := h, fsm := CutOffExcess)
             && w'.medium == WriteHeader(v, m, w'.dev.otherCursor, h)
             && h.IsFree() && h.flink == d.thisBlock.flink && h.blink == d.thisCursor
             && h.blockCount == d.thisBlock.blockCount - d.desiredSize
    ensures InCutOffExcess(v, r, g, w')
  {
    WriteInside(v, m, g.s, d.thisCursor, w'.dev.otherCursor, w'.dev.otherBlock);
    InsideFitted(v, r, g, d, w'.dev, m, w'.medium);
  }

  /** A write to the header of the block x that keeps the entry, and to free space, keeps the placed file. */
  lemma PlacedAgain(v: Volume, r: Request, g: Ghost, g': Ghost, m: Medium, m': Medium, x: int)
    requires v.Valid() && Placed(v, r, g, m, x) && SameRun(g, g') && x in g'.s
    requires H(m', x).IsFile() && SameFile(H(m', x), H(m, x))
    requires forall j | x + v.fileHeaderBlocks <= j < x + v.fileHeaderBlocks + ContentBlocks(v, H(m, x)) ::
               m'.data(j) == m.data(j)
    ensures Placed(v, r, g', m', x)
  {
    if r.command.AllocBlocks? {
      assert ContentCopied(v, g.m0, m', g.target, x, ContentBlocks(v, H(g.m0, g.target)));
    }
  }

  /** The block x is cut to the wanted size, in front of the free block whose header stands at c. */
  lemma CutOffSettled(v: Volume, r: Request, g: Ghost, m: Medium, m': Medium, size: int, x: int, h: Header, c: int,
                      merge: int)
    returns (g': Ghost)
    requires v.Valid() && Settled(v, r, g, m, size, x, H(m, x).flink, merge)
    requires Split(m, m', g.s, x, h, c) && h == H(m, x).(blockCount := size, flink := c)
    requires v.fileHeaderBlocks <= H(m', c).blockCount && Need(v, H(m, x)) <= size
    requires H(m, H(m, x).flink).IsFree() ==> H(m, x).flink == merge
    requires forall j | !(x <= j < x + HeaderSpan(v, x)) :: m'.data(j) == m.data(j)
    ensures g' == g.(s := g.s + {c})
    ensures Settled(v, r, g', m', size, x, H(m, x).flink, merge)
  {
    g' := g.(s := g.s + {c});
    var dirty := if merge != 0 then merge else NONE;
    SplitTiled(v, m, m', g.s, x, h, c);
    SplitSized(v, m, m', g.s, x, h, c);
    SplitBackLinked(v, m, m', g.s, x, h, c, H(m, x).flink);
    SplitCoalesced(v, m, m', g.s, x, h, c, dirty);
    SplitKept(v, g, m, m', x, h, c, g.target);
    PlacedAgain(v, r, g, g', m, m', x);
  }

  lemma StepCutOffExcess(v: Volume, r: Request, g: Ghost, w: World) returns (g': Ghost)
    requires v.Valid() && InCutOffExcess(v, r, g, w)
    ensures SameRun(g, g')
    ensures var w' := After(v, OnCutOffExcess(w.dev), w.medium);
            w'.dev.fsm.GetOldBackLink? && InGetOldBackLink(v, r, g', w')
  {
    var d, m, x, c := w.dev, w.medium, w.dev.thisCursor, w.dev.otherCursor;
    var h := d.thisBlock.(blockCount := d.desiredSize, flink := c);
    var d', m' := d.(thisBlock := h, fsm := GetOldBackLink), WriteHeader(v, m, x, h);
    assert After(v, OnCutOffExcess(d), m) == World(d', m');
    CutWithin(d.thisBlock.blockCount, d.desiredSize);
    assert Next(m, x) in g.s && c !in g.s && 0 < d.desiredSize;
    WriteLinked(v, m, g.s, x, h);
    g' := CutOffSettled(v, r, g, m, m', d.desiredSize, x, h, c, d.mergeCursor);
    CutOff(v, r, g', d, d', m');
  }

  lemma CutOff(v: Volume, r: Request, g: Ghost, d: Device, d': Device, m: Medium)
    requires v.Valid() && d' == d.(thisBlock := d'.thisBlock, fsm := GetOldBackLink)
    requires Settled(v, r, g, m, d.desiredSize, d.thisCursor, d.otherBlock.flink, d.mergeCursor)
    requires (r.command.AllocBlocks? ==> d.fileAvatar == d.thisCursor) && Remembered(d, g.m0, g.s0)
    requires d'.thisBlock == H(m, d.thisCursor) && d'.thisBlock.blockCount == d.desiredSize
    requires d'.thisBlock.flink == d.otherCursor != v.root && H(m, d.otherCursor) == d.otherBlock
    ensures InGetOldBackLink(v, r, g, World(d', m))
  {
  }

  lemma StepGetOldBackLink(v: Volume, r: Request, g: Ghost, w: World)
    requires v.Valid() && InGetOldBackLink(v, r, g, w)
    ensures var w' := After(v, OnGetOldBackLink(w.dev), w.medium);
            w'.dev.fsm.FixOldBackLink? && InFixOldBackLink(v, r, g, w')
  {
    assert Next(w.medium, w.dev.thisCursor) in g.s;
    assert Next(w.medium, w.dev.otherCursor) in g.s;
  }

  /** The back link of c is set to the block p that c follows. */
  lemma BackLinkSettled(v: Volume, r: Request, g: Ghost, m: Medium, m': Medium, size: int, x: int, merge: int,
                        c: int, p: int)
    requires v.Valid() && Settled(v, r, g, m, size, x, c, merge)
    requires c in g.s && p in g.s && Next(m, p) == c && Relabel(m, m', g.s, c, H(m, c).(blink := p))
    requires forall j | !(c <= j < c + HeaderSpan(v, c)) :: m'.data(j) == m.data(j)
    ensures Settled(v, r, g, m', size, x, NONE, merge)
  {
    var h := H(m, c).(blink := p);
    var dirty := if merge != 0 then merge else NONE;
    RelabelBased(v, g, m, m', c, h, c, NONE, dirty, dirty, g.target);
    BackLinkPlaced(v, r, g, m, m', x, c, h);
  }

  /** A header's cells are no content of any block. */
  lemma BackLinkPlaced(v: Volume, r: Request, g: Ghost, m: Medium, m': Medium, x: int, c: int, h: Header)
    requires v.Valid() && Placed(v, r, g, m, x) && Tiled(v, m, g.s)
    requires c in g.s && Relabel(m, m', g.s, c, h) && h == H(m, c).(blink := h.blink)
    requires v.fileHeaderBlocks + ContentBlocks(v, H(m, x)) <= H(m, x).blockCount
    requires forall j | !(c <= j < c + HeaderSpan(v, c)) :: m'.data(j) == m.data(j)
    requires c + HeaderSpan(v, c) <= c + H(m, c).blockCount
    ensures Placed(v, r, g, m', x)
  {
    PlacedAgain(v, r, g, g, m, m', x);
  }

  lemma StepFixOldBackLink(v: Volume, r: Request, g: Ghost, w: World)
    requires v.Valid() && InFixOldBackLink(v, r, g, w)
    ensures var w' := After(v, OnFixOldBackLink(w.dev), w.medium);
            w'.dev.fsm.SuccessfulChomp? && InSuccessfulChomp(v, r, g, w')
  {
    var d, m := w.dev, w.medium;
    var w' := After(v, OnFixOldBackLink(d), m);
    var h := w'.dev.otherBlock;
    assert Next(m, d.thisCursor) in g.s && d.otherCursor != d.thisCursor;
    WriteLinked(v, m, g.s, d.otherCursor, h);
    BackLinkSettled(v, r, g, m, w'.medium, d.desiredSize, d.thisCursor, d.mergeCursor, d.otherCursor, h.blink);
  }

  lemma StepSuccessfulChompMerge(v: Volume, r: Request, g: Ghost, w: World)
    requires v.Valid() && InSuccessfulChomp(v, r, g, w) && w.dev.mergeCursor != 0
    ensures var w' := After(v, OnSuccessfulChomp(v, w.dev), w.medium);
            w'.dev.fsm.MarkItFree? && InMarkItFree(v, r, g, w')
  {
  }

  // ---------------------------------------------------------------- giving a block back

  lemma StepMarkItFree(v: Volume, r: Request, g: Ghost, w: World)
    requires v.Valid() && InMarkItFree(v, r, g, w)
    ensures var w' := After(v, GoMarkItFree(v, w.dev), w.medium);
            w'.dev.fsm.BackUpOne? && InBackUpOne(v, r, g, w')
  {
    var m, t := w.medium, g.target;
    var w' := After(v, GoMarkItFree(v, w.dev), m);
    var h := w'.dev.thisBlock;
    WriteLinked(v, m, g.s, t, h);
    FreedReleased(v, r, g, m, w'.medium, w.dev.desiredSize, h);
  }

  /** The target's block is marked free, whether it was in use or free already. */
  lemma FreedReleased(v: Volume, r: Request, g: Ghost, m: Medium, m': Medium, size: int, h: Header)
    requires v.Valid() && Released(v, r, g, m, size, g.target, NONE) && g.target in g.s && g.target != v.root
    requires Relabel(m, m', g.s, g.target, h) && h.IsFree() && h.blink == H(m, g.target).blink
    requires forall j | !(g.target <= j < g.target + HeaderSpan(v, g.target)) :: m'.data(j) == m.data(j)
    ensures Released(v, r, g, m', size, g.target, NONE)
  {
    var t := g.target;
    RelabelBased(v, g, m, m', t, h, NONE, NONE, t, t, t);
    if r.command.AllocBlocks? {
      PlacedAgain(v, r, g, g, m, m', g.taken);
    }
  }

  lemma StepBackUpOne(v: Volume, r: Request, g: Ghost, w: World)
    requires v.Valid() && InBackUpOne(v, r, g, w)
    ensures var w' := After(v, OnBackUpOne(w.dev), w.medium);
            if w.dev.thisBlock.IsFree() then
              w'.dev.fsm.BackUpOne? && InBackUpOne(v, r, g, w') && w'.dev.thisCursor < w.dev.thisCursor
            else w'.dev.fsm.ScanAhead? && InScanAhead(v, r, g, w')
  {
    var m, c := w.medium, w.dev.thisCursor;
    if w.dev.thisBlock.IsFree() {
      var p := Predecessor(v, m, g.s, c);
    } else {
      assert Next(m, c) in g.s;
      forall p | p in g.s && H(m, p).flink == H(m, c).flink ensures !H(m, p).IsFree() {
        assert Next(m, p) == Next(m, c);
        SamePredecessor(v, m, g.s, p, c);
      }
    }
  }

  lemma StepScanAhead(v: Volume, r: Request, g: Ghost, w: World)
    requires v.Valid() && InScanAhead(v, r, g, w)
    ensures var w' := After(v, OnScanAhead(w.dev), w.medium);
            w'.dev.fsm.AttemptMerge? && InAttemptMerge(v, r, g, w')
  {
    assert Next(w.medium, w.dev.thisCursor) in g.s;
  }

  lemma StepAttemptMergeMore(v: Volume, r: Request, g: Ghost, w: World)
    requires v.Valid() && InAttemptMerge(v, r, g, w) && w.dev.otherBlock.IsFree()
    ensures var w' := After(v, OnAttemptMerge(w.dev), w.medium);
            && w'.dev.fsm.AttemptMerge? && InAttemptMerge(v, r, g, w')
            && w.dev.thisBlock.blockCount < w'.dev.thisBlock.blockCount
  {
    assert Next(w.medium, w.dev.otherCursor) in g.s;
  }

  lemma StepAttemptMergeStop(v: Volume, r: Request, g: Ghost, w: World)
    requires v.Valid() && InAttemptMerge(v, r, g, w) && !w.dev.otherBlock.IsFree()
    ensures var w' := After(v, OnAttemptMerge(w.dev), w.medium);
            w'.dev.fsm.FixFlink? && InFixFlink(v, r, g, w')
  {
    var m, c, x := w.medium, w.dev.otherCursor, w.dev.thisCursor;
    var h := H(m, c).(blink := x);
    var d' := w.dev.(otherBlock := h, fsm := FixFlink);
    assert OnAttemptMerge(w.dev) == Outcome(d', WriteOther, Running);
    WriteLinked(v, m, g.s, c, h);
    StaleReleased(v, r, g, m, WriteHeader(v, m, c, h), w.dev.desiredSize, c, x);
    MergeStops(v, r, g, w, d', WriteHeader(v, m, c, h));
  }

  lemma MergeStops(v: Volume, r: Request, g: Ghost, w: World, d: Device, m: Medium)
    requires v.Valid() && InAttemptMerge(v, r, g, w) && !w.dev.otherBlock.IsFree()
    requires var c := w.dev.otherCursor;
             && d == w.dev.(otherBlock := w.dev.otherBlock.(blink := w.dev.thisCursor), fsm := FixFlink)
             && Relabel(w.medium, m, g.s, c, d.otherBlock)
             && Released(v, r, g, m, d.desiredSize, g.target, c)
    ensures InFixFlink(v, r, g, World(d, m))
  {
    assert H(w.medium, w.dev.thisCursor).IsFree();
  }

  /** Only the back link of the block in use behind the merged ones changes; it is stale until they are joined. */
  lemma StaleReleased(v: Volume, r: Request, g: Ghost, m: Medium, m': Medium, size: int, c: int, back: int)
    requires v.Valid() && Released(v, r, g, m, size, g.target, NONE) && !H(m, c).IsFree()
    requires Relabel(m, m', g.s, c, H(m, c).(blink := back))
    requires forall j | !(c <= j < c + HeaderSpan(v, c)) :: m'.data(j) == m.data(j)
    ensures Released(v, r, g, m', size, g.target, c)
  {
    var h := H(m, c).(blink := back);
    RelabelBased(v, g, m, m', c, h, NONE, c, g.target, g.target, g.target);
    if r.command.AllocBlocks? {
      BackLinkPlaced(v, r, g, m, m', g.taken, c, h);
    }
  }

  lemma StepFixFlink(v: Volume, r: Request, g: Ghost, w: World) returns (g': Ghost)
    requires v.Valid() && InFixFlink(v, r, g, w)
    ensures SameRun(g, g') && g'.taken == g.taken
    ensures var w' := After(v, OnFixFlink(w.dev), w.medium);
            w'.dev.fsm.DoneDeleting? && InDoneDeleting(v, r, g', w')
  {
    var d, m, x := w.dev, w.medium, w.dev.thisCursor;
    var h := d.thisBlock;
    var d', m' := d.(fsm := DoneDeleting), WriteHeader(v, m, x, h);
    assert OnFixFlink(d) == Outcome(d', WriteThis, Running);
    WriteLinked(v, m, g.s, x, h);
    assert x + h.blockCount <= g.target ==> d.otherCursor == x + h.blockCount;
    g' := JoinReleased(v, r, g, m, m', d.desiredSize, x, h);
    JoinDone(v, r, g', w, d', m');
  }

  lemma JoinDone(v: Volume, r: Request, g': Ghost, w: World, d: Device, m: Medium)
    requires v.Valid() && d == w.dev.(fsm := DoneDeleting) && d.entryOffset == 0
    requires Released(v, r, g', m, d.desiredSize, NONE, NONE) && (g'.target in g'.s ==> H(m, g'.target).IsFree())
    requires match r.command
             case AddEntry => false
             case AllocBlocks =>
               d.fileAvatar == g'.taken && d.fileBlocks == H(m, g'.taken).blockCount - v.fileHeaderBlocks
             case DeleteEntry => NameMatches(H(g'.m0, g'.target), g'.behind, Truncated(r.name))
    ensures InDoneDeleting(v, r, g', World(d, m))
  {
  }

  /** The block x is joined with the free blocks behind it, the target's block among them. */
  lemma JoinReleased(v: Volume, r: Request, g: Ghost, m: Medium, m': Medium, size: int, x: int, h: Header)
    returns (g': Ghost)
    requires v.Valid() && Released(v, r, g, m, size, g.target, h.flink)
    requires Stretch(v, m, m', g.s, x, h) && Surrounded(m, g.s, x, h) && H(m, x).IsFree()
    requires h == H(m, x).(blockCount := h.blockCount, flink := h.flink) && H(m, h.flink).blink == x
    requires g.target in g.s && x <= g.target < x + h.blockCount
    requires forall j | !(x <= j < x + HeaderSpan(v, x)) :: m'.data(j) == m.data(j)
    ensures g' == g.(s := LeavingOut(g.s, x, x + h.blockCount))
    ensures Released(v, r, g', m', size, NONE, NONE)
    ensures g.target in g'.s ==> H(m', g.target).IsFree()
  {
    g' := g.(s := LeavingOut(g.s, x, x + h.blockCount));
    StretchTiled(v, m, m', g.s, x, h);
    StretchSized(v, m, m', g.s, x, h);
    JoinBackLinked(v, m, m', g.s, x, h);
    StretchCoalesced(v, m, m', g.s, x, h, g.target);
    StretchKept(v, g, m, m', x, h, g.target);
    if r.command.AllocBlocks? {
      PlacedAgain(v, r, g, g', m, m', g.taken);
    }
  }

  lemma JoinBackLinked(v: Volume, m: Medium, m': Medium, s: set<int>, x: int, h: Header)
    requires v.Valid() && Tiled(v, m, s) && Stretch(v, m, m', s, x, h)
    requires BackLinked(m, s, h.flink) && H(m, h.flink).blink == x && h.blink == H(m, x).blink
    ensures BackLinked(m', LeavingOut(s, x, x + h.blockCount), NONE)
  {
    var s' := LeavingOut(s, x, x + h.blockCount);
    StretchTiled(v, m, m', s, x, h);
    StretchBackLinked(v, m, m', s, x, h, h.flink);
    forall b {:trigger Next(m', b)} | b in s' ensures H(m', Next(m', b)).blink == b {
      if Next(m', b) == h.flink {
        assert Next(m', x) == h.flink;
        SamePredecessor(v, m', s', b, x);
      }
    }
  }

  // ---------------------------------------------------------------- finding the entry to delete

  lemma StepInitScan(v: Volume, r: Request, g: Ghost, w: World)
    requires v.Valid() && InInitScan(v, r, g, w)
    ensures var w' := After(v, OnInitScan(v, w.dev), w.medium);
            w'.dev.fsm.ExamineEntry? && InExamineEntry(v, r, g, w')
  {
  }

  lemma StepExamineEntryMiss(v: Volume, r: Request, g: Ghost, w: World)
    requires v.Valid() && InExamineEntry(v, r, g, w) && !Matches(w.medium, r, g.behind, w.dev.thisCursor)
    ensures var o := OnExamineEntry(v, r, w.dev);
            var w' := After(v, o, w.medium);
            if o.status.NoFile? then
              w'.medium == g.m0 && forall b | b in g.s0 :: !Matches(g.m0, r, g.behind, b)
            else o.status.Running? && w'.dev.fsm.ExamineEntry? && InExamineEntry(v, r, g, w')
  {
    assert Next(w.medium, w.dev.thisCursor) in g.s;
  }

  lemma StepExamineEntryHit(v: Volume, r: Request, g: Ghost, w: World) returns (g': Ghost)
    requires v.Valid() && InExamineEntry(v, r, g, w) && Matches(w.medium, r, g.behind, w.dev.thisCursor)
    ensures g' == g.(target := w.dev.thisCursor)
    ensures var w' := After(v, OnExamineEntry(v, r, w.dev), w.medium);
            w'.dev.fsm.BackUpOne? && InBackUpOne(v, r, g', w')
  {
    var m, t := w.medium, w.dev.thisCursor;
    var w' := After(v, OnExamineEntry(v, r, w.dev), m);
    var h := w'.dev.thisBlock;
    g' := g.(target := t);
    WriteLinked(v, m, g.s, t, h);
    assert Released(v, r, g', m, w.dev.desiredSize, t, NONE);
    FreedReleased(v, r, g', m, w'.medium, w.dev.desiredSize, h);
  }
}
