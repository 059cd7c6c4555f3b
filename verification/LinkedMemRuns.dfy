/**
 Whole requests: every activation keeps the invariant and brings the request closer to its
 end, every intermediate medium is tiled, and what a completed request has done.
 */
module LinkedMemRuns {
  import opened LinkedMem
  import opened LinkedMemInvariant
  import opened LinkedMemSteps

  // ---------------------------------------------------------------- what a completed request has done

  /** A new, empty entry stands in n, which was the first free block large enough. */
  ghost predicate Added(v: Volume, r: Request, m0: Medium, s0: set<int>, m: Medium, s: set<int>, n: int)
    requires v.Valid()
  {
    var h := H(m, n);
    && WellFormed(v, m, s)
    && n in s0 && Suits(m0, n, v.fileHeaderBlocks)
    && (forall b | b in s0 && b < n :: !Suits(m0, b, v.fileHeaderBlocks))
    && Files(m, s) == Files(m0, s0) + {n}
    && h.name == Truncated(r.name) && h.byteCount == 0 && h.fileType == BLANK_TYPE && h.uniqueId == 0
    && v.fileHeaderBlocks <= h.blockCount < v.fileHeaderBlocks + SPLIT_LIMIT
    && Kept(v, m0, s0, m, s, NONE)
  }

  /** The file of the block t has grown by at least the count asked for, and by less than a splittable surplus;
      it stays in place exactly when its successor could be absorbed, and moves to the first fit otherwise. */
  ghost predicate Allocated(v: Volume, r: Request, m0: Medium, s0: set<int>, t: int, m: Medium, s: set<int>, u: int)
    requires v.Valid()
  {
    var wanted := H(m0, t).blockCount + r.offset;
    && WellFormed(v, m, s)
    && (u == t <==> CanAbsorb(m0, t, r.offset))
    && (u != t ==> u in s0 && Suits(m0, u, wanted) && forall b | b in s0 && b < u :: !Suits(m0, b, wanted))
    && Files(m, s) == Files(m0, s0) - {t} + {u}
    && SameFile(H(m, u), H(m0, t)) && ContentCopied(v, m0, m, t, u, ContentBlocks(v, H(m0, t)))
    && wanted <= H(m, u).blockCount < wanted + SPLIT_LIMIT
    && Kept(v, m0, s0, m, s, t)
  }

  /** The entry in the block t, which bore the name, is gone and its space has been merged. */
  ghost predicate Deleted(v: Volume, r: Request, m0: Medium, s0: set<int>, behind: int, t: int, m: Medium, s: set<int>)
    requires v.Valid()
  {
    && WellFormed(v, m, s)
    && t in s0 && Matches(m0, r, behind, t)
    && Files(m, s) == Files(m0, s0) - {t}
    && Kept(v, m0, s0, m, s, t)
  }

  /** The request has completed with this status; g.s is the final set of linked blocks. */
  ghost predicate Completed(v: Volume, r: Request, g: Ghost, w: World, status: Status)
    requires v.Valid()
  {
    && Remembered(w.dev, w.medium, g.s)
    && match status
    case Running => false
    case NoSpace =>
      && w.medium == g.m0 && g.s == g.s0 && !r.command.DeleteEntry? && Acquiring(v, r, g, w.dev.desiredSize)
      && (forall b | b in g.s0 :: !Suits(g.m0, b, w.dev.desiredSize))
      && (r.command.AllocBlocks? ==> NodeAgrees(v, g, w.dev) && !CanAbsorb(g.m0, g.target, r.offset))
    case NoFile =>
      && w.medium == g.m0 && g.s == g.s0 && r.command.DeleteEntry?
      && forall b | b in g.s0 :: !Matches(g.m0, r, g.behind, b)
    case Success =>
      match r.command
      case AddEntry => Added(v, r, g.m0, g.s0, w.medium, g.s, g.taken) && w.dev.otherBlock.IsBlock()
      case AllocBlocks =>
        && Allocated(v, r, g.m0, g.s0, g.target, w.medium, g.s, w.dev.fileAvatar)
        && w.dev.fileBlocks == H(w.medium, w.dev.fileAvatar).blockCount - v.fileHeaderBlocks
      case DeleteEntry => Deleted(v, r, g.m0, g.s0, g.behind, g.target, w.medium, g.s)
  }

  lemma FilesAfterAdd(v: Volume, g: Ghost, m: Medium)
    requires v.Valid() && Based(v, g, m, NONE, NONE, NONE) && g.taken in g.s && H(m, g.taken).IsFile()
    ensures Files(m, g.s) == Files(g.m0, g.s0) + {g.taken}
  {
    forall b | b in Files(g.m0, g.s0) ensures b in Files(m, g.s) {
      assert b in g.s0 && !H(g.m0, b).IsFree() && SameButBlink(H(g.m0, b), H(m, b));
    }
  }

  lemma FilesAfterChange(v: Volume, g: Ghost, m: Medium, kept: set<int>)
    requires v.Valid() && Based(v, g, m, NONE, NONE, g.target) && g.target in Files(g.m0, g.s0)
    requires kept == (if g.taken in g.s && H(m, g.taken).IsFile() then {g.taken} else {}) +
                     (if g.target in g.s && H(m, g.target).IsFile() then {g.target} else {})
    ensures Files(m, g.s) == Files(g.m0, g.s0) - {g.target} + kept
  {
    forall b | b in Files(g.m0, g.s0) && b != g.target ensures b in Files(m, g.s) {
      assert b in g.s0 && !H(g.m0, b).IsFree() && SameButBlink(H(g.m0, b), H(m, b));
    }
  }

  lemma CompletesChomp(v: Volume, r: Request, g: Ghost, w: World)
    requires v.Valid() && w.dev.fsm.SuccessfulChomp? && InSuccessfulChomp(v, r, g, w) && w.dev.mergeCursor == 0
    ensures StepStatus(v, r, w).Success? && Completed(v, r, g, Step(v, r, w), Success)
  {
    if r.command.AddEntry? {
      assert Kept(v, g.m0, g.s0, w.medium, g.s, NONE);
      FilesAfterAdd(v, g, w.medium);
    } else {
      FilesAfterChange(v, g, w.medium, {g.target});
    }
  }

  lemma CompletesDelete(v: Volume, r: Request, g: Ghost, w: World)
    requires v.Valid() && w.dev.fsm.DoneDeleting? && InDoneDeleting(v, r, g, w)
    ensures StepStatus(v, r, w).Success? && Completed(v, r, g, Step(v, r, w), Success)
  {
    FilesAfterChange(v, g, w.medium, if r.command.AllocBlocks? then {g.taken} else {});
  }

  // ---------------------------------------------------------------- runs

  /** Following the forward links from b, each block ends where the next begins, up to the end of the
      volume, where the last one links back to the anchor. */
  ghost predicate TilesFrom(v: Volume, m: Medium, b: int)
    decreases v.limit - b
  {
    var end := b + H(m, b).blockCount;
    && b in m.headers && b < end <= v.limit
    && (if end == v.limit then Next(m, b) == v.root else Next(m, b) == end && TilesFrom(v, m, end))
  }

  ghost predicate Tiles(v: Volume, m: Medium) { TilesFrom(v, m, v.root) }

  /** The blocks visited by following the forward links from b. */
  ghost function Visited(v: Volume, m: Medium, b: int): set<int>
    requires TilesFrom(v, m, b)
    decreases v.limit - b
  {
    var end := b + H(m, b).blockCount;
    if end == v.limit then {b} else {b} + Visited(v, m, end)
  }

  lemma {:induction false} TiledTiles(v: Volume, m: Medium, s: set<int>, b: int)
    requires Tiled(v, m, s) && b in s
    ensures TilesFrom(v, m, b)
    ensures Visited(v, m, b) == set x | x in s && b <= x
    ensures b == v.root ==> Visited(v, m, b) == s
    decreases v.limit - b
  {
    assert Next(m, b) in s;
    if b + H(m, b).blockCount < v.limit {
      TiledTiles(v, m, s, Next(m, b));
    }
  }

  ghost predicate Ends(v: Volume, r: Request, m0: Medium, s0: set<int>, behind: int, t: int, w: World, status: Status)
    requires v.Valid()
  {
    exists g: Ghost ::
      && g.m0 == m0 && g.s0 == s0 && g.behind == behind && (t == NONE || g.target == t)
      && Completed(v, r, g, w, status)
  }

  /** From w, the request completes within n more activations; every medium on the way is tiled, and the
      outcome is what the request promises relative to the medium m0 it started on. */
  ghost predicate Runs(v: Volume, r: Request, m0: Medium, s0: set<int>, behind: int, t: int, w: World, n: nat)
    requires v.Valid()
    decreases n
  {
    && Tiles(v, w.medium)
    && var status := StepStatus(v, r, w);
       if status.Running? then n > 0 && Runs(v, r, m0, s0, behind, t, Step(v, r, w), n - 1)
       else Ends(v, r, m0, s0, behind, t, Step(v, r, w), status)
  }

  ghost predicate Origin(g: Ghost, t: int) { t == NONE || t == g.target }

  /** One more activation in front of a run. */
  lemma Prepend(v: Volume, r: Request, g: Ghost, t: int, w: World, w': World, n: nat)
    requires v.Valid() && Tiles(v, w.medium) && StepStatus(v, r, w).Running? && Step(v, r, w) == w'
    requires Runs(v, r, g.m0, g.s0, g.behind, t, w', n)
    ensures Runs(v, r, g.m0, g.s0, g.behind, t, w, n + 1)
  {
  }

  lemma TilesOf(v: Volume, g: Ghost, m: Medium)
    requires Tiled(v, m, g.s)
    ensures Tiles(v, m)
  {
    TiledTiles(v, m, g.s, v.root);
  }

  lemma RunDoneDeleting(v: Volume, r: Request, g: Ghost, t: int, w: World) returns (n: nat)
    requires v.Valid() && w.dev.fsm.DoneDeleting? && InDoneDeleting(v, r, g, w) && Origin(g, t)
    ensures Runs(v, r, g.m0, g.s0, g.behind, t, w, n)
  {
    TilesOf(v, g, w.medium);
    CompletesDelete(v, r, g, w);
    n := 0;
  }

  lemma RunFixFlink(v: Volume, r: Request, g: Ghost, t: int, w: World) returns (n: nat)
    requires v.Valid() && w.dev.fsm.FixFlink? && InFixFlink(v, r, g, w) && Origin(g, t)
    ensures Runs(v, r, g.m0, g.s0, g.behind, t, w, n)
  {
    TilesOf(v, g, w.medium);
    var w' := After(v, OnFixFlink(w.dev), w.medium);
    assert Step(v, r, w) == w';
    var g' := StepFixFlink(v, r, g, w);
    n := RunDoneDeleting(v, r, g', t, w');
    Prepend(v, r, g, t, w, w', n);
    n := n + 1;
  }

  lemma RunAttemptMerge(v: Volume, r: Request, g: Ghost, t: int, w: World) returns (n: nat)
    requires v.Valid() && w.dev.fsm.AttemptMerge? && InAttemptMerge(v, r, g, w) && Origin(g, t)
    ensures Runs(v, r, g.m0, g.s0, g.behind, t, w, n)
    decreases v.limit - w.dev.thisBlock.blockCount
  {
    TilesOf(v, g, w.medium);
    var w' := After(v, OnAttemptMerge(w.dev), w.medium);
    assert Step(v, r, w) == w';
    if w.dev.otherBlock.IsFree() {
      StepAttemptMergeMore(v, r, g, w);
      n := RunAttemptMerge(v, r, g, t, w');
    } else {
      StepAttemptMergeStop(v, r, g, w);
      n := RunFixFlink(v, r, g, t, w');
    }
    Prepend(v, r, g, t, w, w', n);
    n := n + 1;
  }

  lemma RunScanAhead(v: Volume, r: Request, g: Ghost, t: int, w: World) returns (n: nat)
    requires v.Valid() && w.dev.fsm.ScanAhead? && InScanAhead(v, r, g, w) && Origin(g, t)
    ensures Runs(v, r, g.m0, g.s0, g.behind, t, w, n)
  {
    TilesOf(v, g, w.medium);
    var w' := After(v, OnScanAhead(w.dev), w.medium);
    assert Step(v, r, w) == w';
    StepScanAhead(v, r, g, w);
    n := RunAttemptMerge(v, r, g, t, w');
    Prepend(v, r, g, t, w, w', n);
    n := n + 1;
  }

  lemma RunBackUpOne(v: Volume, r: Request, g: Ghost, t: int, w: World) returns (n: nat)
    requires v.Valid() && w.dev.fsm.BackUpOne? && InBackUpOne(v, r, g, w) && Origin(g, t)
    ensures Runs(v, r, g.m0, g.s0, g.behind, t, w, n)
    decreases w.dev.thisCursor
  {
    TilesOf(v, g, w.medium);
    var w' := After(v, OnBackUpOne(w.dev), w.medium);
    assert Step(v, r, w) == w';
    StepBackUpOne(v, r, g, w);
    if w.dev.thisBlock.IsFree() {
      n := RunBackUpOne(v, r, g, t, w');
    } else {
      n := RunScanAhead(v, r, g, t, w');
    }
    Prepend(v, r, g, t, w, w', n);
    n := n + 1;
  }

  lemma RunMarkItFree(v: Volume, r: Request, g: Ghost, t: int, w: World) returns (n: nat)
    requires v.Valid() && w.dev.fsm.MarkItFree? && InMarkItFree(v, r, g, w) && Origin(g, t)
    ensures Runs(v, r, g.m0, g.s0, g.behind, t, w, n)
  {
    TilesOf(v, g, w.medium);
    var w' := After(v, GoMarkItFree(v, w.dev), w.medium);
    assert Step(v, r, w) == w';
    StepMarkItFree(v, r, g, w);
    n := RunBackUpOne(v, r, g, t, w');
    Prepend(v, r, g, t, w, w', n);
    n := n + 1;
  }

  lemma RunSuccessfulChomp(v: Volume, r: Request, g: Ghost, t: int, w: World) returns (n: nat)
    requires v.Valid() && w.dev.fsm.SuccessfulChomp? && InSuccessfulChomp(v, r, g, w) && Origin(g, t)
    ensures Runs(v, r, g.m0, g.s0, g.behind, t, w, n)
  {
    TilesOf(v, g, w.medium);
    var w' := After(v, OnSuccessfulChomp(v, w.dev), w.medium);
    assert Step(v, r, w) == w';
    if w.dev.mergeCursor == 0 {
      CompletesChomp(v, r, g, w);
      n := 0;
    } else {
      StepSuccessfulChompMerge(v, r, g, w);
      n := RunMarkItFree(v, r, g, t, w');
      Prepend(v, r, g, t, w, w', n);
      n := n + 1;
    }
  }

  lemma RunFixOldBackLink(v: Volume, r: Request, g: Ghost, t: int, w: World) returns (n: nat)
    requires v.Valid() && w.dev.fsm.FixOldBackLink? && InFixOldBackLink(v, r, g, w) && Origin(g, t)
    ensures Runs(v, r, g.m0, g.s0, g.behind, t, w, n)
  {
    TilesOf(v, g, w.medium);
    var w' := After(v, OnFixOldBackLink(w.dev), w.medium);
    assert Step(v, r, w) == w';
    StepFixOldBackLink(v, r, g, w);
    n := RunSuccessfulChomp(v, r, g, t, w');
    Prepend(v, r, g, t, w, w', n);
    n := n + 1;
  }

  lemma RunGetOldBackLink(v: Volume, r: Request, g: Ghost, t: int, w: World) returns (n: nat)
    requires v.Valid() && w.dev.fsm.GetOldBackLink? && InGetOldBackLink(v, r, g, w) && Origin(g, t)
    ensures Runs(v, r, g.m0, g.s0, g.behind, t, w, n)
  {
    TilesOf(v, g, w.medium);
    var w' := After(v, OnGetOldBackLink(w.dev), w.medium);
    assert Step(v, r, w) == w';
    StepGetOldBackLink(v, r, g, w);
    n := RunFixOldBackLink(v, r, g, t, w');
    Prepend(v, r, g, t, w, w', n);
    n := n + 1;
  }

  lemma RunCutOffExcess(v: Volume, r: Request, g: Ghost, t: int, w: World) returns (n: nat)
    requires v.Valid() && w.dev.fsm.CutOffExcess? && InCutOffExcess(v, r, g, w) && Origin(g, t)
    ensures Runs(v, r, g.m0, g.s0, g.behind, t, w, n)
  {
    TilesOf(v, g, w.medium);
    var w' := After(v, OnCutOffExcess(w.dev), w.medium);
    assert Step(v, r, w) == w';
    var g' := StepCutOffExcess(v, r, g, w);
    n := RunGetOldBackLink(v, r, g', t, w');
    Prepend(v, r, g, t, w, w', n);
    n := n + 1;
  }

  lemma RunCutTheSlack(v: Volume, r: Request, g: Ghost, t: int, w: World) returns (n: nat)
    requires v.Valid() && w.dev.fsm.CutTheSlack? && InCutTheSlack(v, r, g, w) && Origin(g, t)
    ensures Runs(v, r, g.m0, g.s0, g.behind, t, w, n)
  {
    TilesOf(v, g, w.medium);
    var w' := After(v, OnCutTheSlack(v, r, w.dev), w.medium);
    assert Step(v, r, w) == w';
    assert StepStatus(v, r, w).Running?;
    var d := Adopted(r, w.dev);
    if d.thisBlock.blockCount - d.desiredSize < SPLIT_LIMIT {
      StepCutTheSlackKeep(v, r, g, d, w.medium);
      n := RunFixOldBackLink(v, r, g, t, w');
    } else {
      StepCutTheSlackSplit(v, r, g, d, w.medium);
      n := RunCutOffExcess(v, r, g, t, w');
    }
    Prepend(v, r, g, t, w, w', n);
    n := n + 1;
  }

  lemma RunCopyDone(v: Volume, r: Request, g: Ghost, t: int, w: World) returns (n: nat)
    requires v.Valid() && w.dev.fsm.CopyDone? && InCopyDone(v, r, g, w) && Origin(g, t)
    ensures Runs(v, r, g.m0, g.s0, g.behind, t, w, n)
  {
    TilesOf(v, g, w.medium);
    var w' := After(v, OnCopyDone(v, w.dev), w.medium);
    assert Step(v, r, w) == w';
    StepCopyDone(v, r, g, w);
    n := RunCutTheSlack(v, r, g, t, w');
    Prepend(v, r, g, t, w, w', n);
    n := n + 1;
  }

  lemma RunReadToCopy(v: Volume, r: Request, g: Ghost, t: int, w: World) returns (n: nat)
    requires v.Valid() && w.dev.fsm.ReadToCopy? && InReadToCopy(v, r, g, w) && Origin(g, t)
    ensures Runs(v, r, g.m0, g.s0, g.behind, t, w, n)
    decreases w.dev.blocksToCopy, 1
  {
    TilesOf(v, g, w.medium);
    var w' := After(v, OnReadToCopy(v, w.dev), w.medium);
    assert Step(v, r, w) == w';
    StepReadToCopy(v, r, g, w);
    n := RunWriteCopiedData(v, r, g, t, w');
    Prepend(v, r, g, t, w, w', n);
    n := n + 1;
  }

  lemma RunWriteCopiedData(v: Volume, r: Request, g: Ghost, t: int, w: World) returns (n: nat)
    requires v.Valid() && w.dev.fsm.WriteCopiedData? && InWriteCopiedData(v, r, g, w) && Origin(g, t)
    ensures Runs(v, r, g.m0, g.s0, g.behind, t, w, n)
    decreases w.dev.blocksToCopy, 0
  {
    TilesOf(v, g, w.medium);
    var w' := After(v, OnWriteCopiedData(w.dev), w.medium);
    assert Step(v, r, w) == w';
    StepWriteCopiedData(v, r, g, w);
    if w.dev.blocksToCopy <= w.dev.blocksToRead {
      n := RunCopyDone(v, r, g, t, w');
    } else {
      n := RunReadToCopy(v, r, g, t, w');
    }
    Prepend(v, r, g, t, w, w', n);
    n := n + 1;
  }

  lemma RunExamineNewBlock(v: Volume, r: Request, g: Ghost, t: int, w: World) returns (n: nat)
    requires v.Valid() && w.dev.fsm.ExamineNewBlock? && InExamineNewBlock(v, r, g, w) && Origin(g, t)
    requires r.command.AllocBlocks? ==> Roomy(v, g.m0, g.s0, g.target, w.dev.desiredSize)
    ensures Runs(v, r, g.m0, g.s0, g.behind, t, w, n)
    decreases v.limit - w.dev.otherCursor
  {
    TilesOf(v, g, w.medium);
    var w' := After(v, OnExamineNewBlock(v, r, w.dev), w.medium);
    assert Step(v, r, w) == w';
    if !Suits(g.m0, w.dev.otherCursor, w.dev.desiredSize) {
      StepExamineNewBlockSkip(v, r, g, w);
      if StepStatus(v, r, w).Running? {
        n := RunExamineNewBlock(v, r, g, t, w');
        Prepend(v, r, g, t, w, w', n);
        n := n + 1;
      } else {
        assert Completed(v, r, g, w', NoSpace);
        n := 0;
      }
    } else {
      n := RunTakeNewBlock(v, r, g, t, w);
    }
  }

  lemma RunTakeNewBlock(v: Volume, r: Request, g: Ghost, t: int, w: World) returns (n: nat)
    requires v.Valid() && w.dev.fsm.ExamineNewBlock? && InExamineNewBlock(v, r, g, w) && Origin(g, t)
    requires r.command.AllocBlocks? ==> Roomy(v, g.m0, g.s0, g.target, w.dev.desiredSize)
    requires Suits(g.m0, w.dev.otherCursor, w.dev.desiredSize)
    ensures Runs(v, r, g.m0, g.s0, g.behind, t, w, n)
  {
    TilesOf(v, g, w.medium);
    var w' := After(v, OnExamineNewBlock(v, r, w.dev), w.medium);
    assert Step(v, r, w) == w';
    if r.command.AddEntry? {
      var g' := StepExamineNewBlockAdd(v, r, g, w);
      n := RunCutTheSlack(v, r, g', t, w');
    } else {
      var g' := StepExamineNewBlockMove(v, r, g, w);
      if 0 < ContentBlocks(v, w.dev.thisBlock) {
        n := RunReadToCopy(v, r, g', t, w');
      } else {
        n := RunCopyDone(v, r, g', t, w');
      }
    }
    Prepend(v, r, g, t, w, w', n);
    n := n + 1;
  }

  lemma RunCheckSuccessor(v: Volume, r: Request, g: Ghost, t: int, w: World) returns (n: nat)
    requires v.Valid() && w.dev.fsm.CheckSuccessor? && InCheckSuccessor(v, r, g, w) && Origin(g, t)
    requires r.command.AllocBlocks? ==> Roomy(v, g.m0, g.s0, g.target, w.dev.desiredSize)
    ensures Runs(v, r, g.m0, g.s0, g.behind, t, w, n)
  {
    TilesOf(v, g, w.medium);
    var w' := After(v, OnCheckSuccessor(v, w.dev), w.medium);
    assert Step(v, r, w) == w';
    if w.dev.otherBlock.IsFree() && Unsigned(r.offset) <= w.dev.otherBlock.blockCount {
      var g' := StepCheckSuccessorAbsorb(v, r, g, w);
      n := RunCutTheSlack(v, r, g', t, w');
    } else {
      StepCheckSuccessorRefuse(v, r, g, w);
      n := RunExamineNewBlock(v, r, g, t, w');
    }
    Prepend(v, r, g, t, w, w', n);
    n := n + 1;
  }

  lemma RunCheckIsThisLast(v: Volume, r: Request, g: Ghost, t: int, w: World) returns (n: nat)
    requires v.Valid() && w.dev.fsm.CheckIsThisLast? && InCheckIsThisLast(v, r, g, w) && Origin(g, t)
    requires r.command.AllocBlocks? ==> Roomy(v, g.m0, g.s0, g.target, w.dev.desiredSize)
    ensures Runs(v, r, g.m0, g.s0, g.behind, t, w, n)
  {
    TilesOf(v, g, w.medium);
    var w' := After(v, OnCheckIsThisLast(v, w.dev), w.medium);
    assert Step(v, r, w) == w';
    StepCheckIsThisLast(v, r, g, w);
    if w'.dev.fsm.ExamineNewBlock? {
      n := RunExamineNewBlock(v, r, g, t, w');
    } else {
      n := RunCheckSuccessor(v, r, g, t, w');
    }
    Prepend(v, r, g, t, w, w', n);
    n := n + 1;
  }

  lemma RunInitialization(v: Volume, r: Request, g: Ghost, t: int, w: World) returns (n: nat)
    requires v.Valid() && w.dev.fsm.Initialization? && InInitialization(v, r, g, w) && Origin(g, t)
    requires r.command.AllocBlocks? ==> Roomy(v, g.m0, g.s0, g.target, w.dev.desiredSize)
    ensures Runs(v, r, g.m0, g.s0, g.behind, t, w, n)
  {
    TilesOf(v, g, w.medium);
    var w' := After(v, OnInitialization(v, r, w.dev), w.medium);
    assert Step(v, r, w) == w';
    StepInitialization(v, r, g, w);
    if r.command.AddEntry? {
      n := RunExamineNewBlock(v, r, g, t, w');
    } else {
      n := RunCheckIsThisLast(v, r, g, t, w');
    }
    Prepend(v, r, g, t, w, w', n);
    n := n + 1;
  }

  /** How far the circular scan is from its starting point. */
  function ScanLeft(v: Volume, d: Device): int {
    if d.haltCursor <= d.thisCursor then (v.limit - d.thisCursor) + (d.haltCursor - v.root)
    else d.haltCursor - d.thisCursor
  }

  lemma ScanCloser(v: Volume, m: Medium, s: set<int>, d: Device, d': Device)
    requires Tiled(v, m, s) && d.thisCursor in s && d.haltCursor in s && d'.haltCursor == d.haltCursor
    requires d'.thisCursor == Next(m, d.thisCursor) != d.haltCursor
    ensures 0 <= ScanLeft(v, d') < ScanLeft(v, d)
  {
  }

  lemma RunEntryHit(v: Volume, r: Request, g: Ghost, t: int, w: World) returns (n: nat)
    requires v.Valid() && w.dev.fsm.ExamineEntry? && InExamineEntry(v, r, g, w) && t == NONE
    requires Matches(w.medium, r, g.behind, w.dev.thisCursor)
    ensures Runs(v, r, g.m0, g.s0, g.behind, t, w, n)
  {
    TilesOf(v, g, w.medium);
    var w' := After(v, OnExamineEntry(v, r, w.dev), w.medium);
    assert Step(v, r, w) == w';
    var g' := StepExamineEntryHit(v, r, g, w);
    n := RunBackUpOne(v, r, g', t, w');
    Prepend(v, r, g, t, w, w', n);
    n := n + 1;
  }

  lemma EntryMissed(v: Volume, r: Request, g: Ghost, t: int, w: World) returns (w': World)
    requires v.Valid() && w.dev.fsm.ExamineEntry? && InExamineEntry(v, r, g, w) && t == NONE
    requires !Matches(w.medium, r, g.behind, w.dev.thisCursor)
    ensures w' == Step(v, r, w) && Tiles(v, w.medium)
    ensures if StepStatus(v, r, w).Running? then
              && w'.dev.fsm.ExamineEntry? && InExamineEntry(v, r, g, w')
              && 0 <= ScanLeft(v, w'.dev) < ScanLeft(v, w.dev)
            else Runs(v, r, g.m0, g.s0, g.behind, t, w, 0)
  {
    TilesOf(v, g, w.medium);
    w' := After(v, OnExamineEntry(v, r, w.dev), w.medium);
    assert Step(v, r, w) == w';
    StepExamineEntryMiss(v, r, g, w);
    if StepStatus(v, r, w).Running? {
      assert Next(w.medium, w.dev.thisCursor) in g.s;
      ScanCloser(v, w.medium, g.s, w.dev, w'.dev);
    } else {
      assert Completed(v, r, g, w', NoFile);
    }
  }

  lemma RunExamineEntry(v: Volume, r: Request, g: Ghost, t: int, w: World) returns (n: nat)
    requires v.Valid() && w.dev.fsm.ExamineEntry? && InExamineEntry(v, r, g, w) && Origin(g, t) && t == NONE
    ensures Runs(v, r, g.m0, g.s0, g.behind, t, w, n)
    decreases ScanLeft(v, w.dev)
  {
    if Matches(w.medium, r, g.behind, w.dev.thisCursor) {
      n := RunEntryHit(v, r, g, t, w);
    } else {
      var w' := EntryMissed(v, r, g, t, w);
      n := 0;
      if StepStatus(v, r, w).Running? {
        n := RunExamineEntry(v, r, g, t, w');
        Prepend(v, r, g, t, w, w', n);
        n := n + 1;
      }
    }
  }

  lemma RunInitScan(v: Volume, r: Request, g: Ghost, t: int, w: World) returns (n: nat)
    requires v.Valid() && w.dev.fsm.InitScan? && InInitScan(v, r, g, w) && Origin(g, t) && t == NONE
    ensures Runs(v, r, g.m0, g.s0, g.behind, t, w, n)
  {
    TilesOf(v, g, w.medium);
    var w' := After(v, OnInitScan(v, w.dev), w.medium);
    assert Step(v, r, w) == w';
    StepInitScan(v, r, g, w);
    n := RunExamineEntry(v, r, g, t, w');
    Prepend(v, r, g, t, w, w', n);
    n := n + 1;
  }

  // ---------------------------------------------------------------- the three requests

  /** Adding an entry on a well-formed volume always completes, whatever the device record held before. */
  lemma AddEntryRuns(v: Volume, r: Request, s: set<int>, w: World) returns (n: nat)
    requires v.Valid() && r.command.AddEntry? && WellFormed(v, w.medium, s)
    requires w.dev.fsm.Initialization? && w.dev.desiredSize == v.fileHeaderBlocks && Remembered(w.dev, w.medium, s)
    ensures Runs(v, r, w.medium, s, w.dev.otherBlock.fingerprint, NONE, w, n)
  {
    n := RunInitialization(v, r, Ghost(w.medium, s, w.dev.otherBlock.fingerprint, s, NONE, NONE), NONE, w);
  }

  /** The request, the volume and the device record that FILECMD_ALLOCBLOCKS starts from. */
  ghost predicate Requested(v: Volume, r: Request, s: set<int>, t: int, w: World)
    requires v.Valid()
  {
    && r.command.AllocBlocks? && WellFormed(v, w.medium, s) && t in Files(w.medium, s)
    && -0x8000_0000 <= r.offset && H(w.medium, t).blockCount + r.offset < 0x8000_0000
    && w.dev.fsm.Initialization? && w.dev.thisCursor == t && w.dev.fileAvatar == t
    && Remembered(w.dev, w.medium, s)
    && w.dev.fileBlocks == H(w.medium, t).blockCount - v.fileHeaderBlocks
    && w.dev.desiredSize == w.dev.fileBlocks + r.offset + v.fileHeaderBlocks
  }

  /** Allocating a count of blocks for the file at t, which may be negative, completes if the block that is found for
      the wanted size holds the file. */
  lemma AllocBlocksRuns(v: Volume, r: Request, s: set<int>, t: int, w: World) returns (n: nat)
    requires v.Valid() && Requested(v, r, s, t, w) && Roomy(v, w.medium, s, t, w.dev.desiredSize)
    ensures Runs(v, r, w.medium, s, w.dev.otherBlock.fingerprint, t, w, n)
  {
    n := RunInitialization(v, r, Ghost(w.medium, s, w.dev.otherBlock.fingerprint, s, t, NONE), t, w);
  }

  /** Deleting by name always completes, from any remembered scan position that is a linked block. */
  lemma DeleteEntryRuns(v: Volume, r: Request, s: set<int>, w: World) returns (n: nat)
    requires v.Valid() && r.command.DeleteEntry? && WellFormed(v, w.medium, s)
    requires w.dev.fsm.InitScan? && w.dev.copyName == Truncated(r.name) && Remembered(w.dev, w.medium, s)
    ensures Runs(v, r, w.medium, s, w.dev.otherBlock.fingerprint, NONE, w, n)
  {
    n := RunInitScan(v, r, Ghost(w.medium, s, w.dev.otherBlock.fingerprint, s, NONE, NONE), NONE, w);
  }

  /** A name that fills its field is not found while the word behind it does not begin with a zero. */
  lemma FullNameNotFound(v: Volume, r: Request, g: Ghost, w: World, status: Status)
    requires v.Valid() && r.command.DeleteEntry? && Completed(v, r, g, w, status)
    requires |Truncated(r.name)| >= FILESYSTEM_MAX_NAME_LEN && !BeginsWithZero(g.behind)
    ensures status.NoFile?
  {
  }
}
