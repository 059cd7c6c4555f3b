/**
 The optimised disk driver: requests wait on the to-do or the deferred list, are picked by priority,
 queued in sweep order on the running list, and served one raw transfer at a time.
 */
module OptimizedDisk {
  import opened Common
  import opened DiskSweep

  const DRIVER_FLAW_MASK := 0xFF
  const DRIVER_FLAW_SOFTLIMIT := 0xFE

  datatype Command = Read | OpenEntry | FsStat(bufferGiven: bool, bufferFits: bool) | Unknown

  datatype Request = Request(id: nat, priority: nat, file: nat, offset: nat, bytes: nat)

  /** One copy of a file on the disk: its first block, and how often it failed. */
  datatype Avatar = Avatar(flaw: nat, base: nat)

  /** A file's geometry and its copies. */
  datatype File = File(blockSize: nat, fsBlocksPerFileBlock: nat, devBlocksPerFsBlock: nat, avatars: seq<Avatar>)

  datatype Status = Good | Aborted | Offline | MediaError | ParamError | OtherError

  datatype Answer = Accepted | CompletedAtOnce | BadPtr | BadIOArg | BadCommand

  function BlockAt(f: File, offset: nat, avatar: Avatar): nat {
    (offset * f.fsBlocksPerFileBlock + avatar.base) * f.devBlocksPerFsBlock
  }

  /** The blocks of a copy follow one another, from the copy's first block on. */
  lemma BlocksFollow(f: File, offset: nat, n: nat, avatar: Avatar)
    ensures BlockAt(f, 0, avatar) == avatar.base * f.devBlocksPerFsBlock
    ensures BlockAt(f, offset + n, avatar) ==
              BlockAt(f, offset, avatar) + n * (f.fsBlocksPerFileBlock * f.devBlocksPerFsBlock)
  {
    var p, q := f.fsBlocksPerFileBlock, f.devBlocksPerFsBlock;
    assert (offset + n) * p == offset * p + n * p;
    assert ((offset * p + avatar.base) + n * p) * q == (offset * p + avatar.base) * q + n * p * q;
  }

  predicate WellFormedFile(f: File) {
    f.blockSize > 0 && |f.avatars| > 0 && forall i | 0 <= i < |f.avatars| :: f.avatars[i].flaw <= DRIVER_FLAW_MASK
  }

  /** Every copy of the requested part lies on blocks whose numbers fit an int32. */
  predicate Addressable(f: File, r: Request)
    requires f.blockSize > 0
  {
    forall i | 0 <= i < |f.avatars| :: BlockAt(f, r.offset, f.avatars[i]) + Extent(f, r) <= BIGGEST_POSITIVE_INTEGER
  }

  /** The blocks that a request's transfer passes over. */
  function Extent(f: File, r: Request): nat
    requires f.blockSize > 0
  {
    r.bytes / f.blockSize * f.fsBlocksPerFileBlock
  }

  /** Where the head is taken to stand after a transfer is where the next block of the file begins, exactly if the
      filesystem's blocks are the device's, or nothing was read. */
  lemma HeadAtNextIff(f: File, r: Request, avatar: Avatar)
    requires 0 < f.blockSize && 0 < f.fsBlocksPerFileBlock && 0 < f.devBlocksPerFsBlock
    ensures var n := r.bytes / f.blockSize;
            BlockAt(f, r.offset, avatar) + Extent(f, r) == BlockAt(f, r.offset + n, avatar) <==>
              n == 0 || f.devBlocksPerFsBlock == 1
  {
    var n, p, q := r.bytes / f.blockSize, f.fsBlocksPerFileBlock, f.devBlocksPerFsBlock;
    BlocksFollow(f, r.offset, n, avatar);
    Scaled(n, p, q);
  }

  lemma Scaled(n: nat, p: nat, q: nat)
    requires 0 < p && 0 < q
    ensures n * p == n * (p * q) <==> n == 0 || q == 1
  {
    var np := n * p;
    assert n * (p * q) == np * q;
    if n != 0 {
      assert 0 < np;
      Grows(np, q);
    }
  }

  lemma Grows(n: nat, q: nat)
    requires 0 < n && 0 < q
    ensures n == n * q <==> q == 1
  {
    assert n * q == n + n * (q - 1);
  }

  // ---------------------------------------------------------------- choosing

  /** An avatar is preferred to another if it is less flawed, or as flawed and not farther from the head. */
  predicate Preferred(f: File, offset: nat, head: int, a: Avatar, b: Avatar) {
    a.flaw < b.flaw
    || (a.flaw == b.flaw && Distance(head, BlockAt(f, offset, a)) <= Distance(head, BlockAt(f, offset, b)))
  }

  method ChooseAvatar(f: File, offset: nat, head: int) returns (closest: nat, block: nat)
    requires WellFormedFile(f)
    ensures closest < |f.avatars| && block == BlockAt(f, offset, f.avatars[closest])
    ensures forall i | 0 <= i < |f.avatars| :: Preferred(f, offset, head, f.avatars[closest], f.avatars[i])
  {
    var leastFlawLevel, leastDelta := DRIVER_FLAW_MASK + 1, 0;
    var avatarIndex: int := |f.avatars| - 1;
    closest, block := 0, 0;
    while avatarIndex >= 0
      invariant -1 <= avatarIndex < |f.avatars|
      invariant avatarIndex == |f.avatars| - 1 ==> leastFlawLevel == DRIVER_FLAW_MASK + 1
      invariant avatarIndex < |f.avatars| - 1 ==>
                  && avatarIndex < closest < |f.avatars|
                  && leastFlawLevel == f.avatars[closest].flaw
                  && block == BlockAt(f, offset, f.avatars[closest]) && leastDelta == Distance(head, block)
                  && forall i | avatarIndex < i < |f.avatars| ::
                       Preferred(f, offset, head, f.avatars[closest], f.avatars[i])
    {
      var avatar := f.avatars[avatarIndex];
      var at := BlockAt(f, offset, avatar);
      var delta := Distance(head, at);
      if avatar.flaw < leastFlawLevel || (avatar.flaw == leastFlawLevel && delta < leastDelta) {
        leastFlawLevel, leastDelta, closest, block := avatar.flaw, delta, avatarIndex, at;
      }
      avatarIndex := avatarIndex - 1;
    }
  }

  method HighestPriority(list: seq<Request>) returns (highest: nat)
    ensures forall i | 0 <= i < |list| :: list[i].priority <= highest
    ensures if list == [] then highest == 0 else exists i :: 0 <= i < |list| && list[i].priority == highest
  {
    highest := 0;
    for i := 0 to |list|
      invariant forall k | 0 <= k < i :: list[k].priority <= highest
      invariant if i == 0 then highest == 0 else highest == 0 || exists k :: 0 <= k < i && list[k].priority == highest
    {
      if list[i].priority > highest {
        highest := list[i].priority;
      }
    }
    if list != [] && highest == 0 {
      assert list[0].priority == highest;
    }
  }

  ghost predicate HasPriority(list: seq<Request>, priority: nat) {
    exists i :: 0 <= i < |list| && list[i].priority == priority
  }

  /** The requests of one priority, in the order they were queued. */
  function WithPriority(list: seq<Request>, priority: nat): seq<Request> {
    if list == [] then []
    else WithPriority(list[..|list| - 1], priority)
         + if list[|list| - 1].priority == priority then [list[|list| - 1]] else []
  }

  /** The requests that a batch from this list is made of: the first of the top priority, as many as may be. */
  function FirstOf(list: seq<Request>, top: nat, limit: nat): seq<Request> {
    var all := WithPriority(list, top);
    if |all| <= limit then all else all[..limit]
  }

  ghost predicate Serves(queue: seq<Job<Request>>, list: seq<Request>, top: nat, limit: nat) {
    multiset(Requests(queue)) == multiset(FirstOf(list, top, limit))
  }

  /** Every request of that priority as often as it is queued, and no other one. */
  lemma {:induction false} WithPriorityHas(list: seq<Request>, priority: nat, r: Request)
    ensures Times(WithPriority(list, priority), r) == if r.priority == priority then Times(list, r) else 0
  {
    if list != [] {
      var n := |list| - 1;
      WithPriorityHas(list[..n], priority, r);
      assert list == list[..n] + [list[n]];
      TimesSum(list[..n], [list[n]], r);
      TimesSum(WithPriority(list[..n], priority), if list[n].priority == priority then [list[n]] else [], r);
    }
  }

  lemma {:induction false} WithPriorityNext(list: seq<Request>, priority: nat, i: nat)
    requires i < |list|
    ensures WithPriority(list[..i + 1], priority)
              == WithPriority(list[..i], priority) + if list[i].priority == priority then [list[i]] else []
  {
    assert list[..i + 1][..i] == list[..i];
  }

  lemma {:induction false} WithPriorityGrows(list: seq<Request>, priority: nat, i: nat)
    requires i <= |list|
    ensures WithPriority(list[..i], priority) <= WithPriority(list, priority)
    decreases |list| - i
  {
    if i == |list| {
      assert list[..i] == list;
    } else {
      WithPriorityNext(list, priority, i);
      WithPriorityGrows(list, priority, i + 1);
    }
  }

  lemma {:induction false} InWithPriority(list: seq<Request>, priority: nat, i: nat)
    requires i < |list| && list[i].priority == priority
    ensures WithPriority(list, priority) != []
  {
    WithPriorityNext(list, priority, i);
    WithPriorityGrows(list, priority, i + 1);
  }

  lemma OneMore<T>(list: seq<T>, i: nat)
    requires i < |list|
    ensures multiset(list[..i + 1]) == multiset(list[..i]) + multiset{list[i]}
  {
    assert list[..i + 1] == list[..i] + [list[i]];
  }

  /** Every item of a list is in exactly one of two parts. */
  ghost predicate Parted<T(!new)>(list: seq<T>, a: seq<T>, b: seq<T>) {
    forall x :: multiset(list)[x] == multiset(a)[x] + multiset(b)[x]
  }

  lemma PartedOn<T(!new)>(list: seq<T>, i: nat, a: seq<T>, b: seq<T>)
    requires i < |list| && Parted(list[..i], a, b)
    ensures Parted(list[..i + 1], a + [list[i]], b) && Parted(list[..i + 1], a, b + [list[i]])
  {
    OneMore(list, i);
  }

  lemma PartedSame<T(!new)>(list: seq<T>, a: seq<T>, a': seq<T>, b: seq<T>)
    requires Parted(list, a, b) && multiset(a) == multiset(a')
    ensures Parted(list, a', b)
  {
  }

  lemma PartedEnd<T(!new)>(list: seq<T>, i: nat, a: seq<T>, b: seq<T>)
    requires i <= |list| && Parted(list[..i], a, b)
    ensures Parted(list, a, b + list[i..])
  {
    SplitAt(list, i);
  }

  lemma SplitAt<T>(list: seq<T>, i: nat)
    requires i <= |list|
    ensures multiset(list) == multiset(list[..i]) + multiset(list[i..])
    ensures i == |list| ==> list[..i] == list
  {
    assert list == list[..i] + list[i..];
  }

  /** Takes the first requests of a priority off a list, up to a limit. */
  method PickOff(list: seq<Request>, priority: nat, limit: nat) returns (picked: seq<Request>, rest: seq<Request>)
    ensures picked == FirstOf(list, priority, limit)
    ensures Parted(list, picked, rest)
    ensures forall i | 0 <= i < |picked| :: picked[i].priority == priority && picked[i] in list
  {
    picked, rest := [], [];
    var i := 0;
    while |picked| < limit && i < |list|
      invariant 0 <= i <= |list| && |picked| <= limit
      invariant picked == WithPriority(list[..i], priority)
      invariant Parted(list[..i], picked, rest)
      invariant forall k | 0 <= k < |picked| :: picked[k].priority == priority && picked[k] in list
      decreases |list| - i
    {
      WithPriorityNext(list, priority, i);
      PartedOn(list, i, picked, rest);
      if list[i].priority == priority {
        picked := picked + [list[i]];
      } else {
        rest := rest + [list[i]];
      }
      i := i + 1;
    }
    WithPriorityGrows(list, priority, i);
    PartedEnd(list, i, picked, rest);
    assert i == |list| ==> list[..i] == list;
    rest := rest + list[i..];
  }

  // ---------------------------------------------------------------- counting requests

  function Requests(jobs: seq<Job<Request>>): (r: seq<Request>)
    ensures |r| == |jobs| && forall i | 0 <= i < |r| :: r[i] == jobs[i].request
  {
    seq(|jobs|, i requires 0 <= i < |jobs| => jobs[i].request)
  }

  lemma Removed<T>(s: seq<T>, i: nat)
    requires i < |s|
    ensures multiset(s) == multiset(Without(s, i)) + multiset{s[i]}
  {
    assert s == s[..i] + [s[i]] + s[i + 1..];
  }

  lemma Cancel<T>(m: multiset<T>, n: multiset<T>, x: T)
    requires m + multiset{x} == n + multiset{x}
    ensures m == n
  {
    forall y ensures m[y] == n[y] {
      assert (m + multiset{x})[y] == (n + multiset{x})[y];
    }
  }

  lemma {:induction false} SameRequests(a: seq<Job<Request>>, b: seq<Job<Request>>)
    requires multiset(a) == multiset(b)
    ensures multiset(Requests(a)) == multiset(Requests(b))
    decreases |a|
  {
    if a == [] {
      assert |multiset(b)| == 0;
    } else {
      var j := SamePlace(a, b, 0);
      Removed(a, 0);
      Removed(b, j);
      Cancel(multiset(Without(a, 0)), multiset(Without(b, j)), a[0]);
      SameRequests(Without(a, 0), Without(b, j));
      Removed(Requests(a), 0);
      Removed(Requests(b), j);
      assert Requests(Without(a, 0)) == Without(Requests(a), 0);
      assert Requests(Without(b, j)) == Without(Requests(b), j);
    }
  }

  /** How often a request is in a list. */
  ghost function Times(list: seq<Request>, r: Request): nat { multiset(list)[r] }

  lemma TimesSum(a: seq<Request>, b: seq<Request>, r: Request)
    ensures Times(a + b, r) == Times(a, r) + Times(b, r)
  {
  }

  class Disk {
    const files: array<File>
    const sortLimit: nat
    /** Where the filesystem's blocks begin on the device. */
    const rawBlockOffset: nat
    var toDo: seq<Request>
    var deferred: seq<Request>
    var running: seq<Job<Request>>
    var busy: bool
    var boink: bool
    var offline: bool
    var requestPriority: nat
    var runningPriority: nat
    var deferredPriority: nat
    /** The user request that the raw transfer in flight, if any, was sent for. */
    var rawUser: Option<Request>
    var rawOffset: nat
    var rawAborted: bool
    var nextBlockAvailable: nat
    ghost var accepted: set<Request>
    ghost var completed: seq<Request>

    ghost var results: map<Request, Status>
    ghost var inFlight: bool

    ghost function Places(r: Request): nat
      reads this`toDo, this`deferred, this`running, this`completed
    {
      Times(toDo, r) + Times(deferred, r) + Times(Requests(running), r) + Times(completed, r)
    }

    /** Every accepted request is in exactly one place, and no other request is anywhere. */
    ghost predicate Conserved()
      reads this`toDo, this`deferred, this`running, this`completed, this`accepted
    {
      forall r {:trigger Places(r)} :: Places(r) == if r in accepted then 1 else 0
    }

    predicate Servable(r: Request)
      reads files
    {
      r.file < files.Length && files[r.file].blockSize > 0 && Addressable(files[r.file], r)
    }

    /** The copy exists, and the head can stand behind the last block of the transfer. */
    predicate Fits(job: Job<Request>)
      reads files
    {
      && job.request.file < files.Length && files[job.request.file].blockSize > 0
      && job.avatar < |files[job.request.file].avatars|
      && job.block + Extent(files[job.request.file], job.request) <= BIGGEST_POSITIVE_INTEGER
    }

    ghost predicate Placed()
      reads this`accepted, this`running, this`nextBlockAvailable, files
    {
      && 0 < sortLimit
      && (forall i | 0 <= i < files.Length :: WellFormedFile(files[i]))
      && (forall r | r in accepted :: Servable(r))
      && (forall i | 0 <= i < |running| :: Fits(running[i]))
      && nextBlockAvailable <= BIGGEST_POSITIVE_INTEGER
    }

    /** At most one raw transfer is in flight, for the request at the head of the running list and from its block on. */
    ghost predicate OneTransfer()
      reads this`running, this`busy, this`rawUser, this`rawOffset, this`inFlight
    {
      && busy == inFlight
      && (busy ==> running != [] && rawUser == Some(running[0].request))
      && (busy ==> rawOffset == running[0].block + rawBlockOffset)
    }

    ghost predicate Valid()
      reads this`toDo, this`deferred, this`running, this`completed, this`accepted, this`nextBlockAvailable, files
      reads this`busy, this`rawUser, this`rawOffset, this`inFlight
    {
      Conserved() && Placed() && OneTransfer()
    }

    constructor (theFiles: array<File>, limit: nat, blockOffset: nat)
      requires 0 < limit && forall i | 0 <= i < theFiles.Length :: WellFormedFile(theFiles[i])
      ensures Valid() && files == theFiles && sortLimit == limit && accepted == {} && !busy
      ensures rawBlockOffset == blockOffset
    {
      files, sortLimit, rawBlockOffset := theFiles, limit, blockOffset;
      toDo, deferred, running := [], [], [];
      busy, boink, offline := false, false, false;
      requestPriority, runningPriority, deferredPriority := 0, 0, 0;
      rawUser, rawOffset, rawAborted, nextBlockAvailable := None, 0, false, 0;
      accepted, completed, results, inFlight := {}, [], map[], false;
    }

    /** A request that is not in order is refused; one that needs no transfer is completed on the spot. */
    method QueueRequest(command: Command, r: Request) returns (answer: Answer)
      requires Valid() && r !in accepted && Servable(r)
      modifies this`toDo, this`requestPriority, this`boink, this`accepted
      ensures Valid()
      ensures answer.Accepted? <==> command.Read? && r.bytes % files[r.file].blockSize == 0
      ensures answer.CompletedAtOnce? <==>
                command.OpenEntry? || (command.FsStat? && command.bufferGiven && command.bufferFits)
      ensures if answer.Accepted? then accepted == old(accepted) + {r} && toDo == old(toDo) + [r]
              else accepted == old(accepted) && toDo == old(toDo) && boink == old(boink)
      ensures answer.Accepted? ==>
                && requestPriority == (if r.priority > old(requestPriority) then r.priority else old(requestPriority))
                && boink == (old(boink) || (busy && requestPriority > runningPriority))
    {
      match command {
        case Read =>
        case OpenEntry => return CompletedAtOnce;
        case FsStat(given, fits) =>
          return if !given then BadPtr else if !fits then BadIOArg else CompletedAtOnce;
        case Unknown => return BadCommand;
      }
      if r.bytes % files[r.file].blockSize != 0 {
        return BadPtr;
      }
      Accept(r);
      Announce(r.priority);
      return Accepted;
    }

    /** A request of a higher priority than the running ones raises the boink. */
    method Announce(priority: nat)
      requires Valid()
      modifies this`requestPriority, this`boink
      ensures Valid() && requestPriority == if priority > old(requestPriority) then priority else old(requestPriority)
      ensures boink == (old(boink) || (busy && requestPriority > runningPriority))
    {
      if priority > requestPriority {
        requestPriority := priority;
      }
      if busy && requestPriority > runningPriority {
        boink := true;
      }
    }

    /** The request goes to the end of the to-do list. */
    method Accept(r: Request)
      requires Valid() && r !in accepted && Servable(r)
      modifies this`toDo, this`accepted
      ensures Valid() && accepted == old(accepted) + {r} && toDo == old(toDo) + [r]
    {
      toDo := toDo + [r];
      accepted := accepted + {r};
      forall x ensures Places(x) == if x in accepted then 1 else 0 {
        assert old(Places(x)) == if x in old(accepted) then 1 else 0;
        TimesSum(old(toDo), [r], x);
      }
    }

    /** The job stands for its request, on an avatar that no other is preferred to. */
    ghost predicate WellPlaced(head: int, job: Job<Request>)
      reads files
    {
      Fits(job) && BestAvatar(files[job.request.file], head, job)
    }

    /** Where each of the picked requests will be read from. */
    method PlaceJobs(picked: seq<Request>) returns (jobs: seq<Job<Request>>, low: nat, high: nat)
      requires Placed() && picked != []
      requires forall i | 0 <= i < |picked| :: Servable(picked[i])
      ensures Requests(jobs) == picked
      ensures forall i | 0 <= i < |jobs| :: WellPlaced(nextBlockAvailable, jobs[i])
      ensures IsLowest(jobs, low) && IsHighest(jobs, high) && high <= BIGGEST_POSITIVE_INTEGER
    {
      jobs, low, high := [], BIGGEST_POSITIVE_INTEGER, 0;
      ghost var lowest, highest := -1, -1;
      for i := 0 to |picked|
        invariant Requests(jobs) == picked[..i]
        invariant forall k | 0 <= k < |jobs| :: WellPlaced(nextBlockAvailable, jobs[k])
        invariant forall k | 0 <= k < |jobs| :: low <= jobs[k].block <= high
        invariant lowest == -1 ==> low == BIGGEST_POSITIVE_INTEGER
        invariant lowest != -1 ==> 0 <= lowest < |jobs| && jobs[lowest].block == low
        invariant highest == -1 ==> high == 0
        invariant highest != -1 ==> 0 <= highest < |jobs| && jobs[highest].block == high
        invariant high <= BIGGEST_POSITIVE_INTEGER
      {
        var r := picked[i];
        var closest, block := ChooseAvatar(files[r.file], r.offset, nextBlockAvailable);
        var job := Job(r, block, closest);
        jobs := jobs + [job];
        if block < low {
          low := block;
          lowest := i;
        }
        if block > high {
          high := block;
          highest := i;
        }
      }
      assert jobs[0].block <= high;
      if lowest == -1 {
        assert jobs[0].block == low;
      }
      if highest == -1 {
        assert jobs[0].block == high;
      }
    }

    /** The list that the next batch comes from has the highest priority waiting, and that one. */
    method ChooseList() returns (useToDo: bool, top: nat)
      modifies this`requestPriority, this`deferredPriority
      ensures var list := if useToDo then toDo else deferred;
              && (list == [] <==> toDo == [] && deferred == [])
              && (list != [] ==> HasPriority(list, top)) && (useToDo ==> !HasPriority(deferred, top))
      ensures forall i | 0 <= i < |toDo| :: toDo[i].priority <= top
      ensures forall i | 0 <= i < |deferred| :: deferred[i].priority <= top
    {
      requestPriority := HighestPriority(toDo);
      deferredPriority := HighestPriority(deferred);
      useToDo := deferred == [] || requestPriority > deferredPriority;
      top := if useToDo then requestPriority else deferredPriority;
    }

    /** ScheduleOptimizedDiskIo without a catapult file. */
    method Schedule() returns (queue: seq<Job<Request>>)
      requires Valid()
      modifies this`toDo, this`deferred, this`running
      modifies this`requestPriority, this`runningPriority, this`deferredPriority
      ensures Valid() && running == old(running) + queue && |queue| <= sortLimit
      ensures queue == [] <==> busy || (old(toDo) == [] && old(deferred) == [])
      ensures queue == [] && !busy ==> toDo == [] && deferred == []
      ensures forall i | 0 <= i < |queue| ::
                queue[i].request.priority == runningPriority && WellPlaced(nextBlockAvailable, queue[i])
      ensures queue != [] ==> forall i | 0 <= i < |old(toDo)| :: old(toDo)[i].priority <= runningPriority
      ensures queue != [] ==> forall i | 0 <= i < |old(deferred)| :: old(deferred)[i].priority <= runningPriority
      ensures queue != [] ==>
                if HasPriority(old(deferred), runningPriority)
                then toDo == old(toDo) && Serves(queue, old(deferred), runningPriority, sortLimit)
                else deferred == old(deferred) && Serves(queue, old(toDo), runningPriority, sortLimit)
      ensures Shortest(nextBlockAvailable, queue)
    {
      queue := [];
      if busy {
        NothingShorter(nextBlockAvailable);
      } else {
        queue := ScheduleIdle();
      }
    }

    method ScheduleIdle() returns (queue: seq<Job<Request>>)
      requires Valid() && !busy
      modifies this`toDo, this`deferred, this`running
      modifies this`requestPriority, this`runningPriority, this`deferredPriority
      ensures Valid() && running == old(running) + queue && |queue| <= sortLimit
      ensures queue == [] <==> old(toDo) == [] && old(deferred) == []
      ensures queue == [] && !busy ==> toDo == [] && deferred == []
      ensures forall i | 0 <= i < |queue| ::
                queue[i].request.priority == runningPriority && WellPlaced(nextBlockAvailable, queue[i])
      ensures queue != [] ==> forall i | 0 <= i < |old(toDo)| :: old(toDo)[i].priority <= runningPriority
      ensures queue != [] ==> forall i | 0 <= i < |old(deferred)| :: old(deferred)[i].priority <= runningPriority
      ensures queue != [] ==>
                if HasPriority(old(deferred), runningPriority)
                then toDo == old(toDo) && Serves(queue, old(deferred), runningPriority, sortLimit)
                else deferred == old(deferred) && Serves(queue, old(toDo), runningPriority, sortLimit)
      ensures Shortest(nextBlockAvailable, queue)
    {
      var useToDo, top := ChooseList();
      assert forall i | 0 <= i < |old(toDo)| :: old(toDo)[i].priority <= top;
      assert forall i | 0 <= i < |old(deferred)| :: old(deferred)[i].priority <= top;
      queue := [];
      if (if useToDo then toDo else deferred) == [] {
        NothingShorter(nextBlockAvailable);
      } else {
        queue := TakeBatch(useToDo, top);
        SetPriorities(top);
      }
    }

    method TakeBatch(useToDo: bool, top: nat) returns (queue: seq<Job<Request>>)
      requires Valid() && !busy
      requires HasPriority(if useToDo then toDo else deferred, top)
      modifies this`toDo, this`deferred, this`running
      ensures Valid() && running == old(running) + queue && 0 < |queue| <= sortLimit
      ensures Serves(queue, if useToDo then old(toDo) else old(deferred), top, sortLimit)
      ensures if useToDo then deferred == old(deferred) else toDo == old(toDo)
      ensures forall i | 0 <= i < |queue| ::
                queue[i].request.priority == top && WellPlaced(nextBlockAvailable, queue[i])
      ensures Shortest(nextBlockAvailable, queue)
    {
      WaitingServable();
      var rest;
      queue, rest := Batch(if useToDo then toDo else deferred, top);
      MoveBatch(useToDo, rest, queue);
    }

    method SetPriorities(top: nat)
      modifies this`requestPriority, this`runningPriority, this`deferredPriority
      ensures runningPriority == top
    {
      runningPriority := top;
      requestPriority := HighestPriority(toDo);
      deferredPriority := HighestPriority(deferred);
    }

    /** The requests of the top priority, up to the limit, in the order that they are served in. */
    method Batch(list: seq<Request>, top: nat) returns (queue: seq<Job<Request>>, rest: seq<Request>)
      requires Placed() && forall i | 0 <= i < |list| :: Servable(list[i])
      requires HasPriority(list, top)
      ensures 0 < |queue| <= sortLimit && Parted(list, Requests(queue), rest) && Serves(queue, list, top, sortLimit)
      ensures forall i | 0 <= i < |queue| ::
                queue[i].request.priority == top && WellPlaced(nextBlockAvailable, queue[i])
      ensures Shortest(nextBlockAvailable, queue)
    {
      var picked;
      picked, rest := PickOff(list, top, sortLimit);
      SomePicked(list, top, picked, sortLimit);
      queue := Arrange(picked);
      PartedSame(list, picked, Requests(queue), rest);
    }

    method Arrange(picked: seq<Request>) returns (queue: seq<Job<Request>>)
      requires Placed() && picked != [] && forall i | 0 <= i < |picked| :: Servable(picked[i])
      ensures |queue| == |picked| && multiset(Requests(queue)) == multiset(picked)
      ensures forall i | 0 <= i < |queue| :: queue[i].request in picked && WellPlaced(nextBlockAvailable, queue[i])
      ensures Shortest(nextBlockAvailable, queue)
    {
      var jobs, low, high := PlaceJobs(picked);
      queue := InOrder(jobs, low, high);
    }

    method MoveBatch(useToDo: bool, rest: seq<Request>, queue: seq<Job<Request>>)
      requires Valid() && !busy && Parted(if useToDo then toDo else deferred, Requests(queue), rest)
      requires forall i | 0 <= i < |queue| :: Fits(queue[i])
      modifies this`toDo, this`deferred, this`running
      ensures Valid() && running == old(running) + queue
      ensures if useToDo then deferred == old(deferred) else toDo == old(toDo)
    {
      if useToDo {
        toDo := rest;
      } else {
        deferred := rest;
      }
      running := running + queue;
      forall r ensures Places(r) == if r in accepted then 1 else 0 {
        assert old(Places(r)) == if r in accepted then 1 else 0;
        MovedTimes(old(running), queue, r);
      }
    }

    lemma WaitingServable()
      requires Valid()
      ensures forall i | 0 <= i < |toDo| :: Servable(toDo[i])
      ensures forall i | 0 <= i < |deferred| :: Servable(deferred[i])
    {
      forall i | 0 <= i < |toDo| ensures Servable(toDo[i]) {
        assert multiset(toDo)[toDo[i]] > 0;
        assert Places(toDo[i]) > 0;
      }
      forall i | 0 <= i < |deferred| ensures Servable(deferred[i]) {
        assert multiset(deferred)[deferred[i]] > 0;
        assert Places(deferred[i]) > 0;
      }
    }

    method InOrder(jobs: seq<Job<Request>>, low: nat, high: nat) returns (queue: seq<Job<Request>>)
      requires Placed() && jobs != [] && IsLowest(jobs, low) && IsHighest(jobs, high)
      requires high <= BIGGEST_POSITIVE_INTEGER
      requires forall i | 0 <= i < |jobs| :: WellPlaced(nextBlockAvailable, jobs[i])
      ensures |queue| == |jobs| && multiset(Requests(queue)) == multiset(Requests(jobs))
      ensures forall i | 0 <= i < |queue| :: queue[i] in jobs && WellPlaced(nextBlockAvailable, queue[i])
      ensures Shortest(nextBlockAvailable, queue)
    {
      var requests := new Job<Request>[|jobs|](i requires 0 <= i < |jobs| => jobs[i]);
      assert requests[..] == jobs;
      queue := OrderJobs(requests, nextBlockAvailable, low, high);
      forall i | 0 <= i < |queue| ensures queue[i] in jobs && WellPlaced(nextBlockAvailable, queue[i]) {
        var j := SamePlace(queue, jobs, i);
      }
      SameRequests(queue, jobs);
      assert |multiset(queue)| == |multiset(jobs)|;
    }

    // ---------------------------------------------------------------- transfers

    /** Sends the raw transfer for the request at the head of the running list. */
    method Send()
      requires Conserved() && Placed() && !busy && !inFlight && running != []
      modifies this`busy, this`inFlight, this`rawUser, this`rawOffset, this`rawAborted, this`nextBlockAvailable
      ensures Valid() && busy && nextBlockAvailable == EndOf(running[0])
    {
      rawUser, rawOffset, rawAborted := Some(running[0].request), running[0].block + rawBlockOffset, false;
      nextBlockAvailable := EndOf(running[0]);
      busy := true;
      inFlight := true;
    }

    /** Where the head will stand after a job. */
    function EndOf(job: Job<Request>): nat
      requires Fits(job)
      reads files
    {
      job.block + Extent(files[job.request.file], job.request)
    }

    /** The request at the head of the running list is done. */
    method CompleteFirst(status: Status)
      requires Conserved() && running != []
      modifies this`running, this`completed, this`results
      ensures Conserved() && running == old(running)[1..]
      ensures completed == old(completed) + [old(running)[0].request]
      ensures results == old(results)[old(running)[0].request := status]
    {
      var r := running[0].request;
      running := running[1..];
      completed := completed + [r];
      results := results[r := status];
      forall x ensures Places(x) == if x in accepted then 1 else 0 {
        assert old(Places(x)) == if x in accepted then 1 else 0;
        FirstTimes(old(running), x);
        TimesSum(old(completed), [r], x);
      }
    }

    /** StartOptimizedDiskIo: of a filesystem that has gone offline, every running request is killed. */
    method StartIo()
      requires Valid()
      modifies this`busy, this`inFlight, this`rawUser, this`rawOffset, this`rawAborted, this`nextBlockAvailable
      modifies this`running, this`completed, this`results
      ensures Valid()
      ensures old(busy) ==> busy && running == old(running) && completed == old(completed)
      ensures !old(busy) && !offline ==>
                running == old(running) && completed == old(completed) && (busy <==> running != [])
      ensures !old(busy) && offline ==>
                && !busy && running == [] && completed == old(completed) + Requests(old(running))
                && forall i | 0 <= i < |old(running)| ::
                     old(running)[i].request in results && results[old(running)[i].request] == Offline
    {
      if busy {
        return;
      }
      ghost var k := 0;
      while running != [] && offline
        invariant Conserved() && Placed() && !busy && !inFlight
        invariant 0 <= k <= |old(running)| && running == old(running)[k..]
        invariant completed == old(completed) + Requests(old(running))[..k]
        invariant forall i | 0 <= i < k ::
                    old(running)[i].request in results && results[old(running)[i].request] == Offline
        invariant !offline ==> k == 0
        decreases |running|
      {
        CompleteFirst(Offline);
        k := k + 1;
      }
      if running != [] {
        Send();
      }
    }

    /** The end of the raw transfer: its request is completed, or waits again if its file has other copies. */
    method FinishTransfer(status: Status)
      requires Valid() && busy
      modifies this`busy, this`inFlight, this`running, this`toDo, this`completed, this`results, this`offline, files
      ensures Conserved() && Placed() && !busy && !inFlight && running == old(running)[1..]
      ensures offline == (old(offline) || status.Offline?)
      ensures var r := old(running)[0].request;
              if old(TriesAgain(status, r))
              then toDo == old(toDo) + [r] && completed == old(completed)
              else toDo == old(toDo) && completed == old(completed) + [r] && r in results && results[r] == status
      ensures files[..] == if old(TriesAgain(status, running[0].request)) then Blamed(old(files[..]), old(running)[0])
                           else old(files[..])
      ensures old(TriesAgain(status, running[0].request)) ==> Marked(old(files[..]), files[..], old(running)[0])
    {
      var r := running[0].request;
      busy, inFlight := false, false;
      if status.Offline? {
        offline := true;
      }
      if TriesAgain(status, r) {
        TryAgainFirst();
      } else {
        CompleteFirst(status);
      }
    }

    /** A soft error is counted against the copy that was read, up to a limit. */
    method Blame(job: Job<Request>)
      requires Placed() && Fits(job)
      modifies files
      ensures Placed()
      ensures files[..] == Blamed(old(files[..]), job) && Marked(old(files[..]), files[..], job)
    {
      var f := files[job.request.file];
      var avatar := f.avatars[job.avatar];
      if avatar.flaw < DRIVER_FLAW_SOFTLIMIT {
        files[job.request.file] := f.(avatars := f.avatars[job.avatar := avatar.(flaw := avatar.flaw + 1)]);
      }
      assert f.avatars[job.avatar := avatar] == f.avatars;
      assert files[..] == Blamed(old(files[..]), job);
      BlamedMarks(old(files[..]), job);
      SameGeometry(f, files[job.request.file]);
    }

    /** The copy that failed is blamed, and its request waits again. */
    method TryAgainFirst()
      requires Conserved() && Placed() && running != []
      modifies this`running, this`toDo, files
      ensures Conserved() && Placed() && running == old(running)[1..] && toDo == old(toDo) + [old(running)[0].request]
      ensures files[..] == Blamed(old(files[..]), old(running)[0])
      ensures Marked(old(files[..]), files[..], old(running)[0])
    {
      Blame(running[0]);
      RequeueFirst();
    }

    /** The request at the head of the running list goes back to the to-do list. */
    method RequeueFirst()
      requires Conserved() && running != []
      modifies this`running, this`toDo
      ensures Conserved() && running == old(running)[1..] && toDo == old(toDo) + [old(running)[0].request]
    {
      var r := running[0].request;
      running := running[1..];
      toDo := toDo + [r];
      forall x ensures Places(x) == if x in accepted then 1 else 0 {
        assert old(Places(x)) == if x in accepted then 1 else 0;
        FirstTimes(old(running), x);
        TimesSum(old(toDo), [r], x);
      }
    }

    /** A boink, or an offline filesystem: the running requests go to the front of the deferred list, in order. */
    method DeferRunning()
      requires Conserved()
      modifies this`running, this`deferred
      ensures Conserved() && running == [] && deferred == Requests(old(running)) + old(deferred)
    {
      while running != []
        invariant Conserved() && |running| <= |old(running)| && running == old(running)[..|running|]
        invariant deferred == Requests(old(running))[|running|..] + old(deferred)
        decreases |running|
      {
        DeferLast();
      }
    }

    method DeferLast()
      requires Conserved() && running != []
      modifies this`running, this`deferred
      ensures Conserved() && running == old(running)[..|old(running)| - 1]
      ensures deferred == [old(running)[|old(running)| - 1].request] + old(deferred)
    {
      var r := running[|running| - 1].request;
      running := running[..|running| - 1];
      deferred := [r] + deferred;
      forall x ensures Places(x) == if x in accepted then 1 else 0 {
        assert old(Places(x)) == if x in accepted then 1 else 0;
        LastTimes(old(running), x);
        TimesSum([r], old(deferred), x);
      }
    }

    /** A read that failed for its medium is tried again if the file has more than one copy. */
    predicate TriesAgain(status: Status, r: Request)
      requires r.file < files.Length
      reads files
    {
      (status.MediaError? || status.ParamError?) && |files[r.file].avatars| > 1
    }

    /** OptimizedDiskEndAction. Without a daemon the next batch is scheduled here. */
    method EndAction(status: Status, daemonAlive: bool) returns (again: bool)
      requires Valid() && busy
      modifies this, files
      ensures Valid() && accepted == old(accepted) && again == busy
      ensures var r := old(running)[0].request;
              if old(TriesAgain(status, r)) then completed == old(completed)
              else completed == old(completed) + [r] && r in results && results[r] == status
      ensures files[..] == if old(TriesAgain(status, running[0].request)) then Blamed(old(files[..]), old(running)[0])
                           else old(files[..])
      ensures old(TriesAgain(status, running[0].request)) ==> Marked(old(files[..]), files[..], old(running)[0])
      ensures completed == old(completed) <==>
                (status.MediaError? || status.ParamError?) && 1 < old(|files[running[0].request.file].avatars|)
      ensures again ==> running != [] && rawUser == Some(running[0].request)
      ensures again ==> rawOffset == running[0].block + rawBlockOffset
      ensures !again && !daemonAlive ==> toDo == [] && deferred == [] && running == []
      ensures daemonAlive && (old(boink) || offline) ==>
                !again && running == [] && deferred == Requests(old(running)[1..]) + old(deferred)
      ensures daemonAlive && !old(boink) && !offline ==> running == old(running)[1..] && deferred == old(deferred)
      ensures !boink
    {
      FinishTransfer(status);
      again := GoOn(daemonAlive);
    }

    /** The rest of OptimizedDiskEndAction: a boink is obeyed, and the next transfer begins. */
    method GoOn(daemonAlive: bool) returns (again: bool)
      requires Conserved() && Placed() && !busy && !inFlight
      modifies this`toDo, this`deferred, this`running, this`busy, this`inFlight, this`boink
      modifies this`rawUser, this`rawOffset, this`rawAborted, this`nextBlockAvailable
      modifies this`requestPriority, this`runningPriority, this`deferredPriority
      ensures Valid() && again == busy && !boink
      ensures again ==> running != [] && rawUser == Some(running[0].request)
      ensures again ==> rawOffset == running[0].block + rawBlockOffset
      ensures !again && !daemonAlive ==> toDo == [] && deferred == [] && running == []
      ensures daemonAlive && (old(boink) || offline) ==>
                !again && running == [] && deferred == Requests(old(running)) + old(deferred)
      ensures daemonAlive && !old(boink) && !offline ==> running == old(running) && deferred == old(deferred)
    {
      if boink || offline {
        DeferRunning();
        boink := false;
      }
      again := NextTransfer(daemonAlive);
    }

    method NextTransfer(daemonAlive: bool) returns (again: bool)
      requires Conserved() && Placed() && !busy && !inFlight
      modifies this`toDo, this`deferred, this`running, this`busy, this`inFlight
      modifies this`rawUser, this`rawOffset, this`rawAborted, this`nextBlockAvailable
      modifies this`requestPriority, this`runningPriority, this`deferredPriority
      ensures Valid() && again == busy
      ensures running == [] ==> !again
      ensures old(running) != [] || daemonAlive ==>
                running == old(running) && deferred == old(deferred) && (again <==> running != [])
      ensures !again && !daemonAlive ==> toDo == [] && deferred == [] && running == []
    {
      if running == [] && !daemonAlive {
        var queue := Schedule();
      }
      again := running != [];
      if again {
        Send();
      }
    }

    /** How often a request is on the three lists. */
    ghost function Listed(r: Request): nat
      reads this`toDo, this`deferred, this`running
    {
      Times(toDo, r) + Times(deferred, r) + Times(Requests(running), r)
    }

    /** AbortOptimizedDiskIo: the request in flight is ended by its own end action, any other one at once. */
    method Abort(r: Request)
      requires Valid() && r in accepted && r !in completed
      modifies this`toDo, this`deferred, this`running, this`completed, this`results, this`rawAborted
      ensures Valid()
      ensures if busy && rawUser == Some(r) then rawAborted && completed == old(completed) && running == old(running)
              else completed == old(completed) + [r] && r in results && results[r] == Aborted
    {
      if busy && rawUser == Some(r) {
        rawAborted := true;
      } else {
        AbortWaiting(r);
      }
    }

    method AbortWaiting(r: Request)
      requires Valid() && r in accepted && r !in completed && (busy ==> rawUser != Some(r))
      modifies this`toDo, this`deferred, this`running, this`completed, this`results
      ensures Valid() && completed == old(completed) + [r] && results == old(results)[r := Aborted]
    {
      Outstanding(r);
      Unlink(r);
      completed := completed + [r];
      results := results[r := Aborted];
      forall x ensures Places(x) == if x in accepted then 1 else 0 {
        assert old(Places(x)) == if x in accepted then 1 else 0;
        assert old(Listed(x)) == Listed(x) + Times([r], x);
        TimesSum(old(completed), [r], x);
      }
    }

    /** Takes a request off the list that it is on, the head of the running list excepted while it is in flight. */
    method Unlink(r: Request)
      requires Placed() && OneTransfer() && (busy ==> rawUser != Some(r))
      requires r in toDo || r in deferred || exists i :: 0 <= i < |running| && running[i].request == r
      modifies this`toDo, this`deferred, this`running
      ensures Placed() && OneTransfer()
      ensures forall x {:trigger Listed(x)} :: old(Listed(x)) == Listed(x) + Times([r], x)
    {
      if r in toDo {
        var i :| 0 <= i < |toDo| && toDo[i] == r;
        ItemTimes(toDo, i);
        toDo := Without(toDo, i);
      } else if r in deferred {
        var i :| 0 <= i < |deferred| && deferred[i] == r;
        ItemTimes(deferred, i);
        deferred := Without(deferred, i);
      } else {
        UnlinkRunning(r);
      }
    }

    method UnlinkRunning(r: Request)
      requires Placed() && OneTransfer() && (busy ==> rawUser != Some(r))
      requires exists i :: 0 <= i < |running| && running[i].request == r
      modifies this`running
      ensures Placed() && OneTransfer()
      ensures forall x {:trigger Listed(x)} :: old(Listed(x)) == Listed(x) + Times([r], x)
    {
      var i :| 0 <= i < |running| && running[i].request == r;
      JobTimes(running, i);
      running := Without(running, i);
    }

    lemma Outstanding(r: Request)
      requires Conserved() && r in accepted && r !in completed
      ensures r in toDo || r in deferred || exists i :: 0 <= i < |running| && running[i].request == r
    {
      assert Places(r) == 1;
      assert multiset(completed)[r] == 0;
      if r !in toDo && r !in deferred {
        assert multiset(Requests(running))[r] > 0;
        assert r in Requests(running);
      }
    }
  }

  ghost predicate BestAvatar(f: File, head: int, job: Job<Request>)
    requires job.avatar < |f.avatars|
  {
    && job.block == BlockAt(f, job.request.offset, f.avatars[job.avatar])
    && forall i | 0 <= i < |f.avatars| :: Preferred(f, job.request.offset, head, f.avatars[job.avatar], f.avatars[i])
  }

  lemma NothingShorter(head: int)
    ensures Shortest<Request>(head, [])
  {
  }

  lemma SomePicked(list: seq<Request>, top: nat, picked: seq<Request>, limit: nat)
    requires HasPriority(list, top) && 0 < limit && picked == FirstOf(list, top, limit)
    ensures picked != []
  {
    var i :| 0 <= i < |list| && list[i].priority == top;
    InWithPriority(list, top, i);
  }

  lemma MovedTimes(running: seq<Job<Request>>, queue: seq<Job<Request>>, r: Request)
    ensures Times(Requests(running + queue), r) == Times(Requests(running), r) + Times(Requests(queue), r)
  {
    assert Requests(running + queue) == Requests(running) + Requests(queue);
  }

  lemma FirstTimes(jobs: seq<Job<Request>>, r: Request)
    requires jobs != []
    ensures Times(Requests(jobs), r) == Times(Requests(jobs[1..]), r) + Times([jobs[0].request], r)
  {
    assert Requests(jobs) == [jobs[0].request] + Requests(jobs[1..]);
  }

  lemma LastTimes(jobs: seq<Job<Request>>, r: Request)
    requires jobs != []
    ensures Times(Requests(jobs), r)
              == Times(Requests(jobs[..|jobs| - 1]), r) + Times([jobs[|jobs| - 1].request], r)
  {
    assert Requests(jobs) == Requests(jobs[..|jobs| - 1]) + [jobs[|jobs| - 1].request];
  }

  lemma ItemTimes(list: seq<Request>, i: nat)
    requires i < |list|
    ensures forall r :: Times(list, r) == Times(Without(list, i), r) + Times([list[i]], r)
  {
    Removed(list, i);
  }

  lemma JobTimes(jobs: seq<Job<Request>>, i: nat)
    requires i < |jobs|
    ensures forall r :: Times(Requests(jobs), r) == Times(Requests(Without(jobs, i)), r) + Times([jobs[i].request], r)
  {
    Removed(Requests(jobs), i);
    assert Requests(Without(jobs, i)) == Without(Requests(jobs), i);
  }

  /** The files once a copy has failed. */
  function Blamed(files: seq<File>, job: Job<Request>): seq<File> {
    if job.request.file < |files| && job.avatar < |files[job.request.file].avatars| then
      var f := files[job.request.file];
      files[job.request.file := f.(avatars := f.avatars[job.avatar := Worse(f.avatars[job.avatar])])]
    else files
  }

  function Worse(avatar: Avatar): Avatar {
    if avatar.flaw < DRIVER_FLAW_SOFTLIMIT then avatar.(flaw := avatar.flaw + 1) else avatar
  }

  /** The copy that the job read has failed once more, unless it had reached the limit, and nothing else has changed. */
  ghost predicate Marked(was: seq<File>, now: seq<File>, job: Job<Request>) {
    var k, j := job.request.file, job.avatar;
    && k < |was| == |now| && j < |was[k].avatars| == |now[k].avatars|
    && (forall i | 0 <= i < |was| && i != k :: now[i] == was[i])
    && now[k] == was[k].(avatars := now[k].avatars)
    && (forall i | 0 <= i < |was[k].avatars| && i != j :: now[k].avatars[i] == was[k].avatars[i])
    && now[k].avatars[j].base == was[k].avatars[j].base
    && now[k].avatars[j].flaw ==
         was[k].avatars[j].flaw + if was[k].avatars[j].flaw < DRIVER_FLAW_SOFTLIMIT then 1 else 0
  }

  lemma BlamedMarks(files: seq<File>, job: Job<Request>)
    requires job.request.file < |files| && job.avatar < |files[job.request.file].avatars|
    ensures Marked(files, Blamed(files, job), job)
  {
  }

  /** The next try goes to another copy, if one was no more flawed and the one that failed is marked. */
  lemma AnotherCopyNext(was: seq<File>, now: seq<File>, failed: Job<Request>, i: nat, head: int, next: Job<Request>)
    requires Marked(was, now, failed) && next.request == failed.request
    requires var f := was[failed.request.file];
             && i < |f.avatars| && i != failed.avatar && f.avatars[failed.avatar].flaw < DRIVER_FLAW_SOFTLIMIT
             && f.avatars[i].flaw <= f.avatars[failed.avatar].flaw
    requires next.avatar < |now[failed.request.file].avatars|
    requires BestAvatar(now[failed.request.file], head, next)
    ensures next.avatar != failed.avatar
  {
    var f := now[failed.request.file];
    assert Preferred(f, next.request.offset, head, f.avatars[next.avatar], f.avatars[i]);
  }

  lemma SameGeometry(f: File, f': File)
    requires f' == f.(avatars := f'.avatars) && |f'.avatars| == |f.avatars|
    requires forall i | 0 <= i < |f.avatars| :: f'.avatars[i].base == f.avatars[i].base
    requires f.blockSize > 0
    ensures forall r :: Addressable(f, r) ==> Addressable(f', r)
  {
    forall r | Addressable(f, r) ensures Addressable(f', r) {
      forall i | 0 <= i < |f'.avatars|
        ensures BlockAt(f', r.offset, f'.avatars[i]) + Extent(f', r) <= BIGGEST_POSITIVE_INTEGER
      {
        assert BlockAt(f', r.offset, f'.avatars[i]) == BlockAt(f, r.offset, f.avatars[i]);
      }
    }
  }
}
