/**
 The order in which the optimised disk serves the requests it has picked: sorted by start block, the
 ones below the head reversed, and the nearer side first. No order moves the head less.
 */
module DiskSweep {

  /** A picked request, and the start block and the copy of its file chosen for it. */
  datatype Job<R> = Job(request: R, block: nat, avatar: nat)

  const BIGGEST_POSITIVE_INTEGER := 0x7FFF_FFFF
  const TWO_TO_32 := 0x1_0000_0000

  function Distance(a: int, b: int): nat { if a < b then b - a else a - b }

  /** The number of steps of one block between two blocks, either way. */
  lemma DistanceCounts(a: int, n: nat)
    ensures Distance(a, a + n) == Distance(a + n, a) == n
  {
  }

  /** How far the head moves over the start blocks of jobs served in order. */
  function Travel<R>(head: int, jobs: seq<Job<R>>): nat
    decreases |jobs|
  {
    if jobs == [] then 0 else Distance(head, jobs[0].block) + Travel(jobs[0].block, jobs[1..])
  }

  // ---------------------------------------------------------------- no order is shorter than this

  lemma {:induction false} Reaches<R>(head: int, jobs: seq<Job<R>>, i: nat)
    requires i < |jobs|
    ensures Travel(head, jobs) >= Distance(head, jobs[i].block)
    decreases |jobs|
  {
    if i > 0 {
      Reaches(jobs[0].block, jobs[1..], i - 1);
    }
  }

  lemma {:induction false} ReachesBoth<R>(head: int, jobs: seq<Job<R>>, i: nat, j: nat)
    requires i < |jobs| && j < |jobs|
    ensures var a, b := jobs[i].block, jobs[j].block;
            || Travel(head, jobs) >= Distance(head, a) + Distance(a, b)
            || Travel(head, jobs) >= Distance(head, b) + Distance(a, b)
    decreases |jobs|
  {
    if i == 0 {
      if j > 0 {
        Reaches(jobs[0].block, jobs[1..], j - 1);
      }
    } else if j == 0 {
      Reaches(jobs[0].block, jobs[1..], i - 1);
    } else {
      ReachesBoth(jobs[0].block, jobs[1..], i - 1, j - 1);
    }
  }

  // ---------------------------------------------------------------- the length of a sweep

  predicate Ascending<R>(jobs: seq<Job<R>>) {
    forall i, j | 0 <= i < j < |jobs| :: jobs[i].block <= jobs[j].block
  }

  predicate Descending<R>(jobs: seq<Job<R>>) {
    forall i, j | 0 <= i < j < |jobs| :: jobs[i].block >= jobs[j].block
  }

  /** Where the head stands after the jobs. */
  function Final<R>(head: int, jobs: seq<Job<R>>): int {
    if jobs == [] then head else jobs[|jobs| - 1].block
  }

  lemma {:induction false} TravelUp<R>(head: int, jobs: seq<Job<R>>)
    requires Ascending(jobs) && (jobs != [] ==> head <= jobs[0].block)
    ensures Travel(head, jobs) == Final(head, jobs) - head
    decreases |jobs|
  {
    if jobs != [] {
      TravelUp(jobs[0].block, jobs[1..]);
    }
  }

  lemma {:induction false} TravelDown<R>(head: int, jobs: seq<Job<R>>)
    requires Descending(jobs) && (jobs != [] ==> jobs[0].block <= head)
    ensures Travel(head, jobs) == head - Final(head, jobs)
    decreases |jobs|
  {
    if jobs != [] {
      TravelDown(jobs[0].block, jobs[1..]);
    }
  }

  lemma {:induction false} TravelOn<R>(head: int, first: seq<Job<R>>, second: seq<Job<R>>)
    ensures Travel(head, first + second) == Travel(head, first) + Travel(Final(head, first), second)
    decreases |first|
  {
    if first == [] {
      assert first + second == second;
    } else {
      assert (first + second)[1..] == first[1..] + second;
      TravelOn(first[0].block, first[1..], second);
    }
  }

  // ---------------------------------------------------------------- two sweeps

  /** The two sides of the head, each in the order of a sweep away from it. */
  predicate Sides<R>(head: int, below: seq<Job<R>>, above: seq<Job<R>>) {
    && Descending(below) && (forall i | 0 <= i < |below| :: below[i].block < head)
    && Ascending(above) && (forall i | 0 <= i < |above| :: head <= above[i].block)
  }

  predicate IsLowest<R>(jobs: seq<Job<R>>, low: int) {
    (exists i :: 0 <= i < |jobs| && jobs[i].block == low) && forall i | 0 <= i < |jobs| :: low <= jobs[i].block
  }

  predicate IsHighest<R>(jobs: seq<Job<R>>, high: int) {
    (exists i :: 0 <= i < |jobs| && jobs[i].block == high) && forall i | 0 <= i < |jobs| :: jobs[i].block <= high
  }

  /** The comparison of unsigned distances that chooses the side; it wraps around when all blocks lie on one side. */
  predicate BottomIsCloser(head: int, low: int, high: int) {
    (head - low) % TWO_TO_32 < (high - head) % TWO_TO_32
  }

  function TwoSweeps<R>(bottomFirst: bool, below: seq<Job<R>>, above: seq<Job<R>>): seq<Job<R>> {
    if bottomFirst then below + above else above + below
  }

  lemma SamePlace<R>(jobs: seq<Job<R>>, other: seq<Job<R>>, i: nat) returns (j: nat)
    requires multiset(jobs) == multiset(other) && i < |jobs|
    ensures j < |other| && other[j] == jobs[i]
  {
    assert jobs[i] in multiset(jobs);
    assert jobs[i] in other;
    j :| j < |other| && other[j] == jobs[i];
  }

  /** The driver's order is as short as any order of the same jobs. */
  lemma SweepOptimal<R>(head: nat, low: nat, high: nat, below: seq<Job<R>>, above: seq<Job<R>>, other: seq<Job<R>>)
    requires Sides(head, below, above)
    requires IsLowest(below + above, low) && IsHighest(below + above, high)
    requires head <= BIGGEST_POSITIVE_INTEGER && high <= BIGGEST_POSITIVE_INTEGER
    requires multiset(other) == multiset(below + above)
    ensures Travel(head, TwoSweeps(BottomIsCloser(head, low, high), below, above)) <= Travel(head, other)
  {
    if below == [] || above == [] {
      OneSide(head, BottomIsCloser(head, low, high), below, above, other);
    } else {
      SideEnds(head, low, high, below, above);
      Unwrapped(head, low, high);
      TwoSides(head, low, high, below, above, other, BottomIsCloser(head, low, high));
    }
  }

  lemma TwoSides<R>(head: nat, low: nat, high: nat, below: seq<Job<R>>, above: seq<Job<R>>, other: seq<Job<R>>,
      bottomFirst: bool)
    requires Sides(head, below, above) && below != [] && above != []
    requires below[|below| - 1].block == low && above[|above| - 1].block == high && low < head <= high
    requires bottomFirst <==> head - low < high - head
    requires multiset(other) == multiset(below + above)
    ensures Travel(head, TwoSweeps(bottomFirst, below, above)) <= Travel(head, other)
  {
    BothSides(head, low, high, below, above);
    NoneShorter(head, low, high, below + above, |below| - 1, |below| + |above| - 1, other);
  }

  /** Whoever serves the lowest and the highest block has to go to the nearer one and then to the other. */
  lemma NoneShorter<R>(head: nat, low: nat, high: nat, jobs: seq<Job<R>>, l: nat, h: nat, other: seq<Job<R>>)
    requires multiset(other) == multiset(jobs) && low <= head <= high
    requires l < |jobs| && jobs[l].block == low && h < |jobs| && jobs[h].block == high
    ensures Travel(head, other) >= high - low + (head - low) || Travel(head, other) >= high - low + (high - head)
  {
    var i := SamePlace(jobs, other, l);
    var j := SamePlace(jobs, other, h);
    ReachesBoth(head, other, i, j);
  }

  lemma Unwrapped(head: nat, low: nat, high: nat)
    requires low <= head <= high <= BIGGEST_POSITIVE_INTEGER
    ensures BottomIsCloser(head, low, high) <==> head - low < high - head
  {
  }

  lemma OneSide<R>(head: nat, bottomFirst: bool, below: seq<Job<R>>, above: seq<Job<R>>, other: seq<Job<R>>)
    requires Sides(head, below, above) && (below == [] || above == [])
    requires multiset(other) == multiset(below + above)
    ensures Travel(head, TwoSweeps(bottomFirst, below, above)) <= Travel(head, other)
  {
    if below == [] {
      assert below + above == above && above + below == above;
      UpIsShortest(head, above, other);
    } else {
      assert below + above == below && above + below == below;
      DownIsShortest(head, below, other);
    }
  }

  lemma UpIsShortest<R>(head: int, jobs: seq<Job<R>>, other: seq<Job<R>>)
    requires Ascending(jobs) && (jobs != [] ==> head <= jobs[0].block) && multiset(other) == multiset(jobs)
    ensures Travel(head, jobs) <= Travel(head, other)
  {
    TravelUp(head, jobs);
    if jobs != [] {
      var i := SamePlace(jobs, other, |jobs| - 1);
      Reaches(head, other, i);
    }
  }

  lemma DownIsShortest<R>(head: int, jobs: seq<Job<R>>, other: seq<Job<R>>)
    requires Descending(jobs) && (jobs != [] ==> jobs[0].block <= head) && multiset(other) == multiset(jobs)
    ensures Travel(head, jobs) <= Travel(head, other)
  {
    TravelDown(head, jobs);
    if jobs != [] {
      var i := SamePlace(jobs, other, |jobs| - 1);
      Reaches(head, other, i);
    }
  }

  lemma SideEnds<R>(head: nat, low: nat, high: nat, below: seq<Job<R>>, above: seq<Job<R>>)
    requires Sides(head, below, above) && below != [] && above != []
    requires IsLowest(below + above, low) && IsHighest(below + above, high)
    ensures below[|below| - 1].block == low && above[|above| - 1].block == high && low < head <= high
  {
    var all := below + above;
    assert all[|below| - 1] == below[|below| - 1] && all[|all| - 1] == above[|above| - 1];
    var i :| 0 <= i < |all| && all[i].block == low;
    var j :| 0 <= j < |all| && all[j].block == high;
    assert forall k | 0 <= k < |below| :: all[k] == below[k];
    assert forall k | |below| <= k < |all| :: all[k] == above[k - |below|];
  }

  lemma BothSides<R>(head: nat, low: nat, high: nat, below: seq<Job<R>>, above: seq<Job<R>>)
    requires Sides(head, below, above) && below != [] && above != []
    requires below[|below| - 1].block == low && above[|above| - 1].block == high && low < head <= high
    ensures Travel(head, below + above) == head - low + (high - low)
    ensures Travel(head, above + below) == high - head + (high - low)
  {
    TravelOn(head, below, above);
    TravelOn(head, above, below);
    TravelDown(head, below);
    TravelUp(head, above);
    TravelUp(low, above);
    TravelDown(high, below);
  }

  // ---------------------------------------------------------------- the scheduler's loops

  /** The first n jobs are in order, and none of the others belongs before any of them. */
  predicate SortedPrefix<R>(jobs: seq<Job<R>>, n: nat)
    requires n <= |jobs|
  {
    forall i, j | 0 <= i < n && i < j < |jobs| :: jobs[i].block <= jobs[j].block
  }

  function Swap<T>(s: seq<T>, i: nat, j: nat): seq<T>
    requires i < j < |s|
  {
    s[i := s[j]][j := s[i]]
  }

  lemma Swapped<R>(jobs: seq<Job<R>>, i: nat, j: nat)
    requires i < j < |jobs| && SortedPrefix(jobs, i)
    ensures multiset(Swap(jobs, i, j)) == multiset(jobs) && SortedPrefix(Swap(jobs, i, j), i)
  {
  }

  /** The double-loop exchange sort, and the split at the head position: how many jobs lie below it. */
  method SortJobs<R>(requests: array<Job<R>>, head: int) returns (nextBelow: int)
    modifies requests
    ensures multiset(requests[..]) == multiset(old(requests[..]))
    ensures SortedPrefix(requests[..], requests.Length)
    ensures -1 <= nextBelow < requests.Length
    ensures forall i | 0 <= i < requests.Length :: requests[i].block < head <==> i <= nextBelow
  {
    nextBelow := -1;
    for i := 0 to requests.Length
      invariant multiset(requests[..]) == multiset(old(requests[..]))
      invariant SortedPrefix(requests[..], i)
      invariant -1 <= nextBelow < i
      invariant forall k | 0 <= k < i :: requests[k].block < head <==> k <= nextBelow
    {
      SelectLeast(requests, i);
      if requests[i].block < head {
        nextBelow := i;
      }
    }
  }

  /** One pass of the sort: the least of the jobs from i on comes to i. */
  method SelectLeast<R>(requests: array<Job<R>>, i: nat)
    requires i < requests.Length && SortedPrefix(requests[..], i)
    modifies requests
    ensures multiset(requests[..]) == multiset(old(requests[..]))
    ensures SortedPrefix(requests[..], i + 1)
    ensures forall k | 0 <= k < i :: requests[k] == old(requests[k])
  {
    for j := i + 1 to requests.Length
      invariant multiset(requests[..]) == multiset(old(requests[..]))
      invariant SortedPrefix(requests[..], i)
      invariant forall k | 0 <= k < i :: requests[k] == old(requests[k])
      invariant forall k | i < k < j :: requests[i].block <= requests[k].block
    {
      Exchange(requests, i, j);
    }
  }

  /** The smaller block of two goes to the earlier place. */
  method Exchange<R>(requests: array<Job<R>>, i: nat, j: nat)
    requires i < j < requests.Length && SortedPrefix(requests[..], i)
    modifies requests
    ensures multiset(requests[..]) == multiset(old(requests[..])) && SortedPrefix(requests[..], i)
    ensures requests[i].block <= requests[j].block
    ensures requests[i].block <= old(requests[i].block)
    ensures forall k | 0 <= k < requests.Length && k != i && k != j :: requests[k] == old(requests[k])
  {
    if requests[i].block > requests[j].block {
      ghost var jobs := requests[..];
      requests[i], requests[j] := requests[j], requests[i];
      assert requests[..] == Swap(jobs, i, j);
      Swapped(jobs, i, j);
    }
  }

  /** The jobs of the first n places, in the opposite order. */
  function Reversed<T>(s: seq<T>, n: nat): (r: seq<T>)
    requires n <= |s|
    ensures |r| == n && forall k | 0 <= k < n :: r[k] == s[n - 1 - k]
  {
    seq(n, k requires 0 <= k < n => s[n - 1 - k])
  }

  lemma {:induction false} ReversedPermutes<T>(s: seq<T>, n: nat)
    requires n <= |s|
    ensures multiset(Reversed(s, n)) == multiset(s[..n])
  {
    if n > 0 {
      ReversedPermutes(s, n - 1);
      assert Reversed(s, n) == [s[n - 1]] + Reversed(s, n - 1);
      assert s[..n] == s[..n - 1] + [s[n - 1]];
    }
  }

  method ReverseFront<T>(a: array<T>, last: int)
    requires -1 <= last < a.Length
    modifies a
    ensures a[..last + 1] == Reversed(old(a[..]), last + 1)
    ensures forall k | last < k < a.Length :: a[k] == old(a[k])
  {
    var low, high := 0, last;
    while low < high
      invariant 0 <= low <= high + 1 && high == last - low
      invariant forall k | 0 <= k < low || high < k <= last :: a[k] == old(a[last - k])
      invariant forall k | low <= k <= high || last < k < a.Length :: a[k] == old(a[k])
    {
      a[low], a[high] := a[high], a[low];
      low, high := low + 1, high - 1;
    }
  }

  /** Every order of the picked jobs makes the head travel at least as far. */
  ghost predicate Shortest<R(!new)>(head: int, queue: seq<Job<R>>) {
    forall other | multiset(other) == multiset(queue) :: Travel(head, queue) <= Travel(head, other)
  }

  /** From the picked jobs to the order they are queued in. */
  method OrderJobs<R(!new)>(requests: array<Job<R>>, head: nat, lowBlock: nat, highBlock: nat)
    returns (queue: seq<Job<R>>)
    requires head <= BIGGEST_POSITIVE_INTEGER && highBlock <= BIGGEST_POSITIVE_INTEGER
    requires requests.Length > 0 ==> IsLowest(requests[..], lowBlock) && IsHighest(requests[..], highBlock)
    modifies requests
    ensures multiset(queue) == multiset(old(requests[..]))
    ensures Shortest(head, queue)
  {
    ghost var picked := requests[..];
    var bottomFirst := BottomIsCloser(head, lowBlock, highBlock);
    var nextBelow := SortJobs(requests, head);
    ghost var sorted := requests[..];
    ReverseFront(requests, nextBelow);
    ghost var below, above := requests[..nextBelow + 1], requests[nextBelow + 1..];
    queue := [];
    var phase, passes := if bottomFirst then 0 else 1, 2;
    while passes > 0
      invariant 0 <= passes <= 2 && (phase == 0 || phase == 1)
      invariant passes == 2 ==> queue == [] && phase == if bottomFirst then 0 else 1
      invariant passes == 1 ==> if bottomFirst then queue == below && phase == 1 else queue == above && phase == 0
      invariant passes == 0 ==> queue == TwoSweeps(bottomFirst, below, above)
      invariant requests[..] == below + above
    {
      if phase == 0 {
        queue := queue + requests[..nextBelow + 1];
        phase := 1;
      } else {
        queue := queue + requests[nextBelow + 1..];
        phase := 0;
      }
      passes := passes - 1;
    }
    HalvesAreSides(picked, sorted, nextBelow, head, below, above);
    QueueShortest(picked, head, lowBlock, highBlock, below, above);
  }

  /** The two halves of the sorted jobs, the lower one reversed, are the sides of the two sweeps. */
  lemma HalvesAreSides<R>(picked: seq<Job<R>>, sorted: seq<Job<R>>, nextBelow: int, head: int,
                          below: seq<Job<R>>, above: seq<Job<R>>)
    requires multiset(sorted) == multiset(picked) && SortedPrefix(sorted, |sorted|) && -1 <= nextBelow < |sorted|
    requires forall i | 0 <= i < |sorted| :: sorted[i].block < head <==> i <= nextBelow
    requires below == Reversed(sorted, nextBelow + 1) && above == sorted[nextBelow + 1..]
    ensures Sides(head, below, above) && multiset(below + above) == multiset(above + below) == multiset(picked)
  {
    ReversedPermutes(sorted, nextBelow + 1);
    assert sorted == sorted[..nextBelow + 1] + above;
  }

  lemma QueueShortest<R(!new)>(picked: seq<Job<R>>, head: nat, low: nat, high: nat,
                               below: seq<Job<R>>, above: seq<Job<R>>)
    requires head <= BIGGEST_POSITIVE_INTEGER && high <= BIGGEST_POSITIVE_INTEGER
    requires picked != [] ==> IsLowest(picked, low) && IsHighest(picked, high)
    requires Sides(head, below, above) && multiset(below + above) == multiset(above + below) == multiset(picked)
    ensures Shortest(head, TwoSweeps(BottomIsCloser(head, low, high), below, above))
  {
    var queue := TwoSweeps(BottomIsCloser(head, low, high), below, above);
    forall other | multiset(other) == multiset(queue) ensures Travel(head, queue) <= Travel(head, other) {
      if picked == [] {
        assert |multiset(queue)| == 0;
      } else {
        SameExtremes(picked, below + above, low, high);
        SweepOptimal(head, low, high, below, above, other);
      }
    }
  }

  lemma SameExtremes<R>(jobs: seq<Job<R>>, other: seq<Job<R>>, low: int, high: int)
    requires multiset(jobs) == multiset(other) && IsLowest(jobs, low) && IsHighest(jobs, high)
    ensures IsLowest(other, low) && IsHighest(other, high)
  {
    var i :| 0 <= i < |jobs| && jobs[i].block == low;
    var j :| 0 <= j < |jobs| && jobs[j].block == high;
    var i' := SamePlace(jobs, other, i);
    var j' := SamePlace(jobs, other, j);
    forall k | 0 <= k < |other| ensures low <= other[k].block <= high {
      var k' := SamePlace(other, jobs, k);
    }
  }
}
