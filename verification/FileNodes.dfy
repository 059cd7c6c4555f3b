/**
 The list of file nodes and their use counts: opening, closing, the two scavengers, and dismounting.
 */
module FileNodes {
  import opened Common

  const MAX_ZERO_USE_FILES := 16
  const CLEANUP_TIMER_LIMIT := 8
  /** The root of the world belongs to no filesystem. */
  const NO_FILE_SYSTEM := 0

  class FileNode {
    const parent: FileNode?
    const isDirectory: bool
    const infoNotCached: bool
    const fileSystem: nat
    var useCount: int
    /** The references from outside the list: open files, tasks' directories, a mounted root. */
    ghost var holds: nat

    constructor (dir: FileNode?, directory: bool, notCached: bool, fs: nat)
      ensures parent == dir && isDirectory == directory && infoNotCached == notCached && fileSystem == fs
      ensures useCount == 0 && holds == 0
    {
      parent, isDirectory, infoNotCached, fileSystem := dir, directory, notCached, fs;
      useCount, holds := 0, 0;
    }
  }

  // ---------------------------------------------------------------- parents and children

  /** How many nodes of the list have this parent. */
  function Kids(files: seq<FileNode>, dir: FileNode): nat {
    if files == [] then 0 else (if files[0].parent == dir then 1 else 0) + Kids(files[1..], dir)
  }

  lemma {:induction false} KidsSum(a: seq<FileNode>, b: seq<FileNode>, dir: FileNode)
    ensures Kids(a + b, dir) == Kids(a, dir) + Kids(b, dir)
  {
    if a == [] {
      assert a + b == b;
    } else {
      assert (a + b)[1..] == a[1..] + b;
      KidsSum(a[1..], b, dir);
    }
  }

  lemma KidsWithout(files: seq<FileNode>, i: nat, dir: FileNode)
    requires i < |files|
    ensures Kids(files, dir) == Kids(Without(files, i), dir) + if files[i].parent == dir then 1 else 0
  {
    assert files == files[..i] + ([files[i]] + files[i + 1..]);
    KidsSum(files[..i], [files[i]] + files[i + 1..], dir);
    KidsSum([files[i]], files[i + 1..], dir);
    KidsSum(files[..i], files[i + 1..], dir);
    assert Kids([files[i]], dir) == if files[i].parent == dir then 1 else 0;
  }

  lemma {:induction false} HasKid(files: seq<FileNode>, i: nat)
    requires i < |files| && files[i].parent != null
    ensures Kids(files, files[i].parent) > 0
  {
    KidsWithout(files, i, files[i].parent);
  }

  ghost predicate Distinct(files: seq<FileNode>) {
    forall i, j | 0 <= i < j < |files| :: files[i] != files[j]
  }

  /** Every node comes before its parent, which is a directory of the list. */
  ghost predicate ChildrenFirst(files: seq<FileNode>) {
    forall i {:trigger files[i].parent} | 0 <= i < |files| && files[i].parent != null ::
      files[i].parent.isDirectory && exists j :: i < j < |files| && files[j] == files[i].parent
  }

  lemma WithoutLeaf(files: seq<FileNode>, i: nat)
    requires i < |files| && Distinct(files) && ChildrenFirst(files) && Kids(files, files[i]) == 0
    ensures Distinct(Without(files, i)) && ChildrenFirst(Without(files, i))
  {
    var rest := Without(files, i);
    forall k | 0 <= k < |rest| && rest[k].parent != null
      ensures rest[k].parent.isDirectory && exists j :: k < j < |rest| && rest[j] == rest[k].parent
    {
      var k' := if k < i then k else k + 1;
      var j :| k' < j < |files| && files[j] == files[k'].parent;
      HasKid(files, k');
      assert j != i;
      assert rest[if j < i then j else j - 1] == rest[k].parent;
    }
  }

  lemma ToHead(files: seq<FileNode>, i: nat)
    requires i < |files| && Distinct(files) && ChildrenFirst(files) && Kids(files, files[i]) == 0
    ensures Distinct([files[i]] + Without(files, i)) && ChildrenFirst([files[i]] + Without(files, i))
  {
    var rest := Without(files, i);
    var moved := [files[i]] + rest;
    WithoutLeaf(files, i);
    forall k | 0 <= k < |moved| && moved[k].parent != null
      ensures moved[k].parent.isDirectory && exists j :: k < j < |moved| && moved[j] == moved[k].parent
    {
      if k == 0 {
        var j :| i < j < |files| && files[j] == files[i].parent;
        assert moved[j] == files[j];
      } else {
        var j :| k - 1 < j < |rest| && rest[j] == rest[k - 1].parent;
        assert moved[j + 1] == rest[j];
      }
    }
  }

  lemma NewHead(files: seq<FileNode>, child: FileNode)
    requires Distinct(files) && ChildrenFirst(files) && child !in files
    requires child.parent != null ==> child.parent in files && child.parent.isDirectory
    ensures Distinct([child] + files) && ChildrenFirst([child] + files)
    ensures Kids([child] + files, child) == 0
    ensures forall f :: Kids([child] + files, f) == Kids(files, f) + if child.parent == f then 1 else 0
  {
    var added := [child] + files;
    forall k | 0 <= k < |added| && added[k].parent != null
      ensures added[k].parent.isDirectory && exists j :: k < j < |added| && added[j] == added[k].parent
    {
      if k == 0 {
        var j :| 0 <= j < |files| && files[j] == child.parent;
        assert added[j + 1] == files[j];
      } else {
        var j :| k - 1 < j < |files| && files[j] == files[k - 1].parent;
        assert added[j + 1] == files[j];
      }
    }
    if Kids(files, child) > 0 {
      var k := SomeKid(files, child);
      assert false;
    }
  }

  lemma {:induction false} SomeKid(files: seq<FileNode>, dir: FileNode) returns (k: nat)
    requires Kids(files, dir) > 0
    ensures k < |files| && files[k].parent == dir
  {
    if files[0].parent == dir {
      k := 0;
    } else {
      k := SomeKid(files[1..], dir);
      k := k + 1;
    }
  }

  lemma NoKidsUnlessDirectory(files: seq<FileNode>, i: nat)
    requires i < |files| && ChildrenFirst(files) && !files[i].isDirectory
    ensures Kids(files, files[i]) == 0
  {
    if Kids(files, files[i]) > 0 {
      var k := SomeKid(files, files[i]);
    }
  }

  lemma MovedCounts(files: seq<FileNode>, i: nat)
    requires i < |files|
    ensures forall f :: Kids([files[i]] + Without(files, i), f) == Kids(files, f)
  {
    forall f ensures Kids([files[i]] + Without(files, i), f) == Kids(files, f) {
      KidsWithout(files, i, f);
      KidsSum([files[i]], Without(files, i), f);
    }
  }

  lemma SameNodes(files: seq<FileNode>, i: nat)
    requires i < |files|
    ensures forall g | g in files :: g in [files[i]] + Without(files, i)
    ensures forall g | g in [files[i]] + Without(files, i) :: g in files
  {
    var rest := Without(files, i);
    forall k | 0 <= k < |files| ensures files[k] == files[i] || files[k] in rest {
      if k != i {
        assert files[k] == rest[if k < i then k else k - 1];
      }
    }
  }

  /** How many of the first n nodes of the list belong to a filesystem. */
  function InSystem(files: seq<FileNode>, fs: nat, n: nat): nat
    requires n <= |files|
  {
    if n == 0 then 0 else InSystem(files, fs, n - 1) + if files[n - 1].fileSystem == fs then 1 else 0
  }

  lemma {:induction false} InSystemSame(a: seq<FileNode>, b: seq<FileNode>, fs: nat, n: nat)
    requires n <= |a| && n <= |b| && forall k | 0 <= k < n :: a[k] == b[k]
    ensures InSystem(a, fs, n) == InSystem(b, fs, n)
  {
    if n > 0 {
      InSystemSame(a, b, fs, n - 1);
    }
  }

  lemma {:induction false} InSystemAt(files: seq<FileNode>, fs: nat, n: nat, i: nat)
    requires i < n <= |files| && files[i].fileSystem == fs
    ensures InSystem(files, fs, n) > 0
  {
    if i < n - 1 {
      InSystemAt(files, fs, n - 1, i);
    }
  }

  lemma {:induction false} OnlyOneInSystem(files: seq<FileNode>, fs: nat, n: nat, i: nat)
    requires i < n <= |files| && files[i].fileSystem == fs && InSystem(files, fs, n) <= 1
    ensures forall k | 0 <= k < n && files[k].fileSystem == fs :: k == i
  {
    if i < n - 1 {
      InSystemAt(files, fs, n - 1, i);
      OnlyOneInSystem(files, fs, n - 1, i);
    } else {
      forall k | 0 <= k < n && files[k].fileSystem == fs ensures k == i {
        if k < i {
          InSystemAt(files, fs, n - 1, k);
        }
      }
    }
  }

  /** The nodes now listed are old ones; those that are gone are held by nobody. */
  ghost predicate UnheldGone(was: seq<FileNode>, now: seq<FileNode>)
    reads was`holds
  {
    && (forall k | 0 <= k < |now| :: now[k] in was)
    && (forall k | 0 <= k < |was| && was[k] !in now :: was[k].holds == 0)
  }

  lemma UnheldOn(was: seq<FileNode>, now: seq<FileNode>, i: nat)
    requires UnheldGone(was, now) && i < |now| && now[i].holds == 0
    ensures UnheldGone(was, Without(now, i))
  {
    var left := Without(now, i);
    assert forall k | 0 <= k < |now| && k != i :: now[k] == left[if k < i then k else k - 1];
    forall k | 0 <= k < |was| && was[k] !in left ensures was[k].holds == 0 {
      if was[k] in now {
        var j :| 0 <= j < |now| && now[j] == was[k];
        assert j == i;
      }
    }
  }

  /** The nodes now listed are old ones; those that are gone are of one filesystem, and nobody holds them. */
  ghost predicate GoneOf(was: seq<FileNode>, now: seq<FileNode>, fs: nat)
    reads was`holds
  {
    && (forall k | 0 <= k < |now| :: now[k] in was)
    && (forall k | 0 <= k < |was| && was[k] !in now :: was[k].holds == 0 && was[k].fileSystem == fs)
  }

  lemma GoneOn(was: seq<FileNode>, now: seq<FileNode>, i: nat, fs: nat)
    requires GoneOf(was, now, fs) && i < |now| && now[i].holds == 0 && now[i].fileSystem == fs
    ensures GoneOf(was, Without(now, i), fs)
  {
    var left := Without(now, i);
    assert forall k | 0 <= k < |now| && k != i :: now[k] == left[if k < i then k else k - 1];
    forall k | 0 <= k < |was| && was[k] !in left ensures was[k].holds == 0 && was[k].fileSystem == fs {
      if was[k] in now {
        var j :| 0 <= j < |now| && now[j] == was[k];
        assert j == i;
      }
    }
  }

  lemma GoneTwice(was: seq<FileNode>, mid: seq<FileNode>, now: seq<FileNode>, fs: nat)
    requires GoneOf(was, mid, fs) && GoneOf(mid, now, fs)
    ensures GoneOf(was, now, fs)
  {
    forall k | 0 <= k < |was| && was[k] !in now ensures was[k].holds == 0 && was[k].fileSystem == fs {
      if was[k] in mid {
        var j :| 0 <= j < |mid| && mid[j] == was[k];
      }
    }
  }

  class FileFolio {
    var files: seq<FileNode>
    var opensSinceCleanup: nat

    /** No use count is below the number of references. */
    ghost predicate Counted()
      reads this`files, files
    {
      forall i | 0 <= i < |files| :: files[i].useCount >= files[i].holds + Kids(files, files[i])
    }

    ghost predicate Valid()
      reads this`files, files
    {
      Distinct(files) && ChildrenFirst(files) && Counted()
    }

    /** The use counts are the number of references. */
    ghost predicate Exact()
      reads this`files, files
    {
      forall i | 0 <= i < |files| :: files[i].useCount == files[i].holds + Kids(files, files[i])
    }

    /** FileDriverInit: the root of the world is listed, and locked in. */
    constructor ()
      ensures Valid() && Exact() && |files| == 1 && fresh(files[0])
      ensures files[0].isDirectory && files[0].parent == null && files[0].useCount == files[0].holds == 1
      ensures files[0].fileSystem == NO_FILE_SYSTEM && opensSinceCleanup == 0
    {
      var root := new FileNode(null, true, false, NO_FILE_SYSTEM);
      root.useCount := 1;
      root.holds := 1;
      files, opensSinceCleanup := [root], 0;
    }

    /** The nodes that are still listed are old ones, and those that are not were held by nobody. */
    twostate predicate OnlyUnheldGone()
      reads this`files, files
    {
      && (forall k | 0 <= k < |files| :: files[k] in old(files))
      && (forall k | 0 <= k < |old(files)| && old(files)[k] !in files :: old(files[k].holds) == 0)
    }

    /** DeleteFileItem, for the i-th node of the list: refused while the node is in use. */
    method DeleteFileItem(i: nat) returns (ok: bool)
      requires Valid() && i < |files|
      modifies this`files, files`useCount
      ensures Valid() && (old(Exact()) ==> Exact())
      ensures ok <==> old(files[i].useCount) == 0
      ensures files == if ok then Without(old(files), i) else old(files)
      ensures forall k | 0 <= k < i :: files[k] == old(files)[k] && files[k].useCount == old(files[k].useCount)
      ensures OnlyUnheldGone()
    {
      var node := files[i];
      if node.useCount != 0 {
        return false;
      }
      ghost var was := files;
      WithoutLeaf(files, i);
      files := Without(files, i);
      if node.parent != null {
        node.parent.useCount := node.parent.useCount - 1;
      }
      ghost var exact := old(Exact());
      forall k | 0 <= k < |files| ensures HasCount(files[k], Kids(files, files[k]), exact) {
        KidsWithout(was, i, files[k]);
        assert old(HasCount(was[if k < i then k else k + 1], Kids(was, was[if k < i then k else k + 1]), exact));
      }
      return true;
    }

    /** The node's use count is at least, or is, the number of its references. */
    ghost predicate HasCount(f: FileNode, kids: nat, exact: bool)
      reads f
    {
      f.useCount >= f.holds + kids && (exact ==> f.useCount == f.holds + kids)
    }

    /** An unused node that nobody holds goes. */
    method DeleteUnused(ghost was: seq<FileNode>, i: nat)
      requires Valid() && UnheldGone(was, files) && i < |files| && files[i].useCount == 0
      modifies this`files, files`useCount
      ensures Valid() && (old(Exact()) ==> Exact()) && UnheldGone(was, files) && |files| == |old(files)| - 1
      ensures forall f | f in files :: f in old(files)
      ensures forall k | 0 <= k < i :: files[k] == old(files)[k] && files[k].useCount == old(files[k].useCount)
    {
      UnheldOn(was, files, i);
      var ok := DeleteFileItem(i);
    }

    /** TrimAllZeroUseFiles: one pass suffices, although it makes more nodes unused on its way. */
    method TrimAllZeroUseFiles()
      requires Valid()
      modifies this`files, this`opensSinceCleanup, files`useCount
      ensures Valid() && (old(Exact()) ==> Exact())
      ensures forall f | f in files :: f.useCount > 0
      ensures OnlyUnheldGone()
    {
      ghost var was := files;
      var i := 0;
      while i < |files|
        invariant Valid() && (old(Exact()) ==> Exact()) && 0 <= i <= |files|
        invariant forall k | 0 <= k < i :: files[k].useCount > 0
        invariant UnheldGone(was, files)
        decreases |files| - i
      {
        if files[i].useCount == 0 {
          DeleteUnused(was, i);
        } else {
          i := i + 1;
        }
      }
      opensSinceCleanup := 0;
    }

    /** TrimSomeZeroUseFiles: of the unused nodes the first few on the list are kept, and no others. */
    method TrimSomeZeroUseFiles()
      requires Valid()
      modifies this`files, this`opensSinceCleanup, files`useCount
      ensures Valid() && (old(Exact()) ==> Exact())
      ensures |set f | f in files && f.useCount == 0| <= MAX_ZERO_USE_FILES
      ensures forall f | f in old(FirstUnused(files, |files|, MAX_ZERO_USE_FILES)) :: f in files
      ensures forall f | f in files && f.useCount == 0 :: f in old(FirstUnused(files, |files|, MAX_ZERO_USE_FILES))
      ensures OnlyUnheldGone() && opensSinceCleanup == 0
    {
      ghost var early := FirstUnused(files, |files|, MAX_ZERO_USE_FILES);
      FirstAreFew(files, |files|, MAX_ZERO_USE_FILES);
      TrimAfterFirst(early);
      opensSinceCleanup := 0;
      FewerIn((set f | f in files && f.useCount == 0), early);
    }

    method TrimAfterFirst(ghost early: set<FileNode>)
      requires Valid() && early == FirstUnused(files, |files|, MAX_ZERO_USE_FILES)
      modifies this`files, files`useCount
      ensures Valid() && (old(Exact()) ==> Exact()) && OnlyUnheldGone()
      ensures forall f | f in early :: f in files
      ensures forall f | f in files && f.useCount == 0 :: f in early
    {
      var limit: int := MAX_ZERO_USE_FILES;
      ghost var was := files;
      var i: nat := 0;
      while i < |files|
        invariant Valid() && (old(Exact()) ==> Exact()) && UnheldGone(was, files)
        invariant Decided(was, i, limit, early)
        decreases |files| - i
      {
        i, limit := TrimOne(was, i, limit, early);
      }
      AllThere(was, i, limit, early);
    }

    /** Up to here it is decided which nodes go. */
    ghost predicate Decided(was: seq<FileNode>, i: nat, limit: int, early: set<FileNode>)
      reads this`files, files, was
    {
      && i <= |files| && limit <= MAX_ZERO_USE_FILES
      && (forall k | 0 <= k < i :: files[k].useCount == 0 ==> files[k] in early)
      && if limit < 0 then early <= set k | 0 <= k < i :: files[k]
         else && files == was && early == FirstUnused(was, |was|, MAX_ZERO_USE_FILES)
              && UnusedIn(was, i) == MAX_ZERO_USE_FILES - limit
    }

    lemma AllThere(was: seq<FileNode>, i: nat, limit: int, early: set<FileNode>)
      requires Decided(was, i, limit, early) && i == |files|
      ensures forall f | f in early :: f in files
      ensures forall f | f in files && f.useCount == 0 :: f in early
    {
      if 0 <= limit {
        FirstOnly(was, |was|, |was|, MAX_ZERO_USE_FILES);
      }
    }

    method TrimOne(ghost was: seq<FileNode>, i: nat, limit: int, ghost early: set<FileNode>)
      returns (i': nat, limit': int)
      requires Valid() && UnheldGone(was, files) && i < |files| && Decided(was, i, limit, early)
      modifies this`files, files`useCount
      ensures Valid() && (old(Exact()) ==> Exact()) && UnheldGone(was, files) && Decided(was, i', limit', early)
      ensures forall f | f in files :: f in old(files)
      ensures |files| - i' < |old(files)| - i
    {
      i', limit' := i, limit;
      var go := false;
      if files[i].useCount == 0 {
        limit' := limit - 1;
        go := limit' < 0;
      }
      if go {
        if 0 <= limit {
          FirstOnly(was, i, |was|, MAX_ZERO_USE_FILES);
        }
        DeleteUnused(was, i);
      } else {
        if 0 <= limit {
          FirstGrows(was, i + 1, |was|, MAX_ZERO_USE_FILES);
        }
        i' := i + 1;
      }
    }

    /** How many of the first k nodes are unused. */
    ghost function UnusedIn(nodes: seq<FileNode>, k: nat): nat
      requires k <= |nodes|
      reads nodes
    {
      if k == 0 then 0 else UnusedIn(nodes, k - 1) + if nodes[k - 1].useCount == 0 then 1 else 0
    }

    /** Those of the first k nodes that are unused, with fewer than so many unused ones before them. */
    ghost function FirstUnused(nodes: seq<FileNode>, k: nat, most: nat): set<FileNode>
      requires k <= |nodes|
      reads nodes
    {
      if k == 0 then {} else
      FirstUnused(nodes, k - 1, most)
      + if nodes[k - 1].useCount == 0 && UnusedIn(nodes, k - 1) < most then {nodes[k - 1]} else {}
    }

    lemma {:induction false} FirstMeans(nodes: seq<FileNode>, k: nat, most: nat, f: FileNode)
      requires k <= |nodes|
      ensures f in FirstUnused(nodes, k, most) <==>
                exists j | 0 <= j < k :: nodes[j] == f && f.useCount == 0 && UnusedIn(nodes, j) < most
    {
      if 0 < k {
        FirstMeans(nodes, k - 1, most, f);
      }
    }

    lemma UnusedGrows(nodes: seq<FileNode>, i: nat, k: nat)
      requires i <= k <= |nodes|
      ensures UnusedIn(nodes, i) <= UnusedIn(nodes, k)
    {
      if i < k {
        UnusedGrows(nodes, i, k - 1);
      }
    }

    lemma FirstGrows(nodes: seq<FileNode>, i: nat, k: nat, most: nat)
      requires i <= k <= |nodes|
      ensures FirstUnused(nodes, i, most) <= FirstUnused(nodes, k, most)
    {
      if i < k {
        FirstGrows(nodes, i, k - 1, most);
      }
    }

    /** Behind so many unused nodes there are no first ones. */
    lemma FirstOnly(nodes: seq<FileNode>, i: nat, k: nat, most: nat)
      requires i <= k <= |nodes| && (i == k || most <= UnusedIn(nodes, i))
      ensures FirstUnused(nodes, k, most) <= set j | 0 <= j < i :: nodes[j]
    {
      if i < k {
        UnusedGrows(nodes, i, k - 1);
      }
      if 0 < k {
        FirstOnly(nodes, if i < k then i else k - 1, k - 1, most);
      }
    }

    lemma {:induction false} FirstAreFew(nodes: seq<FileNode>, k: nat, most: nat)
      requires k <= |nodes|
      ensures |FirstUnused(nodes, k, most)| <= UnusedIn(nodes, k)
      ensures |FirstUnused(nodes, k, most)| <= most
    {
      if 0 < k {
        FirstAreFew(nodes, k - 1, most);
      }
    }

    // ---------------------------------------------------------------- references

    /** One reference more from outside. */
    method Hold(f: FileNode)
      requires Valid() && f in files
      modifies f`useCount, f`holds
      ensures Valid() && (old(Exact()) ==> Exact())
      ensures f.useCount == old(f.useCount) + 1 && f.holds == old(f.holds) + 1
    {
      f.useCount := f.useCount + 1;
      f.holds := f.holds + 1;
    }

    method Release(f: FileNode)
      requires Valid() && f in files && f.holds > 0
      modifies f`useCount, f`holds
      ensures Valid() && (old(Exact()) ==> Exact())
      ensures f.useCount == old(f.useCount) - 1 && f.holds == old(f.holds) - 1
    {
      f.useCount := f.useCount - 1;
      f.holds := f.holds - 1;
    }

    /** FindFile has read a directory entry: a node for it goes to the head of the list. If the filesystem then
        refuses to open the entry, the directory's use count has still gone up, for good. */
    method AddNode(dir: FileNode, directory: bool, notCached: bool, refused: bool) returns (node: FileNode?)
      requires Valid() && dir in files && dir.isDirectory
      modifies this`files, dir`useCount
      ensures Valid() && dir.useCount == old(dir.useCount) + 1
      ensures if refused then node == null && files == old(files)
              else node != null && fresh(node) && files == [node] + old(files)
                   && node.parent == dir && node.isDirectory == directory && node.useCount == node.holds == 0
      ensures old(Exact()) ==> (Exact() <==> !refused)
    {
      dir.useCount := dir.useCount + 1;
      if refused {
        return null;
      }
      var child := new FileNode(dir, directory, notCached, dir.fileSystem);
      NewHead(files, child);
      files := [child] + files;
      return child;
    }

    /** A filesystem is mounted: its root is locked in, below the root of the world. */
    method MountRoot(world: FileNode, fs: nat) returns (root: FileNode)
      requires Valid() && world in files && world.isDirectory
      modifies this`files, world`useCount
      ensures Valid() && (old(Exact()) ==> Exact())
      ensures fresh(root) && files == [root] + old(files)
      ensures root.isDirectory && root.parent == world && root.fileSystem == fs && root.useCount == root.holds == 1
    {
      root := new FileNode(world, true, false, fs);
      NewHead(files, root);
      files := [root] + files;
      world.useCount := world.useCount + 1;
      root.useCount := 1;
      root.holds := 1;
    }

    /** OpenAFile: the open file keeps its node from being scavenged. Every so often some unused nodes go. */
    method OpenAFile(i: nat, f: FileNode)
      requires Valid() && i < |files| && files[i] == f
      modifies this`files, this`opensSinceCleanup, files`useCount, f`holds
      ensures Valid() && (old(Exact()) ==> Exact())
      ensures f in files && f.holds == old(f.holds) + 1
      ensures forall k | 0 <= k < |old(files)| && old(files)[k] !in files :: old(files[k].holds) == 0
      ensures old(opensSinceCleanup) + 1 < CLEANUP_TIMER_LIMIT ==>
                && opensSinceCleanup == old(opensSinceCleanup) + 1
                && files == if f.isDirectory then old(files) else [f] + Without(old(files), i)
      ensures old(opensSinceCleanup) + 1 >= CLEANUP_TIMER_LIMIT ==>
                && opensSinceCleanup == 0
                && |set g | g in files && g.useCount == 0| <= MAX_ZERO_USE_FILES
    {
      Hold(f);
      if !f.isDirectory {
        MoveToHead(i, f);
      }
      ghost var listed := files;
      CountOpen(f);
      forall k | 0 <= k < |old(files)| && old(files)[k] !in files ensures old(files[k].holds) == 0 {
        assert old(files)[k] in listed;
        var j :| 0 <= j < |listed| && listed[j] == old(files)[k];
      }
    }

    /** Every so often an open lets some unused nodes go; the node just opened is not among them. */
    method CountOpen(f: FileNode)
      requires Valid() && f in files && f.holds > 0
      modifies this`files, this`opensSinceCleanup, files`useCount
      ensures Valid() && (old(Exact()) ==> Exact())
      ensures f in files && OnlyUnheldGone()
      ensures old(opensSinceCleanup) + 1 < CLEANUP_TIMER_LIMIT ==>
                opensSinceCleanup == old(opensSinceCleanup) + 1 && files == old(files)
      ensures old(opensSinceCleanup) + 1 >= CLEANUP_TIMER_LIMIT ==>
                && opensSinceCleanup == 0
                && |set g | g in files && g.useCount == 0| <= MAX_ZERO_USE_FILES
    {
      opensSinceCleanup := opensSinceCleanup + 1;
      if opensSinceCleanup >= CLEANUP_TIMER_LIMIT {
        TrimSomeZeroUseFiles();
      }
    }

    method MoveToHead(i: nat, f: FileNode)
      requires Valid() && i < |files| && files[i] == f && !f.isDirectory
      modifies this`files
      ensures Valid() && (old(Exact()) ==> Exact())
      ensures files == [f] + Without(old(files), i)
      ensures forall g | g in old(files) :: g in files
      ensures forall k | 0 <= k < |files| :: files[k] in old(files)
    {
      NoKidsUnlessDirectory(files, i);
      ToHead(files, i);
      MovedCounts(files, i);
      SameNodes(files, i);
      files := [f] + Without(files, i);
      StillCounted();
    }

    /** The same nodes with the same counts, in another order. */
    twostate lemma StillCounted()
      requires forall k | 0 <= k < |files| :: files[k] in old(files)
      requires forall f :: Kids(files, f) == Kids(old(files), f)
      requires forall f | f in old(files) :: f.useCount == old(f.useCount) && f.holds == old(f.holds)
      requires old(Counted())
      ensures Counted() && (old(Exact()) ==> Exact())
    {
      forall k | 0 <= k < |files|
        ensures files[k].useCount >= files[k].holds + Kids(files, files[k])
        ensures old(Exact()) ==> files[k].useCount == files[k].holds + Kids(files, files[k])
      {
        var j :| 0 <= j < |old(files)| && old(files)[j] == files[k];
      }
    }

    /** CleanupOpenFile: the last close of a node whose contents must not be kept deletes it. */
    method CleanupOpenFile(i: nat, f: FileNode)
      requires Valid() && i < |files| && files[i] == f && f.holds > 0
      modifies this`files, files`useCount, f`holds
      ensures Valid() && (old(Exact()) ==> Exact())
      ensures f.holds == old(f.holds) - 1
      ensures files == if old(f.useCount) == 1 && f.infoNotCached then Without(old(files), i) else old(files)
    {
      Release(f);
      if f.useCount == 0 && f.infoNotCached {
        var ok := DeleteFileItem(i);
      }
    }

    /** A task's current or program directory changes; it may have had none. */
    method SwitchDirectory(was: FileNode?, dir: FileNode)
      requires Valid() && dir in files && (was != null ==> was in files && was.holds > 0)
      modifies files`useCount, files`holds
      ensures Valid() && (old(Exact()) ==> Exact())
      ensures was != dir ==> dir.holds == old(dir.holds) + 1 && (was != null ==> was.holds == old(was.holds) - 1)
      ensures was == dir ==> dir.holds == old(dir.holds)
      ensures forall f | f in files && f != dir && f != was :: f.holds == old(f.holds) && f.useCount == old(f.useCount)
    {
      if was != null {
        Release(was);
      }
      Hold(dir);
    }

    /** DeleteFileTask: the task's directories are given up; a task that is not a thread takes the unused nodes
        along. */
    method DeleteFileTask(current: FileNode?, program: FileNode?, isThread: bool)
      requires Valid()
      requires current != null ==> current in files && current.holds > if program == current then 1 else 0
      requires program != null ==> program in files && program.holds > 0
      modifies this`files, this`opensSinceCleanup, files`useCount, files`holds
      ensures Valid() && (old(Exact()) ==> Exact())
      ensures forall f | f in old(files) ::
                f.holds == old(f.holds) - (if f == current then 1 else 0) - if f == program then 1 else 0
      ensures isThread ==> files == old(files)
      ensures !isThread ==> forall f | f in files :: f.useCount > 0
    {
      if current != null {
        Release(current);
      }
      if program != null {
        Release(program);
      }
      if !isThread {
        TrimAllZeroUseFiles();
      }
    }

    // ---------------------------------------------------------------- dismounting

    /** Every listed node of the filesystem is in use. */
    ghost predicate AllInUse(fs: nat)
      reads this`files, files
    {
      InUseUpTo(fs, |files|)
    }

    ghost predicate InUseUpTo(fs: nat, n: nat)
      reads this`files, files
    {
      n <= |files| && forall k | 0 <= k < n && files[k].fileSystem == fs :: files[k].useCount > 0
    }

    /** One pass over a filesystem's nodes: every one that can go goes, and those that cannot are counted. The
        owner of a node may be gone, which ends the pass. */
    method ReleasePass(fs: nat) returns (keepGoing: bool, inUse: nat, ownerLost: bool)
      requires Valid()
      modifies this`files, files`useCount
      ensures Valid() && GoneOf(old(files), files, fs)
      ensures !ownerLost ==> inUse == InSystem(files, fs, |files|) && AllInUse(fs)
      ensures old(AllInUse(fs)) ==> !keepGoing && !ownerLost
    {
      keepGoing, inUse, ownerLost := false, 0, false;
      ghost var settled, was := AllInUse(fs), files;
      var i := 0;
      while i < |files| && !ownerLost
        invariant Valid() && GoneOf(was, files, fs) && Counting(fs, i, inUse)
        invariant settled ==> !keepGoing && !ownerLost && AllInUse(fs)
        decreases |files| - i, !ownerLost
      {
        if files[i].fileSystem == fs && files[i].useCount == 0 {
          ownerLost := ReleaseNode(was, i, fs, inUse);
          keepGoing := keepGoing || !ownerLost;
        } else {
          CountOne(fs, i, inUse);
          inUse := inUse + if files[i].fileSystem == fs then 1 else 0;
          i := i + 1;
        }
      }
    }

    /** The first i nodes have been passed: those of the filesystem are counted, and in use. */
    ghost predicate Counting(fs: nat, i: nat, inUse: nat)
      reads this`files, files
    {
      i <= |files| && inUse == InSystem(files, fs, i) && InUseUpTo(fs, i)
    }

    lemma CountOne(fs: nat, i: nat, inUse: nat)
      requires i < |files| && Counting(fs, i, inUse) && (files[i].fileSystem == fs ==> files[i].useCount > 0)
      ensures Counting(fs, i + 1, inUse + if files[i].fileSystem == fs then 1 else 0)
    {
    }

    /** An unused node goes, unless its owner is gone. */
    method ReleaseNode(ghost was: seq<FileNode>, i: nat, fs: nat, ghost inUse: nat) returns (ownerLost: bool)
      requires Valid() && GoneOf(was, files, fs) && i < |files| && Counting(fs, i, inUse)
      requires files[i].fileSystem == fs && files[i].useCount == 0
      modifies this`files, files`useCount
      ensures Valid() && GoneOf(was, files, fs) && Counting(fs, i, inUse) && old(!AllInUse(fs))
      ensures |files| == |old(files)| - if ownerLost then 0 else 1
    {
      var ownerFound: bool := *;
      if ownerFound {
        ghost var before := files;
        GoneOn(was, files, i, fs);
        var ok := DeleteFileItem(i);
        InSystemSame(before, files, fs, i);
      }
      return !ownerFound;
    }

    /** SuperDismountFileSystem, as far as file nodes go: passes are repeated until one releases nothing, and the
        root goes last, if only its mount still holds it. The second pass is the last. */
    method Dismount(fs: nat, root: FileNode) returns (gone: bool, ownerLost: bool, ghost passes: nat)
      requires Valid() && root in files && root.fileSystem == fs && root.holds > 0
      modifies this`files, files`useCount, root`holds
      ensures Valid() && passes <= 2
      ensures gone ==> (forall f | f in files :: f.fileSystem != fs) && old(root.holds) == 1
      ensures !gone ==> root in files && root.holds == old(root.holds)
      ensures !gone && !ownerLost ==> AllInUse(fs) && (InSystem(files, fs, |files|) > 1 || root.useCount > 1)
      ensures forall k | 0 <= k < |old(files)| && old(files)[k] !in files ::
                old(files)[k].fileSystem == fs && (old(files)[k] != root ==> old(files[k].holds) == 0)
    {
      passes, ownerLost := 0, false;
      ghost var was := files;
      var keepGoing, inUse := true, 0;
      while keepGoing
        invariant Valid() && root in files && root.holds == old(root.holds) && GoneOf(was, files, fs)
        invariant passes <= 2 && (passes == 2 ==> !keepGoing)
        invariant if passes == 0 then keepGoing else inUse == InSystem(files, fs, |files|) && AllInUse(fs)
        decreases 2 - passes, keepGoing
      {
        ghost var before := files;
        ghost var k :| 0 <= k < |files| && files[k] == root;
        keepGoing, inUse, ownerLost := ReleasePass(fs);
        GoneTwice(was, before, files, fs);
        if ownerLost {
          return false, true, passes;
        }
        passes := passes + 1;
      }
      if inUse > 1 || root.useCount > 1 {
        return false, false, passes;
      }
      DeleteRoot(fs, root);
      return true, false, passes;
    }

    method DeleteRoot(fs: nat, root: FileNode)
      requires Valid() && root in files && root.fileSystem == fs && root.holds > 0 && root.useCount <= 1
      requires InSystem(files, fs, |files|) <= 1
      modifies this`files, files`useCount, root`holds
      ensures Valid() && old(root.holds) == 1
      ensures forall f | f in files :: f.fileSystem != fs
      ensures forall k | 0 <= k < |old(files)| && old(files)[k] != root :: old(files)[k] in files
    {
      var i :| 0 <= i < |files| && files[i] == root;
      OnlyOneInSystem(files, fs, |files|, i);
      assert Kids(files, root) == 0 && root.holds == 1;
      root.useCount := 0;
      root.holds := 0;
      OthersStay(files, i, fs);
      var ok := DeleteFileItem(i);
    }
  }

  lemma OthersStay(files: seq<FileNode>, i: nat, fs: nat)
    requires i < |files| && forall k | 0 <= k < |files| && files[k].fileSystem == fs :: k == i
    ensures forall f | f in Without(files, i) :: f.fileSystem != fs
    ensures forall k | 0 <= k < |files| && files[k] != files[i] :: files[k] in Without(files, i)
  {
    var rest := Without(files, i);
    forall k | 0 <= k < |files| && files[k] != files[i] ensures files[k] in rest {
      assert files[k] == rest[if k < i then k else k - 1];
    }
  }

  lemma {:induction false} FewerIn<T>(some: set<T>, all: set<T>)
    requires some <= all
    ensures |some| <= |all|
  {
    if some != {} {
      var x :| x in some;
      FewerIn(some - {x}, all - {x});
    }
  }
}
