/**
 Looking a name up in a directory: first in the blocks that happen to be cached, by number, then along
 the directory's chain of blocks, filling the cache on the way.
 */
module DirectoryCache {
  import opened Common

  /** The size of a page of the cache. */
  const FILESYSTEM_DEFAULT_BLOCKSIZE := 2048
  const CACHE_PRIO_HIT := 16
  const CACHE_PRIO_MISS := 8

  datatype Record = Record(name: string, id: nat)

  /** A directory block: its records up to the one marked last in its block, and whether that is the last of all. */
  datatype Page = Page(next: int, records: seq<Record>, lastInDir: bool)

  /** A directory is known by its volume's and its own identifier. */
  datatype Key = Key(volume: nat, file: nat)

  datatype Entry = Entry(key: Key, block: int, priority: nat, page: Page)

  /** A scan has gone astray when it has followed more links than there are blocks. */
  datatype Outcome = Found(record: Record) | NotFound | ReadError | Astray

  /** The identifiers in an entry that was never filled; its block number is 0. */
  const NO_KEY := Key(0, 0)

  // ---------------------------------------------------------------- the plain scan

  /** The blocks that following the chain from block 0 visits. */
  ghost predicate IsChain(blocks: seq<Page>, chain: seq<int>) {
    && (chain == [] <==> blocks == [])
    && (chain != [] ==> chain[0] == 0)
    && (forall k | 0 <= k < |chain| :: 0 <= chain[k] < |blocks|)
    && (forall k | 0 <= k < |chain| - 1 :: !blocks[chain[k]].lastInDir && blocks[chain[k]].next == chain[k + 1])
    && (chain != [] ==>
          var last := blocks[chain[|chain| - 1]]; last.lastInDir || !(0 <= last.next < |blocks|))
  }

  /** Links lead on from a block in one way only, so a chain that ends visits no block twice. */
  lemma ChainVisitsOnce(blocks: seq<Page>, chain: seq<int>, i: nat, j: nat)
    requires IsChain(blocks, chain) && i < j < |chain|
    ensures chain[i] != chain[j]
    decreases |chain| - j
  {
    assert !blocks[chain[i]].lastInDir && blocks[chain[i]].next == chain[i + 1];
    if j < |chain| - 1 {
      ChainVisitsOnce(blocks, chain, i + 1, j + 1);
      assert blocks[chain[j]].next == chain[j + 1];
    }
  }

  /** A directory has one chain. */
  lemma ChainUnique(blocks: seq<Page>, a: seq<int>, b: seq<int>)
    requires IsChain(blocks, a) && IsChain(blocks, b)
    ensures a == b
  {
    var k := 0;
    while k < |a| && k < |b|
      invariant k <= |a| && k <= |b| && forall i | 0 <= i < k :: a[i] == b[i]
      invariant k > 0 && k < |a| ==> !blocks[a[k - 1]].lastInDir && blocks[a[k - 1]].next == a[k]
      invariant k > 0 && k < |b| ==> !blocks[b[k - 1]].lastInDir && blocks[b[k - 1]].next == b[k]
    {
      k := k + 1;
    }
  }

  lemma {:induction false} AtMost(chain: seq<int>, n: nat)
    requires forall i | 0 <= i < |chain| :: 0 <= chain[i] < n
    requires forall i, j | 0 <= i < j < |chain| :: chain[i] != chain[j]
    ensures |chain| <= n
    decreases n
  {
    if chain != [] {
      assert 0 <= chain[0] < n;
      if k :| 0 <= k < |chain| && chain[k] == n - 1 {
        AtMost(Without(chain, k), n - 1);
      } else {
        AtMost(chain, n - 1);
      }
    }
  }

  lemma ChainShort(blocks: seq<Page>, chain: seq<int>)
    requires IsChain(blocks, chain)
    ensures |chain| <= |blocks|
  {
    forall i, j | 0 <= i < j < |chain| ensures chain[i] != chain[j] {
      ChainVisitsOnce(blocks, chain, i, j);
    }
    AtMost(chain, |blocks|);
  }

  /** The first record of that name, from the i-th on. */
  function InPage(records: seq<Record>, i: nat, name: string): Option<Record>
    requires i <= |records|
    decreases |records| - i
  {
    if i == |records| then None
    else if SameName(name, records[i].name) then Some(records[i])
    else InPage(records, i + 1, name)
  }

  /** What a scan without a cache finds along the chain, from its k-th block on. */
  ghost function PlainScan(blocks: seq<Page>, chain: seq<int>, k: nat, name: string): Option<Record>
    requires IsChain(blocks, chain) && k <= |chain|
    decreases |chain| - k
  {
    if k == |chain| then None
    else
      var here := InPage(blocks[chain[k]].records, 0, name);
      if here.Some? then here else PlainScan(blocks, chain, k + 1, name)
  }

  lemma {:induction false} PlainScanFinds(blocks: seq<Page>, chain: seq<int>, k: nat, j: nat, name: string)
    requires IsChain(blocks, chain) && k <= j < |chain| && InPage(blocks[chain[j]].records, 0, name).Some?
    ensures PlainScan(blocks, chain, k, name).Some?
    decreases j - k
  {
    if k < j {
      PlainScanFinds(blocks, chain, k + 1, j, name);
    }
  }

  /** No name occurs in two blocks of the chain. */
  ghost predicate NamesDiffer(blocks: seq<Page>, chain: seq<int>)
    requires IsChain(blocks, chain)
  {
    forall name, j, k | 0 <= j < |chain| && 0 <= k < |chain|
        && InPage(blocks[chain[j]].records, 0, name).Some? && InPage(blocks[chain[k]].records, 0, name).Some? ::
      chain[j] == chain[k]
  }

  lemma {:induction false} PlainScanFindsThat(blocks: seq<Page>, chain: seq<int>, k: nat, j: nat, name: string)
    requires IsChain(blocks, chain) && NamesDiffer(blocks, chain)
    requires k <= j < |chain| && InPage(blocks[chain[j]].records, 0, name).Some?
    ensures PlainScan(blocks, chain, k, name) == InPage(blocks[chain[j]].records, 0, name)
    decreases j - k
  {
    if k < j && InPage(blocks[chain[k]].records, 0, name).None? {
      PlainScanFindsThat(blocks, chain, k + 1, j, name);
    }
  }

  /** None of the first k blocks of the chain has the name. */
  ghost predicate NotBefore(blocks: seq<Page>, chain: seq<int>, k: nat, name: string)
    requires IsChain(blocks, chain) && k <= |chain|
  {
    forall j | 0 <= j < k :: InPage(blocks[chain[j]].records, 0, name) == None
  }

  /** A block that cannot be read stands in the scan's way, before one that has the name. */
  ghost predicate Barred(blocks: seq<Page>, chain: seq<int>, name: string, bad: set<int>)
    requires IsChain(blocks, chain)
  {
    exists k | 0 <= k < |chain| :: chain[k] in bad && NotBefore(blocks, chain, k, name)
  }

  /** A scan that could read all that it needed is not barred. */
  lemma NotBarred(blocks: seq<Page>, chain: seq<int>, k: nat, name: string, bad: set<int>)
    requires IsChain(blocks, chain) && k <= |chain| && forall j | 0 <= j < k :: chain[j] !in bad
    requires k == |chain| || (chain[k] !in bad && InPage(blocks[chain[k]].records, 0, name).Some?)
    ensures !Barred(blocks, chain, name, bad)
  {
  }

  /** A scan for the name that has not found it in the first k blocks of the chain, which if it uses no cache it could
      read, is at this block, or at the end. */
  ghost predicate At(blocks: seq<Page>, chain: seq<int>, k: nat, block: int, name: string, bad: set<int>, plain: bool) {
    && IsChain(blocks, chain) && k <= |chain|
    && (if k < |chain| then block == chain[k] && (k > 0 ==> block != 0) else !(0 <= block < |blocks|))
    && PlainScan(blocks, chain, 0, name) == PlainScan(blocks, chain, k, name) && NotBefore(blocks, chain, k, name)
    && (plain ==> forall j | 0 <= j < k :: chain[j] !in bad)
  }

  /** The scan's answer: without a cache it is an error exactly if a bad block stands in its way. */
  ghost predicate Answered(blocks: seq<Page>, chain: seq<int>, name: string, bad: set<int>, plain: bool,
                           outcome: Outcome)
    requires IsChain(blocks, chain)
  {
    && AgreesOn(blocks, chain, name, bad, outcome)
    && (plain ==> (outcome.ReadError? <==> Barred(blocks, chain, name, bad)))
  }

  lemma ScanEnds(blocks: seq<Page>, chain: seq<int>, k: nat, block: int, name: string, bad: set<int>, plain: bool)
    requires At(blocks, chain, k, block, name, bad, plain) && !(0 <= block < |blocks|)
    ensures Answered(blocks, chain, name, bad, plain, NotFound)
  {
    if plain {
      NotBarred(blocks, chain, k, name, bad);
    }
  }

  lemma ScanFinds(blocks: seq<Page>, chain: seq<int>, k: nat, block: int, name: string, bad: set<int>, plain: bool)
    requires At(blocks, chain, k, block, name, bad, plain) && k < |chain| && (plain ==> block !in bad)
    requires InPage(blocks[block].records, 0, name).Some?
    ensures Answered(blocks, chain, name, bad, plain, Found(InPage(blocks[block].records, 0, name).value))
  {
    FoundInChain(blocks, chain, block, name, bad);
    if plain {
      NotBarred(blocks, chain, k, name, bad);
    }
  }

  lemma ScanFails(blocks: seq<Page>, chain: seq<int>, k: nat, block: int, name: string, bad: set<int>, plain: bool)
    requires At(blocks, chain, k, block, name, bad, plain) && k < |chain| && block in bad
    ensures Answered(blocks, chain, name, bad, plain, ReadError)
  {
  }

  lemma ChainHas(blocks: seq<Page>, chain: seq<int>, k: nat, block: int, name: string, bad: set<int>, plain: bool)
    requires At(blocks, chain, k, block, name, bad, plain) && 0 <= block < |blocks|
    ensures k < |chain| && block in chain
  {
  }

  lemma ScanOn(blocks: seq<Page>, chain: seq<int>, k: nat, block: int, name: string, bad: set<int>, plain: bool)
    requires At(blocks, chain, k, block, name, bad, plain) && k < |chain| && (plain ==> block !in bad)
    requires InPage(blocks[block].records, 0, name) == None
    ensures if blocks[block].lastInDir then Answered(blocks, chain, name, bad, plain, NotFound)
            else At(blocks, chain, k + 1, blocks[block].next, name, bad, plain) && blocks[block].next != 0
  {
    if k + 1 < |chain| {
      ChainVisitsOnce(blocks, chain, 0, k + 1);
    } else {
      assert PlainScan(blocks, chain, k + 1, name) == None;
      if plain {
        NotBarred(blocks, chain, k + 1, name, bad);
      }
    }
  }

  /** Scans along one chain agree if its blocks hold the same under the name. */
  lemma {:induction false} SameScan(a: seq<Page>, b: seq<Page>, chain: seq<int>, k: nat, name: string)
    requires IsChain(a, chain) && IsChain(b, chain) && k <= |chain|
    requires forall j | k <= j < |chain| ::
               InPage(a[chain[j]].records, 0, name) == InPage(b[chain[j]].records, 0, name)
    ensures PlainScan(a, chain, k, name) == PlainScan(b, chain, k, name)
    decreases |chain| - k
  {
    if k < |chain| {
      SameScan(a, b, chain, k + 1, name);
    }
  }

  /** The answer agrees with a scan of these blocks along their chain that uses no cache; it is an error only if a bad
      block stands in that scan's way. */
  ghost predicate AgreesOn(blocks: seq<Page>, chain: seq<int>, name: string, bad: set<int>, outcome: Outcome)
    requires IsChain(blocks, chain)
  {
    var plain := PlainScan(blocks, chain, 0, name);
    match outcome
    case NotFound => plain == None
    case ReadError => Barred(blocks, chain, name, bad)
    case Astray => false
    case Found(record) =>
      plain.Some? && SameName(name, record.name) && (NamesDiffer(blocks, chain) ==> plain == Some(record))
  }

  /** A record found in any block of the chain is an answer. */
  lemma FoundInChain(blocks: seq<Page>, chain: seq<int>, block: int, name: string, bad: set<int>)
    requires IsChain(blocks, chain) && block in chain && InPage(blocks[block].records, 0, name).Some?
    ensures AgreesOn(blocks, chain, name, bad, Found(InPage(blocks[block].records, 0, name).value))
  {
    var j :| 0 <= j < |chain| && chain[j] == block;
    PlainScanFinds(blocks, chain, 0, j, name);
    InPageNamed(blocks[block].records, 0, name);
    if NamesDiffer(blocks, chain) {
      PlainScanFindsThat(blocks, chain, 0, j, name);
    }
  }

  // ---------------------------------------------------------------- the cache

  predicate Is(e: Entry, key: Key, block: int) { e.key == key && e.block == block }

  /** The list is kept in order of priority. */
  ghost predicate Ordered(entries: seq<Entry>) {
    && (forall i, j | 0 <= i < j < |entries| :: entries[i].priority >= entries[j].priority)
    && (forall i | 0 <= i < |entries| :: entries[i].priority <= CACHE_PRIO_HIT)
  }

  /** No block is cached twice; but what looks like block 0 of the directory without identifiers may be unfilled. */
  ghost predicate KeysUnique(entries: seq<Entry>) {
    forall i, j | 0 <= i < j < |entries| && !Unfilled(entries[i]) ::
      !Is(entries[j], entries[i].key, entries[i].block)
  }

  /** An entry that was never filled has these identifiers; so has one filled from a directory without any. */
  predicate Unfilled(e: Entry) { Is(e, NO_KEY, 0) }

  /** The first entry for a block, which is the one that answers for it. */
  function FirstOf(entries: seq<Entry>, key: Key, block: int): Option<Entry> {
    if entries == [] then None
    else if Is(entries[0], key, block) then Some(entries[0])
    else FirstOf(entries[1..], key, block)
  }

  lemma {:induction false} FirstOfBoth(a: seq<Entry>, b: seq<Entry>, key: Key, block: int)
    ensures FirstOf(a + b, key, block) ==
              if FirstOf(a, key, block).Some? then FirstOf(a, key, block) else FirstOf(b, key, block)
  {
    if a == [] {
      assert a + b == b;
    } else {
      assert (a + b)[1..] == a[1..] + b;
      FirstOfBoth(a[1..], b, key, block);
    }
  }

  lemma FirstOfThree(a: seq<Entry>, x: Entry, b: seq<Entry>, key: Key, block: int)
    ensures FirstOf(a + [x] + b, key, block) ==
              if FirstOf(a, key, block).Some? then FirstOf(a, key, block)
              else if Is(x, key, block) then Some(x)
              else FirstOf(b, key, block)
  {
    FirstOfBoth(a + [x], b, key, block);
    FirstOfBoth(a, [x], key, block);
    assert FirstOf([x], key, block) == if Is(x, key, block) then Some(x) else None;
  }

  lemma {:induction false} FirstOfAt(entries: seq<Entry>, i: nat, key: Key, block: int)
    requires i <= |entries| && forall k | 0 <= k < i :: !Is(entries[k], key, block)
    requires i < |entries| ==> Is(entries[i], key, block)
    ensures FirstOf(entries, key, block) == if i < |entries| then Some(entries[i]) else None
  {
    if i > 0 {
      FirstOfAt(entries[1..], i - 1, key, block);
    }
  }

  lemma OnlyOneAnswers(a: seq<Entry>, x: Entry, b: seq<Entry>)
    requires forall k | 0 <= k < |a| :: !Is(a[k], x.key, x.block)
    ensures FirstOf(a + [x] + b, x.key, x.block) == Some(x)
  {
    FirstOfThree(a, x, b, x.key, x.block);
    FirstOfAt(a, |a|, x.key, x.block);
  }

  lemma {:induction false} FirstOfAged(a: seq<Entry>, b: seq<Entry>, key: Key, block: int)
    requires |a| == |b| && forall i | 0 <= i < |a| :: b[i] == Aged(a[i])
    ensures var f := FirstOf(a, key, block); FirstOf(b, key, block) == if f.Some? then Some(Aged(f.value)) else None
  {
    if a != [] {
      FirstOfAged(a[1..], b[1..], key, block);
    }
  }

  /** The entry holds a block of that chain. */
  ghost predicate Holds(e: Entry, blocks: seq<Page>, chain: seq<int>) {
    e.block in chain && 0 <= e.block < |blocks| && e.page == blocks[e.block]
  }

  /** Of a directory without identifiers the entries hold these blocks: all that have another number than 0, and the
      first one of those that look like block 0, which answers for it. */
  ghost predicate Shows(entries: seq<Entry>, blocks: seq<Page>, chain: seq<int>) {
    FirstShows(entries, blocks, chain) && OthersShow(entries, blocks, chain)
  }

  ghost predicate FirstShows(entries: seq<Entry>, blocks: seq<Page>, chain: seq<int>) {
    blocks != [] && FirstOf(entries, NO_KEY, 0).Some? ==> Holds(FirstOf(entries, NO_KEY, 0).value, blocks, chain)
  }

  ghost predicate OthersShow(entries: seq<Entry>, blocks: seq<Page>, chain: seq<int>) {
    forall i | 0 <= i < |entries| && entries[i].key == NO_KEY && entries[i].block != 0 ::
      Holds(entries[i], blocks, chain)
  }

  /** The entry that answers for this block holds the name. */
  predicate HasName(entries: seq<Entry>, key: Key, block: int, name: string) {
    FirstOf(entries, key, block).Some? && InPage(FirstOf(entries, key, block).value.page.records, 0, name).Some?
  }

  /** The page of the entry that answers for block 0 of a directory without identifiers. */
  function FirstPage(entries: seq<Entry>): Option<Page> {
    if FirstOf(entries, NO_KEY, 0).None? then None else Some(FirstOf(entries, NO_KEY, 0).value.page)
  }

  /** Every entry is one of those before, or has just got one of the two priorities of a block in use. */
  ghost predicate Touched(was: seq<Entry>, now: seq<Entry>) {
    forall i | 0 <= i < |now| ::
      now[i] in was || now[i].priority == CACHE_PRIO_HIT || now[i].priority == CACHE_PRIO_MISS
  }

  class Cache {
    var entries: seq<Entry>
    /** The medium, which is not written to, and the chain of each directory. */
    const directories: map<Key, seq<Page>>
    ghost const chains: map<Key, seq<int>>

    ghost predicate Medium() {
      forall key | key in directories :: key in chains && IsChain(directories[key], chains[key])
    }

    /** What the entry says is on the medium, in a block of its directory's chain. */
    ghost predicate Real(e: Entry) {
      e.key in directories && e.key in chains && Holds(e, directories[e.key], chains[e.key])
    }

    ghost predicate AllReal()
      reads this`entries
    {
      forall i | 0 <= i < |entries| :: entries[i].key == NO_KEY || Real(entries[i])
    }

    ghost predicate Valid()
      reads this`entries
    {
      Medium() && Ordered(entries) && KeysUnique(entries) && AllReal()
    }

    /** The directory as the cache shows it: in one without identifiers, the entry that answers for block 0, which may
        be unfilled, stands in for that block. */
    ghost function Shown(key: Key): seq<Page>
      requires key in directories
      reads this`entries
    {
      if key == NO_KEY && FirstPage(entries).Some? && directories[key] != [] then
        directories[key][0 := FirstPage(entries).value]
      else
        directories[key]
    }

    /** These may be the blocks of the directory, and their chain: they differ from those on the medium in block 0 at
        most, and only if the directory has no identifiers. */
    ghost predicate Readable(key: Key, blocks: seq<Page>, chain: seq<int>) {
      && key in directories && IsChain(blocks, chain) && |blocks| == |directories[key]|
      && (forall b | 0 < b < |blocks| :: blocks[b] == directories[key][b])
      && (key != NO_KEY ==> key in chains && blocks == directories[key] && chain == chains[key])
    }

    /** Of this directory the cache says what is in these blocks. */
    ghost predicate Faithful(key: Key, blocks: seq<Page>, chain: seq<int>)
      reads this`entries
    {
      Readable(key, blocks, chain) && (key == NO_KEY ==> Shows(entries, blocks, chain))
    }

    /** Of this directory the cache says what is on the medium: always, unless the directory has no identifiers and an
        unfilled entry is, or was, the first that looks like its block 0. */
    ghost predicate Trusted(key: Key)
      reads this`entries
    {
      key in directories && key in chains && Faithful(key, directories[key], chains[key])
    }

    /** InitFileCache: all entries are there, and none is filled: their pages are whatever the memory held. There
        may be no cache at all. */
    constructor (memory: seq<Page>, medium: map<Key, seq<Page>>, ghost order: map<Key, seq<int>>)
      requires forall key | key in medium :: key in order && IsChain(medium[key], order[key])
      ensures Valid() && directories == medium && chains == order && |entries| == |memory|
      ensures forall i | 0 <= i < |memory| :: entries[i] == Entry(NO_KEY, 0, 0, memory[i])
    {
      entries := seq(|memory|, i requires 0 <= i < |memory| => Entry(NO_KEY, 0, 0, memory[i]));
      directories, chains := medium, order;
    }

    /** The entry of a block, if there is one. */
    method FindCache(key: Key, block: int) returns (at: Option<nat>)
      ensures at.Some? ==> at.value < |entries| && FirstOf(entries, key, block) == Some(entries[at.value])
      ensures at.Some? ==> forall k | 0 <= k < at.value :: !Is(entries[k], key, block)
      ensures at.Some? ==> Is(entries[at.value], key, block)
      ensures at.None? ==> forall i | 0 <= i < |entries| :: !Is(entries[i], key, block)
      ensures at.None? ==> FirstOf(entries, key, block) == None
    {
      for i := 0 to |entries|
        invariant forall k | 0 <= k < i :: !Is(entries[k], key, block)
      {
        if Is(entries[i], key, block) {
          FirstOfAt(entries, i, key, block);
          return Some(i);
        }
      }
      FirstOfAt(entries, |entries|, key, block);
      return None;
    }

    /** The entry that answers for a block of the directory. */
    lemma AnswerHolds(key: Key, block: int, i: nat, blocks: seq<Page>, chain: seq<int>)
      requires Valid() && Faithful(key, blocks, chain) && i < |entries| && Is(entries[i], key, block)
      requires FirstOf(entries, key, block) == Some(entries[i]) && 0 <= block < |blocks|
      ensures Holds(entries[i], blocks, chain)
    {
    }

    /** An entry that was of use goes to the head of the list, with the highest priority. */
    method Promote(i: nat, ghost blocks: seq<Page>, ghost chain: seq<int>)
      requires Valid() && i < |entries|
      requires forall k | 0 <= k < i :: !Is(entries[k], entries[i].key, entries[i].block)
      modifies this`entries
      ensures Valid() && entries == [old(entries)[i].(priority := CACHE_PRIO_HIT)] + Without(old(entries), i)
      ensures old(Shows(entries, blocks, chain)) ==> Shows(entries, blocks, chain)
    {
      ghost var was := entries;
      var e := entries[i].(priority := CACHE_PRIO_HIT);
      FirstOfPromoted(entries[..i], entries[i], entries[i + 1..], e);
      assert entries == entries[..i] + [entries[i]] + entries[i + 1..];
      entries := [e] + Without(entries, i);
      forall k | 0 <= k < |entries| ensures entries[k] == e || entries[k] in was {
      }
      PromotedUnique(was, i, e);
    }

    /** The block takes the place of the last entry, unless it is larger than a page or that entry has a higher
        priority, and is queued by priority. */
    method AddCacheEntry(key: Key, block: int, page: Page, priority: nat, bytes: nat,
                         ghost blocks: seq<Page>, ghost chain: seq<int>)
      requires Valid() && priority <= CACHE_PRIO_HIT && (key == NO_KEY || Real(Entry(key, block, priority, page)))
      requires forall i | 0 <= i < |entries| :: !Is(entries[i], key, block)
      modifies this`entries
      ensures Valid() && |entries| == |old(entries)|
      ensures forall i | 0 <= i < |entries| ::
                entries[i] in old(entries) || entries[i] == Entry(key, block, priority, page)
      ensures if old(entries) == [] || bytes > FILESYSTEM_DEFAULT_BLOCKSIZE
                 || old(entries)[|old(entries)| - 1].priority > priority
              then entries == old(entries)
              else
                && FirstOf(entries, key, block) == Some(Entry(key, block, priority, page))
                && multiset(entries)
                     == multiset(old(entries)[..|old(entries)| - 1]) + multiset{Entry(key, block, priority, page)}
      ensures old(Shows(entries, blocks, chain))
              && (key == NO_KEY ==> Holds(Entry(key, block, priority, page), blocks, chain))
              ==> Shows(entries, blocks, chain)
    {
      if entries == [] || bytes > FILESYSTEM_DEFAULT_BLOCKSIZE || entries[|entries| - 1].priority > priority {
        return;
      }
      ReplaceLast(Entry(key, block, priority, page), blocks, chain);
    }

    method ReplaceLast(e: Entry, ghost blocks: seq<Page>, ghost chain: seq<int>)
      requires Valid() && entries != [] && e.priority <= CACHE_PRIO_HIT && (e.key == NO_KEY || Real(e))
      requires forall i | 0 <= i < |entries| :: !Is(entries[i], e.key, e.block)
      modifies this`entries
      ensures Valid() && |entries| == |old(entries)| && FirstOf(entries, e.key, e.block) == Some(e)
      ensures forall i | 0 <= i < |entries| :: entries[i] == e || entries[i] in old(entries)
      ensures multiset(entries) == multiset(old(entries)[..|old(entries)| - 1]) + multiset{e}
      ensures old(Shows(entries, blocks, chain)) && (e.key == NO_KEY ==> Holds(e, blocks, chain)) ==>
                Shows(entries, blocks, chain)
    {
      ghost var was := entries;
      var rest := entries[..|entries| - 1];
      ghost var p;
      entries, p := InsertNodeFromTail(rest, e);
      forall i | 0 <= i < |entries| ensures entries[i] == e || entries[i] in was {
        assert entries[i] in rest ==> entries[i] in was;
      }
      LastReplaced(was, rest, e, p);
      ReplacedShows(was, entries, e, blocks, chain);
    }

    /** Every positive priority drops by one; the order makes it safe to stop at the first zero. */
    method AgeCache(ghost blocks: seq<Page>, ghost chain: seq<int>)
      requires Valid()
      modifies this`entries
      ensures Valid() && |entries| == |old(entries)|
      ensures old(Shows(entries, blocks, chain)) ==> Shows(entries, blocks, chain)
      ensures FirstPage(entries) == old(FirstPage(entries))
      ensures forall i | 0 <= i < |entries| :: entries[i] == Aged(old(entries)[i])
    {
      var i := 0;
      while i < |entries|
        invariant 0 <= i <= |entries| == |old(entries)|
        invariant forall k | 0 <= k < i :: entries[k] == Aged(old(entries)[k])
        invariant forall k | i <= k < |entries| :: entries[k] == old(entries)[k]
        invariant forall k | 0 <= k < i :: old(entries)[k].priority > 0
      {
        if entries[i].priority == 0 {
          break;
        }
        entries := entries[i := entries[i].(priority := entries[i].priority - 1)];
        i := i + 1;
      }
      AgedStays(old(entries), entries, blocks, chain);
    }

    lemma AgedStays(was: seq<Entry>, now: seq<Entry>, blocks: seq<Page>, chain: seq<int>)
      requires |was| == |now| && forall i | 0 <= i < |was| :: now[i] == Aged(was[i])
      requires KeysUnique(was) && forall i | 0 <= i < |was| :: was[i].key == NO_KEY || Real(was[i])
      ensures KeysUnique(now) && forall i | 0 <= i < |now| :: now[i].key == NO_KEY || Real(now[i])
      ensures Shows(was, blocks, chain) ==> Shows(now, blocks, chain)
      ensures FirstPage(now) == FirstPage(was)
    {
      FirstOfAged(was, now, NO_KEY, 0);
    }

    // ---------------------------------------------------------------- the lookup

    /** The answer agrees with a scan along the directory's chain that uses no cache. */
    ghost predicate Agrees(key: Key, name: string, bad: set<int>, outcome: Outcome)
      requires Medium() && key in directories
    {
      AgreesOn(directories[key], chains[key], name, bad, outcome)
    }

    /** The first pass looks at the cached blocks only, by number, whatever the chain's order. */
    method CachePass(key: Key, name: string, ghost blocks: seq<Page>, ghost chain: seq<int>)
      returns (found: Option<Record>)
      requires Valid() && key in directories
      modifies this`entries
      ensures Valid() && (found.None? ==> entries == old(entries))
      ensures old(Faithful(key, blocks, chain)) ==> Faithful(key, blocks, chain)
      ensures old(Faithful(key, blocks, chain)) && found.Some? ==>
                forall bad :: AgreesOn(blocks, chain, name, bad, Found(found.value))
      ensures old(Answers(key, name)) ==> found == InPage(old(FirstOf(entries, key, 0)).value.page.records, 0, name)
      ensures (found.Some? <==> old(Remembers(key, name))) && (found.Some? ==> Remembers(key, name))
    {
      var blockNum := 0;
      while blockNum < |directories[key]|
        invariant 0 <= blockNum <= |directories[key]| && entries == old(entries)
        invariant Answers(key, name) ==> blockNum == 0
        invariant forall b | 0 <= b < blockNum :: !HasName(entries, key, b, name)
      {
        var at := FindCache(key, blockNum);
        if at.Some? {
          var entry := entries[at.value];
          found := FindInPage(entry.page.records, name);
          if found.Some? {
            if Faithful(key, blocks, chain) {
              AnswerHolds(key, blockNum, at.value, blocks, chain);
              forall bad: set<int> ensures AgreesOn(blocks, chain, name, bad, Found(found.value)) {
                FoundInChain(blocks, chain, blockNum, name, bad);
              }
            }
            assert HasName(entries, key, blockNum, name);
            Promote(at.value, blocks, chain);
            FirstOfHead(entries[0], entries[1..], key, blockNum);
            assert entries == [entries[0]] + entries[1..];
            assert HasName(entries, key, blockNum, name);
            return;
          }
        }
        blockNum := blockNum + 1;
      }
      return None;
    }

    /** The cache has the name: an entry that answers for one of the directory's blocks holds it. */
    ghost predicate Remembers(key: Key, name: string)
      requires key in directories
      reads this`entries
    {
      exists b | 0 <= b < |directories[key]| :: HasName(entries, key, b, name)
    }

    /** The entry that answers for the directory's first block holds the name. */
    ghost predicate Answers(key: Key, name: string)
      requires key in directories
      reads this`entries
    {
      var first := FirstOf(entries, key, 0);
      directories[key] != [] && first.Some? && InPage(first.value.page.records, 0, name).Some?
    }

    /** What a pass along the chain sees from this block on: the directory as the cache shows it, or the medium. */
    ghost predicate Sees(key: Key, doCache: bool, blocks: seq<Page>, chain: seq<int>, block: int)
      reads this`entries
    {
      && Readable(key, blocks, chain) && (doCache ==> Faithful(key, blocks, chain))
      && (block == 0 ==> blocks == if doCache then Shown(key) else directories[key])
    }

    /** A block from the cache or from the medium, where some blocks cannot be read. */
    method FetchPage(key: Key, block: int, doCache: bool, bad: set<int>, ghost blocks: seq<Page>, ghost chain: seq<int>)
      returns (at: Option<nat>, page: Page, ok: bool)
      requires Valid() && key in directories && 0 <= block < |directories[key]|
      ensures at.Some? ==> at.value < |entries| && Is(entries[at.value], key, block)
      ensures at.Some? ==> forall k | 0 <= k < at.value :: !Is(entries[k], key, block)
      ensures doCache && at.None? ==> forall i | 0 <= i < |entries| :: !Is(entries[i], key, block)
      ensures page == if at.Some? then entries[at.value].page else directories[key][block]
      ensures Sees(key, doCache, blocks, chain, block) ==> page == blocks[block]
      ensures !doCache ==> at.None?
      ensures ok <==> at.Some? || block !in bad
    {
      at, page, ok := None, directories[key][block], true;
      if doCache {
        at := FindCache(key, block);
      }
      if at.Some? {
        page := entries[at.value].page;
        if Faithful(key, blocks, chain) {
          AnswerHolds(key, block, at.value, blocks, chain);
        }
      } else {
        ok := block !in bad;
      }
    }

    /** The second pass follows the chain, takes each block from the cache or from the medium, and caches it. */
    method ChainPass(key: Key, name: string, doCache: bool, bytes: nat, bad: set<int>,
                     ghost blocks: seq<Page>, ghost chain: seq<int>)
      returns (outcome: Outcome)
      requires Valid() && key in directories
      requires key != NO_KEY ==> blocks == directories[key] && chain == chains[key]
      modifies this`entries
      ensures Valid() && (!doCache ==> entries == old(entries)) && Touched(old(entries), entries)
      ensures old(Sees(key, doCache, blocks, chain, 0)) ==> Answered(blocks, chain, name, bad, !doCache, outcome)
      ensures outcome.ReadError? ==> SomeBad(key, bad)
      ensures outcome.Found? && doCache && Keeps(bytes) ==> Remembers(key, name)
    {
      var count := |directories[key]|;
      ghost var sure := Sees(key, doCache, blocks, chain, 0);
      if sure {
        ChainShort(blocks, chain);
      }
      var k := 0;
      var blockNum := 0;
      while 0 <= blockNum < count
        invariant Valid() && 0 <= k <= count + 1 && (!doCache ==> entries == old(entries))
        invariant Touched(old(entries), entries)
        invariant sure ==>
                    Sees(key, doCache, blocks, chain, blockNum) && At(blocks, chain, k, blockNum, name, bad, !doCache)
        decreases count + 1 - k
      {
        if k > count {
          return Astray;
        }
        var answer, next := ScanStep(key, blockNum, name, doCache, bytes, bad, blocks, chain, k, sure);
        if answer.Some? {
          return answer.value;
        }
        k := k + 1;
        blockNum := next;
      }
      if sure {
        ScanEnds(blocks, chain, k, blockNum, name, bad, !doCache);
      }
      return NotFound;
    }

    /** One block of the second pass: the answer, or the number of the next block. */
    method ScanStep(key: Key, block: int, name: string, doCache: bool, bytes: nat, bad: set<int>,
                    ghost blocks: seq<Page>, ghost chain: seq<int>, ghost k: nat, ghost sure: bool)
      returns (answer: Option<Outcome>, next: int)
      requires Valid() && key in directories && 0 <= block < |directories[key]|
      requires sure ==> Sees(key, doCache, blocks, chain, block) && At(blocks, chain, k, block, name, bad, !doCache)
      requires key != NO_KEY ==> sure && blocks == directories[key] && chain == chains[key]
      modifies this`entries
      ensures Valid() && (!doCache ==> entries == old(entries)) && Touched(old(entries), entries)
      ensures sure && answer.Some? ==> Answered(blocks, chain, name, bad, !doCache, answer.value)
      ensures sure && answer.None? ==>
                Sees(key, doCache, blocks, chain, next) && At(blocks, chain, k + 1, next, name, bad, !doCache)
      ensures answer == Some(ReadError) ==> SomeBad(key, bad)
      ensures answer.Some? && answer.value.Found? && doCache && Keeps(bytes) ==> Remembers(key, name)
    {
      if sure {
        ChainHas(blocks, chain, k, block, name, bad, !doCache);
      }
      var found, page, ok := ScanBlock(key, block, name, doCache, bytes, bad, blocks, chain);
      answer, next := None, page.next;
      if !ok {
        answer := Some(ReadError);
        if sure {
          ScanFails(blocks, chain, k, block, name, bad, !doCache);
        }
      } else if found.Some? {
        answer := Some(Found(found.value));
        if sure {
          ScanFinds(blocks, chain, k, block, name, bad, !doCache);
        }
      } else {
        if sure {
          ScanOn(blocks, chain, k, block, name, bad, !doCache);
        }
        if page.lastInDir {
          answer := Some(NotFound);
        }
      }
    }

    /** Blocks of that size are cached at all. */
    predicate Keeps(bytes: nat)
      reads this`entries
    {
      entries != [] && bytes <= FILESYSTEM_DEFAULT_BLOCKSIZE
    }

    /** A block of the directory cannot be read. */
    ghost predicate SomeBad(key: Key, bad: set<int>)
      requires key in directories
    {
      exists b | b in bad :: 0 <= b < |directories[key]|
    }

    /** One block of the second pass. */
    method ScanBlock(key: Key, block: int, name: string, doCache: bool, bytes: nat, bad: set<int>,
                     ghost blocks: seq<Page>, ghost chain: seq<int>)
      returns (found: Option<Record>, page: Page, ok: bool)
      requires Valid() && key in directories && 0 <= block < |directories[key]|
      requires key != NO_KEY ==> block in chains[key]
      modifies this`entries
      ensures Valid() && (!doCache ==> entries == old(entries)) && Touched(old(entries), entries)
      ensures ok ==> found == InPage(page.records, 0, name)
      ensures (!ok ==> block in bad) && (!doCache ==> (ok <==> block !in bad))
      ensures found.Some? && doCache && Keeps(bytes) ==> HasName(entries, key, block, name)
      ensures old(Sees(key, doCache, blocks, chain, block)) && block in chain && ok ==>
                page == blocks[block] && (doCache ==> Faithful(key, blocks, chain))
    {
      var at;
      at, page, ok := FetchPage(key, block, doCache, bad, blocks, chain);
      found := None;
      if ok {
        found := FindInPage(page.records, name);
        if found.Some? {
          Submit(key, block, page, at, doCache, CACHE_PRIO_HIT, bytes, blocks, chain);
        } else if at.None? {
          Submit(key, block, page, at, doCache, CACHE_PRIO_MISS, bytes, blocks, chain);
        }
      }
    }

    /** A block that was of use moves up, one that was read is cached. */
    method Submit(key: Key, block: int, page: Page, at: Option<nat>, doCache: bool, priority: nat, bytes: nat,
                  ghost blocks: seq<Page>, ghost chain: seq<int>)
      requires Valid()
      requires doCache && at.None? ==> key == NO_KEY || Real(Entry(key, block, priority, page))
      requires at.Some? ==> at.value < |entries| && Is(entries[at.value], key, block)
      requires at.Some? ==> forall k | 0 <= k < at.value :: !Is(entries[k], key, block)
      requires doCache && at.None? ==> forall i | 0 <= i < |entries| :: !Is(entries[i], key, block)
      requires priority == CACHE_PRIO_HIT || priority == CACHE_PRIO_MISS
      modifies this`entries
      ensures Valid() && (!doCache ==> entries == old(entries)) && Touched(old(entries), entries)
      ensures old(Faithful(key, blocks, chain))
              && (at.None? ==> Holds(Entry(key, block, priority, page), blocks, chain))
              ==> Faithful(key, blocks, chain)
      ensures doCache && (at.Some? ==> old(entries)[at.value].page == page) && priority == CACHE_PRIO_HIT
              && Keeps(bytes) ==>
                FirstOf(entries, key, block).Some? && FirstOf(entries, key, block).value.page == page
    {
      if doCache {
        if at.Some? {
          Promote(at.value, blocks, chain);
          FirstOfHead(entries[0], entries[1..], key, block);
          assert entries == [entries[0]] + entries[1..];
        } else {
          AddCacheEntry(key, block, page, priority, bytes, blocks, chain);
        }
      }
    }

    /** The directory lookup of FindFile, in a directory with blocks of so many bytes. It agrees with a plain scan of
        the directory as the cache shows it; in any case what the entry found for the first block holds is the
        answer. */
    method Lookup(key: Key, name: string, cached: bool, bytes: nat, bad: set<int>) returns (outcome: Outcome)
      requires Valid() && key in directories
      modifies this`entries
      ensures Valid()
      ensures !cached || old(Trusted(key)) ==> Agrees(key, name, bad, outcome)
      ensures cached ==> forall chain | old(Faithful(key, Shown(key), chain)) ::
                           AgreesOn(old(Shown(key)), chain, name, bad, outcome)
      ensures !cached ==> (outcome.ReadError? <==> Barred(directories[key], chains[key], name, bad))
      ensures outcome.ReadError? ==> SomeBad(key, bad)
      ensures cached && old(Remembers(key, name)) ==> outcome.Found?
      ensures cached && !old(Remembers(key, name)) ==> Touched(AllAged(old(entries)), entries)
      ensures cached && outcome.Found? && Keeps(bytes) ==> Remembers(key, name)
      ensures cached && old(Answers(key, name)) ==>
                outcome == Found(InPage(old(FirstOf(entries, key, 0)).value.page.records, 0, name).value)
    {
      ghost var blocks, chain := Reading(key, cached);
      if cached {
        var found := CachePass(key, name, blocks, chain);
        if found.Some? {
          return Found(found.value);
        }
        AgeCache(blocks, chain);
        assert entries == AllAged(old(entries));
      }
      outcome := ChainPass(key, name, cached, bytes, bad, blocks, chain);
    }

    /** The reading of a directory that a lookup follows, which is what is on the medium if the cache is not used or
        can be trusted. */
    lemma Reading(key: Key, cached: bool) returns (blocks: seq<Page>, chain: seq<int>)
      requires Valid() && key in directories
      ensures key != NO_KEY || !cached || Trusted(key) ==> blocks == directories[key] && chain == chains[key]
      ensures Trusted(key) ==> Faithful(key, Shown(key), chain)
      ensures cached ==> forall order | Faithful(key, Shown(key), order) :: blocks == Shown(key) && chain == order
    {
      blocks, chain := directories[key], chains[key];
      if order: seq<int> :| cached && Faithful(key, Shown(key), order) {
        forall c | Faithful(key, Shown(key), c) ensures c == order {
          ChainUnique(Shown(key), order, c);
        }
        blocks, chain := Shown(key), order;
      }
      if Trusted(key) {
        FirstOfIs(entries, NO_KEY, 0);
        assert Shown(key) == directories[key];
      }
    }

    /** Every answer that agrees with the directory as the cache shows it is right. */
    ghost predicate AllRight(key: Key, chain: seq<int>)
      requires Medium() && key in directories && IsChain(Shown(key), chain)
      reads this`entries
    {
      forall name, outcome | AgreesOn(Shown(key), chain, name, {}, outcome) :: Agrees(key, name, {}, outcome)
    }

    /** A cache that shows the directory with its links in order answers every name rightly exactly if the entry that
        answers for block 0 holds under every name what block 0 does. */
    lemma RightIffSame(key: Key)
      requires Valid() && key in directories && directories[key] != [] && IsChain(Shown(key), chains[key])
      requires NamesDiffer(directories[key], chains[key]) && NamesDiffer(Shown(key), chains[key])
      ensures AllRight(key, chains[key]) <==>
              forall name :: InPage(Shown(key)[0].records, 0, name) == InPage(directories[key][0].records, 0, name)
    {
      var shown, blocks, chain := Shown(key), directories[key], chains[key];
      if forall name :: InPage(shown[0].records, 0, name) == InPage(blocks[0].records, 0, name) {
        forall name, outcome | AgreesOn(shown, chain, name, {}, outcome) ensures Agrees(key, name, {}, outcome) {
          SameScan(shown, blocks, chain, 0, name);
        }
      } else {
        var name :| InPage(shown[0].records, 0, name) != InPage(blocks[0].records, 0, name);
        ScansDiffer(shown, blocks, chain, name);
        var plain := PlainScan(shown, chain, 0, name);
        if plain.Some? {
          PlainScanNamed(shown, chain, 0, name);
        }
        var outcome := if plain.Some? then Found(plain.value) else NotFound;
        assert AgreesOn(shown, chain, name, {}, outcome) && !Agrees(key, name, {}, outcome);
      }
    }
  }

  /** If block 0 differs under a name that is in no two blocks, so do the scans. */
  lemma ScansDiffer(a: seq<Page>, b: seq<Page>, chain: seq<int>, name: string)
    requires IsChain(a, chain) && IsChain(b, chain) && NamesDiffer(a, chain) && NamesDiffer(b, chain) && a != []
    requires forall k | 0 <= k < |chain| && chain[k] != 0 :: a[chain[k]] == b[chain[k]]
    requires InPage(a[0].records, 0, name) != InPage(b[0].records, 0, name)
    ensures PlainScan(a, chain, 0, name) != PlainScan(b, chain, 0, name)
  {
    var ina, inb := InPage(a[0].records, 0, name), InPage(b[0].records, 0, name);
    if ina.Some? {
      NotBehind(b, a, chain, name);
    } else {
      NotBehind(a, b, chain, name);
    }
  }

  /** What block 0 of b holds under the name is not in a later block, so a scan of a finds it in block 0 or not at
      all. */
  lemma NotBehind(a: seq<Page>, b: seq<Page>, chain: seq<int>, name: string)
    requires IsChain(a, chain) && IsChain(b, chain) && NamesDiffer(b, chain) && a != [] && b != []
    requires forall k | 0 <= k < |chain| && chain[k] != 0 :: a[chain[k]] == b[chain[k]]
    requires InPage(b[0].records, 0, name).Some?
    ensures PlainScan(b, chain, 0, name) == InPage(b[0].records, 0, name)
    ensures PlainScan(a, chain, 0, name) == InPage(a[0].records, 0, name)
  {
    forall k | 1 <= k < |chain| ensures InPage(a[chain[k]].records, 0, name) == None {
      ChainVisitsOnce(a, chain, 0, k);
      assert chain[0] == 0;
    }
    PlainScanMisses(a, chain, 1, name);
  }

  lemma {:induction false} PlainScanMisses(blocks: seq<Page>, chain: seq<int>, k: nat, name: string)
    requires IsChain(blocks, chain) && k <= |chain|
    requires forall j | k <= j < |chain| :: InPage(blocks[chain[j]].records, 0, name) == None
    ensures PlainScan(blocks, chain, k, name) == None
    decreases |chain| - k
  {
    if k < |chain| {
      PlainScanMisses(blocks, chain, k + 1, name);
    }
  }

  lemma {:induction false} PlainScanNamed(blocks: seq<Page>, chain: seq<int>, k: nat, name: string)
    requires IsChain(blocks, chain) && k <= |chain| && PlainScan(blocks, chain, k, name).Some?
    ensures SameName(name, PlainScan(blocks, chain, k, name).value.name)
    decreases |chain| - k
  {
    if InPage(blocks[chain[k]].records, 0, name).Some? {
      InPageNamed(blocks[chain[k]].records, 0, name);
    } else {
      PlainScanNamed(blocks, chain, k + 1, name);
    }
  }

  /** A directory without identifiers, looked up in a fresh cache: a name that the memory of the first entry happens to
      hold is found, although no block of the directory has it. */
  method UnfilledAnswers(memory: seq<Page>, medium: map<Key, seq<Page>>, ghost order: map<Key, seq<int>>, name: string,
                         bytes: nat)
    returns (cache: Cache, outcome: Outcome)
    requires forall key | key in medium :: key in order && IsChain(medium[key], order[key])
    requires NO_KEY in medium && medium[NO_KEY] != [] && PlainScan(medium[NO_KEY], order[NO_KEY], 0, name) == None
    requires memory != [] && InPage(memory[0].records, 0, name).Some?
    ensures cache.Medium() && cache.directories == medium
    ensures outcome.Found? && !cache.Agrees(NO_KEY, name, {}, outcome)
  {
    cache := new Cache(memory, medium, order);
    FirstOfAt(cache.entries, 0, NO_KEY, 0);
    outcome := cache.Lookup(NO_KEY, name, true, bytes, {});
  }

  function AllAged(entries: seq<Entry>): seq<Entry> {
    seq(|entries|, i requires 0 <= i < |entries| => Aged(entries[i]))
  }

  function Aged(e: Entry): Entry {
    if e.priority == 0 then e else e.(priority := e.priority - 1)
  }

  lemma AgedBy(e: Entry)
    ensures Aged(e) == e.(priority := Aged(e).priority)
    ensures e.priority == Aged(e).priority + if 0 < e.priority then 1 else 0
  {
  }

  lemma FirstOfHead(x: Entry, rest: seq<Entry>, key: Key, block: int)
    ensures FirstOf([x] + rest, key, block) == if Is(x, key, block) then Some(x) else FirstOf(rest, key, block)
  {
    assert ([x] + rest)[1..] == rest;
  }

  /** An entry x that is the first for its block stays so, as e at the head of the list. */
  lemma FirstOfPromoted(a: seq<Entry>, x: Entry, b: seq<Entry>, e: Entry)
    requires e == x.(priority := e.priority) && forall k | 0 <= k < |a| :: !Is(a[k], e.key, e.block)
    ensures var f := FirstOf(a + [x] + b, NO_KEY, 0);
            && FirstOf([e] + (a + b), NO_KEY, 0) == (if Unfilled(e) then Some(e) else f)
            && (Unfilled(e) ==> f == Some(x))
  {
    FirstOfHead(e, a + b, NO_KEY, 0);
    FirstOfBoth(a, b, NO_KEY, 0);
    FirstOfThree(a, x, b, NO_KEY, 0);
    if Unfilled(e) {
      FirstOfAt(a, |a|, NO_KEY, 0);
    }
  }

  lemma PromotedUnique(entries: seq<Entry>, i: nat, e: Entry)
    requires i < |entries| && e == entries[i].(priority := CACHE_PRIO_HIT) && Ordered(entries) && KeysUnique(entries)
    requires forall k | 0 <= k < i :: !Is(entries[k], e.key, e.block)
    ensures Ordered([e] + Without(entries, i)) && KeysUnique([e] + Without(entries, i))
  {
  }

  /** Replacing the last entry leaves the first one of each block, drops it, or makes the new one the first. */
  lemma FirstOfReplaced(a: seq<Entry>, b: seq<Entry>, last: Entry, e: Entry)
    ensures var f := FirstOf(a + [e] + b, NO_KEY, 0);
            f == None || f == FirstOf(a + b + [last], NO_KEY, 0) || f == Some(e)
  {
    FirstOfBoth(a + b, [last], NO_KEY, 0);
    FirstOfInserted(a, e, b);
  }

  lemma LastReplaced(was: seq<Entry>, rest: seq<Entry>, e: Entry, p: nat)
    requires was != [] && rest == was[..|was| - 1] && p <= |rest|
    ensures var f := FirstOf(rest[..p] + [e] + rest[p..], NO_KEY, 0);
            f == None || f == FirstOf(was, NO_KEY, 0) || f == Some(e)
  {
    var a, b, last := rest[..p], rest[p..], was[|was| - 1];
    assert was == a + b + [last];
    FirstOfReplaced(a, b, last, e);
  }

  lemma FirstOfInserted(a: seq<Entry>, e: Entry, b: seq<Entry>)
    ensures var f := FirstOf(a + b, NO_KEY, 0);
            FirstOf(a + [e] + b, NO_KEY, 0) ==
              if Unfilled(e) && FirstOf(a, NO_KEY, 0).None? then Some(e) else f
  {
    FirstOfBoth(a, b, NO_KEY, 0);
    FirstOfThree(a, e, b, NO_KEY, 0);
  }

  lemma ReplacedShows(was: seq<Entry>, entries: seq<Entry>, e: Entry, blocks: seq<Page>, chain: seq<int>)
    requires forall i | 0 <= i < |entries| :: entries[i] == e || entries[i] in was
    requires var f := FirstOf(entries, NO_KEY, 0); f == None || f == FirstOf(was, NO_KEY, 0) || f == Some(e)
    ensures Shows(was, blocks, chain) && (e.key == NO_KEY ==> Holds(e, blocks, chain)) ==> Shows(entries, blocks, chain)
  {
    FirstOfIs(entries, NO_KEY, 0);
  }

  lemma {:induction false} FirstOfIs(entries: seq<Entry>, key: Key, block: int)
    ensures FirstOf(entries, key, block).Some? ==> Is(FirstOf(entries, key, block).value, key, block)
  {
    if entries != [] {
      FirstOfIs(entries[1..], key, block);
    }
  }

  /** Queues an entry behind those of the same or a higher priority. */
  method InsertNodeFromTail(rest: seq<Entry>, e: Entry) returns (all: seq<Entry>, ghost p: nat)
    requires Ordered(rest) && KeysUnique(rest) && e.priority <= CACHE_PRIO_HIT
    requires forall k | 0 <= k < |rest| :: !Is(rest[k], e.key, e.block)
    ensures Ordered(all) && KeysUnique(all) && p <= |rest| && all == rest[..p] + [e] + rest[p..]
    ensures multiset(all) == multiset(rest) + multiset{e} && FirstOf(all, e.key, e.block) == Some(e)
    ensures forall k | 0 <= k < p :: rest[k].priority >= e.priority
    ensures forall i | 0 <= i < |all| :: all[i] == e || all[i] in rest
  {
    var at := |rest|;
    while at > 0 && rest[at - 1].priority < e.priority
      invariant 0 <= at <= |rest|
      invariant forall k | at <= k < |rest| :: rest[k].priority < e.priority
    {
      at := at - 1;
    }
    all, p := rest[..at] + [e] + rest[at..], at;
    InsertedOrdered(rest, at, e);
    InsertedUnique(rest, at, e);
    InsertedMembers(rest, at, e);
    OnlyOneAnswers(rest[..at], e, rest[at..]);
  }

  lemma InsertedMembers(rest: seq<Entry>, p: nat, e: Entry)
    requires p <= |rest|
    ensures var all := rest[..p] + [e] + rest[p..];
            && multiset(all) == multiset(rest) + multiset{e}
            && forall i | 0 <= i < |all| :: all[i] == e || all[i] in rest
  {
    assert rest == rest[..p] + rest[p..];
  }

  lemma InsertedOrdered(rest: seq<Entry>, p: nat, e: Entry)
    requires p <= |rest| && Ordered(rest) && e.priority <= CACHE_PRIO_HIT
    requires forall k | 0 <= k < p :: rest[k].priority >= e.priority
    requires forall k | p <= k < |rest| :: rest[k].priority <= e.priority
    ensures Ordered(rest[..p] + [e] + rest[p..])
  {
  }

  lemma InsertedUnique(rest: seq<Entry>, p: nat, e: Entry)
    requires p <= |rest| && KeysUnique(rest)
    requires forall k | 0 <= k < |rest| :: !Is(rest[k], e.key, e.block)
    ensures KeysUnique(rest[..p] + [e] + rest[p..])
  {
    var all := rest[..p] + [e] + rest[p..];
    forall i, j | 0 <= i < j < |all| && !Unfilled(all[i]) ensures !Is(all[j], all[i].key, all[i].block) {
      assert all[i] == if i < p then rest[i] else if i == p then e else rest[i - 1];
      assert all[j] == if j < p then rest[j] else if j == p then e else rest[j - 1];
    }
  }

  lemma {:induction false} InPageNamed(records: seq<Record>, i: nat, name: string)
    requires i <= |records| && InPage(records, i, name).Some?
    ensures SameName(name, InPage(records, i, name).value.name)
    decreases |records| - i
  {
    if !SameName(name, records[i].name) {
      InPageNamed(records, i + 1, name);
    }
  }

  /** It is the first of its name, if there is one. */
  lemma {:induction false} InPageFirst(records: seq<Record>, i: nat, name: string)
    requires i <= |records|
    ensures match InPage(records, i, name)
            case None => forall k | i <= k < |records| :: !SameName(name, records[k].name)
            case Some(record) =>
              exists k | i <= k < |records| ::
                && records[k] == record && SameName(name, record.name)
                && forall j | i <= j < k :: !SameName(name, records[j].name)
    decreases |records| - i
  {
    if i < |records| && !SameName(name, records[i].name) {
      InPageFirst(records, i + 1, name);
    }
  }

  /** The scan of one block. */
  method FindInPage(records: seq<Record>, name: string) returns (found: Option<Record>)
    ensures found == InPage(records, 0, name)
  {
    var offset := 0;
    while offset < |records|
      invariant 0 <= offset <= |records| && InPage(records, 0, name) == InPage(records, offset, name)
    {
      if SameName(name, records[offset].name) {
        return Some(records[offset]);
      }
      offset := offset + 1;
    }
    return None;
  }
}
