/**
 The cache of directory caches: a doubly linked recency list from the least
 recently used entry (tail) to the most recently used one (head), a map from
 inode to list node, and a running size.
 */
module PriorityCaching {

  // ----- the recency order as a value -----

  /** A cached directory and the number of entries counted for it. */
  datatype Entry = Entry(inode: string, entries: nat)

  function Entries(s: seq<Entry>): nat {
    if s == [] then 0 else s[0].entries + Entries(s[1..])
  }

  /** size(): the directories plus their entries. */
  function Size(s: seq<Entry>): nat { Entries(s) + |s| }

  function Without(s: seq<Entry>, k: nat): seq<Entry>
    requires k < |s|
  {
    s[..k] + s[k + 1..]
  }

  function IndexOf(s: seq<Entry>, inode: string): (k: int)
    ensures -1 <= k < |s|
    ensures k >= 0 ==> s[k].inode == inode
    ensures k == -1 ==> forall i :: 0 <= i < |s| ==> s[i].inode != inode
  {
    if s == [] then -1
    else if s[0].inode == inode then 0
    else var k := IndexOf(s[1..], inode); if k == -1 then -1 else k + 1
  }

  /** The order after a directory with n entries has been used. */
  function Used(s: seq<Entry>, inode: string, n: nat): seq<Entry> {
    var k := IndexOf(s, inode);
    (if k >= 0 then Without(s, k) else s) + [Entry(inode, n)]
  }

  /** Drops the least recently used directories until the rest fits the low mark. */
  function Evicted(s: seq<Entry>, low: nat): seq<Entry> {
    if s == [] || Size(s) <= low then s else Evicted(s[1..], low)
  }

  /** adjustCache. */
  function Adjusted(s: seq<Entry>, max: nat, low: nat): seq<Entry> {
    if Size(s) <= max || s == [] || Size(s) == 1 then s else Evicted(s, if low == 0 then 1 else low)
  }

  /** update. */
  function Updated(s: seq<Entry>, inode: string, n: nat, max: nat, low: nat): seq<Entry> {
    if n + 1 > max then s else Adjusted(Used(s, inode, n), max, low)
  }

  lemma {:induction false} EntriesConcat(s: seq<Entry>, t: seq<Entry>)
    ensures Entries(s + t) == Entries(s) + Entries(t)
  {
    if s == [] {
      assert s + t == t;
    } else {
      assert (s + t)[1..] == s[1..] + t;
      EntriesConcat(s[1..], t);
    }
  }

  lemma EntriesAppend(s: seq<Entry>, e: Entry)
    ensures Entries(s + [e]) == Entries(s) + e.entries
  {
    EntriesConcat(s, [e]);
  }

  lemma EntriesWithout(s: seq<Entry>, k: nat)
    requires k < |s|
    ensures Entries(s) == Entries(Without(s, k)) + s[k].entries
  {
    hide Entries;
    assert s == s[..k] + [s[k]] + s[k + 1..];
    EntriesConcat(s[..k] + [s[k]], s[k + 1..]);
    EntriesAppend(s[..k], s[k]);
    EntriesConcat(s[..k], s[k + 1..]);
  }

  /**
   The survivors of an eviction are the longest run of most recently used
   directories that fits the low mark.
   */
  lemma {:induction false} EvictionIsLeastRecentlyUsed(s: seq<Entry>, low: nat)
    ensures var r := Evicted(s, low);
            |r| <= |s| && r == s[|s| - |r|..] && (r == [] || Size(r) <= low) &&
            forall k :: 0 <= k < |s| - |r| ==> Size(s[k..]) > low
  {
    if s != [] && Size(s) > low {
      EvictionIsLeastRecentlyUsed(s[1..], low);
      var r := Evicted(s[1..], low);
      assert s[1..][|s[1..]| - |r|..] == s[|s| - |r|..];
      forall k | 0 <= k < |s| - |r| ensures Size(s[k..]) > low {
        if k > 0 {
          assert s[k..] == s[1..][k - 1..];
        } else {
          assert s[0..] == s;
        }
      }
    }
  }

  /** r is the longest run of most recently used directories of s that fits the bound. */
  ghost predicate LongestRecent(s: seq<Entry>, r: seq<Entry>, bound: nat) {
    && |r| <= |s| && r == s[|s| - |r|..] && Size(r) <= bound
    && forall k :: 0 <= k < |s| - |r| ==> Size(s[k..]) > bound
  }

  /** What is left of s: all of it while it fits the maximum or is a single empty directory, else what fits the low mark. */
  ghost predicate Trimmed(s: seq<Entry>, r: seq<Entry>, max: nat, low: nat) {
    if Size(s) > max && Size(s) > 1 then LongestRecent(s, r, if low > 1 then low else 1) else r == s
  }

  lemma SizeOf(s: seq<Entry>, e: Entry)
    ensures Size([]) == 0 && Size(s + [e]) == Size(s) + e.entries + 1
    ensures s != [] ==> Size(s) >= 1
  {
    EntriesAppend(s, e);
  }

  lemma AdjustedIsTrimmed(s: seq<Entry>, max: nat, low: nat)
    ensures Trimmed(s, Adjusted(s, max, low), max, low)
  {
    EvictionIsLeastRecentlyUsed(s, if low == 0 then 1 else low);
    SizeOf(s, Entry("", 0));
    hide Entries;
  }

  /** The other directories, in their order. */
  function Others(s: seq<Entry>, inode: string): seq<Entry> {
    if s == [] then [] else (if s[0].inode == inode then [] else [s[0]]) + Others(s[1..], inode)
  }

  lemma {:induction false} NoneLeftOut(s: seq<Entry>, inode: string)
    requires forall i :: 0 <= i < |s| ==> s[i].inode != inode
    ensures Others(s, inode) == s
  {
    if s != [] {
      NoneLeftOut(s[1..], inode);
    }
  }

  lemma {:induction false} OneLeftOut(s: seq<Entry>, inode: string, k: nat)
    requires k < |s| && s[k].inode == inode && forall i :: 0 <= i < |s| && i != k ==> s[i].inode != inode
    ensures Others(s, inode) == Without(s, k)
  {
    if k == 0 {
      NoneLeftOut(s[1..], inode);
      assert [] + s[1..] == s[1..];
      assert Without(s, 0) == s[1..];
    } else {
      OneLeftOut(s[1..], inode, k - 1);
      assert Without(s, k) == [s[0]] + Without(s[1..], k - 1);
    }
  }

  ghost predicate DistinctInodes(s: seq<Entry>) {
    forall i, j :: 0 <= i < j < |s| ==> s[i].inode != s[j].inode
  }

  lemma UsedIsLast(s: seq<Entry>, inode: string, n: nat)
    requires DistinctInodes(s)
    ensures Used(s, inode, n) == Others(s, inode) + [Entry(inode, n)]
  {
    OthersAre(s, inode);
  }

  lemma OthersAre(s: seq<Entry>, inode: string)
    requires DistinctInodes(s)
    ensures var k := IndexOf(s, inode); Others(s, inode) == if k >= 0 then Without(s, k) else s
  {
    hide IndexOf;
    if IndexOf(s, inode) >= 0 {
      OneLeftOut(s, inode, IndexOf(s, inode));
    } else {
      NoneLeftOut(s, inode);
    }
  }

  lemma EvictOne(s: seq<Entry>, low: nat)
    requires s != [] && Size(s) > low
    ensures Evicted(s, low) == Evicted(s[1..], low)
  {
  }

  lemma EvictNone(low: nat)
    ensures forall s {:trigger Evicted(s, low)} :: s == [] || Size(s) <= low ==> Evicted(s, low) == s
  {
  }

  /** After an adjustment the size is within the maximum, or at most 1. */
  lemma AdjustedFits(s: seq<Entry>, max: nat, low: nat)
    requires low <= max
    ensures Size(Adjusted(s, max, low)) <= if max == 0 then 1 else max
  {
    EvictionIsLeastRecentlyUsed(s, if low == 0 then 1 else low);
  }

  // ----- every run of the cache -----

  datatype CacheOp = Use(inode: string, entries: nat) | Remove(inode: string) | SetMax(max: nat)

  /** The recency order and the maximum size. */
  datatype CacheState = CacheState(order: seq<Entry>, max: nat)

  /** One call; low is the fraction of the maximum that an eviction keeps. */
  function Step(c: CacheState, op: CacheOp, low: nat -> nat): CacheState {
    match op
    case Use(inode, n) => c.(order := Updated(c.order, inode, n, c.max, low(c.max)))
    case Remove(inode) =>
      var k := IndexOf(c.order, inode);
      if k >= 0 then c.(order := Without(c.order, k)) else c
    case SetMax(max) => CacheState(Adjusted(c.order, max, low(max)), max)
  }

  function Run(max: nat, ops: seq<CacheOp>, low: nat -> nat): CacheState {
    if ops == [] then CacheState([], max) else Step(Run(max, ops[..|ops| - 1], low), ops[|ops| - 1], low)
  }

  /** After every call of every run the size is within the maximum, or at most 1. */
  lemma {:induction false} SizeAlwaysFits(max: nat, ops: seq<CacheOp>, low: nat -> nat)
    requires forall m :: low(m) <= m
    ensures var c := Run(max, ops, low); Size(c.order) <= if c.max == 0 then 1 else c.max
  {
    if ops != [] {
      var front, op := ops[..|ops| - 1], ops[|ops| - 1];
      var c := Run(max, front, low);
      SizeAlwaysFits(max, front, low);
      match op
      case Use(inode, n) => AdjustedFits(Used(c.order, inode, n), c.max, low(c.max));
      case Remove(inode) =>
        if IndexOf(c.order, inode) >= 0 { EntriesWithout(c.order, IndexOf(c.order, inode)); }
      case SetMax(m) => AdjustedFits(c.order, m, low(m));
    }
  }

  // ----- the linked structure -----

  class Node {
    const inode: string
    var lastNumEntries: nat
    var previous: Node?
    var next: Node?

    constructor (inode: string)
      ensures this.inode == inode && lastNumEntries == 0 && previous == null && next == null
    {
      this.inode, lastNumEntries, previous, next := inode, 0, null, null;
    }
  }

  class PriorityCache {
    var cacheMap: map<string, Node>
    var head: Node?
    var tail: Node?
    var cacheSize: int
    var maxCacheSize: nat
    ghost var order: seq<Node>

    ghost function Nodes(): set<Node>
      reads this`order
    {
      set n | n in order
    }

    /** A well-formed doubly linked list from tail to head. */
    ghost predicate ListOk()
      reads this`order, this`head, this`tail, Nodes()`previous, Nodes()`next
    {
      && Distinct(order)
      && tail == (if order == [] then null else order[0])
      && head == (if order == [] then null else order[|order| - 1])
      && (forall i {:trigger order[i].next} :: 0 <= i < |order| ==> order[i].next == if i + 1 < |order| then order[i + 1] else null)
      && (forall i {:trigger order[i].previous} :: 0 <= i < |order| ==> order[i].previous == if i > 0 then order[i - 1] else null)
    }

    ghost function Order(): (s: seq<Entry>)
      reads this`order, Nodes()`lastNumEntries
    {
      View(order)
    }

    ghost predicate Valid()
      reads this, Nodes()
    {
      ListOk() && Maps(cacheMap, order) && cacheSize == Entries(Order())
    }

    constructor (max: nat)
      ensures Valid() && Order() == [] && maxCacheSize == max
    {
      cacheMap, head, tail, cacheSize, maxCacheSize, order := map[], null, null, 0, max, [];
    }

    /** The pointer work of removeCache, on the node and its two neighbours. */
    method Bypass(link: Node)
      requires link.previous != null ==> link.previous != link && link.previous.next == link
      requires link.next != null ==> link.next != link && link.next.previous == link
      requires link.previous != null ==> link.previous != link.next
      requires (head == link <==> link.next == null) && (tail == link <==> link.previous == null)
      modifies this`head, this`tail, Some(link.previous)`next, Some(link.next)`previous
      ensures head == (if link.next == null then link.previous else old(head))
      ensures tail == (if link.previous == null then link.next else old(tail))
      ensures link.previous != null ==> link.previous.next == link.next
      ensures link.next != null ==> link.next.previous == link.previous
    {
      if head == link {
        head := head.previous;
        if head != null {
          head.next := null;
        }
      }
      if tail == link {
        tail := tail.next;
        if tail != null {
          tail.previous := null;
        }
      }
      if link.next != null {
        link.next.previous := link.previous;
      }
      if link.previous != null {
        link.previous.next := link.next;
      }
    }

    method Unlink(link: Node, ghost k: nat)
      requires ListOk() && k < |order| && order[k] == link
      modifies this`head, this`tail, this`order, Nodes()`previous, Nodes()`next
      ensures ListOk() && order == old(order[..k] + order[k + 1..])
    {
      ghost var o := order;
      Neighbours(link, k);
      Bypass(link);
      order := o[..k] + o[k + 1..];
      Spliced(o, k, order);
    }

    lemma Neighbours(link: Node, k: nat)
      requires ListOk() && k < |order| && order[k] == link
      ensures link.previous == (if k > 0 then order[k - 1] else null)
      ensures link.next == (if k + 1 < |order| then order[k + 1] else null)
      ensures k > 0 ==> order[k - 1].next == link && order[k - 1] != link
      ensures k + 1 < |order| ==> order[k + 1].previous == link && order[k + 1] != link
      ensures 0 < k && k + 1 < |order| ==> order[k - 1] != order[k + 1]
      ensures (head == link <==> k + 1 == |order|) && (tail == link <==> k == 0)
    {
    }

    /** The first half of moveToFront, for a node that is not the head: it leaves its neighbours. */
    method StepAside(link: Node)
      requires head != link
      requires link.previous != null ==> link.previous != link && link.previous.next == link
      requires link.next != null ==> link.next != link && link.next.previous == link
      requires link.previous != null ==> link.previous != link.next
      requires tail == link ==> link.previous == null && link.next != null
      modifies this`tail, Some(link.previous)`next, Some(link.next)`previous
      ensures tail == (if old(tail) == link then link.next else if old(tail) == null then link else old(tail))
      ensures link.previous != null ==> link.previous.next == link.next
      ensures link.next != null ==> link.next.previous == link.previous
    {
      if tail == link {
        tail := tail.next;
        if tail != null {
          tail.previous := null;
        }
      }
      if tail == null {
        tail := link;
      }
      if link.next != null {
        link.next.previous := link.previous;
      }
      if link.previous != null {
        link.previous.next := link.next;
      }
    }

    /** The second half: the node becomes the head, after the others in their order. */
    method PutFirst(link: Node, ghost rest: seq<Node>)
      requires Distinct(rest) && link !in rest
      requires forall i {:trigger rest[i].next} :: 0 <= i < |rest| ==> rest[i].next == if i + 1 < |rest| then rest[i + 1] else null
      requires forall i {:trigger rest[i].previous} :: 0 <= i < |rest| ==> rest[i].previous == if i > 0 then rest[i - 1] else null
      requires head == (if rest == [] then null else rest[|rest| - 1]) && tail == (if rest == [] then link else rest[0])
      modifies this`head, this`order, (set n | n in rest)`next, link`previous, link`next
      ensures ListOk() && order == rest + [link]
    {
      assert rest != [] ==> rest[|rest| - 1] in rest;
      link.previous := head;
      head := link;
      if link.previous != null {
        link.previous.next := link;
      }
      link.next := null;
      order := rest + [link];
      assert forall i :: 0 <= i < |order| ==> order[i] == if i < |rest| then rest[i] else link;
    }

    /** moveToFront, for a node of the list (at k) or a new one (k is -1). */
    method MoveToFront(link: Node, ghost k: int)
      requires ListOk()
      requires -1 <= k < |order| && (k >= 0 ==> order[k] == link)
      requires k == -1 ==> link !in order && link.previous == null && link.next == null
      modifies this`head, this`tail, this`order, Nodes()`previous, Nodes()`next, link`previous, link`next
      ensures ListOk()
      ensures order == old(if k >= 0 then order[..k] + order[k + 1..] else order) + [link]
    {
      ghost var o := order;
      if k >= 0 {
        Neighbours(link, k);
      }
      if head == link {
        assert k == |order| - 1;
        return;
      }
      StepAside(link);
      ghost var rest := if k >= 0 then o[..k] + o[k + 1..] else o;
      if k >= 0 {
        Spliced(o, k, rest);
        LeftOut(o, k, rest);
      }
      PutFirst(link, rest);
    }

    lemma NoTail()
      requires Valid()
      ensures tail == (if order == [] then null else order[0])
    {
    }

    lemma NodesDistinct()
      requires ListOk()
      ensures Distinct(order)
    {
    }

    /** size(). */
    function CurrentSize(): (n: int)
      requires Valid()
      reads this, Nodes()
      ensures n == Size(Order())
    {
      MapSize(cacheMap, order);
      cacheSize + |cacheMap|
    }

    /** removeCache on a node. */
    method RemoveNode(link: Node, ghost k: nat)
      requires Valid() && k < |order| && order[k] == link
      modifies this, Nodes()
      ensures Valid() && Order() == Without(old(Order()), k)
      ensures maxCacheSize == old(maxCacheSize) && order == old(order[..k] + order[k + 1..])
    {
      hide ListOk, Maps, Entries, View;
      EntriesWithout(Order(), k);
      NodesDistinct();
      UnmapOne(cacheMap, order, k);
      Unlink(link, k);
      cacheSize := cacheSize - link.lastNumEntries;
      cacheMap := cacheMap - {link.inode};
      assert Order() == Without(old(Order()), k);
    }

    /** removeCache on an inode. */
    method RemoveCache(path: string)
      requires Valid()
      modifies this, Nodes()
      ensures Valid() && maxCacheSize == old(maxCacheSize)
      ensures Order() == var s := old(Order()); var k := IndexOf(s, path); if k >= 0 then Without(s, k) else s
      ensures Order() == Others(old(Order()), path)
    {
      InodesDistinct();
      OthersAre(Order(), path);
      ghost var k := IndexOf(Order(), path);
      LookUp(path);
      if path !in cacheMap {
        return;
      }
      RemoveNode(cacheMap[path], k);
    }

    /** The map finds a node exactly when the list holds it, and the same one. */
    lemma LookUp(path: string)
      requires Valid()
      ensures path in cacheMap <==> IndexOf(Order(), path) >= 0
      ensures path in cacheMap ==> order[IndexOf(Order(), path)] == cacheMap[path]
    {
      var k := IndexOf(Order(), path);
      if path in cacheMap {
        var i :| 0 <= i < |order| && order[i] == cacheMap[path];
        assert Order()[i].inode == path;
      }
      if k >= 0 {
        assert Order()[k].inode == order[k].inode;
      }
    }

    lemma InodesDistinct()
      requires Valid()
      ensures DistinctInodes(Order())
    {
      forall i, j | 0 <= i < j < |order| ensures Order()[i].inode != Order()[j].inode {
        assert order[i] != order[j];
      }
    }

    /** adjustCache; low is the rounded fraction of the maximum. */
    method AdjustCache(low: nat)
      requires Valid() && low <= maxCacheSize
      modifies this, Nodes()
      ensures Valid() && maxCacheSize == old(maxCacheSize)
      ensures Trimmed(old(Order()), Order(), maxCacheSize, low)
      ensures Order() == Adjusted(old(Order()), maxCacheSize, low)
    {
      hide Evicted, Size, ListOk, Maps, View, Trimmed;
      AdjustedIsTrimmed(Order(), maxCacheSize, low);
      NoTail();
      var size := CurrentSize();
      if size <= maxCacheSize || tail == null || size == 1 {
        return;
      }
      var minCacheSize := low;
      if minCacheSize == 0 {
        minCacheSize := 1;
      }
      ghost var s := Order();
      EvictNone(minCacheSize);
      while size > minCacheSize
        invariant Valid() && maxCacheSize == old(maxCacheSize)
        invariant Nodes() <= old(Nodes())
        invariant size == Size(Order()) && Evicted(Order(), minCacheSize) == Evicted(s, minCacheSize)
        decreases |order|
      {
        NoTail();
        if tail == null {
          break;
        }
        assert Without(Order(), 0) == Order()[1..];
        EvictOne(Order(), minCacheSize);
        RemoveNode(tail, 0);
        size := CurrentSize();
      }
    }

    /** Filesystem::setDirCacheMaxSize. */
    method SetMaxSize(max: nat, low: nat)
      requires Valid() && low <= max
      modifies this, Nodes()
      ensures Valid() && maxCacheSize == max
      ensures Trimmed(old(Order()), Order(), max, low)
      ensures Order() == Adjusted(old(Order()), max, low)
    {
      hide ListOk, Maps, View, Entries, Evicted, Trimmed;
      maxCacheSize := max;
      AdjustCache(low);
    }

    /** update: a directory with that many entries has been used. */
    method UpdateWith(inode: string, dirNumEntries: nat, low: nat)
      requires Valid() && low <= maxCacheSize
      modifies this, Nodes()
      ensures Valid() && maxCacheSize == old(maxCacheSize)
      ensures dirNumEntries + 1 > maxCacheSize ==> Order() == old(Order())
      ensures dirNumEntries + 1 <= maxCacheSize ==>
                Trimmed(Others(old(Order()), inode) + [Entry(inode, dirNumEntries)], Order(), maxCacheSize, low)
      ensures Order() == Updated(old(Order()), inode, dirNumEntries, maxCacheSize, low)
    {
      hide ListOk, Maps, View, Entries, Trimmed, Used, Others, Adjusted;
      InodesDistinct();
      UsedIsLast(Order(), inode, dirNumEntries);
      if dirNumEntries + 1 > maxCacheSize {
        return;
      }
      Use(inode, dirNumEntries);
      AdjustCache(low);
    }

    /** One call of any kind; low gives the rounded fraction of a maximum. */
    method Perform(op: CacheOp, low: nat -> nat)
      requires Valid() && forall m :: low(m) <= m
      modifies this, Nodes()
      ensures Valid()
      ensures CacheState(Order(), maxCacheSize) == Step(old(CacheState(Order(), maxCacheSize)), op, low)
    {
      hide ListOk, Maps, View, Updated, Adjusted, IndexOf, Trimmed, Others;
      match op
      case Use(inode, n) => UpdateWith(inode, n, low(maxCacheSize));
      case Remove(inode) => RemoveCache(inode);
      case SetMax(max) => SetMaxSize(max, low(max));
    }

    /** Counts a node's new number of entries and makes it the most recently used one. */
    method Recount(list: Node, dirNumEntries: nat, ghost k: int)
      requires ListOk() && cacheSize == Entries(Order())
      requires -1 <= k < |order| && (k >= 0 ==> order[k] == list)
      requires k == -1 ==> list !in order && list.previous == null && list.next == null && list.lastNumEntries == 0
      requires Maps(cacheMap, (if k >= 0 then order[..k] + order[k + 1..] else order) + [list])
      modifies this`head, this`tail, this`order, this`cacheSize, Nodes(), list
      ensures Valid()
      ensures Order() == old(if k >= 0 then Without(Order(), k) else Order()) + [Entry(list.inode, dirNumEntries)]
      ensures Nodes() <= old(Nodes()) + {list}
    {
      hide ListOk, Maps, Entries, View;
      NodesDistinct();
      ghost var o, s := order, Order();
      ghost var rest := if k >= 0 then Without(s, k) else s;
      if k >= 0 {
        EntriesWithout(s, k);
      }
      if dirNumEntries != list.lastNumEntries {
        cacheSize := cacheSize + dirNumEntries - list.lastNumEntries;
        list.lastNumEntries := dirNumEntries;
      }
      MoveToFront(list, k);
      MovedView(o, s, k, list);
      EntriesAppend(rest, Entry(list.inode, dirNumEntries));
    }

    /** The part of update before adjustCache. */
    method Use(inode: string, dirNumEntries: nat)
      requires Valid()
      modifies this, Nodes()
      ensures Valid() && maxCacheSize == old(maxCacheSize)
      ensures Order() == Used(old(Order()), inode, dirNumEntries)
      ensures fresh(Nodes() - old(Nodes()))
    {
      hide ListOk, Maps, Entries, View, IndexOf;
      ghost var k := IndexOf(Order(), inode);
      LookUp(inode);
      NodesDistinct();
      var list;
      if inode !in cacheMap {
        list := new Node(inode);
        MapNew(cacheMap, order, list);
        cacheMap := cacheMap[inode := list];
      } else {
        list := cacheMap[inode];
        MapMoved(cacheMap, order, k);
      }
      Recount(list, dirNumEntries, k);
    }
  }

  /** The entries a list of nodes stands for. */
  ghost function View(order: seq<Node>): (s: seq<Entry>)
    reads (set n | n in order)`lastNumEntries
    ensures |s| == |order|
    ensures forall i :: 0 <= i < |s| ==> s[i] == Entry(order[i].inode, order[i].lastNumEntries)
  {
    if order == [] then [] else [Entry(order[0].inode, order[0].lastNumEntries)] + View(order[1..])
  }

  /** The recency order once a node has moved to the end, the others' counts unchanged. */
  lemma MovedView(o: seq<Node>, s: seq<Entry>, k: int, list: Node)
    requires |s| == |o| && -1 <= k < |o| && Distinct(o) && (if k >= 0 then o[k] == list else list !in o)
    requires forall j :: 0 <= j < |o| && o[j] != list ==> s[j] == Entry(o[j].inode, o[j].lastNumEntries)
    ensures View((if k >= 0 then o[..k] + o[k + 1..] else o) + [list]) ==
            (if k >= 0 then Without(s, k) else s) + [Entry(list.inode, list.lastNumEntries)]
  {
    hide View, Distinct;
    if k >= 0 {
      OthersDiffer(o, k);
      ViewPart(o, s, 0, k);
      ViewPart(o, s, k + 1, |o|);
      ViewConcat(o[..k], o[k + 1..]);
      ViewConcat(o[..k] + o[k + 1..], [list]);
    } else {
      ViewPart(o, s, 0, |o|);
      ViewConcat(o, [list]);
    }
    assert View([list]) == [Entry(list.inode, list.lastNumEntries)];
  }

  lemma OthersDiffer(o: seq<Node>, k: nat)
    requires Distinct(o) && k < |o|
    ensures forall j :: 0 <= j < |o| && j != k ==> o[j] != o[k]
  {
  }

  lemma ViewPart(o: seq<Node>, s: seq<Entry>, a: nat, b: nat)
    requires |s| == |o| && a <= b <= |o|
    requires forall j :: a <= j < b ==> s[j] == Entry(o[j].inode, o[j].lastNumEntries)
    ensures View(o[a..b]) == s[a..b] && o[0..b] == o[..b] && s[0..b] == s[..b] && o[a..|o|] == o[a..] && s[a..|o|] == s[a..]
    ensures o[..|o|] == o && s[..|o|] == s
  {
    hide View;
  }

  lemma ViewConcat(a: seq<Node>, b: seq<Node>)
    ensures View(a + b) == View(a) + View(b)
  {
    hide View;
  }

  // ----- the map and the list -----

  /** With node k bypassed, the other nodes form the list in the old order. */
  lemma Spliced(o: seq<Node>, k: nat, r: seq<Node>)
    requires Distinct(o) && k < |o| && r == o[..k] + o[k + 1..]
    requires forall i {:trigger o[i].next} :: 0 <= i < |o| && i != k - 1 ==> o[i].next == if i + 1 < |o| then o[i + 1] else null
    requires forall i {:trigger o[i].previous} :: 0 <= i < |o| && i != k + 1 ==> o[i].previous == if i > 0 then o[i - 1] else null
    requires k > 0 ==> o[k - 1].next == if k + 1 < |o| then o[k + 1] else null
    requires k + 1 < |o| ==> o[k + 1].previous == if k > 0 then o[k - 1] else null
    ensures Distinct(r)
    ensures forall i {:trigger r[i].next} :: 0 <= i < |r| ==> r[i].next == if i + 1 < |r| then r[i + 1] else null
    ensures forall i {:trigger r[i].previous} :: 0 <= i < |r| ==> r[i].previous == if i > 0 then r[i - 1] else null
  {
    assert forall i :: 0 <= i < |r| ==> r[i] == if i < k then o[i] else o[i + 1];
  }

  lemma LeftOut(o: seq<Node>, k: nat, r: seq<Node>)
    requires Distinct(o) && k + 1 < |o| && r == o[..k] + o[k + 1..]
    ensures o[k] !in r && r != [] && r[|r| - 1] == o[|o| - 1] && r[0] == (if k == 0 then o[1] else o[0])
    ensures forall n :: n in r ==> n in o
  {
    assert forall i :: 0 <= i < |r| ==> r[i] == if i < k then o[i] else o[i + 1];
  }

  ghost predicate Distinct(order: seq<Node>) {
    forall i, j :: 0 <= i < j < |order| ==> order[i] != order[j]
  }

  /** The map's values are exactly the list's nodes, each under its own inode. */
  ghost predicate Maps(m: map<string, Node>, order: seq<Node>) {
    && (forall i :: 0 <= i < |order| ==> order[i].inode in m && m[order[i].inode] == order[i])
    && (forall k :: k in m ==> m[k] in order && m[k].inode == k)
  }

  lemma MapSize(m: map<string, Node>, order: seq<Node>)
    requires Maps(m, order) && Distinct(order)
    ensures |m| == |order|
  {
    var names := seq(|order|, i requires 0 <= i < |order| => order[i].inode);
    forall k | k in m ensures k in names {
      var i :| 0 <= i < |order| && order[i] == m[k];
      assert names[i] == k;
    }
    assert m.Keys == set n | n in names;
    forall i, j | 0 <= i < j < |names| ensures names[i] != names[j] {
      assert order[i] != order[j];
    }
    DistinctCount(names);
  }

  lemma UnmapOne(m: map<string, Node>, order: seq<Node>, k: nat)
    requires Maps(m, order) && Distinct(order) && k < |order|
    ensures Maps(m - {order[k].inode}, order[..k] + order[k + 1..])
  {
    var order', m' := order[..k] + order[k + 1..], m - {order[k].inode};
    forall i | 0 <= i < |order'| ensures order'[i].inode in m' && m'[order'[i].inode] == order'[i] {
      var j := if i < k then i else i + 1;
      assert order'[i] == order[j] && order[j] != order[k];
    }
    forall key | key in m' ensures m'[key] in order' {
      var i :| 0 <= i < |order| && order[i] == m[key];
      assert i != k;
      assert order'[if i < k then i else i - 1] == order[i];
    }
  }

  lemma MapNew(m: map<string, Node>, order: seq<Node>, n: Node)
    requires Maps(m, order) && n.inode !in m
    ensures Maps(m[n.inode := n], order + [n])
  {
    forall key | key in m ensures m[key] in order + [n] {
      assert m[key] in order;
    }
  }

  lemma MapMoved(m: map<string, Node>, order: seq<Node>, k: nat)
    requires Maps(m, order) && Distinct(order) && k < |order|
    ensures Maps(m, order[..k] + order[k + 1..] + [order[k]])
  {
    UnmapOne(m, order, k);
    var n := order[k];
    MapNew(m - {n.inode}, order[..k] + order[k + 1..], n);
    assert (m - {n.inode})[n.inode := n] == m;
  }

  lemma {:induction false} DistinctCount(names: seq<string>)
    requires forall i, j :: 0 <= i < j < |names| ==> names[i] != names[j]
    ensures |set n | n in names| == |names|
  {
    if names != [] {
      var front, n := names[..|names| - 1], names[|names| - 1];
      DistinctCount(front);
      assert names == front + [n];
      assert (set x | x in names) == (set x | x in front) + {n};
      assert n !in front;
    }
  }

  ghost function Some(n: Node?): set<Node> {
    if n == null then {} else {n}
  }
}
