/**
 The cache of directory caches against the calls made to it: which directories
 are kept, in which order and with which counts, told from the calls alone.
 */
module Recency {
  import opened PriorityCaching

  /** The maximum in force after these calls. */
  function MaxAfter(max: nat, ops: seq<CacheOp>): nat {
    if ops == [] then max
    else if ops[|ops| - 1].SetMax? then ops[|ops| - 1].max
    else MaxAfter(max, ops[..|ops| - 1])
  }

  /** Call i is a use of the directory that is not too large for the cache at that time. */
  predicate Counts(max: nat, ops: seq<CacheOp>, inode: string, i: nat)
    requires i < |ops|
  {
    ops[i].Use? && ops[i].inode == inode && ops[i].entries + 1 <= MaxAfter(max, ops[..i])
  }

  /** The last such call before n, or -1. */
  function LastBefore(max: nat, ops: seq<CacheOp>, inode: string, n: nat): (i: int)
    requires n <= |ops|
    ensures -1 <= i < n
    ensures i >= 0 ==> Counts(max, ops, inode, i)
    ensures forall j :: i < j < n ==> !Counts(max, ops, inode, j)
  {
    if n == 0 then -1 else if Counts(max, ops, inode, n - 1) then n - 1 else LastBefore(max, ops, inode, n - 1)
  }

  function LastUse(max: nat, ops: seq<CacheOp>, inode: string): (i: int)
    ensures -1 <= i < |ops|
  {
    LastBefore(max, ops, inode, |ops|)
  }

  /** The directory was used and not removed since. */
  predicate Wanted(max: nat, ops: seq<CacheOp>, inode: string) {
    var i := LastUse(max, ops, inode);
    i >= 0 && forall j :: i < j < |ops| ==> ops[j] != Remove(inode)
  }

  predicate Holds(s: seq<Entry>, inode: string) { exists b :: 0 <= b < |s| && s[b].inode == inode }

  /**
   The order agrees with the calls: every entry is a directory used and not
   removed since, with the count of its last use; less recently used ones come
   first; and whatever was used after an entry and not removed is there too.
   */
  ghost predicate Agrees(max: nat, ops: seq<CacheOp>, s: seq<Entry>) {
    && (forall a :: 0 <= a < |s| ==> Stands(max, ops, s[a]))
    && (forall a, b :: 0 <= a < b < |s| ==> LastUse(max, ops, s[a].inode) < LastUse(max, ops, s[b].inode))
    && (forall a, inode :: 0 <= a < |s| && WantedMore(max, ops, inode, s[a].inode) ==> Holds(s, inode))
  }

  /** The directory was used after the other one, and not removed since. */
  predicate WantedMore(max: nat, ops: seq<CacheOp>, inode: string, other: string) {
    Wanted(max, ops, inode) && LastUse(max, ops, other) < LastUse(max, ops, inode)
  }

  predicate Stands(max: nat, ops: seq<CacheOp>, e: Entry) {
    Wanted(max, ops, e.inode) && ops[LastUse(max, ops, e.inode)].entries == e.entries
  }

  // ----- one more call -----

  lemma CountsBefore(max: nat, front: seq<CacheOp>, op: CacheOp, inode: string)
    ensures forall i :: 0 <= i < |front| ==> (Counts(max, front + [op], inode, i) <==> Counts(max, front, inode, i))
    ensures Counts(max, front + [op], inode, |front|) <==>
            op.Use? && op.inode == inode && op.entries + 1 <= MaxAfter(max, front)
  {
    var ops := front + [op];
    assert ops[..|front|] == front;
    forall i | 0 <= i < |front| ensures Counts(max, ops, inode, i) <==> Counts(max, front, inode, i) {
      assert ops[..i] == front[..i];
    }
  }

  lemma {:induction false} SameLast(max: nat, ops: seq<CacheOp>, ops': seq<CacheOp>, inode: string, n: nat)
    requires n <= |ops| && n <= |ops'|
    requires forall i :: 0 <= i < n ==> (Counts(max, ops, inode, i) <==> Counts(max, ops', inode, i))
    ensures LastBefore(max, ops, inode, n) == LastBefore(max, ops', inode, n)
  {
    hide Counts;
    if n > 0 {
      SameLast(max, ops, ops', inode, n - 1);
    }
  }

  /** What one more call does to the last use of a directory and to its being wanted. */
  lemma OneMoreCall(max: nat, front: seq<CacheOp>, op: CacheOp, inode: string)
    ensures var ops := front + [op];
            var used := op.Use? && op.inode == inode && op.entries + 1 <= MaxAfter(max, front);
            && LastUse(max, ops, inode) == (if used then |front| else LastUse(max, front, inode))
            && (Wanted(max, ops, inode) <==> used || (Wanted(max, front, inode) && op != Remove(inode)))
            && (forall i :: 0 <= i < |front| ==> ops[i] == front[i])
  {
    hide Counts;
    var ops := front + [op];
    CountsBefore(max, front, op, inode);
    SameLast(max, ops, front, inode, |front|);
    assert ops[|front|] == op;
    if Wanted(max, ops, inode) && LastUse(max, ops, inode) < |front| {
      assert forall j :: 0 <= j < |front| ==> ops[j] == front[j];
    }
  }

  lemma StandsStill(max: nat, front: seq<CacheOp>, op: CacheOp, e: Entry)
    requires Stands(max, front, e) && op != Remove(e.inode)
    requires !(op.Use? && op.inode == e.inode && op.entries + 1 <= MaxAfter(max, front))
    ensures Stands(max, front + [op], e)
  {
    hide Wanted, LastUse;
    OneMoreCall(max, front, op, e.inode);
    WantedWasUsed(max, front, e.inode);
  }

  lemma WantedWasUsed(max: nat, ops: seq<CacheOp>, inode: string)
    requires Wanted(max, ops, inode)
    ensures 0 <= LastUse(max, ops, inode) < |ops|
  {
  }

  // ----- what each call does to the order -----

  /** Dropping the front keeps the agreement. */
  lemma SuffixAgrees(max: nat, ops: seq<CacheOp>, s: seq<Entry>, k: nat)
    requires Agrees(max, ops, s) && k <= |s|
    ensures Agrees(max, ops, s[k..])
  {
    hide Wanted, LastUse, Stands;
    var r := s[k..];
    forall a, inode | 0 <= a < |r| && WantedMore(max, ops, inode, r[a].inode) ensures Holds(r, inode) {
      assert r[a] == s[k + a];
      assert Holds(s, inode);
      var b :| 0 <= b < |s| && s[b].inode == inode;
      assert b > k + a;
      assert r[b - k] == s[b];
    }
  }

  /** A call that concerns no directory, or one too large. */
  lemma IdleAgrees(max: nat, front: seq<CacheOp>, op: CacheOp, s: seq<Entry>)
    requires Agrees(max, front, s) && (op.SetMax? || (op.Use? && op.entries + 1 > MaxAfter(max, front)))
    ensures Agrees(max, front + [op], s)
  {
    hide Wanted, LastUse, Stands;
    forall inode
      ensures LastUse(max, front + [op], inode) == LastUse(max, front, inode)
      ensures Wanted(max, front + [op], inode) <==> Wanted(max, front, inode)
    {
      OneMoreCall(max, front, op, inode);
    }
    forall a | 0 <= a < |s| ensures Stands(max, front + [op], s[a]) {
      StandsStill(max, front, op, s[a]);
    }
  }

  lemma WithoutAt(s: seq<Entry>, k: nat)
    requires k < |s|
    ensures |Without(s, k)| == |s| - 1
    ensures forall a :: 0 <= a < |s| - 1 ==> Without(s, k)[a] == s[if a < k then a else a + 1]
  {
  }

  lemma HoldsWithout(s: seq<Entry>, k: nat, inode: string)
    requires k < |s| && Holds(s, inode) && s[k].inode != inode
    ensures Holds(Without(s, k), inode)
  {
    var b :| 0 <= b < |s| && s[b].inode == inode;
    WithoutAt(s, k);
    assert Without(s, k)[if b < k then b else b - 1] == s[b];
  }

  /** The order agrees with the calls but for one directory, which it does not hold. */
  ghost predicate AgreesBut(max: nat, ops: seq<CacheOp>, r: seq<Entry>, inode: string) {
    && (forall a :: 0 <= a < |r| ==> r[a].inode != inode && Stands(max, ops, r[a]))
    && (forall a, b :: 0 <= a < b < |r| ==> LastUse(max, ops, r[a].inode) < LastUse(max, ops, r[b].inode))
    && (forall a, x :: 0 <= a < |r| && x != inode && WantedMore(max, ops, x, r[a].inode) ==> Holds(r, x))
  }

  lemma OnlyOne(max: nat, ops: seq<CacheOp>, s: seq<Entry>, inode: string)
    requires Agrees(max, ops, s)
    ensures forall a :: 0 <= a < |s| && a != IndexOf(s, inode) ==> s[a].inode != inode
  {
    hide LastUse, Stands, WantedMore, Holds, IndexOf;
    var k := IndexOf(s, inode);
    forall a | 0 <= a < |s| && a != k ensures s[a].inode != inode {
      if k >= 0 {
        assert LastUse(max, ops, s[a].inode) != LastUse(max, ops, s[k].inode);
      }
    }
  }

  /** Taking a directory out of the order when it is removed, or about to be put last. */
  lemma TakenOut(max: nat, front: seq<CacheOp>, op: CacheOp, s: seq<Entry>, inode: string)
    requires Agrees(max, front, s)
    requires op == Remove(inode) || (op.Use? && op.inode == inode && op.entries + 1 <= MaxAfter(max, front))
    ensures var k := IndexOf(s, inode); AgreesBut(max, front + [op], if k >= 0 then Without(s, k) else s, inode)
  {
    hide Wanted, LastUse, Stands, IndexOf, Holds;
    var ops, k := front + [op], IndexOf(s, inode);
    var r := if k >= 0 then Without(s, k) else s;
    if k >= 0 {
      WithoutAt(s, k);
    }
    OnlyOne(max, front, s, inode);
    forall x | x != inode
      ensures LastUse(max, ops, x) == LastUse(max, front, x)
      ensures Wanted(max, ops, x) <==> Wanted(max, front, x)
    {
      OneMoreCall(max, front, op, x);
    }
    forall a | 0 <= a < |r| ensures r[a].inode != inode && Stands(max, ops, r[a]) {
      StandsStill(max, front, op, r[a]);
    }
    forall a, x | 0 <= a < |r| && x != inode && WantedMore(max, ops, x, r[a].inode) ensures Holds(r, x) {
      var a' := if k >= 0 && a >= k then a + 1 else a;
      assert r[a] == s[a'];
      assert WantedMore(max, front, x, s[a'].inode);
      if k >= 0 {
        HoldsWithout(s, k, x);
      }
    }
  }

  lemma RemovedAgrees(max: nat, front: seq<CacheOp>, s: seq<Entry>, inode: string)
    requires Agrees(max, front, s)
    ensures var k := IndexOf(s, inode); Agrees(max, front + [Remove(inode)], if k >= 0 then Without(s, k) else s)
  {
    hide Wanted, LastUse, Stands, IndexOf, Holds, Without;
    TakenOut(max, front, Remove(inode), s, inode);
    OneMoreCall(max, front, Remove(inode), inode);
  }

  lemma UsedAgrees(max: nat, front: seq<CacheOp>, s: seq<Entry>, inode: string, n: nat)
    requires Agrees(max, front, s) && n + 1 <= MaxAfter(max, front)
    ensures Agrees(max, front + [Use(inode, n)], Used(s, inode, n))
  {
    hide Agrees, IndexOf, AgreesBut;
    var k := IndexOf(s, inode);
    TakenOut(max, front, Use(inode, n), s, inode);
    PutLast(max, front, if k >= 0 then Without(s, k) else s, inode, n);
  }

  lemma PutLast(max: nat, front: seq<CacheOp>, r: seq<Entry>, inode: string, n: nat)
    requires AgreesBut(max, front + [Use(inode, n)], r, inode) && n + 1 <= MaxAfter(max, front)
    ensures Agrees(max, front + [Use(inode, n)], r + [Entry(inode, n)])
  {
    hide Wanted, LastUse, Holds;
    var op, s := Use(inode, n), r + [Entry(inode, n)];
    var ops := front + [op];
    OneMoreCall(max, front, op, inode);
    assert ops[|front|] == op;
    forall a | 0 <= a < |r| ensures LastUse(max, ops, s[a].inode) < |front| {
      OneMoreCall(max, front, op, r[a].inode);
      assert LastUse(max, front, r[a].inode) < |front|;
    }
    forall a, x | 0 <= a < |s| && WantedMore(max, ops, x, s[a].inode) ensures Holds(s, x) {
      LastIsLatest(max, ops, x);
      HoldsMore(r, Entry(inode, n), x);
    }
  }

  lemma HoldsMore(r: seq<Entry>, e: Entry, x: string)
    ensures Holds(r, x) || e.inode == x ==> Holds(r + [e], x)
  {
    assert (r + [e])[|r|] == e;
    if Holds(r, x) {
      var b :| 0 <= b < |r| && r[b].inode == x;
      assert (r + [e])[b] == r[b];
    }
  }

  lemma LastIsLatest(max: nat, ops: seq<CacheOp>, inode: string)
    ensures LastUse(max, ops, inode) <= |ops| - 1
  {
  }

  // ----- every run -----

  lemma {:induction false} MaxIs(max: nat, ops: seq<CacheOp>, low: nat -> nat)
    ensures Run(max, ops, low).max == MaxAfter(max, ops)
  {
    hide Updated, Adjusted;
    if ops != [] {
      MaxIs(max, ops[..|ops| - 1], low);
    }
  }

  lemma AdjustedAgrees(max: nat, ops: seq<CacheOp>, s: seq<Entry>, m: nat, low: nat)
    requires Agrees(max, ops, s)
    ensures Agrees(max, ops, Adjusted(s, m, low))
  {
    hide Agrees, Evicted, Size;
    var bound := if low == 0 then 1 else low;
    EvictionIsLeastRecentlyUsed(s, bound);
    SuffixAgrees(max, ops, s, |s| - |Evicted(s, bound)|);
  }

  /**
   After every run of the cache, whatever was evicted on the way: the order
   holds directories by their last use that was not too large, with the count
   given then; none of them removed since; and none is missing that was used
   after one that is there and not removed.
   */
  lemma {:induction false} OrderIsByLastUse(max: nat, ops: seq<CacheOp>, low: nat -> nat)
    ensures Agrees(max, ops, Run(max, ops, low).order)
  {
    hide Agrees, Used, Adjusted, IndexOf;
    if ops == [] {
      NothingAgrees(max);
    } else {
      var front, op := ops[..|ops| - 1], ops[|ops| - 1];
      assert ops == front + [op];
      var c := Run(max, front, low);
      OrderIsByLastUse(max, front, low);
      MaxIs(max, front, low);
      match op
      case Use(inode, n) =>
        if n + 1 > c.max {
          IdleAgrees(max, front, op, c.order);
        } else {
          UsedAgrees(max, front, c.order, inode, n);
          AdjustedAgrees(max, ops, Used(c.order, inode, n), c.max, low(c.max));
        }
      case Remove(inode) => RemovedAgrees(max, front, c.order, inode);
      case SetMax(m) =>
        IdleAgrees(max, front, op, c.order);
        AdjustedAgrees(max, ops, c.order, m, low(m));
    }
  }

  lemma NothingAgrees(max: nat)
    ensures Agrees(max, [], [])
  {
  }

  /** The directory of the last call, when that is a use that counts, is held unless it is alone too large for the low mark. */
  lemma JustUsedIsLast(max: nat, ops: seq<CacheOp>, low: nat -> nat, inode: string, n: nat)
    requires n + 1 <= MaxAfter(max, ops)
    ensures var s := Run(max, ops + [Use(inode, n)], low).order; s == [] || s[|s| - 1] == Entry(inode, n)
    ensures n + 1 <= low(MaxAfter(max, ops)) ==> Run(max, ops + [Use(inode, n)], low).order != []
  {
    hide IndexOf;
    assert (ops + [Use(inode, n)])[..|ops|] == ops;
    MaxIs(max, ops, low);
    var c := Run(max, ops, low);
    var s, bound := Used(c.order, inode, n), if low(c.max) == 0 then 1 else low(c.max);
    assert s[|s| - 1] == Entry(inode, n);
    EvictionIsLeastRecentlyUsed(s, bound);
    assert s[|s| - 1..] == [Entry(inode, n)];
    assert Entries([Entry(inode, n)][1..]) == 0;
    assert Size([Entry(inode, n)]) == n + 1;
    hide Size;
  }
}
