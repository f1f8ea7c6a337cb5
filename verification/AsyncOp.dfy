/**
 Asynchronous operations: the counter of outstanding callbacks that a waiting
 reader goes by, and the return code it reports.
 */
module AsyncOps {
  import opened Errno
  import opened ChunkStore
  import VectorRead

  /** The fields of an asynchronous operation; completions are named by number. */
  datatype Async = Async(ready: int, operations: seq<nat>, overrides: map<nat, int>, returnCode: int, complete: bool)

  const NEW: Async := Async(-1, [], map[], EINPROGRESS, false)

  function Add(a: Async, comp: nat): Async {
    a.(operations := a.operations + [comp], ready := if a.ready < 0 then 1 else a.ready + 1)
  }

  function Partial(a: Async): Async {
    a.(ready := if a.ready > 0 then a.ready - 1 else a.ready)
  }

  function Override(a: Async, comp: nat, ret: int): Async {
    a.(overrides := a.overrides[comp := ret])
  }

  /** The code that counts for a completion: the overriding one, if any. */
  function CodeOf(overrides: map<nat, int>, codes: nat -> int, comp: nat): int {
    if comp in overrides then overrides[comp] else codes(comp)
  }

  predicate IsError(code: int) { code != 0 && code != EINPROGRESS }

  /** The first error in issue order, else 0. */
  function FirstError(overrides: map<nat, int>, codes: nat -> int, ops: seq<nat>): (r: int)
    ensures r != EINPROGRESS
  {
    if ops == [] then 0
    else if IsError(CodeOf(overrides, codes, ops[0])) then CodeOf(overrides, codes, ops[0])
    else FirstError(overrides, codes, ops[1..])
  }

  /** An error is reported exactly when some completion has one, and it is the earliest issued. */
  lemma {:induction false} FirstErrorIsEarliest(overrides: map<nat, int>, codes: nat -> int, ops: seq<nat>)
    ensures FirstError(overrides, codes, ops) == 0 <==>
            forall k :: 0 <= k < |ops| ==> !IsError(CodeOf(overrides, codes, ops[k]))
    ensures FirstError(overrides, codes, ops) != 0 ==>
              exists k :: 0 <= k < |ops| && IsEarliest(overrides, codes, ops, k) &&
                          FirstError(overrides, codes, ops) == CodeOf(overrides, codes, ops[k])
  {
    if ops != [] && !IsError(CodeOf(overrides, codes, ops[0])) {
      var rest := ops[1..];
      FirstErrorIsEarliest(overrides, codes, rest);
      if FirstError(overrides, codes, rest) != 0 {
        var k :| 0 <= k < |rest| && IsEarliest(overrides, codes, rest, k) &&
                 FirstError(overrides, codes, rest) == CodeOf(overrides, codes, rest[k]);
        assert ops[k + 1] == rest[k];
        assert IsEarliest(overrides, codes, ops, k + 1);
      }
      assert forall k :: 0 < k < |ops| ==> ops[k] == rest[k - 1];
    } else if ops != [] {
      assert IsEarliest(overrides, codes, ops, 0);
    }
  }

  ghost predicate IsEarliest(overrides: map<nat, int>, codes: nat -> int, ops: seq<nat>, k: nat)
    requires k < |ops|
  {
    && IsError(CodeOf(overrides, codes, ops[k]))
    && forall j :: 0 <= j < k ==> !IsError(CodeOf(overrides, codes, ops[j]))
  }

  /** The result is the first of the counts that is neither 0 nor "in progress", else 0. */
  ghost predicate IsFirstFailure(counts: seq<int>, ret: int) {
    && (ret == 0 ==> NoFailure(counts))
    && (ret != 0 ==> ret != EINPROGRESS && exists k :: 0 <= k < |counts| && counts[k] == ret && NoFailure(counts[..k]))
  }

  ghost predicate NoFailure(counts: seq<int>) {
    forall k :: 0 <= k < |counts| ==> counts[k] == 0 || counts[k] == EINPROGRESS
  }

  lemma FirstErrorIsFirstFailure(overrides: map<nat, int>, codes: nat -> int, ops: seq<nat>, counts: seq<int>)
    requires |counts| == |ops|
    requires forall k :: 0 <= k < |ops| ==>
               counts[k] == if ops[k] in overrides then overrides[ops[k]] else codes(ops[k])
    ensures IsFirstFailure(counts, FirstError(overrides, codes, ops))
  {
    FirstErrorIsEarliest(overrides, codes, ops);
    var r := FirstError(overrides, codes, ops);
    if r != 0 {
      var k :| 0 <= k < |ops| && IsEarliest(overrides, codes, ops, k) && r == CodeOf(overrides, codes, ops[k]);
      assert counts[k] == r;
      hide FirstError;
    }
  }

  class AsyncOp {
    var ready: int
    var operations: seq<nat>
    var opsReturnCodes: map<nat, int>
    var returnCode: int
    var complete: bool

    ghost function Value(): Async
      reads this
    {
      Async(ready, operations, opsReturnCodes, returnCode, complete)
    }

    constructor ()
      ensures Value() == NEW
    {
      ready, operations, opsReturnCodes, returnCode, complete := -1, [], map[], EINPROGRESS, false;
    }

    method AddCompletion(comp: nat)
      modifies this
      ensures Value() == Add(old(Value()), comp)
    {
      operations := operations + [comp];
      if ready < 0 {
        ready := 1;
      } else {
        ready := ready + 1;
      }
    }

    method SetReady()
      modifies this
      ensures Value() == old(Value()).(ready := 0)
    {
      ready := 0;
    }

    method SetPartialReady()
      modifies this
      ensures Value() == Partial(old(Value()))
    {
      if ready > 0 {
        ready := ready - 1;
      }
    }

    method SetOverriddenReturnCode(comp: nat, ret: int)
      modifies this
      ensures Value() == Override(old(Value()), comp, ret)
    {
      opsReturnCodes := opsReturnCodes[comp := ret];
    }

    /**
     waitForCompletion past its busy wait, which lasts while the operation is
     in progress and not ready; codes are the results of the completions.
     */
    method WaitForCompletion(codes: nat -> int) returns (ret: int)
      requires returnCode == EINPROGRESS ==> ready == 0
      modifies this
      ensures complete && ret == returnCode
      ensures old(returnCode) == EINPROGRESS ==>
                ret == FirstError(opsReturnCodes, codes, old(operations)) && operations == []
      ensures old(returnCode) == EINPROGRESS ==>
                var ops, over := old(operations), opsReturnCodes;
                IsFirstFailure(seq(|ops|, k requires 0 <= k < |ops| =>
                                 if ops[k] in over then over[ops[k]] else codes(ops[k])), ret)
      ensures old(returnCode) != EINPROGRESS ==> ret == old(returnCode) && operations == old(operations)
      ensures ready == old(ready) && opsReturnCodes == old(opsReturnCodes)
    {
      hide IsFirstFailure;
      ghost var want := FirstError(opsReturnCodes, codes, operations);
      ghost var all, over := operations, opsReturnCodes;
      FirstErrorIsFirstFailure(over, codes, all,
        seq(|all|, k requires 0 <= k < |all| => if all[k] in over then over[all[k]] else codes(all[k])));
      while returnCode == EINPROGRESS
        invariant ready == old(ready) && opsReturnCodes == old(opsReturnCodes)
        invariant old(returnCode) != EINPROGRESS ==> returnCode == old(returnCode) && operations == all
        invariant old(returnCode) == EINPROGRESS ==> operations == all || operations == []
        invariant old(returnCode) == EINPROGRESS && operations == [] ==>
                    (returnCode == EINPROGRESS && want == 0) || returnCode == want
        invariant old(returnCode) == EINPROGRESS && operations != [] ==> returnCode == EINPROGRESS
        decreases returnCode == EINPROGRESS, |operations|
      {
        if |operations| == 0 {
          returnCode := 0;
        } else {
          Collect(codes);
        }
      }
      complete := true;
      ret := returnCode;
    }

    /** The inner loop of waitForCompletion: the completions in issue order, each let go. */
    method Collect(codes: nat -> int)
      requires returnCode == EINPROGRESS && operations != []
      modifies this
      ensures operations == [] && ready == old(ready) && opsReturnCodes == old(opsReturnCodes)
      ensures var want := FirstError(opsReturnCodes, codes, old(operations));
              returnCode == want || (want == 0 && returnCode == EINPROGRESS)
      ensures var ops, over := old(operations), opsReturnCodes;
              IsFirstFailure(seq(|ops|, k requires 0 <= k < |ops| =>
                               if ops[k] in over then over[ops[k]] else codes(ops[k])),
                             if returnCode == EINPROGRESS then 0 else returnCode)
    {
      hide IsFirstFailure;
      ghost var want := FirstError(opsReturnCodes, codes, operations);
      ghost var all, over := operations, opsReturnCodes;
      FirstErrorIsFirstFailure(over, codes, all,
        seq(|all|, k requires 0 <= k < |all| => if all[k] in over then over[all[k]] else codes(all[k])));
      while operations != []
        invariant ready == old(ready) && opsReturnCodes == old(opsReturnCodes)
        invariant IsError(returnCode) ==> returnCode == want
        invariant !IsError(returnCode) ==> want == FirstError(opsReturnCodes, codes, operations)
        decreases |operations|
      {
        var completion := operations[0];
        if returnCode == EINPROGRESS || returnCode == 0 {
          if completion in opsReturnCodes {
            returnCode := opsReturnCodes[completion];
          } else {
            returnCode := codes(completion);
          }
        }
        operations := operations[1..];
      }
    }
  }

  // ----- a synchronous read -----

  /**
   A read of `total` chunks: how many chunk reads have been issued, which
   callbacks have run, and the operation they share.
   */
  datatype Read = Read(total: nat, issued: nat, finished: set<nat>, op: Async)

  datatype Event =
    | Issue                                      // addCompletion, then the chunk read is sent
    | Callback(chunk: nat, overrideWith: seq<int>) // onReadCompleted: maybe an override, then setPartialReady

  predicate Possible(r: Read, e: Event) {
    match e
    case Issue => r.issued < r.total
    case Callback(chunk, overrideWith) => chunk < r.issued && chunk !in r.finished
  }

  function Overridden(a: Async, comp: nat, rets: seq<int>): Async {
    if rets == [] then a else Override(Overridden(a, comp, rets[..|rets| - 1]), comp, rets[|rets| - 1])
  }

  function Next(r: Read, e: Event): Read {
    match e
    case Issue => r.(issued := r.issued + 1, op := Add(r.op, r.issued))
    case Callback(chunk, rets) => r.(finished := r.finished + {chunk}, op := Partial(Overridden(r.op, chunk, rets)))
  }

  function Start(total: nat): Read { Read(total, 0, {}, NEW) }

  ghost predicate Reaches(rs: seq<Read>, es: seq<Event>) {
    && |rs| == |es| + 1
    && forall k :: 0 <= k < |es| ==> Possible(rs[k], es[k]) && rs[k + 1] == Next(rs[k], es[k])
  }

  /** The counter is -1 before the first issue and then the callbacks still to run. */
  ghost predicate Counts(r: Read) {
    && r.issued <= r.total
    && (forall c :: c in r.finished ==> c < r.issued)
    && r.op.ready == (if r.issued == 0 then -1 else r.issued - |r.finished|)
    && |r.finished| <= r.issued
    && r.op.operations == seq(r.issued, i requires i >= 0 => i)
  }

  lemma {:induction false} OverriddenKeepsCounter(a: Async, comp: nat, rets: seq<int>)
    ensures Overridden(a, comp, rets) == a.(overrides := Overridden(a, comp, rets).overrides)
  {
    if rets != [] {
      OverriddenKeepsCounter(a, comp, rets[..|rets| - 1]);
    }
  }

  lemma {:induction false} SmallSet(s: set<nat>, n: nat)
    requires forall x :: x in s ==> x < n
    ensures |s| <= n
    ensures |s| == n ==> forall x: nat :: x < n ==> x in s
  {
    if n > 0 {
      var rest := s - {n - 1};
      SmallSet(rest, n - 1);
      if n - 1 in s {
        assert |rest| == |s| - 1;
      } else {
        assert rest == s;
      }
    } else {
      assert s == {};
    }
  }

  lemma StepCounts(r: Read, e: Event)
    requires Counts(r) && Possible(r, e)
    ensures Counts(Next(r, e))
  {
    match e
    case Issue =>
      assert Next(r, e).op.operations == seq(r.issued + 1, i requires i >= 0 => i);
    case Callback(chunk, rets) =>
      OverriddenKeepsCounter(r.op, chunk, rets);
      assert |r.finished + {chunk}| == |r.finished| + 1;
      SmallSet(r.finished + {chunk}, r.issued);
  }

  lemma {:induction false} ReachableCounts(rs: seq<Read>, es: seq<Event>)
    requires Reaches(rs, es) && rs[0] == Start(rs[0].total)
    ensures Counts(rs[|es|])
  {
    if es == [] {
      assert rs[0].op.operations == seq(0, i requires i >= 0 => i);
    } else {
      var n := |es| - 1;
      ReachableCounts(rs[..n + 1], es[..n]);
      StepCounts(rs[n], es[n]);
    }
  }

  /**
   Once a read has issued all its chunk reads (at least one), it gets past the
   wait exactly when every callback has run; the completions it then collects
   are those of its chunks, in issue order.
   */
  lemma ReadWaitsForEveryCallback(rs: seq<Read>, es: seq<Event>)
    requires Reaches(rs, es) && rs[0] == Start(rs[0].total)
    requires rs[|es|].issued == rs[|es|].total > 0
    ensures var r := rs[|es|];
            && (r.op.ready == 0 <==> forall c: nat :: c < r.total ==> c in r.finished)
            && r.op.operations == seq(r.total, i requires i >= 0 => i)
  {
    ReachableCounts(rs, es);
    var r := rs[|es|];
    SmallSet(r.finished, r.issued);
    if forall c: nat :: c < r.total ==> c in r.finished {
      FullSet(r.finished, r.issued);
    }
  }

  lemma {:induction false} FullSet(s: set<nat>, n: nat)
    requires forall x: nat :: x < n ==> x in s
    ensures |s| >= n
  {
    if n > 0 {
      FullSet(s - {n - 1}, n - 1);
    }
  }

  // ----- the code a read reports -----

  /** What counts for a chunk, from the callbacks: the last overriding code its callback gave, else its completion's own. */
  function Counted(es: seq<Event>, codes: nat -> int, chunk: nat): int {
    if es == [] then codes(chunk) else
      var e := es[|es| - 1];
      if e.Callback? && e.chunk == chunk && e.overrideWith != [] then e.overrideWith[|e.overrideWith| - 1]
      else Counted(es[..|es| - 1], codes, chunk)
  }

  lemma {:induction false} OverriddenWith(a: Async, comp: nat, rets: seq<int>, c: nat)
    ensures var a' := Overridden(a, comp, rets);
            && (c in a'.overrides <==> c in a.overrides || (c == comp && rets != []))
            && (c == comp && rets != [] ==> a'.overrides[c] == rets[|rets| - 1])
            && (c in a.overrides && !(c == comp && rets != []) ==> a'.overrides[c] == a.overrides[c])
            && a'.returnCode == a.returnCode
  {
    if rets != [] {
      OverriddenWith(a, comp, rets[..|rets| - 1], c);
    }
  }

  /** In every reachable state the recorded codes are those the callbacks gave. */
  lemma {:induction false} CountedIsRecorded(rs: seq<Read>, es: seq<Event>, codes: nat -> int, c: nat)
    requires Reaches(rs, es) && rs[0] == Start(rs[0].total)
    ensures var over := rs[|es|].op.overrides;
            Counted(es, codes, c) == if c in over then over[c] else codes(c)
    ensures rs[|es|].op.returnCode == EINPROGRESS
  {
    if es != [] {
      var n := |es| - 1;
      CountedIsRecorded(rs[..n + 1], es[..n], codes, c);
      if es[n].Callback? {
        OverriddenWith(rs[n].op, es[n].chunk, es[n].overrideWith, c);
      }
    }
  }

  /** A callback that has run is not possible again. */
  lemma {:induction false} FinishedStays(rs: seq<Read>, es: seq<Event>, i: nat, n: nat)
    requires Reaches(rs, es) && i < n <= |es| && es[i].Callback?
    ensures es[i].chunk in rs[n].finished
    decreases n
  {
    if n > i + 1 {
      FinishedStays(rs, es, i, n - 1);
    }
    assert rs[n] == Next(rs[n - 1], es[n - 1]);
  }

  /**
   The one callback of a chunk decides: with overriding codes the last of them
   counts, whatever the completion returned; without, the completion's code.
   */
  lemma {:induction false} CallbackDecides(rs: seq<Read>, es: seq<Event>, codes: nat -> int, i: nat)
    requires Reaches(rs, es) && i < |es| && es[i].Callback?
    ensures var rets := es[i].overrideWith;
            Counted(es, codes, es[i].chunk) == if rets == [] then codes(es[i].chunk) else rets[|rets| - 1]
    decreases |es|
  {
    var n, c := |es| - 1, es[i].chunk;
    if i < n {
      FinishedStays(rs, es, i, n);
      assert Possible(rs[n], es[n]);
      CallbackDecides(rs[..n + 1], es[..n], codes, i);
    } else {
      NoCallbackYet(rs, es, codes, n, c);
    }
  }

  lemma {:induction false} NoCallbackYet(rs: seq<Read>, es: seq<Event>, codes: nat -> int, n: nat, c: nat)
    requires Reaches(rs, es) && n <= |es| && c !in rs[n].finished
    ensures Counted(es[..n], codes, c) == codes(c)
    decreases n
  {
    if n > 0 {
      assert rs[n] == Next(rs[n - 1], es[n - 1]);
      assert es[..n][..n - 1] == es[..n - 1];
      NoCallbackYet(rs, es, codes, n - 1, c);
    }
  }

  /**
   A synchronous read past its wait, in every order of issues and callbacks:
   it reports the first of its chunks' counts, in issue order, that is neither
   0 nor "in progress", else 0.
   */
  method FinishRead(op: AsyncOp, ghost rs: seq<Read>, ghost es: seq<Event>, codes: nat -> int) returns (ret: int)
    requires Reaches(rs, es) && rs[0] == Start(rs[0].total) && op.Value() == rs[|es|].op
    requires rs[|es|].issued == rs[|es|].total > 0 && forall c: nat :: c < rs[|es|].total ==> c in rs[|es|].finished
    modifies op
    ensures IsFirstFailure(seq(rs[|es|].total, c requires c >= 0 => Counted(es, codes, c)), ret)
  {
    hide IsFirstFailure, FirstError;
    ghost var r := rs[|es|];
    ReadWaitsForEveryCallback(rs, es);
    CountedIsRecorded(rs, es, codes, 0);
    ghost var ops, over := r.op.operations, r.op.overrides;
    ghost var counts := seq(r.total, c requires c >= 0 => Counted(es, codes, c));
    ghost var own := seq(|ops|, k requires 0 <= k < |ops| => if ops[k] in over then over[ops[k]] else codes(ops[k]));
    forall c | 0 <= c < r.total ensures own[c] == counts[c] {
      CountedIsRecorded(rs, es, codes, c);
    }
    assert own == counts;
    ret := op.WaitForCompletion(codes);
  }

  /** With nothing to issue the counter stays at -1 and the wait never ends. */
  lemma EmptyReadNeverReady(rs: seq<Read>, es: seq<Event>)
    requires Reaches(rs, es) && rs[0] == Start(0)
    ensures rs[|es|].op.ready == -1
  {
    ReachableCounts(rs, es);
    TotalKept(rs, es);
  }

  /** The wait of a read that has issued everything lets it through. */
  predicate GetsThrough(r: Read) { r.issued == r.total && r.op.ready == 0 }

  ghost predicate CanEnd(total: nat) {
    exists rs, es :: Reaches(rs, es) && rs[0] == Start(total) && GetsThrough(rs[|es|])
  }

  lemma {:induction false} RunToTheEnd(rs: seq<Read>, es: seq<Event>) returns (rs': seq<Read>, es': seq<Event>)
    requires Reaches(rs, es) && rs[0] == Start(rs[0].total) && rs[0].total > 0
    ensures Reaches(rs', es') && rs'[0] == rs[0] && GetsThrough(rs'[|es'|])
    decreases 2 * rs[0].total - rs[|es|].issued - |rs[|es|].finished|
  {
    ReachableCounts(rs, es);
    TotalKept(rs, es);
    var r := rs[|es|];
    if r.issued == r.total && forall c: nat :: c < r.total ==> c in r.finished {
      ReadWaitsForEveryCallback(rs, es);
      return rs, es;
    }
    var e := Issue;
    if r.issued == r.total {
      var c: nat :| c < r.total && c !in r.finished;
      e := Callback(c, []);
    }
    StepCounts(r, e);
    rs', es' := RunToTheEnd(rs + [Next(r, e)], es + [e]);
  }

  /** A read can get past its wait exactly when it issues something. */
  lemma EndsWhenIssued(total: nat)
    ensures CanEnd(total) <==> total > 0
  {
    if total > 0 {
      var rs, es := RunToTheEnd([Start(total)], []);
      assert Reaches(rs, es);
    } else if CanEnd(0) {
      var rs, es :| Reaches(rs, es) && rs[0] == Start(0) && GetsThrough(rs[|es|]);
      EmptyReadNeverReady(rs, es);
    }
  }

  /** A synchronous vector read comes back: at once when no interval is given, else past its wait. */
  ghost predicate Returns(cap: nat, ivs: seq<VectorRead.Interval>, m: map<nat, seq<VectorRead.Piece>>) {
    ivs == [] || CanEnd(VectorRead.Issued(cap, ivs, m))
  }

  /**
   A vector read, with its intervals split and grouped, comes back exactly
   when it has no interval, or one that is not empty or begins inside the
   inline buffer.
   */
  lemma ReadEndsUnlessEmpty(f: Layout, cap: nat, ivs: seq<VectorRead.Interval>, m: map<nat, seq<VectorRead.Piece>>)
    requires VectorRead.Grouped(m, VectorRead.PiecesOf(f, VectorRead.InodeParts(cap, ivs)))
    ensures Returns(cap, ivs, m) <==> ivs == [] || exists iv :: iv in ivs && (iv.length > 0 || iv.offset < cap)
  {
    VectorRead.NothingIssued(f, cap, ivs, m);
    EndsWhenIssued(VectorRead.Issued(cap, ivs, m));
  }

  lemma {:induction false} TotalKept(rs: seq<Read>, es: seq<Event>)
    requires Reaches(rs, es)
    ensures rs[|es|].total == rs[0].total
  {
    if es != [] {
      var n := |es| - 1;
      TotalKept(rs[..n + 1], es[..n]);
    }
  }
}
