/**
 The inline buffer: small file contents kept in the parent directory object,
 edited by read, compute, and commit-if-unchanged retry loops.
 */
module InlineBuffering {
  import opened ChunkStore

  const HEADER_SIZE: nat := 64

  /** readInlineBuffer: what follows the header; nothing for a missing or bare value. */
  function Contents(stored: seq<Byte>): seq<Byte> {
    if |stored| > HEADER_SIZE then stored[HEADER_SIZE..] else []
  }

  type Header = h: seq<Byte> | |h| == HEADER_SIZE witness Zeros(HEADER_SIZE)

  datatype Op = Write(offset: nat, data: seq<Byte>) | Fill | Truncate(size: nat)

  datatype Option<T> = None | Some(value: T)

  /** How many bytes a write takes into the buffer; the offset does not count. */
  function Taken(cap: nat, data: seq<Byte>): nat { Min(|data|, cap) }

  function Padded(c: seq<Byte>, n: nat): (r: seq<Byte>)
    ensures |r| == Max(|c|, n)
  {
    if |c| < n then c + Zeros(n - |c|) else c
  }

  /**
   What an operation makes of the contents it has read. None: it has nothing
   to write, or (filling contents already past the capacity) cannot go on.
   */
  function Compute(cap: nat, op: Op, c: seq<Byte>): Option<seq<Byte>> {
    match op
    case Write(offset, data) =>
      if offset >= cap then None else
        var n := Taken(cap, data);
        Some(Replace(Padded(c, offset + n), offset, data[..n]))
    case Fill => if |c| > cap then None else Some(Padded(c, cap))
    case Truncate(size) =>
      if size >= cap then (if |c| > cap then None else Some(Padded(c, cap)))
      else if size < |c| then Some(c[..size])
      else if size > |c| then Some(Padded(c, size))
      else None
  }

  lemma PaddedAt(c: seq<Byte>, n: nat, i: nat)
    ensures ByteIn(Padded(c, n), i) == ByteIn(c, i)
  {
  }

  lemma OverlaidAt(c: seq<Byte>, offset: nat, data: seq<Byte>, i: nat)
    requires offset + |data| <= |c|
    ensures |Replace(c, offset, data)| == |c|
    ensures ByteIn(Replace(c, offset, data), i) == if offset <= i < offset + |data| then data[i - offset] else ByteIn(c, i)
  {
  }

  /**
   What a commit means for the bytes: a write overlays what it takes of its
   data and never shortens; a truncation cuts or zero-fills to its size, but
   no further than the capacity; filling zero-fills to the capacity.
   */
  lemma ComputeBytes(cap: nat, op: Op, c: seq<Byte>, i: nat)
    requires Compute(cap, op, c).Some?
    ensures var r := Compute(cap, op, c).value;
            match op
            case Write(offset, data) =>
              && |r| == Max(|c|, offset + Taken(cap, data))
              && ByteIn(r, i) == if offset <= i < offset + Taken(cap, data) then data[i - offset] else ByteIn(c, i)
            case Fill => |r| == cap && ByteIn(r, i) == ByteIn(c, i)
            case Truncate(size) =>
              && |r| == Min(size, cap)
              && ByteIn(r, i) == if i < size then ByteIn(c, i) else 0
  {
    hide Padded, Replace;
    match op
    case Write(offset, data) =>
      var n := Taken(cap, data);
      PaddedAt(c, offset + n, i);
      OverlaidAt(Padded(c, offset + n), offset, data[..n], i);
    case Fill => PaddedAt(c, cap, i);
    case Truncate(size) =>
      PaddedAt(c, cap, i);
      PaddedAt(c, size, i);
  }

  /** An operation has something to commit unless it lies past the buffer, is done already or meets contents too long. */
  lemma ComputesWhen(cap: nat, op: Op, c: seq<Byte>)
    ensures Compute(cap, op, c).Some? <==>
            match op
            case Write(offset, _) => offset < cap
            case Fill => |c| <= cap
            case Truncate(size) => if size < cap then |c| != size else |c| <= cap
  {
  }

  /** The value stored in the directory object and one attempt of each retry loop on it. */
  class Buffer {
    const capacity: nat
    var stored: seq<Byte>

    constructor (capacity: nat)
      ensures this.capacity == capacity && stored == []
    {
      this.capacity, stored := capacity, [];
    }

    /** The guarded update: applied when the value is still the one that was read. */
    method Commit(read: seq<Byte>, header: Header, contents: seq<Byte>) returns (canceled: bool)
      modifies this
      ensures canceled <==> old(stored) != read
      ensures stored == if canceled then old(stored) else header + contents
    {
      canceled := stored != read;
      if !canceled {
        stored := header + contents;
      }
    }

    /** One turn of the loop in write, for an offset inside the capacity. */
    method TryWrite(read: seq<Byte>, header: Header, buff: seq<Byte>, offset: nat) returns (canceled: bool)
      requires offset < capacity
      modifies this
      ensures canceled <==> old(stored) != read
      ensures !canceled ==> stored == header + Compute(capacity, Write(offset, buff), Contents(read)).value
      ensures canceled ==> stored == old(stored)
    {
      var replaceLength := if |buff| < capacity then |buff| else capacity;
      var currentContents := Contents(read);
      if |currentContents| < offset + replaceLength {
        var lengthToFill := offset + replaceLength - |currentContents|;
        currentContents := currentContents + Zeros(lengthToFill);
      }
      var inlineBuffer := Replace(currentContents, offset, buff[..replaceLength]);
      canceled := Commit(read, header, inlineBuffer);
    }

    /**
     One turn of the loop in fillRemainingInlineBuffer. Contents longer than
     the capacity make the unsigned fill length wrap, and the append throws.
     */
    method TryFill(read: seq<Byte>, header: Header) returns (threw: bool, canceled: bool)
      modifies this
      ensures threw <==> Compute(capacity, Fill, Contents(read)).None?
      ensures threw ==> stored == old(stored) && !canceled
      ensures !threw ==> (canceled <==> old(stored) != read)
      ensures !threw && !canceled ==> stored == header + Compute(capacity, Fill, Contents(read)).value
      ensures canceled ==> stored == old(stored)
    {
      var inlineBuffer := Contents(read);
      if capacity < |inlineBuffer| {
        return true, false;
      }
      inlineBuffer := inlineBuffer + Zeros(capacity - |inlineBuffer|);
      assert |Contents(read)| == capacity ==> inlineBuffer == Contents(read);
      canceled := Commit(read, header, inlineBuffer);
      threw := false;
    }

    /** One turn of the loop in truncate, for a size below the capacity. */
    method TryTruncate(read: seq<Byte>, header: Header, size: nat) returns (canceled: bool)
      requires size < capacity
      modifies this
      ensures |Contents(read)| == size ==> !canceled && stored == old(stored)
      ensures |Contents(read)| != size ==> (canceled <==> old(stored) != read)
      ensures |Contents(read)| != size && !canceled ==>
                stored == header + Compute(capacity, Truncate(size), Contents(read)).value
      ensures canceled ==> stored == old(stored)
    {
      var currentContents := Contents(read);
      var inlineBuffer;
      if size < |currentContents| {
        inlineBuffer := currentContents[..size];
      } else if size > |currentContents| {
        var newSize := if capacity < size then capacity else size;
        inlineBuffer := currentContents + Zeros(newSize - |currentContents|);
      } else {
        return false;
      }
      canceled := Commit(read, header, inlineBuffer);
    }
  }

  // ----- any number of clients -----

  /** A client has read a value on behalf of an operation. */
  datatype Pending = Pending(op: Op, read: seq<Byte>)

  /** The stored value, the clients between read and commit, and the commits so far. */
  datatype World = World(stored: seq<Byte>, clients: map<nat, Pending>, commits: seq<Op>)

  datatype Action = Read(client: nat, op: Op) | Commit(client: nat, header: Header)

  predicate Enabled(cap: nat, w: World, a: Action) {
    a.Commit? ==>
      a.client in w.clients && Compute(cap, w.clients[a.client].op, Contents(w.clients[a.client].read)).Some?
  }

  /** A commit whose value has changed meanwhile is canceled; the client reads again. */
  function Next(cap: nat, w: World, a: Action): World
    requires Enabled(cap, w, a)
  {
    match a
    case Read(client, op) => w.(clients := w.clients[client := Pending(op, w.stored)])
    case Commit(client, header) =>
      var p := w.clients[client];
      if w.stored == p.read then
        World(header + Compute(cap, p.op, Contents(p.read)).value, w.clients - {client}, w.commits + [p.op])
      else w.(clients := w.clients - {client})
  }

  /** The operations applied one after another; one that writes nothing leaves the contents. */
  function Sequential(cap: nat, ops: seq<Op>, c: seq<Byte>): seq<Byte> {
    if ops == [] then c else
      var before := Sequential(cap, ops[..|ops| - 1], c);
      var after := Compute(cap, ops[|ops| - 1], before);
      if after.Some? then after.value else before
  }

  ghost predicate Run(cap: nat, ws: seq<World>, acts: seq<Action>) {
    && |ws| == |acts| + 1
    && forall k :: 0 <= k < |acts| ==> Enabled(cap, ws[k], acts[k]) && ws[k + 1] == Next(cap, ws[k], acts[k])
  }

  lemma ContentsOfCommit(header: Header, c: seq<Byte>)
    ensures Contents(header + c) == c
  {
    assert (header + c)[HEADER_SIZE..] == c;
  }

  lemma StepIsSequential(cap: nat, w: World, a: Action, start: seq<Byte>)
    requires Enabled(cap, w, a) && Contents(w.stored) == Sequential(cap, w.commits, start)
    ensures var w' := Next(cap, w, a); Contents(w'.stored) == Sequential(cap, w'.commits, start)
  {
    if a.Commit? {
      var p := w.clients[a.client];
      if w.stored == p.read {
        ContentsOfCommit(a.header, Compute(cap, p.op, Contents(p.read)).value);
        assert (w.commits + [p.op])[..|w.commits|] == w.commits;
      }
    }
  }

  /**
   No update is lost: in every interleaving of writers, fillers and
   truncators the stored contents are the committed operations applied one
   after another in commit order.
   */
  lemma {:induction false} CommitsAreSequential(cap: nat, ws: seq<World>, acts: seq<Action>)
    requires Run(cap, ws, acts) && ws[0].commits == []
    ensures var w := ws[|acts|]; Contents(w.stored) == Sequential(cap, w.commits, Contents(ws[0].stored))
  {
    if acts != [] {
      var n := |acts| - 1;
      CommitsAreSequential(cap, ws[..n + 1], acts[..n]);
      StepIsSequential(cap, ws[n], acts[n], Contents(ws[0].stored));
    }
  }

  // ----- one client's read and commit -----

  /** Client c reads for op at step j and commits at step k, doing nothing in between. */
  ghost predicate Turn(acts: seq<Action>, c: nat, op: Op, j: nat, k: nat, header: Header) {
    && j < k < |acts| && acts[j] == Read(c, op) && acts[k] == Commit(c, header)
    && forall m :: j < m < k ==> acts[m].client != c
  }

  lemma {:induction false} StillPending(cap: nat, ws: seq<World>, acts: seq<Action>, c: nat, op: Op, j: nat, m: nat)
    requires Run(cap, ws, acts) && j < m <= |acts| && acts[j] == Read(c, op)
    requires forall i :: j < i < m ==> acts[i].client != c
    ensures c in ws[m].clients && ws[m].clients[c] == Pending(op, ws[j].stored)
    decreases m
  {
    if m == j + 1 {
      assert ws[m] == Next(cap, ws[j], acts[j]);
    } else {
      StillPending(cap, ws, acts, c, op, j, m - 1);
      assert ws[m] == Next(cap, ws[m - 1], acts[m - 1]);
    }
  }

  /** Step m is a commit that took effect: it added itself to the commits. */
  ghost predicate TookEffect(ws: seq<World>, acts: seq<Action>, m: nat)
    requires m < |acts| < |ws|
  {
    acts[m].Commit? && |ws[m + 1].commits| == |ws[m].commits| + 1
  }

  lemma {:induction false} ChangedByCommit(cap: nat, ws: seq<World>, acts: seq<Action>, j: nat, k: nat)
    requires Run(cap, ws, acts) && j <= k <= |acts| && ws[j].stored != ws[k].stored
    ensures exists m :: j <= m < k && TookEffect(ws, acts, m)
    decreases k
  {
    hide Next, Enabled;
    var m := k - 1;
    assert ws[m + 1] == Next(cap, ws[m], acts[m]) && Enabled(cap, ws[m], acts[m]);
    if ws[m].stored != ws[k].stored {
      StoredByCommit(cap, ws[m], acts[m]);
      assert TookEffect(ws, acts, m);
    } else {
      ChangedByCommit(cap, ws, acts, j, m);
    }
  }

  lemma StoredByCommit(cap: nat, w: World, a: Action)
    requires Enabled(cap, w, a) && Next(cap, w, a).stored != w.stored
    ensures a.Commit? && |Next(cap, w, a).commits| == |w.commits| + 1
  {
    hide Compute, Contents;
  }

  /**
   A client's turn, among any others: when the value is the one it read, its
   operation becomes the last commit, and the header and the operation's
   outcome on the contents read are stored; otherwise nothing changes, and
   some other client's commit took effect since the read. In either case the
   client is done.
   */
  lemma TurnCommits(cap: nat, ws: seq<World>, acts: seq<Action>, c: nat, op: Op, j: nat, k: nat, header: Header)
    requires Run(cap, ws, acts) && Turn(acts, c, op, j, k, header)
    ensures Compute(cap, op, Contents(ws[j].stored)).Some? && c !in ws[k + 1].clients
    ensures ws[k].stored == ws[j].stored ==>
              && ws[k + 1].commits == ws[k].commits + [op]
              && ws[k + 1].stored == header + Compute(cap, op, Contents(ws[j].stored)).value
              && Contents(ws[k + 1].stored) == Compute(cap, op, Contents(ws[j].stored)).value
    ensures ws[k].stored != ws[j].stored ==>
              && ws[k + 1].commits == ws[k].commits && ws[k + 1].stored == ws[k].stored
              && exists m :: j < m < k && acts[m].client != c && TookEffect(ws, acts, m)
  {
    hide Compute;
    StillPending(cap, ws, acts, c, op, j, k);
    assert Enabled(cap, ws[k], acts[k]) && ws[k + 1] == Next(cap, ws[k], acts[k]);
    if ws[k].stored == ws[j].stored {
      ContentsOfCommit(header, Compute(cap, op, Contents(ws[j].stored)).value);
    } else {
      assert ws[j + 1] == Next(cap, ws[j], acts[j]);
      ChangedByCommit(cap, ws, acts, j + 1, k);
    }
  }

  /** Alone between its read and its commit, a client always gets its operation in. */
  lemma UndisturbedCommits(cap: nat, ws: seq<World>, acts: seq<Action>, c: nat, op: Op, j: nat, k: nat, header: Header)
    requires Run(cap, ws, acts) && Turn(acts, c, op, j, k, header)
    requires forall m :: j < m < k ==> !acts[m].Commit?
    ensures ws[k + 1].commits == ws[k].commits + [op] && Compute(cap, op, Contents(ws[j].stored)).Some?
    ensures Contents(ws[k + 1].stored) == Compute(cap, op, Contents(ws[j].stored)).value
  {
    hide Run, Compute, Contents;
    TurnCommits(cap, ws, acts, c, op, j, k, header);
  }

  /** After its read a client can commit at any time exactly when its operation has something to write. */
  lemma MayCommit(cap: nat, ws: seq<World>, acts: seq<Action>, c: nat, op: Op, j: nat, m: nat, header: Header)
    requires Run(cap, ws, acts) && j < m <= |acts| && acts[j] == Read(c, op)
    requires forall i :: j < i < m ==> acts[i].client != c
    ensures Enabled(cap, ws[m], Commit(c, header)) <==> Compute(cap, op, Contents(ws[j].stored)).Some?
    ensures Enabled(cap, ws[m], Read(c, op))
  {
    hide Run, Compute, Contents;
    StillPending(cap, ws, acts, c, op, j, m);
  }

  /** The commits of a run are never taken back. */
  lemma {:induction false} CommitsOnlyGrow(cap: nat, ws: seq<World>, acts: seq<Action>, j: nat, k: nat)
    requires Run(cap, ws, acts) && j <= k <= |acts|
    ensures ws[j].commits <= ws[k].commits
    decreases k
  {
    if j < k {
      CommitsOnlyGrow(cap, ws, acts, j, k - 1);
      assert ws[k] == Next(cap, ws[k - 1], acts[k - 1]);
    }
  }

  /** The turn of a client in the code: one attempt of the loop of its operation is the commit step. */
  method Attempt(b: Buffer, op: Op, read: seq<Byte>, header: Header, ghost w: World, ghost client: nat)
    requires b.stored == w.stored && client in w.clients && w.clients[client] == Pending(op, read)
    requires Enabled(b.capacity, w, Commit(client, header))
    modifies b
    ensures b.stored == Next(b.capacity, w, Commit(client, header)).stored
  {
    hide Compute, Contents;
    ComputesWhen(b.capacity, op, Contents(read));
    var canceled, threw := false, false;
    match op
    case Write(offset, data) => canceled := b.TryWrite(read, header, data, offset);
    case Fill => threw, canceled := b.TryFill(read, header);
    case Truncate(size) =>
      if size < b.capacity {
        canceled := b.TryTruncate(read, header, size);
      } else {
        FillsUp(b.capacity, size, Contents(read));
        threw, canceled := b.TryFill(read, header);
      }
  }

  /** A truncation at or past the capacity fills the buffer. */
  lemma FillsUp(cap: nat, size: nat, c: seq<Byte>)
    requires size >= cap
    ensures Compute(cap, Truncate(size), c) == Compute(cap, Fill, c)
  {
  }

  /** The write stays inside the buffer. */
  predicate Fits(cap: nat, op: Op) {
    op.Write? && op.offset < cap ==> op.offset + Taken(cap, op.data) <= cap
  }

  lemma OneStepCapacity(cap: nat, op: Op, c: seq<Byte>)
    requires |c| <= cap
    ensures Compute(cap, op, c).Some? ==> (|Compute(cap, op, c).value| <= cap <==> Fits(cap, op))
    ensures Compute(cap, op, c).None? ==> Fits(cap, op)
  {
  }

  lemma {:induction false} FitsUpTo(cap: nat, ops: seq<Op>, c: seq<Byte>, n: nat)
    requires |c| <= cap && n <= |ops| && forall k :: 0 <= k < |ops| ==> Fits(cap, ops[k])
    ensures |Sequential(cap, ops[..n], c)| <= cap
  {
    if n > 0 {
      FitsUpTo(cap, ops, c, n - 1);
      assert ops[..n][..n - 1] == ops[..n - 1];
      OneStepCapacity(cap, ops[n - 1], Sequential(cap, ops[..n - 1], c));
    }
  }

  lemma UnfitOverflows(cap: nat, ops: seq<Op>, c: seq<Byte>, k: nat)
    requires k < |ops| && !Fits(cap, ops[k]) && |Sequential(cap, ops[..k], c)| <= cap
    ensures |Sequential(cap, ops[..k + 1], c)| > cap
  {
    assert ops[..k + 1][..k] == ops[..k];
    OneStepCapacity(cap, ops[k], Sequential(cap, ops[..k], c));
  }

  ghost predicate WithinCapacity(cap: nat, ops: seq<Op>, c: seq<Byte>) {
    forall n :: 0 <= n <= |ops| ==> |Sequential(cap, ops[..n], c)| <= cap
  }

  /** The contents stay within the capacity all along exactly when every committed write fits. */
  lemma CapacityKept(cap: nat, ops: seq<Op>, c: seq<Byte>)
    requires |c| <= cap
    ensures WithinCapacity(cap, ops, c) <==> forall k :: 0 <= k < |ops| ==> Fits(cap, ops[k])
  {
    if forall k :: 0 <= k < |ops| ==> Fits(cap, ops[k]) {
      forall n | 0 <= n <= |ops| ensures |Sequential(cap, ops[..n], c)| <= cap {
        FitsUpTo(cap, ops, c, n);
      }
    }
    forall k | 0 <= k < |ops| && WithinCapacity(cap, ops, c) ensures Fits(cap, ops[k]) {
      if !Fits(cap, ops[k]) {
        UnfitOverflows(cap, ops, c, k);
      }
    }
  }

  /** The length of a write ignores its offset: two bytes at 1 overrun a buffer of two. */
  lemma WriteOverruns()
    ensures var op := Write(1, [7, 7]); !Fits(2, op) && |Compute(2, op, []).value| == 3
  {
  }
}
