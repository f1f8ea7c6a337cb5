/**
 A file with an inline buffer: the first bytes are kept in the buffer, the rest
 in the chunks, and both together are compared with one flat file.
 */
module InlineFile {
  import opened Hex
  import opened ChunkStore
  import opened FileIO
  import Inline = InlineBuffering

  /** The contents of the inline buffer and the inode behind it. */
  datatype Content = Content(inline: seq<Byte>, inode: Inode)

  const NONE: Content := Content([], ABSENT)

  /** An operation on the buffer; one that has nothing to commit leaves it. */
  function Applied(cap: nat, op: Inline.Op, c: seq<Byte>): seq<Byte> {
    var r := Inline.Compute(cap, op, c);
    if r.Some? then r.value else c
  }

  /** realWrite: the buffer takes what it can from the front, the chunks get what is left. */
  ghost function WriteBoth(cap: nat, f: Layout, x: Content, offset: nat, data: seq<Byte>): Content
    requires Shape(f, x.inode) && |data| > 0
  {
    if offset < cap then
      var n := Inline.Taken(cap, data);
      Content(Applied(cap, Inline.Write(offset, data), x.inline),
              if n == |data| then x.inode else Write(f, x.inode, offset + n, data[n..]))
    else if |x.inline| > cap then x
    else Content(Applied(cap, Inline.Fill, x.inline), Write(f, x.inode, offset, data))
  }

  /** truncate, and remove, which also empties the buffer. */
  ghost function StepBoth(cap: nat, f: Layout, poolSize: nat, x: Content, op: Op): Content
    requires Shape(f, x.inode)
  {
    if !Accepted(poolSize, op) then x else
      match op
      case WriteOp(offset, data) => WriteBoth(cap, f, x, offset, data)
      case TruncateOp(size) =>
        if size >= cap && |x.inline| > cap then x
        else Content(Applied(cap, Inline.Truncate(size), x.inline), Truncate(f, x.inode, size))
      case RemoveOp => Content([], Remove(f, x.inode))
  }

  /** File::stat: the length of the buffer unless that is full and a size is recorded. */
  function StatSize(cap: nat, x: Content): nat {
    if |x.inline| == cap && x.inode.size != 0 then x.inode.size else |x.inline|
  }

  function ByteOf(cap: nat, f: Layout, x: Content, pos: nat): Byte {
    if pos < cap then ByteIn(x.inline, pos) else ByteAt(f, x.inode, pos)
  }

  // ----- the size -----

  /** The recorded size after an operation: what stays in the buffer is not recorded. */
  function MarkStep(cap: nat, poolSize: nat, mark: nat, op: Op): nat {
    if !Accepted(poolSize, op) then mark else
      match op
      case WriteOp(offset, data) =>
        if offset < cap && |data| <= cap then mark else Max(mark, Recorded(offset + |data|))
      case TruncateOp(size) => Recorded(size)
      case RemoveOp => 0
  }

  /** The recorded sizes with which the size of a file of length n is told right. */
  predicate Marks(cap: nat, n: nat, mark: nat) {
    if n < cap then mark <= n else if n == cap then mark == 0 || mark == cap else mark == n
  }

  // ----- one operation -----

  /** The buffer and the chunks together are the flat file, of the right size, the buffer holding its front. */
  ghost predicate Shows(cap: nat, f: Layout, x: Content, flat: seq<Byte>) {
    && Inv(f, x.inode)
    && |x.inline| == Min(|flat|, cap)
    && Marks(cap, |flat|, x.inode.size)
    && forall pos: nat :: ByteOf(cap, f, x, pos) == ByteIn(flat, pos)
  }

  lemma ShownSize(cap: nat, f: Layout, x: Content, flat: seq<Byte>)
    requires Shows(cap, f, x, flat)
    ensures StatSize(cap, x) == |flat|
  {
  }

  /** statEntry, for many files at once: a full buffer leaves the answer to the recorded size alone. */
  function EntrySize(cap: nat, x: Content): nat {
    if cap > 0 && |x.inline| != cap then |x.inline| else x.inode.size
  }

  /** It tells the size right unless the file just fills its buffer and no size is recorded. */
  lemma EntrySizeRight(cap: nat, f: Layout, x: Content, flat: seq<Byte>)
    requires Shows(cap, f, x, flat)
    ensures EntrySize(cap, x) == |flat| <==> !(0 < |flat| == cap && x.inode.size == 0)
  {
  }

  /** A truncate to n cuts bytes behind the buffer, not all zero, that it should have kept. */
  predicate LosesBehind(cap: nat, f: Layout, flat: seq<Byte>, n: nat) {
    EndsOnChunk(f, n) &&
    exists i :: Max(cap, n - f.chunkSize) <= i < Min(n, |flat|) && flat[i] != 0
  }

  /**
   What keeps the two together. A write that begins in the buffer fits into
   it, or else begins at 0; it does not fill the buffer to the brim while an
   older, smaller size is recorded; a truncate loses nothing behind the buffer;
   and sizes stay below 2^32.
   */
  predicate Good(cap: nat, f: Layout, poolSize: nat, mark: nat, flat: seq<Byte>, op: Op) {
    Accepted(poolSize, op) ==>
      && End(op) < TWO_TO_THE_32
      && match op
         case WriteOp(offset, data) =>
           && (offset < cap ==> offset + Min(|data|, cap) <= cap)
           && (|flat| < cap && offset + |data| == cap ==> mark == 0)
         case TruncateOp(size) => !LosesBehind(cap, f, flat, size)
         case RemoveOp => true
  }

  lemma WrittenSize(f: Layout, st: Inode, offset: nat, data: seq<Byte>)
    requires Shape(f, st) && |data| > 0
    ensures Write(f, st, offset, data).size == Max(st.size, Recorded(offset + |data|))
  {
  }

  lemma MarkIsSize(cap: nat, f: Layout, poolSize: nat, x: Content, op: Op)
    requires Shape(f, x.inode) && |x.inline| <= cap
    ensures StepBoth(cap, f, poolSize, x, op).inode.size == MarkStep(cap, poolSize, x.inode.size, op)
  {
    hide Write, Shape, Applied, Recorded;
    if Accepted(poolSize, op) && op.WriteOp? {
      var n := Inline.Taken(cap, op.data);
      if op.offset >= cap {
        WrittenSize(f, x.inode, op.offset, op.data);
      } else if n < |op.data| {
        WrittenSize(f, x.inode, op.offset + n, op.data[n..]);
      }
    }
  }

  lemma WriteShows(cap: nat, f: Layout, poolSize: nat, x: Content, flat: seq<Byte>, offset: nat, data: seq<Byte>)
    requires Shows(cap, f, x, flat) && |data| > 0 && cap < TWO_TO_THE_32
    requires Accepted(poolSize, WriteOp(offset, data)) && Good(cap, f, poolSize, x.inode.size, flat, WriteOp(offset, data))
    ensures Shows(cap, f, WriteBoth(cap, f, x, offset, data), ObjectWrite(flat, offset, data))
  {
    hide Inv, Write, ObjectWrite, ByteAt, Applied;
    SizeFits(f, x.inode);
    var x', flat' := WriteBoth(cap, f, x, offset, data), ObjectWrite(flat, offset, data);
    var n := if offset < cap then Inline.Taken(cap, data) else 0;
    BufferWritten(cap, x.inline, offset, data);
    if n < |data| {
      WrittenSize(f, x.inode, offset + n, data[n..]);
      WriteKeepsInv(f, x.inode, offset + n, data[n..]);
    }
    forall pos: nat ensures ByteOf(cap, f, x', pos) == ByteIn(flat', pos) {
      WrittenByte(cap, f, x, offset, data, n, pos);
      assert ByteOf(cap, f, x, pos) == ByteIn(flat, pos);
    }
  }

  /** The buffer after a write. */
  lemma BufferWritten(cap: nat, c: seq<Byte>, offset: nat, data: seq<Byte>)
    requires |c| <= cap && |data| > 0
    ensures offset < cap ==> |Applied(cap, Inline.Write(offset, data), c)| == Max(|c|, offset + Min(|data|, cap))
    ensures offset >= cap ==> |Applied(cap, Inline.Fill, c)| == cap
  {
  }

  lemma WrittenByte(cap: nat, f: Layout, x: Content, offset: nat, data: seq<Byte>, n: nat, pos: nat)
    requires Shape(f, x.inode) && |x.inline| <= cap && |data| > 0
    requires n == if offset < cap then Min(|data|, cap) else 0
    requires offset < cap ==> offset + n <= cap
    ensures ByteOf(cap, f, WriteBoth(cap, f, x, offset, data), pos) ==
            if offset <= pos < offset + |data| then data[pos - offset] else ByteOf(cap, f, x, pos)
  {
    hide WriteBoth, ByteAt, Shape, ByteIn;
    if pos < cap {
      FrontByte(cap, f, x, offset, data, n, pos);
    } else {
      BackByte(cap, f, x, offset, data, n, pos);
    }
  }

  lemma FrontByte(cap: nat, f: Layout, x: Content, offset: nat, data: seq<Byte>, n: nat, pos: nat)
    requires Shape(f, x.inode) && |x.inline| <= cap && |data| > 0 && pos < cap
    requires n == if offset < cap then Min(|data|, cap) else 0
    requires offset < cap ==> offset + n <= cap
    ensures ByteIn(WriteBoth(cap, f, x, offset, data).inline, pos) ==
            if offset <= pos < offset + |data| then data[pos - offset] else ByteIn(x.inline, pos)
  {
    hide Write, Shape, ByteIn;
    var op := if offset < cap then Inline.Write(offset, data) else Inline.Fill;
    Inline.ComputeBytes(cap, op, x.inline, pos);
    hide Inline.Compute;
  }

  lemma BackByte(cap: nat, f: Layout, x: Content, offset: nat, data: seq<Byte>, n: nat, pos: nat)
    requires Shape(f, x.inode) && |x.inline| <= cap && |data| > 0 && pos >= cap
    requires n == if offset < cap then Min(|data|, cap) else 0
    requires offset < cap ==> offset + n <= cap
    ensures ByteAt(f, WriteBoth(cap, f, x, offset, data).inode, pos) ==
            if offset <= pos < offset + |data| then data[pos - offset] else ByteAt(f, x.inode, pos)
  {
    hide Write, ByteAt, Shape, Applied;
    if n < |data| {
      WriteBytes(f, x.inode, offset + n, data[n..], pos);
      DataAfter(data, n);
    }
  }

  lemma DataAfter(data: seq<Byte>, n: nat)
    requires n < |data|
    ensures data[n..] != [] && forall k :: 0 <= k < |data| - n ==> data[n..][k] == data[n + k]
    ensures data[0..] == data
  {
  }

  lemma WriteSpoils(cap: nat, f: Layout, poolSize: nat, x: Content, flat: seq<Byte>, offset: nat, data: seq<Byte>)
    requires Shows(cap, f, x, flat) && |data| > 0 && cap < TWO_TO_THE_32
    requires Accepted(poolSize, WriteOp(offset, data)) && !Good(cap, f, poolSize, x.inode.size, flat, WriteOp(offset, data))
    ensures !Shows(cap, f, WriteBoth(cap, f, x, offset, data), ObjectWrite(flat, offset, data))
  {
    hide Inv, Write, ObjectWrite, ByteAt, Applied, ByteOf, ByteIn;
    SizeFits(f, x.inode);
    BufferWritten(cap, x.inline, offset, data);
    var n := if offset < cap then Inline.Taken(cap, data) else 0;
    if n < |data| {
      WrittenSize(f, x.inode, offset + n, data[n..]);
    }
  }

  lemma TruncatedInline(cap: nat, c: seq<Byte>, n: nat, pos: nat)
    requires |c| <= cap
    ensures var c' := Applied(cap, Inline.Truncate(n), c);
            |c'| == Min(n, cap) && ByteIn(c', pos) == if pos < n then ByteIn(c, pos) else 0
  {
    if Inline.Compute(cap, Inline.Truncate(n), c).Some? {
      Inline.ComputeBytes(cap, Inline.Truncate(n), c, pos);
    }
  }

  lemma TruncateShows(cap: nat, f: Layout, x: Content, flat: seq<Byte>, n: nat)
    requires Shows(cap, f, x, flat) && cap < TWO_TO_THE_32
    ensures var x' := Content(Applied(cap, Inline.Truncate(n), x.inline), Truncate(f, x.inode, n));
            Shows(cap, f, x', ObjectTruncate(flat, n)) <==> n < TWO_TO_THE_32 && !LosesBehind(cap, f, flat, n)
  {
    hide Inv, Truncate, ObjectTruncate, ByteAt, Applied, Survives, LosesBehind;
    SizeFits(f, x.inode);
    TruncatedSize(f, x.inode, n);
    TruncatedInline(cap, x.inline, n, 0);
    var x', flat' := Content(Applied(cap, Inline.Truncate(n), x.inline), Truncate(f, x.inode, n)), ObjectTruncate(flat, n);
    if n < TWO_TO_THE_32 {
      TruncateKeepsInv(f, x.inode, n);
      forall pos: nat
        ensures ByteOf(cap, f, x', pos) == if pos >= cap && !Survives(f, n, pos) then 0 else ByteIn(flat', pos)
      {
        TruncatedOf(cap, f, x, flat, n, pos);
      }
      LosesExactlyBehind(cap, f, flat, n, x');
    }
  }

  lemma TruncatedOf(cap: nat, f: Layout, x: Content, flat: seq<Byte>, n: nat, pos: nat)
    requires Shows(cap, f, x, flat)
    ensures var x' := Content(Applied(cap, Inline.Truncate(n), x.inline), Truncate(f, x.inode, n));
            ByteOf(cap, f, x', pos) ==
            if pos >= cap && !Survives(f, n, pos) then 0 else ByteIn(ObjectTruncate(flat, n), pos)
  {
    hide Inv, Truncate, ObjectTruncate, ByteAt, Applied, ByteIn;
    SizeFits(f, x.inode);
    assert ByteOf(cap, f, x, pos) == ByteIn(flat, pos);
    if pos < cap {
      TruncatedInline(cap, x.inline, n, pos);
    } else {
      TruncateBytes(f, x.inode, n, pos);
    }
  }

  lemma LosesExactlyBehind(cap: nat, f: Layout, flat: seq<Byte>, n: nat, x': Content)
    requires forall pos: nat ::
               ByteOf(cap, f, x', pos) ==
               if pos >= cap && !Survives(f, n, pos) then 0 else ByteIn(ObjectTruncate(flat, n), pos)
    ensures (forall pos: nat :: ByteOf(cap, f, x', pos) == ByteIn(ObjectTruncate(flat, n), pos)) <==>
            !LosesBehind(cap, f, flat, n)
  {
    hide ByteOf, ObjectTruncate;
    var flat' := ObjectTruncate(flat, n);
    if LosesBehind(cap, f, flat, n) {
      var i :| Max(cap, n - f.chunkSize) <= i < Min(n, |flat|) && flat[i] != 0;
      assert ByteOf(cap, f, x', i) == 0 != ByteIn(flat', i);
    } else {
      forall pos: nat ensures ByteOf(cap, f, x', pos) == ByteIn(flat', pos) {
        if pos >= cap && !Survives(f, n, pos) && pos < n && pos < |flat| {
          assert flat[pos] == 0;
        }
      }
    }
  }

  lemma RemovedShows(cap: nat, f: Layout, x: Content, flat: seq<Byte>)
    requires Shows(cap, f, x, flat)
    ensures Shows(cap, f, Content([], Remove(f, x.inode)), [])
  {
    hide Inv, Remove;
    RemoveDeletesEverything(f, x.inode);
    NothingShown(cap, f);
  }

  lemma NothingShown(cap: nat, f: Layout)
    ensures Shows(cap, f, NONE, [])
  {
    AbsentIsZero(f);
  }

  /** One operation keeps buffer and chunks together the flat file exactly when it is good. */
  lemma StepShows(cap: nat, f: Layout, poolSize: nat, x: Content, flat: seq<Byte>, op: Op)
    requires Shows(cap, f, x, flat) && cap < TWO_TO_THE_32
    ensures Shape(f, x.inode)
    ensures Shows(cap, f, StepBoth(cap, f, poolSize, x, op), FlatStep(poolSize, flat, op)) <==>
            Good(cap, f, poolSize, x.inode.size, flat, op)
  {
    hide Shows, WriteBoth, Inv, Truncate, ObjectTruncate, ObjectWrite, LosesBehind, Applied;
    ShownParts(cap, f, x, flat);
    if Accepted(poolSize, op) {
      match op
      case WriteOp(offset, data) =>
        if Good(cap, f, poolSize, x.inode.size, flat, op) {
          WriteShows(cap, f, poolSize, x, flat, offset, data);
        } else {
          WriteSpoils(cap, f, poolSize, x, flat, offset, data);
        }
      case TruncateOp(size) => TruncateShows(cap, f, x, flat, size);
      case RemoveOp => RemovedShows(cap, f, x, flat);
    }
  }

  lemma ShownParts(cap: nat, f: Layout, x: Content, flat: seq<Byte>)
    requires Shows(cap, f, x, flat)
    ensures Shape(f, x.inode) && |x.inline| <= cap
  {
  }

  // ----- whole runs -----

  lemma StepBothKeepsShape(cap: nat, f: Layout, poolSize: nat, x: Content, op: Op)
    requires Shape(f, x.inode)
    ensures Shape(f, StepBoth(cap, f, poolSize, x, op).inode)
  {
    hide Shape, Write, Truncate, Remove, Applied;
    if Accepted(poolSize, op) {
      match op
      case WriteOp(offset, data) =>
        var n := Inline.Taken(cap, data);
        if offset >= cap {
          WriteKeepsShape(f, x.inode, offset, data);
        } else if n < |data| {
          WriteKeepsShape(f, x.inode, offset + n, data[n..]);
        }
      case TruncateOp(size) => TruncateKeepsShape(f, x.inode, size);
      case RemoveOp => RemoveKeepsShape(f, x.inode);
    }
  }

  ghost function RunBoth(cap: nat, f: Layout, poolSize: nat, ops: seq<Op>): (x: Content)
    ensures Shape(f, x.inode)
  {
    if ops == [] then NONE else
      var x := RunBoth(cap, f, poolSize, ops[..|ops| - 1]);
      StepBothKeepsShape(cap, f, poolSize, x, ops[|ops| - 1]);
      StepBoth(cap, f, poolSize, x, ops[|ops| - 1])
  }

  function Mark(cap: nat, poolSize: nat, ops: seq<Op>): nat {
    if ops == [] then 0 else MarkStep(cap, poolSize, Mark(cap, poolSize, ops[..|ops| - 1]), ops[|ops| - 1])
  }

  ghost predicate ShowsAt(cap: nat, f: Layout, poolSize: nat, ops: seq<Op>, n: nat)
    requires n <= |ops|
  {
    Shows(cap, f, RunBoth(cap, f, poolSize, ops[..n]), FlatRun(poolSize, ops[..n])) &&
    RunBoth(cap, f, poolSize, ops[..n]).inode.size == Mark(cap, poolSize, ops[..n])
  }

  predicate GoodAt(cap: nat, f: Layout, poolSize: nat, ops: seq<Op>, k: nat)
    requires k < |ops|
  {
    Good(cap, f, poolSize, Mark(cap, poolSize, ops[..k]), FlatRun(poolSize, ops[..k]), ops[k])
  }

  lemma OneMoreShows(cap: nat, f: Layout, poolSize: nat, ops: seq<Op>, n: nat)
    requires n < |ops| && ShowsAt(cap, f, poolSize, ops, n) && cap < TWO_TO_THE_32
    ensures ShowsAt(cap, f, poolSize, ops, n + 1) <==> GoodAt(cap, f, poolSize, ops, n)
  {
    hide Shows, StepBoth, FlatStep, Good, MarkStep;
    assert ops[..n + 1][..n] == ops[..n];
    var x, flat := RunBoth(cap, f, poolSize, ops[..n]), FlatRun(poolSize, ops[..n]);
    ShownParts(cap, f, x, flat);
    StepShows(cap, f, poolSize, x, flat, ops[n]);
    MarkIsSize(cap, f, poolSize, x, ops[n]);
  }

  lemma {:induction false} GoodShows(cap: nat, f: Layout, poolSize: nat, ops: seq<Op>, n: nat)
    requires n <= |ops| && cap < TWO_TO_THE_32 && forall k :: 0 <= k < n ==> GoodAt(cap, f, poolSize, ops, k)
    ensures ShowsAt(cap, f, poolSize, ops, n)
  {
    hide Shows, GoodAt, StepBoth, FlatStep, MarkStep;
    NothingShown(cap, f);
    if n > 0 {
      GoodShows(cap, f, poolSize, ops, n - 1);
      OneMoreShows(cap, f, poolSize, ops, n - 1);
    }
  }

  /**
   A file with an inline buffer, under any run of writes, truncates and
   removes, is the flat file all along exactly when every operation is good.
   */
  lemma RunShows(cap: nat, f: Layout, poolSize: nat, ops: seq<Op>)
    requires cap < TWO_TO_THE_32
    ensures (forall n :: 0 <= n <= |ops| ==> ShowsAt(cap, f, poolSize, ops, n)) <==>
            (forall k :: 0 <= k < |ops| ==> GoodAt(cap, f, poolSize, ops, k))
  {
    hide ShowsAt, GoodAt;
    if forall k :: 0 <= k < |ops| ==> GoodAt(cap, f, poolSize, ops, k) {
      forall n | 0 <= n <= |ops| ensures ShowsAt(cap, f, poolSize, ops, n) {
        GoodShows(cap, f, poolSize, ops, n);
      }
    }
    if forall n :: 0 <= n <= |ops| ==> ShowsAt(cap, f, poolSize, ops, n) {
      forall k | 0 <= k < |ops| ensures GoodAt(cap, f, poolSize, ops, k) {
        OneMoreShows(cap, f, poolSize, ops, k);
      }
    }
  }

  /** A truncate into the buffer and a write that fills it again: eight bytes are there and two are reported. */
  lemma OldSizeIsReported(f: Layout)
    ensures var ops := [TruncateOp(2), WriteOp(0, Zeros(8))];
            var x := RunBoth(8, f, 8, ops);
            |x.inline| == 8 == |FlatRun(8, ops)| && StatSize(8, x) == 2
  {
    hide Truncate;
    var ops := [TruncateOp(2), WriteOp(0, Zeros(8))];
    assert ops[..1] == [TruncateOp(2)] && [TruncateOp(2)][..0] == [];
    TruncatedSize(f, ABSENT, 2);
    TruncatedInline(8, [], 2, 0);
    var x := RunBoth(8, f, 8, ops[..1]);
    assert RunBoth(8, f, 8, []) == NONE;
    assert x == StepBoth(8, f, 8, NONE, TruncateOp(2));
    assert FlatRun(8, ops[..1]) == ObjectTruncate([], 2);
    BufferWritten(8, x.inline, 0, Zeros(8));
  }

  /** A file of eight bytes in a buffer of eight is eight bytes long to stat, and empty to the stat of many files. */
  lemma FullBufferLooksEmpty(f: Layout)
    ensures var x := RunBoth(8, f, 8, [WriteOp(0, Zeros(8))]);
            Shows(8, f, x, Zeros(8)) && StatSize(8, x) == 8 && EntrySize(8, x) == 0
  {
    hide Shows;
    var op := WriteOp(0, Zeros(8));
    assert [op][..0] == [] && [op][..1] == [op];
    assert FlatRun(8, []) == [];
    assert FlatRun(8, [op]) == ObjectWrite([], 0, Zeros(8)) == Zeros(8);
    GoodShows(8, f, 8, [op], 1);
    BufferWritten(8, [], 0, op.data);
    assert RunBoth(8, f, 8, [op]) == StepBoth(8, f, 8, NONE, op);
  }

  // ----- reading the buffer -----

  /**
   onReadInlineBufferCompleted: contents that are not empty are copied for the
   whole length asked for, however long they are; otherwise zeros are set
   below the recorded size.
   */
  function InlineCount(x: Content, offset: nat, length: nat): nat {
    if x.inline != [] then length else Max(0, Min(length, x.inode.size - offset))
  }

  /** The copy stays inside the contents. */
  predicate CopiesInside(x: Content, offset: nat, length: nat) {
    x.inline == [] || offset + length <= |x.inline|
  }

  /**
   The inline part of a read counts the bytes of the file that it covers,
   and copies nothing from behind the contents, exactly when it is empty, lies
   inside the file, or the file is empty.
   */
  lemma InlineReadRight(cap: nat, f: Layout, x: Content, flat: seq<Byte>, offset: nat, length: nat)
    requires Shows(cap, f, x, flat) && offset + length <= cap && length > 0
    ensures CopiesInside(x, offset, length) <==> flat == [] || offset + length <= |flat|
    ensures InlineCount(x, offset, length) == Max(0, Min(offset + length, |flat|) - offset) <==>
            CopiesInside(x, offset, length)
    ensures CopiesInside(x, offset, length) && flat != [] ==>
              x.inline[offset..offset + length] == flat[offset..offset + length]
  {
    hide Inv, ByteAt;
    if CopiesInside(x, offset, length) && flat != [] {
      var copied, meant := x.inline[offset..offset + length], flat[offset..offset + length];
      forall k | 0 <= k < length ensures copied[k] == meant[k] {
        assert ByteOf(cap, f, x, offset + k) == ByteIn(flat, offset + k);
      }
    }
  }

  /** Three bytes in a buffer of eight: a read of eight returns eight. */
  lemma ShortBufferOverread(f: Layout)
    ensures var x := RunBoth(8, f, 8, [WriteOp(0, [7, 7, 7])]);
            |x.inline| == 3 && InlineCount(x, 0, 8) == 8 && !CopiesInside(x, 0, 8)
  {
    var op := WriteOp(0, [7, 7, 7]);
    assert [op][..0] == [];
    BufferWritten(8, [], 0, op.data);
    assert RunBoth(8, f, 8, [op]) == StepBoth(8, f, 8, NONE, op);
  }
}
