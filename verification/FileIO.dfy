/**
 The striped store against one flat byte sequence: per operation, over whole
 runs, and for the class whose methods carry out the chunk loops.
 */
module FileIO {
  import opened Errno
  import opened Hex
  import opened ChunkStore

  // ----- one operation against the flat file -----

  /** No chunk object holds data for a position at or past the recorded size. */
  lemma NothingPastSize(f: Layout, st: Inode, pos: nat)
    requires Inv(f, st) && pos >= st.size
    ensures ByteAt(f, st, pos) == 0
  {
    var c, k := pos / f.chunkSize, pos % f.chunkSize;
    PositionSplit(pos, f.chunkSize);
    if c in st.chunks {
      assert WithinSize(f, st.size, c, st.chunks[c]);
    }
  }

  /**
   A write over the chunks is a write to the flat file, gaps zero-filled,
   exactly when it ends below 2^32, where sizes are recorded in full.
   */
  lemma WriteRefines(f: Layout, st: Inode, offset: nat, data: seq<Byte>)
    requires Inv(f, st) && |data| > 0
    ensures Flat(f, Write(f, st, offset, data)) == ObjectWrite(Flat(f, st), offset, data) <==>
            offset + |data| < TWO_TO_THE_32
  {
    hide Inv, ByteAt, ObjectWrite, Write;
    SizeFits(f, st);
    WrittenValue(f, st, offset, data);
    var flat' := Flat(f, Write(f, st, offset, data));
    var want := ObjectWrite(Flat(f, st), offset, data);
    if offset + |data| < TWO_TO_THE_32 {
      forall i | 0 <= i < |flat'| ensures flat'[i] == want[i] {
        WrittenAt(f, st, offset, data, i);
      }
    } else {
      assert |flat'| < |want|;
    }
  }

  lemma WrittenAt(f: Layout, st: Inode, offset: nat, data: seq<Byte>, i: nat)
    requires Inv(f, st) && |data| > 0 && i < Max(st.size, offset + |data|)
    ensures ByteAt(f, Write(f, st, offset, data), i) == ObjectWrite(Flat(f, st), offset, data)[i]
  {
    hide Inv, ByteAt, ObjectWrite, Write;
    SizeFits(f, st);
    var want := ObjectWrite(Flat(f, st), offset, data);
    WriteBytes(f, st, offset, data, i);
    if i >= st.size {
      NothingPastSize(f, st, i);
    }
    assert want[i] == ByteIn(want, i);
  }

  lemma SizeFits(f: Layout, st: Inode)
    requires Inv(f, st)
    ensures st.size < TWO_TO_THE_32 && Shape(f, st)
  {
  }

  /** A truncate of the file to n cuts bytes, not all zero, that it should have kept. */
  predicate LosesData(f: Layout, flat: seq<Byte>, n: nat) {
    EndsOnChunk(f, n) &&
    exists i :: Max(0, n - f.chunkSize) <= i < Min(n, |flat|) && flat[i] != 0
  }

  /**
   A truncate cuts or zero-extends the flat file, unless the new size ends
   exactly on a chunk whose stored bytes are not all zero, or is not below 2^32.
   */
  lemma TruncateRefines(f: Layout, st: Inode, n: nat)
    requires Inv(f, st)
    ensures Flat(f, Truncate(f, st, n)) == ObjectTruncate(Flat(f, st), n) <==>
            n < TWO_TO_THE_32 && !LosesData(f, Flat(f, st), n)
  {
    hide Inv, ByteAt, ObjectTruncate, Truncate, Survives, LosesData;
    SizeFits(f, st);
    TruncatedSize(f, st, n);
    var flat, flat' := Flat(f, st), Flat(f, Truncate(f, st, n));
    var want := ObjectTruncate(flat, n);
    if n < TWO_TO_THE_32 {
      forall i | 0 <= i < n ensures flat'[i] == if Survives(f, n, i) then want[i] else 0 {
        TruncatedAt(f, st, n, i);
      }
      LosesExactly(f, flat, n, flat', want);
    } else {
      assert |flat'| < |want|;
    }
  }

  lemma TruncatedSize(f: Layout, st: Inode, n: nat)
    requires Shape(f, st)
    ensures Truncate(f, st, n).size == Recorded(n)
  {
  }

  lemma TruncatedAt(f: Layout, st: Inode, n: nat, i: nat)
    requires Inv(f, st) && i < n
    ensures ByteAt(f, Truncate(f, st, n), i) == if Survives(f, n, i) then ObjectTruncate(Flat(f, st), n)[i] else 0
  {
    hide Inv, ByteAt, ObjectTruncate, Truncate, Survives;
    var want := ObjectTruncate(Flat(f, st), n);
    TruncateBytes(f, st, n, i);
    if i >= st.size {
      NothingPastSize(f, st, i);
    }
    assert want[i] == ByteIn(want, i);
  }

  lemma LosesExactly(f: Layout, flat: seq<Byte>, n: nat, flat': seq<Byte>, want: seq<Byte>)
    requires want == ObjectTruncate(flat, n) && |flat'| == n
    requires forall i :: 0 <= i < n ==> flat'[i] == if Survives(f, n, i) then want[i] else 0
    ensures flat' == want <==> !LosesData(f, flat, n)
  {
    hide ObjectTruncate;
    forall i | 0 <= i < n ensures want[i] == ByteIn(flat, i) {
      assert want[i] == ByteIn(want, i);
    }
    if LosesData(f, flat, n) {
      var i :| Max(0, n - f.chunkSize) <= i < Min(n, |flat|) && flat[i] != 0;
      assert flat'[i] == 0 != want[i];
    } else {
      forall i | 0 <= i < n ensures flat'[i] == want[i] {
        if !Survives(f, n, i) && i < |flat| {
          assert flat[i] == 0;
        }
      }
    }
  }

  /** Seven bytes in chunks of four, truncated to eight, lose bytes four to six. */
  lemma TruncateLosesAChunk()
    ensures var f := Layout(4, false);
            var st := Inode(map[0 := [1, 2, 3, 4], 1 := [5, 6, 7]], 7);
            Inv(f, st) && LosesData(f, Flat(f, st), 8) &&
            ObjectTruncate(Flat(f, st), 8) == [1, 2, 3, 4, 5, 6, 7, 0] &&
            Flat(f, Truncate(f, st, 8)) == [1, 2, 3, 4, 0, 0, 0, 0]
  {
    var f: Layout := Layout(4, false);
    var st := Inode(map[0 := [1, 2, 3, 4], 1 := [5, 6, 7]], 7);
    assert Flat(f, st) == [1, 2, 3, 4, 5, 6, 7];
    assert Flat(f, st)[4] == 5;
    assert Truncate(f, st, 8).chunks == map[0 := [1, 2, 3, 4], 1 := []];
    assert Flat(f, Truncate(f, st, 8)) == [1, 2, 3, 4, 0, 0, 0, 0];
  }

  // ----- whole runs -----

  datatype Op = WriteOp(offset: nat, data: seq<Byte>) | TruncateOp(size: nat) | RemoveOp

  /** verifyWriteParams and the size test of truncate. */
  predicate Accepted(poolSize: nat, op: Op) {
    match op
    case WriteOp(offset, data) => |data| > 0 && offset + |data| <= poolSize
    case TruncateOp(size) => size <= poolSize
    case RemoveOp => true
  }

  /** The file position at which an operation ends. */
  function End(op: Op): nat {
    match op
    case WriteOp(offset, data) => offset + |data|
    case TruncateOp(size) => size
    case RemoveOp => 0
  }

  /** An operation the code refuses, or one whose size is recorded in full. */
  predicate Fits(poolSize: nat, op: Op) {
    Accepted(poolSize, op) ==> End(op) < TWO_TO_THE_32
  }

  ghost function Step(f: Layout, poolSize: nat, st: Inode, op: Op): Inode
    requires Shape(f, st)
  {
    if !Accepted(poolSize, op) then st else
      match op
      case WriteOp(offset, data) => Write(f, st, offset, data)
      case TruncateOp(size) => Truncate(f, st, size)
      case RemoveOp => Remove(f, st)
  }

  function FlatStep(poolSize: nat, s: seq<Byte>, op: Op): seq<Byte> {
    if !Accepted(poolSize, op) then s else
      match op
      case WriteOp(offset, data) => ObjectWrite(s, offset, data)
      case TruncateOp(size) => ObjectTruncate(s, size)
      case RemoveOp => []
  }

  lemma StepKeepsShape(f: Layout, poolSize: nat, st: Inode, op: Op)
    requires Shape(f, st)
    ensures Shape(f, Step(f, poolSize, st, op))
  {
    hide Shape, Write, Truncate, Remove;
    match op
    case WriteOp(offset, data) => if |data| > 0 { WriteKeepsShape(f, st, offset, data); }
    case TruncateOp(size) => TruncateKeepsShape(f, st, size);
    case RemoveOp => RemoveKeepsShape(f, st);
  }

  lemma StepKeepsInv(f: Layout, poolSize: nat, st: Inode, op: Op)
    requires Inv(f, st) && Fits(poolSize, op)
    ensures Inv(f, Step(f, poolSize, st, op))
    ensures st.size <= poolSize ==> Step(f, poolSize, st, op).size <= poolSize
  {
    hide Truncate, WithinSize, PieceOk;
    if Accepted(poolSize, op) {
      match op
      case WriteOp(offset, data) => WriteKeepsInv(f, st, offset, data);
      case TruncateOp(size) => TruncateKeepsInv(f, st, size);
      case RemoveOp => RemoveDeletesEverything(f, st);
    }
  }

  ghost function Run(f: Layout, poolSize: nat, ops: seq<Op>): (st: Inode)
    ensures Shape(f, st)
  {
    if ops == [] then ABSENT else
      var st := Run(f, poolSize, ops[..|ops| - 1]);
      StepKeepsShape(f, poolSize, st, ops[|ops| - 1]);
      Step(f, poolSize, st, ops[|ops| - 1])
  }

  /** As long as every operation fits, whatever the truncate sizes, the state stays sound. */
  lemma {:induction false} RunStaysSound(f: Layout, poolSize: nat, ops: seq<Op>)
    requires forall k :: 0 <= k < |ops| ==> Fits(poolSize, ops[k])
    ensures Inv(f, Run(f, poolSize, ops))
  {
    hide Step, Fits;
    if ops != [] {
      var front := ops[..|ops| - 1];
      RunStaysSound(f, poolSize, front);
      StepKeepsInv(f, poolSize, Run(f, poolSize, front), ops[|ops| - 1]);
    }
  }

  function FlatRun(poolSize: nat, ops: seq<Op>): seq<Byte> {
    if ops == [] then []
    else FlatStep(poolSize, FlatRun(poolSize, ops[..|ops| - 1]), ops[|ops| - 1])
  }

  /**
   What one more call does to the flat file, case by case: a write of something
   within the pool's size is written, a truncate within it cuts or extends,
   all else but a remove is refused and changes nothing.
   */
  lemma FlatRunGoesOn(poolSize: nat, ops: seq<Op>, offset: nat, data: seq<Byte>, size: nat)
    ensures FlatRun(poolSize, ops + [WriteOp(offset, data)]) ==
            if 0 < |data| && offset + |data| <= poolSize
            then ObjectWrite(FlatRun(poolSize, ops), offset, data) else FlatRun(poolSize, ops)
    ensures FlatRun(poolSize, ops + [TruncateOp(size)]) ==
            if size <= poolSize then ObjectTruncate(FlatRun(poolSize, ops), size) else FlatRun(poolSize, ops)
    ensures FlatRun(poolSize, ops + [RemoveOp]) == []
  {
    hide ObjectWrite, ObjectTruncate;
    assert (ops + [WriteOp(offset, data)])[..|ops|] == ops;
    assert (ops + [TruncateOp(size)])[..|ops|] == ops;
    assert (ops + [RemoveOp])[..|ops|] == ops;
  }

  /**
   After any run that fits, a write within the pool's size and below 2^32 puts
   its data at its offset of what was there, as the chunks read.
   */
  lemma WriteAfterAnyRun(f: Layout, poolSize: nat, ops: seq<Op>, offset: nat, data: seq<Byte>)
    requires forall k :: 0 <= k < |ops| ==> Fits(poolSize, ops[k])
    requires 0 < |data| && offset + |data| <= poolSize && offset + |data| < TWO_TO_THE_32
    ensures Flat(f, Run(f, poolSize, ops + [WriteOp(offset, data)])) ==
            ObjectWrite(Flat(f, Run(f, poolSize, ops)), offset, data)
  {
    hide Flat, Write, ObjectWrite, Inv, Fits;
    assert (ops + [WriteOp(offset, data)])[..|ops|] == ops;
    RunStaysSound(f, poolSize, ops);
    WriteRefines(f, Run(f, poolSize, ops), offset, data);
  }

  /** An operation that fits and is not a truncate that loses data. */
  predicate Harmless(f: Layout, poolSize: nat, flat: seq<Byte>, op: Op) {
    Accepted(poolSize, op) ==> End(op) < TWO_TO_THE_32 && (op.TruncateOp? ==> !LosesData(f, flat, op.size))
  }

  lemma StepRefines(f: Layout, poolSize: nat, st: Inode, op: Op)
    requires Inv(f, st)
    ensures Flat(f, Step(f, poolSize, st, op)) == FlatStep(poolSize, Flat(f, st), op) <==>
            Harmless(f, poolSize, Flat(f, st), op)
  {
    hide Inv, ByteAt, Flat, Write, Truncate, ObjectWrite, ObjectTruncate, LosesData;
    SizeFits(f, st);
    if Accepted(poolSize, op) {
      match op
      case WriteOp(offset, data) => WriteRefines(f, st, offset, data);
      case TruncateOp(size) => TruncateRefines(f, st, size);
      case RemoveOp =>
        RemoveDeletesEverything(f, st);
        AbsentIsEmpty(f);
    }
  }

  lemma AbsentIsEmpty(f: Layout)
    ensures Flat(f, ABSENT) == [] && Shape(f, ABSENT) && Inv(f, ABSENT)
  {
  }

  ghost predicate Refines(f: Layout, poolSize: nat, ops: seq<Op>, n: nat)
    requires n <= |ops|
  {
    Flat(f, Run(f, poolSize, ops[..n])) == FlatRun(poolSize, ops[..n])
  }

  ghost predicate HarmlessAt(f: Layout, poolSize: nat, ops: seq<Op>, k: nat)
    requires k < |ops|
  {
    Harmless(f, poolSize, FlatRun(poolSize, ops[..k]), ops[k])
  }

  lemma OneMoreRefines(f: Layout, poolSize: nat, ops: seq<Op>, n: nat)
    requires n < |ops| && Refines(f, poolSize, ops, n) && Inv(f, Run(f, poolSize, ops[..n]))
    ensures Refines(f, poolSize, ops, n + 1) <==> HarmlessAt(f, poolSize, ops, n)
    ensures HarmlessAt(f, poolSize, ops, n) ==> Inv(f, Run(f, poolSize, ops[..n + 1]))
  {
    hide Flat, Step, FlatStep, LosesData, Inv;
    assert ops[..n + 1][..n] == ops[..n];
    StepRefines(f, poolSize, Run(f, poolSize, ops[..n]), ops[n]);
    if HarmlessAt(f, poolSize, ops, n) {
      StepKeepsInv(f, poolSize, Run(f, poolSize, ops[..n]), ops[n]);
    }
  }

  lemma {:induction false} HarmlessRefines(f: Layout, poolSize: nat, ops: seq<Op>, n: nat)
    requires n <= |ops| && forall k :: 0 <= k < n ==> HarmlessAt(f, poolSize, ops, k)
    ensures Refines(f, poolSize, ops, n) && Inv(f, Run(f, poolSize, ops[..n]))
  {
    hide HarmlessAt, Inv, Step, Flat;
    AbsentIsEmpty(f);
    if n > 0 {
      HarmlessRefines(f, poolSize, ops, n - 1);
      OneMoreRefines(f, poolSize, ops, n - 1);
    }
  }

  lemma {:induction false} RefinesHarmless(f: Layout, poolSize: nat, ops: seq<Op>, n: nat)
    requires n <= |ops| && forall k :: 0 <= k <= n ==> Refines(f, poolSize, ops, k)
    ensures forall k :: 0 <= k < n ==> HarmlessAt(f, poolSize, ops, k)
  {
    hide HarmlessAt, Refines;
    if n > 0 {
      RefinesHarmless(f, poolSize, ops, n - 1);
      HarmlessRefines(f, poolSize, ops, n - 1);
      OneMoreRefines(f, poolSize, ops, n - 1);
    }
  }

  /**
   A run of writes, truncates and removes on the chunks reads all along as the
   same run on one flat file, in aligned and unaligned pools alike, exactly
   when every operation it accepts ends below 2^32 and no truncate loses data.
   */
  lemma RunRefines(f: Layout, poolSize: nat, ops: seq<Op>)
    ensures (forall n :: 0 <= n <= |ops| ==> Refines(f, poolSize, ops, n)) <==>
            (forall k :: 0 <= k < |ops| ==> HarmlessAt(f, poolSize, ops, k))
  {
    hide Refines, HarmlessAt;
    forall n | 0 <= n <= |ops| && forall k :: 0 <= k < |ops| ==> HarmlessAt(f, poolSize, ops, k)
      ensures Refines(f, poolSize, ops, n)
    {
      HarmlessRefines(f, poolSize, ops, n);
    }
    if forall n :: 0 <= n <= |ops| ==> Refines(f, poolSize, ops, n) {
      RefinesHarmless(f, poolSize, ops, |ops|);
    }
  }

  /**
   Below 2^32 and with no truncate to a positive multiple of the chunk size,
   the run reads as the flat one.
   */
  lemma RunReadsFlat(f: Layout, poolSize: nat, ops: seq<Op>)
    requires forall k :: 0 <= k < |ops| ==> Fits(poolSize, ops[k])
    requires forall op :: op in ops && op.TruncateOp? ==> !EndsOnChunk(f, op.size)
    ensures Flat(f, Run(f, poolSize, ops)) == FlatRun(poolSize, ops)
  {
    HarmlessRefines(f, poolSize, ops, |ops|);
    assert ops[..|ops|] == ops;
  }

  /** After any run that fits, whatever the truncate sizes, remove leaves no object. */
  lemma RemoveAfterAnyRun(f: Layout, poolSize: nat, ops: seq<Op>)
    requires forall k :: 0 <= k < |ops| ==> Fits(poolSize, ops[k])
    ensures Run(f, poolSize, ops + [RemoveOp]) == ABSENT
  {
    hide Remove;
    assert (ops + [RemoveOp])[..|ops|] == ops;
    RunStaysSound(f, poolSize, ops);
    RemoveDeletesEverything(f, Run(f, poolSize, ops));
  }

  /**
   One byte written at 2^32 is recorded as a file of one byte: the byte cannot
   be read, and a remove leaves its chunk behind.
   */
  lemma LargeFileIsCut(f: Layout)
    requires !f.aligned && f.chunkSize <= TWO_TO_THE_32
    ensures var op, c := WriteOp(TWO_TO_THE_32, [1]), TWO_TO_THE_32 / f.chunkSize;
            var st := Run(f, TWO_TO_THE_32 + 1, [op]);
            st.size == 1 && c in st.chunks && c in Run(f, TWO_TO_THE_32 + 1, [op, RemoveOp]).chunks
  {
    hide Put, PutPart;
    var op, c, poolSize := WriteOp(TWO_TO_THE_32, [1]), TWO_TO_THE_32 / f.chunkSize, TWO_TO_THE_32 + 1;
    assert [op][..0] == [] && [op, RemoveOp][..1] == [op];
    assert Run(f, poolSize, []) == ABSENT;
    var st := Write(f, ABSENT, TWO_TO_THE_32, [1]);
    assert Run(f, poolSize, [op]) == st;
    assert Touched(f, TWO_TO_THE_32, 1, c);
    InChunk(TWO_TO_THE_32, 1, f.chunkSize);
    assert c > 0 == LastChunk(f, 1);
    assert Run(f, poolSize, [op, RemoveOp]) == Remove(f, st);
  }

  // ----- the two write forms against each other -----

  ghost predicate SameFile(f: Layout, st: Inode, f': Layout, st': Inode) {
    st.size == st'.size && forall pos: nat :: ByteAt(f, st, pos) == ByteAt(f', st', pos)
  }

  lemma StepAgrees(f: Layout, st: Inode, f': Layout, st': Inode, poolSize: nat, op: Op)
    requires f.chunkSize == f'.chunkSize && Shape(f, st) && Shape(f', st') && SameFile(f, st, f', st')
    ensures SameFile(f, Step(f, poolSize, st, op), f', Step(f', poolSize, st', op))
  {
    hide Shape, ByteAt;
    if Accepted(poolSize, op) {
      match op
      case WriteOp(offset, data) =>
        forall pos: nat
          ensures ByteAt(f, Write(f, st, offset, data), pos) == ByteAt(f', Write(f', st', offset, data), pos)
        {
          WriteBytes(f, st, offset, data, pos);
          WriteBytes(f', st', offset, data, pos);
        }
      case TruncateOp(size) =>
        forall pos: nat
          ensures ByteAt(f, Truncate(f, st, size), pos) == ByteAt(f', Truncate(f', st', size), pos)
        {
          TruncatedSame(f, st, f', st', size, pos);
        }
      case RemoveOp =>
        forall pos: nat ensures ByteAt(f, Remove(f, st), pos) == ByteAt(f', Remove(f', st'), pos) {
          RemovedByte(f, st, pos);
          RemovedByte(f', st', pos);
        }
    }
  }

  lemma TruncatedSame(f: Layout, st: Inode, f': Layout, st': Inode, n: nat, pos: nat)
    requires f.chunkSize == f'.chunkSize && Shape(f, st) && Shape(f', st')
    requires st.size == st'.size && ByteAt(f, st, pos) == ByteAt(f', st', pos)
    ensures ByteAt(f, Truncate(f, st, n), pos) == ByteAt(f', Truncate(f', st', n), pos)
  {
    hide Shape, Truncate, Chunk, ByteIn;
    PositionSplit(pos, f.chunkSize);
    TruncatedByte(f, st, n, pos / f.chunkSize, pos % f.chunkSize);
    TruncatedByte(f', st', n, pos / f.chunkSize, pos % f.chunkSize);
  }

  lemma RemovedByte(f: Layout, st: Inode, pos: nat)
    ensures ByteAt(f, Remove(f, st), pos) == if pos / f.chunkSize <= LastChunk(f, st.size) then 0 else ByteAt(f, st, pos)
  {
    hide LastChunk;
    PositionSplit(pos, f.chunkSize);
  }

  lemma AbsentIsZero(f: Layout)
    ensures forall pos: nat :: ByteAt(f, ABSENT, pos) == 0
  {
  }

  /** The chunk numbers of an accepted operation are below 2^32, so their objects have names of their own. */
  predicate Nameable(f: Layout, poolSize: nat, op: Op) {
    Accepted(poolSize, op) ==> LastChunk(f, End(op)) < TWO_TO_THE_32
  }

  /**
   Rewriting whole chunks leaves the same file as writing in place, for every
   run and every truncate size; its chunks are one chunk long and, while the
   operations end below 2^32, zero past the size.
   */
  lemma {:induction false} AlignedAgreesWithInPlace(cs: nat, poolSize: nat, ops: seq<Op>)
    requires cs > 0 && forall k :: 0 <= k < |ops| ==> Nameable(Layout(cs, true), poolSize, ops[k])
    ensures var aligned, inPlace := Run(Layout(cs, true), poolSize, ops), Run(Layout(cs, false), poolSize, ops);
            SameFile(Layout(cs, true), aligned, Layout(cs, false), inPlace) &&
            (forall c :: c in aligned.chunks && (c > 0 || aligned.chunks[c] != []) ==> |aligned.chunks[c]| == cs) &&
            ((forall k :: 0 <= k < |ops| ==> Fits(poolSize, ops[k])) ==>
               forall pos: nat :: pos >= aligned.size ==> ByteAt(Layout(cs, true), aligned, pos) == 0)
  {
    hide ByteAt, Step, Fits, Nameable;
    var f: Layout, f': Layout := Layout(cs, true), Layout(cs, false);
    var aligned, inPlace := Run(f, poolSize, ops), Run(f', poolSize, ops);
    if ops == [] {
      AbsentIsZero(f);
      AbsentIsZero(f');
    } else {
      var front, last := ops[..|ops| - 1], ops[|ops| - 1];
      AlignedAgreesWithInPlace(cs, poolSize, front);
      StepAgrees(f, Run(f, poolSize, front), f', Run(f', poolSize, front), poolSize, last);
    }
    if forall k :: 0 <= k < |ops| ==> Fits(poolSize, ops[k]) {
      RunStaysSound(f, poolSize, ops);
      forall pos: nat | pos >= aligned.size ensures ByteAt(f, aligned, pos) == 0 {
        NothingPastSize(f, aligned, pos);
      }
    }
  }

  // ----- the chunk loops -----

  /** The chunk objects once the write loop has passed every chunk below upTo. */
  ghost predicate WrittenUpTo(f: Layout, st: Inode, offset: nat, data: seq<Byte>, chunks: map<nat, seq<Byte>>, upTo: nat)
    requires |data| > 0 && Shape(f, st)
  {
    var base := TouchBase(st.chunks);
    && chunks.Keys == base.Keys + (set c: nat | c < upTo && Touched(f, offset, |data|, c))
    && forall c :: c in chunks ==>
         chunks[c] == if c < upTo && Touched(f, offset, |data|, c)
                      then WrittenChunk(f, st, offset, data, c) else base[c]
  }

  lemma WrittenNothing(f: Layout, st: Inode, offset: nat, data: seq<Byte>)
    requires |data| > 0 && Shape(f, st)
    ensures WrittenUpTo(f, st, offset, data, TouchBase(st.chunks), FirstChunk(f, offset))
  {
  }

  lemma WrittenEverything(f: Layout, st: Inode, offset: nat, data: seq<Byte>, chunks: map<nat, seq<Byte>>)
    requires |data| > 0 && Shape(f, st)
    requires WrittenUpTo(f, st, offset, data, chunks, LastChunk(f, offset + |data|) + 1)
    ensures chunks == Write(f, st, offset, data).chunks
  {
    hide WrittenChunk, Shape, LastChunk;
    var chunks' := Write(f, st, offset, data).chunks;
    assert chunks.Keys == chunks'.Keys;
  }

  lemma WrittenOneMore(f: Layout, st: Inode, offset: nat, data: seq<Byte>, chunks: map<nat, seq<Byte>>, c: nat)
    requires |data| > 0 && Shape(f, st) && Touched(f, offset, |data|, c)
    requires WrittenUpTo(f, st, offset, data, chunks, c)
    ensures WrittenUpTo(f, st, offset, data, chunks[c := WrittenChunk(f, st, offset, data, c)], c + 1)
  {
    hide WrittenChunk;
    var touched := set d: nat | d < c && Touched(f, offset, |data|, d);
    var touched' := set d: nat | d < c + 1 && Touched(f, offset, |data|, d);
    assert touched' == touched + {c};
  }

  /** What the loop variables select for chunk c is the part that falls into it. */
  lemma LoopPart(f: Layout, offset: nat, len: nat, c: nat, at: nat, left: int)
    requires len > 0 && Touched(f, offset, len, c)
    requires at == if c == FirstChunk(f, offset) then offset % f.chunkSize else 0
    requires left == offset + len - c * f.chunkSize - at
    ensures at == Lo(offset, c * f.chunkSize)
    ensures at + Min(f.chunkSize - at, left) == Hi(f, offset + len, c * f.chunkSize)
    ensures 0 < Min(f.chunkSize - at, left) <= left <= len
    ensures len - left == c * f.chunkSize + at - offset
  {
    TouchedRange(f, offset, len, c);
  }

  lemma WrittenPart(f: Layout, st: Inode, offset: nat, data: seq<Byte>, c: nat, at: nat, left: int)
    requires |data| > 0 && Shape(f, st) && Touched(f, offset, |data|, c)
    requires at == if c == FirstChunk(f, offset) then offset % f.chunkSize else 0
    requires left == offset + |data| - c * f.chunkSize - at
    ensures 0 < Min(f.chunkSize - at, left) <= left <= |data|
    ensures f.aligned ==> Chunk(st, c) == [] || |Chunk(st, c)| == f.chunkSize
    ensures var from, length := |data| - left, Min(f.chunkSize - at, left);
            Put(f, Chunk(st, c), at, data[from..from + length]) == WrittenChunk(f, st, offset, data, c)
  {
    hide Put, Touched, Lo, Hi;
    LoopPart(f, offset, |data|, c, at, left);
    var start := c * f.chunkSize;
    assert |data| - left == start + Lo(offset, start) - offset;
  }

  lemma UnwrittenChunk(f: Layout, st: Inode, offset: nat, data: seq<Byte>, c: nat, chunks: map<nat, seq<Byte>>)
    requires |data| > 0 && Shape(f, st) && WrittenUpTo(f, st, offset, data, chunks, c)
    ensures Chunk(Inode(chunks, 0), c) == Chunk(st, c)
  {
  }

  lemma NextPart(f: Layout, offset: nat, len: nat, c: nat)
    ensures (c + 1) * f.chunkSize == c * f.chunkSize + f.chunkSize
    ensures len > 0 && c < LastChunk(f, offset + len) ==> (c + 1) * f.chunkSize < offset + len
  {
    if len > 0 && c < LastChunk(f, offset + len) {
      InChunk(offset + len - 1, c + 1, f.chunkSize);
    }
  }

  /** The objects left after the trailing chunks have been removed. */
  function Without(chunks: map<nat, seq<Byte>>, newLast: nat, total: int): map<nat, seq<Byte>> {
    map c | c in chunks && !(newLast < c < newLast + total) :: chunks[c]
  }

  /** The step for the new last chunk: only an existing object is truncated in place. */
  ghost function CutLast(f: Layout, chunks: map<nat, seq<Byte>>, newLast: nat, rest: nat): map<nat, seq<Byte>>
    requires rest < f.chunkSize
    requires f.aligned && newLast in chunks ==> chunks[newLast] == [] || |chunks[newLast]| == f.chunkSize
  {
    if f.aligned then
      chunks[newLast := Put(f, Chunk(Inode(chunks, 0), newLast), rest, Zeros(f.chunkSize - rest))]
    else if newLast in chunks then chunks[newLast := ObjectTruncate(chunks[newLast], rest)]
    else chunks
  }

  lemma TruncatedInPlace(f: Layout, st: Inode, n: nat, total: int)
    requires Shape(f, st)
    requires total == if st.size > n then LastChunk(f, st.size) - LastChunk(f, n) + 1 else 1
    ensures total >= 1
    ensures f.aligned && LastChunk(f, n) in TouchBase(st.chunks) ==>
              var o := TouchBase(st.chunks)[LastChunk(f, n)]; o == [] || |o| == f.chunkSize
    ensures CutLast(f, Without(TouchBase(st.chunks), LastChunk(f, n), total), LastChunk(f, n), n % f.chunkSize)
         == Truncate(f, st, n).chunks
  {
    hide Put, ObjectTruncate, LastChunk, PieceOk, CutLast;
    if st.size > n {
      LastChunkMonotone(f, n, st.size);
    }
    LastChunkWhole(f, st, LastChunk(f, n));
    WithoutIsKept(f, st, n, total);
    CutLastIsTruncate(f, st, n);
  }

  lemma CutLastIsTruncate(f: Layout, st: Inode, n: nat)
    requires Shape(f, st)
    requires f.aligned ==> var o := Chunk(Inode(TouchBase(st.chunks), 0), LastChunk(f, n)); o == [] || |o| == f.chunkSize
    ensures CutLast(f, Kept(f, st, n), LastChunk(f, n), n % f.chunkSize) == Truncate(f, st, n).chunks
  {
    hide Put, ObjectTruncate, LastChunk, PieceOk;
  }

  function Kept(f: Layout, st: Inode, n: nat): map<nat, seq<Byte>> {
    var base := TouchBase(st.chunks);
    map c | c in base && !Dropped(f, st.size, n, c) :: base[c]
  }

  lemma WithoutIsKept(f: Layout, st: Inode, n: nat, total: int)
    requires total == if st.size > n then LastChunk(f, st.size) - LastChunk(f, n) + 1 else 1
    ensures Without(TouchBase(st.chunks), LastChunk(f, n), total) == Kept(f, st, n)
  {
    hide LastChunk;
  }

  /** A new inode, where the loop may be left out: the file is empty but for its size either way. */
  lemma TruncatedFresh(f: Layout, n: nat)
    ensures Shape(f, ABSENT) && Shape(f, Inode(map[0 := []], Recorded(n)))
    ensures SameFile(f, Inode(map[0 := []], Recorded(n)), f, Truncate(f, ABSENT, n))
    ensures !f.aligned && LastChunk(f, n) > 0 ==> Truncate(f, ABSENT, n).chunks == map[0 := []]
  {
    forall pos: nat ensures ByteAt(f, Inode(map[0 := []], Recorded(n)), pos) == ByteAt(f, Truncate(f, ABSENT, n), pos) {
      hide Truncate;
      PositionSplit(pos, f.chunkSize);
      TruncatedByte(f, ABSENT, n, pos / f.chunkSize, pos % f.chunkSize);
    }
  }

  lemma LastChunkWhole(f: Layout, st: Inode, c: nat)
    requires Shape(f, st)
    ensures f.aligned ==> var o := Chunk(Inode(TouchBase(st.chunks), 0), c); o == [] || |o| == f.chunkSize
  {
    assert c in st.chunks ==> PieceOk(f, c, st.chunks[c]);
  }

  /** The outcomes of the truncate loop: the specified one, or none on a new inode. */
  ghost predicate LoopOutcome(f: Layout, st: Inode, n: nat, chunks: map<nat, seq<Byte>>, total: int)
    requires f.aligned ==> var o := Chunk(Inode(TouchBase(st.chunks), 0), LastChunk(f, n)); o == [] || |o| == f.chunkSize
  {
    if total < 1 then chunks == TouchBase(st.chunks)
    else chunks == CutLast(f, Without(TouchBase(st.chunks), LastChunk(f, n), total), LastChunk(f, n), n % f.chunkSize)
  }

  lemma Truncated(f: Layout, st: Inode, n: nat, chunks: map<nat, seq<Byte>>, total: int)
    requires Shape(f, st) && (0 in st.chunks || st.chunks == map[])
    requires 0 in st.chunks ==>
               total == if st.size > n then LastChunk(f, st.size) - LastChunk(f, n) + 1 else 1
    requires st.chunks == map[] ==> total == 1 || total == 1 - LastChunk(f, n)
    requires f.aligned ==> var o := Chunk(Inode(TouchBase(st.chunks), 0), LastChunk(f, n)); o == [] || |o| == f.chunkSize
    requires LoopOutcome(f, st, n, chunks, total)
    ensures SameFile(f, Inode(chunks, Recorded(n)), f, Truncate(f, st, n))
    ensures !f.aligned || st.chunks != map[] ==> Inode(chunks, Recorded(n)) == Truncate(f, st, n)
  {
    hide LastChunk, CutLast, Without, ByteAt, Shape, Put, ObjectTruncate;
    SameAsItself(f, Truncate(f, st, n));
    EmptyState(f, st);
    if 0 in st.chunks || total == 1 {
      TruncatedInPlace(f, st, n, total);
      assert Inode(chunks, Recorded(n)) == Truncate(f, st, n);
    } else {
      assert chunks == map[0 := []];
      TruncatedFresh(f, n);
    }
  }

  lemma LoopKeepsShape(f: Layout, st: Inode, n: nat, chunks: map<nat, seq<Byte>>, total: int)
    requires Shape(f, st)
    requires f.aligned ==> var o := Chunk(Inode(TouchBase(st.chunks), 0), LastChunk(f, n)); o == [] || |o| == f.chunkSize
    requires LoopOutcome(f, st, n, chunks, total)
    ensures 0 in chunks && Shape(f, Inode(chunks, Recorded(n)))
  {
    hide Put, ObjectTruncate, LastChunk, PieceOk, LastCut;
    BasePieceOk(f);
    LastCutOk(f, Chunk(Inode(TouchBase(st.chunks), 0), LastChunk(f, n)), n);
    CutLastAt(f, Without(TouchBase(st.chunks), LastChunk(f, n), total), LastChunk(f, n), n % f.chunkSize);
  }

  lemma CutLastAt(f: Layout, chunks: map<nat, seq<Byte>>, newLast: nat, rest: nat)
    requires rest < f.chunkSize
    requires f.aligned ==> Chunk(Inode(chunks, 0), newLast) == [] || |Chunk(Inode(chunks, 0), newLast)| == f.chunkSize
    ensures var r := CutLast(f, chunks, newLast, rest);
            && r.Keys == (if f.aligned then chunks.Keys + {newLast} else chunks.Keys)
            && forall c :: c in r ==>
                 r[c] == if c == newLast then LastCut(f, Chunk(Inode(chunks, 0), newLast), rest) else chunks[c]
  {
    hide Put, ObjectTruncate;
  }

  lemma EmptyState(f: Layout, st: Inode)
    requires Shape(f, st)
    ensures st.chunks == map[] ==> st == ABSENT
    ensures LastChunk(f, 0) == 0
  {
  }

  lemma LosesOnlyChunks(f: Layout, flat: seq<Byte>, n: nat)
    ensures LosesData(f, flat, n) ==> n > 0 && n % f.chunkSize == 0
  {
  }

  lemma SameFlat(f: Layout, st: Inode, st': Inode)
    requires SameFile(f, st, f, st')
    ensures Flat(f, st) == Flat(f, st')
  {
    hide ByteAt;
  }

  lemma SoundHasBase(f: Layout, st: Inode)
    ensures Inv(f, st) ==> 0 in st.chunks || st.chunks == map[]
  {
  }

  lemma SameAsItself(f: Layout, st: Inode)
    ensures SameFile(f, st, f, st)
  {
  }

  // ----- the class -----

  /** An open file: the inode's chunk objects and the size attribute of chunk 0. */
  class File {
    const layout: Layout
    const poolSize: nat
    var chunks: map<nat, seq<Byte>>
    var sizeAttr: string

    ghost function Value(): Inode
      reads this
    {
      Inode(chunks, ReadSize(sizeAttr))
    }

    /** Every chunk object has a name of its own, and the size is an attribute of chunk 0. */
    ghost predicate Valid()
      reads this
    {
      && SizeText(sizeAttr)
      && (sizeAttr == "" <==> 0 !in chunks)
      && (forall c :: c in chunks ==> c < TWO_TO_THE_32)
      && Shape(layout, Value())
    }

    constructor (layout: Layout, poolSize: nat)
      ensures Valid() && Value() == ABSENT
      ensures this.layout == layout && this.poolSize == poolSize
    {
      this.layout, this.poolSize := layout, poolSize;
      chunks, sizeAttr := map[], "";
    }

    /** setAlignedChunkWriteOp or op.write, applied to the chunk object. */
    method WriteChunk(chunk: nat, at: nat, contents: seq<Byte>)
      requires layout.aligned ==> Chunk(Value(), chunk) == [] || |Chunk(Value(), chunk)| == layout.chunkSize
      requires at + |contents| <= layout.chunkSize
      modifies this`chunks
      ensures chunks == old(chunks)[chunk := Put(layout, old(Chunk(Value(), chunk)), at, contents)]
    {
      var o := if chunk in chunks then chunks[chunk] else [];
      if layout.aligned {
        chunks := chunks[chunk := AlignedRewrite(layout.chunkSize, o, at, contents)];
      } else {
        chunks := chunks[chunk := ObjectWrite(o, at, contents)];
      }
    }

    /** The chunk loop of realWrite. */
    method WriteChunks(ghost st: Inode, buff: seq<Byte>, offset: nat)
      requires |buff| > 0 && Shape(layout, st) && chunks == TouchBase(st.chunks)
      modifies this`chunks
      ensures chunks == Write(layout, st, offset, buff).chunks
    {
      hide Shape, Write, Put, WrittenUpTo, WrittenChunk;
      var cs, blen := layout.chunkSize, |buff|;
      var currentOffset, bytesToWrite := offset % cs, blen;
      var firstChunk, lastChunk := offset / cs, (offset + blen - 1) / cs;
      LastNotBeforeFirst(layout, offset, blen);
      PositionSplit(offset, cs);
      var totalChunks := lastChunk - firstChunk + 1;
      WrittenNothing(layout, st, offset, buff);
      var i := 0;
      while i < totalChunks
        invariant 0 <= i <= totalChunks
        invariant WrittenUpTo(layout, st, offset, buff, chunks, firstChunk + i)
        invariant currentOffset == if i == 0 then offset % cs else 0
        invariant i < totalChunks ==> bytesToWrite == offset + blen - (firstChunk + i) * cs - currentOffset
      {
        var c := firstChunk + i;
        var length := Min(cs - currentOffset, bytesToWrite);
        ghost var before := chunks;
        WrittenPart(layout, st, offset, buff, c, currentOffset, bytesToWrite);
        UnwrittenChunk(layout, st, offset, buff, c, before);
        WriteChunk(c, currentOffset, buff[blen - bytesToWrite..blen - bytesToWrite + length]);
        WrittenOneMore(layout, st, offset, buff, before, c);
        currentOffset := 0;
        bytesToWrite := bytesToWrite - length;
        i := i + 1;
        NextPart(layout, offset, blen, c);
      }
      WrittenEverything(layout, st, offset, buff, chunks);
    }

    /**
     writeSync and realWrite for an inode without inline buffer. The chunk
     numbers must be below 2^32, from where on object names are not distinct.
     */
    method WriteSync(buff: seq<Byte>, offset: nat) returns (ret: int)
      requires Valid() && Nameable(layout, poolSize, WriteOp(offset, buff))
      modifies this
      ensures Valid()
      ensures ret == if offset + |buff| > poolSize then EFBIG else if |buff| == 0 then EINVAL else 0
      ensures ret != 0 ==> Value() == old(Value())
      ensures ret == 0 ==> forall pos: nat ::
                ByteAt(layout, Value(), pos) ==
                if offset <= pos < offset + |buff| then buff[pos - offset] else ByteAt(layout, old(Value()), pos)
      ensures ret == 0 && Inv(layout, old(Value())) ==>
                (Flat(layout, Value()) == ObjectWrite(Flat(layout, old(Value())), offset, buff) <==>
                 offset + |buff| < TWO_TO_THE_32)
      ensures Value() == Step(layout, poolSize, old(Value()), WriteOp(offset, buff))
    {
      hide Shape, Write, Parse, SizeText, SetSizeIfBigger, ByteAt, ObjectWrite, Inv, Flat;
      ret := 0;
      if |buff| == 0 { ret := EINVAL; }
      if offset + |buff| > poolSize { ret := EFBIG; }
      if ret != 0 { return; }
      ghost var st := Value();
      WriteKeepsShape(layout, st, offset, buff);
      WriteNames(layout, st, offset, buff);
      GuardedUpdate(sizeAttr, offset + |buff|);
      chunks := TouchBase(chunks);
      sizeAttr := SetSizeIfBigger(sizeAttr, offset + |buff|);
      WriteChunks(st, buff, offset);
      WrittenValue(layout, st, offset, buff);
      assert Value() == Write(layout, st, offset, buff);
      forall pos: nat
        ensures ByteAt(layout, Value(), pos) ==
                if offset <= pos < offset + |buff| then buff[pos - offset] else ByteAt(layout, st, pos)
      {
        WriteBytes(layout, st, offset, buff, pos);
      }
      if Inv(layout, st) {
        WriteRefines(layout, st, offset, buff);
      }
    }

    /** The chunk loop of truncate, from the last chunk down to the new last one. */
    method TruncateChunks(totalChunks: int, newLastChunk: nat, newLastChunkSize: nat)
      requires newLastChunkSize < layout.chunkSize
      requires layout.aligned ==> var o := Chunk(Value(), newLastChunk); o == [] || |o| == layout.chunkSize
      modifies this`chunks
      ensures totalChunks < 1 ==> chunks == old(chunks)
      ensures totalChunks >= 1 ==>
                chunks == CutLast(layout, Without(old(chunks), newLastChunk, totalChunks), newLastChunk, newLastChunkSize)
    {
      hide Put, ObjectTruncate;
      var i := totalChunks - 1;
      ghost var base := chunks;
      while i >= 0
        invariant i < totalChunks && (i >= -1 || i == totalChunks - 1)
        invariant i >= 0 ==> chunks == map c | c in base && !(newLastChunk + i < c < newLastChunk + totalChunks) :: base[c]
        invariant totalChunks >= 1 && i == -1 ==>
                    chunks == CutLast(layout, Without(base, newLastChunk, totalChunks), newLastChunk, newLastChunkSize)
        invariant totalChunks < 1 ==> chunks == base
      {
        if i == 0 {
          assert chunks == Without(base, newLastChunk, totalChunks);
          if layout.aligned {
            WriteChunk(newLastChunk, newLastChunkSize, Zeros(layout.chunkSize - newLastChunkSize));
          } else if newLastChunk in chunks {
            chunks := chunks[newLastChunk := ObjectTruncate(chunks[newLastChunk], newLastChunkSize)];
          }
        } else {
          chunks := chunks - {newLastChunk + i};
        }
        i := i - 1;
      }
    }

    /**
     truncate for an inode without inline buffer. When no size is recorded yet
     the code compares against an uninitialised size; whatever it holds, a new
     file reads back the same (an aligned pool may or may not get a last chunk
     of zeros). Where an incomplete remove has left chunks without their inode
     object, which of them are cut is up to that size too.
     */
    method TruncateTo(newSize: nat) returns (ret: int)
      requires Valid() && Nameable(layout, poolSize, TruncateOp(newSize))
      modifies this
      ensures Valid()
      ensures ret == if newSize > poolSize then EFBIG else 0
      ensures ret == 0 ==> ReadSize(sizeAttr) == Recorded(newSize)
      ensures ret != 0 ==> Value() == old(Value())
      ensures ret == 0 && Inv(layout, old(Value())) ==>
                (Flat(layout, Value()) == ObjectTruncate(Flat(layout, old(Value())), newSize) <==>
                 newSize < TWO_TO_THE_32 && !LosesData(layout, Flat(layout, old(Value())), newSize))
      ensures ret == 0 && Inv(layout, old(Value())) && newSize < TWO_TO_THE_32 &&
              (newSize == 0 || newSize % layout.chunkSize != 0) ==>
                Flat(layout, Value()) == ObjectTruncate(Flat(layout, old(Value())), newSize)
      ensures 0 in old(chunks) || old(chunks) == map[] ==>
                SameFile(layout, Value(), layout, Step(layout, poolSize, old(Value()), TruncateOp(newSize)))
      ensures 0 in old(chunks) || (old(chunks) == map[] && !layout.aligned) ==>
                Value() == Step(layout, poolSize, old(Value()), TruncateOp(newSize))
    {
      hide Shape, Truncate, SameFile, Parse, FileSizeToHex, Chunk, SizeText, LoopOutcome,
           Inv, Flat, ObjectTruncate, LosesData;
      ghost var st := Value();
      SameAsItself(layout, st);
      if newSize > poolSize {
        return EFBIG;
      }
      ret := 0;
      LastChunkWhole(layout, st, LastChunk(layout, newSize));
      var currentSize: nat := *;
      var lastChunk := 0;
      if sizeAttr != "" {
        currentSize := ReadSize(sizeAttr);
        lastChunk := LastChunk(layout, currentSize);
      }
      chunks := TouchBase(chunks);
      var newLastChunk := if newSize == 0 then 0 else (newSize - 1) / layout.chunkSize;
      var truncateDown := currentSize > newSize;
      var totalChunks := if truncateDown then lastChunk - newLastChunk + 1 else 1;
      sizeAttr := FileSizeToHex(newSize);
      SizeTextOf(newSize);
      FileSizeRoundTrip(newSize);
      CutChunks(st, newSize, totalChunks);
      LoopKeepsShape(layout, st, newSize, chunks, totalChunks);
      SoundHasBase(layout, st);
      if 0 in st.chunks || st.chunks == map[] {
        Truncated(layout, st, newSize, chunks, totalChunks);
        if Inv(layout, st) {
          SameFlat(layout, Value(), Truncate(layout, st, newSize));
          TruncateRefines(layout, st, newSize);
          LosesOnlyChunks(layout, Flat(layout, st), newSize);
        }
      }
    }

    /** The loop of truncate as a whole. */
    method CutChunks(ghost st: Inode, newSize: nat, totalChunks: int)
      requires Shape(layout, st) && chunks == TouchBase(st.chunks) && LastChunk(layout, newSize) < TWO_TO_THE_32
      requires layout.aligned ==>
                 var o := Chunk(Inode(TouchBase(st.chunks), 0), LastChunk(layout, newSize)); o == [] || |o| == layout.chunkSize
      requires forall c :: c in st.chunks ==> c < TWO_TO_THE_32
      modifies this`chunks
      ensures LoopOutcome(layout, st, newSize, chunks, totalChunks)
      ensures forall c :: c in chunks ==> c < TWO_TO_THE_32
    {
      hide Put, ObjectTruncate, LastChunk, Shape;
      var newLastChunk := LastChunk(layout, newSize);
      TruncateChunks(totalChunks, newLastChunk, newSize % layout.chunkSize);
    }

    /**
     remove: fails when the inode object does not exist. It removes what the
     recorded size covers, which is everything in a sound state.
     */
    method RemoveAll() returns (ret: int)
      requires Valid()
      modifies this
      ensures Valid()
      ensures ret == if 0 !in old(chunks) then ENOENT else 0
      ensures Value() == Step(layout, poolSize, old(Value()), RemoveOp)
      ensures ret != 0 ==> Value() == old(Value())
      ensures Inv(layout, old(Value())) ==> Value() == ABSENT && Flat(layout, Value()) == []
    {
      hide Shape, Parse, SizeText, LastChunk;
      ghost var st := Value();
      RemoveKeepsShape(layout, st);
      if Inv(layout, st) {
        RemoveDeletesEverything(layout, st);
      }
      NoSize(layout, st);
      if 0 !in chunks {
        assert chunks == Remove(layout, st).chunks;
        return ENOENT;
      }
      ret := 0;
      var lastChunk := LastChunk(layout, ReadSize(sizeAttr));
      var i := 0;
      while i <= lastChunk
        invariant 0 <= i <= lastChunk + 1
        invariant chunks == map c | c in st.chunks && c >= i :: st.chunks[c]
        invariant sizeAttr == old(sizeAttr) || sizeAttr == ""
        invariant i > 0 ==> sizeAttr == ""
      {
        chunks := chunks - {i};
        if i == 0 { sizeAttr := ""; }
        i := i + 1;
      }
      EmptyAttribute();
      assert chunks == Remove(layout, st).chunks;
    }
  }

  lemma WrittenValue(f: Layout, st: Inode, offset: nat, data: seq<Byte>)
    requires |data| > 0 && Shape(f, st)
    ensures Write(f, st, offset, data).size == Max(st.size, Recorded(offset + |data|))
  {
  }

  lemma NoSize(f: Layout, st: Inode)
    requires Shape(f, st)
    ensures 0 !in st.chunks ==> st.size == 0
    ensures LastChunk(f, 0) == 0
  {
  }

  lemma EmptyAttribute()
    ensures SizeText("") && ReadSize("") == 0
  {
  }

  lemma WriteNames(f: Layout, st: Inode, offset: nat, data: seq<Byte>)
    requires |data| > 0 && Shape(f, st) && LastChunk(f, offset + |data|) < TWO_TO_THE_32
    requires forall c :: c in st.chunks ==> c < TWO_TO_THE_32
    ensures forall c :: c in Write(f, st, offset, data).chunks ==> c < TWO_TO_THE_32
  {
    hide WrittenChunk;
  }

  lemma LastNotBeforeFirst(f: Layout, offset: nat, len: nat)
    requires len > 0
    ensures FirstChunk(f, offset) <= LastChunk(f, offset + len)
  {
    InChunk(offset + len - 1, FirstChunk(f, offset), f.chunkSize);
    InChunk(offset, FirstChunk(f, offset), f.chunkSize);
  }

  lemma LastChunkMonotone(f: Layout, n: nat, m: nat)
    requires n <= m
    ensures LastChunk(f, n) <= LastChunk(f, m)
  {
    if n > 0 {
      InChunk(m - 1, LastChunk(f, n), f.chunkSize);
      InChunk(n - 1, LastChunk(f, n), f.chunkSize);
    }
  }
}
