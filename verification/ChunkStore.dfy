/**
 The striped file store: a file is a row of fixed-size chunk objects plus a
 recorded size. Pools without alignment are written in place; pools with
 alignment get every touched chunk rewritten as a whole.
 */
module ChunkStore {
  import opened Hex

  type Byte = b: int | 0 <= b < 256

  function Max(a: int, b: int): int { if a < b then b else a }
  function Min(a: int, b: int): int { if a < b then a else b }

  function Zeros(n: nat): (z: seq<Byte>)
    ensures |z| == n && forall i :: 0 <= i < n ==> z[i] == 0
  {
    seq(n, _ => 0)
  }

  /** Byte k of an object; bytes an object does not hold read as zero. */
  function ByteIn(o: seq<Byte>, k: nat): Byte {
    if k < |o| then o[k] else 0
  }

  // ----- operations on one object -----

  /** std::string::replace(at, |data|, data), as applied to chunk contents. */
  function Replace(s: seq<Byte>, at: nat, data: seq<Byte>): (r: seq<Byte>)
    requires at <= |s|
    ensures |r| == Max(|s|, at + |data|)
    ensures forall k :: 0 <= k < |r| ==> r[k] == if at <= k < at + |data| then data[k - at] else s[k]
  {
    s[..at] + data + if at + |data| < |s| then s[at + |data|..] else []
  }

  /** ObjectWriteOperation::write: a gap before the written range is zero-filled. */
  function ObjectWrite(o: seq<Byte>, at: nat, data: seq<Byte>): (r: seq<Byte>)
    ensures |r| == Max(|o|, at + |data|)
    ensures forall k: nat :: ByteIn(r, k) == if at <= k < at + |data| then data[k - at] else ByteIn(o, k)
  {
    Replace(if |o| < at then o + Zeros(at - |o|) else o, at, data)
  }

  /** ObjectWriteOperation::truncate: cuts, or extends with zeros. */
  function ObjectTruncate(o: seq<Byte>, n: nat): (r: seq<Byte>)
    ensures |r| == n
    ensures forall k: nat :: ByteIn(r, k) == if k < n then ByteIn(o, k) else 0
  {
    if n <= |o| then o[..n] else o + Zeros(n - |o|)
  }

  datatype RawLayout = Layout(chunkSize: nat, aligned: bool)
  type Layout = f: RawLayout | f.chunkSize > 0 witness Layout(1, false)

  /** setAlignedChunkWriteOp: read the chunk, edit the copy, write it all back. */
  function AlignedRewrite(cs: nat, o: seq<Byte>, at: nat, data: seq<Byte>): (r: seq<Byte>)
    requires o == [] || |o| == cs
    requires at + |data| <= cs
    ensures |r| == cs
    ensures forall k: nat :: ByteIn(r, k) == if at <= k < at + |data| then data[k - at] else ByteIn(o, k)
  {
    var contents := if |o| > 0 then o else if |data| != cs then Zeros(cs) else [];
    Replace(contents, at, data)
  }

  /** One chunk write in the form the pool asks for. */
  function Put(f: Layout, o: seq<Byte>, at: nat, data: seq<Byte>): (r: seq<Byte>)
    requires f.aligned ==> o == [] || |o| == f.chunkSize
    requires at + |data| <= f.chunkSize
    ensures |r| == if f.aligned then f.chunkSize else Max(|o|, at + |data|)
    ensures forall k: nat :: ByteIn(r, k) == if at <= k < at + |data| then data[k - at] else ByteIn(o, k)
  {
    if f.aligned then AlignedRewrite(f.chunkSize, o, at, data) else ObjectWrite(o, at, data)
  }

  // ----- the inode: chunk objects and recorded size -----

  datatype Inode = Inode(chunks: map<nat, seq<Byte>>, size: nat)

  const ABSENT: Inode := Inode(map[], 0)

  function Chunk(st: Inode, c: nat): seq<Byte> {
    if c in st.chunks then st.chunks[c] else []
  }

  /** The byte the chunk objects hold for a position of the file. */
  function ByteAt(f: Layout, st: Inode, pos: nat): Byte {
    ByteIn(Chunk(st, pos / f.chunkSize), pos % f.chunkSize)
  }

  /** The file as one flat byte sequence. */
  function Flat(f: Layout, st: Inode): (s: seq<Byte>)
    ensures |s| == st.size
    ensures forall i :: 0 <= i < |s| ==> s[i] == ByteAt(f, st, i)
  {
    seq(st.size, i requires 0 <= i < st.size => ByteAt(f, st, i))
  }

  /** A chunk object is at most one chunk long; in an aligned pool exactly, but for an untouched chunk 0. */
  ghost predicate PieceOk(f: Layout, c: nat, o: seq<Byte>) {
    |o| <= f.chunkSize && (f.aligned ==> |o| == f.chunkSize || (c == 0 && o == []))
  }

  /**
   What every operation keeps, whatever it records: the form of the chunk
   objects, and a size that fits the 32 bits it is printed from. The size is an
   attribute of chunk 0.
   */
  ghost predicate Shape(f: Layout, st: Inode) {
    && st.size < TWO_TO_THE_32
    && (forall c :: c in st.chunks ==> PieceOk(f, c, st.chunks[c]))
    && (0 !in st.chunks ==> st.size == 0)
  }

  /**
   A chunk object starts below the recorded size (only chunk 0 may outlive
   that) and holds no data at or past it.
   */
  ghost predicate WithinSize(f: Layout, size: nat, c: nat, o: seq<Byte>) {
    && (c == 0 || c * f.chunkSize < size)
    && (if f.aligned then forall k :: 0 <= k < |o| && c * f.chunkSize + k >= size ==> o[k] == 0
        else c * f.chunkSize + |o| <= size)
  }

  /** The sound states: the recorded size covers all the data. */
  ghost predicate Inv(f: Layout, st: Inode) {
    && Shape(f, st)
    && (forall c :: c in st.chunks ==> WithinSize(f, st.size, c, st.chunks[c]))
    && (st.chunks != map[] ==> 0 in st.chunks)
  }

  // ----- arithmetic of positions -----

  lemma PositionSplit(pos: nat, cs: nat)
    requires cs > 0
    ensures pos == (pos / cs) * cs + pos % cs && 0 <= pos % cs < cs && 0 <= pos / cs
  {
  }

  lemma MulMonotone(a: nat, b: nat, cs: nat)
    requires a <= b
    ensures a * cs <= b * cs
  {
  }

  /** A position is in chunk c exactly when it lies between the chunk's ends. */
  lemma InChunk(pos: nat, c: nat, cs: nat)
    requires cs > 0
    ensures pos / cs == c <==> c * cs <= pos < c * cs + cs
    ensures pos / cs < c <==> pos < c * cs
  {
    PositionSplit(pos, cs);
    var d := pos / cs;
    if d < c {
      MulMonotone(d + 1, c, cs);
    } else {
      MulMonotone(c, d, cs);
      if d > c { MulMonotone(c + 1, d, cs); }
    }
  }

  lemma PositionOf(c: nat, k: nat, cs: nat)
    requires k < cs
    ensures (c * cs + k) / cs == c && (c * cs + k) % cs == k
  {
    InChunk(c * cs + k, c, cs);
    PositionSplit(c * cs + k, cs);
  }

  // ----- write -----

  function FirstChunk(f: Layout, offset: nat): nat { offset / f.chunkSize }

  function LastChunk(f: Layout, size: nat): nat {
    if size > 0 then (size - 1) / f.chunkSize else 0
  }

  /** The part, from Lo to Hi, of the chunk beginning at start that a write covers. */
  function Lo(offset: nat, start: nat): nat { Max(0, offset - start) }
  function Hi(f: Layout, end: nat, start: nat): int { Min(f.chunkSize, end - start) }

  predicate Touched(f: Layout, offset: nat, len: nat, c: nat) {
    FirstChunk(f, offset) <= c <= LastChunk(f, offset + len)
  }

  lemma TouchedRange(f: Layout, offset: nat, len: nat, c: nat)
    requires len > 0 && Touched(f, offset, len, c)
    ensures Lo(offset, c * f.chunkSize) < Hi(f, offset + len, c * f.chunkSize)
    ensures Lo(offset, c * f.chunkSize) == if c == FirstChunk(f, offset) then offset % f.chunkSize else 0
  {
    var cs := f.chunkSize;
    InChunk(offset, c, cs);
    InChunk(offset, c + 1, cs);
    InChunk(offset + len - 1, c, cs);
    PositionSplit(offset, cs);
    assert (c + 1) * cs == c * cs + cs;
  }

  /** Writes into one chunk the part of the data that falls into it. */
  function PutPart(f: Layout, o: seq<Byte>, start: nat, offset: nat, data: seq<Byte>): (r: seq<Byte>)
    requires f.aligned ==> o == [] || |o| == f.chunkSize
    requires Lo(offset, start) < Hi(f, offset + |data|, start)
    ensures |r| == if f.aligned then f.chunkSize else Max(|o|, Hi(f, offset + |data|, start))
  {
    var lo, hi := Lo(offset, start), Hi(f, offset + |data|, start);
    Put(f, o, lo, data[start + lo - offset..start + hi - offset])
  }

  lemma PutPartByte(f: Layout, o: seq<Byte>, start: nat, offset: nat, data: seq<Byte>, k: nat)
    requires f.aligned ==> o == [] || |o| == f.chunkSize
    requires Lo(offset, start) < Hi(f, offset + |data|, start)
    requires k < f.chunkSize
    ensures ByteIn(PutPart(f, o, start, offset, data), k) ==
            if offset <= start + k < offset + |data| then data[start + k - offset] else ByteIn(o, k)
  {
    hide Put;
    var lo, hi := Lo(offset, start), Hi(f, offset + |data|, start);
    var part := data[start + lo - offset..start + hi - offset];
    assert PutPart(f, o, start, offset, data) == Put(f, o, lo, part);
    if lo <= k < hi {
      assert part[k - lo] == data[start + k - offset];
    }
  }

  /** The chunk written by the loop iteration for chunk c. */
  function WrittenChunk(f: Layout, st: Inode, offset: nat, data: seq<Byte>, c: nat): seq<Byte>
    requires |data| > 0 && Shape(f, st) && Touched(f, offset, |data|, c)
  {
    TouchedRange(f, offset, |data|, c);
    PutPart(f, Chunk(st, c), c * f.chunkSize, offset, data)
  }

  /** Setting an attribute creates the inode object when it does not exist. */
  function TouchBase(chunks: map<nat, seq<Byte>>): map<nat, seq<Byte>> {
    if 0 in chunks then chunks else chunks[0 := []]
  }

  /** The size as it is recorded: cast to 32 bits. */
  function Recorded(n: nat): nat { n % TWO_TO_THE_32 }

  /** The state a write leaves: the touched chunks replaced, the recorded size raised. */
  ghost function Write(f: Layout, st: Inode, offset: nat, data: seq<Byte>): Inode
    requires |data| > 0 && Shape(f, st)
  {
    var base := TouchBase(st.chunks);
    var touched := set c: nat | c <= LastChunk(f, offset + |data|) && Touched(f, offset, |data|, c);
    Inode(map c | c in base.Keys + touched ::
            if Touched(f, offset, |data|, c) then WrittenChunk(f, st, offset, data, c) else base[c],
          Max(st.size, Recorded(offset + |data|)))
  }

  lemma UntouchedPosition(f: Layout, offset: nat, len: nat, c: nat, k: nat)
    requires len > 0 && k < f.chunkSize && !Touched(f, offset, len, c)
    ensures !(offset <= c * f.chunkSize + k < offset + len)
  {
    InChunk(offset, c + 1, f.chunkSize);
    InChunk(offset + len - 1, c, f.chunkSize);
    assert (c + 1) * f.chunkSize == c * f.chunkSize + f.chunkSize;
  }

  lemma ChunkAfterWrite(f: Layout, st: Inode, offset: nat, data: seq<Byte>, c: nat)
    requires |data| > 0 && Shape(f, st)
    ensures Chunk(Write(f, st, offset, data), c) ==
            if Touched(f, offset, |data|, c) then WrittenChunk(f, st, offset, data, c) else Chunk(st, c)
  {
  }

  lemma WriteChunkBytes(f: Layout, st: Inode, offset: nat, data: seq<Byte>, c: nat, k: nat)
    requires |data| > 0 && Shape(f, st) && k < f.chunkSize
    ensures ByteIn(Chunk(Write(f, st, offset, data), c), k) ==
            if offset <= c * f.chunkSize + k < offset + |data|
            then data[c * f.chunkSize + k - offset] else ByteIn(Chunk(st, c), k)
  {
    hide Write, Put, PutPart;
    ChunkAfterWrite(f, st, offset, data, c);
    if Touched(f, offset, |data|, c) {
      TouchedRange(f, offset, |data|, c);
      PutPartByte(f, Chunk(st, c), c * f.chunkSize, offset, data, k);
    } else {
      UntouchedPosition(f, offset, |data|, c, k);
    }
  }

  /** A write puts its data at its offset and leaves every other byte alone. */
  lemma WriteBytes(f: Layout, st: Inode, offset: nat, data: seq<Byte>, pos: nat)
    requires |data| > 0 && Shape(f, st)
    ensures ByteAt(f, Write(f, st, offset, data), pos) ==
            if offset <= pos < offset + |data| then data[pos - offset] else ByteAt(f, st, pos)
  {
    hide Write, Shape, Chunk, ByteIn;
    PositionSplit(pos, f.chunkSize);
    WriteChunkBytes(f, st, offset, data, pos / f.chunkSize, pos % f.chunkSize);
  }

  lemma WriteKeepsShape(f: Layout, st: Inode, offset: nat, data: seq<Byte>)
    requires |data| > 0 && Shape(f, st)
    ensures Shape(f, Write(f, st, offset, data)) && 0 in Write(f, st, offset, data).chunks
  {
    hide Put, PutPart;
    var st' := Write(f, st, offset, data);
    forall c | c in st'.chunks ensures PieceOk(f, c, st'.chunks[c]) {
      if Touched(f, offset, |data|, c) {
        TouchedRange(f, offset, |data|, c);
      }
    }
    assert 0 in st'.chunks;
  }

  /** The written chunk holds nothing past the larger of the old size and the end of the write. */
  lemma WrittenWithin(f: Layout, st: Inode, offset: nat, data: seq<Byte>, c: nat)
    requires |data| > 0 && Inv(f, st) && Touched(f, offset, |data|, c)
    ensures WithinSize(f, Max(st.size, offset + |data|), c, WrittenChunk(f, st, offset, data, c))
  {
    hide PutPart, Put, Touched;
    var start, o, size := c * f.chunkSize, Chunk(st, c), Max(st.size, offset + |data|);
    TouchedRange(f, offset, |data|, c);
    var o' := PutPart(f, o, start, offset, data);
    assert c in st.chunks ==> WithinSize(f, st.size, c, o);
    if f.aligned {
      forall k | 0 <= k < |o'| && start + k >= size ensures o'[k] == 0 {
        PutPartByte(f, o, start, offset, data, k);
        assert o'[k] == ByteIn(o', k);
      }
    }
  }

  lemma WithinLarger(f: Layout, size: nat, size': nat, c: nat, o: seq<Byte>)
    requires WithinSize(f, size, c, o) && size <= size'
    ensures WithinSize(f, size', c, o)
  {
  }

  /** A write that ends below 2^32 keeps the state sound. */
  lemma WriteKeepsInv(f: Layout, st: Inode, offset: nat, data: seq<Byte>)
    requires |data| > 0 && Inv(f, st) && offset + |data| < TWO_TO_THE_32
    ensures Inv(f, Write(f, st, offset, data))
  {
    hide WithinSize, PieceOk, WrittenChunk, Touched;
    WriteKeepsShape(f, st, offset, data);
    var st' := Write(f, st, offset, data);
    assert st'.size == Max(st.size, offset + |data|);
    forall c | c in st'.chunks ensures WithinSize(f, st'.size, c, st'.chunks[c]) {
      if Touched(f, offset, |data|, c) {
        WrittenWithin(f, st, offset, data, c);
      } else if c in st.chunks {
        WithinLarger(f, st.size, st'.size, c, st.chunks[c]);
      } else {
        EmptyBaseWithin(f, st'.size);
      }
    }
  }

  lemma EmptyBaseWithin(f: Layout, size: nat)
    ensures WithinSize(f, size, 0, [])
  {
  }

  // ----- truncate -----

  /** The chunks a truncate to n removes, going by the recorded size. */
  predicate Dropped(f: Layout, size: nat, n: nat, c: nat) {
    size > n && LastChunk(f, n) < c <= LastChunk(f, size)
  }

  /** The state a truncate leaves. */
  ghost function Truncate(f: Layout, st: Inode, n: nat): Inode
    requires Shape(f, st)
  {
    var base := TouchBase(st.chunks);
    var newLast := LastChunk(f, n);
    var rest := n % f.chunkSize;
    var kept := map c | c in base && !Dropped(f, st.size, n, c) :: base[c];
    var chunks :=
      if f.aligned then
        kept[newLast := Put(f, Chunk(st, newLast), rest, Zeros(f.chunkSize - rest))]
      else if newLast in kept then
        kept[newLast := ObjectTruncate(kept[newLast], rest)]
      else kept;
    Inode(chunks, Recorded(n))
  }

  /** The sizes whose last chunk is cut to nothing instead of being kept whole. */
  predicate EndsOnChunk(f: Layout, n: nat) {
    n > 0 && n % f.chunkSize == 0
  }

  lemma NewLastChunk(f: Layout, n: nat)
    ensures EndsOnChunk(f, n) ==> LastChunk(f, n) * f.chunkSize == n - f.chunkSize
    ensures !EndsOnChunk(f, n) ==> LastChunk(f, n) * f.chunkSize + n % f.chunkSize == n
    ensures LastChunk(f, n) * f.chunkSize <= n <= LastChunk(f, n) * f.chunkSize + f.chunkSize
    ensures n > 0 ==> LastChunk(f, n) * f.chunkSize < n
  {
    var cs := f.chunkSize;
    PositionSplit(n, cs);
    if n > 0 {
      var q := n / cs;
      if n % cs == 0 {
        assert q > 0;
        assert (q - 1) * cs == n - cs;
        InChunk(n - 1, q - 1, cs);
      } else {
        InChunk(n - 1, q, cs);
      }
    }
  }

  lemma ChunksBeyondSize(f: Layout, st: Inode, c: nat)
    requires Inv(f, st) && c in st.chunks
    ensures c <= LastChunk(f, st.size)
  {
    if c > 0 {
      assert WithinSize(f, st.size, c, st.chunks[c]);
      InChunk(st.size - 1, c, f.chunkSize);
    }
  }

  lemma ChunkBeyondNewSize(f: Layout, st: Inode, n: nat, c: nat)
    requires Inv(f, st) && c in st.chunks && c > LastChunk(f, n)
    ensures st.size > n
  {
    hide LastChunk, Shape;
    var cs, newLast := f.chunkSize, LastChunk(f, n);
    assert c * cs < st.size by {
      assert WithinSize(f, st.size, c, st.chunks[c]);
    }
    NewLastChunk(f, n);
    MulMonotone(newLast + 1, c, cs);
    assert (newLast + 1) * cs == newLast * cs + cs;
  }

  /** A truncate leaves each chunk as it was, cut, or removed. */
  lemma ChunkAfterTruncate(f: Layout, st: Inode, n: nat, c: nat)
    requires Shape(f, st)
    ensures c != LastChunk(f, n) ==>
              Chunk(Truncate(f, st, n), c) == if Dropped(f, st.size, n, c) then [] else Chunk(st, c)
    ensures c != LastChunk(f, n) && c in Truncate(f, st, n).chunks ==> c == 0 || c in st.chunks
    ensures c != LastChunk(f, n) && Dropped(f, st.size, n, c) ==> c !in Truncate(f, st, n).chunks
  {
    hide LastChunk, PieceOk, Put, ObjectTruncate;
  }

  lemma LastChunkBytes(f: Layout, st: Inode, n: nat, k: nat)
    requires Shape(f, st)
    ensures ByteIn(Chunk(Truncate(f, st, n), LastChunk(f, n)), k) ==
            if k < n % f.chunkSize then ByteIn(Chunk(st, LastChunk(f, n)), k) else 0
  {
    hide ObjectTruncate, Put;
    var newLast := LastChunk(f, n);
    assert newLast in st.chunks ==> PieceOk(f, newLast, st.chunks[newLast]);
  }

  /** The byte a truncate leaves at place k of chunk c, in any state. */
  lemma TruncatedByte(f: Layout, st: Inode, n: nat, c: nat, k: nat)
    requires Shape(f, st)
    ensures ByteIn(Chunk(Truncate(f, st, n), c), k) ==
            if c == LastChunk(f, n) then (if k < n % f.chunkSize then ByteIn(Chunk(st, c), k) else 0)
            else if Dropped(f, st.size, n, c) then 0 else ByteIn(Chunk(st, c), k)
  {
    hide Truncate, Shape;
    ChunkAfterTruncate(f, st, n, c);
    LastChunkBytes(f, st, n, k);
  }

  /** The positions whose byte a truncate to n keeps. */
  predicate Survives(f: Layout, n: nat, pos: nat) {
    pos < n && !(EndsOnChunk(f, n) && pos >= n - f.chunkSize)
  }

  lemma SurvivesByChunk(f: Layout, n: nat, c: nat, k: nat)
    requires k < f.chunkSize
    ensures Survives(f, n, c * f.chunkSize + k) <==>
            c < LastChunk(f, n) || (c == LastChunk(f, n) && k < n % f.chunkSize)
  {
    var cs, newLast := f.chunkSize, LastChunk(f, n);
    NewLastChunk(f, n);
    if c < newLast {
      MulMonotone(c + 1, newLast, cs);
      assert (c + 1) * cs == c * cs + cs;
    } else if c > newLast {
      MulMonotone(newLast + 1, c, cs);
      assert (newLast + 1) * cs == newLast * cs + cs;
    }
  }

  lemma TruncateChunkBytes(f: Layout, st: Inode, n: nat, c: nat, k: nat)
    requires Inv(f, st) && k < f.chunkSize
    ensures ByteIn(Chunk(Truncate(f, st, n), c), k) ==
            if Survives(f, n, c * f.chunkSize + k) then ByteIn(Chunk(st, c), k) else 0
  {
    hide Truncate, Survives, LastChunk, WithinSize, PieceOk;
    SurvivesByChunk(f, n, c, k);
    TruncatedByte(f, st, n, c, k);
    if c > LastChunk(f, n) && c in st.chunks {
      ChunkBeyondNewSize(f, st, n, c);
      ChunksBeyondSize(f, st, c);
    }
  }

  /**
   What a truncate leaves at each position: the old byte below the new size,
   except that a size ending exactly on a chunk loses that whole chunk.
   */
  lemma TruncateBytes(f: Layout, st: Inode, n: nat, pos: nat)
    requires Inv(f, st)
    ensures ByteAt(f, Truncate(f, st, n), pos) ==
            if Survives(f, n, pos) then ByteAt(f, st, pos) else 0
  {
    hide Truncate, Inv, Chunk, ByteIn;
    PositionSplit(pos, f.chunkSize);
    TruncateChunkBytes(f, st, n, pos / f.chunkSize, pos % f.chunkSize);
  }

  /** The new last chunk, cut to rest bytes. */
  ghost function LastCut(f: Layout, o: seq<Byte>, rest: nat): seq<Byte>
    requires rest < f.chunkSize && (f.aligned ==> o == [] || |o| == f.chunkSize)
  {
    if f.aligned then Put(f, o, rest, Zeros(f.chunkSize - rest)) else ObjectTruncate(o, rest)
  }

  lemma LastCutOk(f: Layout, o: seq<Byte>, n: nat)
    requires f.aligned ==> o == [] || |o| == f.chunkSize
    ensures PieceOk(f, LastChunk(f, n), LastCut(f, o, n % f.chunkSize))
    ensures WithinSize(f, n, LastChunk(f, n), LastCut(f, o, n % f.chunkSize))
  {
    hide Put, ObjectTruncate, LastChunk;
    var newLast, rest := LastChunk(f, n), n % f.chunkSize;
    NewLastChunk(f, n);
    ZeroSizeLast(f, n);
    var o' := LastCut(f, o, rest);
    if f.aligned {
      forall k | 0 <= k < |o'| && newLast * f.chunkSize + k >= n ensures o'[k] == 0 {
        assert o'[k] == ByteIn(o', k);
      }
    }
  }

  lemma ZeroSizeLast(f: Layout, n: nat)
    ensures n == 0 ==> LastChunk(f, n) == 0
  {
  }

  lemma TruncatedLast(f: Layout, st: Inode, n: nat)
    requires Shape(f, st)
    ensures f.aligned ==> Chunk(st, LastChunk(f, n)) == [] || |Chunk(st, LastChunk(f, n))| == f.chunkSize
    ensures LastChunk(f, n) in Truncate(f, st, n).chunks ==>
              Truncate(f, st, n).chunks[LastChunk(f, n)] == LastCut(f, Chunk(st, LastChunk(f, n)), n % f.chunkSize)
  {
    hide Put, ObjectTruncate, LastChunk;
    var newLast := LastChunk(f, n);
    assert newLast in st.chunks ==> PieceOk(f, newLast, st.chunks[newLast]);
  }

  /** A chunk before the new last one keeps its place below the new size. */
  lemma EarlierWithin(f: Layout, n: nat, c: nat, o: seq<Byte>)
    requires c < LastChunk(f, n) && |o| <= f.chunkSize
    ensures WithinSize(f, n, c, o)
  {
    var cs, newLast := f.chunkSize, LastChunk(f, n);
    NewLastChunk(f, n);
    MulMonotone(c + 1, newLast, cs);
    assert (c + 1) * cs == c * cs + cs;
  }

  lemma TruncateKeepsShape(f: Layout, st: Inode, n: nat)
    requires Shape(f, st)
    ensures Shape(f, Truncate(f, st, n)) && 0 in Truncate(f, st, n).chunks
  {
    hide LastCut, PieceOk, Put, ObjectTruncate, LastChunk;
    var st', newLast := Truncate(f, st, n), LastChunk(f, n);
    BasePieceOk(f);
    TruncatedLast(f, st, n);
    LastCutOk(f, Chunk(st, newLast), n);
    forall c | c in st'.chunks ensures PieceOk(f, c, st'.chunks[c]) {
      ChunkAfterTruncate(f, st, n, c);
    }
    assert 0 in st'.chunks;
  }

  lemma BasePieceOk(f: Layout)
    ensures PieceOk(f, 0, [])
  {
  }

  /** A truncate to a size below 2^32 keeps the state sound. */
  lemma TruncateKeepsInv(f: Layout, st: Inode, n: nat)
    requires Inv(f, st) && n < TWO_TO_THE_32
    ensures Inv(f, Truncate(f, st, n))
    ensures Truncate(f, st, n).size == n && 0 in Truncate(f, st, n).chunks
  {
    TruncateKeepsShape(f, st, n);
    var st', newLast := Truncate(f, st, n), LastChunk(f, n);
    forall c | c in st'.chunks ensures WithinSize(f, n, c, st'.chunks[c]) {
      TruncatedChunkWithin(f, st, n, c);
    }
  }

  lemma TruncatedChunkWithin(f: Layout, st: Inode, n: nat, c: nat)
    requires Inv(f, st) && c in Truncate(f, st, n).chunks
    ensures WithinSize(f, n, c, Truncate(f, st, n).chunks[c])
  {
    hide Truncate, LastCut, WithinSize, LastChunk;
    var newLast := LastChunk(f, n);
    ChunkAfterTruncate(f, st, n, c);
    TruncatedLast(f, st, n);
    if c == newLast {
      LastCutOk(f, Chunk(st, newLast), n);
    } else if c in st.chunks {
      if c > newLast {
        ChunkBeyondNewSize(f, st, n, c);
        ChunksBeyondSize(f, st, c);
      } else {
        EarlierWithin(f, n, c, st.chunks[c]);
      }
    } else {
      EmptyBaseWithin(f, n);
    }
  }

  // ----- remove -----

  /** remove: deletes the objects of chunks 0 to the last one the recorded size covers. */
  ghost function Remove(f: Layout, st: Inode): Inode {
    Inode(map c | c in st.chunks && c > LastChunk(f, st.size) :: st.chunks[c], 0)
  }

  lemma RemoveKeepsShape(f: Layout, st: Inode)
    requires Shape(f, st)
    ensures Shape(f, Remove(f, st))
  {
  }

  /** Remove leaves no chunk object exactly when none lies past the last chunk of the recorded size. */
  lemma RemoveIsComplete(f: Layout, st: Inode)
    ensures Remove(f, st) == ABSENT <==> forall c :: c in st.chunks ==> c <= LastChunk(f, st.size)
  {
    hide LastChunk;
    if Remove(f, st) == ABSENT {
      forall c | c in st.chunks ensures c <= LastChunk(f, st.size) {
        assert c !in Remove(f, st).chunks;
      }
    }
  }

  /** In a sound state no chunk object survives a remove. */
  lemma RemoveDeletesEverything(f: Layout, st: Inode)
    requires Inv(f, st)
    ensures Remove(f, st) == ABSENT
  {
    RemoveIsComplete(f, st);
    forall c | c in st.chunks ensures c <= LastChunk(f, st.size) {
      ChunksBeyondSize(f, st, c);
    }
  }
}
