/**
 The status code of a vector read: which chunk reads fail, which failures the
 callbacks excuse, and what the caller is told.
 */
module ReadStatus {
  import opened Errno
  import opened ChunkStore
  import opened FileIO
  import opened VectorRead
  import opened ReadCompletion
  import opened AsyncOps

  /** What the completion of a chunk read returns. */
  function OwnCode(st: Inode, chunk: nat): int { if chunk in st.chunks then 0 else ENOENT }

  /** The test in onReadCompleted: a missing chunk is no error where the size covers the piece. */
  predicate Excuses(f: Layout, st: Inode, p: Piece) {
    |Fetch(st, p)| < p.length && OwnCode(st, p.chunk) == ENOENT && st.size >= FilePos(f, p) + p.length
  }

  /** The codes the callback of a chunk gives for its pieces. */
  function GivenCodes(f: Layout, st: Inode, ps: seq<Piece>): seq<int> {
    if ps == [] then [] else GivenCodes(f, st, ps[..|ps| - 1]) + if Excuses(f, st, ps[|ps| - 1]) then [0] else []
  }

  lemma {:induction false} GivenAreZero(f: Layout, st: Inode, ps: seq<Piece>)
    ensures forall k :: 0 <= k < |GivenCodes(f, st, ps)| ==> GivenCodes(f, st, ps)[k] == 0
    ensures GivenCodes(f, st, ps) != [] <==> exists p :: p in ps && Excuses(f, st, p)
  {
    hide Excuses;
    if ps != [] {
      GivenAreZero(f, st, ps[..|ps| - 1]);
      assert ps == ps[..|ps| - 1] + [ps[|ps| - 1]];
    }
  }

  lemma OneMoreGiven(f: Layout, st: Inode, ps: seq<Piece>, k: nat)
    requires k < |ps|
    ensures GivenCodes(f, st, ps[..k + 1]) == GivenCodes(f, st, ps[..k]) + if Excuses(f, st, ps[k]) then [0] else []
    ensures !Excuses(f, st, ps[k]) ==> GivenCodes(f, st, ps[..k + 1]) == GivenCodes(f, st, ps[..k])
  {
    hide Excuses;
    assert ps[..k + 1][..k] == ps[..k];
  }

  lemma NothingGiven(f: Layout, st: Inode, a: Async, comp: nat)
    ensures Overridden(a, comp, GivenCodes(f, st, [])) == a
  {
  }

  lemma OneMoreOverride(a: Async, comp: nat, given: seq<int>)
    ensures Overridden(a, comp, given + [0]) == Override(Overridden(a, comp, given), comp, 0)
  {
    assert (given + [0])[..|given|] == given;
  }

  /** The overriding part of the loop in onReadCompleted. */
  method OverrideCodes(op: AsyncOp, f: Layout, st: Inode, comp: nat, pieces: seq<Piece>)
    modifies op
    ensures op.Value() == Overridden(old(op.Value()), comp, GivenCodes(f, st, pieces))
  {
    hide Override, Fetch, FilePos, GivenCodes, Overridden;
    NothingGiven(f, st, op.Value(), comp);
    for k := 0 to |pieces|
      invariant op.Value() == Overridden(old(op.Value()), comp, GivenCodes(f, st, pieces[..k]))
    {
      var p := pieces[k];
      ghost var given := GivenCodes(f, st, pieces[..k]);
      OneMoreGiven(f, st, pieces, k);
      if |Fetch(st, p)| < p.length {
        if OwnCode(st, p.chunk) == ENOENT && st.size >= FilePos(f, p) + p.length {
          OneMoreOverride(old(op.Value()), comp, given);
          op.SetOverriddenReturnCode(comp, 0);
        }
      }
    }
    assert pieces[..|pieces|] == pieces;
  }

  // ----- one whole read -----

  /** The chunk reads in issue order are those of the pieces, each chunk once. */
  ghost predicate Issues(order: seq<nat>, ps: seq<Piece>) {
    forall c :: c in order <==> exists p :: p in ps && p.chunk == c
  }

  /** Every callback gives the codes of its chunk's pieces. */
  ghost predicate Answers(f: Layout, st: Inode, order: seq<nat>, ps: seq<Piece>, es: seq<Event>) {
    forall i :: 0 <= i < |es| && es[i].Callback? && es[i].chunk < |order| ==>
      es[i].overrideWith == GivenCodes(f, st, InChunkOnly(ps, order[es[i].chunk]))
  }

  function Codes(st: Inode, order: seq<nat>): nat -> int {
    (i: nat) => if i < |order| then OwnCode(st, order[i]) else 0
  }

  lemma {:induction false} CallbackWasRun(rs: seq<Read>, es: seq<Event>, c: nat) returns (i: nat)
    requires Reaches(rs, es) && rs[0] == Start(rs[0].total) && c in rs[|es|].finished
    ensures i < |es| && es[i].Callback? && es[i].chunk == c
  {
    var n := |es| - 1;
    assert es != [];
    assert rs[n + 1] == Next(rs[n], es[n]);
    if es[n].Callback? && es[n].chunk == c {
      i := n;
    } else {
      i := CallbackWasRun(rs[..n + 1], es[..n], c);
    }
  }

  lemma {:induction false} InChunkOnlyIs(ps: seq<Piece>, c: nat, p: Piece)
    ensures p in InChunkOnly(ps, c) <==> p in ps && p.chunk == c
  {
    if ps != [] {
      InChunkOnlyIs(ps[..|ps| - 1], c, p);
      assert ps == ps[..|ps| - 1] + [ps[|ps| - 1]];
    }
  }

  /** What counts for one chunk: an error exactly when it is missing and no piece of it is excused. */
  lemma ChunkCounts(f: Layout, st: Inode, order: seq<nat>, ps: seq<Piece>, rs: seq<Read>, es: seq<Event>, c: nat)
    requires Reaches(rs, es) && rs[0] == Start(|order|) && Answers(f, st, order, ps, es)
    requires c < |order| && c in rs[|es|].finished
    ensures Counted(es, Codes(st, order), c) ==
            if order[c] !in st.chunks && !Excused(f, st, ps, order[c]) then ENOENT else 0
  {
    hide Excuses, GivenCodes;
    var i := CallbackWasRun(rs, es, c);
    CallbackDecides(rs, es, Codes(st, order), i);
    var mine := InChunkOnly(ps, order[c]);
    GivenAreZero(f, st, mine);
    forall p ensures p in mine <==> p in ps && p.chunk == order[c] {
      InChunkOnlyIs(ps, order[c], p);
    }
  }

  /** Some piece of the chunk is excused. */
  ghost predicate Excused(f: Layout, st: Inode, ps: seq<Piece>, c: nat) {
    exists p :: p in ps && p.chunk == c && Excuses(f, st, p)
  }

  /** The first failure among counts that are ENOENT for the chunks that fail and 0 for the others. */
  lemma FirstOfFailing(order: seq<nat>, fails: set<nat>, counts: seq<int>, ret: int)
    requires |counts| == |order| && IsFirstFailure(counts, ret)
    requires forall k :: 0 <= k < |order| ==> counts[k] == if order[k] in fails then ENOENT else 0
    ensures ret == 0 || ret == ENOENT
    ensures ret == 0 <==> forall k :: 0 <= k < |order| ==> order[k] !in fails
  {
  }

  /** The read succeeds exactly when every missing chunk is excused by one of its pieces, and fails with ENOENT otherwise. */
  lemma StatusOfPieces(f: Layout, st: Inode, order: seq<nat>, ps: seq<Piece>, rs: seq<Read>, es: seq<Event>, ret: int)
    requires Reaches(rs, es) && rs[0] == Start(|order|) && Issues(order, ps) && Answers(f, st, order, ps, es)
    requires forall c: nat :: c < |order| ==> c in rs[|es|].finished
    requires IsFirstFailure(seq(|order|, c requires c >= 0 => Counted(es, Codes(st, order), c)), ret)
    ensures ret == 0 || ret == ENOENT
    ensures ret == 0 <==> forall q :: q in ps && q.chunk !in st.chunks ==> Excused(f, st, ps, q.chunk)
  {
    hide Excuses, Excused, Answers, Counted, Reaches, IsFirstFailure;
    var counts := seq(|order|, c requires c >= 0 => Counted(es, Codes(st, order), c));
    var fails := set c | c in order && c !in st.chunks && !Excused(f, st, ps, c);
    forall k | 0 <= k < |order| ensures counts[k] == if order[k] in fails then ENOENT else 0 {
      ChunkCounts(f, st, order, ps, rs, es, k);
      assert order[k] in order;
    }
    FirstOfFailing(order, fails, counts, ret);
    if forall q :: q in ps && q.chunk !in st.chunks ==> Excused(f, st, ps, q.chunk) {
      forall k | 0 <= k < |order| ensures order[k] !in fails {
        assert order[k] in order;
        var q :| q in ps && q.chunk == order[k];
      }
    } else {
      var q :| q in ps && q.chunk !in st.chunks && !Excused(f, st, ps, q.chunk);
      assert q.chunk in order;
      var k :| 0 <= k < |order| && order[k] == q.chunk;
      assert order[k] in fails;
    }
  }

  // ----- by intervals -----

  /** Where the part of an interval that lies in a chunk ends. */
  function EndIn(f: Layout, iv: Interval, c: nat): nat {
    Min(iv.offset + iv.length, (c + 1) * f.chunkSize)
  }

  predicate Reads(f: Layout, iv: Interval, c: nat) {
    iv.length > 0 && Touched(f, iv.offset, iv.length, c)
  }

  lemma {:induction false} PiecesEnd(f: Layout, r: Request, done: nat, p: Piece)
    requires done <= r.length && p in PiecesFrom(f, r, done)
    ensures p.length > 0 && p.interval == r.interval
    ensures r.offset + done <= FilePos(f, p) && FilePos(f, p) + p.length == Min(r.offset + r.length, (p.chunk + 1) * f.chunkSize)
    decreases r.length - done
  {
    var q := PieceAt(f, r, done);
    PositionSplit(r.offset + done, f.chunkSize);
    ChunkEnd(f, q.chunk);
    if p != q {
      PiecesEnd(f, r, done + q.length, p);
    }
  }

  lemma ChunkEnd(f: Layout, c: nat)
    ensures (c + 1) * f.chunkSize == c * f.chunkSize + f.chunkSize
  {
  }

  lemma {:induction false} ReadPiecesEnd(f: Layout, ivs: seq<Interval>, p: Piece)
    requires p in ReadPieces(f, ivs)
    ensures p.length > 0 && p.interval < |ivs| && ivs[p.interval].length > 0
    ensures FilePos(f, p) + p.length == EndIn(f, ivs[p.interval], p.chunk)
  {
    hide PiecesFrom, EndIn, ReadPieces, FilePos;
    NoneToRead(f);
    var front, iv := ivs[..|ivs| - 1], ivs[|ivs| - 1];
    var r := Request(|ivs| - 1, 0, iv.offset, iv.length);
    LastPieces(f, ivs);
    if p in ReadPieces(f, front) {
      ReadPiecesEnd(f, front, p);
    } else {
      PiecesEnd(f, r, 0, p);
      EndOf(f, iv, p.chunk);
      PiecePositive(f, r, p);
    }
  }

  lemma NoneToRead(f: Layout)
    ensures ReadPieces(f, []) == []
  {
  }

  lemma LastPieces(f: Layout, ivs: seq<Interval>)
    requires ivs != []
    ensures var front, iv := ivs[..|ivs| - 1], ivs[|ivs| - 1];
            ReadPieces(f, ivs) == ReadPieces(f, front) + PiecesFrom(f, Request(|ivs| - 1, 0, iv.offset, iv.length), 0)
  {
    hide PiecesFrom;
    var front, iv := ivs[..|ivs| - 1], ivs[|ivs| - 1];
    var r := Request(|ivs| - 1, 0, iv.offset, iv.length);
    assert InodeParts(0, ivs) == InodeParts(0, front) + [r];
    assert (InodeParts(0, front) + [r])[..|InodeParts(0, front)|] == InodeParts(0, front);
  }

  lemma EndOf(f: Layout, iv: Interval, c: nat)
    ensures EndIn(f, iv, c) == Min(iv.offset + iv.length, (c + 1) * f.chunkSize)
  {
  }

  lemma PiecePositive(f: Layout, r: Request, p: Piece)
    requires p in PiecesFrom(f, r, 0)
    ensures r.length > 0
  {
  }

  /** The pieces of interval i are one for each chunk it reads. */
  lemma PieceReads(f: Layout, ivs: seq<Interval>, p: Piece)
    requires p in ReadPieces(f, ivs)
    ensures p.interval < |ivs| && Reads(f, ivs[p.interval], p.chunk)
  {
    hide ReadPieces, FilePos;
    ReadPiecesEnd(f, ivs, p);
    ReadPiecesPlaced(f, ivs);
    assert Placed(f, ivs, p);
    var iv := ivs[p.interval];
    PositionOf(p.chunk, p.offset, f.chunkSize);
    InChunk(iv.offset, p.chunk + 1, f.chunkSize);
    ChunkEnd(f, p.chunk);
    InChunk(iv.offset + iv.length - 1, p.chunk, f.chunkSize);
  }

  lemma ChunkIsRead(f: Layout, ivs: seq<Interval>, i: nat, c: nat) returns (p: Piece)
    requires i < |ivs| && Reads(f, ivs[i], c)
    ensures p in ReadPieces(f, ivs) && p.interval == i && p.chunk == c
  {
    hide ReadPieces;
    var iv := ivs[i];
    TouchedRange(f, iv.offset, iv.length, c);
    var pos := Max(iv.offset, c * f.chunkSize);
    var j := pos - iv.offset;
    ReadIsTiled(f, 0, ivs, i, j);
    var ps := ReadPieces(f, ivs);
    ReadPiecesAre(f, ivs);
    CoveredBySome(ps, i, j);
    p :| p in ps && Covers(p, i, j);
    assert Placed(f, ivs, p);
    InChunk(pos, c, f.chunkSize);
    InChunk(pos, p.chunk, f.chunkSize);
  }

  lemma ReadPiecesAre(f: Layout, ivs: seq<Interval>)
    ensures ReadPieces(f, ivs) == PiecesOf(f, InodeParts(0, ivs))
  {
  }

  lemma ExcusesWhen(f: Layout, st: Inode, ivs: seq<Interval>, p: Piece)
    requires p in ReadPieces(f, ivs) && p.chunk !in st.chunks
    ensures p.interval < |ivs| && (Excuses(f, st, p) <==> EndIn(f, ivs[p.interval], p.chunk) <= st.size)
  {
    hide ReadPieces, FilePos, EndIn;
    ReadPiecesEnd(f, ivs, p);
  }

  /** The chunk is missing, and no interval that reads from it stays within the file there. */
  ghost predicate Misses(f: Layout, st: Inode, ivs: seq<Interval>, c: nat) {
    && c !in st.chunks
    && (exists i :: 0 <= i < |ivs| && Reads(f, ivs[i], c))
    && (forall i :: 0 <= i < |ivs| && Reads(f, ivs[i], c) ==> EndIn(f, ivs[i], c) > st.size)
  }

  /**
   The status of a vector read, whatever the order of its callbacks: 0 exactly
   when no chunk is missed, else ENOENT.
   */
  lemma StatusOfRead(f: Layout, st: Inode, ivs: seq<Interval>, order: seq<nat>, rs: seq<Read>, es: seq<Event>, ret: int)
    requires Reaches(rs, es) && rs[0] == Start(|order|)
    requires Issues(order, ReadPieces(f, ivs)) && Answers(f, st, order, ReadPieces(f, ivs), es)
    requires forall c: nat :: c < |order| ==> c in rs[|es|].finished
    requires IsFirstFailure(seq(|order|, c requires c >= 0 => Counted(es, Codes(st, order), c)), ret)
    ensures ret == if exists c :: Misses(f, st, ivs, c) then ENOENT else 0
  {
    hide ReadPieces, Reads, EndIn, Excuses, Issues, Answers, Reaches, IsFirstFailure, Counted;
    var ps := ReadPieces(f, ivs);
    StatusOfPieces(f, st, order, ps, rs, es, ret);
    if c :| Misses(f, st, ivs, c) {
      var i :| 0 <= i < |ivs| && Reads(f, ivs[i], c);
      var q := ChunkIsRead(f, ivs, i, c);
      forall p | p in ps && p.chunk == c ensures !Excuses(f, st, p) {
        PieceReads(f, ivs, p);
        ExcusesWhen(f, st, ivs, p);
      }
    } else {
      forall q | q in ps && q.chunk !in st.chunks
        ensures Excused(f, st, ps, q.chunk)
      {
        PieceReads(f, ivs, q);
        assert !Misses(f, st, ivs, q.chunk);
        var i :| 0 <= i < |ivs| && Reads(f, ivs[i], q.chunk) && EndIn(f, ivs[i], q.chunk) <= st.size;
        var p := ChunkIsRead(f, ivs, i, q.chunk);
        ExcusesWhen(f, st, ivs, p);
      }
    }
  }

  // ----- a single read -----

  /** Inside the file a read never misses a chunk, holes or not; past the end of its last chunk it always does. */
  lemma SingleRead(f: Layout, st: Inode, offset: nat, length: nat)
    requires Inv(f, st) && length > 0
    ensures offset + length <= st.size ==> !exists c :: Misses(f, st, [Interval(offset, length)], c)
    ensures offset + length > (LastChunk(f, st.size) + 1) * f.chunkSize ==>
              exists c :: Misses(f, st, [Interval(offset, length)], c)
  {
    hide Inv, LastChunk;
    var iv := Interval(offset, length);
    var ivs := [iv];
    if offset + length > (LastChunk(f, st.size) + 1) * f.chunkSize {
      var c := (offset + length - 1) / f.chunkSize;
      LastIsRead(f, st, offset, length, c);
      NewLastChunk(f, st.size);
      ChunkEnd(f, LastChunk(f, st.size));
      InChunk(offset + length - 1, LastChunk(f, st.size) + 1, f.chunkSize);
      if c in st.chunks {
        ChunksBeyondSize(f, st, c);
      }
      PastSize(f, st.size, c, LastChunk(f, st.size));
      assert ivs[0] == iv;
      assert Misses(f, st, ivs, c);
    }
  }

  lemma LastIsRead(f: Layout, st: Inode, offset: nat, length: nat, c: nat)
    requires length > 0 && c == (offset + length - 1) / f.chunkSize
    ensures Reads(f, Interval(offset, length), c) && EndIn(f, Interval(offset, length), c) == offset + length
  {
    InChunk(offset, c, f.chunkSize);
    InChunk(offset + length - 1, c, f.chunkSize);
    ChunkEnd(f, c);
    InChunk(offset, c + 1, f.chunkSize);
  }

  lemma PastSize(f: Layout, size: nat, c: nat, last: nat)
    requires size <= (last + 1) * f.chunkSize && c > last
    ensures size <= c * f.chunkSize
  {
    MulMonotone(last + 1, c, f.chunkSize);
  }

  /** Three bytes in chunks of four: a read of eight fails, though three bytes have been delivered. */
  lemma ReadPastEndFails()
    ensures var f: Layout, st := Layout(4, false), Inode(map[0 := [7, 7, 7]], 3);
            Inv(f, st) && Misses(f, st, [Interval(0, 8)], 1) && !Misses(f, st, [Interval(0, 4)], 0) &&
            |Delivered(f, st, Piece(0, 0, 0, 0, 4))| == 3
  {
    var f: Layout, st := Layout(4, false), Inode(map[0 := [7, 7, 7]], 3);
    assert 0 in st.chunks;
    var ivs := [Interval(0, 8)];
    assert Reads(f, ivs[0], 1);
    assert EndIn(f, ivs[0], 1) == 8;
  }
}
