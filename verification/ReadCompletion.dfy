/**
 The callbacks of a vector read: what each chunk read delivers, and why the
 order in which the chunk reads complete makes no difference.
 */
module ReadCompletion {
  import opened Hex
  import opened ChunkStore
  import opened FileIO
  import opened VectorRead

  /** The caller's buffers and accumulated return values, one of each per interval. */
  datatype Memory = Memory(bufs: seq<seq<Byte>>, rets: seq<int>)

  ghost predicate Roomy(m: Memory, ivs: seq<Interval>) {
    |m.bufs| == |ivs| && |m.rets| == |ivs| &&
    forall i :: 0 <= i < |ivs| ==> |m.bufs[i]| >= ivs[i].length
  }

  // ----- one piece -----

  function FilePos(f: Layout, p: Piece): nat { p.chunk * f.chunkSize + p.offset }

  /** What reading the piece's range of the chunk object returns. */
  function Fetch(st: Inode, p: Piece): (r: seq<Byte>)
    ensures |r| <= p.length
  {
    var o := Chunk(st, p.chunk);
    o[Min(p.offset, |o|)..Min(p.offset + p.length, |o|)]
  }

  /** assignRemainingReadData: how many null bytes complete a short read. */
  function FillLength(f: Layout, st: Inode, p: Piece): int {
    if |Fetch(st, p)| < p.length && st.size > 0 && FilePos(f, p) < st.size
    then Min(p.length, st.size - FilePos(f, p)) - |Fetch(st, p)| else 0
  }

  /** The unsigned subtraction in assignRemainingReadData never underflows. */
  lemma FillNeverUnderflows(f: Layout, st: Inode, p: Piece)
    requires Inv(f, st) && p.offset + p.length <= f.chunkSize
    ensures FillLength(f, st, p) >= 0
  {
    if p.chunk in st.chunks {
      assert WithinSize(f, st.size, p.chunk, st.chunks[p.chunk]);
    }
  }

  function Delivered(f: Layout, st: Inode, p: Piece): (r: seq<Byte>)
    ensures |r| == |Fetch(st, p)| + Max(0, FillLength(f, st, p))
    ensures |r| <= p.length
  {
    Fetch(st, p) + Zeros(Max(0, FillLength(f, st, p)))
  }

  /** Every delivered byte is the file's byte at its position. */
  lemma DeliveredBytes(f: Layout, st: Inode, p: Piece, k: nat)
    requires p.offset + p.length <= f.chunkSize && k < |Delivered(f, st, p)|
    ensures Delivered(f, st, p)[k] == ByteAt(f, st, FilePos(f, p) + k)
  {
    PositionOf(p.chunk, p.offset + k, f.chunkSize);
    assert FilePos(f, p) + k == p.chunk * f.chunkSize + (p.offset + k);
  }

  /** A chunk object holds a byte for this position. */
  predicate Stored(f: Layout, st: Inode, pos: nat) {
    pos % f.chunkSize < |Chunk(st, pos / f.chunkSize)|
  }

  ghost predicate NoneStoredPastSize(f: Layout, st: Inode, from: nat, to: nat) {
    forall pos: nat :: from <= pos < to && st.size <= pos ==> !Stored(f, st, pos)
  }

  function Below(size: nat, from: nat, to: nat): nat {
    Max(0, Min(to, size) - from)
  }

  lemma StoredInPiece(f: Layout, st: Inode, p: Piece, k: nat)
    requires p.offset + p.length <= f.chunkSize && k < p.length
    ensures Stored(f, st, FilePos(f, p) + k) <==> k < |Fetch(st, p)|
  {
    PositionOf(p.chunk, p.offset + k, f.chunkSize);
    assert FilePos(f, p) + k == p.chunk * f.chunkSize + (p.offset + k);
  }

  lemma NoPaddingInPiece(f: Layout, st: Inode, p: Piece)
    requires p.offset + p.length <= f.chunkSize
    ensures NoneStoredPastSize(f, st, FilePos(f, p), FilePos(f, p) + p.length) <==>
            Fetch(st, p) == [] || FilePos(f, p) + |Fetch(st, p)| <= st.size
  {
    hide Stored, Fetch, FilePos;
    var start, n := FilePos(f, p), |Fetch(st, p)|;
    if n > 0 && start + n > st.size {
      StoredInPiece(f, st, p, n - 1);
      assert Stored(f, st, start + (n - 1));
    } else {
      forall pos: nat | start <= pos < start + p.length && st.size <= pos ensures !Stored(f, st, pos) {
        StoredInPiece(f, st, p, pos - start);
        assert pos == start + (pos - start);
      }
    }
  }

  /** A piece delivers the bytes below the size, and more only out of stored padding. */
  lemma DeliveredCount(f: Layout, st: Inode, p: Piece)
    requires Inv(f, st) && p.offset + p.length <= f.chunkSize
    ensures var pos := FilePos(f, p);
            |Delivered(f, st, p)| >= Below(st.size, pos, pos + p.length) &&
            (|Delivered(f, st, p)| == Below(st.size, pos, pos + p.length) <==>
             NoneStoredPastSize(f, st, pos, pos + p.length))
  {
    FillNeverUnderflows(f, st, p);
    NoPaddingInPiece(f, st, p);
    hide Inv, Stored, NoneStoredPastSize, FilePos, Fetch;
  }

  /** An unaligned store keeps nothing past the size. */
  lemma InPlaceStoresNoPadding(f: Layout, st: Inode, from: nat, to: nat)
    requires Inv(f, st) && !f.aligned
    ensures NoneStoredPastSize(f, st, from, to)
  {
    forall pos: nat | from <= pos < to && st.size <= pos ensures !Stored(f, st, pos) {
      PositionSplit(pos, f.chunkSize);
      var c := pos / f.chunkSize;
      if c in st.chunks {
        assert WithinSize(f, st.size, c, st.chunks[c]);
      }
    }
  }

  // ----- many pieces -----

  function Deliver(f: Layout, st: Inode, m: Memory, p: Piece): Memory
    requires p.interval < |m.bufs| == |m.rets| && p.bufPos <= |m.bufs[p.interval]|
  {
    var data := Delivered(f, st, p);
    Memory(m.bufs[p.interval := Replace(m.bufs[p.interval], p.bufPos, data)],
           m.rets[p.interval := m.rets[p.interval] + |data|])
  }

  ghost predicate AllPlacedIn(f: Layout, ivs: seq<Interval>, ps: seq<Piece>) {
    forall p :: p in ps ==> Placed(f, ivs, p)
  }

  /** The callbacks for the pieces, run one after the other. */
  ghost function DeliverAll(f: Layout, st: Inode, ivs: seq<Interval>, m: Memory, ps: seq<Piece>): (r: Memory)
    requires Roomy(m, ivs) && AllPlacedIn(f, ivs, ps)
    ensures Roomy(r, ivs)
    ensures forall i :: 0 <= i < |ivs| ==> |r.bufs[i]| == |m.bufs[i]|
  {
    if ps == [] then m else
      var p := ps[|ps| - 1];
      assert Placed(f, ivs, p);
      Deliver(f, st, DeliverAll(f, st, ivs, m, ps[..|ps| - 1]), p)
  }

  lemma {:induction false} DeliverAllConcat(f: Layout, st: Inode, ivs: seq<Interval>, m: Memory, ps: seq<Piece>, qs: seq<Piece>)
    requires Roomy(m, ivs) && AllPlacedIn(f, ivs, ps) && AllPlacedIn(f, ivs, qs)
    ensures AllPlacedIn(f, ivs, ps + qs)
    ensures DeliverAll(f, st, ivs, m, ps + qs) == DeliverAll(f, st, ivs, DeliverAll(f, st, ivs, m, ps), qs)
  {
    if qs == [] {
      assert ps + qs == ps;
    } else {
      assert (ps + qs)[..|ps + qs| - 1] == ps + qs[..|qs| - 1];
      DeliverAllConcat(f, st, ivs, m, ps, qs[..|qs| - 1]);
    }
  }

  /** Some piece delivers byte j of interval i. */
  ghost predicate Filled(f: Layout, st: Inode, ps: seq<Piece>, i: nat, j: nat) {
    exists p :: p in ps && Covers(p, i, j) && j < p.bufPos + |Delivered(f, st, p)|
  }

  function Total(f: Layout, st: Inode, ps: seq<Piece>, i: nat): nat {
    if ps == [] then 0
    else Total(f, st, ps[..|ps| - 1], i) +
         if ps[|ps| - 1].interval == i then |Delivered(f, st, ps[|ps| - 1])| else 0
  }

  lemma DeliverByte(f: Layout, st: Inode, ivs: seq<Interval>, m: Memory, p: Piece, i: nat, j: nat)
    requires Roomy(m, ivs) && Placed(f, ivs, p) && i < |ivs| && j < |m.bufs[i]|
    ensures |Deliver(f, st, m, p).bufs| == |ivs| && |Deliver(f, st, m, p).bufs[i]| == |m.bufs[i]|
    ensures Deliver(f, st, m, p).bufs[i][j] ==
            if Covers(p, i, j) && j < p.bufPos + |Delivered(f, st, p)|
            then ByteAt(f, st, ivs[i].offset + j) else m.bufs[i][j]
  {
    hide ByteAt, Delivered;
    if Covers(p, i, j) && j < p.bufPos + |Delivered(f, st, p)| {
      DeliveredBytes(f, st, p, j - p.bufPos);
    }
  }

  /** What the buffers and return values hold depends only on which pieces were delivered. */
  lemma {:induction false} DeliveredContents(f: Layout, st: Inode, ivs: seq<Interval>, m: Memory, ps: seq<Piece>, i: nat, j: nat)
    requires Roomy(m, ivs) && AllPlacedIn(f, ivs, ps) && i < |ivs| && j < |m.bufs[i]|
    ensures DeliverAll(f, st, ivs, m, ps).bufs[i][j] ==
            if Filled(f, st, ps, i, j) then ByteAt(f, st, ivs[i].offset + j) else m.bufs[i][j]
  {
    if ps != [] {
      var front, p := ps[..|ps| - 1], ps[|ps| - 1];
      assert ps == front + [p] && Placed(f, ivs, p);
      DeliveredContents(f, st, ivs, m, front, i, j);
      hide ByteAt, Delivered, Deliver, Placed, Covers;
      DeliverByte(f, st, ivs, DeliverAll(f, st, ivs, m, front), p, i, j);
    }
  }

  lemma {:induction false} DeliveredTotals(f: Layout, st: Inode, ivs: seq<Interval>, m: Memory, ps: seq<Piece>, i: nat)
    requires Roomy(m, ivs) && AllPlacedIn(f, ivs, ps) && i < |ivs|
    ensures DeliverAll(f, st, ivs, m, ps).rets[i] == m.rets[i] + Total(f, st, ps, i)
  {
    if ps != [] {
      assert Placed(f, ivs, ps[|ps| - 1]);
      DeliveredTotals(f, st, ivs, m, ps[..|ps| - 1], i);
    }
  }

  // ----- any order -----

  lemma {:induction false} TotalConcat(f: Layout, st: Inode, ps: seq<Piece>, qs: seq<Piece>, i: nat)
    ensures Total(f, st, ps + qs, i) == Total(f, st, ps, i) + Total(f, st, qs, i)
  {
    if qs == [] {
      assert ps + qs == ps;
    } else {
      assert (ps + qs)[..|ps + qs| - 1] == ps + qs[..|qs| - 1];
      TotalConcat(f, st, ps, qs[..|qs| - 1], i);
    }
  }

  lemma WithoutOne(ps: seq<Piece>, p: Piece, qs: seq<Piece>, k: nat)
    requires multiset(ps + [p]) == multiset(qs) && k < |qs| && qs[k] == p
    ensures multiset(ps) == multiset(qs[..k] + qs[k + 1..])
  {
    assert qs == qs[..k] + [p] + qs[k + 1..];
    assert multiset(qs) == multiset(qs[..k]) + multiset{p} + multiset(qs[k + 1..]);
    assert multiset(ps) == multiset(qs) - multiset{p};
  }

  lemma TotalOne(f: Layout, st: Inode, p: Piece, i: nat)
    ensures Total(f, st, [p], i) == if p.interval == i then |Delivered(f, st, p)| else 0
    ensures Total(f, st, [], i) == 0
  {
    hide Delivered;
    assert [p][..0] == [];
  }

  /** Taking one piece out takes its own count out. */
  lemma TotalWithout(f: Layout, st: Inode, qs: seq<Piece>, k: nat, i: nat)
    requires k < |qs|
    ensures Total(f, st, qs, i) == Total(f, st, qs[..k] + qs[k + 1..], i) + Total(f, st, [qs[k]], i)
  {
    hide Total;
    assert qs == qs[..k] + ([qs[k]] + qs[k + 1..]);
    TotalConcat(f, st, qs[..k], [qs[k]] + qs[k + 1..], i);
    TotalConcat(f, st, [qs[k]], qs[k + 1..], i);
    TotalConcat(f, st, qs[..k], qs[k + 1..], i);
  }

  lemma {:induction false} TotalPermuted(f: Layout, st: Inode, ps: seq<Piece>, qs: seq<Piece>, i: nat)
    requires multiset(ps) == multiset(qs)
    ensures Total(f, st, ps, i) == Total(f, st, qs, i)
    decreases |ps|
  {
    hide Total;
    if ps == [] {
      assert |multiset(qs)| == 0;
      assert qs == [];
    } else {
      var front, p := ps[..|ps| - 1], ps[|ps| - 1];
      assert ps == front + [p];
      assert p in multiset(qs);
      var k :| 0 <= k < |qs| && qs[k] == p;
      WithoutOne(front, p, qs, k);
      TotalPermuted(f, st, front, qs[..k] + qs[k + 1..], i);
      TotalConcat(f, st, front, [p], i);
      TotalWithout(f, st, qs, k, i);
    }
  }

  /** Chunk reads may complete in any order: buffers and return values come out the same. */
  lemma CompletionOrderIrrelevant(f: Layout, st: Inode, ivs: seq<Interval>, m: Memory, ps: seq<Piece>, qs: seq<Piece>)
    requires Roomy(m, ivs) && AllPlacedIn(f, ivs, ps) && multiset(ps) == multiset(qs)
    ensures AllPlacedIn(f, ivs, qs)
    ensures DeliverAll(f, st, ivs, m, ps) == DeliverAll(f, st, ivs, m, qs)
  {
    assert forall p :: p in qs <==> p in multiset(qs);
    assert forall p :: p in ps <==> p in multiset(ps);
    var a, b := DeliverAll(f, st, ivs, m, ps), DeliverAll(f, st, ivs, m, qs);
    forall i: nat | i < |ivs| ensures a.bufs[i] == b.bufs[i] && a.rets[i] == b.rets[i] {
      forall j: nat | j < |m.bufs[i]| ensures a.bufs[i][j] == b.bufs[i][j] {
        DeliveredContents(f, st, ivs, m, ps, i, j);
        DeliveredContents(f, st, ivs, m, qs, i, j);
      }
      DeliveredTotals(f, st, ivs, m, ps, i);
      DeliveredTotals(f, st, ivs, m, qs, i);
      TotalPermuted(f, st, ps, qs, i);
    }
    assert a.bufs == b.bufs && a.rets == b.rets;
  }

  // ----- what a whole read delivers -----

  function ReadPieces(f: Layout, ivs: seq<Interval>): seq<Piece> {
    PiecesOf(f, InodeParts(0, ivs))
  }

  /** Two adjoining ranges count together as one. */
  lemma BelowSplit(f: Layout, st: Inode, from: nat, mid: nat, to: nat)
    requires from <= mid <= to
    ensures Below(st.size, from, to) == Below(st.size, from, mid) + Below(st.size, mid, to)
    ensures NoneStoredPastSize(f, st, from, to) <==>
            NoneStoredPastSize(f, st, from, mid) && NoneStoredPastSize(f, st, mid, to)
  {
    hide Stored;
  }

  lemma FirstPiece(f: Layout, st: Inode, r: Request, done: nat, i: nat)
    requires done < r.length
    ensures var p := PieceAt(f, r, done);
            && 0 < p.length <= r.length - done && p.offset + p.length <= f.chunkSize
            && FilePos(f, p) == r.offset + done && p.interval == r.interval
            && Total(f, st, PiecesFrom(f, r, done), i) ==
               Total(f, st, [p], i) + Total(f, st, PiecesFrom(f, r, done + p.length), i)
  {
    hide Total;
    PositionSplit(r.offset + done, f.chunkSize);
    var p := PieceAt(f, r, done);
    TotalConcat(f, st, [p], PiecesFrom(f, r, done + p.length), i);
  }

  lemma {:induction false} PiecesTotal(f: Layout, st: Inode, ivs: seq<Interval>, r: Request, done: nat, i: nat)
    requires Inv(f, st) && RequestPlaced(ivs, r) && done <= r.length
    ensures r.interval != i ==> Total(f, st, PiecesFrom(f, r, done), i) == 0
    ensures r.interval == i ==>
              var total, want := Total(f, st, PiecesFrom(f, r, done), i),
                                 Below(st.size, r.offset + done, r.offset + r.length);
              total >= want &&
              (total == want <==> NoneStoredPastSize(f, st, r.offset + done, r.offset + r.length))
    decreases r.length - done
  {
    hide Delivered, Stored, Inv, Total, PieceAt, FilePos, RequestPlaced, Below;
    if done < r.length {
      var p := PieceAt(f, r, done);
      FirstPiece(f, st, r, done, i);
      PiecesTotal(f, st, ivs, r, done + p.length, i);
      TotalOne(f, st, p, i);
      DeliveredCount(f, st, p);
      BelowSplit(f, st, r.offset + done, r.offset + done + p.length, r.offset + r.length);
    } else {
      NothingRead(f, st, r, i);
    }
  }

  lemma NothingRead(f: Layout, st: Inode, r: Request, i: nat)
    ensures Total(f, st, PiecesFrom(f, r, r.length), i) == 0
    ensures Below(st.size, r.offset + r.length, r.offset + r.length) == 0
  {
  }

  lemma {:induction false} ReadTotal(f: Layout, st: Inode, ivs: seq<Interval>, n: nat, i: nat)
    requires Inv(f, st) && n <= |ivs|
    ensures i >= n ==> Total(f, st, ReadPieces(f, ivs[..n]), i) == 0
    ensures i < n ==>
              var total, from, to := Total(f, st, ReadPieces(f, ivs[..n]), i), ivs[i].offset, ivs[i].offset + ivs[i].length;
              total >= Below(st.size, from, to) &&
              (total == Below(st.size, from, to) <==> NoneStoredPastSize(f, st, from, to))
  {
    if n > 0 {
      var front, r := ivs[..n - 1], Request(n - 1, 0, ivs[n - 1].offset, ivs[n - 1].length);
      assert ivs[..n][..n - 1] == front;
      ReadTotal(f, st, ivs, n - 1, i);
      PiecesTotal(f, st, ivs, r, 0, i);
      assert InodeParts(0, ivs[..n]) == InodeParts(0, front) + [r];
      assert (InodeParts(0, front) + [r])[..|InodeParts(0, front)|] == InodeParts(0, front);
      TotalConcat(f, st, ReadPieces(f, front), PiecesFrom(f, r, 0), i);
    }
  }

  lemma {:induction false} CoveredBySome(ps: seq<Piece>, i: nat, j: nat)
    requires Cover(ps, i, j) > 0
    ensures exists p :: p in ps && Covers(p, i, j)
  {
    if !Covers(ps[|ps| - 1], i, j) {
      CoveredBySome(ps[..|ps| - 1], i, j);
    }
  }

  lemma ReadPiecesPlaced(f: Layout, ivs: seq<Interval>)
    ensures AllPlacedIn(f, ivs, ReadPieces(f, ivs))
  {
    PartsPlaced(0, ivs, |ivs|);
    assert ivs[..|ivs|] == ivs;
    AllPlaced(f, ivs, InodeParts(0, ivs));
  }

  /** Every requested byte below the size is delivered. */
  lemma RequestedIsFilled(f: Layout, st: Inode, ivs: seq<Interval>, i: nat, j: nat)
    requires Inv(f, st) && i < |ivs| && j < ivs[i].length && ivs[i].offset + j < st.size
    ensures Filled(f, st, ReadPieces(f, ivs), i, j)
  {
    var ps := ReadPieces(f, ivs);
    ReadIsTiled(f, 0, ivs, i, j);
    CoveredBySome(ps, i, j);
    var p :| p in ps && Covers(p, i, j);
    assert Placed(f, ivs, p);
    hide Inv, Delivered, Covers;
    DeliveredCount(f, st, p);
  }

  /** Only requested bytes are delivered, and past the size only stored ones. */
  lemma FilledIsRequested(f: Layout, st: Inode, ivs: seq<Interval>, i: nat, j: nat)
    requires Inv(f, st) && i < |ivs| && Filled(f, st, ReadPieces(f, ivs), i, j)
    ensures j < ivs[i].length
    ensures NoneStoredPastSize(f, st, ivs[i].offset, ivs[i].offset + ivs[i].length) ==> ivs[i].offset + j < st.size
  {
    var ps := ReadPieces(f, ivs);
    ReadPiecesPlaced(f, ivs);
    var p :| p in ps && Covers(p, i, j) && j < p.bufPos + |Delivered(f, st, p)|;
    assert Placed(f, ivs, p);
    hide Inv, Delivered;
    DeliveredCount(f, st, p);
  }

  /** Byte j of the buffer for interval i once every piece has been delivered. */
  lemma ReadByte(f: Layout, st: Inode, ivs: seq<Interval>, m: Memory, i: nat, j: nat)
    requires Inv(f, st) && Roomy(m, ivs) && AllPlacedIn(f, ivs, ReadPieces(f, ivs)) && i < |ivs| && j < |m.bufs[i]|
    ensures var after, pos := DeliverAll(f, st, ivs, m, ReadPieces(f, ivs)), ivs[i].offset + j;
            && (j < ivs[i].length && pos < st.size ==> after.bufs[i][j] == Flat(f, st)[pos])
            && (j >= ivs[i].length ==> after.bufs[i][j] == m.bufs[i][j])
            && (NoneStoredPastSize(f, st, ivs[i].offset, ivs[i].offset + ivs[i].length) && pos >= st.size ==>
                  after.bufs[i][j] == m.bufs[i][j])
  {
    var all := ReadPieces(f, ivs);
    DeliveredContents(f, st, ivs, m, all, i, j);
    hide Inv, ByteAt, Filled, ReadPieces, NoneStoredPastSize, DeliverAll, AllPlacedIn;
    if j < ivs[i].length && ivs[i].offset + j < st.size {
      RequestedIsFilled(f, st, ivs, i, j);
    } else if Filled(f, st, all, i, j) {
      FilledIsRequested(f, st, ivs, i, j);
    }
  }

  /** How many bytes the read of interval i reports. */
  lemma ReadCount(f: Layout, st: Inode, ivs: seq<Interval>, m: Memory, i: nat)
    requires Inv(f, st) && Roomy(m, ivs) && AllPlacedIn(f, ivs, ReadPieces(f, ivs)) && i < |ivs|
    ensures var from, to := ivs[i].offset, ivs[i].offset + ivs[i].length;
            DeliverAll(f, st, ivs, m, ReadPieces(f, ivs)).rets[i] == m.rets[i] + Below(st.size, from, to) <==>
            NoneStoredPastSize(f, st, from, to)
  {
    assert ivs[..|ivs|] == ivs;
    ReadTotal(f, st, ivs, |ivs|, i);
    DeliveredTotals(f, st, ivs, m, ReadPieces(f, ivs), i);
    hide Inv, ReadPieces, NoneStoredPastSize, Total, DeliverAll, AllPlacedIn;
  }

  /**
   A vector read, its chunk reads completing in any order: every buffer holds
   the file's bytes for the part of its interval below the size and is
   untouched past the interval; the return value is the number of bytes below
   the size exactly when no chunk stores padding inside the interval past the
   size, which is always so in an unaligned pool.
   */
  lemma ReadDelivers(f: Layout, st: Inode, ivs: seq<Interval>, m: Memory, ps: seq<Piece>, i: nat)
    requires Inv(f, st) && Roomy(m, ivs) && i < |ivs|
    requires multiset(ps) == multiset(ReadPieces(f, ivs))
    ensures AllPlacedIn(f, ivs, ps)
    ensures var from, to := ivs[i].offset, ivs[i].offset + ivs[i].length;
            var n, after := Below(st.size, from, to), DeliverAll(f, st, ivs, m, ps);
            && (forall j :: 0 <= j < n ==> after.bufs[i][j] == Flat(f, st)[from + j])
            && after.bufs[i][ivs[i].length..] == m.bufs[i][ivs[i].length..]
            && (after.rets[i] == m.rets[i] + n <==> NoneStoredPastSize(f, st, from, to))
            && (NoneStoredPastSize(f, st, from, to) ==> after.bufs[i][n..] == m.bufs[i][n..])
            && (!f.aligned ==> NoneStoredPastSize(f, st, from, to))
  {
    hide Inv, ReadPieces, NoneStoredPastSize, AllPlacedIn, DeliverAll, ByteAt;
    var all, from, to := ReadPieces(f, ivs), ivs[i].offset, ivs[i].offset + ivs[i].length;
    ReadPiecesPlaced(f, ivs);
    CompletionOrderIrrelevant(f, st, ivs, m, all, ps);
    ReadCount(f, st, ivs, m, i);
    if !f.aligned {
      InPlaceStoresNoPadding(f, st, from, to);
    }
    forall j: nat | j < |m.bufs[i]|
      ensures var after := DeliverAll(f, st, ivs, m, all);
              && (j < ivs[i].length && from + j < st.size ==> after.bufs[i][j] == Flat(f, st)[from + j])
              && (j >= ivs[i].length ==> after.bufs[i][j] == m.bufs[i][j])
              && (NoneStoredPastSize(f, st, from, to) && from + j >= st.size ==> after.bufs[i][j] == m.bufs[i][j])
    {
      ReadByte(f, st, ivs, m, i, j);
    }
  }

  /**
   Writes, truncates, removes and reads together, in an unaligned pool: after
   any run of which no truncate loses data, a vector read whose chunk reads
   complete in any order returns, for each interval, exactly the part of the
   flat file inside it, and its length.
   */
  lemma ReadAfterAnyRun(f: Layout, poolSize: nat, ops: seq<Op>, ivs: seq<Interval>, m: Memory, ps: seq<Piece>, i: nat)
    requires !f.aligned && Roomy(m, ivs) && i < |ivs| && multiset(ps) == multiset(ReadPieces(f, ivs))
    requires forall k :: 0 <= k < |ops| ==> HarmlessAt(f, poolSize, ops, k)
    ensures AllPlacedIn(f, ivs, ps)
    ensures var flat, from, after := FlatRun(poolSize, ops), ivs[i].offset, DeliverAll(f, Run(f, poolSize, ops), ivs, m, ps);
            var n := Below(|flat|, from, from + ivs[i].length);
            && after.rets[i] == m.rets[i] + n
            && (forall j :: 0 <= j < n ==> after.bufs[i][j] == flat[from + j])
            && after.bufs[i][n..] == m.bufs[i][n..]
  {
    hide Inv, ReadPieces, NoneStoredPastSize, AllPlacedIn, DeliverAll, ByteAt, Run, FlatRun, HarmlessAt;
    HarmlessRefines(f, poolSize, ops, |ops|);
    assert ops[..|ops|] == ops;
    ReadDelivers(f, Run(f, poolSize, ops), ivs, m, ps, i);
  }

  // ----- aligned pools -----

  /** Whether the run leaves an inode: some accepted operation came after the last remove. */
  predicate Exists(poolSize: nat, ops: seq<Op>) {
    ops != [] &&
    if Accepted(poolSize, ops[|ops| - 1]) then !ops[|ops| - 1].RemoveOp?
    else Exists(poolSize, ops[..|ops| - 1])
  }

  /** In an aligned pool: the end of the chunk that holds the last byte, or 0 without an inode. */
  function StoredEnd(f: Layout, present: bool, size: nat): nat {
    if present then (LastChunk(f, size) + 1) * f.chunkSize else 0
  }

  ghost predicate LastStoredWhole(f: Layout, st: Inode) {
    LastChunk(f, st.size) in st.chunks && |st.chunks[LastChunk(f, st.size)]| == f.chunkSize
  }

  lemma WriteStoresLast(f: Layout, st: Inode, offset: nat, data: seq<Byte>)
    requires f.aligned && Inv(f, st) && |data| > 0 && offset + |data| < TWO_TO_THE_32
    requires st.chunks != map[] ==> LastStoredWhole(f, st)
    ensures LastStoredWhole(f, Write(f, st, offset, data))
  {
    hide PutPart, Put;
    var st' := Write(f, st, offset, data);
    var last := LastChunk(f, st'.size);
    if Touched(f, offset, |data|, last) {
      TouchedRange(f, offset, |data|, last);
    } else {
      FirstBeforeLast(f, offset, |data|);
    }
  }

  lemma FirstBeforeLast(f: Layout, offset: nat, len: nat)
    requires len > 0
    ensures Touched(f, offset, len, LastChunk(f, offset + len))
  {
    InChunk(offset, LastChunk(f, offset + len), f.chunkSize);
    NewLastChunk(f, offset + len);
    InChunk(offset, LastChunk(f, offset + len) + 1, f.chunkSize);
  }

  lemma TruncateStoresLast(f: Layout, st: Inode, n: nat)
    requires f.aligned && Shape(f, st) && n < TWO_TO_THE_32
    ensures LastStoredWhole(f, Truncate(f, st, n))
  {
    hide Put, LastChunk;
  }

  /** After any run that fits, the chunk with the last byte is stored whole, if there is an inode. */
  lemma {:induction false} RunStoresLast(f: Layout, poolSize: nat, ops: seq<Op>)
    requires f.aligned && forall k :: 0 <= k < |ops| ==> Fits(poolSize, ops[k])
    ensures var st := Run(f, poolSize, ops);
            (st.chunks != map[] <==> Exists(poolSize, ops)) && (Exists(poolSize, ops) ==> LastStoredWhole(f, st))
  {
    hide Inv, Write, Truncate, Remove, LastStoredWhole;
    if ops != [] {
      var front, last := ops[..|ops| - 1], ops[|ops| - 1];
      var st := Run(f, poolSize, front);
      RunStoresLast(f, poolSize, front);
      RunStaysSound(f, poolSize, front);
      if Accepted(poolSize, last) {
        match last
        case WriteOp(offset, data) =>
          WriteStoresLast(f, st, offset, data);
          WholeIsThere(f, Write(f, st, offset, data));
        case TruncateOp(size) =>
          TruncateStoresLast(f, st, size);
          WholeIsThere(f, Truncate(f, st, size));
        case RemoveOp => RemoveDeletesEverything(f, st);
      }
    }
  }

  lemma WholeIsThere(f: Layout, st: Inode)
    requires LastStoredWhole(f, st)
    ensures st.chunks != map[]
  {
  }

  /** Past the size, the chunk objects hold exactly the positions below e. */
  ghost predicate StoredTo(f: Layout, st: Inode, e: nat) {
    st.size <= e && forall pos: nat :: st.size <= pos ==> (Stored(f, st, pos) <==> pos < e)
  }

  lemma WholeIsStoredTo(f: Layout, st: Inode)
    requires f.aligned && Inv(f, st) && (st.chunks != map[] ==> LastStoredWhole(f, st))
    ensures StoredTo(f, st, StoredEnd(f, st.chunks != map[], st.size))
  {
    hide LastChunk, Stored, Inv, LastStoredWhole;
    NewLastChunk(f, st.size);
    LastChunkEnd(f, st.size);
    forall pos: nat | st.size <= pos
      ensures Stored(f, st, pos) <==> pos < StoredEnd(f, st.chunks != map[], st.size)
    {
      StoredInLast(f, st, pos);
    }
    EmptyHasNoSize(f, st);
  }

  lemma EmptyHasNoSize(f: Layout, st: Inode)
    requires Inv(f, st)
    ensures st.chunks == map[] ==> st.size == 0
  {
  }

  lemma LastChunkEnd(f: Layout, size: nat)
    ensures (LastChunk(f, size) + 1) * f.chunkSize == LastChunk(f, size) * f.chunkSize + f.chunkSize
  {
    hide LastChunk;
  }

  lemma StoredInLast(f: Layout, st: Inode, pos: nat)
    requires f.aligned && Inv(f, st) && (st.chunks != map[] ==> LastStoredWhole(f, st)) && st.size <= pos
    ensures Stored(f, st, pos) <==> st.chunks != map[] && pos < (LastChunk(f, st.size) + 1) * f.chunkSize
  {
    hide LastChunk, Inv;
    var last, c := LastChunk(f, st.size), pos / f.chunkSize;
    NewLastChunk(f, st.size);
    InChunk(pos, last, f.chunkSize);
    InChunk(pos, last + 1, f.chunkSize);
    if c in st.chunks {
      ChunksBeyondSize(f, st, c);
    }
  }

  lemma DeliveredTo(f: Layout, st: Inode, e: nat, p: Piece)
    requires Inv(f, st) && StoredTo(f, st, e) && p.offset + p.length <= f.chunkSize
    ensures |Delivered(f, st, p)| == Below(e, FilePos(f, p), FilePos(f, p) + p.length)
  {
    hide Inv, Stored, FilePos, Fetch;
    var start, n := FilePos(f, p), |Fetch(st, p)|;
    FillNeverUnderflows(f, st, p);
    if n > 0 {
      StoredInPiece(f, st, p, n - 1);
    }
    if n < p.length {
      StoredInPiece(f, st, p, n);
    }
    if start + n < st.size < start + p.length {
      StoredInPiece(f, st, p, st.size - start);
    }
  }

  lemma {:induction false} PiecesTo(f: Layout, st: Inode, e: nat, r: Request, done: nat, i: nat)
    requires Inv(f, st) && StoredTo(f, st, e) && done <= r.length
    ensures Total(f, st, PiecesFrom(f, r, done), i) ==
            if r.interval == i then Below(e, r.offset + done, r.offset + r.length) else 0
    decreases r.length - done
  {
    hide Delivered, StoredTo, Inv, Total, PieceAt, FilePos;
    if done < r.length {
      var p := PieceAt(f, r, done);
      FirstPiece(f, st, r, done, i);
      PiecesTo(f, st, e, r, done + p.length, i);
      TotalOne(f, st, p, i);
      DeliveredTo(f, st, e, p);
    } else {
      NothingRead(f, st, r, i);
    }
  }

  lemma {:induction false} ReadTo(f: Layout, st: Inode, e: nat, ivs: seq<Interval>, n: nat, i: nat)
    requires Inv(f, st) && StoredTo(f, st, e) && n <= |ivs|
    ensures Total(f, st, ReadPieces(f, ivs[..n]), i) ==
            if i < n then Below(e, ivs[i].offset, ivs[i].offset + ivs[i].length) else 0
  {
    if n > 0 {
      var front, r := ivs[..n - 1], Request(n - 1, 0, ivs[n - 1].offset, ivs[n - 1].length);
      assert ivs[..n][..n - 1] == front;
      ReadTo(f, st, e, ivs, n - 1, i);
      PiecesTo(f, st, e, r, 0, i);
      hide Inv, StoredTo, Total, Below;
      assert InodeParts(0, ivs[..n]) == InodeParts(0, front) + [r];
      assert (InodeParts(0, front) + [r])[..|InodeParts(0, front)|] == InodeParts(0, front);
      TotalConcat(f, st, ReadPieces(f, front), PiecesFrom(f, r, 0), i);
    }
  }

  /** Byte j of interval i is delivered exactly when it is requested and lies below e. */
  lemma FilledTo(f: Layout, st: Inode, e: nat, ivs: seq<Interval>, i: nat, j: nat)
    requires Inv(f, st) && StoredTo(f, st, e) && i < |ivs|
    ensures Filled(f, st, ReadPieces(f, ivs), i, j) <==> j < ivs[i].length && ivs[i].offset + j < e
  {
    hide Inv, StoredTo, Delivered;
    var ps := ReadPieces(f, ivs);
    ReadPiecesPlaced(f, ivs);
    if Filled(f, st, ps, i, j) {
      var p :| p in ps && Covers(p, i, j) && j < p.bufPos + |Delivered(f, st, p)|;
      assert Placed(f, ivs, p);
      DeliveredTo(f, st, e, p);
    }
    if j < ivs[i].length && ivs[i].offset + j < e {
      ReadIsTiled(f, 0, ivs, i, j);
      CoveredBySome(ps, i, j);
      var p :| p in ps && Covers(p, i, j);
      assert Placed(f, ivs, p);
      DeliveredTo(f, st, e, p);
    }
  }

  /** A vector read of a file stored up to e returns that part of each interval, zeros from the size on. */
  lemma ReadDeliversTo(f: Layout, st: Inode, e: nat, ivs: seq<Interval>, m: Memory, ps: seq<Piece>, i: nat)
    requires Inv(f, st) && StoredTo(f, st, e) && Roomy(m, ivs) && i < |ivs|
    requires multiset(ps) == multiset(ReadPieces(f, ivs))
    ensures AllPlacedIn(f, ivs, ps)
    ensures var from, after := ivs[i].offset, DeliverAll(f, st, ivs, m, ps);
            var n := Below(e, from, from + ivs[i].length);
            && after.rets[i] == m.rets[i] + n
            && (forall j :: 0 <= j < n ==> after.bufs[i][j] == ByteIn(Flat(f, st), from + j))
            && after.bufs[i][n..] == m.bufs[i][n..]
  {
    hide Inv, ReadPieces, StoredTo, AllPlacedIn, DeliverAll, ByteAt, Filled, Total;
    var all := ReadPieces(f, ivs);
    ReadPiecesPlaced(f, ivs);
    CompletionOrderIrrelevant(f, st, ivs, m, all, ps);
    assert ivs[..|ivs|] == ivs;
    ReadTo(f, st, e, ivs, |ivs|, i);
    DeliveredTotals(f, st, ivs, m, all, i);
    forall j: nat | j < |m.bufs[i]|
      ensures DeliverAll(f, st, ivs, m, all).bufs[i][j] ==
              if j < ivs[i].length && ivs[i].offset + j < e then ByteIn(Flat(f, st), ivs[i].offset + j) else m.bufs[i][j]
    {
      DeliveredContents(f, st, ivs, m, all, i, j);
      FilledTo(f, st, e, ivs, i, j);
      if ivs[i].offset + j >= st.size {
        NothingPastSize(f, st, ivs[i].offset + j);
      }
    }
  }

  /**
   The same in an aligned pool: a read goes on, with zeros, to the end of the
   chunk of the last byte, so the count is the flat file's exactly when the
   interval is empty, does not go past the size, starts at or past that end, or
   the size is that end or there is no inode.
   */
  lemma AlignedReadAfterAnyRun(f: Layout, poolSize: nat, ops: seq<Op>, ivs: seq<Interval>, m: Memory, ps: seq<Piece>, i: nat)
    requires f.aligned && Roomy(m, ivs) && i < |ivs| && multiset(ps) == multiset(ReadPieces(f, ivs))
    requires forall k :: 0 <= k < |ops| ==> HarmlessAt(f, poolSize, ops, k)
    ensures AllPlacedIn(f, ivs, ps)
    ensures var flat, after := FlatRun(poolSize, ops), DeliverAll(f, Run(f, poolSize, ops), ivs, m, ps);
            var from, to, e := ivs[i].offset, ivs[i].offset + ivs[i].length, StoredEnd(f, Exists(poolSize, ops), |flat|);
            var n := Below(e, from, to);
            && after.rets[i] == m.rets[i] + n
            && (forall j :: 0 <= j < n ==> after.bufs[i][j] == ByteIn(flat, from + j))
            && after.bufs[i][n..] == m.bufs[i][n..]
            && (n == Below(|flat|, from, to) <==> from == to || to <= |flat| || from >= e || |flat| == e)
  {
    hide Inv, ReadPieces, StoredTo, AllPlacedIn, DeliverAll, ByteAt, Run, FlatRun, HarmlessAt, LastStoredWhole, StoredEnd;
    var st := Run(f, poolSize, ops);
    HarmlessRefines(f, poolSize, ops, |ops|);
    assert ops[..|ops|] == ops;
    forall k | 0 <= k < |ops| ensures Fits(poolSize, ops[k]) {
      HarmlessFits(f, poolSize, ops, k);
    }
    RunStoresLast(f, poolSize, ops);
    WholeIsStoredTo(f, st);
    ReadDeliversTo(f, st, StoredEnd(f, st.chunks != map[], st.size), ivs, m, ps, i);
    StoredPastSize(f, st, StoredEnd(f, st.chunks != map[], st.size));
  }

  lemma HarmlessFits(f: Layout, poolSize: nat, ops: seq<Op>, k: nat)
    requires k < |ops| && HarmlessAt(f, poolSize, ops, k)
    ensures Fits(poolSize, ops[k])
  {
  }

  lemma StoredPastSize(f: Layout, st: Inode, e: nat)
    requires StoredTo(f, st, e)
    ensures st.size <= e
  {
  }

  /** A three-byte file in an aligned pool reads as a whole chunk of eight bytes. */
  lemma AlignedReadReturnsPadding()
    ensures var f := Layout(8, true);
            var st := Inode(map[0 := [7, 7, 7, 0, 0, 0, 0, 0]], 3);
            Inv(f, st) && |Delivered(f, st, Piece(0, 0, 0, 0, 8))| == 8 > Below(st.size, 0, 8)
  {
    assert 0 in map[0 := [7, 7, 7, 0, 0, 0, 0, 0]];
  }

  // ----- the callbacks -----

  class ReadOp {
    var bufs: seq<seq<Byte>>
    var rets: seq<int>

    ghost function Mem(): Memory
      reads this
    {
      Memory(bufs, rets)
    }

    constructor (bufs: seq<seq<Byte>>, rets: seq<int>)
      ensures Mem() == Memory(bufs, rets)
    {
      this.bufs, this.rets := bufs, rets;
    }

    /** One turn of the loop in onReadCompleted, with assignRemainingReadData. */
    method CompletePiece(f: Layout, st: Inode, ghost ivs: seq<Interval>, p: Piece)
      requires Inv(f, st) && Roomy(Mem(), ivs) && Placed(f, ivs, p)
      modifies this
      ensures Mem() == Deliver(f, st, old(Mem()), p)
    {
      hide Inv, Fetch, Replace, Deliver, FilePos, Placed;
      PlacedRoom(f, ivs, Mem(), p);
      CopiedInTwoSteps(f, st, Mem(), p);
      FillNeverUnderflows(f, st, p);
      var got := Fetch(st, p);
      var buff, ret := bufs[p.interval], rets[p.interval];
      if |got| > 0 {
        buff := Replace(buff, p.bufPos, got);
        ret := ret + |got|;
      }
      if |got| < p.length {
        var byteOffset := FilePos(f, p);
        if st.size > 0 && byteOffset < st.size {
          var length: nat := Min(p.length, st.size - byteOffset) - |got|;
          buff := Replace(buff, p.bufPos + |got|, Zeros(length));
          ret := ret + length;
        }
      }
      bufs, rets := bufs[p.interval := buff], rets[p.interval := ret];
    }

    /** onReadCompleted: copies what each read returned and fills up with null bytes. */
    method OnReadCompleted(f: Layout, st: Inode, ghost ivs: seq<Interval>, pieces: seq<Piece>)
      requires Inv(f, st) && Roomy(Mem(), ivs) && AllPlacedIn(f, ivs, pieces)
      modifies this
      ensures Mem() == DeliverAll(f, st, ivs, old(Mem()), pieces)
    {
      hide Deliver, Inv, Placed;
      ghost var m := Mem();
      for k := 0 to |pieces|
        invariant Mem() == DeliverAll(f, st, ivs, m, pieces[..k])
      {
        assert pieces[k] in pieces;
        CompletePiece(f, st, ivs, pieces[k]);
        assert pieces[..k + 1][..k] == pieces[..k];
      }
      assert pieces[..|pieces|] == pieces;
    }
  }

  lemma PlacedRoom(f: Layout, ivs: seq<Interval>, m: Memory, p: Piece)
    requires Roomy(m, ivs) && Placed(f, ivs, p)
    ensures p.interval < |m.bufs| == |m.rets| && p.bufPos + p.length <= |m.bufs[p.interval]|
    ensures p.offset + p.length <= f.chunkSize
  {
  }

  lemma CopiedInTwoSteps(f: Layout, st: Inode, m: Memory, p: Piece)
    requires p.interval < |m.bufs| == |m.rets| && p.bufPos + p.length <= |m.bufs[p.interval]|
    ensures var i, got, fill := p.interval, Fetch(st, p), Max(0, FillLength(f, st, p));
            var copied := if got == [] then m.bufs[i] else Replace(m.bufs[i], p.bufPos, got);
            var filled := Replace(copied, p.bufPos + |got|, Zeros(fill));
            && |copied| == |m.bufs[i]| && (fill == 0 ==> filled == copied)
            && Deliver(f, st, m, p) == Memory(m.bufs[i := filled], m.rets[i := m.rets[i] + |got| + fill])
  {
    hide Fetch, FillLength, Replace, Zeros, FilePos;
    var i, got, fill := p.interval, Fetch(st, p), Max(0, FillLength(f, st, p));
    DeliveredParts(f, st, p);
    ReplaceInTwoSteps(m.bufs[i], p.bufPos, got, Zeros(fill));
    assert |Delivered(f, st, p)| == |got| + fill;
  }

  lemma DeliveredParts(f: Layout, st: Inode, p: Piece)
    ensures Delivered(f, st, p) == Fetch(st, p) + Zeros(Max(0, FillLength(f, st, p)))
  {
    hide Fetch, FillLength, Zeros;
  }

  lemma ReplaceInTwoSteps(s: seq<Byte>, at: nat, a: seq<Byte>, b: seq<Byte>)
    requires at + |a| + |b| <= |s|
    ensures var copied := if a == [] then s else Replace(s, at, a);
            |copied| == |s| && Replace(s, at, a + b) == Replace(copied, at + |a|, b) &&
            (b == [] ==> Replace(copied, at + |a|, b) == copied)
  {
    hide Replace;
    var copied := if a == [] then s else Replace(s, at, a);
    assert Replace(s, at, a + b) == Replace(copied, at + |a|, b);
  }

  lemma {:induction false} InChunkOnlyCounts(ps: seq<Piece>, c: nat, p: Piece)
    ensures multiset(InChunkOnly(ps, c))[p] == if p.chunk == c then multiset(ps)[p] else 0
  {
    if ps != [] {
      InChunkOnlyCounts(ps[..|ps| - 1], c, p);
      assert ps == ps[..|ps| - 1] + [ps[|ps| - 1]];
    }
  }

  /** The chunk callbacks of one read, run in an order chosen freely. */
  method RunCallbacks(op: ReadOp, f: Layout, st: Inode, ghost ivs: seq<Interval>, perChunk: map<nat, seq<Piece>>,
                      ghost all: seq<Piece>) returns (ghost done: seq<Piece>)
    requires Inv(f, st) && Roomy(op.Mem(), ivs) && AllPlacedIn(f, ivs, all) && Grouped(perChunk, all)
    modifies op
    ensures multiset(done) == multiset(all) && AllPlacedIn(f, ivs, done)
    ensures op.Mem() == DeliverAll(f, st, ivs, old(op.Mem()), done)
  {
    hide Inv, DeliverAll, AllPlacedIn, DoneSoFar, Grouped;
    ghost var m := op.Mem();
    var todo := perChunk.Keys;
    done := [];
    NothingDone(f, st, ivs, m, all);
    assert perChunk.Keys - todo == {};
    while todo != {}
      invariant todo <= perChunk.Keys
      invariant DoneSoFar(all, done, perChunk.Keys - todo)
      invariant AllPlacedIn(f, ivs, done) && op.Mem() == DeliverAll(f, st, ivs, m, done)
      decreases |todo|
    {
      var chunk :| chunk in todo;
      OneChunkMore(f, ivs, all, done, perChunk.Keys - todo, chunk);
      GroupOf(perChunk, all, chunk);
      op.OnReadCompleted(f, st, ivs, perChunk[chunk]);
      DeliverAllConcat(f, st, ivs, m, done, perChunk[chunk]);
      done := done + perChunk[chunk];
      assert perChunk.Keys - (todo - {chunk}) == perChunk.Keys - todo + {chunk};
      todo := todo - {chunk};
    }
    assert perChunk.Keys - todo == perChunk.Keys;
    GroupsHoldAll(perChunk, all);
    SamePieces(all, done, perChunk.Keys);
  }

  lemma NothingDone(f: Layout, st: Inode, ivs: seq<Interval>, m: Memory, all: seq<Piece>)
    requires Roomy(m, ivs)
    ensures DoneSoFar(all, [], {}) && AllPlacedIn(f, ivs, []) && DeliverAll(f, st, ivs, m, []) == m
  {
  }

  lemma GroupOf(perChunk: map<nat, seq<Piece>>, all: seq<Piece>, c: nat)
    requires Grouped(perChunk, all) && c in perChunk
    ensures perChunk[c] == InChunkOnly(all, c)
  {
  }

  lemma GroupsHoldAll(perChunk: map<nat, seq<Piece>>, all: seq<Piece>)
    requires Grouped(perChunk, all)
    ensures forall p :: p in all ==> p.chunk in perChunk.Keys
  {
  }

  /** The delivered pieces are all the pieces of the chunks that have completed. */
  ghost predicate DoneSoFar(all: seq<Piece>, done: seq<Piece>, chunks: set<nat>) {
    forall p: Piece :: multiset(done)[p] == if p.chunk in chunks then multiset(all)[p] else 0
  }

  lemma OneChunkMore(f: Layout, ivs: seq<Interval>, all: seq<Piece>, done: seq<Piece>, chunks: set<nat>, c: nat)
    requires DoneSoFar(all, done, chunks) && c !in chunks && AllPlacedIn(f, ivs, all)
    ensures DoneSoFar(all, done + InChunkOnly(all, c), chunks + {c})
    ensures AllPlacedIn(f, ivs, InChunkOnly(all, c))
  {
    var ps := InChunkOnly(all, c);
    forall p: Piece ensures multiset(done + ps)[p] == if p.chunk in chunks + {c} then multiset(all)[p] else 0 {
      InChunkOnlyCounts(all, c, p);
    }
    forall p | p in ps ensures Placed(f, ivs, p) {
      InChunkOnlyCounts(all, c, p);
      assert p in multiset(ps);
      assert p in multiset(all);
    }
  }

  /** A read of several intervals of an inode without inline buffer. */
  method ReadVector(f: Layout, st: Inode, ivs: seq<Interval>, bufs: seq<seq<Byte>>) returns (op: ReadOp)
    requires Inv(f, st) && |bufs| == |ivs|
    requires forall i :: 0 <= i < |ivs| ==> |bufs[i]| >= ivs[i].length
    ensures |op.bufs| == |op.rets| == |ivs|
    ensures forall i :: 0 <= i < |ivs| ==> ReadInto(f, st, ivs[i], bufs[i], op.bufs[i], op.rets[i])
  {
    op := new ReadOp(bufs, seq(|ivs|, _ => 0));
    ghost var m := op.Mem();
    var inlineData, inodeData := GetInlineAndInodeReadData(0, ivs);
    var perChunk := GetReadDataPerChunk(f, inodeData);
    ReadPiecesPlaced(f, ivs);
    ghost var done := RunCallbacks(op, f, st, ivs, perChunk, ReadPieces(f, ivs));
    forall i | 0 <= i < |ivs| ensures ReadInto(f, st, ivs[i], bufs[i], op.bufs[i], op.rets[i]) {
      ReadDelivers(f, st, ivs, m, done, i);
    }
  }

  /**
   The outcome promised for one interval: the file's bytes below the size, and
   in an unaligned pool their exact number and nothing else written.
   */
  ghost predicate ReadInto(f: Layout, st: Inode, iv: Interval, buf: seq<Byte>, buf': seq<Byte>, ret: int) {
    var n := Below(st.size, iv.offset, iv.offset + iv.length);
    && |buf'| == |buf| && n <= |buf| && iv.length <= |buf|
    && (forall j :: 0 <= j < n ==> buf'[j] == Flat(f, st)[iv.offset + j])
    && (ret == n <==> NoneStoredPastSize(f, st, iv.offset, iv.offset + iv.length))
    && (ret == n ==> buf'[n..] == buf[n..])
    && buf'[iv.length..] == buf[iv.length..]
    && (!f.aligned ==> ret == n)
  }

  lemma SamePieces(all: seq<Piece>, done: seq<Piece>, chunks: set<nat>)
    requires forall p :: p in all ==> p.chunk in chunks
    requires DoneSoFar(all, done, chunks)
    ensures multiset(done) == multiset(all)
  {
    forall p: Piece ensures multiset(done)[p] == multiset(all)[p] {
      if p.chunk !in chunks {
        assert p !in all;
        assert p !in multiset(all);
      }
    }
  }
}
