/**
 Vector reads: every requested interval is split at the inline buffer's end
 and then at chunk borders, the chunks are read independently, and their
 callbacks fill the caller's buffers in whatever order they arrive.
 */
module VectorRead {
  import opened ChunkStore

  datatype Interval = Interval(offset: nat, length: nat)

  /** Part of interval number `interval`: its place in the caller's buffer and in the file. */
  datatype Request = Request(interval: nat, bufPos: nat, offset: nat, length: nat)

  /** A request that lies inside one chunk; `offset` counts from the chunk's start. */
  datatype Piece = Piece(interval: nat, bufPos: nat, chunk: nat, offset: nat, length: nat)

  // ----- splitting at the inline buffer -----

  function InlinePart(cap: nat, i: nat, iv: Interval): seq<Request> {
    if iv.offset >= cap then []
    else if iv.offset + iv.length > cap then [Request(i, 0, iv.offset, cap - iv.offset)]
    else [Request(i, 0, iv.offset, iv.length)]
  }

  function InodePart(cap: nat, i: nat, iv: Interval): seq<Request> {
    if iv.offset >= cap then [Request(i, 0, iv.offset, iv.length)]
    else if iv.offset + iv.length > cap then
      [Request(i, cap - iv.offset, cap, iv.length - (cap - iv.offset))]
    else []
  }

  function InlineParts(cap: nat, ivs: seq<Interval>): seq<Request> {
    if ivs == [] then []
    else InlineParts(cap, ivs[..|ivs| - 1]) + InlinePart(cap, |ivs| - 1, ivs[|ivs| - 1])
  }

  function InodeParts(cap: nat, ivs: seq<Interval>): seq<Request> {
    if ivs == [] then []
    else InodeParts(cap, ivs[..|ivs| - 1]) + InodePart(cap, |ivs| - 1, ivs[|ivs| - 1])
  }

  /** getInlineAndInodeReadData; a capacity of 0 stands for no inline buffer. */
  method GetInlineAndInodeReadData(cap: nat, ivs: seq<Interval>)
    returns (inlineData: seq<Request>, inodeData: seq<Request>)
    ensures inlineData == InlineParts(cap, ivs) && inodeData == InodeParts(cap, ivs)
  {
    inlineData, inodeData := [], [];
    for i := 0 to |ivs|
      invariant inlineData == InlineParts(cap, ivs[..i]) && inodeData == InodeParts(cap, ivs[..i])
    {
      var iv := ivs[i];
      if iv.offset < cap {
        if iv.offset + iv.length > cap {
          var inlineLength := cap - iv.offset;
          inlineData := inlineData + [Request(i, 0, iv.offset, inlineLength)];
          inodeData := inodeData + [Request(i, inlineLength, iv.offset + inlineLength, iv.length - inlineLength)];
        } else {
          inlineData := inlineData + [Request(i, 0, iv.offset, iv.length)];
        }
      } else {
        inodeData := inodeData + [Request(i, 0, iv.offset, iv.length)];
      }
      assert ivs[..i + 1][..i] == ivs[..i];
    }
    assert ivs[..|ivs|] == ivs;
  }

  // ----- splitting at chunk borders -----

  function PieceAt(f: Layout, r: Request, done: nat): Piece
    requires done < r.length
  {
    var pos := r.offset + done;
    PositionSplit(pos, f.chunkSize);
    Piece(r.interval, r.bufPos + done, pos / f.chunkSize, pos % f.chunkSize,
          Min(f.chunkSize - pos % f.chunkSize, r.length - done))
  }

  function PiecesFrom(f: Layout, r: Request, done: nat): seq<Piece>
    requires done <= r.length
    decreases r.length - done
  {
    if done == r.length then [] else
      var p := PieceAt(f, r, done);
      PositionSplit(r.offset + done, f.chunkSize);
      [p] + PiecesFrom(f, r, done + p.length)
  }

  function PiecesOf(f: Layout, rs: seq<Request>): seq<Piece> {
    if rs == [] then [] else PiecesOf(f, rs[..|rs| - 1]) + PiecesFrom(f, rs[|rs| - 1], 0)
  }

  function InChunkOnly(ps: seq<Piece>, c: nat): seq<Piece> {
    if ps == [] then []
    else InChunkOnly(ps[..|ps| - 1], c) + if ps[|ps| - 1].chunk == c then [ps[|ps| - 1]] else []
  }

  /** The pieces grouped by chunk, each group in request order. */
  ghost predicate Grouped(m: map<nat, seq<Piece>>, ps: seq<Piece>) {
    && (forall p :: p in ps ==> p.chunk in m)
    && (forall c :: c in m ==> m[c] == InChunkOnly(ps, c) != [])
  }

  lemma GroupedOneMore(m: map<nat, seq<Piece>>, ps: seq<Piece>, p: Piece)
    requires Grouped(m, ps)
    ensures Grouped(m[p.chunk := (if p.chunk in m then m[p.chunk] else []) + [p]], ps + [p])
  {
    assert (ps + [p])[..|ps|] == ps;
    if p.chunk !in m {
      NoneInChunk(ps, p.chunk);
    }
  }

  lemma {:induction false} NoneInChunk(ps: seq<Piece>, c: nat)
    requires forall p :: p in ps ==> p.chunk != c
    ensures InChunkOnly(ps, c) == []
  {
    if ps != [] {
      NoneInChunk(ps[..|ps| - 1], c);
    }
  }

  /** The inner loop of getReadDataPerChunk: one request, chunk by chunk. */
  method SplitRequest(f: Layout, r: Request, m0: map<nat, seq<Piece>>, ghost before: seq<Piece>)
    returns (m: map<nat, seq<Piece>>)
    requires Grouped(m0, before)
    ensures Grouped(m, before + PiecesFrom(f, r, 0))
  {
    hide Grouped;
    m := m0;
    var chunkIndex, localOffset := r.offset / f.chunkSize, r.offset % f.chunkSize;
    var originalLength := r.length;
    var remainingLength: nat := originalLength;
    ghost var ps := before;
    while remainingLength > 0
      invariant remainingLength <= originalLength
      invariant remainingLength > 0 ==>
                  var pos := r.offset + originalLength - remainingLength;
                  chunkIndex == pos / f.chunkSize && localOffset == pos % f.chunkSize
      invariant Grouped(m, ps)
      invariant ps + PiecesFrom(f, r, originalLength - remainingLength) == before + PiecesFrom(f, r, 0)
    {
      ghost var done := originalLength - remainingLength;
      var data := Piece(r.interval, r.bufPos + originalLength - remainingLength, chunkIndex, localOffset,
                        Min(f.chunkSize - localOffset, remainingLength));
      OnePiece(f, r, done, data);
      GroupedOneMore(m, ps, data);
      m := m[chunkIndex := (if chunkIndex in m then m[chunkIndex] else []) + [data]];
      assert ps + ([data] + PiecesFrom(f, r, done + data.length)) == (ps + [data]) + PiecesFrom(f, r, done + data.length);
      ps := ps + [data];
      chunkIndex := chunkIndex + 1;
      remainingLength := remainingLength - data.length;
      localOffset := 0;
    }
    assert ps + [] == ps;
  }

  lemma OnePiece(f: Layout, r: Request, done: nat, data: Piece)
    requires done < r.length
    requires data == Piece(r.interval, r.bufPos + done, (r.offset + done) / f.chunkSize,
                           (r.offset + done) % f.chunkSize,
                           Min(f.chunkSize - (r.offset + done) % f.chunkSize, r.length - done))
    ensures 0 < data.length <= r.length - done
    ensures PiecesFrom(f, r, done) == [data] + PiecesFrom(f, r, done + data.length)
    ensures done + data.length < r.length ==>
              (r.offset + done + data.length) / f.chunkSize == data.chunk + 1 &&
              (r.offset + done + data.length) % f.chunkSize == 0
  {
    PositionSplit(r.offset + done, f.chunkSize);
    if done + data.length < r.length {
      NextPosition(f, r.offset + done);
    }
  }

  /** getReadDataPerChunk. */
  method GetReadDataPerChunk(f: Layout, rs: seq<Request>) returns (m: map<nat, seq<Piece>>)
    ensures Grouped(m, PiecesOf(f, rs))
  {
    m := map[];
    for i := 0 to |rs|
      invariant Grouped(m, PiecesOf(f, rs[..i]))
    {
      m := SplitRequest(f, rs[i], m, PiecesOf(f, rs[..i]));
      assert rs[..i + 1][..i] == rs[..i];
    }
    assert rs[..|rs|] == rs;
  }

  // ----- a read that asks for nothing -----

  /** How many object reads a vector read issues: one per chunk, and one for the inline buffer. */
  function Issued(cap: nat, ivs: seq<Interval>, m: map<nat, seq<Piece>>): nat {
    |m| + if InlineParts(cap, ivs) != [] then 1 else 0
  }

  lemma {:induction false} NoPieces(f: Layout, rs: seq<Request>)
    ensures PiecesOf(f, rs) == [] <==> forall r :: r in rs ==> r.length == 0
  {
    if rs != [] {
      var last := rs[|rs| - 1];
      NoPieces(f, rs[..|rs| - 1]);
      assert rs == rs[..|rs| - 1] + [last];
      assert PiecesFrom(f, last, 0) == [] <==> last.length == 0;
    }
  }

  lemma {:induction false} NoParts(cap: nat, ivs: seq<Interval>)
    ensures InlineParts(cap, ivs) == [] && (forall r :: r in InodeParts(cap, ivs) ==> r.length == 0) <==>
            forall iv :: iv in ivs ==> iv.length == 0 && iv.offset >= cap
  {
    if ivs != [] {
      var front, last := ivs[..|ivs| - 1], ivs[|ivs| - 1];
      NoParts(cap, front);
      assert ivs == front + [last];
      var more := InodePart(cap, |ivs| - 1, last);
      assert InodeParts(cap, ivs) == InodeParts(cap, front) + more;
      assert InlinePart(cap, |ivs| - 1, last) == [] ==> more == [Request(|ivs| - 1, 0, last.offset, last.length)];
    }
  }

  /** A vector read issues nothing exactly when every interval is empty and past the inline buffer. */
  lemma NothingIssued(f: Layout, cap: nat, ivs: seq<Interval>, m: map<nat, seq<Piece>>)
    requires Grouped(m, PiecesOf(f, InodeParts(cap, ivs)))
    ensures Issued(cap, ivs, m) == 0 <==> forall iv :: iv in ivs ==> iv.length == 0 && iv.offset >= cap
  {
    hide InlineParts, InodeParts, PiecesOf;
    var ps := PiecesOf(f, InodeParts(cap, ivs));
    NoPieces(f, InodeParts(cap, ivs));
    NoParts(cap, ivs);
    GroupsOfNothing(m, ps);
  }

  lemma GroupsOfNothing(m: map<nat, seq<Piece>>, ps: seq<Piece>)
    requires Grouped(m, ps)
    ensures m == map[] <==> ps == []
  {
    assert ps != [] ==> ps[0].chunk in m;
    forall c | c in m ensures ps != [] {
      assert InChunkOnly([], c) == [];
    }
  }

  lemma NextPosition(f: Layout, pos: nat)
    ensures var next := pos + (f.chunkSize - pos % f.chunkSize);
            next / f.chunkSize == pos / f.chunkSize + 1 && next % f.chunkSize == 0
  {
    PositionSplit(pos, f.chunkSize);
    assert (pos / f.chunkSize + 1) * f.chunkSize == (pos / f.chunkSize) * f.chunkSize + f.chunkSize;
    PositionOf(pos / f.chunkSize + 1, 0, f.chunkSize);
  }

  // ----- the pieces tile every request -----

  predicate Covers(p: Piece, i: nat, j: nat) {
    p.interval == i && p.bufPos <= j < p.bufPos + p.length
  }

  /** How many pieces hold byte j of interval i. */
  function Cover(ps: seq<Piece>, i: nat, j: nat): nat {
    if ps == [] then 0
    else Cover(ps[..|ps| - 1], i, j) + if Covers(ps[|ps| - 1], i, j) then 1 else 0
  }

  lemma {:induction false} CoverConcat(ps: seq<Piece>, qs: seq<Piece>, i: nat, j: nat)
    ensures Cover(ps + qs, i, j) == Cover(ps, i, j) + Cover(qs, i, j)
  {
    if qs == [] {
      assert ps + qs == ps;
    } else {
      assert (ps + qs)[..|ps + qs| - 1] == ps + qs[..|qs| - 1];
      CoverConcat(ps, qs[..|qs| - 1], i, j);
    }
  }

  lemma {:induction false} PiecesCoverOnce(f: Layout, r: Request, done: nat, i: nat, j: nat)
    requires done <= r.length
    ensures Cover(PiecesFrom(f, r, done), i, j) ==
            if r.interval == i && r.bufPos + done <= j < r.bufPos + r.length then 1 else 0
    decreases r.length - done
  {
    if done < r.length {
      var p := PieceAt(f, r, done);
      PositionSplit(r.offset + done, f.chunkSize);
      PiecesCoverOnce(f, r, done + p.length, i, j);
      CoverConcat([p], PiecesFrom(f, r, done + p.length), i, j);
      assert [p][..0] == [];
    }
  }

  predicate RequestCovers(r: Request, i: nat, j: nat) {
    r.interval == i && r.bufPos <= j < r.bufPos + r.length
  }

  function RequestCover(rs: seq<Request>, i: nat, j: nat): nat {
    if rs == [] then 0
    else RequestCover(rs[..|rs| - 1], i, j) + if RequestCovers(rs[|rs| - 1], i, j) then 1 else 0
  }

  lemma {:induction false} PiecesCoverRequests(f: Layout, rs: seq<Request>, i: nat, j: nat)
    ensures Cover(PiecesOf(f, rs), i, j) == RequestCover(rs, i, j)
  {
    if rs != [] {
      var front, r := rs[..|rs| - 1], rs[|rs| - 1];
      PiecesCoverRequests(f, front, i, j);
      PiecesCoverOnce(f, r, 0, i, j);
      CoverConcat(PiecesOf(f, front), PiecesFrom(f, r, 0), i, j);
    }
  }

  lemma LastRequest(rs: seq<Request>, more: seq<Request>, i: nat, j: nat)
    requires |more| <= 1
    ensures RequestCover(rs + more, i, j) ==
            RequestCover(rs, i, j) + if |more| == 1 && RequestCovers(more[0], i, j) then 1 else 0
  {
    if more == [] {
      assert rs + more == rs;
    } else {
      assert (rs + more)[..|rs|] == rs;
    }
  }

  lemma PartCovers(cap: nat, n: nat, iv: Interval, i: nat, j: nat)
    ensures var more := InlinePart(cap, n, iv);
            |more| <= 1 &&
            ((|more| == 1 && RequestCovers(more[0], i, j)) <==> i == n && j < iv.length && iv.offset + j < cap)
    ensures var more := InodePart(cap, n, iv);
            |more| <= 1 &&
            ((|more| == 1 && RequestCovers(more[0], i, j)) <==> i == n && j < iv.length && iv.offset + j >= cap)
  {
  }

  lemma {:induction false} PartsCover(cap: nat, ivs: seq<Interval>, i: nat, j: nat)
    ensures RequestCover(InlineParts(cap, ivs), i, j) ==
            if i < |ivs| && j < ivs[i].length && ivs[i].offset + j < cap then 1 else 0
    ensures RequestCover(InodeParts(cap, ivs), i, j) ==
            if i < |ivs| && j < ivs[i].length && ivs[i].offset + j >= cap then 1 else 0
  {
    hide InlinePart, InodePart, RequestCovers;
    if ivs != [] {
      var front, n := ivs[..|ivs| - 1], |ivs| - 1;
      PartsCover(cap, front, i, j);
      PartCovers(cap, n, ivs[n], i, j);
      LastRequest(InlineParts(cap, front), InlinePart(cap, n, ivs[n]), i, j);
      LastRequest(InodeParts(cap, front), InodePart(cap, n, ivs[n]), i, j);
    }
  }

  /** A piece lies in one chunk, at the file position its buffer position stands for. */
  predicate Placed(f: Layout, ivs: seq<Interval>, p: Piece) {
    && p.interval < |ivs|
    && p.offset + p.length <= f.chunkSize
    && p.chunk * f.chunkSize + p.offset == ivs[p.interval].offset + p.bufPos
    && p.bufPos + p.length <= ivs[p.interval].length
  }

  predicate RequestPlaced(ivs: seq<Interval>, r: Request) {
    && r.interval < |ivs|
    && r.offset == ivs[r.interval].offset + r.bufPos
    && r.bufPos + r.length <= ivs[r.interval].length
  }

  lemma {:induction false} PiecesPlaced(f: Layout, ivs: seq<Interval>, r: Request, done: nat)
    requires RequestPlaced(ivs, r) && done <= r.length
    ensures forall p :: p in PiecesFrom(f, r, done) ==> Placed(f, ivs, p)
    decreases r.length - done
  {
    if done < r.length {
      var p := PieceAt(f, r, done);
      PositionSplit(r.offset + done, f.chunkSize);
      PiecesPlaced(f, ivs, r, done + p.length);
      assert Placed(f, ivs, p);
    }
  }

  lemma {:induction false} AllPlaced(f: Layout, ivs: seq<Interval>, rs: seq<Request>)
    requires forall r :: r in rs ==> RequestPlaced(ivs, r)
    ensures forall p :: p in PiecesOf(f, rs) ==> Placed(f, ivs, p)
  {
    if rs != [] {
      AllPlaced(f, ivs, rs[..|rs| - 1]);
      PiecesPlaced(f, ivs, rs[|rs| - 1], 0);
    }
  }

  lemma {:induction false} PartsPlaced(cap: nat, ivs: seq<Interval>, n: nat)
    requires n <= |ivs|
    ensures forall r :: r in InodeParts(cap, ivs[..n]) || r in InlineParts(cap, ivs[..n]) ==> RequestPlaced(ivs, r)
  {
    if n > 0 {
      PartsPlaced(cap, ivs, n - 1);
      assert ivs[..n][..n - 1] == ivs[..n - 1];
    }
  }

  /**
   Request splitting tiles a vector read: each requested byte is in exactly
   one inline request or exactly one chunk piece, chosen by its position, and
   every piece is placed.
   */
  lemma ReadIsTiled(f: Layout, cap: nat, ivs: seq<Interval>, i: nat, j: nat)
    requires i < |ivs| && j < ivs[i].length
    ensures RequestCover(InlineParts(cap, ivs), i, j) == if ivs[i].offset + j < cap then 1 else 0
    ensures Cover(PiecesOf(f, InodeParts(cap, ivs)), i, j) == if ivs[i].offset + j < cap then 0 else 1
    ensures forall p :: p in PiecesOf(f, InodeParts(cap, ivs)) ==> Placed(f, ivs, p)
  {
    PartsCover(cap, ivs, i, j);
    PiecesCoverRequests(f, InodeParts(cap, ivs), i, j);
    PartsPlaced(cap, ivs, |ivs|);
    assert ivs[..|ivs|] == ivs;
    AllPlaced(f, ivs, InodeParts(cap, ivs));
  }
}
