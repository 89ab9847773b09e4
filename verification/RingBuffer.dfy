/** The segmented ring buffer of a socket stream: bytes enter at the write cursor and leave at the read cursor. */
module RingBuffer {
  import opened RingMath

  class Piece {
    const buffer: array<char>
    /** How much of the buffer is in use; less than its length after a reservation cut it short. */
    var size: nat

    constructor (capacity: nat)
      requires capacity > 0
      ensures fresh(buffer) && buffer.Length == capacity && size == capacity
    {
      buffer := new char[capacity];
      size := capacity;
    }
  }

  /** One entry of an iovec. */
  datatype Slice = Slice(idx: nat, start: nat, len: nat)

  ghost predicate Cut(ps: Pieces, s: Slice) {
    s.idx < |ps| && s.start + s.len <= |ps[s.idx]|
  }

  ghost predicate AllCut(ps: Pieces, iov: seq<Slice>) {
    forall i :: 0 <= i < |iov| ==> Cut(ps, iov[i])
  }

  /** The spots a sequence of slices covers, in order. */
  ghost function Spots(ps: Pieces, iov: seq<Slice>): seq<int>
    requires AllCut(ps, iov)
  {
    if iov == [] then []
    else var s := iov[|iov| - 1];
      assert Cut(ps, s);
      Spots(ps, iov[..|iov| - 1]) + Range(Start(ps, s.idx) + s.start, s.len)
  }

  /** How many slices it takes from one cursor round to another over `n` pieces. */
  ghost function SliceCount(from: Cursor, to: Cursor, n: nat): (k: nat)
    requires from.idx < n && to.idx < n
    ensures k <= n + 1
    ensures k == n + 1 <==> from.idx == to.idx && 0 < to.pos <= from.pos
  {
    if from.idx == to.idx && from.pos < to.pos then 1
    else (if from.idx < to.idx then to.idx - from.idx else to.idx + n - from.idx) + if to.pos > 0 then 1 else 0
  }

  /** With `k` slices collected, at piece `i`: those still to come, round to `to`, make up the count. */
  ghost predicate CountedTo(k: nat, i: nat, from: Cursor, to: Cursor, n: nat) {
    && from.idx < n && to.idx < n && i < n
    && k + Gap(i, to.idx, n) + (if to.pos > 0 then 1 else 0) == SliceCount(from, to, n)
  }

  lemma CountStarts(from: Cursor, to: Cursor, n: nat)
    requires from.idx < n && to.idx < n && !(from.idx == to.idx && from.pos < to.pos)
    ensures CountedTo(1, NextPiece(from.idx, n), from, to, n)
  {
  }

  lemma CountGoesOn(k: nat, i: nat, from: Cursor, to: Cursor, n: nat)
    requires CountedTo(k, i, from, to, n) && i != to.idx
    ensures CountedTo(k + 1, NextPiece(i, n), from, to, n)
  {
  }

  lemma CountOne(from: Cursor, to: Cursor, n: nat)
    requires from.idx < n && to.idx < n && from.idx == to.idx && from.pos < to.pos
    ensures SliceCount(from, to, n) == 1
  {
  }

  /** One more slice, where the ones before end. */
  lemma SliceAdded(ps: Pieces, iov: seq<Slice>, s: Slice, x: int, len: nat)
    requires AllCut(ps, iov) && Cut(ps, s) && Spots(ps, iov) == Arc(x, len, Size(ps)) && 0 <= x < Size(ps)
    requires s.len > 0 ==> Wrap(x + len, Size(ps)) == Start(ps, s.idx) + s.start
    requires len + s.len <= Size(ps) && Start(ps, s.idx) + s.start + s.len <= Size(ps)
    ensures AllCut(ps, iov + [s]) && Spots(ps, iov + [s]) == Arc(x, len + s.len, Size(ps))
  {
    assert (iov + [s])[..|iov|] == iov;
    if s.len > 0 {
      ArcExtended(x, len, s.len, Size(ps));
    }
  }

  lemma Nothing(ps: Pieces, x: int)
    ensures AllCut(ps, []) && Spots(ps, []) == Arc(x, 0, Size(ps))
  {
  }

  ghost function Gap(i: nat, j: nat, n: nat): nat
    requires i < n && j < n
  {
    if i <= j then j - i else j + n - i
  }

  /** Progress of a walk from piece `a` towards piece `b`, now at piece `i`: `len` bytes are behind. */
  ghost predicate Walk(ps: Pieces, a: Cursor, b: nat, i: nat, len: nat)
    requires On(ps, a) && b < |ps| && i < |ps|
  {
    if a.idx < i then Start(ps, a.idx) + a.pos + len == Start(ps, i) && (i <= b || b <= a.idx)
    else Start(ps, a.idx) + a.pos + len == Size(ps) + Start(ps, i) && i <= b <= a.idx
  }

  lemma WalkStarts(ps: Pieces, a: Cursor, b: nat)
    requires On(ps, a) && b < |ps|
    ensures Walk(ps, a, b, NextPiece(a.idx, |ps|), |ps[a.idx]| - a.pos)
  {
    assert Start(ps, a.idx + 1) == Start(ps, a.idx) + |ps[a.idx]|;
  }

  lemma WalkGoesOn(ps: Pieces, a: Cursor, b: nat, i: nat, len: nat)
    requires On(ps, a) && b < |ps| && i < |ps| && i != b && Walk(ps, a, b, i, len)
    ensures Walk(ps, a, b, NextPiece(i, |ps|), len + |ps[i]|)
    ensures Gap(NextPiece(i, |ps|), b, |ps|) < Gap(i, b, |ps|)
  {
    assert Start(ps, i + 1) == Start(ps, i) + |ps[i]|;
  }

  /** At the end of the walk, `len` and the rest up to `b` is the distance; a full turn if the two are at the same
      spot. */
  lemma WalkEnds(ps: Pieces, a: Cursor, b: Cursor, len: nat)
    requires Proper(ps) && On(ps, a) && On(ps, b) && Walk(ps, a, b.idx, b.idx, len)
    requires !(a.idx == b.idx && a.pos < b.pos)
    ensures Inside(ps, b) && a != b ==> len + b.pos == Between(ps, a, b)
    ensures Inside(ps, a) ==> len + b.pos == Size(ps) - Between(ps, b, a)
    ensures Between(ps, a, b) >= 0
  {
    InsideSpot(ps, a);
    InsideSpot(ps, b);
    if a.idx < b.idx { StartMonotone(ps, a.idx, b.idx); } else if b.idx < a.idx { StartMonotone(ps, b.idx, a.idx); }
  }

  /** Where the walk is, seen from its start. */
  lemma WalkSpot(ps: Pieces, a: Cursor, b: Cursor, i: nat, len: nat)
    requires Proper(ps) && On(ps, a) && On(ps, b) && i < |ps| && Walk(ps, a, b.idx, i, len)
    requires !(a.idx == b.idx && a.pos < b.pos)
    ensures 0 <= Spot(ps, a) < Size(ps) && Wrap(Spot(ps, a) + len, Size(ps)) == Start(ps, i)
    ensures len + (if i == b.idx then b.pos else |ps[i]|) <= Size(ps)
    ensures Start(ps, i) + |ps[i]| <= Size(ps)
  {
    InsideSpot(ps, a);
    StartMonotone(ps, i, |ps|);
    if i == b.idx {
      if b.idx < a.idx { StartMonotone(ps, b.idx, a.idx); }
    } else if i < a.idx {
      StartMonotone(ps, i, a.idx);
    }
  }

  /** Slices for the memory from one cursor round to another: all of it when the two are at the same spot, unless
      it is told apart from none by `to` being the regular form of `from`. */
  ghost predicate Collected(ps: Pieces, iov: seq<Slice>, from: Cursor, to: Cursor)
    requires On(ps, from) && On(ps, to)
  {
    && AllCut(ps, iov)
    && (Inside(ps, to) && from != to ==> Spots(ps, iov) == Arc(Spot(ps, from), Between(ps, from, to), Size(ps)))
    && (Inside(ps, from) ==> Spots(ps, iov) == Arc(Spot(ps, from), Size(ps) - Between(ps, to, from), Size(ps)))
  }

  lemma OneSlice(ps: Pieces, from: Cursor, to: Cursor)
    requires Proper(ps) && On(ps, from) && On(ps, to) && from.idx == to.idx && from.pos < to.pos
    ensures Collected(ps, [Slice(from.idx, from.pos, to.pos - from.pos)], from, to)
  {
    InsideSpot(ps, from);
    InsideSpot(ps, to);
    StartMonotone(ps, from.idx, |ps|);
    var s := Slice(from.idx, from.pos, to.pos - from.pos);
    Nothing(ps, Spot(ps, from));
    SliceAdded(ps, [], s, Spot(ps, from), 0);
    assert [] + [s] == [s];
  }

  lemma FirstSlice(ps: Pieces, from: Cursor)
    requires Proper(ps) && On(ps, from)
    ensures var s := Slice(from.idx, from.pos, |ps[from.idx]| - from.pos);
      AllCut(ps, [s]) && Spots(ps, [s]) == Arc(Spot(ps, from), s.len, Size(ps))
  {
    InsideSpot(ps, from);
    StartMonotone(ps, from.idx, |ps|);
    var s := Slice(from.idx, from.pos, |ps[from.idx]| - from.pos);
    Nothing(ps, Spot(ps, from));
    SliceAdded(ps, [], s, Spot(ps, from), 0);
    assert [] + [s] == [s];
  }

  lemma MiddleSlice(ps: Pieces, iov: seq<Slice>, from: Cursor, to: Cursor, i: nat, len: nat)
    requires Proper(ps) && On(ps, from) && On(ps, to) && i < |ps| && i != to.idx
    requires !(from.idx == to.idx && from.pos < to.pos)
    requires Walk(ps, from, to.idx, i, len) && AllCut(ps, iov) && Spots(ps, iov) == Arc(Spot(ps, from), len, Size(ps))
    ensures var r := iov + [Slice(i, 0, |ps[i]|)];
      AllCut(ps, r) && Spots(ps, r) == Arc(Spot(ps, from), len + |ps[i]|, Size(ps))
    ensures Walk(ps, from, to.idx, NextPiece(i, |ps|), len + |ps[i]|)
    ensures Gap(NextPiece(i, |ps|), to.idx, |ps|) < Gap(i, to.idx, |ps|)
  {
    WalkSpot(ps, from, to, i, len);
    WalkGoesOn(ps, from, to.idx, i, len);
    SliceAdded(ps, iov, Slice(i, 0, |ps[i]|), Spot(ps, from), len);
  }

  /** The slices from `from` up to piece `i`, on the way round to `to`. */
  ghost predicate Gathered(ps: Pieces, iov: seq<Slice>, from: Cursor, to: Cursor, i: nat, len: nat) {
    && On(ps, from) && On(ps, to) && i < |ps| && Walk(ps, from, to.idx, i, len)
    && AllCut(ps, iov) && Spots(ps, iov) == Arc(Spot(ps, from), len, Size(ps))
    && CountedTo(|iov|, i, from, to, |ps|)
  }

  lemma GatherStarts(ps: Pieces, from: Cursor, to: Cursor)
    requires Proper(ps) && On(ps, from) && On(ps, to) && !(from.idx == to.idx && from.pos < to.pos)
    ensures var len := |ps[from.idx]| - from.pos;
      Gathered(ps, [Slice(from.idx, from.pos, len)], from, to, NextPiece(from.idx, |ps|), len)
  {
    WalkStarts(ps, from, to.idx);
    FirstSlice(ps, from);
    CountStarts(from, to, |ps|);
  }

  lemma GatherGoesOn(ps: Pieces, iov: seq<Slice>, from: Cursor, to: Cursor, i: nat, len: nat)
    requires Proper(ps) && Gathered(ps, iov, from, to, i, len) && i != to.idx
    requires !(from.idx == to.idx && from.pos < to.pos)
    ensures i < |ps| && to.idx < |ps|
    ensures Gathered(ps, iov + [Slice(i, 0, |ps[i]|)], from, to, NextPiece(i, |ps|), len + |ps[i]|)
    ensures Gap(NextPiece(i, |ps|), to.idx, |ps|) < Gap(i, to.idx, |ps|)
  {
    MiddleSlice(ps, iov, from, to, i, len);
    CountGoesOn(|iov|, i, from, to, |ps|);
  }

  lemma LastSlice(ps: Pieces, iov: seq<Slice>, from: Cursor, to: Cursor, len: nat)
    requires Proper(ps) && On(ps, from) && On(ps, to) && !(from.idx == to.idx && from.pos < to.pos)
    requires Gathered(ps, iov, from, to, to.idx, len)
    ensures Collected(ps, if to.pos > 0 then iov + [Slice(to.idx, 0, to.pos)] else iov, from, to)
    ensures from.idx < |ps| && to.idx < |ps| && |iov| + (if to.pos > 0 then 1 else 0) == SliceCount(from, to, |ps|)
  {
    WalkSpot(ps, from, to, to.idx, len);
    WalkEnds(ps, from, to, len);
    if to.pos > 0 {
      SliceAdded(ps, iov, Slice(to.idx, 0, to.pos), Spot(ps, from), len);
    }
  }

  lemma Passed(ps: Pieces, i: nat, pos: nat)
    requires Proper(ps) && i < |ps|
    ensures |ps[i]| > 0 && Size(ps) > 0
    ensures Fold(Start(ps, i) + (|ps[i]| + pos), Size(ps)) == Fold(Start(ps, NextPiece(i, |ps|)) + pos, Size(ps))
  {
    PieceEnd(ps, i);
  }

  lemma Unwrapped(ps: Pieces, c: Cursor, k: nat)
    requires Proper(ps) && On(ps, c)
    ensures Size(ps) > 0 && 0 <= Spot(ps, c)
    ensures Fold(Start(ps, c.idx) + (c.pos + k), Size(ps)) == Fold(Spot(ps, c) + k, Size(ps))
  {
    InsideSpot(ps, c);
    PieceEnd(ps, c.idx);
  }

  lemma Arrived(ps: Pieces, c: Cursor)
    requires Proper(ps) && c.idx < |ps| && c.pos < |ps[c.idx]|
    ensures Inside(ps, c) && 0 <= Spot(ps, c) < Size(ps) && Spot(ps, c) == Fold(Start(ps, c.idx) + c.pos, Size(ps))
  {
    InsideSpot(ps, c);
  }

  ghost function SliceBytes(ps: Pieces, s: Slice): (b: seq<char>)
    requires Cut(ps, s)
    ensures |b| == s.len
  {
    ps[s.idx][s.start..s.start + s.len]
  }

  /** The unread bytes of the reader's piece. */
  ghost function NextChunk(ps: Pieces, r: Cursor, w: Cursor): (s: Slice)
    requires On(ps, r) && On(ps, w)
    ensures Cut(ps, s)
  {
    Slice(r.idx, r.pos, if r.idx == w.idx && r.pos < w.pos then w.pos - r.pos else |ps[r.idx]| - r.pos)
  }

  /** The reader after a chunk. */
  ghost function Behind(ps: Pieces, s: Slice, w: Cursor): Cursor
    requires Cut(ps, s)
  {
    if s.idx == w.idx && s.start < w.pos then w else Cursor(NextPiece(s.idx, |ps|), 0)
  }

  lemma ChunkFacts(ps: Pieces, r: Cursor, w: Cursor)
    requires Proper(ps) && On(ps, r) && Inside(ps, w) && r != w
    ensures var s := NextChunk(ps, r, w);
      var r' := Behind(ps, s, w);
      && s.len <= |Unread(ps, r, w)| && Inside(ps, r') && 0 <= Spot(ps, r)
      && Spot(ps, r') == Fold(Spot(ps, r) + s.len, Size(ps))
      && Bytes(ps, r, s.len) == SliceBytes(ps, s)
  {
    var s := NextChunk(ps, r, w);
    BytesOfPiece(ps, r, s.len);
    if r.idx == w.idx && r.pos < w.pos {
      Moved(ps, r, w);
      InsideSpot(ps, r);
      InsideSpot(ps, w);
    } else {
      PieceDone(ps, r);
      RestOfPiece(ps, r, w);
    }
  }

  /** Some bytes before the end of a chunk, the next chunk is the rest of it. */
  lemma TakenBack(ps: Pieces, r: Cursor, w: Cursor, count: nat)
    requires Proper(ps) && On(ps, r) && Inside(ps, w) && r != w && 0 < count <= NextChunk(ps, r, w).len
    ensures var s := NextChunk(ps, r, w);
      var c, e := Cursor(s.idx, s.start + s.len - count), Behind(ps, s, w);
      && Inside(ps, c) && Inside(ps, e) && c != w && 0 <= Spot(ps, c)
      && Spot(ps, e) == Fold(Spot(ps, c) + count, Size(ps))
      && NextChunk(ps, c, w) == Slice(c.idx, c.pos, count)
      && count <= |Unread(ps, c, w)| && Bytes(ps, c, count) == SliceBytes(ps, s)[s.len - count..]
  {
    hide Spot;
    var s := NextChunk(ps, r, w);
    var c := Cursor(s.idx, s.start + s.len - count);
    ChunkFacts(ps, r, w);
    ChunkFacts(ps, c, w);
  }

  /** The reader is `handed` bytes behind where the packet began. Once it has moved it is inside a piece. */
  ghost predicate Counted(ps: Pieces, r: Cursor, begin: Cursor, handed: nat) {
    && Proper(ps) && On(ps, begin) && On(ps, r) && (Inside(ps, r) || (r == begin && handed == 0))
    && 0 <= Spot(ps, begin)
    && Spot(ps, r) == Fold(Spot(ps, begin) + handed, Size(ps))
  }

  /** Handing out a chunk. */
  lemma Advanced(ps: Pieces, r: Cursor, w: Cursor, begin: Cursor, handed: nat)
    requires Counted(ps, r, begin, handed) && Inside(ps, w) && r != w
    ensures var s := NextChunk(ps, r, w);
      var r' := Behind(ps, s, w);
      && (s.len > 0 <==> Inside(ps, r)) && Inside(ps, r') && Counted(ps, r', begin, handed + s.len)
      && Unread(ps, r, w) == SliceBytes(ps, s) + Unread(ps, r', w)
  {
    var s := NextChunk(ps, r, w);
    ChunkFacts(ps, r, w);
    Consumed(ps, r, w, Behind(ps, s, w), s.len);
    FoldTwice(Spot(ps, begin) + handed, s.len, Size(ps));
  }

  /** Passing over some bytes. */
  lemma PassedOver(ps: Pieces, r: Cursor, w: Cursor, r': Cursor, begin: Cursor, handed: nat, count: nat)
    requires Counted(ps, r, begin, handed) && On(ps, w) && count <= |Unread(ps, r, w)|
    requires Inside(ps, r') && Spot(ps, r') == Fold(Spot(ps, r) + count, Size(ps))
    ensures Counted(ps, r', begin, handed + count) && Unread(ps, r', w) == Unread(ps, r, w)[count..]
  {
    InsideSpot(ps, r);
    Consumed(ps, r, w, r', count);
    FoldTwice(Spot(ps, begin) + handed, count, Size(ps));
  }

  /** Taking back the end of one. */
  lemma Retreated(ps: Pieces, before: Cursor, w: Cursor, begin: Cursor, handed: nat, count: nat)
    requires Proper(ps) && On(ps, before) && Inside(ps, w) && before != w && 0 < count <= NextChunk(ps, before, w).len
    requires Counted(ps, Behind(ps, NextChunk(ps, before, w), w), begin, handed) && count <= handed
    ensures var s := NextChunk(ps, before, w);
      var c, r := Cursor(s.idx, s.start + s.len - count), Behind(ps, s, w);
      && Inside(ps, c) && c != w && 0 <= Spot(ps, c) && Spot(ps, r) == Fold(Spot(ps, c) + count, Size(ps))
      && count <= Size(ps)
      && NextChunk(ps, c, w) == Slice(c.idx, c.pos, count)
      && Unread(ps, c, w) == SliceBytes(ps, s)[s.len - count..] + Unread(ps, r, w)
      && Counted(ps, c, begin, handed - count)
  {
    hide Fold;
    hide Between;
    var s := NextChunk(ps, before, w);
    var c, r := Cursor(s.idx, s.start + s.len - count), Behind(ps, s, w);
    TakenBack(ps, before, w, count);
    Consumed(ps, c, w, r, count);
    InsideSpot(ps, c);
    FoldTwice(Spot(ps, begin) + (handed - count), count, Size(ps));
    FoldCancel(Spot(ps, c), Fold(Spot(ps, begin) + (handed - count), Size(ps)), count, Size(ps));
  }

  lemma OutBefore(ps: Pieces, r: Cursor, w: Cursor)
    requires Proper(ps) && On(ps, r) && Inside(ps, w) && r.idx == w.idx && w.pos < r.pos - 1
    ensures var w' := Cursor(r.idx, r.pos - 1);
      && Inside(ps, w') && w' != r
      && Unread(ps, r, w') == Unread(ps, r, w) + SliceBytes(ps, Slice(w.idx, w.pos, r.pos - 1 - w.pos))
  {
    var w' := Cursor(r.idx, r.pos - 1);
    Moved(ps, w, w');
    InsideSpot(ps, w);
    InsideSpot(ps, r);
    BytesOfPiece(ps, w, r.pos - 1 - w.pos);
    Extended(ps, r, w, w', r.pos - 1 - w.pos);
  }

  /** The rest of the writer's piece is free, and is all that is free only when the reader is right behind it. */
  lemma RoomBehind(ps: Pieces, r: Cursor, w: Cursor)
    requires Proper(ps) && On(ps, r) && Inside(ps, w) && !(r.idx == w.idx && w.pos < r.pos)
    ensures var w' := Cursor(NextPiece(w.idx, |ps|), 0);
      && Inside(ps, w') && |Unread(ps, r, w)| + |ps[w.idx]| - w.pos <= Size(ps)
      && (|Unread(ps, r, w)| + |ps[w.idx]| - w.pos == Size(ps) <==> w' == r)
  {
    var w' := Cursor(NextPiece(w.idx, |ps|), 0);
    PieceDone(ps, w);
    InsideSpot(ps, w);
    InsideSpot(ps, r);
    InsideSpot(ps, w');
    PieceEnd(ps, w.idx);
    var r0 := if Inside(ps, r) then r else Cursor(NextPiece(r.idx, |ps|), 0);
    InsideSpot(ps, r0);
    SpotUnique(ps, r0, w');
    SpotUnique(ps, r0, w);
    SameSpot(ps, r0, w);
    hide Unread;
    if r0 != w {
      RestOfPiece(ps, w, r0);
    } else {
      PieceEnd(ps, w'.idx);
    }
  }

  lemma OutRest(ps: Pieces, r: Cursor, w: Cursor)
    requires Proper(ps) && On(ps, r) && Inside(ps, w) && !(r.idx == w.idx && w.pos < r.pos)
    ensures var w' := Cursor(NextPiece(w.idx, |ps|), 0);
      && Inside(ps, w')
      && (w' != r ==> Unread(ps, r, w') == Unread(ps, r, w) + SliceBytes(ps, Slice(w.idx, w.pos, |ps[w.idx]| - w.pos)))
      && (w' == r ==> Unread(ps, r, w') == [] && |Unread(ps, r, w)| + |ps[w.idx]| - w.pos == Size(ps))
  {
    hide Bytes;
    hide Unread;
    var w', k := Cursor(NextPiece(w.idx, |ps|), 0), |ps[w.idx]| - w.pos;
    RoomBehind(ps, r, w);
    PieceDone(ps, w);
    InsideSpot(ps, w);
    BytesOfPiece(ps, w, k);
    if w' == r {
      FilledUp(ps, r, w, w', k);
    } else {
      Extended(ps, r, w, w', k);
    }
  }

  class Ring {
    const que: seq<Piece>
    ghost const buffers: set<array<char>>
    var readpos: Cursor
    var writepos: Cursor
    /** The bytes in use of every piece. */
    ghost var live: Pieces
    /** Where the packet at hand began, and how many of its bytes are handed out. */
    var beginRead: Cursor
    ghost var handed: nat

    ghost predicate Valid()
      reads this, que, buffers
    {
      && |live| == |que| && Proper(live) && On(live, readpos) && Inside(live, writepos)
      && (forall i, j :: 0 <= i < j < |que| ==> que[i] != que[j] && que[i].buffer != que[j].buffer)
      && forall i :: 0 <= i < |que| ==>
        que[i].buffer in buffers && que[i].size <= que[i].buffer.Length && live[i] == que[i].buffer[..que[i].size]
    }

    /** A ring of `n` whole pieces, empty. */
    constructor (n: nat, pieceSize: nat)
      requires n > 0 && pieceSize > 0
      ensures Valid() && |que| == n && Uniform(live, pieceSize) && Pending() == [] && Inside(live, readpos)
      ensures fresh(buffers) && (forall i :: 0 <= i < |que| ==> fresh(que[i]))
    {
      var q: seq<Piece> := [];
      ghost var bs: set<array<char>>, lv: Pieces := {}, [];
      for i := 0 to n
        invariant |q| == |lv| == i && fresh(bs) && (forall j :: 0 <= j < i ==> fresh(q[j]) && q[j].buffer in bs)
        invariant forall j :: 0 <= j < i ==> q[j].size == pieceSize == q[j].buffer.Length && lv[j] == q[j].buffer[..]
        invariant forall j, k :: 0 <= j < k < i ==> q[j] != q[k] && q[j].buffer != q[k].buffer
      {
        var p := new Piece(pieceSize);
        q := q + [p];
        bs, lv := bs + {p.buffer}, lv + [p.buffer[..]];
      }
      que, buffers := q, bs;
      live := lv;
      readpos, writepos, beginRead, handed := Cursor(0, 0), Cursor(0, 0), Cursor(0, 0), 0;
      new;
      InsideSpot(live, readpos);
    }

    function PieceSize(i: nat): (n: nat)
      requires Valid() && i < |que|
      reads this, que, buffers
      ensures n == |live[i]|
    {
      que[i].size
    }

    lemma Facts()
      requires Valid()
      ensures |que| == |live| && Proper(live) && On(live, readpos) && Inside(live, writepos)
    {
    }

    /** The cursor `size` bytes on. */
    method Plus(it: Cursor, size: nat) returns (r: Cursor)
      requires Valid() && |que| == |live| && On(live, it)
      ensures Inside(live, r) && 0 <= Spot(live, it) && Spot(live, r) == Fold(Spot(live, it) + size, Size(live))
    {
      hide Valid;
      hide Fold;
      hide Spot;
      Facts();
      Unwrapped(live, it, size);
      hide *;
      var idx: nat, pos: nat := it.idx, it.pos + size;
      while pos >= PieceSize(idx)
        invariant idx < |que| == |live| && Proper(live) && On(live, it)
        invariant Fold(Start(live, idx) + pos, Size(live)) == Fold(Spot(live, it) + size, Size(live))
        decreases pos
      {
        Passed(live, idx, pos - PieceSize(idx));
        pos := pos - PieceSize(idx);
        idx := NextPiece(idx, |que|);
      }
      r := Cursor(idx, pos);
      Arrived(live, r);
    }

    /** How far it is from `it` to `to`. */
    method Minus(to: Cursor, it: Cursor) returns (size: nat)
      requires Valid() && On(live, it) && On(live, to)
      ensures Inside(live, to) || to == it ==> size == Between(live, it, to)
    {
      Facts();
      hide Valid;
      if to.idx == it.idx && it.pos <= to.pos {
        InsideSpot(live, it);
        InsideSpot(live, to);
        return to.pos - it.pos;
      }
      WalkStarts(live, it, to.idx);
      size := PieceSize(it.idx) - it.pos;
      var idx: nat := NextPiece(it.idx, |que|);
      while idx != to.idx
        invariant idx < |que| && Walk(live, it, to.idx, idx, size)
        decreases Gap(idx, to.idx, |que|)
      {
        WalkGoesOn(live, it, to.idx, idx, size);
        size := size + PieceSize(idx);
        idx := NextPiece(idx, |que|);
      }
      WalkEnds(live, it, to, size);
      size := size + to.pos;
    }

    /** The memory from one cursor round to the other, in slices. */
    method Collect(from: Cursor, to: Cursor) returns (iov: seq<Slice>)
      requires Valid() && |que| == |live| && On(live, from) && On(live, to)
      ensures Collected(live, iov, from, to) && |iov| == SliceCount(from, to, |que|)
    {
      Facts();
      hide *;
      if from.idx == to.idx && from.pos < to.pos {
        iov := [Slice(from.idx, from.pos, to.pos - from.pos)];
        OneSlice(live, from, to);
        CountOne(from, to, |que|);
        return;
      }
      ghost var len;
      iov, len := UpTo(from, to);
      LastSlice(live, iov, from, to, len);
      if to.pos > 0 {
        iov := iov + [Slice(to.idx, 0, to.pos)];
      }
    }

    /** The part of it before the piece where it ends. */
    method UpTo(from: Cursor, to: Cursor) returns (iov: seq<Slice>, ghost len: nat)
      requires Valid() && |que| == |live| && On(live, from) && On(live, to)
      requires !(from.idx == to.idx && from.pos < to.pos)
      ensures Gathered(live, iov, from, to, to.idx, len)
    {
      Facts();
      GatherStarts(live, from, to);
      assert from.idx < |que| && to.idx < |que| && from.pos <= |live[from.idx]| && NextPiece(from.idx, |que|) < |que|;
      hide *;
      iov := [Slice(from.idx, from.pos, PieceSize(from.idx) - from.pos)];
      len := PieceSize(from.idx) - from.pos;
      var idx: nat := NextPiece(from.idx, |que|);
      while idx != to.idx
        invariant idx < |que| && Gathered(live, iov, from, to, idx, len)
        decreases Gap(idx, to.idx, |que|)
      {
        GatherGoesOn(live, iov, from, to, idx, len);
        iov := iov + [Slice(idx, 0, PieceSize(idx))];
        len := len + PieceSize(idx);
        idx := NextPiece(idx, |que|);
      }
    }

    // ---------- the stream ----------

    /** The bytes written and not yet read. */
    ghost function Pending(): (u: seq<char>)
      requires Valid()
      reads this, que, buffers
      ensures Between(live, readpos, writepos) == |u| < Size(live)
    {
      Unread(live, readpos, writepos)
    }

    predicate IsFull()
      reads this
    {
      writepos.idx == readpos.idx && writepos.pos + 1 == readpos.pos
    }

    /** The unread bytes up to `end`, as slices to send. */
    method GetSendBuffer(end: Cursor) returns (ok: bool, iov: seq<Slice>)
      requires Valid() && |que| == |live| && Inside(live, end) && On(live, readpos)
      ensures ok <==> end != readpos
      ensures AllCut(live, iov)
      ensures ok ==> |iov| == SliceCount(readpos, end, |que|)
      ensures ok ==> Spots(live, iov) == Arc(Spot(live, readpos), Between(live, readpos, end), Size(live))
    {
      if end == readpos {
        return false, [];
      }
      ok := true;
      iov := Collect(readpos, end);
    }

    /** The free memory, as slices to receive into. */
    method GetReciveBuffer() returns (ok: bool, iov: seq<Slice>)
      requires Valid()
      ensures ok <==> !IsFull()
      ensures AllCut(live, iov)
      ensures ok ==>
        On(live, writepos) && On(live, readpos) && |que| == |live| && |iov| == SliceCount(writepos, readpos, |que|)
      ensures ok ==>
        On(live, writepos) && Spots(live, iov) == Arc(Spot(live, writepos), Size(live) - |Pending()|, Size(live))
    {
      if IsFull() {
        return false, [];
      }
      ok := true;
      iov := Collect(writepos, readpos);
    }

    /** The reader gives bytes up that were sent. */
    method MoveSendPtr(size: nat)
      requires Valid() && size <= |Pending()|
      modifies `readpos
      ensures Valid() && Pending() == old(Pending())[size..]
    {
      var r := readpos;
      var r' := Plus(r, size);
      InsideSpot(live, r);
      Consumed(live, r, writepos, r', size);
      readpos := r';
    }

    /** The writer passes over bytes that were received, at most as many as were free. When no byte stays free, the
        writer is where the reader is, and nothing seems to be pending. */
    method MoveRecivePtr(size: nat)
      requires Valid() && |Pending()| + size <= Size(live)
      modifies `writepos
      ensures Valid()
      ensures |old(Pending())| + size < Size(live) ==> Pending() == old(Pending()) + Bytes(live, old(writepos), size)
      ensures |old(Pending())| + size == Size(live) ==> Pending() == []
    {
      var w := writepos;
      ghost var u := Pending();
      var w' := Plus(w, size);
      InsideSpot(live, w);
      if |u| + size < Size(live) {
        Extended(live, readpos, w, w', size);
      } else {
        FilledUp(live, readpos, w, w', size);
      }
      writepos := w';
    }

    /** Makes room for `size` bytes in one piece, cutting the writer's piece short if need be. The stream stays
        as it is unless the writer then is where the reader is. */
    method Reserve(size: nat) returns (ok: bool)
      requires Valid() && |que| > 1 && (writepos.pos == 0 ==> size <= |live[writepos.idx]|)
      modifies this, que
      ensures Valid() && readpos == old(readpos)
      ensures ok <==> !(old(writepos).idx == readpos.idx && old(writepos).pos < readpos.pos)
      ensures old(writepos.idx) < |que| == old(|live|)
      ensures writepos ==
        if ok && |old(live)[old(writepos.idx)]| - old(writepos.pos) < size
        then Cursor(NextPiece(old(writepos).idx, |que|), 0)
        else old(writepos)
      ensures readpos == old(writepos) || writepos != readpos ==> Pending() == old(Pending())
      ensures readpos != old(writepos) && writepos == readpos ==> Pending() == [] != old(Pending())
    {
      ok := !(writepos.idx == readpos.idx && writepos.pos < readpos.pos);
      if ok && PieceSize(writepos.idx) - writepos.pos < size {
        GiveUpPiece();
      }
    }

    method GiveUpPiece()
      requires Valid() && Cuttable(live, readpos, writepos)
      modifies this`live, this`writepos, que
      ensures Valid() && readpos == old(readpos)
      ensures old(writepos.idx) < |que| && writepos == Cursor(NextPiece(old(writepos).idx, |que|), 0)
      ensures readpos == old(writepos) || writepos != readpos ==> Pending() == old(Pending())
      ensures readpos != old(writepos) && writepos == readpos ==> Pending() == [] != old(Pending())
    {
      if Cursor(NextPiece(writepos.idx, |live|), 0) == readpos {
        TruncationLoses(live, readpos, writepos);
      } else {
        TruncationKeeps(live, readpos, writepos);
      }
      hide Unread;
      hide Cuttable;
      CutWriter();
    }

    method CutWriter()
      requires Valid() && On(live, writepos)
      requires var qs := CutShort(live, writepos);
        Proper(qs) && On(qs, readpos) && Inside(qs, Cursor(NextPiece(writepos.idx, |live|), 0))
      modifies this`live, this`writepos, que
      ensures Valid() && old(On(live, writepos)) && live == CutShort(old(live), old(writepos))
      ensures writepos == Cursor(NextPiece(old(writepos).idx, |que|), 0)
    {
      hide Proper;
      que[writepos.idx].size := writepos.pos;
      live := CutShort(live, writepos);
      writepos := Cursor(NextPiece(writepos.idx, |que|), 0);
    }

    // ---------- the cursor backwards ----------

    /** The cursor `size` bytes back, when all pieces are of the same size. */
    method Less(it: Cursor, size: nat, ghost each: nat) returns (r: Cursor)
      requires Valid() && |que| == |live| && Uniform(live, each) && Inside(live, it) && size <= Size(live)
      ensures Inside(live, r) && Spot(live, r) == Back(Spot(live, it), size, Size(live))
    {
      Facts();
      InsideSpot(live, it);
      hide Valid;
      hide Start;
      var idx: nat, pos: int := it.idx, it.pos - size;
      while pos < 0
        invariant idx < |que| && pos < each
        invariant Start(live, idx) + pos == Spot(live, it) - size
          || Start(live, idx) + pos == Spot(live, it) - size + Size(live)
        decreases if pos < 0 then -pos else 0
      {
        PieceEnd(live, idx);
        PieceEnd(live, if idx == 0 then |live| - 1 else idx - 1);
        pos := pos + PieceSize(idx);
        idx := if idx == 0 then |que| - 1 else idx - 1;
      }
      r := Cursor(idx, pos);
      InsideSpot(live, r);
    }

    // ---------- handing out bytes without copying ----------

    ghost predicate Counting()
      reads this
    {
      Counted(live, readpos, beginRead, handed)
    }

    method BeginPacket()
      requires Valid()
      modifies `beginRead, `handed
      ensures Valid() && Counting() && handed == 0
    {
      InsideSpot(live, readpos);
      beginRead, handed := readpos, 0;
    }

    /** How many bytes were handed out since the packet began, as long as that is less than the ring holds. */
    method ByteCount() returns (n: nat)
      requires Valid() && Counting() && |que| == |live|
      ensures handed < Size(live) ==> n == handed
    {
      InsideSpot(live, beginRead);
      if handed < Size(live) {
        FoldDist(Spot(live, beginRead), handed, Size(live));
      }
      n := Minus(readpos, beginRead);
    }

    /** Hands out the next chunk of unread bytes. */
    method Next() returns (ok: bool, data: Slice)
      requires Valid() && Counting()
      modifies `readpos, `handed
      ensures Valid() && Counting()
      ensures ok <==> old(readpos) != writepos
      ensures !ok ==> readpos == old(readpos) && handed == old(handed)
      ensures ok ==> data == NextChunk(live, old(readpos), writepos) && readpos == Behind(live, data, writepos)
      ensures ok ==> old(Pending()) == SliceBytes(live, data) + Pending() && handed == old(handed) + data.len
      ensures ok ==> (data.len > 0 <==> Inside(live, old(readpos)))
    {
      hide Spot;
      hide Counted;
      if readpos == writepos {
        return false, Slice(0, 0, 0);
      }
      ok := true;
      ghost var r, w := readpos, writepos;
      Facts();
      hide Valid;
      var r';
      if readpos.idx == writepos.idx && readpos.pos < writepos.pos {
        data := Slice(readpos.idx, readpos.pos, writepos.pos - readpos.pos);
        r' := writepos;
      } else {
        data := Slice(readpos.idx, readpos.pos, PieceSize(readpos.idx) - readpos.pos);
        r' := Cursor(NextPiece(readpos.idx, |que|), 0);
      }
      Advanced(live, r, w, beginRead, handed);
      hide *;
      MoveReader(r', handed + data.len);
    }

    /** Takes back the last bytes of the chunk just handed out: the next chunk is exactly these. */
    method BackUp(count: nat, ghost chunk: Slice, ghost before: Cursor, ghost each: nat)
      requires Valid() && Counting() && |que| == |live| && Uniform(live, each) && On(live, before) && before != writepos
      requires chunk == NextChunk(live, before, writepos) && readpos == Behind(live, chunk, writepos)
      requires 0 < count <= chunk.len && count <= handed
      modifies `readpos, `handed
      ensures Valid() && Counting() && handed == old(handed) - count
      ensures readpos != writepos
      ensures NextChunk(live, readpos, writepos) == Slice(chunk.idx, chunk.start + chunk.len - count, count)
      ensures Pending() == SliceBytes(live, chunk)[chunk.len - count..] + old(Pending())
    {
      hide Fold;
      hide Uniform;
      hide Valid;
      Facts();
      Retreated(live, before, writepos, beginRead, handed, count);
      hide *;
      ghost var c := Cursor(chunk.idx, chunk.start + chunk.len - count);
      var r' := Less(readpos, count, each);
      Undone(live, c, readpos, r', count);
      MoveReader(r', handed - count);
    }

    method MoveReader(r: Cursor, ghost count: nat)
      requires Valid() && Inside(live, r)
      modifies `readpos, `handed
      ensures Valid() && readpos == r && handed == count
    {
      readpos := r;
      handed := count;
    }

    /** Passes over unread bytes without handing them out. */
    method Skip(count: nat) returns (ok: bool)
      requires Valid() && Counting() && count <= |Pending()|
      modifies `readpos, `handed
      ensures ok && Valid() && Counting() && handed == old(handed) + count
      ensures Pending() == old(Pending())[count..]
    {
      Facts();
      hide Valid;
      hide Unread;
      hide Counted;
      var r' := Plus(readpos, count);
      PassedOver(live, readpos, writepos, r', beginRead, handed, count);
      hide *;
      MoveReader(r', handed + count);
      ok := true;
    }

    /** Hands out memory to write to: up to the end of the piece, or up to one byte before the reader. */
    method NextOut() returns (ok: bool, data: Slice)
      requires Valid()
      modifies `writepos
      ensures Valid() && Cut(live, data)
      ensures ok <==> !old(IsFull())
      ensures !ok ==> writepos == old(writepos)
      ensures ok && writepos != readpos ==> Pending() == old(Pending()) + SliceBytes(live, data)
      ensures ok && writepos == readpos ==> Pending() == [] && |old(Pending())| + data.len == Size(live)
    {
      var r, w := readpos, writepos;
      Facts();
      if IsFull() {
        return false, Slice(w.idx, w.pos, 0);
      }
      ok := true;
      if r.idx == w.idx && w.pos < r.pos - 1 {
        data := Slice(w.idx, w.pos, r.pos - 1 - w.pos);
        OutBefore(live, r, w);
        hide *;
        MoveWriter(Cursor(r.idx, r.pos - 1));
      } else {
        data := Slice(w.idx, w.pos, PieceSize(w.idx) - w.pos);
        OutRest(live, r, w);
        hide *;
        MoveWriter(Cursor(NextPiece(w.idx, |que|), 0));
      }
    }

    method MoveWriter(w: Cursor)
      requires Valid() && Inside(live, w)
      modifies `writepos
      ensures Valid() && writepos == w
    {
      writepos := w;
    }

    method GetBufferUsed() returns (n: nat)
      requires Valid()
      ensures n == |Pending()|
    {
      Facts();
      n := Minus(writepos, readpos);
    }

    /** With whole pieces only, what is left is what is not used. */
    method GetBufferLeft(pieceSize: nat) returns (n: nat)
      requires Valid() && Uniform(live, pieceSize) && Inside(live, readpos)
      ensures n + |Pending()| == |que| * pieceSize == Size(live)
    {
      Facts();
      UniformStart(live, pieceSize, |live|);
      SameSpot(live, readpos, writepos);
      SpotUnique(live, readpos, writepos);
      if readpos == writepos {
        return |que| * pieceSize;
      }
      n := Minus(readpos, writepos);
    }
  }
}
