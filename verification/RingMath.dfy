/** Arithmetic of cursors on a ring of pieces. The pieces' live bytes, laid end to end, number the spots of the
    ring; a cursor at the very end of a piece is at the spot of the next piece's first byte. */
module RingMath {
  type Pieces = seq<seq<char>>

  datatype Cursor = Cursor(idx: nat, pos: nat)

  ghost predicate Proper(ps: Pieces) {
    |ps| > 0 && forall i :: 0 <= i < |ps| ==> |ps[i]| > 0
  }

  /** All bytes of the first `i` pieces. */
  ghost function Joined(ps: Pieces, i: nat): seq<char>
    requires i <= |ps|
  {
    if i == 0 then [] else Joined(ps, i - 1) + ps[i - 1]
  }

  /** The first spot of piece `i`; the number of spots for the last `i`. */
  ghost function Start(ps: Pieces, i: nat): nat
    requires i <= |ps|
  {
    if i == 0 then 0 else Start(ps, i - 1) + |ps[i - 1]|
  }

  ghost function Size(ps: Pieces): nat {
    Start(ps, |ps|)
  }

  ghost predicate On(ps: Pieces, c: Cursor) {
    c.idx < |ps| && c.pos <= |ps[c.idx]|
  }

  ghost predicate Inside(ps: Pieces, c: Cursor) {
    c.idx < |ps| && c.pos < |ps[c.idx]|
  }

  function NextPiece(i: nat, n: nat): nat
    requires i < n
  {
    if i + 1 == n then 0 else i + 1
  }

  ghost function Wrap(x: int, size: nat): int {
    if x >= size then x - size else x
  }

  ghost function Spot(ps: Pieces, c: Cursor): int
    requires On(ps, c)
  {
    Wrap(Start(ps, c.idx) + c.pos, Size(ps))
  }

  ghost function Dist(x: int, y: int, size: nat): int
  {
    if x <= y then y - x else y + size - x
  }

  /** The spots passed on the way from `x` over `len` bytes. */
  ghost function Arc(x: int, len: int, size: nat): (r: seq<int>)
    ensures |r| == (if len < 0 then 0 else len) && forall j :: 0 <= j < |r| ==> r[j] == Wrap(x + j, size)
  {
    if len < 0 then [] else seq(len, j => Wrap(x + j, size))
  }

  lemma {:induction false} StartMonotone(ps: Pieces, i: nat, j: nat)
    requires i <= j <= |ps|
    ensures Start(ps, i) <= Start(ps, j)
    ensures i < j ==> Start(ps, i) + |ps[i]| <= Start(ps, j)
  {
    if i < j { StartMonotone(ps, i, j - 1); }
  }

  lemma {:induction false} StartGrows(ps: Pieces, i: nat, j: nat)
    requires Proper(ps) && i < j <= |ps|
    ensures Start(ps, i) < Start(ps, j)
  {
    StartMonotone(ps, i, j);
  }

  lemma {:induction false} JoinedLength(ps: Pieces, i: nat)
    requires i <= |ps|
    ensures |Joined(ps, i)| == Start(ps, i)
  {
    if i > 0 { JoinedLength(ps, i - 1); }
  }

  lemma {:induction false} JoinedAt(ps: Pieces, n: nat, i: nat, p: nat)
    requires i < n <= |ps| && p < |ps[i]|
    ensures |Joined(ps, n)| == Start(ps, n) && Start(ps, i) + p < Start(ps, n)
    ensures Joined(ps, n)[Start(ps, i) + p] == ps[i][p]
  {
    StartMonotone(ps, i, n);
    JoinedLength(ps, n);
    JoinedLength(ps, n - 1);
    if i < n - 1 { JoinedAt(ps, n - 1, i, p); }
  }

  /** Every spot belongs to a byte of a piece. */
  lemma {:induction false} SpotOwner(ps: Pieces, n: nat, x: nat) returns (i: nat, p: nat)
    requires n <= |ps| && x < Start(ps, n)
    ensures i < n && p < |ps[i]| && x == Start(ps, i) + p
  {
    if x < Start(ps, n - 1) {
      i, p := SpotOwner(ps, n - 1, x);
    } else {
      i, p := n - 1, x - Start(ps, n - 1);
    }
  }

  lemma PieceEnd(ps: Pieces, i: nat)
    requires Proper(ps) && i < |ps|
    ensures |ps[i]| > 0 && Start(ps, 0) == 0 && Start(ps, i) + |ps[i]| == Start(ps, i + 1) <= Size(ps)
    ensures if i + 1 < |ps| then Start(ps, i + 1) < Size(ps) else Start(ps, i + 1) == Size(ps)
  {
    StartMonotone(ps, i + 1, |ps|);
    if i + 1 < |ps| { StartGrows(ps, i + 1, |ps|); }
  }

  lemma InsideSpot(ps: Pieces, c: Cursor)
    requires Proper(ps) && On(ps, c)
    ensures 0 <= Spot(ps, c) < Size(ps)
    ensures Inside(ps, c) ==> Spot(ps, c) == Start(ps, c.idx) + c.pos
    ensures !Inside(ps, c) ==> Spot(ps, c) == Start(ps, NextPiece(c.idx, |ps|))
  {
    PieceEnd(ps, c.idx);
    hide Start;
    hide Proper;
    hide Size;
  }

  /** A cursor inside a piece is the only one at its spot. */
  lemma SpotUnique(ps: Pieces, a: Cursor, b: Cursor)
    requires Proper(ps) && Inside(ps, a) && Inside(ps, b)
    ensures Spot(ps, a) == Spot(ps, b) <==> a == b
  {
    InsideSpot(ps, a);
    InsideSpot(ps, b);
    if a.idx < b.idx { StartMonotone(ps, a.idx, b.idx); }
    if b.idx < a.idx { StartMonotone(ps, b.idx, a.idx); }
  }

  ghost function Range(lo: int, len: nat): seq<int> {
    seq(len, j => lo + j)
  }

  /** An arc, continued by a stretch that does not wrap. */
  lemma ArcExtended(x: int, len: nat, more: nat, size: nat)
    requires 0 <= x < size && len + more <= size && Wrap(x + len, size) + more <= size
    ensures Arc(x, len, size) + Range(Wrap(x + len, size), more) == Arc(x, len + more, size)
  {
    var a, b, c := Arc(x, len, size), Range(Wrap(x + len, size), more), Arc(x, len + more, size);
    forall j | 0 <= j < |c|
      ensures (a + b)[j] == c[j]
    {
      if j < len { assert a[j] == Wrap(x + j, size); } else { assert b[j - len] == Wrap(x + len, size) + (j - len); }
    }
  }

  lemma ArcSplit(x: int, len: nat, k: nat, size: nat)
    requires 0 <= x < size && k <= len <= size
    ensures Arc(x, k, size) == Arc(x, len, size)[..k]
    ensures Wrap(x + k, size) < size && Arc(Wrap(x + k, size), len - k, size) == Arc(x, len, size)[k..]
  {
    var y, a := Wrap(x + k, size), Arc(x, len, size);
    assert y < size;
    forall j | 0 <= j < len - k
      ensures Arc(y, len - k, size)[j] == a[k..][j]
    {
      assert a[k..][j] == a[k + j] == Wrap(x + (k + j), size);
      assert Arc(y, len - k, size)[j] == Wrap(y + j, size);
    }
  }

  // ---------- bytes ----------

  ghost function Gather(bytes: seq<char>, spots: seq<int>): (r: seq<char>)
    requires forall j :: 0 <= j < |spots| ==> 0 <= spots[j] < |bytes|
    ensures |r| == |spots| && forall j :: 0 <= j < |r| ==> r[j] == bytes[spots[j]]
  {
    seq(|spots|, j requires 0 <= j < |spots| => bytes[spots[j]])
  }

  /** All bytes of the ring, by spot. */
  ghost function Memory(ps: Pieces): (r: seq<char>)
    ensures |r| == Size(ps)
  {
    JoinedLength(ps, |ps|);
    Joined(ps, |ps|)
  }

  /** How far it is from one cursor to another: zero from a cursor to itself. */
  ghost function Between(ps: Pieces, a: Cursor, b: Cursor): int
    requires On(ps, a) && On(ps, b)
  {
    Dist(Spot(ps, a), Spot(ps, b), Size(ps))
  }

  /** The bytes met on the way from `c` over a distance. */
  ghost function Bytes(ps: Pieces, c: Cursor, len: nat): (r: seq<char>)
    requires Proper(ps) && On(ps, c) && len <= Size(ps)
    ensures |r| == len
  {
    InsideSpot(ps, c);
    Gather(Memory(ps), Arc(Spot(ps, c), len, Size(ps)))
  }

  /** The stream's bytes that are in the ring. */
  ghost function Unread(ps: Pieces, r: Cursor, w: Cursor): (u: seq<char>)
    requires Proper(ps) && On(ps, r) && On(ps, w)
    ensures |u| == Between(ps, r, w) < Size(ps)
  {
    InsideSpot(ps, r);
    InsideSpot(ps, w);
    Bytes(ps, r, Between(ps, r, w))
  }

  /** A number of bytes from spot zero on, as a spot. */
  ghost function Fold(x: nat, size: nat): nat
    requires size > 0
  {
    if x < size then x else Fold(x - size, size)
  }

  lemma {:induction false} FoldTwice(x: nat, k: nat, size: nat)
    requires size > 0
    ensures Fold(x, size) < size
    ensures Fold(Fold(x, size) + k, size) == Fold(x + k, size)
  {
    if x >= size {
      FoldTwice(x - size, k, size);
    }
  }

  lemma BytesSplit(ps: Pieces, c: Cursor, c': Cursor, k: nat, len: nat)
    requires Proper(ps) && On(ps, c) && On(ps, c') && k <= len <= Size(ps) && k < Size(ps)
    requires 0 <= Spot(ps, c) && Spot(ps, c') == Fold(Spot(ps, c) + k, Size(ps))
    ensures Bytes(ps, c, len) == Bytes(ps, c, k) + Bytes(ps, c', len - k)
  {
    InsideSpot(ps, c);
    InsideSpot(ps, c');
    ArcSplit(Spot(ps, c), len, k, Size(ps));
    var a, b, d := Bytes(ps, c, k), Bytes(ps, c', len - k), Bytes(ps, c, len);
    var x, t := Arc(Spot(ps, c), len, Size(ps)), Size(ps);
    assert Arc(Spot(ps, c), k, t) == x[..k] && Arc(Spot(ps, c'), len - k, t) == x[k..];
    forall j | 0 <= j < len
      ensures d[j] == (a + b)[j]
    {
      if j < k { assert x[..k][j] == x[j]; } else { assert x[k..][j - k] == x[j]; }
    }
  }

  /** Reading on leaves the rest. */
  lemma Consumed(ps: Pieces, r: Cursor, w: Cursor, r': Cursor, k: nat)
    requires Proper(ps) && On(ps, r) && On(ps, w) && On(ps, r') && k <= |Unread(ps, r, w)|
    requires 0 <= Spot(ps, r) && Spot(ps, r') == Fold(Spot(ps, r) + k, Size(ps))
    ensures Unread(ps, r, w) == Bytes(ps, r, k) + Unread(ps, r', w)
  {
    InsideSpot(ps, r);
    InsideSpot(ps, w);
    InsideSpot(ps, r');
    BytesSplit(ps, r, r', k, Between(ps, r, w));
  }

  /** Writing on, by less than is free, adds what is passed. */
  lemma Extended(ps: Pieces, r: Cursor, w: Cursor, w': Cursor, k: nat)
    requires Proper(ps) && On(ps, r) && On(ps, w) && On(ps, w') && |Unread(ps, r, w)| + k < Size(ps)
    requires 0 <= Spot(ps, w) && Spot(ps, w') == Fold(Spot(ps, w) + k, Size(ps))
    ensures Unread(ps, r, w') == Unread(ps, r, w) + Bytes(ps, w, k)
  {
    InsideSpot(ps, r);
    InsideSpot(ps, w);
    InsideSpot(ps, w');
    BytesSplit(ps, r, w, Between(ps, r, w), Between(ps, r, w'));
  }

  /** Writing on by all that is free looks like nothing was written. */
  lemma FilledUp(ps: Pieces, r: Cursor, w: Cursor, w': Cursor, k: nat)
    requires Proper(ps) && On(ps, r) && On(ps, w) && On(ps, w') && |Unread(ps, r, w)| + k == Size(ps)
    requires 0 <= Spot(ps, w) && Spot(ps, w') == Fold(Spot(ps, w) + k, Size(ps))
    ensures Unread(ps, r, w') == []
  {
    InsideSpot(ps, r);
    InsideSpot(ps, w);
    InsideSpot(ps, w');
  }

  // ---------- cutting a piece short ----------

  ghost function CutShort(ps: Pieces, c: Cursor): (r: Pieces)
    requires On(ps, c)
    ensures |r| == |ps|
  {
    ps[c.idx := ps[c.idx][..c.pos]]
  }

  lemma {:induction false} StartCut(ps: Pieces, c: Cursor, n: nat)
    requires On(ps, c) && n <= |ps|
    ensures Start(CutShort(ps, c), n) == Start(ps, n) - (if n > c.idx then |ps[c.idx]| - c.pos else 0)
  {
    if n > 0 { StartCut(ps, c, n - 1); }
  }

  /** The bytes before the cut stay where they are; those behind move down. */
  lemma MemoryCut(ps: Pieces, c: Cursor, x: nat)
    requires On(ps, c) && x < Size(CutShort(ps, c))
    ensures var y := if x < Start(ps, c.idx) + c.pos then x else x + |ps[c.idx]| - c.pos;
      y < Size(ps) && Memory(CutShort(ps, c))[x] == Memory(ps)[y]
  {
    var qs := CutShort(ps, c);
    var i, p := SpotOwner(qs, |qs|, x);
    StartCut(ps, c, i);
    JoinedAt(qs, |qs|, i, p);
    JoinedAt(ps, |ps|, i, p);
    if i < c.idx { StartMonotone(ps, i, c.idx); }
    if i > c.idx { StartMonotone(ps, c.idx, i); }
  }

  /** Where a cursor that is not in the part cut off is afterwards. */
  lemma SpotCut(ps: Pieces, c: Cursor, a: Cursor)
    requires Proper(ps) && Inside(ps, c) && c.pos > 0 && On(ps, a) && (a.idx == c.idx ==> a.pos <= c.pos)
    ensures Proper(CutShort(ps, c)) && On(CutShort(ps, c), a) && 0 <= Spot(CutShort(ps, c), a) < Size(CutShort(ps, c))
    ensures var cut, at := |ps[c.idx]| - c.pos, Start(ps, c.idx) + c.pos;
      && Size(CutShort(ps, c)) == Size(ps) - cut && 0 < cut && at + cut <= Size(ps)
      && (if a == c then Spot(CutShort(ps, c), a) == Wrap(at, Size(ps) - cut)
          else if Spot(ps, a) < at then Spot(CutShort(ps, c), a) == Spot(ps, a)
          else Spot(ps, a) >= at + cut && Spot(CutShort(ps, c), a) == Spot(ps, a) - cut)
  {
    var qs := CutShort(ps, c);
    StartCut(ps, c, a.idx);
    StartCut(ps, c, |ps|);
    StartCut(ps, c, NextPiece(a.idx, |ps|));
    InsideSpot(ps, a);
    InsideSpot(qs, a);
    StartMonotone(ps, c.idx, |ps|);
    var n := if Inside(ps, a) then a.idx else NextPiece(a.idx, |ps|);
    if n < c.idx { StartMonotone(ps, n, c.idx); }
    if n > c.idx { StartMonotone(ps, c.idx, n); }
  }

  /** Cutting the writer's piece at the writer, with the reader elsewhere or before it, and more than one piece. */
  ghost predicate Cuttable(ps: Pieces, r: Cursor, w: Cursor) {
    && Proper(ps) && |ps| > 1 && On(ps, r) && Inside(ps, w) && w.pos > 0 && !(r.idx == w.idx && r.pos > w.pos)
  }

  lemma TruncationLength(ps: Pieces, r: Cursor, w: Cursor)
    requires Cuttable(ps, r, w) && Cursor(NextPiece(w.idx, |ps|), 0) != r
    ensures var qs, w' := CutShort(ps, w), Cursor(NextPiece(w.idx, |ps|), 0);
      Proper(qs) && On(qs, r) && Inside(qs, w') && |Unread(qs, r, w')| == |Unread(ps, r, w)|
  {
    var w' := Cursor(NextPiece(w.idx, |ps|), 0);
    SpotCut(ps, w, r);
    SpotCut(ps, w, w');
    InsideSpot(ps, w);
    InsideSpot(ps, w');
    InsideSpot(ps, r);
    assert Start(ps, w.idx + 1) == Start(ps, w.idx) + |ps[w.idx]|;
    var r0 := if Inside(ps, r) then r else Cursor(NextPiece(r.idx, |ps|), 0);
    SpotUnique(ps, r0, w');
  }

  lemma TruncationByte(ps: Pieces, r: Cursor, w: Cursor, j: nat)
    requires Cuttable(ps, r, w) && Proper(CutShort(ps, w)) && On(CutShort(ps, w), r)
    requires j < |Unread(ps, r, w)|
    ensures 0 <= Spot(CutShort(ps, w), r) < Size(CutShort(ps, w)) && j < Size(CutShort(ps, w))
    ensures Wrap(Spot(ps, r) + j, Size(ps)) < Size(ps) && 0 <= Spot(ps, r)
    ensures Wrap(Spot(CutShort(ps, w), r) + j, Size(CutShort(ps, w))) < Size(CutShort(ps, w))
    ensures var qs := CutShort(ps, w);
      Memory(qs)[Wrap(Spot(qs, r) + j, Size(qs))] == Memory(ps)[Wrap(Spot(ps, r) + j, Size(ps))]
  {
    var qs := CutShort(ps, w);
    SpotCut(ps, w, r);
    InsideSpot(ps, w);
    InsideSpot(ps, r);
    MemoryCut(ps, w, Wrap(Spot(qs, r) + j, Size(qs)));
  }

  /** Giving up the rest of the writer's piece does not change the stream, unless the next piece begins where the
      reader is. */
  lemma TruncationKeeps(ps: Pieces, r: Cursor, w: Cursor)
    requires Cuttable(ps, r, w) && Cursor(NextPiece(w.idx, |ps|), 0) != r
    ensures var qs, w' := CutShort(ps, w), Cursor(NextPiece(w.idx, |ps|), 0);
      Proper(qs) && On(qs, r) && Inside(qs, w') && Unread(qs, r, w') == Unread(ps, r, w)
  {
    TruncationLength(ps, r, w);
    var qs, w' := CutShort(ps, w), Cursor(NextPiece(w.idx, |ps|), 0);
    var a, b := Unread(ps, r, w), Unread(qs, r, w');
    forall j | 0 <= j < |a|
      ensures a[j] == b[j]
    {
      TruncationByte(ps, r, w, j);
    }
  }

  /** Otherwise the ring reads as empty, although it was not. */
  lemma TruncationLoses(ps: Pieces, r: Cursor, w: Cursor)
    requires Cuttable(ps, r, w) && Cursor(NextPiece(w.idx, |ps|), 0) == r
    ensures Proper(CutShort(ps, w)) && On(CutShort(ps, w), r)
    ensures Unread(CutShort(ps, w), r, r) == [] != Unread(ps, r, w)
  {
    SpotCut(ps, w, r);
    SpotUnique(ps, r, w);
  }

  // ---------- storing ----------

  ghost predicate SameShape(ps: Pieces, qs: Pieces) {
    |ps| == |qs| && forall i :: 0 <= i < |ps| ==> |ps[i]| == |qs[i]|
  }

  lemma {:induction false} ShapeStart(ps: Pieces, qs: Pieces, i: nat)
    requires SameShape(ps, qs) && i <= |ps|
    ensures Start(ps, i) == Start(qs, i)
  {
    if i > 0 { ShapeStart(ps, qs, i - 1); }
  }

  /** Bytes put into piece `i` from position `p` on. */
  ghost function Stored(ps: Pieces, i: nat, p: nat, bytes: seq<char>): (r: Pieces)
    requires i < |ps| && p + |bytes| <= |ps[i]|
    ensures SameShape(ps, r)
  {
    ps[i := ps[i][..p] + bytes + ps[i][p + |bytes|..]]
  }

  lemma StoredAt(ps: Pieces, i: nat, p: nat, bytes: seq<char>, x: nat)
    requires i < |ps| && p + |bytes| <= |ps[i]| && x < Size(ps)
    ensures Size(Stored(ps, i, p, bytes)) == Size(ps) && Start(ps, i) + p + |bytes| <= Size(ps)
    ensures var at := Start(ps, i) + p;
      Memory(Stored(ps, i, p, bytes))[x] == if at <= x < at + |bytes| then bytes[x - at] else Memory(ps)[x]
  {
    var qs := Stored(ps, i, p, bytes);
    ShapeStart(ps, qs, |ps|);
    StartMonotone(ps, i, |ps|);
    var k, y := SpotOwner(ps, |ps|, x);
    ShapeStart(ps, qs, k);
    JoinedAt(ps, |ps|, k, y);
    JoinedAt(qs, |ps|, k, y);
    if k < i { StartMonotone(ps, k, i); }
    if k > i { StartMonotone(ps, i, k); }
  }

  /** The memory after `bytes` went to the spots from `x` on, and nothing anywhere else. */
  ghost predicate Filled(before: seq<char>, after: seq<char>, x: int, bytes: seq<char>) {
    && |before| == |after| && 0 <= x < |after| && |bytes| <= |after|
    && (forall j :: 0 <= j < |after| ==> FilledAt(before, after, x, bytes, j))
  }

  ghost predicate FilledAt(before: seq<char>, after: seq<char>, x: int, bytes: seq<char>, j: nat)
  {
    && 0 <= Wrap(x + j, |after|) < |after| == |before|
    && after[Wrap(x + j, |after|)] == if j < |bytes| then bytes[j] else before[Wrap(x + j, |after|)]
  }

  /** Filling goes on with the next bytes, which do not wrap. */
  lemma FilledOn(before: seq<char>, mid: seq<char>, after: seq<char>, x: int, done: seq<char>, more: seq<char>, at: int)
    requires Filled(before, mid, x, done) && |after| == |mid| && |done| + |more| <= |mid|
    requires more != [] ==> at == Wrap(x + |done|, |mid|) && at + |more| <= |mid|
    requires forall y :: 0 <= y < |after| ==> after[y] == if at <= y < at + |more| then more[y - at] else mid[y]
    ensures Filled(before, after, x, done + more)
  {
    forall j | 0 <= j < |after|
      ensures FilledAt(before, after, x, done + more, j)
    {
      assert FilledAt(before, mid, x, done, j);
    }
  }

  /** Storing into free spots leaves the unread bytes alone, and the spots hold the new bytes. */
  lemma FilledFree(ps: Pieces, qs: Pieces, r: Cursor, w: Cursor, bytes: seq<char>)
    requires Proper(ps) && SameShape(ps, qs) && On(ps, r) && On(ps, w)
    requires |Unread(ps, r, w)| + |bytes| <= Size(ps)
    requires Filled(Memory(ps), Memory(qs), Spot(ps, w), bytes)
    ensures Proper(qs) && On(qs, r) && On(qs, w) && Size(qs) == Size(ps)
    ensures Unread(qs, r, w) == Unread(ps, r, w) && Bytes(qs, w, |bytes|) == bytes
  {
    hide Start;
    hide Fold;
    ShapeStart(ps, qs, |ps|);
    ShapeStart(ps, qs, r.idx);
    ShapeStart(ps, qs, w.idx);
    InsideSpot(ps, r);
    InsideSpot(ps, w);
    var a, b, t := Unread(ps, r, w), Unread(qs, r, w), Size(ps);
    forall j | 0 <= j < |a|
      ensures a[j] == b[j]
    {
      assert FilledAt(Memory(ps), Memory(qs), Spot(ps, w), bytes, j + t - |a|);
      assert Wrap(Spot(ps, w) + (j + t - |a|), t) == Wrap(Spot(ps, r) + j, t);
    }
    forall j | 0 <= j < |bytes|
      ensures Bytes(qs, w, |bytes|)[j] == bytes[j]
    {
      assert FilledAt(Memory(ps), Memory(qs), Spot(ps, w), bytes, j);
    }
  }

  /** The unread and the free spots are all the spots, each once. */
  lemma Tiling(ps: Pieces, r: Cursor, w: Cursor)
    requires Proper(ps) && On(ps, r) && On(ps, w)
    ensures 0 <= Spot(ps, r) < Size(ps) && Between(ps, r, w) >= 0
    ensures Arc(Spot(ps, r), Between(ps, r, w), Size(ps)) + Arc(Spot(ps, w), Size(ps) - Between(ps, r, w), Size(ps))
         == Arc(Spot(ps, r), Size(ps), Size(ps))
    ensures var all := Arc(Spot(ps, r), Size(ps), Size(ps));
      && (forall i, j :: 0 <= i < j < |all| ==> all[i] != all[j])
      && (forall x :: 0 <= x < Size(ps) ==> x in all)
  {
    InsideSpot(ps, r);
    InsideSpot(ps, w);
    ArcSplit(Spot(ps, r), Size(ps), Between(ps, r, w), Size(ps));
    var all := Arc(Spot(ps, r), Size(ps), Size(ps));
    forall x | 0 <= x < Size(ps)
      ensures x in all
    {
      var j := if x >= Spot(ps, r) then x - Spot(ps, r) else x + Size(ps) - Spot(ps, r);
      assert all[j] == x;
    }
  }

  // ---------- chunks of one piece ----------

  /** The bytes of a stretch that stays in one piece. */
  lemma BytesOfPiece(ps: Pieces, c: Cursor, k: nat)
    requires Proper(ps) && On(ps, c) && c.pos + k <= |ps[c.idx]|
    ensures k <= Size(ps) && Bytes(ps, c, k) == ps[c.idx][c.pos..c.pos + k]
  {
    InsideSpot(ps, c);
    PieceEnd(ps, c.idx);
    var a, b := Bytes(ps, c, k), ps[c.idx][c.pos..c.pos + k];
    forall j | 0 <= j < k
      ensures a[j] == b[j]
    {
      JoinedAt(ps, |ps|, c.idx, c.pos + j);
    }
  }

  /** The end of a piece is the start of the next one. */
  lemma PieceDone(ps: Pieces, c: Cursor)
    requires Proper(ps) && On(ps, c)
    ensures var c' := Cursor(NextPiece(c.idx, |ps|), 0);
      Inside(ps, c') && 0 <= Spot(ps, c) && Spot(ps, c') == Fold(Spot(ps, c) + (|ps[c.idx]| - c.pos), Size(ps))
  {
    InsideSpot(ps, c);
    InsideSpot(ps, Cursor(NextPiece(c.idx, |ps|), 0));
    PieceEnd(ps, c.idx);
  }

  lemma Moved(ps: Pieces, c: Cursor, c': Cursor)
    requires Proper(ps) && On(ps, c) && Inside(ps, c') && c.idx == c'.idx && c.pos <= c'.pos
    ensures 0 <= Spot(ps, c) && Spot(ps, c') == Fold(Spot(ps, c) + (c'.pos - c.pos), Size(ps))
  {
    InsideSpot(ps, c);
    InsideSpot(ps, c');
  }

  /** From a cursor to another that is not further on in the same piece it is at least the rest of the piece. */
  lemma RestOfPiece(ps: Pieces, a: Cursor, b: Cursor)
    requires Proper(ps) && On(ps, a) && Inside(ps, b) && a != b && !(a.idx == b.idx && a.pos < b.pos)
    ensures |ps[a.idx]| - a.pos <= Between(ps, a, b)
  {
    InsideSpot(ps, a);
    InsideSpot(ps, b);
    PieceEnd(ps, a.idx);
    if a.idx < b.idx { StartMonotone(ps, a.idx, b.idx); } else if b.idx < a.idx { StartMonotone(ps, b.idx, a.idx); }
  }

  lemma SameSpot(ps: Pieces, a: Cursor, b: Cursor)
    requires Proper(ps) && On(ps, a) && On(ps, b)
    ensures Between(ps, a, b) == 0 <==> Spot(ps, a) == Spot(ps, b)
    ensures Between(ps, a, b) > 0 ==> Between(ps, a, b) + Between(ps, b, a) == Size(ps)
  {
    InsideSpot(ps, a);
    InsideSpot(ps, b);
  }

  // ---------- pieces of equal size ----------

  ghost predicate Uniform(ps: Pieces, size: nat) {
    Proper(ps) && forall i :: 0 <= i < |ps| ==> |ps[i]| == size
  }

  lemma {:induction false} UniformStart(ps: Pieces, size: nat, i: nat)
    requires Uniform(ps, size) && i <= |ps|
    ensures Start(ps, i) == i * size
  {
    if i > 0 { UniformStart(ps, size, i - 1); }
  }

  /** The spot a number of bytes back. */
  ghost function Back(x: int, k: nat, size: nat): int {
    if x >= k then x - k else x - k + size
  }

  /** `-=` undoes `+=`, and `+=` is additive. */
  lemma Undone(ps: Pieces, c: Cursor, d: Cursor, e: Cursor, k: nat)
    requires Proper(ps) && Inside(ps, c) && Inside(ps, d) && Inside(ps, e) && k <= Size(ps)
    requires 0 <= Spot(ps, c) && Spot(ps, d) == Fold(Spot(ps, c) + k, Size(ps))
    requires Spot(ps, e) == Back(Spot(ps, d), k, Size(ps))
    ensures e == c
  {
    InsideSpot(ps, c);
    SpotUnique(ps, c, e);
  }

  lemma Additive(ps: Pieces, c: Cursor, d: Cursor, e: Cursor, f: Cursor, j: nat, k: nat)
    requires Proper(ps) && On(ps, c) && Inside(ps, d) && Inside(ps, e) && Inside(ps, f) && 0 <= Spot(ps, c)
    requires 0 <= Spot(ps, d)
    requires Spot(ps, d) == Fold(Spot(ps, c) + j, Size(ps)) && Spot(ps, e) == Fold(Spot(ps, d) + k, Size(ps))
    requires Spot(ps, f) == Fold(Spot(ps, c) + (j + k), Size(ps))
    ensures e == f
  {
    FoldTwice(Spot(ps, c) + j, k, Size(ps));
    SpotUnique(ps, e, f);
  }

  lemma FoldCancel(x: nat, y: nat, k: nat, size: nat)
    requires x < size && y < size && k <= size && Fold(x + k, size) == Fold(y + k, size)
    ensures x == y
  {
    assert Back(Fold(x + k, size), k, size) == x;
    assert Back(Fold(y + k, size), k, size) == y;
  }

  lemma FoldDist(x: nat, k: nat, size: nat)
    requires x < size && k < size
    ensures Dist(x, Fold(x + k, size), size) == k
  {
    assert Fold(x + k, size) == Wrap(x + k, size);
  }
}
