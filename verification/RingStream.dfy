/** A ring buffer used as a byte stream: what was read, followed by what is in the ring, is what was written. */
module RingStream {
  import opened RingMath
  import opened RingBuffer

  lemma SpotsStep(ps: Pieces, iov: seq<Slice>, i: nat)
    requires AllCut(ps, iov) && i < |iov|
    ensures AllCut(ps, iov[..i]) && AllCut(ps, iov[..i + 1])
    ensures Spots(ps, iov[..i + 1]) == Spots(ps, iov[..i]) + Range(Start(ps, iov[i].idx) + iov[i].start, iov[i].len)
  {
    assert iov[..i + 1][..i] == iov[..i];
  }

  lemma {:induction false} SpotsPrefix(ps: Pieces, iov: seq<Slice>, i: nat)
    requires AllCut(ps, iov) && i <= |iov|
    ensures AllCut(ps, iov[..i]) && Spots(ps, iov[..i]) <= Spots(ps, iov)
    decreases |iov| - i
  {
    if i < |iov| {
      SpotsStep(ps, iov, i);
      SpotsPrefix(ps, iov, i + 1);
    } else {
      assert iov[..i] == iov;
    }
  }

  /** The next slice begins where the ones before end. */
  lemma NextSpot(ps: Pieces, iov: seq<Slice>, i: nat, x: int, len: nat)
    requires AllCut(ps, iov) && i < |iov| && Spots(ps, iov) == Arc(x, len, Size(ps))
    ensures AllCut(ps, iov[..i]) && AllCut(ps, iov[..i + 1])
    ensures |Spots(ps, iov[..i + 1])| == |Spots(ps, iov[..i])| + iov[i].len <= len
    ensures iov[i].len > 0 ==> Start(ps, iov[i].idx) + iov[i].start == Wrap(x + |Spots(ps, iov[..i])|, Size(ps))
  {
    SpotsPrefix(ps, iov, i);
    SpotsStep(ps, iov, i);
    SpotsPrefix(ps, iov, i + 1);
    if iov[i].len > 0 {
      assert Spots(ps, iov[..i + 1])[|Spots(ps, iov[..i])|] == Start(ps, iov[i].idx) + iov[i].start;
    }
  }

  lemma StoredAll(ps: Pieces, qs: Pieces, x: int, done: seq<char>, s: Slice, part: seq<char>)
    requires SameShape(ps, qs) && Filled(Memory(ps), Memory(qs), x, done) && Cut(ps, s) && |part| <= s.len
    requires |done| + |part| <= Size(ps)
    requires part != [] ==> Start(ps, s.idx) + s.start == Wrap(x + |done|, Size(ps))
    ensures Cut(qs, s) && SameShape(ps, Stored(qs, s.idx, s.start, part))
    ensures Filled(Memory(ps), Memory(Stored(qs, s.idx, s.start, part)), x, done + part)
  {
    ShapeStart(ps, qs, s.idx);
    ShapeStart(ps, qs, |ps|);
    var at, qs' := Start(qs, s.idx) + s.start, Stored(qs, s.idx, s.start, part);
    if Size(qs) > 0 { StoredAt(qs, s.idx, s.start, part, 0); }
    forall y | 0 <= y < Size(qs)
      ensures y < |Memory(qs')| == Size(qs)
      ensures Memory(qs')[y] == if at <= y < at + |part| then part[y - at] else Memory(qs)[y]
    {
      StoredAt(qs, s.idx, s.start, part, y);
    }
    FilledOn(Memory(ps), Memory(qs), Memory(qs'), x, done, part, at);
  }

  /** Writes bytes into one slice. */
  method StoreSlice(ring: Ring, s: Slice, bytes: seq<char>)
    requires ring.Valid() && Cut(ring.live, s) && |bytes| <= s.len
    modifies ring`live, ring.buffers
    ensures ring.Valid() && old(Cut(ring.live, s)) && ring.live == Stored(old(ring.live), s.idx, s.start, bytes)
  {
    var b := ring.que[s.idx].buffer;
    ghost var was := b[..];
    forall j | 0 <= j < |bytes| {
      b[s.start + j] := bytes[j];
    }
    ring.live := Stored(ring.live, s.idx, s.start, bytes);
    assert ring.live[s.idx] == b[..ring.que[s.idx].size];
    forall i | 0 <= i < |ring.que| && i != s.idx
      ensures ring.live[i] == ring.que[i].buffer[..ring.que[i].size]
    {
      assert ring.que[i].buffer != b;
    }
  }

  /** `readv`: spreads bytes over the slices, in order. */
  method Readv(ring: Ring, iov: seq<Slice>, bytes: seq<char>, ghost x: int, ghost len: nat)
    requires ring.Valid() && AllCut(ring.live, iov) && Spots(ring.live, iov) == Arc(x, len, Size(ring.live))
    requires 0 <= x < Size(ring.live) && |bytes| <= len <= Size(ring.live)
    modifies ring`live, ring.buffers
    ensures ring.Valid() && SameShape(old(ring.live), ring.live)
    ensures Filled(Memory(old(ring.live)), Memory(ring.live), x, bytes)
  {
    ghost var ps, done := ring.live, [];
    StartFilling(ps, x, len);
    hide *;
    var rest := bytes;
    for i := 0 to |iov|
      invariant ring.Valid() && SameShape(ps, ring.live)
      invariant done + rest == bytes && UpTo(ps, iov, i, done, rest)
      invariant Filled(Memory(ps), Memory(ring.live), x, done)
    {
      var k := if iov[i].len < |rest| then iov[i].len else |rest|;
      ReadvStep(ps, ring.live, iov, i, x, len, done, rest);
      StoreSlice(ring, iov[i], rest[..k]);
      Regroup(done, rest, k);
      done := done + rest[..k];
      rest := rest[k..];
    }
    AllRead(ps, iov, x, len, done, rest);
  }

  /** After some slices, `done` went into them, and `rest` is left only when they are full. */
  ghost predicate UpTo(ps: Pieces, iov: seq<Slice>, i: nat, done: seq<char>, rest: seq<char>) {
    && i <= |iov| && AllCut(ps, iov[..i]) && |done| <= |Spots(ps, iov[..i])|
    && (rest == [] || |done| == |Spots(ps, iov[..i])|)
  }

  lemma ReadvStep(ps: Pieces, qs: Pieces, iov: seq<Slice>, i: nat, x: int, len: nat, done: seq<char>, rest: seq<char>)
    requires AllCut(ps, iov) && i < |iov| && Spots(ps, iov) == Arc(x, len, Size(ps)) && |done + rest| <= len <= Size(ps)
    requires UpTo(ps, iov, i, done, rest) && SameShape(ps, qs) && Filled(Memory(ps), Memory(qs), x, done)
    ensures Cut(qs, iov[i])
    ensures var k := if iov[i].len < |rest| then iov[i].len else |rest|;
      var qs' := Stored(qs, iov[i].idx, iov[i].start, rest[..k]);
      && SameShape(ps, qs') && Filled(Memory(ps), Memory(qs'), x, done + rest[..k])
      && UpTo(ps, iov, i + 1, done + rest[..k], rest[k..])
  {
    NextSpot(ps, iov, i, x, len);
    var k := if iov[i].len < |rest| then iov[i].len else |rest|;
    StoredAll(ps, qs, x, done, iov[i], rest[..k]);
  }

  lemma Regroup(done: seq<char>, rest: seq<char>, k: nat)
    requires k <= |rest|
    ensures (done + rest[..k]) + rest[k..] == done + rest
  {
  }

  lemma AllRead(ps: Pieces, iov: seq<Slice>, x: int, len: nat, done: seq<char>, rest: seq<char>)
    requires AllCut(ps, iov) && UpTo(ps, iov, |iov|, done, rest) && Spots(ps, iov) == Arc(x, len, Size(ps))
    requires |done + rest| <= len
    ensures done + rest == done
  {
    assert iov[..|iov|] == iov;
  }

  lemma StartFilling(ps: Pieces, x: int, len: nat)
    requires 0 <= x < Size(ps)
    ensures SameShape(ps, ps) && Filled(Memory(ps), Memory(ps), x, [])
    ensures forall iov: seq<Slice>, rest :: UpTo(ps, iov, 0, [], rest)
  {
    forall j | 0 <= j < Size(ps)
      ensures FilledAt(Memory(ps), Memory(ps), x, [], j)
    {
    }
  }

  lemma SliceByte(ps: Pieces, s: Slice, j: nat)
    requires Proper(ps) && Cut(ps, s) && j < s.len
    ensures Start(ps, s.idx) + s.start + j < Size(ps)
    ensures Memory(ps)[Start(ps, s.idx) + s.start + j] == SliceBytes(ps, s)[j]
  {
    JoinedAt(ps, |ps|, s.idx, s.start + j);
  }

  /** The bytes a sequence of slices carries. */
  ghost function Carried(ps: Pieces, iov: seq<Slice>): seq<char>
    requires AllCut(ps, iov)
  {
    if iov == [] then []
    else
      assert Cut(ps, iov[|iov| - 1]);
      Carried(ps, iov[..|iov| - 1]) + SliceBytes(ps, iov[|iov| - 1])
  }

  /** `bytes` are what memory has at `spots`. */
  ghost predicate Found(memory: seq<char>, bytes: seq<char>, spots: seq<int>) {
    |bytes| == |spots| && forall j :: 0 <= j < |bytes| ==> 0 <= spots[j] < |memory| && memory[spots[j]] == bytes[j]
  }

  lemma FoundMore(memory: seq<char>, a: seq<char>, x: seq<int>, b: seq<char>, y: seq<int>)
    requires Found(memory, a, x) && Found(memory, b, y)
    ensures Found(memory, a + b, x + y)
  {
  }

  lemma SliceFound(ps: Pieces, s: Slice)
    requires Proper(ps) && Cut(ps, s)
    ensures Found(Memory(ps), SliceBytes(ps, s), Range(Start(ps, s.idx) + s.start, s.len))
  {
    var b, y := SliceBytes(ps, s), Range(Start(ps, s.idx) + s.start, s.len);
    forall j | 0 <= j < |b|
      ensures 0 <= y[j] < |Memory(ps)| && Memory(ps)[y[j]] == b[j]
    {
      SliceByte(ps, s, j);
      assert y[j] == Start(ps, s.idx) + s.start + j;
    }
  }

  lemma {:induction false} CarriedSpots(ps: Pieces, iov: seq<Slice>)
    requires Proper(ps) && AllCut(ps, iov)
    ensures Found(Memory(ps), Carried(ps, iov), Spots(ps, iov))
  {
    hide Found;
    hide Proper;
    if iov != [] {
      var s, front := iov[|iov| - 1], iov[..|iov| - 1];
      assert Cut(ps, s) && AllCut(ps, front);
      CarriedSpots(ps, front);
      SliceFound(ps, s);
      FoundMore(Memory(ps), Carried(ps, front), Spots(ps, front), SliceBytes(ps, s),
                Range(Start(ps, s.idx) + s.start, s.len));
    } else {
      NoneFound(Memory(ps));
    }
  }

  lemma NoneFound(memory: seq<char>)
    ensures Found(memory, [], [])
  {
  }

  /** The slices for sending carry exactly the unread bytes. */
  lemma SendSlices(ps: Pieces, r: Cursor, end: Cursor, iov: seq<Slice>)
    requires Proper(ps) && On(ps, r) && On(ps, end) && AllCut(ps, iov)
    requires Spots(ps, iov) == Arc(Spot(ps, r), Between(ps, r, end), Size(ps))
    ensures Carried(ps, iov) == Unread(ps, r, end)
  {
    InsideSpot(ps, r);
    InsideSpot(ps, end);
    CarriedSpots(ps, iov);
  }

  lemma CarriedNone(ps: Pieces, iov: seq<Slice>)
    requires AllCut(ps, iov)
    ensures AllCut(ps, iov[..0]) && Carried(ps, iov[..0]) == [] && iov[..|iov|] == iov
  {
  }

  lemma CarriedStep(ps: Pieces, iov: seq<Slice>, i: nat)
    requires AllCut(ps, iov) && i < |iov|
    ensures Cut(ps, iov[i]) && AllCut(ps, iov[..i]) && AllCut(ps, iov[..i + 1])
    ensures Carried(ps, iov[..i + 1]) == Carried(ps, iov[..i]) + SliceBytes(ps, iov[i])
  {
    assert iov[..i + 1][..i] == iov[..i];
  }

  /** `writev`: the bytes of the slices, in order. */
  method Writev(ring: Ring, iov: seq<Slice>) returns (bytes: seq<char>)
    requires ring.Valid() && AllCut(ring.live, iov)
    ensures bytes == Carried(ring.live, iov)
  {
    bytes := [];
    CarriedNone(ring.live, iov);
    for i := 0 to |iov|
      invariant AllCut(ring.live, iov[..i]) && bytes == Carried(ring.live, iov[..i])
    {
      CarriedStep(ring.live, iov, i);
      bytes := bytes + LoadSlice(ring, iov[i]);
    }
  }

  /** What one slice holds. */
  function LoadSlice(ring: Ring, s: Slice): (b: seq<char>)
    requires ring.Valid() && Cut(ring.live, s)
    reads ring, ring.que, ring.buffers
    ensures b == SliceBytes(ring.live, s)
  {
    assert ring.live[s.idx] == ring.que[s.idx].buffer[..ring.que[s.idx].size];
    ring.que[s.idx].buffer[s.start..s.start + s.len]
  }

  /** Receives as many of the bytes as fit, unless the ring is found full. When they take all that is free, the
      writer meets the reader, and everything unread is lost. */
  method Receive(ring: Ring, bytes: seq<char>) returns (n: nat)
    requires ring.Valid()
    modifies ring`live, ring`writepos, ring.buffers
    ensures ring.Valid() && |ring.live| == old(|ring.live|) && n <= |bytes|
    ensures old(ring.IsFull()) ==> n == 0 && |old(ring.Pending())| + 1 == old(Size(ring.live))
    ensures !old(ring.IsFull()) && |bytes| + |old(ring.Pending())| <= old(Size(ring.live)) ==> n == |bytes|
    ensures !old(ring.IsFull()) && |bytes| + |old(ring.Pending())| > old(Size(ring.live)) ==>
      n + |old(ring.Pending())| == old(Size(ring.live))
    ensures n + |old(ring.Pending())| < old(Size(ring.live)) ==> ring.Pending() == old(ring.Pending()) + bytes[..n]
    ensures n + |old(ring.Pending())| == old(Size(ring.live)) ==> ring.Pending() == []
  {
    var ok, iov := ring.GetReciveBuffer();
    ring.Facts();
    if !ok {
      FullExactly(ring.live, ring.readpos, ring.writepos);
      return 0;
    }
    ghost var ps, u := ring.live, ring.Pending();
    InsideSpot(ps, ring.writepos);
    var offered := Total(iov, ps);
    n := if |bytes| < offered then |bytes| else offered;
    Readv(ring, iov, bytes[..n], Spot(ps, ring.writepos), Size(ps) - |u|);
    FilledFree(ps, ring.live, ring.readpos, ring.writepos, bytes[..n]);
    ring.MoveRecivePtr(n);
  }

  /** `isFull` finds a ring with one free byte full exactly when the reader is not at the start of a piece. */
  lemma FullExactly(ps: Pieces, r: Cursor, w: Cursor)
    requires Proper(ps) && On(ps, r) && Inside(ps, w)
    ensures w.idx == r.idx && w.pos + 1 == r.pos <==> |Unread(ps, r, w)| + 1 == Size(ps) && r.pos > 0
  {
    InsideSpot(ps, r);
    InsideSpot(ps, w);
    PieceEnd(ps, r.idx);
    PieceEnd(ps, w.idx);
    if r.pos > 0 && |Unread(ps, r, w)| + 1 == Size(ps) {
      SpotUnique(ps, w, Cursor(r.idx, r.pos - 1));
    }
  }

  method Total(iov: seq<Slice>, ghost ps: Pieces) returns (n: nat)
    requires AllCut(ps, iov)
    ensures n == |Spots(ps, iov)|
  {
    n := 0;
    for i := 0 to |iov|
      invariant AllCut(ps, iov[..i]) && n == |Spots(ps, iov[..i])|
    {
      SpotsStep(ps, iov, i);
      n := n + iov[i].len;
    }
    assert iov[..|iov|] == iov;
  }

  /** Sends up to `limit` of the unread bytes. */
  method Send(ring: Ring, limit: nat) returns (sent: seq<char>)
    requires ring.Valid()
    modifies ring`readpos
    ensures ring.Valid() && old(ring.Pending()) == sent + ring.Pending()
    ensures |sent| == if limit < |old(ring.Pending())| then limit else |old(ring.Pending())|
  {
    hide Ring.Valid;
    hide Spots;
    ring.Facts();
    InsideSpot(ring.live, ring.readpos);
    var ok, iov := ring.GetSendBuffer(ring.writepos);
    if !ok {
      return [];
    }
    SendSlices(ring.live, ring.readpos, ring.writepos, iov);
    var all := Writev(ring, iov);
    sent := if limit < |all| then all[..limit] else all;
    ghost var u := ring.Pending();
    ring.MoveSendPtr(|sent|);
    assert u == sent + u[|sent|..];
  }

  datatype Op = Receiving(bytes: seq<char>) | Sending(limit: nat) | Reserving(size: nat)

  /** The memory in use, and where the reader and the writer are. */
  datatype Snap = Snap(ps: Pieces, r: Cursor, w: Cursor)

  ghost predicate Sound(s: Snap) {
    Proper(s.ps) && On(s.ps, s.r) && Inside(s.ps, s.w)
  }

  ghost function Waiting(s: Snap): seq<char>
    requires Sound(s)
  {
    Unread(s.ps, s.r, s.w)
  }

  ghost function Now(ring: Ring): (s: Snap)
    requires ring.Valid()
    reads ring, ring.que, ring.buffers
    ensures Sound(s) && Waiting(s) == ring.Pending()
  {
    Snap(ring.live, ring.readpos, ring.writepos)
  }

  /** The operation will carry the writer onto the reader although bytes are unread: a receive takes all that is
      free, or a reservation gives up the rest of a piece and the reader is at the start of the next. */
  ghost predicate Overruns(s: Snap, op: Op)
    requires Sound(s)
  {
    match op
    case Receiving(bytes) => !(s.w.idx == s.r.idx && s.w.pos + 1 == s.r.pos) && |Waiting(s)| + |bytes| >= Size(s.ps)
    case Sending(_) => false
    case Reserving(size) =>
      && |s.ps| > 1 && |s.ps[s.w.idx]| - s.w.pos < size && (s.w.pos == 0 ==> size <= |s.ps[s.w.idx]|)
      && !(s.w.idx == s.r.idx && s.w.pos < s.r.pos) && s.r == Cursor(NextPiece(s.w.idx, |s.ps|), 0)
  }

  /** What comes in with an operation, and what goes out. */
  predicate Moves(op: Op, got: seq<char>, put: seq<char>) {
    match op
    case Receiving(bytes) => put == [] && got <= bytes
    case Sending(limit) => got == [] && |put| <= limit
    case Reserving(_) => got == [] && put == []
  }

  /** One operation: what was waiting and what came in is what went out and what is waiting, if and only if the
      writer was not carried onto the reader; else bytes are missing. */
  ghost predicate Step(s: Snap, op: Op, got: seq<char>, put: seq<char>, s': Snap) {
    && Sound(s) && Sound(s') && Moves(op, got, put)
    && (!Overruns(s, op) ==> Waiting(s) + got == put + Waiting(s'))
    && (Overruns(s, op) ==> |Waiting(s)| + |got| > |put| + |Waiting(s')|)
  }

  method PerformReceive(ring: Ring, bytes: seq<char>) returns (got: seq<char>)
    requires ring.Valid()
    modifies ring, ring.que, ring.buffers
    ensures ring.Valid() && Step(old(Now(ring)), Receiving(bytes), got, [], Now(ring))
  {
    hide Ring.Valid;
    hide Unread;
    var n := Receive(ring, bytes);
    got := bytes[..n];
    assert [] + ring.Pending() == ring.Pending();
  }

  method PerformSend(ring: Ring, limit: nat) returns (put: seq<char>)
    requires ring.Valid()
    modifies ring, ring.que, ring.buffers
    ensures ring.Valid() && Step(old(Now(ring)), Sending(limit), [], put, Now(ring))
  {
    hide Ring.Valid;
    hide Unread;
    ghost var u := ring.Pending();
    put := Send(ring, limit);
    assert u + [] == u;
  }

  /** A reservation, unless the writer is at the first byte of a piece that is too small: that would be left empty. */
  method PerformReserve(ring: Ring, size: nat)
    requires ring.Valid()
    modifies ring, ring.que, ring.buffers
    ensures ring.Valid() && Step(old(Now(ring)), Reserving(size), [], [], Now(ring))
  {
    ring.Facts();
    hide Ring.Valid;
    hide Unread;
    ghost var u := ring.Pending();
    if |ring.que| > 1 && (ring.writepos.pos == 0 ==> size <= ring.PieceSize(ring.writepos.idx)) {
      var ok := ring.Reserve(size);
    }
    assert u + [] == u && [] + ring.Pending() == ring.Pending();
  }

  method Perform(ring: Ring, op: Op) returns (got: seq<char>, put: seq<char>)
    requires ring.Valid()
    modifies ring, ring.que, ring.buffers
    ensures ring.Valid() && Step(old(Now(ring)), op, got, put, Now(ring))
  {
    hide *;
    got, put := [], [];
    match op
    case Receiving(bytes) => got := PerformReceive(ring, bytes);
    case Sending(limit) => put := PerformSend(ring, limit);
    case Reserving(size) => PerformReserve(ring, size);
  }

  ghost predicate Leads(s: Snap, op: Op, s': Snap) {
    exists got, put :: Step(s, op, got, put, s')
  }

  /** The states a run passes through, an operation taking each to the next. */
  ghost predicate Trace(ss: seq<Snap>, ops: seq<Op>) {
    |ss| == |ops| + 1 && forall i :: 0 <= i < |ops| ==> Leads(ss[i], ops[i], ss[i + 1])
  }

  ghost predicate NeverOverruns(ss: seq<Snap>, ops: seq<Op>)
    requires |ss| == |ops| + 1
  {
    forall i :: 0 <= i < |ops| ==> Sound(ss[i]) && !Overruns(ss[i], ops[i])
  }

  /** The books of a run up to the state `s`: they balance if and only if no operation overran. */
  ghost predicate Books(ss: seq<Snap>, s: Snap, ops: seq<Op>, received: seq<char>, sent: seq<char>) {
    && Trace(ss, ops) && Sound(s) && ss[|ops|] == s
    && (NeverOverruns(ss, ops) ==> received == sent + Waiting(s))
    && (!NeverOverruns(ss, ops) ==> |received| > |sent| + |Waiting(s)|)
  }

  lemma TraceGoesOn(ss: seq<Snap>, ops: seq<Op>, op: Op, s': Snap)
    requires Trace(ss, ops) && Sound(ss[|ops|]) && Leads(ss[|ops|], op, s')
    ensures |ss + [s']| == |ops + [op]| + 1 && (ss + [s'])[|ops + [op]|] == s' && (ss + [s'])[0] == ss[0]
    ensures Trace(ss + [s'], ops + [op])
    ensures NeverOverruns(ss + [s'], ops + [op]) <==> NeverOverruns(ss, ops) && !Overruns(ss[|ops|], op)
  {
    hide Overruns;
    hide Sound;
    var ts, os := ss + [s'], ops + [op];
    forall i | 0 <= i < |os|
      ensures Leads(ts[i], os[i], ts[i + 1])
      ensures ts[i] == ss[i] && (i < |ops| ==> os[i] == ops[i])
    {
      assert Leads(ss[i], os[i], ts[i + 1]);
    }
    hide Leads;
    if NeverOverruns(ts, os) {
      forall i | 0 <= i < |ops|
        ensures Sound(ss[i]) && !Overruns(ss[i], ops[i])
      {
        assert Sound(ts[i]) && !Overruns(ts[i], os[i]);
      }
      assert !Overruns(ts[|ops|], os[|ops|]);
    }
  }

  lemma BooksGoOn(ss: seq<Snap>, s: Snap, ops: seq<Op>, received: seq<char>, sent: seq<char>,
                  op: Op, got: seq<char>, put: seq<char>, s': Snap)
    requires Books(ss, s, ops, received, sent) && Step(s, op, got, put, s')
    ensures Books(ss + [s'], s', ops + [op], received + got, sent + put) && (ss + [s'])[0] == ss[0]
  {
    assert |ss| == |ops| + 1;
    hide Trace;
    hide NeverOverruns;
    hide Overruns;
    hide Sound;
    hide Waiting;
    hide Moves;
    assert Leads(s, op, s');
    TraceGoesOn(ss, ops, op, s');
    if NeverOverruns(ss, ops) && !Overruns(s, op) {
      Joined(received, sent, Waiting(s), got, put, Waiting(s'));
    }
  }

  lemma Joined(received: seq<char>, sent: seq<char>, u: seq<char>, got: seq<char>, put: seq<char>, u': seq<char>)
    requires received == sent + u && u + got == put + u'
    ensures received + got == (sent + put) + u'
  {
    assert (sent + u) + got == sent + (u + got) == sent + (put + u') == (sent + put) + u';
  }

  lemma BooksOpen(s: Snap)
    requires Sound(s) && Waiting(s) == []
    ensures Books([s], s, [], [], [])
  {
  }

  lemma BooksClosed(ss: seq<Snap>, s: Snap, ops: seq<Op>, received: seq<char>, sent: seq<char>)
    requires Books(ss, s, ops, received, sent)
    ensures Trace(ss, ops) && Sound(s) && ss[|ops|] == s
    ensures received == sent + Waiting(s) <==> NeverOverruns(ss, ops)
  {
  }

  lemma OneMore(ops: seq<Op>, i: nat)
    requires i < |ops|
    ensures ops[..i] + [ops[i]] == ops[..i + 1] && ops[..|ops|] == ops
  {
  }

  /** Over every run of receives, sends and reservations: what was sent, followed by what is pending, is what was
      received, if and only if no operation carried the writer onto the reader. */
  method Run(ring: Ring, ops: seq<Op>) returns (received: seq<char>, sent: seq<char>, ghost ss: seq<Snap>)
    requires ring.Valid() && ring.Pending() == []
    modifies ring, ring.que, ring.buffers
    ensures ring.Valid() && Trace(ss, ops) && ss[0] == old(Now(ring)) && ss[|ops|] == Now(ring)
    ensures received == sent + ring.Pending() <==> NeverOverruns(ss, ops)
  {
    ghost var s0 := Now(ring);
    BooksOpen(s0);
    hide *;
    received, sent, ss := [], [], [s0];
    assert ops[..0] == [];
    for i := 0 to |ops|
      invariant ring.Valid() && ss != [] && ss[0] == s0 && Books(ss, Now(ring), ops[..i], received, sent)
    {
      ghost var s := Now(ring);
      var got, put := Perform(ring, ops[i]);
      OneMore(ops, i);
      BooksGoOn(ss, s, ops[..i], received, sent, ops[i], got, put, Now(ring));
      received, sent, ss := received + got, sent + put, ss + [Now(ring)];
    }
    assert ops[..|ops|] == ops;
    BooksClosed(ss, Now(ring), ops, received, sent);
  }
}
