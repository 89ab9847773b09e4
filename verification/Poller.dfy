/** The poller's timers: two red-black trees over the timer nodes of its events, sharing one sentinel. */
module Poller {
  import opened RbShape
  import opened RbSteps
  import opened RbBalance
  import opened RbTree
  import opened IoEvent
  import opened TimerQueue

  /** The timer nodes of a side, and the event each belongs to. */
  ghost predicate Owned(events: set<IOEvent>, side: Side, owner: map<Node, IOEvent>) {
    && (forall ev :: ev in events ==> TimerNode(ev, side) in owner && owner[TimerNode(ev, side)] == ev)
    && (forall n :: n in owner ==> owner[n] in events && TimerNode(owner[n], side) == n)
  }

  lemma OwnedGrows(events: set<IOEvent>, side: Side, owner: map<Node, IOEvent>, ev: IOEvent)
    requires Owned(events, side, owner) && ev !in events && TimerNode(ev, side) !in owner
    ensures Owned(events + {ev}, side, owner[TimerNode(ev, side) := ev])
  {
  }

  lemma Thousands(d: int, k: int)
    ensures 1000 * d == 0x1_0000_0000 * k ==> d == 0x2000_0000 * (115964117 * k - 27 * d)
    ensures d % 0x2000_0000 == 0 ==> 1000 * d == 0x1_0000_0000 * (125 * (d / 0x2000_0000))
  {
  }

  lemma Int32Is(a: int, b: int)
    requires -0x8000_0000 <= b < 0x8000_0000
    ensures Int32(a) == b <==> (a - b) % 0x1_0000_0000 == 0
  {
  }

  lemma Int32Thousands(x: int, gap: int)
    requires -0x8000_0000 <= 1000 * gap < 0x8000_0000
    ensures Int32(1000 * x) == 1000 * gap <==> (x - gap) % 0x2000_0000 == 0
  {
    Int32Is(1000 * x, 1000 * gap);
    var d := x - gap;
    Thousands(d, (1000 * d) / 0x1_0000_0000);
    assert 1000 * x - 1000 * gap == 1000 * d;
  }

  /** What a wait of `wait` milliseconds means for the earliest remaining deadlines, zero for none. Without
      timers it is unlimited. With deadlines less than 2^32 seconds away it ends exactly at the earliest one
      unless that is too far for the multiplication, or the write timer is earlier and the read timer's
      distance turns negative as a signed 32-bit number (and does not wrap back by chance). */
  ghost predicate Waits(wait: int, now: nat, wkey: nat, rkey: nat) {
    && (wkey == 0 && rkey == 0 ==> wait == -1)
    && (wkey != 0 || rkey != 0 ==> (now < wkey || wkey == 0) && (now < rkey || rkey == 0))
    && ((wkey != 0 || rkey != 0) && wkey - now < 0x1_0000_0000 && rkey - now < 0x1_0000_0000 ==>
      var gap := (if wkey == 0 || (rkey != 0 && rkey <= wkey) then rkey else wkey) - now;
      (wait == 1000 * gap <==> 1000 * gap < 0x8000_0000 && Unmasked(gap, now, wkey, rkey)))
  }

  /** A write timer `gap` seconds away is not hidden behind a read timer whose distance reads as negative. */
  ghost predicate Unmasked(gap: int, now: nat, wkey: nat, rkey: nat) {
    wkey == now + gap ==> rkey - now < 0x8000_0000 || (rkey - wkey) % 0x2000_0000 == 0
  }

  /** How long to wait for events, in milliseconds; a second when a read timer's distance reads as zero. The
      multiplication by 1000 is done in a signed 32-bit integer; where it overflows, which the language leaves
      undefined, the product is taken to wrap. */
  method WaitTime(now: nat, wkey: nat, rkey: nat) returns (wait: int)
    requires now > 0 && (wkey == 0 || wkey > now) && (rkey == 0 || rkey > now)
    ensures Waits(wait, now, wkey, rkey)
    ensures wkey == 0 && rkey != 0 && (rkey - now) % 0x1_0000_0000 == 0 ==> wait == 1000
  {
    Int32Range(wkey - now);
    Int32Range(rkey - now);
    Int32Is(rkey - now, 0);
    hide Int32;
    var waittime := -1;
    if wkey >= now {
      waittime := Int32(wkey - now);
    }
    if rkey >= now {
      var waittimeRead := Int32(rkey - now);
      if waittime >= 0 {
        waittime := if waittime < waittimeRead then waittime else waittimeRead;
      } else {
        waittime := waittimeRead;
      }
      if waittime == 0 {
        waittime := 1;
      }
    }
    wait := if waittime == -1 then -1 else Int32(waittime * 1000);
    ghost var gap: int := (if wkey == 0 || (rkey != 0 && rkey <= wkey) then rkey else wkey) - now;
    Int32Range(1000 * waittime);
    if 1000 * gap < 0x8000_0000 && gap > 0 {
      Int32Thousands(waittime, gap);
      Distances(waittime, gap, wkey, rkey);
    }
  }

  /** Two waits that do not end at the earliest deadline: one that is too far away for the multiplication, and one
      hidden behind a read timer whose distance reads as negative. */
  lemma WaitFails(now: nat, wait: int)
    ensures Waits(wait, now, now + 2147484, 0) ==> wait != 1000 * 2147484
    ensures Waits(wait, now, now + 2147483, 0) ==> wait == 1000 * 2147483
    ensures Waits(wait, now, now + 10, now + 0x8000_0000) ==> wait != 1000 * 10
  {
    assert Unmasked(2147483, now, now + 2147483, 0);
    assert !Unmasked(10, now, now + 10, now + 0x8000_0000);
  }

  lemma Int32Range(x: int)
    ensures -0x8000_0000 <= Int32(x) < 0x8000_0000
    ensures 0 <= x < 0x8000_0000 ==> Int32(x) == x
    ensures 0x8000_0000 <= x < 0x1_0000_0000 ==> Int32(x) == x - 0x1_0000_0000
  {
  }

  lemma Distances(waittime: int, gap: int, wkey: int, rkey: int)
    ensures 0 < waittime == gap ==> (waittime - gap) % 0x2000_0000 == 0
    ensures (waittime - gap) % 0x2000_0000 == 0 && 0 < gap <= 2147483 && 0 < waittime < 0x1000_0000 ==> waittime == gap
    ensures ((rkey - wkey) - 0x1_0000_0000) % 0x2000_0000 == (rkey - wkey) % 0x2000_0000
  {
  }

  /** The two maps a poller stands for: each armed timer's deadline. */
  datatype Deadlines = Deadlines(read: Keys, write: Keys)

  datatype Op = SetRead(ev: IOEvent, sec: nat) | SetWrite(ev: IOEvent, sec: nat)
              | DelRead(ev: IOEvent) | DelWrite(ev: IOEvent) | Withdraw(ev: IOEvent) | Tick
  datatype Timed = Timed(now: nat, op: Op)

  /** The timers later than `now`. */
  ghost function LaterThan(ks: Keys, now: nat): Keys {
    map n | n in ks && ks[n] > now :: ks[n]
  }

  ghost function Then(d: Deadlines, t: Timed): Deadlines {
    match t.op
    case SetRead(ev, sec) => d.(read := d.read[ev.rtimernode := t.now + sec])
    case SetWrite(ev, sec) => d.(write := d.write[ev.wtimernode := t.now + sec])
    case DelRead(ev) => d.(read := d.read - {ev.rtimernode})
    case DelWrite(ev) => d.(write := d.write - {ev.wtimernode})
    case Withdraw(ev) => Deadlines(d.read - {ev.rtimernode}, d.write - {ev.wtimernode})
    case Tick => Deadlines(LaterThan(d.read, t.now), LaterThan(d.write, t.now))
  }

  ghost function ThenAll(d: Deadlines, run: seq<Timed>): Deadlines {
    if run == [] then d else Then(ThenAll(d, run[..|run| - 1]), run[|run| - 1])
  }

  /** The event an operation is about. */
  ghost predicate About(t: Timed, events: set<IOEvent>) {
    t.now > 0 && (t.op.Tick? || t.op.ev in events)
  }

  lemma FiredLater(fired: seq<IOEvent>, o: seq<Node>, o': seq<Node>, ks: Keys, ks': Keys,
                   owner: map<Node, IOEvent>, now: nat)
    requires Fired(fired, o, o', ks, ks', owner, now)
    ensures ks' == LaterThan(ks, now)
  {
  }

  // ---------- references ----------

  /** Whether an event is destroyed after its count went down from `before` to `after`, or was not changed. */
  predicate Ended(destroyed: bool, before: int, after: int) {
    destroyed || (before > 0 && after <= 0)
  }

  /** By how much an operation changes an event's count. */
  ghost function Delta(d: Deadlines, t: Timed, e: IOEvent): int {
    match t.op
    case SetRead(ev, _) => if ev == e && e.rtimernode !in d.read then 1 else 0
    case SetWrite(ev, _) => if ev == e && e.wtimernode !in d.write then 1 else 0
    case DelRead(ev) => if ev == e && e.rtimernode in d.read then -1 else 0
    case DelWrite(ev) => if ev == e && e.wtimernode in d.write then -1 else 0
    case Withdraw(ev) => if ev == e then -1 - Armed(d, e) else 0
    case Tick => 0
  }

  ghost function Armed(d: Deadlines, e: IOEvent): nat {
    (if e.rtimernode in d.read then 1 else 0) + if e.wtimernode in d.write then 1 else 0
  }

  /** The same for a run. */
  ghost function Balance(d: Deadlines, run: seq<Timed>, e: IOEvent): int {
    if run == [] then 0
    else
      var front, last := run[..|run| - 1], run[|run| - 1];
      Balance(d, front, e) + Delta(ThenAll(d, front), last, e)
  }

  /** The run destroys an event that had `refs` references: at some time the last one is released. */
  ghost predicate Ends(d: Deadlines, run: seq<Timed>, e: IOEvent, refs: int) {
    run != [] &&
    var front := run[..|run| - 1];
    Ended(Ends(d, front, e, refs), refs + Balance(d, front, e), refs + Balance(d, run, e))
  }

  // ---------- references of a registered event ----------

  predicate Withdrawn(run: seq<Timed>, e: IOEvent) {
    exists i :: 0 <= i < |run| && run[i].op == Withdraw(e)
  }

  /** After an event was withdrawn, no operation is about it. */
  predicate Orderly(run: seq<Timed>, e: IOEvent) {
    forall i, j :: 0 <= i < j < |run| && run[i].op == Withdraw(e) ==> run[j].op.Tick? || run[j].op.ev != e
  }

  /** How many of the event's timers have fired: their references are left to the handler. */
  ghost function Fires(d: Deadlines, run: seq<Timed>, e: IOEvent): nat {
    if run == [] then 0
    else
      var front, last := run[..|run| - 1], run[|run| - 1];
      var d' := ThenAll(d, front);
      Fires(d, front, e) + if last.op.Tick? then Armed(d', e) - Armed(Then(d', last), e) else 0
  }

  ghost predicate OwnNodes(run: seq<Timed>, e: IOEvent) {
    forall i :: 0 <= i < |run| && !run[i].op.Tick? && run[i].op.ev != e ==>
      run[i].op.ev.rtimernode != e.rtimernode && run[i].op.ev.wtimernode != e.wtimernode
  }

  /** One operation on the books of an event. */
  lemma DeltaBooks(d: Deadlines, t: Timed, e: IOEvent)
    requires !t.op.Tick? && t.op.ev != e ==> t.op.ev.rtimernode != e.rtimernode && t.op.ev.wtimernode != e.wtimernode
    ensures t.op.Tick? ==> Delta(d, t, e) == 0 && Armed(Then(d, t), e) <= Armed(d, e)
    ensures t.op == Withdraw(e) ==> Armed(Then(d, t), e) == 0 && Delta(d, t, e) == -1 - Armed(d, e)
    ensures !t.op.Tick? && t.op != Withdraw(e) ==> Delta(d, t, e) == Armed(Then(d, t), e) - Armed(d, e)
    ensures !t.op.Tick? && t.op.ev != e ==> Delta(d, t, e) == 0
  {
  }

  /** An event with one reference for its registration and one for each armed timer: over every orderly run its count
      is that of its registration, of its armed timers and of its timers that have fired; and it is destroyed exactly
      when the count is zero. */
  lemma {:induction false} RegisteredBooks(d: Deadlines, run: seq<Timed>, e: IOEvent)
    requires Orderly(run, e) && OwnNodes(run, e)
    ensures var refs := 1 + Armed(d, e) + Balance(d, run, e);
      && refs == (if Withdrawn(run, e) then 0 else 1) + Armed(ThenAll(d, run), e) + Fires(d, run, e)
      && (Withdrawn(run, e) ==> Armed(ThenAll(d, run), e) == 0)
      && (Ends(d, run, e, 1 + Armed(d, e)) <==> refs == 0)
    decreases |run|
  {
    if run != [] {
      var front, last := run[..|run| - 1], run[|run| - 1];
      assert Orderly(front, e) && OwnNodes(front, e);
      RegisteredBooks(d, front, e);
      assert run[|run| - 1] == last;
      DeltaBooks(ThenAll(d, front), last, e);
      assert Withdrawn(run, e) <==> Withdrawn(front, e) || last.op == Withdraw(e) by {
        if Withdrawn(front, e) {
          var i :| 0 <= i < |front| && front[i].op == Withdraw(e);
          assert run[i].op == Withdraw(e);
        }
        if i :| 0 <= i < |run| && run[i].op == Withdraw(e) {
          if i < |front| { assert front[i].op == Withdraw(e); }
        }
      }
      if Withdrawn(front, e) {
        var i :| 0 <= i < |front| && front[i].op == Withdraw(e);
        assert run[i].op == Withdraw(e);
      }
    }
  }

  lemma AllBooks(d: Deadlines, run: seq<Timed>, events: set<IOEvent>)
    requires forall e :: e in events ==> OwnNodes(run, e)
    ensures forall e, refs :: e in events && Orderly(run, e) && refs == 1 + Armed(d, e) ==>
      (Ends(d, run, e, refs) <==> refs + Balance(d, run, e) == 0)
  {
    hide Ends;
    hide Balance;
    forall e | e in events && Orderly(run, e)
      ensures var refs := 1 + Armed(d, e);
        Ends(d, run, e, refs) <==> refs + Balance(d, run, e) == 0
    {
      RegisteredBooks(d, run, e);
    }
  }

  class Epoller {
    const sentinel: Node
    const rtimer: Queue
    const wtimer: Queue
    ghost var events: set<IOEvent>

    /** The poller's invariant: two valid queues over the timer nodes of its events, with a common sentinel. */
    ghost predicate Valid()
      reads this, sentinel
      reads rtimer, rtimer.tree, rtimer.tree.nodes, rtimer.tree.sentinel`color, rtimer.owner.Keys
      reads wtimer, wtimer.tree, wtimer.tree.nodes, wtimer.tree.sentinel`color, wtimer.owner.Keys
    {
      && rtimer.tree.sentinel == sentinel && sentinel.left == sentinel && sentinel.key == 0
      && rtimer.Valid() && wtimer.Valid() && rtimer.Apart(wtimer)
      && Owned(events, Read, rtimer.owner) && Owned(events, Write, wtimer.owner)
    }

    constructor ()
      ensures Valid() && events == {} && fresh(sentinel) && fresh(rtimer) && fresh(wtimer)
    {
      var s := new Node();
      sentinel := s;
      rtimer := new Queue(s);
      wtimer := new Queue(s);
      events := {};
      new;
      sentinel.key := 0;
      sentinel.left := sentinel;
      sentinel.right := sentinel;
      sentinel.color := Black;
    }

    /** A new event, none of whose timers was ever armed, comes under the poller's care. */
    ghost method AddEvent(ev: IOEvent)
      requires Valid() && ev !in events && ev.rtimernode != ev.wtimernode && sentinel !in {ev.rtimernode, ev.wtimernode}
      requires {ev.rtimernode, ev.wtimernode} !! rtimer.owner.Keys + wtimer.owner.Keys
      requires ev.rtimernode.key == 0 && ev.wtimernode.key == 0
      modifies `events, rtimer`owner, wtimer`owner
      ensures Valid() && events == old(events) + {ev} && rtimer.keys == old(rtimer.keys)
      ensures wtimer.keys == old(wtimer.keys)
    {
      hide Queue.Holds;
      OwnedGrows(events, Read, rtimer.owner, ev);
      OwnedGrows(events, Write, wtimer.owner, ev);
      hide Owned;
      rtimer.Admit(ev.rtimernode, ev);
      wtimer.Admit(ev.wtimernode, ev);
      events := events + {ev};
    }

    method DisarmRead(ev: IOEvent)
      requires Valid() && ev in events && ev.rtimernode in rtimer.keys
      modifies rtimer`keys, rtimer`order, rtimer.tree`root, rtimer.tree`shape, rtimer.tree`nodes
      modifies rtimer.tree.nodes`left, rtimer.tree.nodes`right, rtimer.tree.nodes`parent, rtimer.tree.nodes`color
      modifies sentinel`parent, sentinel`color, ev.rtimernode`key
      ensures Valid() && rtimer.keys == old(rtimer.keys) - {ev.rtimernode} && unchanged(wtimer)
    {
      hide Queue.Holds;
      hide RbTree.Valid;
      rtimer.Disarm(ev.rtimernode, wtimer);
    }

    method ArmRead(ev: IOEvent, deadline: nat) returns (wasArmed: bool)
      requires Valid() && ev in events && deadline > 0
      modifies rtimer`keys, rtimer`order, rtimer.tree`root, rtimer.tree`shape, rtimer.tree`nodes
      modifies rtimer.tree.nodes`left, rtimer.tree.nodes`right, rtimer.tree.nodes`parent, rtimer.tree.nodes`color
      modifies sentinel`parent, sentinel`color
      modifies ev.rtimernode`left, ev.rtimernode`right, ev.rtimernode`parent, ev.rtimernode`color, ev.rtimernode`key
      modifies ev.rtimernode`data
      ensures Valid() && rtimer.keys == old(rtimer.keys)[ev.rtimernode := deadline] && unchanged(wtimer)
      ensures wasArmed <==> old(ev.rtimernode.key) != 0
      ensures ev.refs == old(ev.refs)
    {
      hide Queue.Holds;
      hide RbTree.Valid;
      wasArmed := rtimer.Arm(ev.rtimernode, ev, deadline, wtimer);
    }

    /** Sets or resets the read timer. A timer newly armed holds a reference to its event. */
    method SetReadTimeOut(ev: IOEvent, now: nat, timeSec: nat)
      requires Valid() && ev in events && now > 0
      modifies rtimer`keys, rtimer`order, rtimer.tree`root, rtimer.tree`shape, rtimer.tree`nodes
      modifies rtimer.tree.nodes`left, rtimer.tree.nodes`right, rtimer.tree.nodes`parent, rtimer.tree.nodes`color
      modifies sentinel`parent, sentinel`color, ev`refs
      modifies ev.rtimernode`left, ev.rtimernode`right, ev.rtimernode`parent, ev.rtimernode`color, ev.rtimernode`key
      modifies ev.rtimernode`data
      ensures Valid() && rtimer.keys == old(rtimer.keys)[ev.rtimernode := now + timeSec] && unchanged(wtimer)
      ensures ev.refs == old(ev.refs) + if old(ev.rtimernode.key) == 0 then 1 else 0
    {
      hide Queue.Valid;
      if ev.rtimernode.key == 0 {
        Require(ev);
      }
      var wasArmed := ArmRead(ev, now + timeSec);
    }

    /** Takes the read timer away, with its reference; nothing happens when it is not armed. */
    method DelReadTimeOut(ev: IOEvent)
      requires Valid() && ev in events
      modifies rtimer`keys, rtimer`order, rtimer.tree`root, rtimer.tree`shape, rtimer.tree`nodes
      modifies rtimer.tree.nodes`left, rtimer.tree.nodes`right, rtimer.tree.nodes`parent, rtimer.tree.nodes`color
      modifies sentinel`parent, sentinel`color, ev.rtimernode`key, ev`refs, ev`destroyed
      ensures Valid() && rtimer.keys == old(rtimer.keys) - {ev.rtimernode} && unchanged(wtimer)
      ensures ev.refs == old(ev.refs) - if old(ev.rtimernode.key) == 0 then 0 else 1
      ensures ev.destroyed == Ended(old(ev.destroyed), old(ev.refs), ev.refs)
    {
      hide Queue.Holds;
      hide RbTree.Valid;
      rtimer.ArmedKey(ev.rtimernode);
      if ev.rtimernode.key != 0 {
        DisarmRead(ev);
        Release(ev);
      } else {
        KeyAbsent(rtimer.keys, ev.rtimernode);
      }
    }

    /** Raises and removes the due read timers. */
    method ExpireRead(now: nat) returns (fired: seq<IOEvent>, key: nat)
      requires Valid()
      modifies rtimer`keys, rtimer`order, rtimer.tree`root, rtimer.tree`shape, rtimer.tree`nodes
      modifies rtimer.tree.nodes`left, rtimer.tree.nodes`right, rtimer.tree.nodes`parent, rtimer.tree.nodes`color
      modifies rtimer.tree.nodes`key, sentinel`parent, sentinel`color
      ensures Valid() && unchanged(wtimer)
      ensures Fired(fired, old(rtimer.order), rtimer.order, old(rtimer.keys), rtimer.keys, rtimer.owner, now)
      ensures key == rtimer.FirstKey() && (key == 0 || key > now)
    {
      hide Queue.Holds;
      hide RbTree.Valid;
      var left;
      fired, left := rtimer.Expire(now, wtimer);
      key := left.key;
    }

    method DisarmWrite(ev: IOEvent)
      requires Valid() && ev in events && ev.wtimernode in wtimer.keys
      modifies wtimer`keys, wtimer`order, wtimer.tree`root, wtimer.tree`shape, wtimer.tree`nodes
      modifies wtimer.tree.nodes`left, wtimer.tree.nodes`right, wtimer.tree.nodes`parent, wtimer.tree.nodes`color
      modifies sentinel`parent, sentinel`color, ev.wtimernode`key
      ensures Valid() && wtimer.keys == old(wtimer.keys) - {ev.wtimernode} && unchanged(rtimer)
    {
      hide Queue.Holds;
      hide RbTree.Valid;
      wtimer.Disarm(ev.wtimernode, rtimer);
    }

    method ArmWrite(ev: IOEvent, deadline: nat) returns (wasArmed: bool)
      requires Valid() && ev in events && deadline > 0
      modifies wtimer`keys, wtimer`order, wtimer.tree`root, wtimer.tree`shape, wtimer.tree`nodes
      modifies wtimer.tree.nodes`left, wtimer.tree.nodes`right, wtimer.tree.nodes`parent, wtimer.tree.nodes`color
      modifies sentinel`parent, sentinel`color
      modifies ev.wtimernode`left, ev.wtimernode`right, ev.wtimernode`parent, ev.wtimernode`color, ev.wtimernode`key
      modifies ev.wtimernode`data
      ensures Valid() && wtimer.keys == old(wtimer.keys)[ev.wtimernode := deadline] && unchanged(rtimer)
      ensures wasArmed <==> old(ev.wtimernode.key) != 0
      ensures ev.refs == old(ev.refs)
    {
      hide Queue.Holds;
      hide RbTree.Valid;
      wasArmed := wtimer.Arm(ev.wtimernode, ev, deadline, rtimer);
    }

    /** Sets or resets the write timer. A timer newly armed holds a reference to its event. */
    method SetWriteTimeOut(ev: IOEvent, now: nat, timeSec: nat)
      requires Valid() && ev in events && now > 0
      modifies wtimer`keys, wtimer`order, wtimer.tree`root, wtimer.tree`shape, wtimer.tree`nodes
      modifies wtimer.tree.nodes`left, wtimer.tree.nodes`right, wtimer.tree.nodes`parent, wtimer.tree.nodes`color
      modifies sentinel`parent, sentinel`color, ev`refs
      modifies ev.wtimernode`left, ev.wtimernode`right, ev.wtimernode`parent, ev.wtimernode`color, ev.wtimernode`key
      modifies ev.wtimernode`data
      ensures Valid() && wtimer.keys == old(wtimer.keys)[ev.wtimernode := now + timeSec] && unchanged(rtimer)
      ensures ev.refs == old(ev.refs) + if old(ev.wtimernode.key) == 0 then 1 else 0
    {
      hide Queue.Valid;
      if ev.wtimernode.key == 0 {
        Require(ev);
      }
      var wasArmed := ArmWrite(ev, now + timeSec);
    }

    /** Takes the write timer away, with its reference; nothing happens when it is not armed. */
    method DelWriteTimeOut(ev: IOEvent)
      requires Valid() && ev in events
      modifies wtimer`keys, wtimer`order, wtimer.tree`root, wtimer.tree`shape, wtimer.tree`nodes
      modifies wtimer.tree.nodes`left, wtimer.tree.nodes`right, wtimer.tree.nodes`parent, wtimer.tree.nodes`color
      modifies sentinel`parent, sentinel`color, ev.wtimernode`key, ev`refs, ev`destroyed
      ensures Valid() && wtimer.keys == old(wtimer.keys) - {ev.wtimernode} && unchanged(rtimer)
      ensures ev.refs == old(ev.refs) - if old(ev.wtimernode.key) == 0 then 0 else 1
      ensures ev.destroyed == Ended(old(ev.destroyed), old(ev.refs), ev.refs)
    {
      hide Queue.Holds;
      hide RbTree.Valid;
      wtimer.ArmedKey(ev.wtimernode);
      if ev.wtimernode.key != 0 {
        DisarmWrite(ev);
        Release(ev);
      } else {
        KeyAbsent(wtimer.keys, ev.wtimernode);
      }
    }

    /** Raises and removes the due write timers. */
    method ExpireWrite(now: nat) returns (fired: seq<IOEvent>, key: nat)
      requires Valid()
      modifies wtimer`keys, wtimer`order, wtimer.tree`root, wtimer.tree`shape, wtimer.tree`nodes
      modifies wtimer.tree.nodes`left, wtimer.tree.nodes`right, wtimer.tree.nodes`parent, wtimer.tree.nodes`color
      modifies wtimer.tree.nodes`key, sentinel`parent, sentinel`color
      ensures Valid() && unchanged(rtimer)
      ensures Fired(fired, old(wtimer.order), wtimer.order, old(wtimer.keys), wtimer.keys, wtimer.owner, now)
      ensures key == wtimer.FirstKey() && (key == 0 || key > now)
    {
      hide Queue.Holds;
      hide RbTree.Valid;
      var left;
      fired, left := wtimer.Expire(now, rtimer);
      key := left.key;
    }

    method Require(ev: IOEvent)
      requires Valid()
      modifies ev`refs
      ensures Valid() && ev.refs == old(ev.refs) + 1
    {
      ev.RequireRef();
    }

    method Release(ev: IOEvent)
      requires Valid()
      modifies ev`refs, ev`destroyed
      ensures Valid() && ev.refs == old(ev.refs) - 1 && ev.destroyed == (old(ev.destroyed) || ev.refs == 0)
    {
      ev.ReleaseRef();
    }

    /** Withdraws an event: both timers, each with its reference, and the registration's reference. */
    method DelEvent(ev: IOEvent)
      requires Valid() && ev in events
      modifies rtimer`keys, rtimer`order, rtimer.tree`root, rtimer.tree`shape, rtimer.tree`nodes
      modifies rtimer.tree.nodes`left, rtimer.tree.nodes`right, rtimer.tree.nodes`parent, rtimer.tree.nodes`color
      modifies wtimer`keys, wtimer`order, wtimer.tree`root, wtimer.tree`shape, wtimer.tree`nodes
      modifies wtimer.tree.nodes`left, wtimer.tree.nodes`right, wtimer.tree.nodes`parent, wtimer.tree.nodes`color
      modifies sentinel`parent, sentinel`color, ev.rtimernode`key, ev.wtimernode`key, ev`refs, ev`destroyed
      ensures Valid() && rtimer.keys == old(rtimer.keys) - {ev.rtimernode}
      ensures wtimer.keys == old(wtimer.keys) - {ev.wtimernode}
      ensures ev.refs ==
        old(ev.refs) - (if old(ev.rtimernode.key) == 0 then 0 else 1)
        - (if old(ev.wtimernode.key) == 0 then 0 else 1) - 1
      ensures ev.destroyed == Ended(old(ev.destroyed), old(ev.refs), ev.refs)
    {
      hide Queue.Valid;
      DelReadTimeOut(ev);
      DelWriteTimeOut(ev);
      Release(ev);
    }

    /** Raises all due timeouts, write timers first, and says for how many milliseconds to wait at most. */
    method ProcessTimeOut(now: nat) returns (wait: int, wfired: seq<IOEvent>, rfired: seq<IOEvent>)
      requires Valid() && now > 0
      modifies rtimer`keys, rtimer`order, rtimer.tree`root, rtimer.tree`shape, rtimer.tree`nodes
      modifies rtimer.tree.nodes`left, rtimer.tree.nodes`right, rtimer.tree.nodes`parent, rtimer.tree.nodes`color
      modifies wtimer`keys, wtimer`order, wtimer.tree`root, wtimer.tree`shape, wtimer.tree`nodes
      modifies wtimer.tree.nodes`left, wtimer.tree.nodes`right, wtimer.tree.nodes`parent, wtimer.tree.nodes`color
      modifies rtimer.tree.nodes`key, wtimer.tree.nodes`key, sentinel`parent, sentinel`color
      ensures Valid()
      ensures Fired(wfired, old(wtimer.order), wtimer.order, old(wtimer.keys), wtimer.keys, wtimer.owner, now)
      ensures Fired(rfired, old(rtimer.order), rtimer.order, old(rtimer.keys), rtimer.keys, rtimer.owner, now)
      ensures Waits(wait, now, wtimer.FirstKey(), rtimer.FirstKey())
    {
      hide Queue.Valid;
      var wkey, rkey;
      wfired, wkey := ExpireWrite(now);
      rfired, rkey := ExpireRead(now);
      wait := WaitTime(now, wkey, rkey);
    }

    ghost function Timers(): Deadlines
      reads rtimer`keys, wtimer`keys
    {
      Deadlines(rtimer.keys, wtimer.keys)
    }

    /** The memory the timers are spread over. */
    ghost function Repr(): set<object>
      reads rtimer`owner, wtimer`owner, this`events
    {
      {sentinel, rtimer, wtimer, rtimer.tree, wtimer.tree} + rtimer.owner.Keys + wtimer.owner.Keys + events
    }

    ghost predicate Whole()
      reads this, sentinel
      reads rtimer, rtimer.tree, rtimer.tree.nodes, rtimer.tree.sentinel`color, rtimer.owner.Keys
      reads wtimer, wtimer.tree, wtimer.tree.nodes, wtimer.tree.sentinel`color, wtimer.owner.Keys
    {
      && Valid() && rtimer.tree.nodes <= rtimer.owner.Keys && wtimer.tree.nodes <= wtimer.owner.Keys
      && forall ev :: ev in events ==> ev.rtimernode in rtimer.owner && ev.wtimernode in wtimer.owner
    }

    lemma Wholly()
      requires Valid()
      ensures Whole()
    {
      hide RbTree.Valid;
    }

    method Perform(t: Timed)
      requires Whole() && About(t, events)
      modifies Repr()
      ensures Valid() && Timers() == Then(old(Timers()), t)
      ensures forall e :: e in old(events) ==> e.refs == old(e.refs) + Delta(old(Timers()), t, e)
      ensures forall e :: e in old(events) ==> e.destroyed == Ended(old(e.destroyed), old(e.refs), e.refs)
      ensures unchanged(`events) && unchanged(rtimer`owner) && unchanged(wtimer`owner)
    {
      hide Valid;
      hide Whole;
      hide Repr;
      match t.op
      case SetRead(ev, sec) => PerformSetRead(ev, t.now, sec);
      case DelRead(ev) => PerformDelRead(ev);
      case SetWrite(ev, sec) => PerformSetWrite(ev, t.now, sec);
      case DelWrite(ev) => PerformDelWrite(ev);
      case Withdraw(ev) => PerformWithdraw(ev);
      case Tick => Expire(t.now);
    }

    /** The same, told of every event. */
    method CountSetRead(ev: IOEvent, now: nat, sec: nat)
      requires Valid() && ev in events && now > 0
      modifies rtimer`keys, rtimer`order, rtimer.tree`root, rtimer.tree`shape, rtimer.tree`nodes
      modifies rtimer.tree.nodes`left, rtimer.tree.nodes`right, rtimer.tree.nodes`parent, rtimer.tree.nodes`color
      modifies sentinel`parent, sentinel`color, ev`refs
      modifies ev.rtimernode`left, ev.rtimernode`right, ev.rtimernode`parent, ev.rtimernode`color, ev.rtimernode`key
      modifies ev.rtimernode`data
      ensures Valid() && unchanged(wtimer) && rtimer.keys == old(rtimer.keys)[ev.rtimernode := now + sec]
      ensures ev.refs == old(ev.refs) + (if ev.rtimernode in old(rtimer.keys) then 0 else 1)
      ensures forall e :: e in old(events) ==> e.destroyed == old(e.destroyed) && (e != ev ==> e.refs == old(e.refs))
    {
      MarkOf(ev);
      hide *;
      SetReadTimeOut(ev, now, sec);
    }

    method CountDelRead(ev: IOEvent)
      requires Valid() && ev in events
      modifies rtimer`keys, rtimer`order, rtimer.tree`root, rtimer.tree`shape, rtimer.tree`nodes
      modifies rtimer.tree.nodes`left, rtimer.tree.nodes`right, rtimer.tree.nodes`parent, rtimer.tree.nodes`color
      modifies sentinel`parent, sentinel`color, ev.rtimernode`key, ev`refs, ev`destroyed
      ensures Valid() && unchanged(wtimer) && rtimer.keys == old(rtimer.keys) - {ev.rtimernode}
      ensures ev.refs == old(ev.refs) - (if ev.rtimernode in old(rtimer.keys) then 1 else 0)
      ensures ev.destroyed == Ended(old(ev.destroyed), old(ev.refs), ev.refs)
      ensures forall e :: e in old(events) && e != ev ==> e.destroyed == old(e.destroyed) && e.refs == old(e.refs)
    {
      MarkOf(ev);
      hide *;
      DelReadTimeOut(ev);
    }

    /** The same, told of every event. */
    method CountSetWrite(ev: IOEvent, now: nat, sec: nat)
      requires Valid() && ev in events && now > 0
      modifies wtimer`keys, wtimer`order, wtimer.tree`root, wtimer.tree`shape, wtimer.tree`nodes
      modifies wtimer.tree.nodes`left, wtimer.tree.nodes`right, wtimer.tree.nodes`parent, wtimer.tree.nodes`color
      modifies sentinel`parent, sentinel`color, ev`refs
      modifies ev.wtimernode`left, ev.wtimernode`right, ev.wtimernode`parent, ev.wtimernode`color, ev.wtimernode`key
      modifies ev.wtimernode`data
      ensures Valid() && unchanged(rtimer) && wtimer.keys == old(wtimer.keys)[ev.wtimernode := now + sec]
      ensures ev.refs == old(ev.refs) + (if ev.wtimernode in old(wtimer.keys) then 0 else 1)
      ensures forall e :: e in old(events) ==> e.destroyed == old(e.destroyed) && (e != ev ==> e.refs == old(e.refs))
    {
      MarkOf(ev);
      hide *;
      SetWriteTimeOut(ev, now, sec);
    }

    method CountDelWrite(ev: IOEvent)
      requires Valid() && ev in events
      modifies wtimer`keys, wtimer`order, wtimer.tree`root, wtimer.tree`shape, wtimer.tree`nodes
      modifies wtimer.tree.nodes`left, wtimer.tree.nodes`right, wtimer.tree.nodes`parent, wtimer.tree.nodes`color
      modifies sentinel`parent, sentinel`color, ev.wtimernode`key, ev`refs, ev`destroyed
      ensures Valid() && unchanged(rtimer) && wtimer.keys == old(wtimer.keys) - {ev.wtimernode}
      ensures ev.refs == old(ev.refs) - (if ev.wtimernode in old(wtimer.keys) then 1 else 0)
      ensures ev.destroyed == Ended(old(ev.destroyed), old(ev.refs), ev.refs)
      ensures forall e :: e in old(events) && e != ev ==> e.destroyed == old(e.destroyed) && e.refs == old(e.refs)
    {
      MarkOf(ev);
      hide *;
      DelWriteTimeOut(ev);
    }

    method WithdrawOnly(ev: IOEvent)
      requires Valid() && ev in events
      modifies rtimer`keys, rtimer`order, rtimer.tree`root, rtimer.tree`shape, rtimer.tree`nodes
      modifies rtimer.tree.nodes`left, rtimer.tree.nodes`right, rtimer.tree.nodes`parent, rtimer.tree.nodes`color
      modifies wtimer`keys, wtimer`order, wtimer.tree`root, wtimer.tree`shape, wtimer.tree`nodes
      modifies wtimer.tree.nodes`left, wtimer.tree.nodes`right, wtimer.tree.nodes`parent, wtimer.tree.nodes`color
      modifies sentinel`parent, sentinel`color, ev.rtimernode`key, ev.wtimernode`key, ev`refs, ev`destroyed
      ensures Valid() && rtimer.keys == old(rtimer.keys) - {ev.rtimernode}
      ensures wtimer.keys == old(wtimer.keys) - {ev.wtimernode}
      ensures ev.refs ==
        old(ev.refs) - (if old(ev.rtimernode.key) == 0 then 0 else 1)
        - (if old(ev.wtimernode.key) == 0 then 0 else 1) - 1
      ensures ev.destroyed == Ended(old(ev.destroyed), old(ev.refs), ev.refs)
      ensures forall e :: e in old(events) && e != ev ==> e.destroyed == old(e.destroyed) && e.refs == old(e.refs)
    {
      hide *;
      DelEvent(ev);
    }

    method CountWithdraw(ev: IOEvent)
      requires Valid() && ev in events
      modifies rtimer`keys, rtimer`order, rtimer.tree`root, rtimer.tree`shape, rtimer.tree`nodes
      modifies rtimer.tree.nodes`left, rtimer.tree.nodes`right, rtimer.tree.nodes`parent, rtimer.tree.nodes`color
      modifies wtimer`keys, wtimer`order, wtimer.tree`root, wtimer.tree`shape, wtimer.tree`nodes
      modifies wtimer.tree.nodes`left, wtimer.tree.nodes`right, wtimer.tree.nodes`parent, wtimer.tree.nodes`color
      modifies sentinel`parent, sentinel`color, ev.rtimernode`key, ev.wtimernode`key, ev`refs, ev`destroyed
      ensures Valid() && rtimer.keys == old(rtimer.keys) - {ev.rtimernode}
      ensures wtimer.keys == old(wtimer.keys) - {ev.wtimernode}
      ensures ev.refs == old(ev.refs) - 1 - Armed(old(Timers()), ev)
      ensures ev.destroyed == Ended(old(ev.destroyed), old(ev.refs), ev.refs)
      ensures forall e :: e in old(events) && e != ev ==> e.destroyed == old(e.destroyed) && e.refs == old(e.refs)
    {
      MarkOf(ev);
      ghost var armed := Armed(Timers(), ev);
      assert armed == (if ev.rtimernode.key == 0 then 0 else 1) + (if ev.wtimernode.key == 0 then 0 else 1);
      hide *;
      WithdrawOnly(ev);
    }

    method PerformWithdraw(ev: IOEvent)
      requires Whole() && ev in events
      modifies Repr()
      ensures Valid() && rtimer.keys == old(rtimer.keys) - {ev.rtimernode}
      ensures wtimer.keys == old(wtimer.keys) - {ev.wtimernode}
      ensures unchanged(`events) && unchanged(rtimer`owner) && unchanged(wtimer`owner)
      ensures ev.refs == old(ev.refs) - 1 - Armed(old(Timers()), ev)
      ensures ev.destroyed == Ended(old(ev.destroyed), old(ev.refs), ev.refs)
      ensures forall e :: e in old(events) && e != ev ==> e.refs == old(e.refs) && e.destroyed == old(e.destroyed)
    {
      hide Valid;
      CountWithdraw(ev);
    }

    method PerformSetRead(ev: IOEvent, now: nat, sec: nat)
      requires Whole() && ev in events && now > 0
      modifies Repr()
      ensures Valid() && unchanged(wtimer)
      ensures rtimer.keys == old(rtimer.keys)[ev.rtimernode := now + sec]
      ensures unchanged(`events) && unchanged(rtimer`owner)
      ensures ev.refs == old(ev.refs) + (if ev.rtimernode in old(rtimer.keys) then 0 else 1)
      ensures ev.destroyed == old(ev.destroyed)
      ensures forall e :: e in old(events) && e != ev ==> e.refs == old(e.refs) && e.destroyed == old(e.destroyed)
    {
      hide Valid;
      CountSetRead(ev, now, sec);
    }

    method PerformDelRead(ev: IOEvent)
      requires Whole() && ev in events
      modifies Repr()
      ensures Valid() && unchanged(wtimer)
      ensures rtimer.keys == old(rtimer.keys) - {ev.rtimernode}
      ensures unchanged(`events) && unchanged(rtimer`owner)
      ensures ev.refs == old(ev.refs) - (if ev.rtimernode in old(rtimer.keys) then 1 else 0)
      ensures ev.destroyed == Ended(old(ev.destroyed), old(ev.refs), ev.refs)
      ensures forall e :: e in old(events) && e != ev ==> e.refs == old(e.refs) && e.destroyed == old(e.destroyed)
    {
      hide Valid;
      CountDelRead(ev);
    }

    method PerformSetWrite(ev: IOEvent, now: nat, sec: nat)
      requires Whole() && ev in events && now > 0
      modifies Repr()
      ensures Valid() && unchanged(rtimer)
      ensures wtimer.keys == old(wtimer.keys)[ev.wtimernode := now + sec]
      ensures unchanged(`events) && unchanged(wtimer`owner)
      ensures ev.refs == old(ev.refs) + (if ev.wtimernode in old(wtimer.keys) then 0 else 1)
      ensures ev.destroyed == old(ev.destroyed)
      ensures forall e :: e in old(events) && e != ev ==> e.refs == old(e.refs) && e.destroyed == old(e.destroyed)
    {
      hide Valid;
      CountSetWrite(ev, now, sec);
    }

    method PerformDelWrite(ev: IOEvent)
      requires Whole() && ev in events
      modifies Repr()
      ensures Valid() && unchanged(rtimer)
      ensures wtimer.keys == old(wtimer.keys) - {ev.wtimernode}
      ensures unchanged(`events) && unchanged(wtimer`owner)
      ensures ev.refs == old(ev.refs) - (if ev.wtimernode in old(wtimer.keys) then 1 else 0)
      ensures ev.destroyed == Ended(old(ev.destroyed), old(ev.refs), ev.refs)
      ensures forall e :: e in old(events) && e != ev ==> e.refs == old(e.refs) && e.destroyed == old(e.destroyed)
    {
      hide Valid;
      CountDelWrite(ev);
    }

    method Expire(now: nat)
      requires Whole() && now > 0
      modifies Repr()
      ensures Valid() && Timers() == Deadlines(LaterThan(old(rtimer.keys), now), LaterThan(old(wtimer.keys), now))
      ensures forall e :: e in old(events) ==> e.refs == old(e.refs) && e.destroyed == old(e.destroyed)
      ensures unchanged(`events) && unchanged(rtimer`owner) && unchanged(wtimer`owner)
    {
      hide Valid;
      var wait, wfired, rfired := ProcessTimeOut(now);
      FiredLater(wfired, old(wtimer.order), wtimer.order, old(wtimer.keys), wtimer.keys, wtimer.owner, now);
      FiredLater(rfired, old(rtimer.order), rtimer.order, old(rtimer.keys), rtimer.keys, rtimer.owner, now);
    }

    /** A timer's key tells whether it is armed, and when it is due. */
    ghost predicate Marked()
      reads this, rtimer`keys, wtimer`keys
      reads set ev | ev in events :: ev.rtimernode, set ev | ev in events :: ev.wtimernode
    {
      forall ev :: ev in events ==>
        && (ev.rtimernode in rtimer.keys <==> ev.rtimernode.key != 0)
        && (ev.wtimernode in wtimer.keys <==> ev.wtimernode.key != 0)
        && (ev.rtimernode in rtimer.keys ==> ev.rtimernode.key == rtimer.keys[ev.rtimernode])
        && (ev.wtimernode in wtimer.keys ==> ev.wtimernode.key == wtimer.keys[ev.wtimernode])
    }

    lemma MarkOf(ev: IOEvent)
      requires Valid() && ev in events
      ensures ev.rtimernode in rtimer.keys <==> ev.rtimernode.key != 0
      ensures ev.wtimernode in wtimer.keys <==> ev.wtimernode.key != 0
    {
      Mark();
    }

    lemma Mark()
      requires Valid()
      ensures Marked()
    {
      hide RbTree.Valid;
      forall ev | ev in events
        ensures ev.rtimernode in rtimer.owner && ev.wtimernode in wtimer.owner
      {
        assert TimerNode(ev, Read) in rtimer.owner && TimerNode(ev, Write) in wtimer.owner;
      }
    }

    lemma Distinct(run: seq<Timed>)
      requires Valid() && forall i :: 0 <= i < |run| ==> About(run[i], events)
      ensures forall e :: e in events ==> OwnNodes(run, e)
    {
      hide Queue.Valid;
      forall e, ev | e in events && ev in events && e != ev
        ensures ev.rtimernode != e.rtimernode && ev.wtimernode != e.wtimernode
      {
        assert rtimer.owner[TimerNode(ev, Read)] != rtimer.owner[TimerNode(e, Read)];
        assert wtimer.owner[TimerNode(ev, Write)] != wtimer.owner[TimerNode(e, Write)];
      }
    }

    /** Over every run, the two trees hold what two maps would, and every timer's key is its deadline, zero when it
        is not armed. Every event's count and its end are those of the operations about it; an event that begins with
        one reference for its registration and one for each armed timer is destroyed exactly when its count is zero. */
    method Run(run: seq<Timed>)
      requires Valid() && forall i :: 0 <= i < |run| ==> About(run[i], events)
      modifies Repr()
      ensures Valid() && Timers() == ThenAll(old(Timers()), run) && Marked()
      ensures forall e :: e in old(events) ==> e.refs == old(e.refs) + Balance(old(Timers()), run, e)
      ensures forall e :: e in old(events) ==>
        e.destroyed == (old(e.destroyed) || Ends(old(Timers()), run, e, old(e.refs)))
      ensures forall e :: e in old(events) ==>
        (!old(e.destroyed) && old(e.refs) == 1 + Armed(old(Timers()), e) && Orderly(run, e) ==>
          (e.destroyed <==> e.refs == 0))
    {
      Distinct(run);
      ghost var d := Timers();
      AllBooks(d, run, events);
      hide *;
      RunAll(run);
      forall e | e in old(events) && !old(e.destroyed) && old(e.refs) == 1 + Armed(d, e) && Orderly(run, e)
        ensures e.destroyed <==> e.refs == 0
      {
        assert Ends(d, run, e, old(e.refs)) <==> old(e.refs) + Balance(d, run, e) == 0;
      }
    }

    method RunAll(run: seq<Timed>)
      requires Valid() && forall i :: 0 <= i < |run| ==> About(run[i], events)
      modifies Repr()
      ensures Valid() && Timers() == ThenAll(old(Timers()), run) && Marked() && unchanged(`events)
      ensures forall e :: e in old(events) ==> e.refs == old(e.refs) + Balance(old(Timers()), run, e)
      ensures forall e :: e in old(events) ==>
        e.destroyed == (old(e.destroyed) || Ends(old(Timers()), run, e, old(e.refs)))
    {
      ghost var d := Timers();
      hide Valid;
      hide Delta;
      hide Then;
      for i := 0 to |run|
        invariant Valid() && Timers() == ThenAll(d, run[..i])
        invariant unchanged(`events) && unchanged(rtimer`owner) && unchanged(wtimer`owner)
        invariant forall e :: e in old(events) ==> e.refs == old(e.refs) + Balance(d, run[..i], e)
        invariant forall e :: e in old(events) ==>
          e.destroyed == (old(e.destroyed) || Ends(d, run[..i], e, old(e.refs)))
      {
        Wholly();
        Perform(run[i]);
        assert run[..i + 1][..i] == run[..i];
      }
      assert run[..|run|] == run;
      Mark();
    }
  }
}
