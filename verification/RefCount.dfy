/** Who keeps an event alive: the registration, armed timers, timeouts not yet handled, wrappers, and other
    owners. One poller thread (thread 0) raises the events, sets and removes the timers, and withdraws the
    event once; any number of workers run the handler. */
module RefCount {
  import opened Dispatch

  const POLLER: nat := 0

  /** The two timeout bits, each standing for a timer that fired. */
  const TIMEOUTS: Word := {ReadTimedOut, WriteTimedOut}

  /** How many of the two are in a set. */
  function Count(w: Word): nat {
    (if ReadTimedOut in w then 1 else 0) + if WriteTimedOut in w then 1 else 0
  }

  /** What the poller is in the middle of. */
  datatype Stage = Waiting
                 | Raising             // passing on what epoll reported
                 | Firing(bit: Flag)   // has raised the timeout, and will take the timer out of its tree
                 | Withdrawing         // in DelEvent, about to look at the read timer
                 | HalfWithdrawn       // about to look at the write timer
                 | LastRelease         // about to release the registration's reference

  /** `armed` are the timers in their trees; `due` the timeouts in the running handler's mask that it has not
      released yet; `owners` other references, held outside of this protocol. `lost` counts the references that
      nobody will release any more. */
  datatype State = State(d: Dispatch.State, stage: Stage, registered: bool, armed: Word, due: Word, owners: nat,
                         refs: int, lost: nat, destroyed: bool)

  datatype Step = Worker(a: Dispatch.Step)        // a step of a worker, but the last two of its call
                | Acquire                         // thread 0: the wrapper's RequireRef
                | Hand                            // thread 0: the wrapper is posted
                | Report(bits: Word)              // thread 0: fetch_or for an epoll event
                | Expire(bit: Flag)               // thread 0: fetch_or for a due timer
                | Unlink                          // thread 0: the fired timer leaves its tree
                | SetTimer(bit: Flag)
                | DelTimer(bit: Flag)
                | Withdraw | DropRead | DropWrite | Deregister
                | HandlerRelease(t: nat, bit: Flag)
                | HandlerReturn(t: nat)
                | WrapperRelease(t: nat)
                | Own | Disown

  predicate Init(s: State) {
    && Dispatch.Init(s.d) && |s.d.threads| > 0 && s.stage == Waiting && s.registered && s.armed == {} && s.due == {}
    && s.refs == 1 + s.owners && s.lost == 0 && !s.destroyed
  }

  /** The poller has nothing half done. */
  predicate Free(s: State) {
    |s.d.threads| > 0 && s.stage.Waiting? && s.d.threads[POLLER].Idle?
  }

  predicate Enabled(s: State, a: Step) {
    match a
    case Worker(x) => x.t != POLLER && (x.Pick? || x.Fetch? || x.Clear?) && Dispatch.Enabled(s.d, x)
    case Acquire => Dispatch.Enabled(s.d, Require(POLLER))
    case Hand => Dispatch.Enabled(s.d, Post(POLLER))
    case Report(bits) => Free(s) && s.registered && bits !! TIMEOUTS && Dispatch.Enabled(s.d, Raise(POLLER, bits))
    case Expire(bit) => Free(s) && bit in s.armed && Dispatch.Enabled(s.d, Raise(POLLER, {bit}))
    case Unlink => |s.d.threads| > 0 && s.d.threads[POLLER].Idle? && (s.stage.Firing? || s.stage.Raising?)
    case SetTimer(bit) => Free(s) && s.registered && bit in TIMEOUTS
    case DelTimer(bit) => Free(s) && s.registered && bit in TIMEOUTS
    case Withdraw => Free(s) && s.registered
    case DropRead => s.stage.Withdrawing?
    case DropWrite => s.stage.HalfWithdrawn?
    case Deregister => s.stage.LastRelease?
    case HandlerRelease(t, bit) => t < |s.d.threads| && s.d.threads[t].Handling? && bit in s.due
    case HandlerReturn(t) => Dispatch.Enabled(s.d, Return(t))
    case WrapperRelease(t) => Dispatch.Enabled(s.d, Release(t))
    case Own => s.owners > 0
    case Disown => s.owners > 0
  }

  function Released(s: State): State {
    s.(refs := s.refs - 1, destroyed := s.destroyed || s.refs == 1)
  }

  function Dropped(s: State, bit: Flag): State {
    if bit in s.armed then Released(s.(armed := s.armed - {bit})) else s
  }

  function Next(s: State, a: Step): State
    requires Enabled(s, a)
  {
    match a
    case Worker(x) =>
      s.(d := Dispatch.Next(s.d, x), due := if x.Fetch? then s.d.word * TIMEOUTS else s.due)
    case Acquire => s.(d := Dispatch.Next(s.d, Require(POLLER)), refs := s.refs + 1)
    case Hand => s.(d := Dispatch.Next(s.d, Post(POLLER)))
    case Report(bits) => s.(d := Dispatch.Next(s.d, Raise(POLLER, bits)), stage := Raising)
    case Expire(bit) =>
      s.(d := Dispatch.Next(s.d, Raise(POLLER, {bit})), stage := Firing(bit),
         lost := s.lost + if bit in s.d.word then 1 else 0)
    case Unlink => s.(stage := Waiting, armed := if s.stage.Firing? then s.armed - {s.stage.bit} else s.armed)
    case SetTimer(bit) => if bit in s.armed then s else s.(armed := s.armed + {bit}, refs := s.refs + 1)
    case DelTimer(bit) => Dropped(s, bit)
    case Withdraw => s.(stage := Withdrawing)
    case DropRead => Dropped(s.(stage := HalfWithdrawn), ReadTimedOut)
    case DropWrite => Dropped(s.(stage := LastRelease), WriteTimedOut)
    case Deregister => Released(s.(stage := Waiting, registered := false))
    case HandlerRelease(_, bit) => Released(s.(due := s.due - {bit}))
    case HandlerReturn(t) => s.(d := Dispatch.Next(s.d, Return(t)), due := {}, lost := s.lost + Count(s.due))
    case WrapperRelease(t) => Released(s.(d := Dispatch.Next(s.d, Release(t))))
    case Own => s.(owners := s.owners + 1, refs := s.refs + 1)
    case Disown => Released(s.(owners := s.owners - 1))
  }

  ghost predicate Follows(s: State, s': State) {
    exists a :: Enabled(s, a) && s' == Next(s, a)
  }

  ghost predicate Behaviour(ss: seq<State>) {
    && |ss| > 0 && Init(ss[0])
    && forall i :: 0 <= i < |ss| - 1 ==> Follows(ss[i], ss[i + 1])
  }

  // ---------- the invariant ----------

  /** A wrapper's reference, from before it is posted until its thread releases it. */
  function Holds(pc: Pc): nat {
    match pc
    case Idle => 0
    case Owing => 0
    case _ => 1
  }

  ghost function Wrappers(d: Dispatch.State): nat {
    d.posted + Total(d.threads, Holds)
  }

  /** The timers whose reference has not passed to a timeout bit. */
  function Armed(s: State): Word {
    if s.stage.Firing? then s.armed - {s.stage.bit} else s.armed
  }

  /** Everyone who will release the event some time. */
  ghost function Holders(s: State): nat {
    (if s.registered then 1 else 0) + s.owners + Count(Armed(s)) + Count(s.d.word) + Count(s.due) + Wrappers(s.d)
  }

  ghost predicate Handles(ts: seq<Pc>) {
    exists t :: 0 <= t < |ts| && ts[t].Handling?
  }

  ghost predicate Inv(s: State) {
    && Dispatch.Inv(s.d) && |s.d.threads| > 0
    && s.armed <= TIMEOUTS && s.due <= TIMEOUTS
    && s.refs == Holders(s) + s.lost
    && (s.destroyed <==> s.refs == 0)
    && (s.registered || (s.stage.Waiting? && s.armed == {} && s.d.threads[POLLER].Idle?))
    && (s.stage.Firing? ==> s.stage.bit in s.armed)
    && (s.stage.HalfWithdrawn? ==> s.armed <= {WriteTimedOut}) && (s.stage.LastRelease? ==> s.armed == {})
    && (s.d.threads[POLLER].Idle? || s.stage.Raising? || s.stage.Firing?)
    && (s.d.threads[POLLER].Idle? || s.d.threads[POLLER].Owing? || s.d.threads[POLLER].Posting?)
    && (forall t :: 0 < t < |s.d.threads| ==> !s.d.threads[t].Owing? && !s.d.threads[t].Posting?)
    && (s.due != {} ==> Handles(s.d.threads))
    && (forall t :: 0 <= t < |s.d.threads| ==> DueOk(s.d.threads[t], s.due))
  }

  /** What a handler has not released yet is among what it was passed. */
  ghost predicate DueOk(pc: Pc, due: Word) {
    pc.Handling? ==> due <= pc.mask
  }

  lemma InitInv(s: State)
    requires Init(s)
    ensures Inv(s)
  {
    Dispatch.InitInv(s.d);
    TotalNone(s.d.threads, Holds);
  }

  lemma Counted(s: State, t: nat)
    requires t < |s.d.threads|
    ensures Holds(s.d.threads[t]) <= Wrappers(s.d)
  {
    TotalOne(s.d.threads, t, Holds);
  }

  /** The steps of the word, seen from the poller and the workers. */
  lemma WordStep(s: State, x: Dispatch.Step)
    requires Inv(s) && Dispatch.Enabled(s.d, x)
    ensures Dispatch.Inv(Dispatch.Next(s.d, x))
    ensures var d' := Dispatch.Next(s.d, x);
      && |d'.threads| == |s.d.threads|
      && (forall t :: 0 <= t < |d'.threads| && t != x.t ==> d'.threads[t] == s.d.threads[t])
    ensures Wrappers(Dispatch.Next(s.d, x))
      == Wrappers(s.d) + (if x.Require? then 1 else 0) - (if x.Release? then 1 else 0)
    ensures x.Release? ==> Wrappers(s.d) > 0
  {
    Dispatch.StepInv(s.d, x);
    var d' := Dispatch.Next(s.d, x);
    TotalSet(s.d.threads, x.t, d'.threads[x.t], Holds);
    Counted(s, x.t);
  }

  /** While a handler runs, nobody else is at the word. */
  lemma HandlerAlone(s: State, t: nat)
    requires Inv(s) && t < |s.d.threads| && Token(s.d.threads[t]) == 1
    ensures forall u :: 0 <= u < |s.d.threads| && s.d.threads[u].Handling? ==> u == t
  {
    Sole(s.d, t);
  }

  lemma WorkerInv(s: State, x: Dispatch.Step)
    requires Inv(s) && Enabled(s, Worker(x))
    ensures Inv(Next(s, Worker(x)))
  {
    WordStep(s, x);
    var s' := Next(s, Worker(x));
    if x.Fetch? || x.Clear? {
      HandlerAlone(s, x.t);
    }
    if x.Fetch? {
      assert s'.d.threads[x.t].Handling?;
    }
    if x.Pick? {
      NoneHeld(s.d);
    }
  }

  /** A handler that runs keeps running while the poller is at work. */
  lemma StillHandling(s: State, x: Dispatch.Step)
    requires Inv(s) && Dispatch.Enabled(s.d, x) && !x.Return? && s.due != {}
    ensures Handles(Dispatch.Next(s.d, x).threads)
  {
    var t :| 0 <= t < |s.d.threads| && s.d.threads[t].Handling?;
    assert Dispatch.Next(s.d, x).threads[t].Handling?;
  }

  lemma OwedInv(s: State, a: Step)
    requires Inv(s) && Enabled(s, a) && (a.Acquire? || a.Hand?)
    ensures Inv(Next(s, a))
  {
    hide Dispatch.Inv;
    hide Wrappers;
    hide Handles;
    var x := if a.Acquire? then Require(POLLER) else Post(POLLER);
    WordStep(s, x);
    if s.due != {} { StillHandling(s, x); }
  }

  lemma ReportInv(s: State, bits: Word)
    requires Inv(s) && Enabled(s, Report(bits))
    ensures Inv(Next(s, Report(bits)))
  {
    hide Dispatch.Inv;
    hide Wrappers;
    hide Handles;
    var x := Raise(POLLER, bits);
    WordStep(s, x);
    if s.due != {} { StillHandling(s, x); }
  }

  lemma ExpireInv(s: State, bit: Flag)
    requires Inv(s) && Enabled(s, Expire(bit))
    ensures Inv(Next(s, Expire(bit)))
  {
    hide Dispatch.Inv;
    hide Wrappers;
    hide Handles;
    var x := Raise(POLLER, {bit});
    WordStep(s, x);
    if s.due != {} { StillHandling(s, x); }
  }

  lemma ReturnInv(s: State, t: nat)
    requires Inv(s) && Enabled(s, HandlerReturn(t))
    ensures Inv(Next(s, HandlerReturn(t)))
  {
    hide Dispatch.Inv;
    hide Wrappers;
    WordStep(s, Return(t));
  }

  lemma ReleaseInv(s: State, t: nat)
    requires Inv(s) && Enabled(s, WrapperRelease(t))
    ensures Inv(Next(s, WrapperRelease(t)))
  {
    hide Dispatch.Inv;
    hide Wrappers;
    hide Handles;
    WordStep(s, Release(t));
    if s.due != {} { StillHandling(s, Release(t)); }
  }

  /** Steps of the timers and of the withdrawal. */
  lemma TimerInv(s: State, a: Step)
    requires Inv(s) && Enabled(s, a)
    requires a.Unlink? || a.SetTimer? || a.DelTimer? || a.DropRead? || a.DropWrite?
    ensures Inv(Next(s, a))
  {
    hide Dispatch.Inv;
    hide Wrappers;
    hide Handles;
  }

  /** Steps that leave the word and the timers alone. */
  lemma OwnerInv(s: State, a: Step)
    requires Inv(s) && Enabled(s, a)
    requires a.Withdraw? || a.Deregister? || a.HandlerRelease? || a.Own? || a.Disown?
    ensures Inv(Next(s, a))
  {
    hide Dispatch.Inv;
    hide Wrappers;
    hide Handles;
  }

  lemma StepInv(s: State, a: Step)
    requires Inv(s) && Enabled(s, a)
    ensures Inv(Next(s, a))
  {
    hide Inv;
    hide Dispatch.Next;
    match a
    case Worker(x) => WorkerInv(s, x);
    case Acquire => OwedInv(s, a);
    case Hand => OwedInv(s, a);
    case Report(bits) => ReportInv(s, bits);
    case Expire(bit) => ExpireInv(s, bit);
    case HandlerReturn(t) => ReturnInv(s, t);
    case WrapperRelease(t) => ReleaseInv(s, t);
    case Unlink => TimerInv(s, a);
    case SetTimer(bit) => TimerInv(s, a);
    case DelTimer(bit) => TimerInv(s, a);
    case DropRead => TimerInv(s, a);
    case DropWrite => TimerInv(s, a);
    case _ => OwnerInv(s, a);
  }

  lemma {:induction false} Always(ss: seq<State>, i: nat)
    requires Behaviour(ss) && i < |ss|
    ensures Inv(ss[i])
  {
    if i == 0 {
      InitInv(ss[0]);
    } else {
      Always(ss, i - 1);
      assert Follows(ss[i - 1], ss[i]);
      var a :| Enabled(ss[i - 1], a) && ss[i] == Next(ss[i - 1], a);
      StepInv(ss[i - 1], a);
    }
  }

  // ---------- what it means ----------

  /** In every run, the count is exactly that of the holders and of the references lost: to a timeout raised while
      the same bit was still waiting, and to a handler that returned without releasing a timeout's reference. */
  lemma Conserved(ss: seq<State>, i: nat)
    requires Behaviour(ss) && i < |ss|
    ensures ss[i].refs == Holders(ss[i]) + ss[i].lost
    ensures ss[i].destroyed <==> Holders(ss[i]) == 0 && ss[i].lost == 0
  {
    Always(ss, i);
  }

  /** In every run, the references due are those of timeouts in the mask of the thread that handles. */
  lemma DueInMask(ss: seq<State>, i: nat)
    requires Behaviour(ss) && i < |ss|
    ensures ss[i].due != {} ==> exists t :: 0 <= t < |ss[i].d.threads| && ss[i].d.threads[t].Handling?
    ensures forall t :: 0 <= t < |ss[i].d.threads| && ss[i].d.threads[t].Handling? ==>
      ss[i].due <= ss[i].d.threads[t].mask * TIMEOUTS
  {
    Always(ss, i);
    var s := ss[i];
    forall t | 0 <= t < |s.d.threads| && s.d.threads[t].Handling?
      ensures s.due <= s.d.threads[t].mask * TIMEOUTS
    {
      assert DueOk(s.d.threads[t], s.due);
    }
  }

  /** When a handler is called, the references due are those of all the timeouts it is passed. */
  lemma DueAtCall(s: State, t: nat)
    requires Enabled(s, Worker(Fetch(t)))
    ensures var s' := Next(s, Worker(Fetch(t)));
      && s'.d.threads[t].Handling? && s'.d.threads[t].mask == s.d.word
      && s'.due == s'.d.threads[t].mask * TIMEOUTS
  {
  }

  // ---------- what the poller's steps do ----------

  /** Setting a timer arms it, with one reference if it was not armed. */
  lemma TimerSet(s: State, bit: Flag)
    requires Enabled(s, SetTimer(bit))
    ensures var s' := Next(s, SetTimer(bit));
      s'.armed == s.armed + {bit} && s'.refs == s.refs + if bit in s.armed then 0 else 1
  {
  }

  /** Removing it disarms it, and gives the reference back if it was armed; the same goes for the withdrawal. */
  lemma TimerRemoved(s: State, a: Step)
    requires Enabled(s, a) && (a.DelTimer? || a.DropRead? || a.DropWrite?)
    ensures var bit := if a.DelTimer? then a.bit else if a.DropRead? then ReadTimedOut else WriteTimedOut;
      var s' := Next(s, a);
      && s'.armed == s.armed - {bit} && s'.refs == s.refs - (if bit in s.armed then 1 else 0)
      && (s'.destroyed <==> s.destroyed || (bit in s.armed && s.refs == 1))
  {
  }

  /** While the event is registered, a poller that has nothing half done can pass on anything epoll reports, set and
      remove the timers, let any armed one fire, and withdraw the event. */
  lemma PollerFree(s: State, bits: Word, bit: Flag)
    requires Free(s) && s.registered && Inv(s)
    ensures bits !! TIMEOUTS + CONTROL ==> Enabled(s, Report(bits))
    ensures bits !! TIMEOUTS + CONTROL ==> bits <= Next(s, Report(bits)).d.word
    ensures bit in {ReadTimedOut, WriteTimedOut} ==> Enabled(s, SetTimer(bit)) && Enabled(s, DelTimer(bit))
    ensures bit in s.armed ==> Enabled(s, Expire(bit))
    ensures Enabled(s, Withdraw)
  {
    if bits !! TIMEOUTS + CONTROL { assert Dispatch.Enabled(s.d, Raise(POLLER, bits)); }
    if bit in s.armed { assert Dispatch.Enabled(s.d, Raise(POLLER, {bit})); }
  }

  /** Whoever holds a reference can take another one, and give one back. */
  lemma OwnerSteps(s: State)
    requires s.owners > 0
    ensures Enabled(s, Own) && Next(s, Own).owners == s.owners + 1 && Next(s, Own).refs == s.refs + 1
    ensures Enabled(s, Disown) && Next(s, Disown).owners == s.owners - 1 && Next(s, Disown).refs == s.refs - 1
    ensures Next(s, Disown).destroyed <==> s.destroyed || s.refs == 1
  {
  }

  /** A timer that fires raises its bit, and is taken out of its tree by the step after; its reference is left to the
      handler. */
  lemma TimerFires(s: State, bit: Flag)
    requires Enabled(s, Expire(bit)) && Inv(s)
    ensures var s' := Next(s, Expire(bit));
      && bit in s'.d.word && s'.refs == s.refs && s'.stage == Firing(bit)
      && (forall u: State :: u.stage == Firing(bit) && Enabled(u, Unlink) ==>
            Next(u, Unlink).armed == u.armed - {bit} && Next(u, Unlink).refs == u.refs)
  {
  }

  /** In every run, once the event is destroyed nobody holds it any more: it is registered nowhere, no timer is
      armed, no bit waits, every thread is idle, and nothing is enabled that would touch it. */
  lemma NoUseAfterDelete(ss: seq<State>, i: nat)
    requires Behaviour(ss) && i < |ss| && ss[i].destroyed
    ensures var s := ss[i]; !s.registered && s.owners == 0 && s.armed == {} && s.d.posted == 0 && s.d.word == {}
    ensures var s := ss[i]; forall t :: 0 <= t < |s.d.threads| ==> s.d.threads[t].Idle?
    ensures forall a :: !Enabled(ss[i], a)
  {
    Always(ss, i);
    var s := ss[i];
    forall t | 0 <= t < |s.d.threads|
      ensures s.d.threads[t].Idle?
    {
      Counted(s, t);
    }
    TotalNone(s.d.threads, Token);
  }

  /** The count never sinks below zero, and is released only while positive: one `delete` at most. */
  lemma DeletedOnce(ss: seq<State>, i: nat)
    requires Behaviour(ss) && i < |ss| - 1
    ensures ss[i].refs >= 0 && (ss[i].destroyed ==> ss[i + 1].destroyed)
    ensures ss[i + 1].refs < ss[i].refs ==> !ss[i].destroyed && ss[i].refs > 0
  {
    Always(ss, i);
    Always(ss, i + 1);
    assert Follows(ss[i], ss[i + 1]);
    if ss[i].destroyed {
      NoUseAfterDelete(ss, i);
    }
  }

  /** Every run of this machine is, on the word, a run of the protocol: each step is one of its steps or none. */
  lemma Refines(s: State, a: Step)
    requires Enabled(s, a)
    ensures Next(s, a).d == s.d || Dispatch.Follows(s.d, Next(s, a).d)
  {
    var s' := Next(s, a);
    match a
    case Worker(x) => assert Dispatch.Enabled(s.d, x) && s'.d == Dispatch.Next(s.d, x);
    case Acquire => assert Dispatch.Enabled(s.d, Require(POLLER)) && s'.d == Dispatch.Next(s.d, Require(POLLER));
    case Hand => assert Dispatch.Enabled(s.d, Post(POLLER)) && s'.d == Dispatch.Next(s.d, Post(POLLER));
    case Report(bits) =>
      assert Dispatch.Enabled(s.d, Raise(POLLER, bits)) && s'.d == Dispatch.Next(s.d, Raise(POLLER, bits));
    case Expire(bit) =>
      assert Dispatch.Enabled(s.d, Raise(POLLER, {bit})) && s'.d == Dispatch.Next(s.d, Raise(POLLER, {bit}));
    case HandlerReturn(t) => assert Dispatch.Enabled(s.d, Return(t)) && s'.d == Dispatch.Next(s.d, Return(t));
    case WrapperRelease(t) => assert Dispatch.Enabled(s.d, Release(t)) && s'.d == Dispatch.Next(s.d, Release(t));
    case _ =>
  }

  /** So is a whole run, with the steps left out that do not touch the word: whatever holds of every run of the
      protocol holds of the word here. */
  lemma {:induction false} RunRefines(ss: seq<State>, i: nat) returns (ds: seq<Dispatch.State>)
    requires Behaviour(ss) && i < |ss|
    ensures Dispatch.Behaviour(ds) && ds[|ds| - 1] == ss[i].d
  {
    hide Next;
    hide Enabled;
    hide Dispatch.Follows;
    if i == 0 {
      ds := [ss[0].d];
    } else {
      ds := RunRefines(ss, i - 1);
      assert Follows(ss[i - 1], ss[i]);
      var a :| Enabled(ss[i - 1], a) && ss[i] == Next(ss[i - 1], a);
      Refines(ss[i - 1], a);
      if ss[i].d != ss[i - 1].d { ds := Extended(ds, ss[i].d); }
    }
  }

  lemma Extended(ds: seq<Dispatch.State>, d: Dispatch.State) returns (es: seq<Dispatch.State>)
    requires Dispatch.Behaviour(ds) && Dispatch.Follows(ds[|ds| - 1], d)
    ensures Dispatch.Behaviour(es) && es[|es| - 1] == d
  {
    es := ds + [d];
    forall i | 0 <= i < |es| - 1
      ensures Dispatch.Follows(es[i], es[i + 1])
    {
      if i < |ds| - 1 { assert Dispatch.Follows(ds[i], ds[i + 1]); }
    }
  }

  // ---------- losses ----------

  /** A run with its steps. */
  ghost predicate Run(ss: seq<State>, steps: seq<Step>) {
    && |ss| == |steps| + 1 && Init(ss[0])
    && forall i :: 0 <= i < |steps| ==> Enabled(ss[i], steps[i]) && ss[i + 1] == Next(ss[i], steps[i])
  }

  /** Every run is the run of some steps. */
  lemma {:induction false} StepsOf(ss: seq<State>, n: nat) returns (steps: seq<Step>)
    requires Behaviour(ss) && n < |ss|
    ensures Run(ss[..n + 1], steps)
  {
    hide Next;
    hide Enabled;
    hide Init;
    if n == 0 {
      steps := [];
    } else {
      var before := StepsOf(ss, n - 1);
      assert Follows(ss[n - 1], ss[n]);
      var a :| Enabled(ss[n - 1], a) && ss[n] == Next(ss[n - 1], a);
      steps := before + [a];
      assert ss[..n + 1] == ss[..n] + [ss[n]];
    }
  }

  lemma RunBehaves(ss: seq<State>, steps: seq<Step>)
    requires Run(ss, steps)
    ensures Behaviour(ss)
  {
    forall i | 0 <= i < |ss| - 1
      ensures Follows(ss[i], ss[i + 1])
    {
      assert Enabled(ss[i], steps[i]);
    }
  }

  /** The step loses a reference: a timer fires whose bit still waits to be handled, or a handler returns that has not
      released the timeouts in its mask. */
  predicate Loses(s: State, a: Step) {
    match a
    case Expire(bit) => bit in s.d.word
    case HandlerReturn(_) => s.due != {}
    case _ => false
  }

  lemma StepLoses(s: State, a: Step)
    requires Inv(s) && Enabled(s, a)
    ensures Next(s, a).lost >= s.lost && (Next(s, a).lost > s.lost <==> Loses(s, a))
  {
    if a.HandlerReturn? && s.due != {} {
      var bit :| bit in s.due;
      assert bit in TIMEOUTS;
    }
  }

  /** References are lost in a run if and only if one of its steps so far loses some. */
  lemma {:induction false} NoneLost(ss: seq<State>, steps: seq<Step>, i: nat)
    requires Run(ss, steps) && i < |ss|
    ensures ss[i].lost == 0 <==> forall j :: 0 <= j < i ==> !Loses(ss[j], steps[j])
  {
    if i > 0 {
      NoneLost(ss, steps, i - 1);
      RunBehaves(ss, steps);
      Always(ss, i - 1);
      StepLoses(ss[i - 1], steps[i - 1]);
    }
  }

  /** A lost reference is lost for good: from then on the event is never destroyed. */
  lemma {:induction false} LostForever(ss: seq<State>, i: nat, j: nat)
    requires Behaviour(ss) && i <= j < |ss| && ss[i].lost > 0
    ensures ss[j].lost > 0 && !ss[j].destroyed
  {
    Always(ss, j);
    if i < j {
      LostForever(ss, i, j - 1);
      assert Follows(ss[j - 1], ss[j]);
    }
  }

  /** Such a loss happens: a timer set again fires again before the handler has taken the first timeout. */
  lemma Coalesced() returns (ss: seq<State>)
    ensures Behaviour(ss) && ss[|ss| - 1].lost == 1 && ss[|ss| - 1].refs == Holders(ss[|ss| - 1]) + 1
  {
    var d := Dispatch.State({}, 0, [Idle, Idle], []);
    var s0 := State.State(d, Waiting, true, {}, {}, 0, 1, 0, false);
    var s1 := Moved(s0, SetTimer(ReadTimedOut));
    var s2 := Moved(s1, Expire(ReadTimedOut));
    var s3 := Moved(s2, Acquire);
    var s4 := Moved(s3, Hand);
    var s5 := Moved(s4, Unlink);
    var s6 := Moved(s5, SetTimer(ReadTimedOut));
    var s7 := Moved(s6, Expire(ReadTimedOut));
    ss := [s0, s1, s2, s3, s4, s5, s6, s7];
    Conserved(ss, 7);
  }

  lemma Moved(s: State, a: Step) returns (s': State)
    requires Enabled(s, a)
    ensures s' == Next(s, a) && Follows(s, s')
  {
    s' := Next(s, a);
  }

  // ---------- the event's end ----------

  function StageLeft(s: State): nat {
    match s.stage
    case Waiting => if s.registered then 4 else 0
    case Raising => 5
    case Firing(_) => 5
    case Withdrawing => 3
    case HalfWithdrawn => 2
    case LastRelease => 1
  }

  /** Shrinks with every step on the way to the event's end. */
  ghost function Left(s: State): nat {
    4 * Remaining(s.d) + Count(s.due) + StageLeft(s) + s.owners
  }

  /** A step of the poller: it finishes what it has begun, and then withdraws the event. */
  lemma PollerMoves(s: State) returns (a: Step)
    requires Inv(s) && (!s.d.threads[POLLER].Idle? || !s.stage.Waiting? || s.registered)
    ensures Enabled(s, a) && Left(Next(s, a)) < Left(s) && Next(s, a).lost == s.lost
  {
    var pc := s.d.threads[POLLER];
    if pc.Owing? {
      a := Acquire;
      Dispatch.StepProgress(s.d, Require(POLLER));
    } else if pc.Posting? {
      a := Hand;
      Dispatch.StepProgress(s.d, Post(POLLER));
    } else {
      hide Remaining;
      a := match s.stage
           case Raising => Unlink
           case Firing(_) => Unlink
           case Withdrawing => DropRead
           case HalfWithdrawn => DropWrite
           case LastRelease => Deregister
           case Waiting => Withdraw;
    }
  }

  ghost predicate Nearer(s: State, a: Step) {
    Enabled(s, a) && Left(Next(s, a)) < Left(s) && Next(s, a).lost == s.lost
  }

  lemma FetchMoves(s: State, t: nat)
    requires Inv(s) && 0 < t < |s.d.threads| && s.d.threads[t].Starting?
    ensures Nearer(s, Worker(Fetch(t)))
  {
    Dispatch.StepProgress(s.d, Fetch(t));
    if s.due != {} { HandlerAlone(s, t); }
    hide Remaining;
  }

  lemma HandlerMoves(s: State, t: nat) returns (a: Step)
    requires Inv(s) && 0 < t < |s.d.threads| && s.d.threads[t].Handling?
    ensures Nearer(s, a)
  {
    if s.due != {} {
      var bit :| bit in s.due;
      assert bit in TIMEOUTS;
      hide Remaining;
      a := HandlerRelease(t, bit);
    } else {
      a := HandlerReturn(t);
      Dispatch.StepProgress(s.d, Return(t));
      hide Remaining;
    }
  }

  lemma CallOverMoves(s: State, t: nat) returns (a: Step)
    requires Inv(s) && 0 < t < |s.d.threads| && (s.d.threads[t].Finishing? || s.d.threads[t].Releasing?)
    ensures Nearer(s, a)
  {
    if s.d.threads[t].Finishing? {
      a := Worker(Clear(t));
      Dispatch.StepProgress(s.d, Clear(t));
    } else {
      a := WrapperRelease(t);
      Dispatch.StepProgress(s.d, Release(t));
    }
    hide Remaining;
  }

  /** A step of a worker that is not idle: handlers release the timeouts in their mask before they return. */
  lemma WorkerMoves(s: State, t: nat) returns (a: Step)
    requires Inv(s) && 0 < t < |s.d.threads| && !s.d.threads[t].Idle?
    ensures Nearer(s, a)
  {
    hide Nearer;
    match s.d.threads[t]
    case Starting =>
      a := Worker(Fetch(t));
      FetchMoves(s, t);
    case Handling(_) => a := HandlerMoves(s, t);
    case _ => a := CallOverMoves(s, t);
  }

  /** With every thread idle and the poller done, only others can still hold the event. */
  lemma OthersOnly(s: State)
    requires Inv(s) && s.stage.Waiting? && !s.registered && s.d.posted == 0 && s.lost == 0
    requires forall t :: 0 <= t < |s.d.threads| ==> s.d.threads[t].Idle?
    ensures s.refs == s.owners && s.d.word == {}
  {
    TotalNone(s.d.threads, Token);
    TotalNone(s.d.threads, Holds);
  }

  lemma NextMove(s: State) returns (a: Step)
    requires Inv(s) && |s.d.threads| >= 2 && s.lost == 0 && !s.destroyed
    ensures Enabled(s, a) && Left(Next(s, a)) < Left(s) && Next(s, a).lost == 0
  {
    if !s.d.threads[POLLER].Idle? || !s.stage.Waiting? || s.registered {
      a := PollerMoves(s);
    } else if t :| 0 < t < |s.d.threads| && !s.d.threads[t].Idle? {
      a := WorkerMoves(s, t);
    } else if s.d.posted > 0 {
      assert s.d.threads[1].Idle?;
      a := Worker(Pick(1));
      Dispatch.StepProgress(s.d, Pick(1));
    } else {
      OthersOnly(s);
      a := Disown;
    }
  }

  /** Nothing keeps an event alive for ever but a reference lost: from every reachable state without one, there is a
      way to its destruction, by steps of the poller, of the workers, and of those who hold other references. */
  lemma {:induction false} Ends(s: State) returns (run: seq<State>)
    requires Inv(s) && |s.d.threads| >= 2 && s.lost == 0
    ensures |run| > 0 && run[0] == s && forall i :: 0 <= i < |run| - 1 ==> Follows(run[i], run[i + 1])
    ensures run[|run| - 1].destroyed
    decreases Left(s)
  {
    if s.destroyed {
      run := [s];
    } else {
      var a := NextMove(s);
      StepInv(s, a);
      SameThreads(s, a);
      var rest := Ends(Next(s, a));
      run := [s] + rest;
      forall i | 0 <= i < |run| - 1
        ensures Follows(run[i], run[i + 1])
      {
        if i > 0 { assert Follows(rest[i - 1], rest[i]); }
      }
    }
  }

  lemma SameThreads(s: State, a: Step)
    requires Enabled(s, a)
    ensures |Next(s, a).d.threads| == |s.d.threads|
  {
  }
}
