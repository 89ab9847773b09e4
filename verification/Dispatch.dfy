/** The pending/processing word of an event: any number of threads raise event bits on it, and a pool of workers
    runs the event's handler. Every atomic instruction is one step. */
module Dispatch {
  datatype Flag = Pending | Processing | Readable | Writable | Closed | ReadTimedOut | WriteTimedOut | Failed

  type Word = set<Flag>

  /** The two bits the protocol itself uses. */
  const CONTROL: Word := {Pending, Processing}

  /** Where a thread is in `OnEventAsync` (the first two) or in `OnEventWrapper`. */
  datatype Pc = Idle
              | Owing         // has set the first bits, and owes the pool a wrapper
              | Posting       // has taken the wrapper's reference
              | Starting      // about to fetch the bits
              | Handling(mask: Word)
              | Finishing     // the handler has returned
              | Releasing     // the word was cleared

  /** What happened so far, in the order of the atomic instructions. */
  datatype Entry = Raised(bits: Word) | Started(mask: Word)

  datatype State = State(word: Word, posted: nat, threads: seq<Pc>, log: seq<Entry>)

  datatype Step = Raise(t: nat, bits: Word)   // fetch_or
                | Require(t: nat)             // RequireRef
                | Post(t: nat)                // group->Post
                | Pick(t: nat)                // a worker takes the wrapper
                | Fetch(t: nat)               // test_and_set
                | Return(t: nat)              // OnEvent is over
                | Clear(t: nat)               // compare_and_swap
                | Release(t: nat)             // ReleaseRef

  predicate Init(s: State) {
    s.word == {} && s.posted == 0 && s.log == [] && forall t :: 0 <= t < |s.threads| ==> s.threads[t] == Idle
  }

  predicate Enabled(s: State, a: Step) {
    && a.t < |s.threads|
    && var pc := s.threads[a.t];
      match a
      case Raise(_, bits) => pc.Idle? && bits !! CONTROL
      case Require(_) => pc.Owing?
      case Post(_) => pc.Posting?
      case Pick(_) => pc.Idle? && s.posted > 0
      case Fetch(_) => pc.Starting?
      case Return(_) => pc.Handling?
      case Clear(_) => pc.Finishing?
      case Release(_) => pc.Releasing?
  }

  function Next(s: State, a: Step): State
    requires Enabled(s, a)
  {
    match a
    case Raise(t, bits) =>
      var pc := if Pending in s.word || Processing in s.word then Idle else Owing;
      State(s.word + bits + {Pending}, s.posted, s.threads[t := pc], s.log + [Raised(bits)])
    case Require(t) => s.(threads := s.threads[t := Posting])
    case Post(t) => s.(threads := s.threads[t := Idle], posted := s.posted + 1)
    case Pick(t) => s.(threads := s.threads[t := Starting], posted := s.posted - 1)
    case Fetch(t) => State({Processing}, s.posted, s.threads[t := Handling(s.word)], s.log + [Started(s.word)])
    case Return(t) => s.(threads := s.threads[t := Finishing])
    case Clear(t) =>
      if s.word == {Processing} then s.(word := {}, threads := s.threads[t := Releasing])
      else s.(threads := s.threads[t := Starting])
    case Release(t) => s.(threads := s.threads[t := Idle])
  }

  /** Every finite run of the protocol, for any number of threads. */
  ghost predicate Behaviour(ss: seq<State>) {
    && |ss| > 0 && Init(ss[0])
    && forall i :: 0 <= i < |ss| - 1 ==> Follows(ss[i], ss[i + 1])
  }

  ghost predicate Follows(s: State, s': State) {
    exists a :: Enabled(s, a) && s' == Next(s, a)
  }

  // ---------- sums over threads ----------

  ghost function Total(ts: seq<Pc>, weight: Pc -> nat): nat {
    if ts == [] then 0 else weight(ts[0]) + Total(ts[1..], weight)
  }

  lemma {:induction false} TotalSet(ts: seq<Pc>, i: nat, pc: Pc, weight: Pc -> nat)
    requires i < |ts|
    ensures Total(ts[i := pc], weight) + weight(ts[i]) == Total(ts, weight) + weight(pc)
  {
    if i > 0 {
      TotalSet(ts[1..], i - 1, pc, weight);
      assert ts[i := pc][1..] == ts[1..][i - 1 := pc];
    } else {
      assert ts[i := pc][1..] == ts[1..];
    }
  }

  lemma {:induction false} TotalOne(ts: seq<Pc>, i: nat, weight: Pc -> nat)
    requires i < |ts|
    ensures weight(ts[i]) <= Total(ts, weight)
  {
    if i > 0 { TotalOne(ts[1..], i - 1, weight); }
  }

  lemma {:induction false} TotalTwo(ts: seq<Pc>, i: nat, j: nat, weight: Pc -> nat)
    requires i < j < |ts|
    ensures weight(ts[i]) + weight(ts[j]) <= Total(ts, weight)
  {
    if i > 0 { TotalTwo(ts[1..], i - 1, j - 1, weight); } else { TotalOne(ts[1..], j - 1, weight); }
  }

  lemma {:induction false} TotalNone(ts: seq<Pc>, weight: Pc -> nat)
    requires forall t :: 0 <= t < |ts| ==> weight(ts[t]) == 0
    ensures Total(ts, weight) == 0
  {
    if ts != [] {
      forall t | 0 <= t < |ts[1..]|
        ensures weight(ts[1..][t]) == 0
      {
        assert ts[1..][t] == ts[t + 1];
      }
      TotalNone(ts[1..], weight);
    }
  }

  // ---------- the invariant ----------

  /** A thread that holds the right to run the handler, or owes it to the pool. */
  function Token(pc: Pc): nat {
    match pc
    case Idle => 0
    case Releasing => 0
    case _ => 1
  }

  ghost function Tokens(s: State): nat {
    s.posted + Total(s.threads, Token)
  }

  /** The bits raised since the handler was last started. */
  function Unseen(log: seq<Entry>): Word {
    if log == [] then {}
    else match log[|log| - 1]
      case Raised(bits) => Unseen(log[..|log| - 1]) + bits
      case Started(_) => {}
  }

  ghost predicate ThreadOk(pc: Pc, word: Word) {
    match pc
    case Owing => Pending in word && Processing !in word
    case Posting => Pending in word && Processing !in word
    case Starting => Pending in word
    case Handling(_) => Processing in word
    case Finishing => Processing in word
    case _ => true
  }

  /** The mask of the handler call that was started last. */
  ghost function LastMask(log: seq<Entry>): Word {
    if log == [] then {}
    else match log[|log| - 1]
      case Raised(_) => LastMask(log[..|log| - 1])
      case Started(mask) => mask
  }

  /** A handler runs with the mask of the call started last. */
  ghost predicate MaskOk(pc: Pc, log: seq<Entry>) {
    pc.Handling? ==> pc.mask == LastMask(log) && LastStart(log) < |log|
  }

  /** Where the last call was started; the length, if none was. */
  ghost function LastStart(log: seq<Entry>): (i: nat)
    ensures i <= |log| && (i < |log| ==> log[i].Started? && log[i].mask == LastMask(log))
    ensures forall k :: i < k < |log| ==> log[k].Raised?
    ensures i == |log| ==> forall k :: 0 <= k < |log| ==> log[k].Raised?
  {
    if log == [] then 0
    else if log[|log| - 1].Started? then |log| - 1
    else
      var i := LastStart(log[..|log| - 1]);
      if i == |log| - 1 then |log| else i
  }

  ghost predicate StartedOk(log: seq<Entry>, i: nat)
    requires i < |log|
  {
    log[i].Started? ==> Pending in log[i].mask && log[i].mask - CONTROL == Unseen(log[..i])
  }

  ghost predicate Inv(s: State) {
    && Tokens(s) == (if s.word == {} then 0 else 1)
    && (s.posted > 0 ==> Pending in s.word && Processing !in s.word)
    && (forall t :: 0 <= t < |s.threads| ==> ThreadOk(s.threads[t], s.word) && MaskOk(s.threads[t], s.log))
    && (Pending in s.word || s.word <= {Processing})
    && s.word - CONTROL == Unseen(s.log)
    && forall i :: 0 <= i < |s.log| ==> StartedOk(s.log, i)
  }

  lemma InitInv(s: State)
    requires Init(s)
    ensures Inv(s)
  {
    TotalNone(s.threads, Token);
  }

  /** With the token at thread `t`, no other thread and no wrapper has it. */
  lemma Sole(s: State, t: nat)
    requires Inv(s) && t < |s.threads| && Token(s.threads[t]) == 1
    ensures s.posted == 0 && s.word != {}
    ensures forall u :: 0 <= u < |s.threads| && u != t ==> Token(s.threads[u]) == 0
  {
    TotalOne(s.threads, t, Token);
    forall u | 0 <= u < |s.threads| && u != t
      ensures Token(s.threads[u]) == 0
    {
      if u < t { TotalTwo(s.threads, u, t, Token); } else { TotalTwo(s.threads, t, u, Token); }
    }
  }

  /** With the word empty or the wrapper in the pool, no thread has the token. */
  lemma NoneHeld(s: State)
    requires Inv(s) && (s.word == {} || s.posted > 0)
    ensures s.posted <= 1 && forall u :: 0 <= u < |s.threads| ==> Token(s.threads[u]) == 0
  {
    forall u | 0 <= u < |s.threads|
      ensures Token(s.threads[u]) == 0
    {
      TotalOne(s.threads, u, Token);
    }
  }

  lemma LogExtended(log: seq<Entry>, e: Entry)
    requires forall i :: 0 <= i < |log| ==> StartedOk(log, i)
    requires e.Started? ==> Pending in e.mask && e.mask - CONTROL == Unseen(log)
    ensures forall i :: 0 <= i < |log + [e]| ==> StartedOk(log + [e], i)
    ensures Unseen(log + [e]) == if e.Started? then {} else Unseen(log) + e.bits
    ensures forall pc :: MaskOk(pc, log) && e.Raised? ==> MaskOk(pc, log + [e])
    ensures e.Started? ==> MaskOk(Handling(e.mask), log + [e])
  {
    var l := log + [e];
    assert l[..|log|] == log;
    forall i | 0 <= i < |l|
      ensures StartedOk(l, i)
    {
      if i < |log| { assert StartedOk(log, i) && l[..i] == log[..i]; }
    }
  }

  /** The thread at work had the token, or the step takes or makes it. */
  lemma TokenStep(s: State, a: Step)
    requires Inv(s) && Enabled(s, a)
    ensures Total(Next(s, a).threads, Token)
      == Total(s.threads, Token) - Token(s.threads[a.t]) + Token(Next(s, a).threads[a.t])
    ensures Token(s.threads[a.t]) == 1 || a.Pick? || s.word == {} ==>
      forall u :: 0 <= u < |s.threads| && u != a.t ==> Token(s.threads[u]) == 0
  {
    TotalSet(s.threads, a.t, Next(s, a).threads[a.t], Token);
    if Token(s.threads[a.t]) == 1 {
      Sole(s, a.t);
    } else if a.Pick? || s.word == {} {
      NoneHeld(s);
    }
  }

  lemma RaiseInv(s: State, t: nat, bits: Word)
    requires Inv(s) && Enabled(s, Raise(t, bits))
    ensures Inv(Next(s, Raise(t, bits)))
  {
    TokenStep(s, Raise(t, bits));
    LogExtended(s.log, Raised(bits));
  }

  lemma FetchInv(s: State, t: nat)
    requires Inv(s) && Enabled(s, Fetch(t))
    ensures Inv(Next(s, Fetch(t)))
  {
    TokenStep(s, Fetch(t));
    Sole(s, t);
    assert ThreadOk(s.threads[t], s.word);
    LogExtended(s.log, Started(s.word));
  }

  /** Steps of the thread that is raising, or takes the wrapper. */
  lemma PostingInv(s: State, a: Step)
    requires Inv(s) && Enabled(s, a) && (a.Require? || a.Post? || a.Pick?)
    ensures Inv(Next(s, a))
  {
    TokenStep(s, a);
    assert ThreadOk(s.threads[a.t], s.word);
    if !a.Pick? { Sole(s, a.t); }
  }

  /** Steps of the thread that has run the handler. */
  lemma FinishingInv(s: State, a: Step)
    requires Inv(s) && Enabled(s, a) && (a.Return? || a.Clear? || a.Release?)
    ensures Inv(Next(s, a))
  {
    TokenStep(s, a);
    assert ThreadOk(s.threads[a.t], s.word);
    if !a.Release? { Sole(s, a.t); }
  }

  lemma StepInv(s: State, a: Step)
    requires Inv(s) && Enabled(s, a)
    ensures Inv(Next(s, a))
  {
    hide Inv;
    hide Next;
    match a
    case Raise(t, bits) => RaiseInv(s, t, bits);
    case Fetch(t) => FetchInv(s, t);
    case Return(_) => FinishingInv(s, a);
    case Clear(_) => FinishingInv(s, a);
    case Release(_) => FinishingInv(s, a);
    case _ => PostingInv(s, a);
  }

  lemma {:induction false} Always(ss: seq<State>, i: nat)
    requires Behaviour(ss) && i < |ss|
    ensures Inv(ss[i])
  {
    if i == 0 {
      InitInv(ss[0]);
    } else {
      Always(ss, i - 1);
      assert Follows(ss[i - 1], ss[i]);
      var a :| Enabled(ss[i - 1], a) && ss[i] == Next(ss[i - 1], a);
      StepInv(ss[i - 1], a);
    }
  }

  // ---------- what it means ----------

  /** In every run: at most one handler runs; the assertion after the exchange holds; and a wrapper is owed, posted
      or running exactly when the word is not zero. */
  lemma Serialised(ss: seq<State>, i: nat)
    requires Behaviour(ss) && i < |ss|
    ensures var s := ss[i];
      forall t, u :: 0 <= t < u < |s.threads| ==> Token(s.threads[t]) + Token(s.threads[u]) + s.posted <= 1
    ensures var s := ss[i];
      forall t :: 0 <= t < |s.threads| && s.threads[t].Starting? ==> Pending in s.word
    ensures var s := ss[i];
      s.word != {} <==> s.posted == 1 || exists t :: 0 <= t < |s.threads| && Token(s.threads[t]) == 1
  {
    Always(ss, i);
    var s := ss[i];
    forall t, u | 0 <= t < u < |s.threads|
      ensures Token(s.threads[t]) + Token(s.threads[u]) + s.posted <= 1
    {
      TotalTwo(s.threads, t, u, Token);
    }
    forall t | 0 <= t < |s.threads| && s.threads[t].Starting?
      ensures Pending in s.word
    {
      assert ThreadOk(s.threads[t], s.word);
    }
    if s.word == {} {
      NoneHeld(s);
    } else if forall t :: 0 <= t < |s.threads| ==> Token(s.threads[t]) == 0 {
      TotalNone(s.threads, Token);
    }
  }

  /** The first start of the handler at or after `i`; the length of the log if there is none. */
  function NextStart(log: seq<Entry>, i: nat): (j: nat)
    requires i <= |log|
    ensures i <= j <= |log| && (j < |log| ==> log[j].Started?)
    ensures forall k :: i <= k < j ==> log[k].Raised?
    decreases |log| - i
  {
    if i == |log| || log[i].Started? then i else NextStart(log, i + 1)
  }

  lemma {:induction false} UnseenHas(log: seq<Entry>, i: nat, j: nat)
    requires i < j <= |log| && log[i].Raised? && forall k :: i < k < j ==> log[k].Raised?
    ensures log[i].bits <= Unseen(log[..j])
  {
    assert log[..j][..j - 1] == log[..j - 1];
    if i < j - 1 { UnseenHas(log, i, j - 1); }
  }

  /** In every run, the bits raised are passed to the first handler call that starts afterwards; until then they
      are in the word. */
  lemma Delivered(ss: seq<State>, n: nat, i: nat)
    requires Behaviour(ss) && n < |ss| && i < |ss[n].log| && ss[n].log[i].Raised?
    ensures var log, j := ss[n].log, NextStart(ss[n].log, i + 1);
      if j < |log| then log[i].bits <= log[j].mask else log[i].bits <= ss[n].word
  {
    Always(ss, n);
    var log, j := ss[n].log, NextStart(ss[n].log, i + 1);
    UnseenHas(log, i, j);
    if j < |log| {
      assert StartedOk(log, j);
    } else {
      assert log[..j] == log;
    }
  }

  /** In every run, a handler that runs was called with every bit raised before its call that no earlier call was
      passed, and with no bit but such and those of the protocol. */
  lemma HandlerGets(ss: seq<State>, n: nat, t: nat, f: Flag)
    requires Behaviour(ss) && n < |ss| && t < |ss[n].threads| && ss[n].threads[t].Handling? && f !in CONTROL
    ensures var log, j := ss[n].log, LastStart(ss[n].log);
      && j < |log| && log[j] == Started(ss[n].threads[t].mask)
      && (f in ss[n].threads[t].mask <==>
            exists i :: 0 <= i < j && log[i].Raised? && f in log[i].bits && NextStart(log, i + 1) == j)
  {
    Always(ss, n);
    var log, j := ss[n].log, LastStart(ss[n].log);
    assert MaskOk(ss[n].threads[t], log);
    if f in log[j].mask {
      Deserved(ss, n, j, f);
      var i :| 0 <= i < j && log[i].Raised? && f in log[i].bits && NextStart(log[..j], i) == j;
      StartWithin(log, i, j);
    }
    if i :| 0 <= i < j && log[i].Raised? && f in log[i].bits && NextStart(log, i + 1) == j {
      Delivered(ss, n, i);
    }
  }

  lemma {:induction false} StartWithin(log: seq<Entry>, i: nat, j: nat)
    requires i < j < |log| && NextStart(log[..j], i) == j && log[j].Started?
    ensures NextStart(log, i + 1) == j
    decreases j - i
  {
    assert log[..j][i] == log[i];
    if i + 1 < j {
      StartWithin(log, i + 1, j);
      assert log[..j][i + 1] == log[i + 1];
    }
  }

  lemma {:induction false} UnseenFrom(log: seq<Entry>, f: Flag)
    requires f in Unseen(log)
    ensures exists i :: 0 <= i < |log| && log[i].Raised? && f in log[i].bits && NextStart(log, i) == |log|
  {
    var n := |log| - 1;
    var rest := log[..n];
    if f in log[n].bits {
      assert NextStart(log, n) == |log|;
    } else {
      UnseenFrom(rest, f);
      var i :| 0 <= i < |rest| && rest[i].Raised? && f in rest[i].bits && NextStart(rest, i) == |rest|;
      StartLater(log, i);
      assert log[i] == rest[i];
    }
  }

  lemma {:induction false} StartLater(log: seq<Entry>, i: nat)
    requires i < |log| && log[|log| - 1].Raised? && NextStart(log[..|log| - 1], i) == |log| - 1
    ensures NextStart(log, i) == |log|
  {
    var rest := log[..|log| - 1];
    forall k | i <= k < |log|
      ensures log[k].Raised?
    {
      if k < |rest| { assert rest[k] == log[k]; }
    }
  }

  /** And nothing else is: a bit passed to the handler was raised since the call before. */
  lemma Deserved(ss: seq<State>, n: nat, j: nat, f: Flag)
    requires Behaviour(ss) && n < |ss| && j < |ss[n].log| && ss[n].log[j].Started? && f in ss[n].log[j].mask - CONTROL
    ensures exists i ::
      0 <= i < j && ss[n].log[i].Raised? && f in ss[n].log[i].bits && NextStart(ss[n].log[..j], i) == j
  {
    Always(ss, n);
    var log := ss[n].log;
    assert StartedOk(log, j);
    UnseenFrom(log[..j], f);
    var i :| 0 <= i < |log[..j]| && log[..j][i].Raised? && f in log[..j][i].bits && NextStart(log[..j], i) == j;
    assert log[..j][i] == log[i];
  }

  /** Any thread that is not in the middle of something can raise any bits, at any time; it posts a wrapper exactly
      when nobody has the word. */
  lemma RaisesAnyTime(s: State, t: nat, bits: Word)
    requires Inv(s) && t < |s.threads| && s.threads[t].Idle? && bits !! CONTROL
    ensures Enabled(s, Raise(t, bits))
    ensures bits <= Next(s, Raise(t, bits)).word
    ensures Next(s, Raise(t, bits)).threads[t].Owing? <==> s.word == {}
  {
    if s.word == {} { NoneHeld(s); }
  }

  // ---------- progress ----------

  function Work(pc: Pc): nat {
    match pc
    case Idle => 0
    case Owing => 11
    case Posting => 10
    case Starting => 8
    case Handling(_) => 10
    case Finishing => 9
    case Releasing => 1
  }

  /** Shrinks with every step but a raise. */
  ghost function Remaining(s: State): nat {
    Total(s.threads, Work) + 9 * s.posted + if Pending in s.word then 3 else 0
  }

  lemma StepProgress(s: State, a: Step)
    requires Inv(s) && Enabled(s, a) && !a.Raise?
    ensures Remaining(Next(s, a)) < Remaining(s)
  {
    var t, s' := a.t, Next(s, a);
    TotalSet(s.threads, t, s'.threads[t], Work);
    assert ThreadOk(s.threads[t], s.word);
  }

  /** No lost wakeup: a state where nothing but a raise can happen has delivered every bit. */
  lemma QuietDelivered(s: State)
    requires Inv(s) && |s.threads| > 0
    requires forall a :: Enabled(s, a) ==> a.Raise?
    ensures s.word == {} && s.posted == 0 && Unseen(s.log) == {}
    ensures forall t :: 0 <= t < |s.threads| ==> s.threads[t] == Idle
  {
    forall t | 0 <= t < |s.threads|
      ensures s.threads[t] == Idle
    {
      assert !Enabled(s, Require(t)) && !Enabled(s, Post(t)) && !Enabled(s, Fetch(t));
      assert !Enabled(s, Return(t)) && !Enabled(s, Clear(t)) && !Enabled(s, Release(t));
    }
    TotalNone(s.threads, Token);
    assert !Enabled(s, Pick(0));
  }

  /** Nothing was raised from position `i` on. */
  ghost predicate OnlyStarts(log: seq<Entry>, i: nat) {
    forall k :: i <= k < |log| ==> log[k].Started?
  }

  /** Left alone, the protocol comes to rest from every reachable state, with all bits delivered. */
  lemma {:induction false} Settles(s: State) returns (run: seq<State>)
    requires Inv(s) && |s.threads| > 0
    ensures |run| > 0 && run[0] == s && forall i :: 0 <= i < |run| - 1 ==> Follows(run[i], run[i + 1])
    ensures var z := run[|run| - 1]; Inv(z) && z.word == {} && z.posted == 0 && Unseen(z.log) == {}
    ensures s.log <= run[|run| - 1].log && OnlyStarts(run[|run| - 1].log, |s.log|)
    decreases Remaining(s)
  {
    if a :| Enabled(s, a) && !a.Raise? {
      StepInv(s, a);
      StepProgress(s, a);
      assert |Next(s, a).threads| == |s.threads|;
      var rest := Settles(Next(s, a));
      run := [s] + rest;
      forall i | 0 <= i < |run| - 1
        ensures Follows(run[i], run[i + 1])
      {
        if i > 0 { assert Follows(rest[i - 1], rest[i]); }
      }
    } else {
      QuietDelivered(s);
      run := [s];
    }
  }
}
