/** The poller's pending tasks: any thread posts them, and the poller runs them in batches. */
module TaskQueue {
  import opened SpinList

  /** A posted pointer, which may be null. */
  datatype Task = Null | Run(id: nat)

  /** What a batch runs: everything before the first null. */
  function Runnable(batch: seq<Task>): (r: seq<Task>)
    ensures |r| <= |batch| && r == batch[..|r|] && Null !in r
    ensures |r| < |batch| ==> batch[|r|] == Null
  {
    if batch == [] || batch[0].Null? then [] else [batch[0]] + Runnable(batch[1..])
  }

  lemma {:induction false} RunnableAll(batch: seq<Task>)
    ensures Runnable(batch) == batch <==> Null !in batch
  {
    if batch != [] && !batch[0].Null? {
      RunnableAll(batch[1..]);
      assert batch == [batch[0]] + batch[1..];
    }
  }

  lemma {:induction false} RunnableSplit(done: seq<Task>, rest: seq<Task>)
    requires Null !in done
    ensures Runnable(done + rest) == done + Runnable(rest)
  {
    if done != [] {
      RunnableSplit(done[1..], rest);
      assert (done + rest)[1..] == done[1..] + rest;
      assert done[0] in done;
    } else {
      assert done + rest == rest;
    }
  }

  lemma Advance(ran: seq<Task>, rest: seq<Task>)
    requires rest != []
    ensures ran + rest == (ran + [rest[0]]) + rest[1..]
    ensures rest[0].Null? ==> ran + Runnable(rest) == ran
  {
  }

  /** Runs a batch up to its first null task. */
  method RunBatch(tmp: List<Task>) returns (ran: seq<Task>)
    requires tmp.Valid()
    modifies tmp, tmp.repr
    ensures ran == Runnable(old(tmp.items))
  {
    hide List.Valid;
    ran := [];
    ghost var batch := tmp.items;
    var t := Null;
    var empty := tmp.Empty();
    while !empty
      invariant tmp.Valid() && tmp.repr == old(tmp.repr)
      invariant batch == ran + tmp.items && Null !in ran
      invariant empty <==> tmp.items == []
      decreases |tmp.items|
    {
      RunnableSplit(ran, tmp.items);
      Advance(ran, tmp.items);
      var popped;
      popped, t := tmp.Pop(t);
      if !popped || t.Null? {
        return;
      }
      ran := ran + [t];
      empty := tmp.Empty();
    }
    RunnableSplit(ran, []);
    assert ran + [] == ran == batch;
  }

  /** Takes all tasks there are and runs them; `ran` is what was run. What is behind a null task is dropped. */
  method ProcessPendingTask(tasklist: List<Task>) returns (ran: seq<Task>)
    requires tasklist.Valid()
    modifies tasklist, tasklist.repr
    ensures tasklist.Valid() && tasklist.items == []
    ensures ran == Runnable(old(tasklist.items))
  {
    var none := tasklist.Empty();
    if none {
      return [];
    }
    var tmp := new List<Task>();
    tasklist.MoveTo(tmp);
    ran := RunBatch(tmp);
  }

  // ---------- interleavings ----------

  /** `queued` is the list, `batch` what the poller took from it and has not popped yet. `history` and `batches`
      record what was posted and taken, `ran` what was run. */
  datatype State = State(queued: seq<Task>, running: bool, batch: seq<Task>,
                         history: seq<Task>, batches: seq<seq<Task>>, ran: seq<Task>)

  datatype Step = Post(t: Task)   // by any thread, under the list's lock
                | Take            // MoveTo, under the list's lock
                | RunNext         // pop, and run
                | Finish          // the batch is empty

  predicate Init(s: State) {
    s == State([], false, [], [], [], [])
  }

  predicate Enabled(s: State, a: Step) {
    match a
    case Post(_) => true
    case Take => !s.running && s.queued != []
    case RunNext => s.running && s.batch != []
    case Finish => s.running && s.batch == []
  }

  function Next(s: State, a: Step): State
    requires Enabled(s, a)
  {
    match a
    case Post(t) => s.(queued := s.queued + [t], history := s.history + [t])
    case Take => s.(queued := [], running := true, batch := s.queued, batches := s.batches + [s.queued])
    case RunNext =>
      if s.batch[0].Null? then s.(running := false, batch := [])
      else s.(batch := s.batch[1..], ran := s.ran + [s.batch[0]])
    case Finish => s.(running := false)
  }

  ghost predicate Follows(s: State, s': State) {
    exists a :: Enabled(s, a) && s' == Next(s, a)
  }

  ghost predicate Behaviour(ss: seq<State>) {
    && |ss| > 0 && Init(ss[0])
    && forall i :: 0 <= i < |ss| - 1 ==> Follows(ss[i], ss[i + 1])
  }

  function Joined(batches: seq<seq<Task>>): seq<Task> {
    if batches == [] then [] else Joined(batches[..|batches| - 1]) + batches[|batches| - 1]
  }

  function AllRunnable(batches: seq<seq<Task>>): seq<Task> {
    if batches == [] then [] else AllRunnable(batches[..|batches| - 1]) + Runnable(batches[|batches| - 1])
  }

  /** Everything posted was taken in its order or is queued; and what was run, with what the batch at hand will
      still run, is what the batches taken are to run. */
  ghost predicate Inv(s: State) {
    && s.history == Joined(s.batches) + s.queued
    && s.ran + Runnable(s.batch) == AllRunnable(s.batches)
    && (!s.running ==> s.batch == [])
    && (Null in s.batch ==> Null in Joined(s.batches))
  }

  lemma StepInv(s: State, a: Step)
    requires Inv(s) && Enabled(s, a)
    ensures Inv(Next(s, a))
  {
    var s' := Next(s, a);
    match a
    case Post(t) => assert s'.history == Joined(s.batches) + (s.queued + [t]);
    case Take =>
      assert s'.batches[..|s.batches|] == s.batches;
      assert s.ran + [] == s.ran;
    case RunNext =>
      if !s.batch[0].Null? {
        Advance(s.ran, s.batch);
        assert Runnable(s.batch) == [s.batch[0]] + Runnable(s'.batch);
        assert s.ran + ([s.batch[0]] + Runnable(s'.batch)) == s'.ran + Runnable(s'.batch);
      }
    case Finish =>
  }

  lemma {:induction false} Always(ss: seq<State>, i: nat)
    requires Behaviour(ss) && i < |ss|
    ensures Inv(ss[i])
  {
    if i > 0 {
      Always(ss, i - 1);
      assert Follows(ss[i - 1], ss[i]);
      var a :| Enabled(ss[i - 1], a) && ss[i] == Next(ss[i - 1], a);
      StepInv(ss[i - 1], a);
    }
  }

  lemma {:induction false} NothingDropped(batches: seq<seq<Task>>)
    ensures |AllRunnable(batches)| <= |Joined(batches)|
    ensures |AllRunnable(batches)| == |Joined(batches)| <==> Null !in Joined(batches)
    ensures Null !in Joined(batches) ==> AllRunnable(batches) == Joined(batches)
  {
    if batches != [] {
      var front, last := batches[..|batches| - 1], batches[|batches| - 1];
      NothingDropped(front);
      RunnableAll(last);
    }
  }

  /** In every run, tasks are run in the order of posting, each exactly once, the rest of the batch and the queue
      being what is left, as long as no null task was taken. Once one was, tasks are missing from then on. */
  lemma InOrder(ss: seq<State>, i: nat)
    requires Behaviour(ss) && i < |ss|
    ensures var s := ss[i];
      Null !in Joined(s.batches) ==> s.history == s.ran + s.batch + s.queued
    ensures var s := ss[i];
      !s.running ==> (s.history == s.ran + s.queued <==> Null !in Joined(s.batches))
  {
    Always(ss, i);
    var s := ss[i];
    NothingDropped(s.batches);
    RunnableAll(s.batch);
    assert s.ran + [] == s.ran;
  }

  /** How one state follows another in a run: batches are only added, and so are posted tasks. */
  ghost predicate Grown(s: State, s': State) {
    && |s.batches| <= |s'.batches| && s.history <= s'.history
    && (|s.batches| == |s'.batches| ==> s.batches == s'.batches)
  }

  lemma StepGrows(s: State, a: Step)
    requires Enabled(s, a)
    ensures Grown(s, Next(s, a))
  {
  }

  lemma {:induction false} RunGrows(ss: seq<State>, i: nat, j: nat)
    requires Behaviour(ss) && i <= j < |ss|
    ensures Grown(ss[i], ss[j])
  {
    if i < j {
      RunGrows(ss, i, j - 1);
      assert Follows(ss[j - 1], ss[j]);
      var a :| Enabled(ss[j - 1], a) && ss[j] == Next(ss[j - 1], a);
      StepGrows(ss[j - 1], a);
    }
  }

  lemma Within(s: State)
    requires Inv(s)
    ensures Joined(s.batches) <= s.history && s.ran <= AllRunnable(s.batches)
  {
  }

  /** A task posted while a batch runs waits for a later one: as long as no further batch is taken, what has been
      run comes from the batches taken by then, and these hold only what had been posted by then. */
  lemma LaterBatch(ss: seq<State>, i: nat, j: nat)
    requires Behaviour(ss) && i <= j < |ss|
    ensures |ss[i].batches| <= |ss[j].batches|
    ensures |ss[i].batches| == |ss[j].batches| ==>
      ss[i].batches == ss[j].batches && ss[j].ran <= AllRunnable(ss[i].batches)
    ensures Joined(ss[i].batches) <= ss[i].history <= ss[j].history
  {
    hide Inv;
    hide Behaviour;
    Always(ss, i);
    Always(ss, j);
    Within(ss[i]);
    Within(ss[j]);
    RunGrows(ss, i, j);
  }

  // ---------- progress ----------

  /** Shrinks with every step but a post. */
  function Remaining(s: State): nat {
    3 * |s.queued| + |s.batch| + if s.running then 1 else 0
  }

  lemma StepProgress(s: State, a: Step)
    requires Enabled(s, a) && !a.Post?
    ensures Remaining(Next(s, a)) < Remaining(s) && Next(s, a).history == s.history
  {
  }

  /** A run can begin, and tasks can be posted at any time. */
  lemma PostsAnyTime(s: State, t: Task)
    ensures Behaviour([State([], false, [], [], [], [])])
    ensures Enabled(s, Post(t)) && Next(s, Post(t)).queued == s.queued + [t] && Next(s, Post(t)).batch == s.batch
  {
  }

  /** The poller is never stuck: it can go on unless everything is taken and it has nothing to run. */
  lemma NeverStuck(s: State)
    ensures (forall a :: Enabled(s, a) ==> a.Post?) <==> s.queued == [] && !s.running
  {
    if s.queued != [] || s.running {
      assert Enabled(s, if !s.running then Take else if s.batch != [] then RunNext else Finish);
    }
  }

  /** Left alone, the poller comes to rest from every reachable state, with all that was posted taken, and run but for
      what is behind null tasks. */
  lemma {:induction false} Drains(s: State) returns (run: seq<State>)
    requires Inv(s)
    ensures |run| > 0 && run[0] == s && forall i :: 0 <= i < |run| - 1 ==> Follows(run[i], run[i + 1])
    ensures var z := run[|run| - 1];
      z.queued == [] && !z.running && z.history == s.history == Joined(z.batches) && z.ran == AllRunnable(z.batches)
    decreases Remaining(s)
  {
    NeverStuck(s);
    if a :| Enabled(s, a) && !a.Post? {
      StepInv(s, a);
      StepProgress(s, a);
      var rest := Drains(Next(s, a));
      run := [s] + rest;
      forall i | 0 <= i < |run| - 1
        ensures Follows(run[i], run[i + 1])
      {
        if i > 0 { assert Follows(rest[i - 1], rest[i]); }
      }
    } else {
      run := [s];
      assert s.ran + [] == s.ran && Joined(s.batches) + [] == Joined(s.batches);
    }
  }
}
