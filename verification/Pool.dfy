/** The bounded fetch pool as a state machine: one thread per task, a counting
    semaphore with a condition variable, and a channel of indexed verdicts. */
module Pool {
  import opened Verdicts

  /** What a task's closure does when it runs. */
  datatype Task = Returns(verdict: Verdict) | Panics

  /** Where a thread is: about to test the permits, waiting on the condition variable,
      running its task under a permit, past the release, past the send, or dead of a
      panic with its permit still taken. */
  datatype Phase = Contending | Sleeping | Running | Released | Done | Dead

  datatype State = State(available: nat, threads: seq<Phase>, channel: seq<nat>, results: seq<Option<Verdict>>)

  datatype Step =
    | Acquire(i: nat)
    | Sleep(i: nat)
    | SpuriousWake(i: nat)
    | Finish(i: nat, woken: Option<nat>)
    | Crash(i: nat)
    | Send(i: nat)
    | Receive

  /** The pool clamps a concurrency of zero to one. */
  function Permits(fetchConcurrency: nat): nat {
    if fetchConcurrency == 0 then 1 else fetchConcurrency
  }

  function Init(tasks: seq<Task>, permits: nat): State {
    State(permits, seq(|tasks|, _ => Contending), [], seq(|tasks|, _ => None))
  }

  predicate At(s: State, i: nat, p: Phase) {
    i < |s.threads| && s.threads[i] == p
  }

  predicate Enabled(tasks: seq<Task>, s: State, step: Step) {
    match step
    case Acquire(i) => At(s, i, Contending) && s.available > 0
    case Sleep(i) => At(s, i, Contending) && s.available == 0
    case SpuriousWake(i) => At(s, i, Sleeping)
    case Finish(i, woken) =>
      && At(s, i, Running) && i < |tasks| && tasks[i].Returns?
      && (woken.Some? ==> At(s, woken.value, Sleeping))
      && (woken.None? ==> Sleeping !in s.threads)
    case Crash(i) => At(s, i, Running) && i < |tasks| && tasks[i].Panics?
    case Send(i) => At(s, i, Released)
    case Receive => s.channel != [] && s.channel[0] < |s.results| && s.channel[0] < |tasks| && tasks[s.channel[0]].Returns?
  }

  function Move(s: State, i: nat, p: Phase): State
    requires i < |s.threads|
  {
    s.(threads := s.threads[i := p])
  }

  /** Releasing a permit wakes one sleeper, if there is one. */
  function Do(tasks: seq<Task>, s: State, step: Step): State
    requires Enabled(tasks, s, step)
  {
    match step
    case Acquire(i) => Move(s, i, Running).(available := s.available - 1)
    case Sleep(i) => Move(s, i, Sleeping)
    case SpuriousWake(i) => Move(s, i, Contending)
    case Finish(i, woken) =>
      var s1 := Move(s, i, Released).(available := s.available + 1);
      if woken.Some? then Move(s1, woken.value, Contending) else s1
    case Crash(i) => Move(s, i, Dead)
    case Send(i) => Move(s, i, Done).(channel := s.channel + [i])
    case Receive =>
      var i := s.channel[0];
      s.(channel := s.channel[1..], results := s.results[i := Some(tasks[i].verdict)])
  }

  /** The state after some steps, if each was possible in its turn. */
  function After(tasks: seq<Task>, permits: nat, steps: seq<Step>): Option<State> {
    if steps == [] then Some(Init(tasks, permits))
    else
      var before := After(tasks, permits, steps[..|steps| - 1]);
      if before.Some? && Enabled(tasks, before.value, steps[|steps| - 1])
      then Some(Do(tasks, before.value, steps[|steps| - 1])) else None
  }

  ghost predicate Reachable(tasks: seq<Task>, permits: nat, s: State) {
    exists steps :: After(tasks, permits, steps) == Some(s)
  }

  // ------------------------------------------------------------------
  // Counting threads
  // ------------------------------------------------------------------

  function Count(threads: seq<Phase>, p: Phase): nat {
    if threads == [] then 0
    else Count(threads[..|threads| - 1], p) + if threads[|threads| - 1] == p then 1 else 0
  }

  function One(b: bool): nat { if b then 1 else 0 }

  lemma {:induction false} CountUpdate(threads: seq<Phase>, i: nat, q: Phase, p: Phase)
    requires i < |threads|
    ensures Count(threads[i := q], p) + One(threads[i] == p) == Count(threads, p) + One(q == p)
  {
    var last := |threads| - 1;
    if i < last {
      CountUpdate(threads[..last], i, q, p);
      assert threads[i := q][..last] == threads[..last][i := q];
    } else {
      assert threads[i := q][..last] == threads[..last];
    }
  }

  lemma {:induction false} CountPresent(threads: seq<Phase>, p: Phase)
    ensures Count(threads, p) > 0 <==> p in threads
  {
    if threads != [] {
      CountPresent(threads[..|threads| - 1], p);
      assert threads == threads[..|threads| - 1] + [threads[|threads| - 1]];
    }
  }

  lemma {:induction false} CountInit(tasks: seq<Task>, p: Phase)
    ensures Count(seq(|tasks|, _ => Contending), p) == if p.Contending? then |tasks| else 0
  {
    var threads: seq<Phase> := seq(|tasks|, _ => Contending);
    if tasks != [] {
      CountInit(tasks[..|tasks| - 1], p);
      assert threads[..|tasks| - 1] == seq(|tasks| - 1, _ => Contending);
    }
  }

  lemma {:induction false} CountTwo(threads: seq<Phase>, p: Phase, q: Phase)
    requires p != q
    ensures Count(threads, p) + Count(threads, q) <= |threads|
  {
    if threads != [] {
      CountTwo(threads[..|threads| - 1], p, q);
    }
  }

  // ------------------------------------------------------------------
  // The permits
  // ------------------------------------------------------------------

  /** Permits are conserved, and no sleeper is forgotten: while anyone sleeps, there
      are at most as many free permits as threads about to test for one. */
  predicate PermitsOk(s: State, permits: nat) {
    && s.available + Count(s.threads, Running) + Count(s.threads, Dead) == permits
    && (Count(s.threads, Sleeping) > 0 ==> s.available <= Count(s.threads, Contending))
  }

  lemma MoveCounts(s: State, i: nat, q: Phase)
    requires i < |s.threads|
    ensures var (a, b, p) := (s.threads, Move(s, i, q).threads, s.threads[i]);
            && Count(b, Contending) + One(p.Contending?) == Count(a, Contending) + One(q.Contending?)
            && Count(b, Sleeping) + One(p.Sleeping?) == Count(a, Sleeping) + One(q.Sleeping?)
            && Count(b, Running) + One(p.Running?) == Count(a, Running) + One(q.Running?)
            && Count(b, Released) + One(p.Released?) == Count(a, Released) + One(q.Released?)
            && Count(b, Dead) + One(p.Dead?) == Count(a, Dead) + One(q.Dead?)
  {
    CountUpdate(s.threads, i, q, Contending);
    CountUpdate(s.threads, i, q, Sleeping);
    CountUpdate(s.threads, i, q, Running);
    CountUpdate(s.threads, i, q, Released);
    CountUpdate(s.threads, i, q, Dead);
  }

  lemma FinishCounts(tasks: seq<Task>, s: State, step: Step)
    requires step.Finish? && Enabled(tasks, s, step)
    ensures var (a, b) := (s.threads, Do(tasks, s, step).threads);
            && Count(b, Contending) == Count(a, Contending) + One(step.woken.Some?)
            && Count(b, Sleeping) + One(step.woken.Some?) == Count(a, Sleeping)
            && Count(b, Running) + 1 == Count(a, Running)
            && Count(b, Released) == Count(a, Released) + 1
            && Count(b, Dead) == Count(a, Dead)
            && (step.woken.None? ==> Count(a, Sleeping) == 0)
  {
    MoveCounts(s, step.i, Released);
    CountPresent(s.threads, Sleeping);
    if step.woken.Some? {
      MoveCounts(Move(s, step.i, Released), step.woken.value, Contending);
    }
  }

  lemma StepKeepsPermits(tasks: seq<Task>, s: State, step: Step, permits: nat)
    requires PermitsOk(s, permits) && Enabled(tasks, s, step)
    ensures PermitsOk(Do(tasks, s, step), permits)
  {
    match step {
      case Acquire(i) => MoveCounts(s, i, Running);
      case Sleep(i) => MoveCounts(s, i, Sleeping);
      case SpuriousWake(i) => MoveCounts(s, i, Contending);
      case Finish(_, _) => FinishCounts(tasks, s, step);
      case Crash(i) => MoveCounts(s, i, Dead);
      case Send(i) => MoveCounts(s, i, Done);
      case Receive =>
    }
  }

  lemma {:induction false} RunKeepsPermits(tasks: seq<Task>, permits: nat, steps: seq<Step>)
    requires After(tasks, permits, steps).Some?
    ensures PermitsOk(After(tasks, permits, steps).value, permits)
  {
    if steps == [] {
      CountInit(tasks, Running);
      CountInit(tasks, Dead);
      CountInit(tasks, Sleeping);
    } else {
      RunKeepsPermits(tasks, permits, steps[..|steps| - 1]);
      StepKeepsPermits(tasks, After(tasks, permits, steps[..|steps| - 1]).value, steps[|steps| - 1], permits);
    }
  }

  /** At no instant of any run do more tasks execute than there are permits. */
  lemma ConcurrencyIsBounded(tasks: seq<Task>, permits: nat, s: State)
    requires Reachable(tasks, permits, s)
    ensures Count(s.threads, Running) <= permits
  {
    var steps :| After(tasks, permits, steps) == Some(s);
    RunKeepsPermits(tasks, permits, steps);
  }

  // ------------------------------------------------------------------
  // The results
  // ------------------------------------------------------------------

  /** Each thread's state accounts for its message: sent once, received once, and what
      was received is what its task returned. */
  ghost predicate ResultsOk(tasks: seq<Task>, s: State) {
    && |s.threads| == |tasks| == |s.results|
    && (forall k :: 0 <= k < |s.channel| ==> At(s, s.channel[k], Done) && s.results[s.channel[k]].None?)
    && (forall k, l :: 0 <= k < l < |s.channel| ==> s.channel[k] != s.channel[l])
    && (forall i :: 0 <= i < |tasks| ==> ThreadOk(tasks[i], s.threads[i], s.results[i], i in s.channel))
  }

  predicate ThreadOk(task: Task, p: Phase, result: Option<Verdict>, queued: bool) {
    && (p.Released? || p.Done? ==> task.Returns?)
    && (p.Dead? ==> task.Panics?)
    && (result.Some? ==> p.Done? && task == Returns(result.value))
    && (p.Done? ==> result.Some? || queued)
  }

  lemma MoveKeepsResults(tasks: seq<Task>, s: State, i: nat, q: Phase)
    requires ResultsOk(tasks, s) && i < |s.threads| && !s.threads[i].Done? && !q.Done?
    requires (q.Released? ==> tasks[i].Returns?) && (q.Dead? ==> tasks[i].Panics?)
    ensures ResultsOk(tasks, Move(s, i, q))
  {
    assert s.results[i].None?;
  }

  lemma SendKeepsResults(tasks: seq<Task>, s: State, i: nat)
    requires ResultsOk(tasks, s) && At(s, i, Released)
    ensures ResultsOk(tasks, Do(tasks, s, Send(i)))
  {
    var s1 := Do(tasks, s, Send(i));
    assert s.results[i].None? && i !in s.channel;
    assert forall k :: k in s1.channel <==> k in s.channel || k == i;
  }

  lemma QueueHead(channel: seq<nat>, i: nat, k: nat)
    requires channel != [] && channel[0] == i && forall l :: 0 < l < |channel| ==> channel[l] != i
    ensures k in channel[1..] <==> k in channel && k != i
  {
    assert channel == [i] + channel[1..];
  }

  lemma ReceiveKeepsQueue(tasks: seq<Task>, s: State)
    requires ResultsOk(tasks, s) && Enabled(tasks, s, Receive)
    ensures var s1 := Do(tasks, s, Receive);
            && (forall k :: 0 <= k < |s1.channel| ==> At(s1, s1.channel[k], Done) && s1.results[s1.channel[k]].None?)
            && (forall k, l :: 0 <= k < l < |s1.channel| ==> s1.channel[k] != s1.channel[l])
  {
    var (s1, i) := (Do(tasks, s, Receive), s.channel[0]);
    forall k | 0 <= k < |s1.channel|
      ensures At(s1, s1.channel[k], Done) && s1.results[s1.channel[k]].None?
    {
      assert s1.channel[k] == s.channel[k + 1] != s.channel[0];
    }
  }

  lemma ReceiveKeepsResults(tasks: seq<Task>, s: State)
    requires ResultsOk(tasks, s) && Enabled(tasks, s, Receive)
    ensures ResultsOk(tasks, Do(tasks, s, Receive))
  {
    ReceiveKeepsQueue(tasks, s);
    var (s1, i) := (Do(tasks, s, Receive), s.channel[0]);
    forall k: nat | k < |tasks| ensures ThreadOk(tasks[k], s1.threads[k], s1.results[k], k in s1.channel) {
      QueueHead(s.channel, i, k);
      assert ThreadOk(tasks[k], s.threads[k], s.results[k], k in s.channel);
    }
  }

  lemma StepKeepsResults(tasks: seq<Task>, s: State, step: Step)
    requires ResultsOk(tasks, s) && Enabled(tasks, s, step)
    ensures ResultsOk(tasks, Do(tasks, s, step))
  {
    match step {
      case Acquire(i) => MoveKeepsResults(tasks, s, i, Running);
      case Sleep(i) => MoveKeepsResults(tasks, s, i, Sleeping);
      case SpuriousWake(i) => MoveKeepsResults(tasks, s, i, Contending);
      case Finish(i, woken) =>
        MoveKeepsResults(tasks, s, i, Released);
        if woken.Some? { MoveKeepsResults(tasks, Move(s, i, Released), woken.value, Contending); }
      case Crash(i) => MoveKeepsResults(tasks, s, i, Dead);
      case Send(i) => SendKeepsResults(tasks, s, i);
      case Receive => ReceiveKeepsResults(tasks, s);
    }
  }

  lemma {:induction false} RunKeepsResults(tasks: seq<Task>, permits: nat, steps: seq<Step>)
    requires After(tasks, permits, steps).Some?
    ensures ResultsOk(tasks, After(tasks, permits, steps).value)
  {
    if steps != [] {
      RunKeepsResults(tasks, permits, steps[..|steps| - 1]);
      StepKeepsResults(tasks, After(tasks, permits, steps[..|steps| - 1]).value, steps[|steps| - 1]);
    }
  }

  /** Every thread has ended and every message has been received: the receive loop is
      over and the joins return. */
  predicate Complete(s: State) {
    s.channel == [] && forall i :: 0 <= i < |s.threads| ==> s.threads[i].Done? || s.threads[i].Dead?
  }

  /** When the pool returns, every task that did not panic has its own verdict at its
      own place, whatever order the threads ran in; the others have none. */
  lemma ResultsInInputOrder(tasks: seq<Task>, permits: nat, s: State)
    requires Reachable(tasks, permits, s) && Complete(s)
    ensures |s.results| == |tasks|
    ensures forall i :: 0 <= i < |tasks| ==> s.results[i] == if tasks[i].Returns? then Some(tasks[i].verdict) else None
  {
    var steps :| After(tasks, permits, steps) == Some(s);
    RunKeepsResults(tasks, permits, steps);
    forall i | 0 <= i < |tasks|
      ensures s.results[i] == if tasks[i].Returns? then Some(tasks[i].verdict) else None
    {
      assert ThreadOk(tasks[i], s.threads[i], s.results[i], i in s.channel);
    }
  }

  // ------------------------------------------------------------------
  // Termination and deadlock
  // ------------------------------------------------------------------

  /** What is left to do. */
  function Work(s: State): nat {
    5 * Count(s.threads, Contending) + 4 * Count(s.threads, Sleeping) + 4 * Count(s.threads, Running)
    + 2 * Count(s.threads, Released) + |s.channel|
  }

  /** Every step but a spurious wake-up leaves less to do, so a run without them ends
      within five steps per task. */
  lemma StepReducesWork(tasks: seq<Task>, s: State, step: Step)
    requires Enabled(tasks, s, step) && !step.SpuriousWake?
    ensures Work(Do(tasks, s, step)) < Work(s)
  {
    match step {
      case Acquire(i) => MoveCounts(s, i, Running);
      case Sleep(i) => MoveCounts(s, i, Sleeping);
      case Finish(_, _) => FinishCounts(tasks, s, step);
      case Crash(i) => MoveCounts(s, i, Dead);
      case Send(i) => MoveCounts(s, i, Done);
      case Receive =>
    }
  }

  lemma {:induction false} RunsAreShort(tasks: seq<Task>, permits: nat, steps: seq<Step>)
    requires After(tasks, permits, steps).Some? && forall k :: 0 <= k < |steps| ==> !steps[k].SpuriousWake?
    ensures |steps| + Work(After(tasks, permits, steps).value) <= 5 * |tasks|
  {
    if steps == [] {
      CountInit(tasks, Contending);
      CountInit(tasks, Sleeping);
      CountInit(tasks, Running);
      CountInit(tasks, Released);
    } else {
      var init := steps[..|steps| - 1];
      RunsAreShort(tasks, permits, init);
      StepReducesWork(tasks, After(tasks, permits, init).value, steps[|steps| - 1]);
    }
  }

  /** Nothing can happen any more, short of a spurious wake-up, and the call has not
      returned. */
  ghost predicate Hung(tasks: seq<Task>, s: State) {
    !Complete(s) && forall step :: Enabled(tasks, s, step) ==> step.SpuriousWake?
  }

  function Panicking(tasks: seq<Task>): nat {
    if tasks == [] then 0 else Panicking(tasks[..|tasks| - 1]) + One(tasks[|tasks| - 1].Panics?)
  }

  lemma {:induction false} DeadHavePanicked(tasks: seq<Task>, threads: seq<Phase>)
    requires |threads| == |tasks| && forall i :: 0 <= i < |tasks| ==> threads[i].Dead? ==> tasks[i].Panics?
    ensures Count(threads, Dead) <= Panicking(tasks)
  {
    if tasks != [] {
      DeadHavePanicked(tasks[..|tasks| - 1], threads[..|tasks| - 1]);
    }
  }

  lemma HungSleeps(tasks: seq<Task>, s: State)
    requires ResultsOk(tasks, s) && Hung(tasks, s)
    ensures Count(s.threads, Contending) == 0 && Count(s.threads, Running) == 0 && Count(s.threads, Sleeping) > 0
  {
    CountPresent(s.threads, Contending);
    CountPresent(s.threads, Running);
    CountPresent(s.threads, Sleeping);
    forall i: nat | i < |s.threads| ensures s.threads[i].Sleeping? || s.threads[i].Done? || s.threads[i].Dead? {
      if !(s.threads[i].Sleeping? || s.threads[i].Done? || s.threads[i].Dead?) {
        ThreadCanStep(tasks, s, i);
      }
    }
    if s.channel != [] {
      assert At(s, s.channel[0], Done);
      assert Enabled(tasks, s, Receive);
    }
  }

  lemma ThreadCanStep(tasks: seq<Task>, s: State, i: nat)
    requires ResultsOk(tasks, s) && i < |s.threads|
    requires s.threads[i].Contending? || s.threads[i].Running? || s.threads[i].Released?
    ensures exists step :: Enabled(tasks, s, step) && !step.SpuriousWake?
  {
    if s.threads[i].Contending? {
      assert Enabled(tasks, s, if s.available > 0 then Acquire(i) else Sleep(i));
    } else if s.threads[i].Released? {
      assert Enabled(tasks, s, Send(i));
    } else if tasks[i].Panics? {
      assert Enabled(tasks, s, Crash(i));
    } else if w :| 0 <= w < |s.threads| && s.threads[w].Sleeping? {
      assert Enabled(tasks, s, Finish(i, Some(w)));
    } else {
      assert Enabled(tasks, s, Finish(i, None));
    }
  }

  /** A pool that hangs has lost every permit to a panic and left a task waiting. */
  lemma HungMeansLostPermits(tasks: seq<Task>, permits: nat, s: State)
    requires Reachable(tasks, permits, s) && Hung(tasks, s)
    ensures permits <= Panicking(tasks) && permits < |tasks|
  {
    var steps :| After(tasks, permits, steps) == Some(s);
    RunKeepsPermits(tasks, permits, steps);
    RunKeepsResults(tasks, permits, steps);
    HungSleeps(tasks, s);
    DeadHavePanicked(tasks, s.threads);
    CountTwo(s.threads, Dead, Sleeping);
  }

  lemma AfterPush(tasks: seq<Task>, permits: nat, steps: seq<Step>, step: Step)
    requires After(tasks, permits, steps).Some? && Enabled(tasks, After(tasks, permits, steps).value, step)
    ensures After(tasks, permits, steps + [step]) == Some(Do(tasks, After(tasks, permits, steps).value, step))
  {
    assert (steps + [step])[..|steps|] == steps;
  }

  /** The first `n` tasks tried in order: those that panic have taken permits with them
      until none was left, and everyone else still contends. */
  predicate CrashedUpTo(tasks: seq<Task>, permits: nat, n: nat, s: State) {
    && n <= |tasks| == |s.threads| && s.channel == []
    && (forall i :: 0 <= i < |tasks| ==> s.threads[i].Contending? || (s.threads[i].Dead? && i < n))
    && s.available + Count(s.threads, Dead) == permits
    && (s.available > 0 ==> Count(s.threads, Dead) == Panicking(tasks[..n]))
  }

  lemma CrashOne(tasks: seq<Task>, permits: nat, n: nat, s: State)
    requires n < |tasks| && CrashedUpTo(tasks, permits, n, s) && s.available > 0 && tasks[n].Panics?
    ensures Enabled(tasks, s, Acquire(n)) && Enabled(tasks, Do(tasks, s, Acquire(n)), Crash(n))
    ensures CrashedUpTo(tasks, permits, n + 1, Do(tasks, Do(tasks, s, Acquire(n)), Crash(n)))
  {
    assert tasks[..n + 1][..n] == tasks[..n];
    MoveCounts(s, n, Running);
    MoveCounts(Do(tasks, s, Acquire(n)), n, Dead);
  }

  lemma {:induction false} CrashFirst(tasks: seq<Task>, permits: nat, n: nat) returns (steps: seq<Step>)
    requires n <= |tasks|
    ensures After(tasks, permits, steps).Some?
    ensures CrashedUpTo(tasks, permits, n, After(tasks, permits, steps).value)
  {
    if n == 0 {
      steps := [];
      CountInit(tasks, Dead);
    } else {
      steps := CrashFirst(tasks, permits, n - 1);
      var s := After(tasks, permits, steps).value;
      assert tasks[..n][..n - 1] == tasks[..n - 1];
      if s.available > 0 && tasks[n - 1].Panics? {
        CrashOne(tasks, permits, n - 1, s);
        AfterPush(tasks, permits, steps, Acquire(n - 1));
        AfterPush(tasks, permits, steps + [Acquire(n - 1)], Crash(n - 1));
        steps := steps + [Acquire(n - 1)] + [Crash(n - 1)];
      }
    }
  }

  /** No permit is left, and the first `n` threads that are not dead sleep. */
  predicate AsleepUpTo(tasks: seq<Task>, permits: nat, n: nat, s: State) {
    && n <= |tasks| == |s.threads| && s.channel == [] && s.available == 0
    && (forall i :: 0 <= i < |tasks| ==> s.threads[i].Dead? || if i < n then s.threads[i].Sleeping? else s.threads[i].Contending?)
    && Count(s.threads, Dead) == permits
  }

  lemma SleepOne(tasks: seq<Task>, permits: nat, n: nat, s: State)
    requires n < |tasks| && AsleepUpTo(tasks, permits, n, s) && !s.threads[n].Dead?
    ensures Enabled(tasks, s, Sleep(n)) && AsleepUpTo(tasks, permits, n + 1, Do(tasks, s, Sleep(n)))
  {
    MoveCounts(s, n, Sleeping);
  }

  lemma {:induction false} SleepRest(tasks: seq<Task>, permits: nat, n: nat) returns (steps: seq<Step>)
    requires n <= |tasks| && permits <= Panicking(tasks)
    ensures After(tasks, permits, steps).Some?
    ensures AsleepUpTo(tasks, permits, n, After(tasks, permits, steps).value)
  {
    if n == 0 {
      steps := CrashFirst(tasks, permits, |tasks|);
      assert tasks[..|tasks|] == tasks;
    } else {
      steps := SleepRest(tasks, permits, n - 1);
      var s := After(tasks, permits, steps).value;
      if !s.threads[n - 1].Dead? {
        SleepOne(tasks, permits, n - 1, s);
        AfterPush(tasks, permits, steps, Sleep(n - 1));
        steps := steps + [Sleep(n - 1)];
      }
    }
  }

  lemma {:induction false} NotAllDead(threads: seq<Phase>)
    requires Count(threads, Dead) < |threads|
    ensures exists i :: 0 <= i < |threads| && !threads[i].Dead?
  {
    var last := |threads| - 1;
    if threads[last].Dead? {
      NotAllDead(threads[..last]);
      var i :| 0 <= i < last && !threads[..last][i].Dead?;
      assert !threads[i].Dead?;
    }
  }

  lemma AsleepIsHung(tasks: seq<Task>, permits: nat, s: State)
    requires AsleepUpTo(tasks, permits, |tasks|, s) && permits < |tasks|
    ensures Hung(tasks, s)
  {
    NotAllDead(s.threads);
    var i :| 0 <= i < |s.threads| && !s.threads[i].Dead?;
    assert s.threads[i].Sleeping?;
    assert !Complete(s);
    forall step | Enabled(tasks, s, step) ensures step.SpuriousWake? {
      OnlySleepersStep(tasks, permits, s, step);
    }
  }

  lemma OnlySleepersStep(tasks: seq<Task>, permits: nat, s: State, step: Step)
    requires AsleepUpTo(tasks, permits, |tasks|, s) && Enabled(tasks, s, step)
    ensures step.SpuriousWake?
  {
    assert forall i :: 0 <= i < |s.threads| ==> s.threads[i].Dead? || s.threads[i].Sleeping?;
  }

  /** The pool can hang iff at least as many tasks panic as there are permits and some
      task is left over; a panicking thread never returns its permit. */
  lemma CanHangIff(tasks: seq<Task>, fetchConcurrency: nat)
    ensures var permits := Permits(fetchConcurrency);
            (exists s :: Reachable(tasks, permits, s) && Hung(tasks, s)) <==>
              permits <= Panicking(tasks) && permits < |tasks|
  {
    var permits := Permits(fetchConcurrency);
    if s :| Reachable(tasks, permits, s) && Hung(tasks, s) {
      HungMeansLostPermits(tasks, permits, s);
    }
    if permits <= Panicking(tasks) && permits < |tasks| {
      var steps := SleepRest(tasks, permits, |tasks|);
      var s := After(tasks, permits, steps).value;
      assert Reachable(tasks, permits, s);
      AsleepIsHung(tasks, permits, s);
    }
  }
}
