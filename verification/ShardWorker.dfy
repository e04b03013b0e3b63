/** The shard worker's queue: submitters, the worker and a shutdown interleave in
    any order, and every job keeps its place and is handled at most once. */
module ShardWorker {

  type Job = nat
  type Thread = nat

  /** Where a submitter is. */
  datatype Pc =
    | Idle
    | Choosing(job: Job)                  // saw done unset; selects between queue and stop
    | Refusing(job: Job)                  // about to cancel its own job
    | Returned(job: Job, accepted: bool)  // submit has its result

  datatype Worker =
    | Selecting
    | Running(job: Job)
    | Draining
    | Cancelling(job: Job)
    | Exited(at: nat)                     // with `at` jobs enqueued so far

  /** The worker and its queue, with what has happened: jobs enqueued, jobs the
      worker took, handled by running or by cancelling, and jobs refused. */
  datatype State = State(
    depth: nat, queue: seq<Job>, done: bool, closing: bool, stopped: bool, worker: Worker, threads: map<Thread, Pc>,
    submitted: set<Job>, enqueued: seq<Job>, ran: seq<Job>, cancelled: seq<Job>, refused: seq<Job>)

  datatype Step =
    | Submit(t: Thread, job: Job)
    | Enqueue(t: Thread)
    | SeeStop(t: Thread)
    | Refuse(t: Thread)
    | Collect(t: Thread)
    | Take
    | Run
    | StopSeen
    | Drain
    | Cancel
    | Exit
    | SetDone
    | CloseStop

  function At(s: State, t: Thread): Pc {
    if t in s.threads then s.threads[t] else Idle
  }

  function Goes(s: State, t: Thread, pc: Pc): State {
    s.(threads := s.threads[t := pc])
  }

  predicate Enabled(s: State, a: Step) {
    match a
    case Submit(t, j) => At(s, t).Idle? && j !in s.submitted
    case Enqueue(t) => At(s, t).Choosing? && |s.queue| < s.depth
    case SeeStop(t) => At(s, t).Choosing? && s.stopped
    case Refuse(t) => At(s, t).Refusing?
    case Collect(t) => At(s, t).Returned?
    case Take => s.worker.Selecting? && s.queue != []
    case Run => s.worker.Running?
    case StopSeen => s.worker.Selecting? && s.stopped
    case Drain => s.worker.Draining? && s.queue != []
    case Cancel => s.worker.Cancelling?
    case Exit => s.worker.Draining? && s.queue == []
    case SetDone => !s.done
    case CloseStop => s.closing
  }

  /** One atomic step: an atomic load or store, or a channel operation, or a call
      of a job's handler. */
  function Next(s: State, a: Step): State
    requires Enabled(s, a)
  {
    match a
    case Submit(t, j) =>
      Goes(s.(submitted := s.submitted + {j}), t, if s.done then Refusing(j) else Choosing(j))
    case Enqueue(t) =>
      var j := At(s, t).job;
      Goes(s.(queue := s.queue + [j], enqueued := s.enqueued + [j]), t, Returned(j, true))
    case SeeStop(t) => Goes(s, t, Refusing(At(s, t).job))
    case Refuse(t) =>
      var j := At(s, t).job;
      Goes(s.(refused := s.refused + [j]), t, Returned(j, false))
    case Collect(t) => Goes(s, t, Idle)
    case Take => s.(queue := s.queue[1..], worker := Running(s.queue[0]))
    case Run => s.(worker := Selecting, ran := s.ran + [s.worker.job])
    case StopSeen => s.(worker := Draining)
    case Drain => s.(queue := s.queue[1..], worker := Cancelling(s.queue[0]))
    case Cancel => s.(worker := Draining, cancelled := s.cancelled + [s.worker.job])
    case Exit => s.(worker := Exited(|s.enqueued|))
    case SetDone => s.(done := true, closing := true)
    case CloseStop => s.(closing := false, stopped := true)
  }

  function Start(depth: nat): State {
    State(depth, [], false, false, false, Selecting, map[], {}, [], [], [], [])
  }

  // ----- What every step keeps -----

  /** The job the worker holds between taking and handling it. */
  function InHand(w: Worker): seq<Job> {
    if w.Running? || w.Cancelling? then [w.job] else []
  }

  /** Jobs the worker has taken, in order. */
  function Taken(s: State): seq<Job> {
    s.ran + s.cancelled + InHand(s.worker)
  }

  predicate NoDuplicates(js: seq<Job>) {
    forall i, j :: 0 <= i < j < |js| ==> js[i] != js[j]
  }

  /** The worker takes jobs in enqueue order, runs first and cancels later. */
  predicate InOrder(s: State) {
    && Taken(s) + s.queue == s.enqueued
    && |s.queue| <= s.depth
    && (s.worker.Selecting? || s.worker.Running? ==> s.cancelled == [])
    && (s.worker.Exited? ==> s.worker.at == |Taken(s)| <= |s.enqueued|)
    && (s.worker.Draining? || s.worker.Cancelling? || s.worker.Exited? ==> s.stopped)
    && (s.stopped || s.closing ==> s.done)
  }

  predicate Owns(pc: Pc) {
    pc.Choosing? || pc.Refusing?
  }

  /** A job is in one place: with its submitter, enqueued, or refused. */
  predicate OnePlace(s: State) {
    && NoDuplicates(s.enqueued) && NoDuplicates(s.refused)
    && (forall j :: j in s.enqueued ==> j in s.submitted && j !in s.refused)
    && (forall j :: j in s.refused ==> j in s.submitted)
    && (forall t :: t in s.threads && Owns(s.threads[t]) ==>
          && s.threads[t].job in s.submitted
          && s.threads[t].job !in s.enqueued && s.threads[t].job !in s.refused)
    && (forall t, u :: t in s.threads && u in s.threads && t != u && Owns(s.threads[t]) && Owns(s.threads[u]) ==>
          s.threads[t].job != s.threads[u].job)
    && (forall t :: t in s.threads && s.threads[t].Returned? ==>
          if s.threads[t].accepted then s.threads[t].job in s.enqueued else s.threads[t].job in s.refused)
  }

  /** Whoever refuses, or has been refused, has met a shutdown. */
  predicate NoneRefusedEarly(s: State) {
    && (s.refused != [] ==> s.done)
    && (forall t :: t in s.threads && s.threads[t].Refusing? ==> s.done)
    && (s.stopped ==> s.done) && (s.closing ==> s.done)
  }

  predicate Inv(s: State) {
    InOrder(s) && OnePlace(s) && NoneRefusedEarly(s)
  }

  lemma RefusalsKept(s: State, a: Step)
    requires NoneRefusedEarly(s) && Enabled(s, a)
    ensures NoneRefusedEarly(Next(s, a))
  {
  }

  lemma OrderKept(s: State, a: Step)
    requires InOrder(s) && Enabled(s, a)
    ensures InOrder(Next(s, a))
  {
    match a
    case Enqueue(t) => EnqueueKeepsOrder(s, t);
    case Take => TakeKeepsOrder(s, a);
    case Drain => TakeKeepsOrder(s, a);
    case Run => assert Taken(Next(s, a)) == Taken(s);
    case Cancel => assert Taken(Next(s, a)) == Taken(s);
    case _ =>
  }

  lemma EnqueueKeepsOrder(s: State, t: Thread)
    requires InOrder(s) && Enabled(s, Enqueue(t))
    ensures InOrder(Next(s, Enqueue(t)))
  {
    assert Taken(s) + (s.queue + [At(s, t).job]) == (Taken(s) + s.queue) + [At(s, t).job];
  }

  lemma TakeKeepsOrder(s: State, a: Step)
    requires InOrder(s) && Enabled(s, a) && (a.Take? || a.Drain?)
    ensures InOrder(Next(s, a))
  {
    assert s.queue == [s.queue[0]] + s.queue[1..];
    assert Taken(Next(s, a)) == Taken(s) + [s.queue[0]];
  }

  lemma PlaceKept(s: State, a: Step)
    requires OnePlace(s) && Enabled(s, a)
    ensures OnePlace(Next(s, a))
  {
    match a
    case Submit(t, j) => SubmitKeepsPlace(s, t, j);
    case Enqueue(t) => EnqueueKeepsPlace(s, t);
    case SeeStop(t) => SeeStopKeepsPlace(s, t);
    case Refuse(t) => RefuseKeepsPlace(s, t);
    case Collect(t) => CollectKeepsPlace(s, t);
    case _ => hide NoDuplicates;
  }

  lemma SubmitKeepsPlace(s: State, t: Thread, j: Job)
    requires OnePlace(s) && Enabled(s, Submit(t, j))
    ensures OnePlace(Next(s, Submit(t, j)))
  {
    hide NoDuplicates;
  }

  lemma EnqueueKeepsPlace(s: State, t: Thread)
    requires OnePlace(s) && Enabled(s, Enqueue(t))
    ensures OnePlace(Next(s, Enqueue(t)))
  {
    OneMore(s.enqueued, At(s, t).job);
    hide NoDuplicates;
  }

  lemma SeeStopKeepsPlace(s: State, t: Thread)
    requires OnePlace(s) && Enabled(s, SeeStop(t))
    ensures OnePlace(Next(s, SeeStop(t)))
  {
    hide NoDuplicates;
  }

  lemma RefuseKeepsPlace(s: State, t: Thread)
    requires OnePlace(s) && Enabled(s, Refuse(t))
    ensures OnePlace(Next(s, Refuse(t)))
  {
    OneMore(s.refused, At(s, t).job);
    hide NoDuplicates;
  }

  lemma CollectKeepsPlace(s: State, t: Thread)
    requires OnePlace(s) && Enabled(s, Collect(t))
    ensures OnePlace(Next(s, Collect(t)))
  {
    hide NoDuplicates;
  }

  lemma OneMore(js: seq<Job>, j: Job)
    requires NoDuplicates(js) && j !in js
    ensures NoDuplicates(js + [j])
  {
  }

  lemma StartKeepsInv(depth: nat)
    ensures Inv(Start(depth))
  {
  }

  /** In every interleaving of a new worker the invariant holds throughout. */
  lemma {:induction false} RunsKeepInv(depth: nat, run: seq<State>, steps: seq<Step>)
    requires |run| == |steps| + 1 && run[0] == Start(depth)
    requires forall i :: 0 <= i < |steps| ==> Enabled(run[i], steps[i]) && run[i + 1] == Next(run[i], steps[i])
    ensures forall i :: 0 <= i < |run| ==> Inv(run[i])
    decreases |steps|
  {
    StartKeepsInv(depth);
    var n := |steps|;
    if n > 0 {
      RunsKeepInv(depth, run[..n], steps[..n - 1]);
      assert run[..n][n - 1] == run[n - 1];
      OrderKept(run[n - 1], steps[n - 1]);
      PlaceKept(run[n - 1], steps[n - 1]);
      RefusalsKept(run[n - 1], steps[n - 1]);
      hide Inv, Next, Enabled;
      forall i | 0 <= i < |run|
        ensures Inv(run[i])
      {
        if i < n { assert run[..n][i] == run[i]; }
      }
    }
  }

  // ----- What it means -----

  /** How often a job's handler has been called. */
  function Calls(js: seq<Job>, j: Job): nat {
    multiset(js)[j]
  }

  /** Everything handled so far: run, cancelled by the worker, or refused. */
  function Handled(s: State): seq<Job> {
    s.ran + s.cancelled + s.refused
  }

  lemma {:induction false} OnceOnly(js: seq<Job>, j: Job)
    requires NoDuplicates(js)
    ensures Calls(js, j) == if j in js then 1 else 0
  {
    if js != [] {
      var init, last := js[..|js| - 1], js[|js| - 1];
      assert js == init + [last];
      OnceOnly(init, j);
    }
  }

  /** Jobs are taken in enqueue order: run ones first, then cancelled ones. */
  lemma TakenInOrder(s: State)
    requires Inv(s)
    ensures Taken(s) <= s.enqueued && s.ran <= s.enqueued
    ensures s.ran + s.cancelled <= s.enqueued
    ensures s.cancelled != [] ==> !s.worker.Running? && !s.worker.Selecting?
  {
    assert (s.ran + s.cancelled) + (InHand(s.worker) + s.queue) == s.enqueued;
  }

  /** No job is handled twice. */
  lemma HandledOnce(s: State, j: Job)
    requires Inv(s)
    ensures NoDuplicates(Handled(s)) && Calls(Handled(s), j) <= 1
  {
    TakenInOrder(s);
    var taken := s.ran + s.cancelled;
    assert taken == s.enqueued[..|taken|];
    assert NoDuplicates(taken);
    forall x | x in taken
      ensures x !in s.refused
    {
      assert x in s.enqueued;
    }
    JoinApart(taken, s.refused);
    OnceOnly(Handled(s), j);
  }

  lemma JoinApart(a: seq<Job>, b: seq<Job>)
    requires NoDuplicates(a) && NoDuplicates(b) && forall x :: x in a ==> x !in b
    ensures NoDuplicates(a + b)
  {
    forall i, j | 0 <= i < j < |a + b|
      ensures (a + b)[i] != (a + b)[j]
    {
      if i < |a| <= j { assert a[i] in a && b[j - |a|] in b; }
    }
  }

  /** A submit that returned false has cancelled its job exactly once, and the
      worker never sees it; one that returned true has enqueued it. */
  lemma SubmitMeans(s: State, t: Thread)
    requires Inv(s) && At(s, t).Returned?
    ensures var j := At(s, t).job;
            if At(s, t).accepted then j in s.enqueued && j !in s.refused
            else Calls(s.refused, j) == 1 && j !in s.enqueued && j !in s.ran && j !in s.cancelled
  {
    var j := At(s, t).job;
    TakenInOrder(s);
    OnceOnly(s.refused, j);
    assert forall x :: x in s.ran + s.cancelled ==> x in s.enqueued;
    if j in s.ran || j in s.cancelled { assert j in s.ran + s.cancelled; }
  }

  /** Its submitter refuses `j`, or has refused it. */
  predicate TurnedAway(s: State, j: Job) {
    j in s.refused || exists t :: t in s.threads && s.threads[t] == Refusing(j)
  }

  lemma AwayKept(s: State, a: Step, j: Job)
    requires TurnedAway(s, j) && Enabled(s, a)
    ensures TurnedAway(Next(s, a), j)
  {
    if j !in s.refused {
      var t :| t in s.threads && s.threads[t] == Refusing(j);
      var s' := Next(s, a);
      if a == Refuse(t) {
        assert s'.refused[|s.refused|] == j;
      } else {
        assert t in s'.threads && s'.threads[t] == Refusing(j);
      }
    }
  }

  lemma AwayIsOut(s: State, j: Job)
    requires Inv(s) && TurnedAway(s, j)
    ensures j !in s.enqueued
  {
    hide NoDuplicates, InOrder;
  }

  /** In every interleaving: a job submitted after the shutdown has begun never gets
      into the queue. */
  lemma {:induction false} LateIsRefused(depth: nat, run: seq<State>, steps: seq<Step>, i: nat, n: nat)
    requires |run| == |steps| + 1 && run[0] == Start(depth) && i < n <= |steps|
    requires forall k :: 0 <= k < |steps| ==> Enabled(run[k], steps[k]) && run[k + 1] == Next(run[k], steps[k])
    requires steps[i].Submit? && run[i].done
    ensures TurnedAway(run[n], steps[i].job) && steps[i].job !in run[n].enqueued
    decreases n
  {
    hide Inv, TurnedAway;
    RunsKeepInv(depth, run, steps);
    if i == n - 1 {
      NowTurnedAway(run[i], steps[i]);
    } else {
      LateIsRefused(depth, run, steps, i, n - 1);
      AwayKept(run[n - 1], steps[n - 1], steps[i].job);
    }
    AwayIsOut(run[n], steps[i].job);
  }

  lemma NowTurnedAway(s: State, a: Step)
    requires Enabled(s, a) && a.Submit? && s.done
    ensures TurnedAway(Next(s, a), a.job)
  {
    assert a.t in Next(s, a).threads && Next(s, a).threads[a.t] == Refusing(a.job);
  }

  /** Once the worker has exited, an accepted job has been handled exactly when it
      was enqueued before the exit. */
  lemma HandledIffEarly(s: State, i: nat)
    requires Inv(s) && s.worker.Exited? && i < |s.enqueued|
    ensures s.enqueued[i] in s.ran + s.cancelled <==> i < s.worker.at
  {
    var taken := s.ran + s.cancelled;
    assert taken + s.queue == s.enqueued && |taken| == s.worker.at;
    if i < |taken| {
      assert taken[i] == s.enqueued[i];
    } else {
      forall k | 0 <= k < |taken|
        ensures taken[k] != s.enqueued[i]
      {
        assert taken[k] == s.enqueued[k];
      }
    }
  }

  /** After the exit nothing more is handled from the queue. */
  lemma ExitIsFinal(s: State, a: Step)
    requires s.worker.Exited? && Enabled(s, a)
    ensures var s' := Next(s, a);
            s'.worker == s.worker && s'.ran == s.ran && s'.cancelled == s.cancelled && s.enqueued <= s'.enqueued
  {
  }

  /** That late enqueue does happen: a submitter that looked before the shutdown
      can put its job in after the worker has gone, and be told it was accepted. */
  lemma LateSubmit() returns (run: seq<State>, steps: seq<Step>)
    ensures |run| == |steps| + 1 && run[0] == Start(1)
    ensures forall i :: 0 <= i < |steps| ==> Enabled(run[i], steps[i]) && run[i + 1] == Next(run[i], steps[i])
    ensures var s := run[|steps|];
            s.worker.Exited? && At(s, 0) == Returned(7, true) && 7 !in s.ran + s.cancelled + s.refused
  {
    hide Enabled, Next;
    var s := ExitFirst();
    var t := LastEnqueue(s[4]);
    steps := [Submit(0, 7), SetDone, CloseStop, StopSeen, Exit, Enqueue(0)];
    run := [s[0], s[1], s[2], s[3], s[4], t[0], t[1]];
  }

  /** A job in the queue can be cancelled: the worker may see the stop first. */
  lemma StopCancels() returns (run: seq<State>, steps: seq<Step>)
    ensures |run| == |steps| + 1 && run[0] == Start(1)
    ensures forall i :: 0 <= i < |steps| ==> Enabled(run[i], steps[i]) && run[i + 1] == Next(run[i], steps[i])
    ensures var s := run[|steps|]; At(s, 0) == Returned(7, true) && s.cancelled == [7] && s.ran == []
  {
    hide Enabled, Next;
    var s := StoppedBehind();
    var t := LastCancelled(s[4]);
    steps := [Submit(0, 7), Enqueue(0), SetDone, CloseStop, StopSeen, Drain, Cancel];
    run := [s[0], s[1], s[2], s[3], s[4], t[0], t[1], t[2]];
  }

  /** A job is in the queue, and the stop is there. */
  lemma StoppedBehind() returns (s: seq<State>)
    ensures |s| == 5 && s[0] == Start(1)
    ensures Enabled(s[0], Submit(0, 7)) && s[1] == Next(s[0], Submit(0, 7))
    ensures Enabled(s[1], Enqueue(0)) && s[2] == Next(s[1], Enqueue(0))
    ensures Enabled(s[2], SetDone) && s[3] == Next(s[2], SetDone)
    ensures Enabled(s[3], CloseStop) && s[4] == Next(s[3], CloseStop)
    ensures s[4] == State(1, [7], true, false, true, Selecting, map[0 := Returned(7, true)], {7}, [7], [], [], [])
  {
    var s0 := Start(1);
    var s1 := Next(s0, Submit(0, 7));
    var s2 := Next(s1, Enqueue(0));
    assert s1.threads[0 := Returned(7, true)] == map[0 := Returned(7, true)];
    var s3 := Next(s2, SetDone);
    s := [s0, s1, s2, s3, Next(s3, CloseStop)];
  }

  lemma LastCancelled(s: State) returns (t: seq<State>)
    requires s == State(1, [7], true, false, true, Selecting, map[0 := Returned(7, true)], {7}, [7], [], [], [])
    ensures |t| == 3 && Enabled(s, StopSeen) && t[0] == Next(s, StopSeen)
    ensures Enabled(t[0], Drain) && t[1] == Next(t[0], Drain)
    ensures Enabled(t[1], Cancel) && t[2] == Next(t[1], Cancel)
    ensures At(t[2], 0) == Returned(7, true) && t[2].cancelled == [7] && t[2].ran == []
  {
    var t0 := Next(s, StopSeen);
    var t1 := Next(t0, Drain);
    t := [t0, t1, Next(t1, Cancel)];
  }

  /** The submitter has looked, and the worker has seen the stop. */
  lemma ExitFirst() returns (s: seq<State>)
    ensures |s| == 5 && s[0] == Start(1)
    ensures Enabled(s[0], Submit(0, 7)) && s[1] == Next(s[0], Submit(0, 7))
    ensures Enabled(s[1], SetDone) && s[2] == Next(s[1], SetDone)
    ensures Enabled(s[2], CloseStop) && s[3] == Next(s[2], CloseStop)
    ensures Enabled(s[3], StopSeen) && s[4] == Next(s[3], StopSeen)
    ensures s[4] == State(1, [], true, false, true, Draining, map[0 := Choosing(7)], {7}, [], [], [], [])
  {
    var s0 := Start(1);
    var s1 := Next(s0, Submit(0, 7));
    var s2 := Next(s1, SetDone);
    var s3 := Next(s2, CloseStop);
    s := [s0, s1, s2, s3, Next(s3, StopSeen)];
  }

  lemma LastEnqueue(s: State) returns (t: seq<State>)
    requires s == State(1, [], true, false, true, Draining, map[0 := Choosing(7)], {7}, [], [], [], [])
    ensures |t| == 2 && Enabled(s, Exit) && t[0] == Next(s, Exit)
    ensures Enabled(t[0], Enqueue(0)) && t[1] == Next(t[0], Enqueue(0))
    ensures t[1].worker.Exited? && At(t[1], 0) == Returned(7, true) && 7 !in t[1].ran + t[1].cancelled + t[1].refused
  {
    var s5 := Next(s, Exit);
    t := [s5, Next(s5, Enqueue(0))];
  }
}
