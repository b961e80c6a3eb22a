/**
 The thread pool as a protocol: workers that sleep on a condition variable, clients that enqueue and then notify,
 and a destructor that stops, notifies everyone and joins. Each step is one critical section of the mutex, one
 notification, or the end of one task; steps of different threads interleave in any order.
 */
module ThreadPool {

  import Bits

  type Task = int

  /** Runnable: about to take the mutex and test the wait condition. */
  datatype Worker = Runnable | Sleeping | Running(task: Task) | Exited

  datatype Destructor = NotCalled | StopSet | AllNotified | Joined

  datatype State = State(
    tasks: seq<Task>,       // the queue
    stop: bool,
    workers: seq<Worker>,
    notifies: nat,          // tasks enqueued whose notify_one is still to come
    destructor: Destructor,
    submitted: seq<Task>,   // history: every task ever enqueued, in order
    started: seq<Task>,     // history: every task taken from the queue, in order
    finished: seq<Task>     // history: every task that has run to its end
  )

  ghost predicate Init(s: State, threads: nat) {
    s == State([], false, seq(threads, i => Runnable), 0, NotCalled, [], [], [])
  }

  // ---------- the steps ----------

  /** The locked part of Enqueue; on a stopped pool it aborts instead. */
  ghost predicate Enqueue(s: State, s': State, t: Task) {
    !s.stop && s' == s.(tasks := s.tasks + [t], notifies := s.notifies + 1, submitted := s.submitted + [t])
  }

  /** The notification after an Enqueue wakes one sleeper, w, if there is any. */
  ghost predicate NotifyOne(s: State, s': State, w: nat) {
    s.notifies > 0 &&
    if NoneSleeps(s.workers) then s' == s.(notifies := s.notifies - 1)
    else w < |s.workers| && s.workers[w].Sleeping? &&
         s' == s.(notifies := s.notifies - 1, workers := s.workers[w := Runnable])
  }

  /** A sleeper may also wake for no reason. */
  ghost predicate SpuriousWake(s: State, s': State, w: nat) {
    w < |s.workers| && s.workers[w].Sleeping? && s' == s.(workers := s.workers[w := Runnable])
  }

  /** What a worker does with the mutex: it goes to sleep, exits, or takes the front task. */
  ghost function Acquired(s: State, w: nat): State
    requires w < |s.workers|
  {
    if s.tasks == [] then s.(workers := s.workers[w := if s.stop then Exited else Sleeping])
    else
      var t := s.tasks[0];
      s.(tasks := s.tasks[1..], workers := s.workers[w := Running(t)], started := s.started + [t])
  }

  /** A runnable worker holds the mutex. */
  ghost predicate Acquire(s: State, s': State, w: nat) {
    w < |s.workers| && s.workers[w].Runnable? && s' == Acquired(s, w)
  }

  /** The task of a worker ends. */
  ghost predicate Finish(s: State, s': State, w: nat) {
    w < |s.workers| && s.workers[w].Running? &&
    s' == s.(workers := s.workers[w := Runnable], finished := s.finished + [s.workers[w].task])
  }

  ghost predicate SetStop(s: State, s': State) {
    s.destructor.NotCalled? && s' == s.(stop := true, destructor := StopSet)
  }

  function Woken(ws: seq<Worker>): (r: seq<Worker>)
    ensures |r| == |ws|
    ensures forall i :: 0 <= i < |ws| ==> r[i] == if ws[i].Sleeping? then Runnable else ws[i]
  {
    seq(|ws|, i requires 0 <= i < |ws| => if ws[i].Sleeping? then Runnable else ws[i])
  }

  ghost predicate NotifyAll(s: State, s': State) {
    s.destructor.StopSet? && s' == s.(workers := Woken(s.workers), destructor := AllNotified)
  }

  /** The destructor's joins return once every worker has exited. */
  ghost predicate Join(s: State, s': State) {
    s.destructor.AllNotified? && AllExited(s.workers) && s' == s.(destructor := Joined)
  }

  /** The steps the pool takes by itself, without a new call and without a spurious wakeup. */
  ghost predicate InternalBy(s: State, s': State, w: nat) {
    NotifyOne(s, s', w) || Acquire(s, s', w) || Finish(s, s', w)
  }

  ghost predicate Internal(s: State, s': State) {
    exists w :: InternalBy(s, s', w)
  }

  ghost predicate Next(s: State, s': State) {
    || (exists t :: Enqueue(s, s', t))
    || Internal(s, s')
    || (exists w :: SpuriousWake(s, s', w))
    || SetStop(s, s') || NotifyAll(s, s') || Join(s, s')
  }

  /** A run of a pool with the given number of threads, interleaved in any way. */
  ghost predicate IsRun(run: seq<State>, threads: nat) {
    |run| >= 1 && Init(run[0], threads) && forall i :: 0 <= i < |run| - 1 ==> Next(run[i], run[i + 1])
  }

  // ---------- counting workers ----------

  ghost predicate NoneSleeps(ws: seq<Worker>) {
    forall w :: 0 <= w < |ws| ==> !ws[w].Sleeping?
  }

  ghost predicate AllExited(ws: seq<Worker>) {
    forall w :: 0 <= w < |ws| ==> ws[w].Exited?
  }

  function IsRunnable(w: Worker): nat { if w.Runnable? then 1 else 0 }

  /** How many internal steps a worker can still take before it sleeps or exits. */
  function EffortOf(w: Worker): nat { match w case Running(_) => 2 case Runnable => 1 case _ => 0 }

  function TaskOf(w: Worker): multiset<Task> { if w.Running? then multiset{w.task} else multiset{} }

  function RunnableCount(ws: seq<Worker>): nat {
    if ws == [] then 0 else RunnableCount(ws[..|ws| - 1]) + IsRunnable(ws[|ws| - 1])
  }

  function Effort(ws: seq<Worker>): nat {
    if ws == [] then 0 else Effort(ws[..|ws| - 1]) + EffortOf(ws[|ws| - 1])
  }

  function RunningTasks(ws: seq<Worker>): multiset<Task> {
    if ws == [] then multiset{} else RunningTasks(ws[..|ws| - 1]) + TaskOf(ws[|ws| - 1])
  }

  /** Changing one worker changes each count by that worker's share. */
  lemma {:induction false} CountAfterUpdate(ws: seq<Worker>, i: nat, x: Worker)
    requires i < |ws|
    ensures RunnableCount(ws[i := x]) + IsRunnable(ws[i]) == RunnableCount(ws) + IsRunnable(x)
    ensures Effort(ws[i := x]) + EffortOf(ws[i]) == Effort(ws) + EffortOf(x)
    decreases |ws|
  {
    hide IsRunnable, EffortOf;
    var n := |ws| - 1;
    if i == n {
      assert ws[i := x][..n] == ws[..n];
    } else {
      CountAfterUpdate(ws[..n], i, x);
      assert ws[i := x][..n] == ws[..n][i := x];
    }
  }

  lemma {:induction false} TasksAfterUpdate(ws: seq<Worker>, i: nat, x: Worker)
    requires i < |ws|
    ensures RunningTasks(ws[i := x]) + TaskOf(ws[i]) == RunningTasks(ws) + TaskOf(x)
    decreases |ws|
  {
    hide TaskOf;
    var n := |ws| - 1;
    if i == n {
      assert ws[i := x][..n] == ws[..n];
      var a := RunningTasks(ws[..n]);
      assert a + TaskOf(x) + TaskOf(ws[n]) == a + TaskOf(ws[n]) + TaskOf(x);
    } else {
      TasksAfterUpdate(ws[..n], i, x);
      assert ws[i := x][..n] == ws[..n][i := x];
      var a, b, last := RunningTasks(ws[..n][i := x]), RunningTasks(ws[..n]), TaskOf(ws[n]);
      assert a + last + TaskOf(ws[i]) == a + TaskOf(ws[i]) + last;
      assert b + last + TaskOf(x) == b + TaskOf(x) + last;
    }
  }

  lemma {:induction false} SomeRunnable(ws: seq<Worker>)
    ensures RunnableCount(ws) > 0 ==> exists w :: 0 <= w < |ws| && ws[w].Runnable?
  {
    if ws != [] {
      SomeRunnable(ws[..|ws| - 1]);
      if RunnableCount(ws) > 0 && !ws[|ws| - 1].Runnable? {
        var w :| 0 <= w < |ws| - 1 && ws[..|ws| - 1][w].Runnable?;
        assert ws[w].Runnable?;
      }
    }
  }

  lemma {:induction false} WokenTasks(ws: seq<Worker>)
    ensures RunningTasks(Woken(ws)) == RunningTasks(ws)
  {
    if ws != [] {
      WokenTasks(ws[..|ws| - 1]);
      assert Woken(ws)[..|ws| - 1] == Woken(ws[..|ws| - 1]);
    }
  }

  lemma {:induction false} ExitedTasks(ws: seq<Worker>)
    requires AllExited(ws)
    ensures RunningTasks(ws) == multiset{}
  {
    if ws != [] {
      ExitedTasks(ws[..|ws| - 1]);
    }
  }

  // ---------- what every step keeps ----------

  /** No wakeup is lost: if anyone sleeps, every queued task has a notification or a runnable worker coming for it. */
  ghost predicate NoLostWakeup(s: State) {
    NoneSleeps(s.workers) || |s.tasks| <= s.notifies + RunnableCount(s.workers)
  }

  /** Every task enqueued is, exactly once, queued, running or finished; tasks start in the order enqueued. */
  ghost predicate Conserved(s: State) {
    s.submitted == s.started + s.tasks &&
    multiset(s.started) == RunningTasks(s.workers) + multiset(s.finished)
  }

  ghost predicate ShutdownOrder(s: State) {
    && (s.stop <==> !s.destructor.NotCalled?)
    && (s.destructor.AllNotified? || s.destructor.Joined? ==> NoneSleeps(s.workers))
    && (s.destructor.Joined? ==> AllExited(s.workers))
    && ((exists w :: 0 <= w < |s.workers| && s.workers[w].Exited?) ==> s.stop && s.tasks == [])
  }

  ghost predicate Inv(s: State, threads: nat) {
    |s.workers| == threads && NoLostWakeup(s) && Conserved(s) && ShutdownOrder(s) && (threads == 0 ==> s.started == [])
  }

  lemma {:induction false} AllRunnable(threads: nat)
    ensures RunnableCount(seq(threads, i => Runnable)) == threads
    ensures RunningTasks(seq(threads, i => Runnable)) == multiset{}
  {
    var ws := seq(threads, i => Runnable);
    if threads > 0 {
      AllRunnable(threads - 1);
      assert ws[..threads - 1] == seq(threads - 1, i => Runnable);
    }
  }

  lemma InitKeeps(s: State, threads: nat)
    requires Init(s, threads)
    ensures Inv(s, threads)
  {
    AllRunnable(threads);
  }

  lemma EnqueueKeeps(s: State, s': State, t: Task, threads: nat)
    requires Inv(s, threads) && Enqueue(s, s', t)
    ensures Inv(s', threads)
  {
    assert s'.submitted == s'.started + s'.tasks;
  }

  /** Waking one sleeper, for whatever reason. */
  lemma WakeKeeps(s: State, s': State, w: nat, threads: nat)
    requires Inv(s, threads) && w < |s.workers| && s.workers[w].Sleeping?
    requires s'.workers == s.workers[w := Runnable] && s' == s.(workers := s'.workers, notifies := s'.notifies)
    requires s.notifies <= s'.notifies + 1
    ensures Inv(s', threads)
  {
    hide RunnableCount, RunningTasks, Effort;
    CountAfterUpdate(s.workers, w, Runnable);
    TasksAfterUpdate(s.workers, w, Runnable);
    assert RunningTasks(s'.workers) + multiset{} == RunningTasks(s'.workers);
    assert RunningTasks(s.workers) + multiset{} == RunningTasks(s.workers);
  }

  lemma NotifyOneKeeps(s: State, s': State, w: nat, threads: nat)
    requires Inv(s, threads) && NotifyOne(s, s', w)
    ensures Inv(s', threads)
  {
    if !NoneSleeps(s.workers) {
      WakeKeeps(s, s', w, threads);
    }
  }

  lemma TakeKeeps(s: State, s': State, w: nat, threads: nat)
    requires Inv(s, threads) && Acquire(s, s', w) && s.tasks != []
    ensures Inv(s', threads)
  {
    hide RunnableCount, RunningTasks, Effort;
    var t := s.tasks[0];
    CountAfterUpdate(s.workers, w, Running(t));
    TasksAfterUpdate(s.workers, w, Running(t));
    assert s.tasks == [t] + s.tasks[1..];
    assert s'.started + s'.tasks == s.started + s.tasks;
    var running, finished := RunningTasks(s.workers), multiset(s.finished);
    assert RunningTasks(s'.workers) + multiset{} == RunningTasks(s'.workers) == running + multiset{t};
    assert multiset(s'.started) == multiset(s.started) + multiset{t};
    assert running + finished + multiset{t} == running + multiset{t} + finished;
  }

  lemma RestKeeps(s: State, s': State, w: nat, threads: nat)
    requires Inv(s, threads) && Acquire(s, s', w) && s.tasks == []
    ensures Inv(s', threads)
  {
    hide RunnableCount, RunningTasks, Effort;
    CountAfterUpdate(s.workers, w, s'.workers[w]);
    TasksAfterUpdate(s.workers, w, s'.workers[w]);
    assert RunningTasks(s'.workers) + multiset{} == RunningTasks(s'.workers);
    assert RunningTasks(s.workers) + multiset{} == RunningTasks(s.workers);
  }

  lemma AcquireKeeps(s: State, s': State, w: nat, threads: nat)
    requires Inv(s, threads) && Acquire(s, s', w)
    ensures Inv(s', threads)
  {
    hide Inv, Acquire;
    if s.tasks != [] {
      TakeKeeps(s, s', w, threads);
    } else {
      RestKeeps(s, s', w, threads);
    }
  }

  lemma FinishKeeps(s: State, s': State, w: nat, threads: nat)
    requires Inv(s, threads) && Finish(s, s', w)
    ensures Inv(s', threads)
  {
    hide RunnableCount, RunningTasks, Effort;
    CountAfterUpdate(s.workers, w, Runnable);
    TasksAfterUpdate(s.workers, w, Runnable);
    var running, finished, t := RunningTasks(s'.workers), multiset(s.finished), TaskOf(s.workers[w]);
    assert multiset(s'.finished) == finished + t;
    assert RunningTasks(s.workers) + multiset{} == RunningTasks(s.workers) == running + t;
    assert running + t + finished == running + (finished + t);
  }

  lemma NotifyAllKeeps(s: State, s': State, threads: nat)
    requires Inv(s, threads) && NotifyAll(s, s')
    ensures Inv(s', threads)
  {
    hide RunnableCount, RunningTasks;
    WokenTasks(s.workers);
  }

  lemma InternalKeeps(s: State, s': State, w: nat, threads: nat)
    requires Inv(s, threads) && InternalBy(s, s', w)
    ensures Inv(s', threads)
  {
    hide Inv, NotifyOne, Acquire, Finish;
    if NotifyOne(s, s', w) {
      NotifyOneKeeps(s, s', w, threads);
    } else if Acquire(s, s', w) {
      AcquireKeeps(s, s', w, threads);
    } else {
      FinishKeeps(s, s', w, threads);
    }
  }

  lemma NextKeeps(s: State, s': State, threads: nat)
    requires Inv(s, threads) && Next(s, s')
    ensures Inv(s', threads)
  {
    hide RunnableCount, RunningTasks, InternalBy;
    if t :| Enqueue(s, s', t) {
      EnqueueKeeps(s, s', t, threads);
    } else if Internal(s, s') {
      var w :| InternalBy(s, s', w);
      InternalKeeps(s, s', w, threads);
    } else if w :| SpuriousWake(s, s', w) {
      WakeKeeps(s, s', w, threads);
    } else if NotifyAll(s, s') {
      NotifyAllKeeps(s, s', threads);
    }
  }

  /** In every state of every run: no lost wakeup, conservation, FIFO order, orderly shutdown. */
  lemma {:induction false} RunsKeep(run: seq<State>, threads: nat, i: nat)
    requires IsRun(run, threads) && i < |run|
    ensures Inv(run[i], threads)
  {
    if i == 0 {
      InitKeeps(run[0], threads);
    } else {
      RunsKeep(run, threads, i - 1);
      NextKeeps(run[i - 1], run[i], threads);
    }
  }

  // ---------- the pool always gets on ----------

  /** Bounds the internal steps still possible. */
  ghost function Measure(s: State): nat {
    2 * |s.tasks| + 2 * s.notifies + Effort(s.workers)
  }

  lemma InternalDecreases(s: State, s': State, w: nat)
    requires InternalBy(s, s', w)
    ensures Measure(s') < Measure(s)
  {
    hide Effort, RunnableCount;
    if NotifyOne(s, s', w) {
      if !NoneSleeps(s.workers) {
        CountAfterUpdate(s.workers, w, Runnable);
      }
    } else {
      CountAfterUpdate(s.workers, w, s'.workers[w]);
    }
  }

  /** A worker that is not asleep or gone can take a step. */
  lemma AwakeCanStep(s: State, w: nat)
    requires w < |s.workers| && (s.workers[w].Runnable? || s.workers[w].Running?)
    ensures exists s' :: Internal(s, s')
  {
    var s' := if s.workers[w].Runnable? then Acquired(s, w)
              else s.(workers := s.workers[w := Runnable], finished := s.finished + [s.workers[w].task]);
    assert InternalBy(s, s', w);
    assert Internal(s, s');
  }

  lemma PendingCanStep(s: State)
    requires s.notifies > 0
    ensures exists s' :: Internal(s, s')
  {
    if NoneSleeps(s.workers) {
      var s' := s.(notifies := s.notifies - 1);
      assert InternalBy(s, s', 0);
      assert Internal(s, s');
    } else {
      var w :| 0 <= w < |s.workers| && s.workers[w].Sleeping?;
      var s' := s.(notifies := s.notifies - 1, workers := s.workers[w := Runnable]);
      assert InternalBy(s, s', w);
      assert Internal(s, s');
    }
  }

  /** While a task is queued or running, the pool can take a step by itself: nobody sleeps on work forever. */
  lemma WorkIsTaken(s: State, threads: nat)
    requires Inv(s, threads) && threads >= 1
    requires s.tasks != [] || RunningTasks(s.workers) != multiset{}
    ensures exists s' :: Internal(s, s')
  {
    hide Internal, RunnableCount;
    if w :| 0 <= w < |s.workers| && (s.workers[w].Runnable? || s.workers[w].Running?) {
      AwakeCanStep(s, w);
    } else {
      NoneRunning(s.workers);
      assert s.workers[0].Sleeping?;
      SomeRunnable(s.workers);
      assert s.notifies > 0;
      PendingCanStep(s);
    }
  }

  lemma {:induction false} NoneRunning(ws: seq<Worker>)
    requires forall w :: 0 <= w < |ws| ==> !ws[w].Running?
    ensures RunningTasks(ws) == multiset{}
  {
    if ws != [] {
      NoneRunning(ws[..|ws| - 1]);
    }
  }

  /** Internal steps cannot go on forever: from s on there are at most Measure(s) of them in a row. */
  lemma {:induction false} InternalRunsEnd(run: seq<State>)
    requires |run| >= 1 && forall i :: 0 <= i < |run| - 1 ==> Internal(run[i], run[i + 1])
    ensures |run| - 1 <= Measure(run[0])
    decreases |run|
  {
    if |run| > 1 {
      hide Measure;
      assert Internal(run[0], run[1]);
      var w :| InternalBy(run[0], run[1], w);
      InternalDecreases(run[0], run[1], w);
      var rest := run[1..];
      forall i | 0 <= i < |rest| - 1 ensures Internal(rest[i], rest[i + 1]) {
        var j := i + 1;
        assert Internal(run[j], run[j + 1]);
      }
      InternalRunsEnd(rest);
    }
  }

  /** So a pool left alone comes to rest with every task enqueued so far finished. */
  lemma RestMeansDone(s: State, threads: nat)
    requires Inv(s, threads) && threads >= 1 && !exists s' :: Internal(s, s')
    ensures s.started == s.submitted && multiset(s.finished) == multiset(s.submitted)
  {
    hide Internal;
    if s.tasks != [] || RunningTasks(s.workers) != multiset{} {
      WorkIsTaken(s, threads);
    }
    assert s.started + [] == s.started;
    assert multiset{} + multiset(s.finished) == multiset(s.finished);
  }

  // ---------- shutdown ----------

  ghost predicate Closing(s: State) {
    s.destructor.AllNotified? || s.destructor.Joined?
  }

  /** After notify_all nobody can sleep or enqueue again: only internal steps remain, and the join. */
  lemma ShutdownSteps(s: State, s': State, threads: nat)
    requires Inv(s, threads) && Closing(s) && Next(s, s')
    ensures NoneSleeps(s'.workers)
    ensures Join(s, s') || (Internal(s, s') && s'.destructor == s.destructor && Measure(s') < Measure(s))
  {
    hide Measure, RunnableCount, RunningTasks;
    NextKeeps(s, s', threads);
    if Internal(s, s') {
      var w :| InternalBy(s, s', w);
      InternalDecreases(s, s', w);
    } else {
      hide Internal, InternalBy;
    }
  }

  /** And some step remains until the join is done. */
  lemma ShutdownGoesOn(s: State, threads: nat)
    requires Inv(s, threads) && s.destructor.AllNotified?
    ensures exists s' :: Next(s, s')
  {
    if AllExited(s.workers) {
      var s' := s.(destructor := Joined);
      assert Join(s, s');
      assert Next(s, s');
    } else {
      var w :| 0 <= w < |s.workers| && !s.workers[w].Exited?;
      hide Internal;
      AwakeCanStep(s, w);
      var s' :| Internal(s, s');
      assert Next(s, s');
    }
  }

  /** The internal steps still possible after notify_all, and the join. */
  ghost function Remaining(s: State): nat {
    Measure(s) + if s.destructor.AllNotified? then 1 else 0
  }

  /** From notify_all on, whatever the interleaving, a run has at most Remaining more steps. */
  lemma {:induction false} ShutdownEnds(run: seq<State>, threads: nat, i: nat)
    requires IsRun(run, threads) && i < |run| && Closing(run[i])
    ensures |run| - 1 - i <= Remaining(run[i])
    decreases |run| - i
  {
    hide Effort, Internal;
    if i + 1 < |run| {
      RunsKeep(run, threads, i);
      ShutdownSteps(run[i], run[i + 1], threads);
      ShutdownEnds(run, threads, i + 1);
    }
  }

  ghost predicate AllDone(s: State) {
    multiset(s.finished) == multiset(s.submitted) && s.started == s.submitted
  }

  lemma DoneIfJoined(s: State, threads: nat)
    requires Inv(s, threads) && s.destructor.Joined?
    ensures AllDone(s) <==> (threads >= 1 || s.submitted == [])
    ensures multiset(s.finished) == multiset(s.submitted) <==> (threads >= 1 || s.submitted == [])
  {
    ExitedTasks(s.workers);
    if threads >= 1 {
      assert s.workers[0].Exited?;
      assert s.started + [] == s.started;
    } else if s.submitted != [] {
      assert s.submitted[0] in multiset(s.submitted);
    }
    assert multiset{} + multiset(s.finished) == multiset(s.finished);
  }

  /**
   When the destructor has joined, every task ever enqueued has run exactly once, started in the order enqueued,
   if and only if there was a worker at all or nothing to run.
   */
  lemma JoinedMeansDone(run: seq<State>, threads: nat, i: nat)
    requires IsRun(run, threads) && i < |run| && run[i].destructor.Joined?
    ensures AllDone(run[i]) <==> (threads >= 1 || run[i].submitted == [])
    ensures threads >= 1 ==>
              multiset(run[i].finished) == multiset(run[i].submitted) && run[i].started == run[i].submitted
  {
    hide Inv;
    RunsKeep(run, threads, i);
    DoneIfJoined(run[i], threads);
  }

  /** A pool of no threads can be destroyed with its task never run. */
  lemma NoThreadsDropTasks(t: Task) returns (run: seq<State>)
    ensures IsRun(run, 0) && run[|run| - 1].destructor.Joined?
    ensures run[|run| - 1].submitted == [t] && run[|run| - 1].finished == []
  {
    var s0 := State([], false, [], 0, NotCalled, [], [], []);
    var s1 := s0.(tasks := [t], notifies := 1, submitted := [t]);
    var s2 := s1.(stop := true, destructor := StopSet);
    var s3 := s2.(destructor := AllNotified);
    var s4 := s3.(destructor := Joined);
    assert s0.tasks + [t] == [t] && s0.submitted + [t] == [t];
    assert Enqueue(s0, s1, t) && Next(s0, s1);
    assert SetStop(s1, s2) && Next(s1, s2);
    assert Woken(s2.workers) == [] && NotifyAll(s2, s3) && Next(s2, s3);
    assert Join(s3, s4) && Next(s3, s4);
    run := [s0, s1, s2, s3, s4];
  }

  // ---------- one worker against the single-threaded stub ----------

  /** The stub runs each task inside Enqueue, so its tasks finish in the order submitted; so do those of one worker. */
  ghost predicate InOrder(s: State) {
    |s.workers| == 1 && s.started == s.finished + if s.workers[0].Running? then [s.workers[0].task] else []
  }

  lemma NextKeepsOrder(s: State, s': State)
    requires InOrder(s) && Next(s, s')
    ensures InOrder(s')
  {
    hide NoneSleeps, AllExited;
    if Internal(s, s') {
      var w :| InternalBy(s, s', w);
      assert s.finished + [] == s.finished && s'.finished + [] == s'.finished;
    }
  }

  /** With one worker the finished tasks are always a prefix of the submitted ones, and after the join all of them. */
  lemma {:induction false} OneWorkerIsSequential(run: seq<State>, i: nat)
    requires IsRun(run, 1) && i < |run|
    ensures InOrder(run[i])
    ensures run[i].finished <= run[i].submitted
    ensures run[i].destructor.Joined? ==> run[i].finished == run[i].submitted
  {
    hide Next, NoLostWakeup, RunningTasks;
    if i > 0 {
      OneWorkerIsSequential(run, i - 1);
      NextKeepsOrder(run[i - 1], run[i]);
    }
    RunsKeep(run, 1, i);
    var s := run[i];
    if s.destructor.Joined? {
      assert s.workers[0].Exited?;
      assert s.started + [] == s.started && s.finished + [] == s.finished;
    }
  }

  // ---------- the pool object ----------

  /**
   The object itself: the queue and the stop flag are its fields, each method is one critical section, notification
   or task end of the source. The ghost fields complete the state of the protocol; every method takes one step of it
   and keeps its invariant.
   */
  class Pool {
    var tasks: seq<Task>
    var stop: bool
    ghost const threads: nat
    ghost var workers: seq<Worker>
    ghost var notifies: nat
    ghost var destructor: Destructor
    ghost var submitted: seq<Task>
    ghost var started: seq<Task>
    ghost var finished: seq<Task>

    ghost function Now(): State
      reads this
    {
      State(tasks, stop, workers, notifies, destructor, submitted, started, finished)
    }

    ghost predicate Valid()
      reads this
    {
      Inv(Now(), threads)
    }

    constructor (threads: nat)
      ensures Valid() && this.threads == threads && Init(Now(), threads)
    {
      this.threads := threads;
      tasks, stop := [], false;
      workers, notifies, destructor := seq(threads, i => Runnable), 0, NotCalled;
      submitted, started, finished := [], [], [];
      new;
      InitKeeps(Now(), threads);
    }

    /** False stands for the abort on a stopped pool. */
    method PutTask(t: Task) returns (accepted: bool)
      requires Valid()
      modifies this
      ensures Valid() && accepted == !old(stop)
      ensures if accepted then Enqueue(old(Now()), Now(), t) else Now() == old(Now())
    {
      if stop {
        return false;
      }
      hide Inv;
      ghost var before := Now();
      tasks := tasks + [t];
      notifies, submitted := notifies + 1, submitted + [t];
      EnqueueKeeps(before, Now(), t, threads);
      return true;
    }

    ghost method Notify(w: nat)
      requires Valid() && notifies > 0
      requires NoneSleeps(workers) || (w < |workers| && workers[w].Sleeping?)
      modifies this
      ensures Valid() && NotifyOne(old(Now()), Now(), w)
    {
      hide Inv;
      ghost var before := Now();
      if !NoneSleeps(workers) {
        workers := workers[w := Runnable];
      }
      notifies := notifies - 1;
      NotifyOneKeeps(before, Now(), w, threads);
    }

    /** Worker w with the mutex: None and asleep, None and gone, or the front task. */
    method TakeTask(ghost w: nat) returns (task: Bits.Option<Task>, gone: bool)
      requires Valid() && w < |workers| && workers[w].Runnable?
      modifies this
      ensures Valid() && Acquire(old(Now()), Now(), w)
      ensures workers[w] == if task.Some? then Running(task.value) else if gone then Exited else Sleeping
    {
      hide Inv;
      ghost var before := Now();
      task, gone := Bits.None, false;
      if !stop && tasks == [] {
        workers := workers[w := Sleeping];
      } else if stop && tasks == [] {
        workers := workers[w := Exited];
        gone := true;
      } else {
        task := Bits.Some(tasks[0]);
        workers, started := workers[w := Running(tasks[0])], started + [tasks[0]];
        tasks := tasks[1..];
      }
      AcquireKeeps(before, Now(), w, threads);
    }

    ghost method EndTask(w: nat)
      requires Valid() && w < |workers| && workers[w].Running?
      modifies this
      ensures Valid() && Finish(old(Now()), Now(), w)
    {
      hide Inv;
      ghost var before := Now();
      workers, finished := workers[w := Runnable], finished + [workers[w].task];
      FinishKeeps(before, Now(), w, threads);
    }

    method SetStopFlag()
      requires Valid() && destructor.NotCalled?
      modifies this
      ensures Valid() && SetStop(old(Now()), Now())
    {
      ghost var before := Now();
      stop := true;
      destructor := StopSet;
      assert Next(before, Now());
      NextKeeps(before, Now(), threads);
    }

    ghost method WakeAll()
      requires Valid() && destructor.StopSet?
      modifies this
      ensures Valid() && NotifyAll(old(Now()), Now())
    {
      hide Inv;
      ghost var before := Now();
      workers, destructor := Woken(workers), AllNotified;
      NotifyAllKeeps(before, Now(), threads);
    }

    /** The destructor's last act: once every worker has exited, all tasks enqueued have run exactly once. */
    ghost method JoinAll()
      requires Valid() && destructor.AllNotified? && AllExited(workers)
      modifies this
      ensures Valid() && Join(old(Now()), Now())
      ensures multiset(finished) == multiset(submitted) <==> (threads >= 1 || submitted == [])
    {
      ghost var before := Now();
      destructor := Joined;
      assert Next(before, Now());
      NextKeeps(before, Now(), threads);
      DoneIfJoined(Now(), threads);
    }
  }
}
