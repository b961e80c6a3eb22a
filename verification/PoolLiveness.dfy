/**
 The thread pool on infinite runs: while clients go on enqueueing, sleepers go on waking for no reason and perhaps
 the destructor begins, every task enqueued is finished in the end, provided no thread is held up forever.
 */
module PoolLiveness {

  import opened ThreadPool

  // ---------- infinite runs ----------

  /** A step of the pool, or a moment in which nothing happens. */
  ghost predicate Moves(run: nat -> State, i: nat) {
    Next(run(i), run(i + 1)) || run(i + 1) == run(i)
  }

  ghost predicate IsInfiniteRun(run: nat -> State, threads: nat) {
    Init(run(0), threads) && forall i: nat :: Moves(run, i)
  }

  ghost predicate RunnableAt(run: nat -> State, i: nat, w: nat) {
    w < |run(i).workers| && run(i).workers[w].Runnable?
  }

  ghost predicate RunningAt(run: nat -> State, i: nat, w: nat) {
    w < |run(i).workers| && run(i).workers[w].Running?
  }

  ghost predicate AcquiresAt(run: nat -> State, i: nat, w: nat) {
    Acquire(run(i), run(i + 1), w)
  }

  ghost predicate FinishesAt(run: nat -> State, i: nat, w: nat) {
    Finish(run(i), run(i + 1), w)
  }

  ghost predicate NotifiesAt(run: nat -> State, i: nat, w: nat) {
    NotifyOne(run(i), run(i + 1), w)
  }

  /** Nobody waits for the mutex forever, no task runs forever, no notification is put off forever. */
  ghost predicate IsFair(run: nat -> State) {
    && (forall i: nat, w: nat :: RunnableAt(run, i, w) ==> exists j: nat :: i <= j && AcquiresAt(run, j, w))
    && (forall i: nat, w: nat :: RunningAt(run, i, w) ==> exists j: nat :: i <= j && FinishesAt(run, j, w))
    && (forall i: nat :: run(i).notifies > 0 ==> exists j: nat, w: nat :: i <= j && NotifiesAt(run, j, w))
  }

  lemma WillAcquire(run: nat -> State, i: nat, w: nat) returns (j: nat)
    requires IsFair(run) && RunnableAt(run, i, w)
    ensures i <= j && AcquiresAt(run, j, w)
  {
    hide RunnableAt, AcquiresAt, RunningAt, FinishesAt, NotifiesAt;
    j :| i <= j && AcquiresAt(run, j, w);
  }

  lemma WillFinish(run: nat -> State, i: nat, w: nat) returns (j: nat)
    requires IsFair(run) && RunningAt(run, i, w)
    ensures i <= j && FinishesAt(run, j, w)
  {
    hide RunnableAt, AcquiresAt, RunningAt, FinishesAt, NotifiesAt;
    j :| i <= j && FinishesAt(run, j, w);
  }

  lemma WillNotify(run: nat -> State, i: nat) returns (j: nat, w: nat)
    requires IsFair(run) && run(i).notifies > 0
    ensures i <= j && NotifiesAt(run, j, w)
  {
    hide RunnableAt, AcquiresAt, RunningAt, FinishesAt, NotifiesAt;
    j, w :| i <= j && NotifiesAt(run, j, w);
  }

  lemma {:induction false} AlwaysInv(run: nat -> State, threads: nat, i: nat)
    requires IsInfiniteRun(run, threads)
    ensures Inv(run(i), threads)
  {
    hide Inv, Init, Next;
    if i == 0 {
      InitKeeps(run(0), threads);
    } else {
      AlwaysInv(run, threads, i - 1);
      assert Moves(run, i - 1);
      if run(i) != run(i - 1) {
        NextKeeps(run(i - 1), run(i), threads);
      }
    }
  }

  // ---------- history only grows ----------

  ghost predicate Extends(s: State, s': State) {
    s.submitted <= s'.submitted && s.started <= s'.started && s.finished <= s'.finished
  }

  lemma NextExtends(s: State, s': State)
    requires Next(s, s')
    ensures Extends(s, s')
  {
    hide NoneSleeps, AllExited;
  }

  lemma {:induction false} HistoryGrows(run: nat -> State, threads: nat, i: nat, j: nat)
    requires IsInfiniteRun(run, threads) && i <= j
    ensures Extends(run(i), run(j))
    decreases j
  {
    hide Init, Next;
    if i < j {
      HistoryGrows(run, threads, i, j - 1);
      assert Moves(run, j - 1);
      if run(j) != run(j - 1) {
        NextExtends(run(j - 1), run(j));
      }
    }
  }

  // ---------- every task starts ----------

  /** A task that was queued at i and has not been started by j is still queued. */
  lemma StillQueued(run: nat -> State, threads: nat, i: nat, j: nat)
    requires IsInfiniteRun(run, threads) && i <= j && run(i).tasks != []
    requires |run(j).started| <= |run(i).started|
    ensures run(j).tasks != []
  {
    AlwaysInv(run, threads, i);
    AlwaysInv(run, threads, j);
    HistoryGrows(run, threads, i, j);
    hide Inv, IsInfiniteRun;
    Lengths(run(i), threads);
    Lengths(run(j), threads);
  }

  lemma Lengths(s: State, threads: nat)
    requires Inv(s, threads)
    ensures |s.submitted| == |s.started| + |s.tasks|
  {
  }

  /** A worker about to take the mutex takes a task, if another has not done so before. */
  lemma RunnableStarts(run: nat -> State, threads: nat, i: nat, w: nat) returns (j: nat)
    requires IsInfiniteRun(run, threads) && IsFair(run) && run(i).tasks != [] && RunnableAt(run, i, w)
    ensures i < j && |run(j).started| > |run(i).started|
  {
    hide IsInfiniteRun, IsFair;
    var k := WillAcquire(run, i, w);
    HistoryGrows(run, threads, i, k);
    HistoryGrows(run, threads, k, k + 1);
    if |run(k).started| <= |run(i).started| {
      StillQueued(run, threads, i, k);
    }
    j := k + 1;
  }

  lemma RunningStarts(run: nat -> State, threads: nat, i: nat, w: nat) returns (j: nat)
    requires IsInfiniteRun(run, threads) && IsFair(run) && run(i).tasks != [] && RunningAt(run, i, w)
    ensures i < j && |run(j).started| > |run(i).started|
  {
    hide IsInfiniteRun, IsFair;
    var k := WillFinish(run, i, w);
    HistoryGrows(run, threads, i, k + 1);
    j := k + 1;
    if |run(j).started| <= |run(i).started| {
      StillQueued(run, threads, i, j);
      assert RunnableAt(run, j, w);
      j := RunnableStarts(run, threads, j, w);
    }
  }

  /** If everybody sleeps, a notification is on its way: no wakeup is lost. */
  lemma SleepersAreNotified(s: State, threads: nat)
    requires Inv(s, threads) && threads >= 1 && s.tasks != []
    requires forall w :: 0 <= w < threads ==> !s.workers[w].Runnable? && !s.workers[w].Running?
    ensures s.notifies > 0
  {
    hide RunnableCount, RunningTasks;
    assert s.workers[0].Sleeping?;
    SomeRunnable(s.workers);
  }

  lemma AwakeStarts(run: nat -> State, threads: nat, i: nat, w: nat) returns (j: nat)
    requires IsInfiniteRun(run, threads) && IsFair(run) && run(i).tasks != []
    requires RunnableAt(run, i, w) || RunningAt(run, i, w)
    ensures i < j && |run(j).started| > |run(i).started|
  {
    hide IsInfiniteRun, IsFair;
    if RunnableAt(run, i, w) {
      j := RunnableStarts(run, threads, i, w);
    } else {
      j := RunningStarts(run, threads, i, w);
    }
  }

  /** After the notification at k somebody is awake, unless the queue has been emptied. */
  lemma NotifiedIsAwake(s: State, s': State, threads: nat, w: nat) returns (v: nat)
    requires Inv(s, threads) && threads >= 1 && NotifyOne(s, s', w) && s'.tasks != []
    ensures v < |s'.workers| && (s'.workers[v].Runnable? || s'.workers[v].Running?)
  {
    hide RunnableCount, RunningTasks;
    v := if NoneSleeps(s.workers) then 0 else w;
  }

  lemma NotifiedStarts(run: nat -> State, threads: nat, i: nat) returns (j: nat)
    requires IsInfiniteRun(run, threads) && IsFair(run) && threads >= 1
    requires run(i).tasks != [] && run(i).notifies > 0
    ensures i < j && |run(j).started| > |run(i).started|
  {
    hide IsInfiniteRun, IsFair, Inv, NotifyOne;
    var k, w := WillNotify(run, i);
    j := k + 1;
    HistoryGrows(run, threads, i, j);
    if |run(j).started| <= |run(i).started| {
      StillQueued(run, threads, i, j);
      AlwaysInv(run, threads, k);
      var v := NotifiedIsAwake(run(k), run(j), threads, w);
      j := AwakeStarts(run, threads, j, v);
    }
  }

  /** While a task is queued, some task will be started. */
  lemma QueueMoves(run: nat -> State, threads: nat, i: nat) returns (j: nat)
    requires IsInfiniteRun(run, threads) && IsFair(run) && threads >= 1 && run(i).tasks != []
    ensures i < j && |run(j).started| > |run(i).started|
  {
    hide IsInfiniteRun, IsFair;
    AlwaysInv(run, threads, i);
    if w: nat :| w < threads && (run(i).workers[w].Runnable? || run(i).workers[w].Running?) {
      j := AwakeStarts(run, threads, i, w);
    } else {
      SleepersAreNotified(run(i), threads);
      j := NotifiedStarts(run, threads, i);
    }
  }

  lemma EveryTaskStarts(run: nat -> State, threads: nat, i: nat) returns (j: nat)
    requires IsInfiniteRun(run, threads) && IsFair(run) && threads >= 1
    ensures i <= j && run(i).submitted <= run(j).started
  {
    hide IsFair;
    j := i;
    AlwaysInv(run, threads, j);
    while |run(j).started| < |run(i).submitted|
      invariant i <= j && Inv(run(j), threads)
      decreases |run(i).submitted| - |run(j).started|
    {
      HistoryGrows(run, threads, i, j);
      j := QueueMoves(run, threads, j);
      AlwaysInv(run, threads, j);
    }
    HistoryGrows(run, threads, i, j);
  }

  // ---------- and every task started finishes ----------

  ghost function Done(s: State, t: Task): nat {
    multiset(s.finished)[t]
  }

  lemma DoneGrows(s: State, s': State, t: Task)
    requires Extends(s, s')
    ensures Done(s, t) <= Done(s', t)
  {
    assert s'.finished == s.finished + s'.finished[|s.finished|..];
  }

  lemma InternalRuns(s: State, s': State, v: nat, w: nat, t: Task)
    requires InternalBy(s, s', v) && w < |s.workers| && s.workers[w] == Running(t)
    ensures |s'.workers| == |s.workers|
    ensures s'.workers[w] == Running(t) || Done(s', t) > Done(s, t)
  {
    hide NoneSleeps;
  }

  lemma NextRuns(s: State, s': State, w: nat, t: Task)
    requires Next(s, s') && w < |s.workers| && s.workers[w] == Running(t)
    ensures |s'.workers| == |s.workers|
    ensures s'.workers[w] == Running(t) || Done(s', t) > Done(s, t)
  {
    hide NoneSleeps, AllExited, InternalBy, Done;
    if Internal(s, s') {
      var v :| InternalBy(s, s', v);
      InternalRuns(s, s', v, w, t);
    }
  }

  /** A worker runs its task until the task has ended. */
  lemma {:induction false} RunsOn(run: nat -> State, threads: nat, i: nat, j: nat, w: nat, t: Task)
    requires IsInfiniteRun(run, threads) && i <= j && w < |run(i).workers| && run(i).workers[w] == Running(t)
    ensures (w < |run(j).workers| && run(j).workers[w] == Running(t)) || Done(run(j), t) > Done(run(i), t)
    decreases j
  {
    hide Init, Next, Done;
    if i < j {
      RunsOn(run, threads, i, j - 1, w, t);
      assert Moves(run, j - 1);
      if run(j) != run(j - 1) {
        NextExtends(run(j - 1), run(j));
        DoneGrows(run(j - 1), run(j), t);
        HistoryGrows(run, threads, i, j - 1);
        DoneGrows(run(i), run(j - 1), t);
        if Done(run(j - 1), t) <= Done(run(i), t) {
          NextRuns(run(j - 1), run(j), w, t);
        }
      }
    }
  }

  lemma RunningEnds(run: nat -> State, threads: nat, i: nat, w: nat, t: Task) returns (j: nat)
    requires IsInfiniteRun(run, threads) && IsFair(run) && RunningAt(run, i, w) && run(i).workers[w].task == t
    ensures i <= j && Done(run(j), t) > Done(run(i), t)
  {
    hide IsInfiniteRun, IsFair;
    var k := WillFinish(run, i, w);
    RunsOn(run, threads, i, k, w, t);
    HistoryGrows(run, threads, i, k);
    HistoryGrows(run, threads, k, k + 1);
    DoneGrows(run(i), run(k), t);
    DoneGrows(run(k), run(k + 1), t);
    j := k + 1;
  }

  lemma {:induction false} SomeRuns(ws: seq<Worker>, t: Task) returns (w: nat)
    requires t in RunningTasks(ws)
    ensures w < |ws| && ws[w] == Running(t)
  {
    var n := |ws| - 1;
    if ws[n] == Running(t) {
      w := n;
    } else {
      w := SomeRuns(ws[..n], t);
    }
  }

  /** The tasks among these that have not finished. */
  ghost function Owed(due: multiset<Task>, s: State): multiset<Task> {
    due - multiset(s.finished)
  }

  lemma OwedRuns(s: State, threads: nat, due: multiset<Task>, t: Task)
    requires Inv(s, threads) && due <= multiset(s.started) && t in Owed(due, s)
    ensures t in RunningTasks(s.workers)
  {
    hide NoLostWakeup, ShutdownOrder, RunningTasks;
    assert due[t] > multiset(s.finished)[t];
  }

  lemma OwedShrinks(due: multiset<Task>, s: State, s': State, t: Task)
    requires Extends(s, s') && Done(s', t) > Done(s, t) && t in Owed(due, s)
    ensures Owed(due, s') < Owed(due, s)
  {
    assert s'.finished == s.finished + s'.finished[|s.finished|..];
    var a, b := multiset(s.finished), multiset(s'.finished);
    assert a <= b;
    assert (due - b)[t] < (due - a)[t];
  }

  lemma PrefixIsSub(a: seq<Task>, b: seq<Task>)
    requires a <= b
    ensures multiset(a) <= multiset(b)
  {
    assert b == a + b[|a|..];
  }

  lemma StartedFinishes(run: nat -> State, threads: nat, i: nat) returns (j: nat)
    requires IsInfiniteRun(run, threads) && IsFair(run)
    ensures i <= j && multiset(run(i).started) <= multiset(run(j).finished)
  {
    hide IsInfiniteRun, IsFair, Inv, Done, Owed, Extends;
    var due := multiset(run(i).started);
    j := i;
    while exists t :: t in Owed(due, run(j))
      invariant i <= j
      decreases Owed(due, run(j))
    {
      var t :| t in Owed(due, run(j));
      j := OneMore(run, threads, i, j, t);
    }
    NothingOwed(due, run(j));
  }

  lemma NothingOwed(due: multiset<Task>, s: State)
    requires forall t :: t !in Owed(due, s)
    ensures due <= multiset(s.finished)
  {
    forall t ensures due[t] <= multiset(s.finished)[t] {
      assert t !in Owed(due, s);
    }
  }

  /** Of the tasks started by i, one that has not finished by j will. */
  lemma OneMore(run: nat -> State, threads: nat, i: nat, j: nat, t: Task) returns (k: nat)
    requires IsInfiniteRun(run, threads) && IsFair(run) && i <= j && t in Owed(multiset(run(i).started), run(j))
    ensures j <= k && Owed(multiset(run(i).started), run(k)) < Owed(multiset(run(i).started), run(j))
  {
    var due := multiset(run(i).started);
    HistoryGrows(run, threads, i, j);
    PrefixIsSub(run(i).started, run(j).started);
    AlwaysInv(run, threads, j);
    hide IsInfiniteRun, IsFair, Inv, Done, Owed, Extends, RunningTasks;
    OwedRuns(run(j), threads, due, t);
    var w := SomeRuns(run(j).workers, t);
    k := RunningEnds(run, threads, j, w, t);
    HistoryGrows(run, threads, j, k);
    OwedShrinks(due, run(j), run(k), t);
  }

  // ---------- so every task enqueued is finished in the end ----------

  ghost predicate DoneBy(run: nat -> State, i: nat, j: nat) {
    i <= j && multiset(run(i).submitted) <= multiset(run(j).finished)
  }

  lemma EveryTaskFinishes(run: nat -> State, threads: nat, i: nat) returns (j: nat)
    requires IsInfiniteRun(run, threads) && IsFair(run) && threads >= 1
    ensures DoneBy(run, i, j)
  {
    hide IsInfiniteRun, IsFair;
    var k := EveryTaskStarts(run, threads, i);
    PrefixIsSub(run(i).submitted, run(k).started);
    j := StartedFinishes(run, threads, k);
  }

  /**
   On a fair run the tasks enqueued by any time are all finished at some later time, if and only if there is a worker
   or no task.
   */
  lemma FinishesIff(run: nat -> State, threads: nat, i: nat)
    requires IsInfiniteRun(run, threads) && IsFair(run)
    ensures (exists j: nat :: DoneBy(run, i, j)) <==> (threads >= 1 || run(i).submitted == [])
  {
    hide IsFair;
    if threads >= 1 {
      var j := EveryTaskFinishes(run, threads, i);
      assert DoneBy(run, i, j);
    } else {
      if run(i).submitted == [] {
        assert DoneBy(run, i, i);
      }
      forall j: nat | DoneBy(run, i, j) ensures run(i).submitted == [] {
        AlwaysInv(run, threads, j);
        hide IsInfiniteRun, NoLostWakeup;
        NothingFinished(run(i).submitted, run(j));
      }
    }
  }

  lemma NothingIn(a: multiset<Task>, b: multiset<Task>)
    requires multiset{} == a + b
    ensures b == multiset{}
  {
    forall t ensures t !in b {
      assert (a + b)[t] == a[t] + b[t];
    }
  }

  lemma NothingFinished(submitted: seq<Task>, s: State)
    requires Inv(s, 0) && multiset(submitted) <= multiset(s.finished)
    ensures submitted == []
  {
    assert s.started == [];
    NothingIn(RunningTasks(s.workers), multiset(s.finished));
    assert |multiset(submitted)| == |submitted|;
  }

  // ---------- fair runs exist ----------

  /** One worker goes to sleep, is notified of a task, runs it and sleeps again. */
  function Story(t: Task): (states: seq<State>)
    ensures |states| == 7
  {
    [
      State([], false, [Runnable], 0, NotCalled, [], [], []),
      State([], false, [Sleeping], 0, NotCalled, [], [], []),
      State([t], false, [Sleeping], 1, NotCalled, [t], [], []),
      State([t], false, [Runnable], 0, NotCalled, [t], [], []),
      State([], false, [Running(t)], 0, NotCalled, [t], [t], []),
      State([], false, [Runnable], 0, NotCalled, [t], [t], [t]),
      State([], false, [Sleeping], 0, NotCalled, [t], [t], [t])
    ]
  }

  ghost function StoryRun(t: Task): nat -> State {
    (i: nat) => if i < 6 then Story(t)[i] else Story(t)[6]
  }

  lemma StoryMoves(t: Task)
    ensures var s := Story(t);
            && Acquire(s[0], s[1], 0) && Enqueue(s[1], s[2], t) && NotifyOne(s[2], s[3], 0)
            && Acquire(s[3], s[4], 0) && Finish(s[4], s[5], 0) && Acquire(s[5], s[6], 0)
  {
    var s := Story(t);
    assert s[1].tasks + [t] == [t] && s[1].submitted + [t] == [t];
    assert s[2].workers[0].Sleeping? && !NoneSleeps(s[2].workers);
    assert s[3].tasks[1..] == [] && s[3].started + [t] == [t];
    assert s[4].finished + [t] == [t];
  }

  lemma InternalIsNext(s: State, s': State, w: nat)
    requires InternalBy(s, s', w)
    ensures Next(s, s')
  {
    assert Internal(s, s');
  }

  lemma StoryStarts(t: Task)
    ensures Init(StoryRun(t)(0), 1)
  {
    var s, workers := StoryRun(t)(0), seq(1, i => Runnable);
    assert s == Story(t)[0] && s.workers == workers;
  }

  lemma StoryIsRun(t: Task)
    ensures IsInfiniteRun(StoryRun(t), 1)
  {
    var run := StoryRun(t);
    StoryStarts(t);
    forall i: nat ensures Moves(run, i) {
      hide Story, Next, Acquire, Enqueue, NotifyOne, Finish;
      StoryMoves(t);
      if i == 1 {
        EnqueueIsNext(run(1), run(2), t);
      } else if i < 6 {
        InternalIsNext(run(i), run(i + 1), 0);
      }
    }
  }

  lemma EnqueueIsNext(s: State, s': State, t: Task)
    requires Enqueue(s, s', t)
    ensures Next(s, s')
  {
  }

  lemma StoryIsFair(t: Task)
    ensures IsFair(StoryRun(t))
  {
    var run := StoryRun(t);
    StoryMoves(t);
    assert AcquiresAt(run, 0, 0) && AcquiresAt(run, 3, 0) && AcquiresAt(run, 5, 0) && FinishesAt(run, 4, 0)
           && NotifiesAt(run, 2, 0);
    hide AcquiresAt, FinishesAt, NotifiesAt;
  }

  lemma FairRunExists(t: Task)
    ensures IsInfiniteRun(StoryRun(t), 1) && IsFair(StoryRun(t)) && StoryRun(t)(6).finished == [t]
  {
    StoryIsRun(t);
    StoryIsFair(t);
    assert Story(t)[6].finished == [t];
  }
}
