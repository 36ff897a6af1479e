/** ks_thread_pool.c: the counters of the pool, one critical section at a time, with any number of workers and of calls to
    check_queue under way. */
module KsThreadPool {
  import opened Octets

  /** A worker: created, in its loop, in a job, about to end because it was idle, about to end otherwise, ended. */
  datatype Worker = Created | Looping | Working | Dying | Leaving | Gone

  /** A call to check_queue that has taken need threads into thread_count. It loops over state_mutex: Up and Down say what
      it saw of the state when it got the mutex, Failed that a thread could not be made. */
  datatype Spawner = Spawn(need: nat) | Up(need: nat) | Failed(need: nat) | Down(need: nat) | Done

  datatype Pool = Pool(min: nat, max: nat, threadCount: int, busyCount: int, runningCount: int, dyingCount: int, running: bool,
    stateMutex: Option<nat>, workers: seq<Worker>, spawners: seq<Spawner>)

  datatype Event =
    | CheckQueue(adding: bool, queued: nat)
    | LockState(c: nat)
    | Create(c: nat)
    | FailCreate(c: nat)
    | CountFailure(c: nat)
    | GiveUp(c: nat)
    | Start(w: nat)
    | TakeJob(w: nat)
    | EndJob(w: nat)
    | IdleTooLong(w: nat)
    | LeaveLoop(w: nat)
    | EndWorker(w: nat)
    | Shutdown

  function Initial(min: nat, max: nat): Pool {
    Pool(min, max, 0, 0, 0, 0, true, None, [], [])
  }

  predicate WorkerIs(p: Pool, w: nat, s: Worker) {
    w < |p.workers| && p.workers[w] == s
  }

  predicate Holds(p: Pool, c: nat) {
    c < |p.spawners| && p.stateMutex == Some(c)
  }

  predicate Enabled(p: Pool, e: Event) {
    match e
    case CheckQueue(_, _) => true
    case LockState(c) => c < |p.spawners| && p.spawners[c].Spawn? && p.stateMutex == None
    case Create(c) => Holds(p, c) && p.spawners[c].Up?
    case FailCreate(c) => Holds(p, c) && p.spawners[c].Up?
    case CountFailure(c) => Holds(p, c) && p.spawners[c].Failed?
    case GiveUp(c) => Holds(p, c) && p.spawners[c].Down?
    case Start(w) => WorkerIs(p, w, Created)
    case TakeJob(w) => WorkerIs(p, w, Looping)
    case EndJob(w) => WorkerIs(p, w, Working)
    case IdleTooLong(w) => WorkerIs(p, w, Looping)
    case LeaveLoop(w) => WorkerIs(p, w, Looping)
    case EndWorker(w) => WorkerIs(p, w, Dying) || WorkerIs(p, w, Leaving)
    case Shutdown => p.stateMutex == None
  }

  /** How many threads check_queue asks for. */
  function Needed(p: Pool, adding: bool, queued: nat): nat {
    if p.threadCount < p.min then p.min - p.threadCount
    else if adding && p.busyCount + queued >= p.runningCount - p.dyingCount && p.threadCount - p.dyingCount + 1 <= p.max then 1
    else 0
  }

  function Fewer(need: nat): Spawner {
    if need <= 1 then Done else Spawn(need - 1)
  }

  /** The test that lets an idle worker die. */
  predicate MayDie(p: Pool) {
    p.runningCount - p.dyingCount - p.busyCount > 0 && p.runningCount > p.min
  }

  function Step(p: Pool, e: Event): Pool
    requires Enabled(p, e)
  {
    match e
    case CheckQueue(adding, queued) =>
      if !p.running then p
      else
        var need := Needed(p, adding, queued);
        p.(threadCount := p.threadCount + need, spawners := p.spawners + [if need == 0 then Done else Spawn(need)])
    case LockState(c) =>
      var need := p.spawners[c].need;
      p.(stateMutex := Some(c), spawners := p.spawners[c := if p.running then Up(need) else Down(need)])
    case Create(c) =>
      p.(stateMutex := None, spawners := p.spawners[c := Fewer(p.spawners[c].need)], workers := p.workers + [Created])
    case FailCreate(c) => p.(spawners := p.spawners[c := Failed(p.spawners[c].need)])
    case CountFailure(c) =>
      p.(stateMutex := None, spawners := p.spawners[c := Fewer(p.spawners[c].need)], threadCount := p.threadCount - 1)
    case GiveUp(c) =>
      p.(stateMutex := None, spawners := p.spawners[c := Done], threadCount := p.threadCount - p.spawners[c].need)
    case Start(w) => p.(workers := p.workers[w := Looping], runningCount := p.runningCount + 1)
    case TakeJob(w) => p.(workers := p.workers[w := Working], busyCount := p.busyCount + 1)
    case EndJob(w) => p.(workers := p.workers[w := Looping], busyCount := p.busyCount - 1)
    case IdleTooLong(w) =>
      if MayDie(p) then p.(workers := p.workers[w := Dying], dyingCount := p.dyingCount + 1) else p
    case LeaveLoop(w) => p.(workers := p.workers[w := Leaving])
    case EndWorker(w) =>
      p.(workers := p.workers[w := Gone], runningCount := p.runningCount - 1, threadCount := p.threadCount - 1,
         dyingCount := if p.workers[w] == Dying then p.dyingCount - 1 else p.dyingCount)
    case Shutdown => p.(running := false)
  }

  function Run(min: nat, max: nat, events: seq<Event>): Option<Pool> {
    if events == [] then Some(Initial(min, max))
    else
      match Run(min, max, events[..|events| - 1])
      case None => None
      case Some(p) => if Enabled(p, events[|events| - 1]) then Some(Step(p, events[|events| - 1])) else None
  }

  function Count(ws: seq<Worker>, s: Worker): nat {
    if ws == [] then 0 else Count(ws[..|ws| - 1], s) + if ws[|ws| - 1] == s then 1 else 0
  }

  function NeedOf(s: Spawner): nat {
    if s.Done? then 0 else s.need
  }

  /** The threads that calls under way still owe. */
  function Pending(ss: seq<Spawner>): nat {
    if ss == [] then 0 else Pending(ss[..|ss| - 1]) + NeedOf(ss[|ss| - 1])
  }

  function Larger(a: nat, b: nat): nat {
    if a > b then a else b
  }

  /** The counters are what their names say, and the mutex of the state protects what it should. */
  ghost predicate Inv(p: Pool) {
    && p.busyCount == Count(p.workers, Working)
    && p.dyingCount == Count(p.workers, Dying)
    && p.runningCount == Count(p.workers, Looping) + Count(p.workers, Working) + Count(p.workers, Dying) + Count(p.workers, Leaving)
    && p.threadCount == Pending(p.spawners) + Count(p.workers, Created) + p.runningCount
    && p.threadCount - p.dyingCount <= Larger(p.min, p.max)
    && Locked(p)
  }

  ghost predicate Locked(p: Pool) {
    && (p.stateMutex.Some? ==> p.stateMutex.value < |p.spawners|)
    && forall c | 0 <= c < |p.spawners| ::
      && (!p.spawners[c].Done? ==> p.spawners[c].need > 0)
      && (p.spawners[c].Up? || p.spawners[c].Failed? || p.spawners[c].Down? <==> p.stateMutex == Some(c))
      && (p.spawners[c].Up? || p.spawners[c].Failed? ==> p.running)
      && (p.spawners[c].Down? ==> !p.running)
  }

  lemma {:induction false} CountSet(ws: seq<Worker>, w: nat, to: Worker, s: Worker)
    requires w < |ws|
    ensures Count(ws[w := to], s) + (if ws[w] == s then 1 else 0) == Count(ws, s) + if to == s then 1 else 0
  {
    var n := |ws| - 1;
    if w == n {
      assert ws[w := to][..n] == ws[..n];
    } else {
      CountSet(ws[..n], w, to, s);
      assert ws[w := to][..n] == ws[..n][w := to];
    }
  }

  lemma CountAdd(ws: seq<Worker>, to: Worker, s: Worker)
    ensures Count(ws + [to], s) == Count(ws, s) + if to == s then 1 else 0
  {
    assert (ws + [to])[..|ws|] == ws;
  }

  lemma {:induction false} PendingSet(ss: seq<Spawner>, c: nat, to: Spawner)
    requires c < |ss|
    ensures Pending(ss[c := to]) + NeedOf(ss[c]) == Pending(ss) + NeedOf(to)
  {
    var n := |ss| - 1;
    if c == n {
      assert ss[c := to][..n] == ss[..n];
    } else {
      PendingSet(ss[..n], c, to);
      assert ss[c := to][..n] == ss[..n][c := to];
    }
  }

  lemma PendingAdd(ss: seq<Spawner>, to: Spawner)
    ensures Pending(ss + [to]) == Pending(ss) + NeedOf(to)
  {
    assert (ss + [to])[..|ss|] == ss;
  }

  lemma CountsSet(ws: seq<Worker>, w: nat, to: Worker)
    requires w < |ws|
    ensures forall s :: Count(ws[w := to], s) + (if ws[w] == s then 1 else 0) == Count(ws, s) + if to == s then 1 else 0
  {
    forall s: Worker ensures Count(ws[w := to], s) + (if ws[w] == s then 1 else 0) == Count(ws, s) + if to == s then 1 else 0 {
      CountSet(ws, w, to, s);
    }
  }

  lemma SpawnKeeps(p: Pool, e: Event)
    requires Inv(p) && Enabled(p, e)
    requires e.CheckQueue? || e.LockState? || e.Create? || e.FailCreate? || e.CountFailure? || e.GiveUp?
    ensures Inv(Step(p, e))
  {
    hide Count, Pending;
    match e
    case CheckQueue(adding, queued) =>
      var need := Needed(p, adding, queued);
      PendingAdd(p.spawners, if need == 0 then Done else Spawn(need));
    case LockState(c) =>
      PendingSet(p.spawners, c, if p.running then Up(p.spawners[c].need) else Down(p.spawners[c].need));
    case Create(c) =>
      PendingSet(p.spawners, c, Fewer(p.spawners[c].need));
      forall s: Worker ensures Count(p.workers + [Created], s) == Count(p.workers, s) + if s == Created then 1 else 0 {
        CountAdd(p.workers, Created, s);
      }
    case FailCreate(c) => PendingSet(p.spawners, c, Failed(p.spawners[c].need));
    case CountFailure(c) => PendingSet(p.spawners, c, Fewer(p.spawners[c].need));
    case GiveUp(c) => PendingSet(p.spawners, c, Done);
  }

  lemma WorkKeeps(p: Pool, e: Event)
    requires Inv(p) && Enabled(p, e)
    requires e.Start? || e.TakeJob? || e.EndJob? || e.IdleTooLong? || e.LeaveLoop? || e.EndWorker? || e.Shutdown?
    ensures Inv(Step(p, e))
  {
    hide Count, Pending;
    match e
    case Start(w) => CountsSet(p.workers, w, Looping);
    case TakeJob(w) => CountsSet(p.workers, w, Working);
    case EndJob(w) => CountsSet(p.workers, w, Looping);
    case IdleTooLong(w) => CountsSet(p.workers, w, Dying);
    case LeaveLoop(w) => CountsSet(p.workers, w, Leaving);
    case EndWorker(w) => CountsSet(p.workers, w, Gone);
    case Shutdown =>
  }

  lemma {:induction false} RunKeeps(min: nat, max: nat, events: seq<Event>)
    ensures Run(min, max, events).Some? ==>
      Inv(Run(min, max, events).value) && Run(min, max, events).value.min == min && Run(min, max, events).value.max == max
  {
    if events != [] {
      hide Inv, Enabled;
      RunKeeps(min, max, events[..|events| - 1]);
      var r := Run(min, max, events[..|events| - 1]);
      var e := events[|events| - 1];
      if r.Some? && Enabled(r.value, e) {
        if e.CheckQueue? || e.LockState? || e.Create? || e.FailCreate? || e.CountFailure? || e.GiveUp? {
          SpawnKeeps(r.value, e);
        } else {
          WorkKeeps(r.value, e);
        }
      }
    }
  }

  /** No unsigned subtraction of the counters can wrap, and apart from the dying workers there are never more threads than
      the bounds allow. */
  lemma CountersAreSound(min: nat, max: nat, events: seq<Event>)
    requires Run(min, max, events).Some?
    ensures var p := Run(min, max, events).value;
      && 0 <= p.busyCount && 0 <= p.dyingCount && p.busyCount + p.dyingCount <= p.runningCount <= p.threadCount
      && p.threadCount - p.dyingCount <= Larger(min, max)
      && p.threadCount == Pending(p.spawners) + Count(p.workers, Created) + p.runningCount
  {
    RunKeeps(min, max, events);
  }

  /** A worker that has been idle for too long is itself neither busy nor dying, so that half of its test always holds: it
      may die exactly when more than min workers run. */
  lemma IdleWorkerMayDie(min: nat, max: nat, events: seq<Event>, w: nat)
    requires Run(min, max, events).Some? && WorkerIs(Run(min, max, events).value, w, Looping)
    ensures MayDie(Run(min, max, events).value) <==> Run(min, max, events).value.runningCount > min
  {
    RunKeeps(min, max, events);
    CountOne(Run(min, max, events).value.workers, w);
  }

  lemma {:induction false} CountOne(ws: seq<Worker>, w: nat)
    requires w < |ws|
    ensures Count(ws, ws[w]) > 0
  {
    if w < |ws| - 1 { CountOne(ws[..|ws| - 1], w); }
  }

  /** After the shutdown no step makes a worker, and the pool stays down. */
  lemma NoSpawnWhenDown(min: nat, max: nat, events: seq<Event>, e: Event)
    requires Run(min, max, events).Some? && !Run(min, max, events).value.running && Enabled(Run(min, max, events).value, e)
    ensures var p := Run(min, max, events).value;
      |Step(p, e).workers| == |p.workers| && !Step(p, e).running && Pending(Step(p, e).spawners) <= Pending(p.spawners)
  {
    RunKeeps(min, max, events);
    var p := Run(min, max, events).value;
    match e
    case LockState(c) => PendingSet(p.spawners, c, Down(p.spawners[c].need));
    case GiveUp(c) => PendingSet(p.spawners, c, Done);
    case _ =>
  }

  /** When every worker has ended and every call is over, all counters are back at zero. */
  lemma CountersEndAtZero(min: nat, max: nat, events: seq<Event>)
    requires Run(min, max, events).Some?
    requires forall w | 0 <= w < |Run(min, max, events).value.workers| :: Run(min, max, events).value.workers[w] == Gone
    requires forall c | 0 <= c < |Run(min, max, events).value.spawners| :: Run(min, max, events).value.spawners[c].Done?
    ensures var p := Run(min, max, events).value;
      p.threadCount == 0 && p.busyCount == 0 && p.runningCount == 0 && p.dyingCount == 0 && p.stateMutex == None
  {
    RunKeeps(min, max, events);
    var p := Run(min, max, events).value;
    AllGone(p.workers);
    AllDone(p.spawners);
  }

  lemma {:induction false} AllGone(ws: seq<Worker>)
    requires forall w | 0 <= w < |ws| :: ws[w] == Gone
    ensures forall s: Worker | s != Gone :: Count(ws, s) == 0
  {
    if ws != [] { AllGone(ws[..|ws| - 1]); }
  }

  lemma {:induction false} AllDone(ss: seq<Spawner>)
    requires forall c | 0 <= c < |ss| :: ss[c].Done?
    ensures Pending(ss) == 0
  {
    if ss != [] { AllDone(ss[..|ss| - 1]); }
  }

  // ----- threads are made where they are needed

  /** After check_queue, while the pool is up, it has taken all threads that min asks for into account. With enough of them it
      takes one more just if a job is being added, no running worker is free for it, and max allows it; and it has promised
      to make exactly those. */
  lemma CheckQueueAsks(p: Pool, adding: bool, queued: nat)
    requires p.running
    ensures var q := Step(p, CheckQueue(adding, queued));
      && q.threadCount >= p.min && |q.spawners| == |p.spawners| + 1
      && NeedOf(q.spawners[|p.spawners|]) == q.threadCount - p.threadCount
      && (p.threadCount <= p.min && !adding ==> q.threadCount == p.min)
      && (p.threadCount >= p.min ==>
            && (q.threadCount == p.threadCount + 1 <==>
                  adding && p.busyCount + queued >= p.runningCount - p.dyingCount && p.threadCount - p.dyingCount < p.max)
            && (q.threadCount == p.threadCount || q.threadCount == p.threadCount + 1))
  {
  }

  /** The rounds of a call that goes on undisturbed. */
  function Rounds(c: nat, n: nat): seq<Event> {
    if n == 0 then [] else [LockState(c), Create(c)] + Rounds(c, n - 1)
  }

  function RunFrom(p: Pool, events: seq<Event>): Option<Pool>
    decreases |events|
  {
    if events == [] then Some(p)
    else if Enabled(p, events[0]) then RunFrom(Step(p, events[0]), events[1..])
    else None
  }

  function Fresh(n: nat): seq<Worker> {
    if n == 0 then [] else [Created] + Fresh(n - 1)
  }

  /** It makes as many workers as it has promised. */
  lemma {:induction false} PromiseIsKept(p: Pool, c: nat, n: nat)
    requires c < |p.spawners| && p.running && p.stateMutex == None
    requires p.spawners[c] == if n == 0 then Done else Spawn(n)
    ensures RunFrom(p, Rounds(c, n)) == Some(p.(workers := p.workers + Fresh(n), spawners := p.spawners[c := Done]))
    decreases n
  {
    if n == 0 {
      assert p.workers + [] == p.workers && p.spawners[c := Done] == p.spawners;
    } else {
      hide RunFrom, Enabled, Step;
      var b := OneRound(p, c, n, Rounds(c, n - 1));
      PromiseIsKept(b, c, n - 1);
      assert b.workers + Fresh(n - 1) == p.workers + Fresh(n);
      assert b.spawners[c := Done] == p.spawners[c := Done];
    }
  }

  lemma OneRound(p: Pool, c: nat, n: nat, rest: seq<Event>) returns (b: Pool)
    requires c < |p.spawners| && p.running && p.stateMutex == None && p.spawners[c] == Spawn(n) && n > 0
    ensures b == p.(workers := p.workers + [Created], spawners := p.spawners[c := Fewer(n)])
    ensures RunFrom(p, [LockState(c), Create(c)] + rest) == RunFrom(b, rest)
  {
    var a := Step(p, LockState(c));
    b := Step(a, Create(c));
    var events := [LockState(c), Create(c)] + rest;
    assert events[1..][0] == Create(c) && events[1..][1..] == rest;
    assert p.spawners[c := Up(n)][c := Fewer(n)] == p.spawners[c := Fewer(n)];
  }

  /** A new pool comes up with min workers. */
  lemma PoolFills(min: nat, max: nat)
    ensures var r := RunFrom(Initial(min, max), [CheckQueue(false, 0)] + Rounds(0, min));
      r.Some? && r.value.workers == Fresh(min) && r.value.threadCount == min && Pending(r.value.spawners) == 0
  {
    var p := Step(Initial(min, max), CheckQueue(false, 0));
    var events := [CheckQueue(false, 0)] + Rounds(0, min);
    assert events[1..] == Rounds(0, min);
    PromiseIsKept(p, 0, min);
    assert [] + Fresh(min) == Fresh(min);
    AllDone(p.spawners[0 := Done]);
  }
}
