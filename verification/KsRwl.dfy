/** ks_mutex.c: the read-write lock that its writer may take again (POSIX branch), one load or store at a time. The field
    write_locker is read without synchronisation. */
module KsRwl {
  import opened Octets

  type Thread = t: nat | t > 0 witness 1

  const WLC_MODULUS: nat := 0x1_0000_0000

  /** Where a thread stands in a call; its next access is the one named. */
  datatype Pc =
    | Idle
    | LockLoad(try: bool)
    | IncLoad
    | IncStore(v: nat)
    | Acquire(try: bool)
    | SetLocker
    | UnlockLoad
    | TestWlc
    | DecLoad
    | DecStore(v: nat)
    | ClearLocker
    | Release
    | ReadAcquire(try: bool)
    | ReadRelease

  /** depth and shared are how often the thread holds the write lock and the read lock as its own calls count it. */
  datatype Th = Th(pc: Pc, depth: nat, shared: nat)

  /** writer and readers are the state of the pthread lock; locker is write_locker, 0 for none. */
  datatype State = State(writer: Option<Thread>, readers: multiset<Thread>, locker: nat, wlc: nat, threads: map<Thread, Th>)

  datatype Call = WriteLock | TryWriteLock | WriteUnlock | ReadLock | TryReadLock | ReadUnlock

  datatype Event = Begin(t: Thread, call: Call) | Go(t: Thread)

  function Of(s: State, t: Thread): Th {
    if t in s.threads then s.threads[t] else Th(Idle, 0, 0)
  }

  function Put(s: State, t: Thread, th: Th): State {
    s.(threads := s.threads[t := th])
  }

  /** Balanced clients: unlock what is locked, no read lock inside the write lock, nesting up to a bound. */
  predicate MayCall(s: State, t: Thread, call: Call, bound: nat) {
    && Of(s, t).pc == Idle
    && match call
       case WriteLock => Of(s, t).depth < bound
       case TryWriteLock => Of(s, t).depth < bound
       case WriteUnlock => Of(s, t).depth > 0
       case ReadLock => Of(s, t).depth == 0
       case TryReadLock => Of(s, t).depth == 0
       case ReadUnlock => Of(s, t).shared > 0
  }

  /** pthread_rwlock_wrlock and pthread_rwlock_rdlock wait; everything else can always go on. */
  predicate Enabled(s: State, e: Event, bound: nat) {
    match e
    case Begin(t, call) => MayCall(s, t, call, bound)
    case Go(t) =>
      match Of(s, t).pc
      case Idle => false
      case Acquire(try) => try || (s.writer == None && s.readers == multiset{})
      case ReadAcquire(try) => try || s.writer == None
      case ReadRelease => t in s.readers
      case _ => true
  }

  function Entry(call: Call): Pc {
    match call
    case WriteLock => LockLoad(false)
    case TryWriteLock => LockLoad(true)
    case WriteUnlock => UnlockLoad
    case ReadLock => ReadAcquire(false)
    case TryReadLock => ReadAcquire(true)
    case ReadUnlock => ReadRelease
  }

  function Step(s: State, e: Event): State {
    match e
    case Begin(t, call) => Put(s, t, Of(s, t).(pc := Entry(call)))
    case Go(t) =>
      var th := Of(s, t);
      match th.pc
      case LockLoad(try) => Put(s, t, th.(pc := if s.locker == t then IncLoad else Acquire(try)))
      case IncLoad => Put(s, t, th.(pc := IncStore(s.wlc)))
      case IncStore(v) => Put(s.(wlc := (v + 1) % WLC_MODULUS), t, th.(pc := Idle, depth := th.depth + 1))
      case Acquire(_) =>
        if s.writer == None && s.readers == multiset{} then Put(s.(writer := Some(t)), t, th.(pc := SetLocker))
        else Put(s, t, th.(pc := Idle))
      case SetLocker => Put(s.(locker := t), t, th.(pc := Idle, depth := th.depth + 1))
      case UnlockLoad => Put(s, t, th.(pc := if s.locker == t then TestWlc else ClearLocker))
      case TestWlc => Put(s, t, th.(pc := if s.wlc > 0 then DecLoad else ClearLocker))
      case DecLoad => Put(s, t, th.(pc := DecStore(s.wlc)))
      case DecStore(v) => Put(s.(wlc := (v - 1) % WLC_MODULUS), t, th.(pc := Idle, depth := OneLess(th.depth)))
      case ClearLocker => Put(s.(locker := 0), t, th.(pc := Release, depth := OneLess(th.depth)))
      case Release => Put(s.(writer := None), t, th.(pc := Idle))
      case ReadAcquire(_) =>
        if s.writer == None then Put(s.(readers := s.readers + multiset{t}), t, th.(pc := Idle, shared := th.shared + 1))
        else Put(s, t, th.(pc := Idle))
      case ReadRelease => Put(s.(readers := s.readers - multiset{t}), t, th.(pc := Idle, shared := OneLess(th.shared)))
      case Idle => s
  }

  function OneLess(n: nat): nat {
    if n > 0 then n - 1 else 0
  }

  function Initial(): State {
    State(None, multiset{}, 0, 0, map[])
  }

  /** The states that balanced clients with this bound on nesting can come to. */
  function Run(bound: nat, events: seq<Event>): Option<State> {
    if events == [] then Some(Initial())
    else
      match Run(bound, events[..|events| - 1])
      case None => None
      case Some(s) => if Enabled(s, events[|events| - 1], bound) then Some(Step(s, events[|events| - 1])) else None
  }

  /** What holds of a thread wherever it stands. */
  ghost predicate ThreadOk(s: State, t: Thread) {
    var th := Of(s, t);
    && (th.depth > 0 <==> s.locker == t) && s.readers[t] == th.shared
    && (th.depth > 0 ==> s.writer == Some(t) && th.depth == s.wlc + 1)
    && (s.writer == Some(t) ==> th.depth > 0 || th.pc == SetLocker || th.pc == Release)
    && match th.pc
       case Idle => true
       case LockLoad(_) => th.depth < WLC_MODULUS
       case IncLoad => 0 < th.depth < WLC_MODULUS
       case IncStore(v) => 0 < th.depth < WLC_MODULUS && v == s.wlc
       case Acquire(_) => th.depth == 0
       case SetLocker => th.depth == 0 && s.writer == Some(t)
       case UnlockLoad => th.depth > 0
       case TestWlc => th.depth > 0
       case DecLoad => th.depth > 1
       case DecStore(v) => th.depth > 1 && v == s.wlc
       case ClearLocker => th.depth == 1
       case Release => th.depth == 0 && s.writer == Some(t)
       case ReadAcquire(_) => th.depth == 0
       case ReadRelease => t in s.readers
  }

  ghost predicate Inv(s: State) {
    && (forall t: Thread {:trigger Of(s, t)} :: ThreadOk(s, t))
    && (s.writer.Some? ==> s.readers == multiset{})
    && (s.locker != 0 ==> s.writer == Some(s.locker))
    && (s.locker == 0 ==> s.wlc == 0)
    && s.wlc < WLC_MODULUS
  }

  lemma BeginKeeps(s: State, t: Thread, call: Call)
    requires Inv(s) && Enabled(s, Begin(t, call), WLC_MODULUS)
    ensures Inv(Step(s, Begin(t, call)))
  {
    var n := Step(s, Begin(t, call));
    assert ThreadOk(s, t);
    forall u: Thread ensures ThreadOk(n, u) { assert ThreadOk(s, u); }
  }

  /** A thread's step breaks nothing for itself. */
  lemma GoKeepsSelf(s: State, t: Thread)
    requires Inv(s) && Enabled(s, Go(t), WLC_MODULUS)
    ensures var n := Step(s, Go(t));
      && ThreadOk(n, t)
      && (n.writer.Some? ==> n.readers == multiset{}) && (n.locker != 0 ==> n.writer == Some(n.locker))
      && (n.locker == 0 ==> n.wlc == 0) && n.wlc < WLC_MODULUS
  {
    assert ThreadOk(s, t);
  }

  /** Nor for any other thread. */
  lemma GoKeepsOthers(s: State, t: Thread, u: Thread)
    requires Inv(s) && Enabled(s, Go(t), WLC_MODULUS) && t != u
    ensures ThreadOk(Step(s, Go(t)), u)
  {
    assert ThreadOk(s, t);
    assert ThreadOk(s, u);
  }

  lemma StepKeeps(s: State, e: Event)
    requires Inv(s) && Enabled(s, e, WLC_MODULUS)
    ensures Inv(Step(s, e))
  {
    hide ThreadOk;
    match e
    case Begin(t, call) => BeginKeeps(s, t, call);
    case Go(t) =>
      GoKeepsSelf(s, t);
      forall u: Thread | u != t ensures ThreadOk(Step(s, e), u) { GoKeepsOthers(s, t, u); }
  }

  lemma FewerMay(s: State, e: Event, bound: nat)
    requires bound <= WLC_MODULUS && Enabled(s, e, bound)
    ensures Enabled(s, e, WLC_MODULUS)
  {
  }

  lemma {:induction false} RunKeeps(bound: nat, events: seq<Event>)
    requires bound <= WLC_MODULUS
    ensures Run(bound, events).Some? ==> Inv(Run(bound, events).value)
  {
    if events != [] {
      hide Step, Enabled, Inv;
      RunKeeps(bound, events[..|events| - 1]);
      var r := Run(bound, events[..|events| - 1]);
      var e := events[|events| - 1];
      if r.Some? && Enabled(r.value, e, bound) {
        FewerMay(r.value, e, bound);
        StepKeeps(r.value, e);
      }
    } else {
      forall t: Thread ensures ThreadOk(Initial(), t) {}
    }
  }

  /** Exclusion, on every interleaving with nesting up to 2^32: a thread inside the write lock excludes every other writer
      and every reader, and write_locker and wlc tell exactly who is inside and how deep. */
  lemma WriterIsAlone(bound: nat, events: seq<Event>, t: Thread)
    requires bound <= WLC_MODULUS && Run(bound, events).Some? && Of(Run(bound, events).value, t).depth > 0
    ensures var s := Run(bound, events).value;
      && s.writer == Some(t) && s.readers == multiset{} && s.locker == t && Of(s, t).depth == s.wlc + 1
      && forall u: Thread :: u != t ==> Of(s, u).depth == 0
  {
    RunKeeps(bound, events);
    var s := Run(bound, events).value;
    assert ThreadOk(s, t);
    forall u: Thread | u != t ensures Of(s, u).depth == 0 { assert ThreadOk(s, u); }
  }

  /** A thread inside a read lock, as its own calls count it, excludes every writer; and nobody has the lock for reading but
      those who count it so. */
  lemma ReadersExclude(bound: nat, events: seq<Event>, t: Thread)
    requires bound <= WLC_MODULUS && Run(bound, events).Some?
    ensures var s := Run(bound, events).value;
      && s.readers[t] == Of(s, t).shared
      && (Of(s, t).shared > 0 ==> s.writer == None && forall u: Thread :: Of(s, u).depth == 0)
  {
    RunKeeps(bound, events);
    var s := Run(bound, events).value;
    assert ThreadOk(s, t);
    if Of(s, t).shared > 0 {
      forall u: Thread ensures Of(s, u).depth == 0 { assert ThreadOk(s, u); }
    }
  }

  /** No call is a void one: a thread that comes back from a lock that was free holds it once more, and from an unlock once
      less. */
  lemma CallsCount(s: State, t: Thread)
    requires Inv(s) && Enabled(s, Go(t), WLC_MODULUS)
    ensures var th, n := Of(s, t), Of(Step(s, Go(t)), t);
      && (th.pc.ReadAcquire? ==> n == th.(pc := Idle, shared := if s.writer == None then th.shared + 1 else th.shared))
      && (th.pc == ReadRelease ==> th.shared > 0 && n == th.(pc := Idle, shared := th.shared - 1))
      && (th.pc.Acquire? ==> n == th.(pc := if s.writer == None && s.readers == multiset{} then SetLocker else Idle))
      && (th.pc == SetLocker || th.pc.IncStore? ==> n == th.(pc := Idle, depth := th.depth + 1))
      && (th.pc.DecStore? ==> th.depth > 1 && n == th.(pc := Idle, depth := th.depth - 1))
      && (th.pc == ClearLocker ==> th.depth == 1 && n == th.(pc := Release, depth := 0))
      && (th.pc == Release ==> n == th.(pc := Idle) && Step(s, Go(t)).writer == None)
  {
    assert ThreadOk(s, t);
  }

  /** The unsynchronised test for ownership is never wrong: when a thread makes it, it reads its own number just if it is
      inside the write lock, whatever the others are doing. */
  lemma OwnershipTestIsRight(bound: nat, events: seq<Event>, t: Thread)
    requires bound <= WLC_MODULUS && Run(bound, events).Some?
    ensures Run(bound, events).value.locker == t <==> Of(Run(bound, events).value, t).depth > 0
  {
    RunKeeps(bound, events);
    assert ThreadOk(Run(bound, events).value, t);
  }

  /** Nothing stays locked: a thread between calls that has unlocked as often as locked does not own the lock. */
  lemma UnlockedIsReleased(bound: nat, events: seq<Event>, t: Thread)
    requires bound <= WLC_MODULUS && Run(bound, events).Some? && Of(Run(bound, events).value, t).pc == Idle
    requires Of(Run(bound, events).value, t).depth == 0
    ensures Run(bound, events).value.writer != Some(t)
  {
    RunKeeps(bound, events);
    assert ThreadOk(Run(bound, events).value, t);
  }

  // ----- nesting deeper than the counter

  function RunFrom(s: State, bound: nat, events: seq<Event>): Option<State>
    decreases |events|
  {
    if events == [] then Some(s)
    else if Enabled(s, events[0], bound) then RunFrom(Step(s, events[0]), bound, events[1..])
    else None
  }

  lemma {:induction false} RunOn(bound: nat, before: seq<Event>, events: seq<Event>)
    requires Run(bound, before).Some?
    ensures Run(bound, before + events) == RunFrom(Run(bound, before).value, bound, events)
    decreases |events|
  {
    hide Enabled, Step;
    if events == [] {
      assert before + events == before;
    } else {
      var next := before + [events[0]];
      assert next[..|next| - 1] == before;
      assert before + events == next + events[1..];
      if Run(bound, next).Some? { RunOn(bound, next, events[1..]); } else { StaysNone(bound, next, events[1..]); }
    }
  }

  lemma {:induction false} StaysNone(bound: nat, before: seq<Event>, events: seq<Event>)
    requires Run(bound, before) == None
    ensures Run(bound, before + events) == None
    decreases |events|
  {
    hide Enabled, Step;
    if events == [] {
      assert before + events == before;
    } else {
      var last := |events| - 1;
      StaysNone(bound, before, events[..last]);
      assert (before + events)[..|before + events| - 1] == before + events[..last];
    }
  }

  /** Write locks of one thread, one inside the other, nobody else coming in between. */
  function Nest(t: Thread, n: nat): seq<Event> {
    if n == 0 then [] else Nest(t, n - 1) + [Begin(t, WriteLock), Go(t), Go(t), Go(t)]
  }

  function Nested(t: Thread, n: nat): State {
    if n == 0 then Initial()
    else State(Some(t), multiset{}, t, (n - 1) % WLC_MODULUS, map[t := Th(Idle, n, 0)])
  }

  /** One more write lock. */
  lemma OneDeeper(bound: nat, t: Thread, n: nat)
    requires n < bound
    ensures RunFrom(Nested(t, n), bound, [Begin(t, WriteLock), Go(t), Go(t), Go(t)]) == Some(Nested(t, n + 1))
  {
    var s1 := Step(Nested(t, n), Begin(t, WriteLock));
    var s2 := Step(s1, Go(t));
    var s3 := Step(s2, Go(t));
    var s4 := Step(s3, Go(t));
    assert s4.threads == map[t := Th(Idle, n + 1, 0)];
    assert RunFrom(s4, bound, []) == Some(s4);
    assert RunFrom(s3, bound, [Go(t)]) == Some(s4);
    assert RunFrom(s2, bound, [Go(t), Go(t)]) == Some(s4);
    assert RunFrom(s1, bound, [Go(t), Go(t), Go(t)]) == Some(s4);
  }

  /** Nested n deep, the counter is n - 1 modulo 2^32. */
  lemma {:induction false} NestingCounts(bound: nat, t: Thread, n: nat)
    requires n <= bound
    ensures Run(bound, Nest(t, n)) == Some(Nested(t, n))
  {
    hide RunFrom;
    if n > 0 {
      NestingCounts(bound, t, n - 1);
      OneDeeper(bound, t, n - 1);
      RunOn(bound, Nest(t, n - 1), [Begin(t, WriteLock), Go(t), Go(t), Go(t)]);
    }
  }

  lemma UnlockGivesAway(bound: nat, t: Thread)
    ensures var r := RunFrom(Nested(t, WLC_MODULUS + 1), bound, [Begin(t, WriteUnlock), Go(t), Go(t), Go(t), Go(t)]);
      r.Some? && r.value.writer == None && Of(r.value, t) == Th(Idle, WLC_MODULUS, 0)
  {
    var s1 := Step(Nested(t, WLC_MODULUS + 1), Begin(t, WriteUnlock));
    var s2 := Step(s1, Go(t));
    var s3 := Step(s2, Go(t));
    var s4 := Step(s3, Go(t));
    var s5 := Step(s4, Go(t));
    assert RunFrom(s5, bound, []) == Some(s5);
    assert RunFrom(s4, bound, [Go(t)]) == Some(s5);
    assert RunFrom(s3, bound, [Go(t), Go(t)]) == Some(s5);
    assert RunFrom(s2, bound, [Go(t), Go(t), Go(t)]) == Some(s5);
    assert RunFrom(s1, bound, [Go(t), Go(t), Go(t), Go(t)]) == Some(s5);
  }

  /** At 2^32 + 1 the counter is 0 again, and one unlock gives the lock away while the thread counts 2^32 locks of its own. */
  lemma DeepNestingReleasesEarly(bound: nat, t: Thread)
    requires bound > WLC_MODULUS
    ensures var r := Run(bound, Nest(t, WLC_MODULUS + 1) + [Begin(t, WriteUnlock), Go(t), Go(t), Go(t), Go(t)]);
      r.Some? && r.value.writer == None && Of(r.value, t) == Th(Idle, WLC_MODULUS, 0)
  {
    hide Nest, Run, RunFrom, Nested;
    NestingCounts(bound, t, WLC_MODULUS + 1);
    RunOn(bound, Nest(t, WLC_MODULUS + 1), [Begin(t, WriteUnlock), Go(t), Go(t), Go(t), Go(t)]);
    UnlockGivesAway(bound, t);
  }

  /** Whoever counts itself inside holds the lock. */
  ghost predicate Excludes(bound: nat, events: seq<Event>, t: Thread) {
    Run(bound, events).Some? && Of(Run(bound, events).value, t).depth > 0 ==> Run(bound, events).value.writer == Some(t)
  }

  /** The exact bound: the lock excludes on every run just as long as clients nest at most 2^32 deep. */
  lemma ExcludesIffBounded(bound: nat)
    ensures (forall events, t: Thread :: Excludes(bound, events, t)) <==> bound <= 0x1_0000_0000
  {
    if bound <= WLC_MODULUS {
      forall events, t: Thread ensures Excludes(bound, events, t) {
        if Run(bound, events).Some? && Of(Run(bound, events).value, t).depth > 0 { WriterIsAlone(bound, events, t); }
      }
    } else {
      hide Nest;
      DeepNestingReleasesEarly(bound, 1);
      assert !Excludes(bound, Nest(1, WLC_MODULUS + 1) + [Begin(1, WriteUnlock), Go(1), Go(1), Go(1), Go(1)], 1);
    }
  }

  /** Readers do not exclude each other: a run with two of them inside. */
  lemma ReadersShare(bound: nat, t: Thread, u: Thread)
    requires t != u
    ensures var r := Run(bound, [Begin(t, ReadLock), Go(t), Begin(u, ReadLock), Go(u)]);
      r.Some? && Of(r.value, t).shared == 1 && Of(r.value, u).shared == 1
  {
    var s1 := Step(Initial(), Begin(t, ReadLock));
    var s2 := Step(s1, Go(t));
    var s3 := Step(s2, Begin(u, ReadLock));
    var s4 := Step(s3, Go(u));
    assert RunFrom(s4, bound, []) == Some(s4);
    assert RunFrom(s3, bound, [Go(u)]) == Some(s4);
    assert RunFrom(s2, bound, [Begin(u, ReadLock), Go(u)]) == Some(s4);
    assert RunFrom(s1, bound, [Go(t), Begin(u, ReadLock), Go(u)]) == Some(s4);
    hide RunFrom, Step;
    var events := [Begin(t, ReadLock), Go(t), Begin(u, ReadLock), Go(u)];
    RunOn(bound, [], events);
    EmptyRun(bound, events, s1, s4);
    assert [] + events == events;
  }

  lemma EmptyRun(bound: nat, events: seq<Event>, first: State, last: State)
    requires events != [] && Enabled(Initial(), events[0], bound) && first == Step(Initial(), events[0])
    requires RunFrom(first, bound, events[1..]) == Some(last)
    ensures RunFrom(Initial(), bound, events) == Some(last)
  {
  }
}
