/** ks_q.c: the bounded blocking queue. Its mutex is recursive and held from entry to return except while waiting, so a call
    is one critical section, or two with a wait between them. */
module KsQ {
  import opened Octets

  type Pointer = nat
  type Thread(==) = nat

  datatype Status = Success | Inactive | Break | Timeout

  /** The fields of the queue, with the list of nodes seen as the pointers in it. */
  datatype View = View(items: seq<Pointer>, maxlen: nat, pushers: nat, poppers: nat, active: bool)

  /** How a critical section ends. signal says whether the other condition is signalled on the way out. */
  datatype Outcome = Wait | Return(status: Status, got: Option<Pointer>, signal: bool)

  predicate Full(v: View) {
    v.maxlen != 0 && |v.items| == v.maxlen
  }

  function DoPush(v: View, x: Pointer): View {
    if v.active then v.(items := v.items + [x]) else v
  }

  function DoPop(v: View): View {
    if v.active && v.items != [] then v.(items := v.items[1..]) else v
  }

  function PushEnd(v: View, x: Pointer): (View, Outcome) {
    (DoPush(v, x), Return(if v.active then Success else Inactive, None, v.poppers > 0))
  }

  function PopEnd(v: View): (View, Outcome)
    requires v.items != []
  {
    (DoPop(v), if v.active then Return(Success, Some(v.items[0]), v.pushers > 0) else Return(Inactive, None, v.pushers > 0))
  }

  /** ks_q_push up to its wait, and after it. */
  function PushEnter(v: View, x: Pointer): (View, Outcome) {
    if !v.active then (v, Return(Inactive, None, false))
    else if Full(v) then (v.(pushers := v.pushers + 1), Wait)
    else PushEnd(v, x)
  }

  function PushResume(v: View, x: Pointer): (View, Outcome)
    requires v.pushers > 0
  {
    var w := v.(pushers := v.pushers - 1);
    if Full(w) then (w, Return(if w.active then Break else Inactive, None, false)) else PushEnd(w, x)
  }

  function TryPush(v: View, x: Pointer): (View, Outcome) {
    if !v.active then (v, Return(Inactive, None, false))
    else if Full(v) then (v, Return(Break, None, false))
    else PushEnd(v, x)
  }

  /** ks_q_pop_timeout up to its wait, and after it. */
  function PopEnter(v: View): (View, Outcome) {
    if !v.active then (v, Return(Inactive, None, false))
    else if v.items == [] then (v.(poppers := v.poppers + 1), Wait)
    else PopEnd(v)
  }

  function PopResume(v: View, timedOut: bool): (View, Outcome)
    requires v.poppers > 0
  {
    var w := v.(poppers := v.poppers - 1);
    if timedOut then (w, Return(Timeout, None, false))
    else if w.items == [] then (w, Return(if w.active then Break else Inactive, None, false))
    else PopEnd(w)
  }

  function TryPop(v: View): (View, Outcome) {
    if !v.active then (v, Return(Inactive, None, false))
    else if v.items == [] then (v, Return(Break, None, false))
    else PopEnd(v)
  }

  function Term(v: View): View {
    v.(active := false)
  }

  /** Where a thread stands between two critical sections; a thread that is in no call has no place. A pusher carries its
      pointer. Late is a wait that timed out, Waking a ks_q_term that found the queue active and has yet to broadcast. */
  datatype Place = PushAsleep(x: Pointer) | PushWoken(x: Pointer) | PopAsleep | PopWoken | PopLate | Waking

  datatype Kind = KPushAsleep | KPushWoken | KPopAsleep | KPopWoken | KPopLate | KWaking

  function KindOf(p: Place): Kind {
    match p
    case PushAsleep(_) => KPushAsleep
    case PushWoken(_) => KPushWoken
    case PopAsleep => KPopAsleep
    case PopWoken => KPopWoken
    case PopLate => KPopLate
    case Waking => KWaking
  }

  /** All threads at the queue; pushed and popped are what went in and out. */
  datatype State = State(q: View, at: map<Thread, Place>, pushed: seq<Pointer>, popped: seq<Pointer>)

  function Those(at: map<Thread, Place>, k: Kind): set<Thread> {
    set t | t in at && KindOf(at[t]) == k
  }

  /** One step of thread t. wakes is the thread that a signal reaches, if any is asleep on the condition. */
  datatype Event =
    | EPushEnter(t: Thread, x: Pointer, wakes: Thread)
    | EPushResume(t: Thread, wakes: Thread)
    | ETryPush(t: Thread, x: Pointer, wakes: Thread)
    | EPopEnter(t: Thread, wakes: Thread)
    | EPopResume(t: Thread, wakes: Thread)
    | ETryPop(t: Thread, wakes: Thread)
    | ETimeout(t: Thread)
    | ESpurious(t: Thread)
    | ETerm(t: Thread)
    | EWake(t: Thread)

  predicate CanWake(s: State, k: Kind, w: Thread) {
    Those(s.at, k) == {} || w in Those(s.at, k)
  }

  predicate Enabled(s: State, e: Event) {
    match e
    case EPushEnter(t, x, w) => t !in s.at && CanWake(s, KPopAsleep, w)
    case EPushResume(t, w) => t in Those(s.at, KPushWoken) && s.q.pushers > 0 && CanWake(s, KPopAsleep, w)
    case ETryPush(t, x, w) => t !in s.at && CanWake(s, KPopAsleep, w)
    case EPopEnter(t, w) => t !in s.at && CanWake(s, KPushAsleep, w)
    case EPopResume(t, w) => (t in Those(s.at, KPopWoken) || t in Those(s.at, KPopLate)) && s.q.poppers > 0 && CanWake(s, KPushAsleep, w)
    case ETryPop(t, w) => t !in s.at && CanWake(s, KPushAsleep, w)
    case ETimeout(t) => t in Those(s.at, KPopAsleep)
    case ESpurious(t) => t in Those(s.at, KPopAsleep) || t in Those(s.at, KPushAsleep)
    case ETerm(t) => t !in s.at
    case EWake(t) => t !in s.at || t in Those(s.at, KWaking)
  }

  function Woken(p: Place): Place {
    match p
    case PushAsleep(x) => PushWoken(x)
    case PopAsleep => PopWoken
    case _ => p
  }

  function Signal(at: map<Thread, Place>, k: Kind, w: Thread): map<Thread, Place> {
    if w in Those(at, k) then at[w := Woken(at[w])] else at
  }

  function Broadcast(at: map<Thread, Place>): map<Thread, Place> {
    map t | t in at :: Woken(at[t])
  }

  /** What a push section does to the threads: t falls asleep, or it returns and signals. */
  function AfterPush(s: State, t: Thread, x: Pointer, r: (View, Outcome), w: Thread): State {
    match r.1
    case Wait => s.(q := r.0, at := s.at[t := PushAsleep(x)])
    case Return(st, got, signal) =>
      State(r.0, if signal then Signal(s.at, KPopAsleep, w) else s.at, if st == Success then s.pushed + [x] else s.pushed, s.popped)
  }

  function AfterPop(s: State, t: Thread, r: (View, Outcome), w: Thread): State {
    match r.1
    case Wait => s.(q := r.0, at := s.at[t := PopAsleep])
    case Return(st, got, signal) =>
      State(r.0, if signal then Signal(s.at, KPushAsleep, w) else s.at, s.pushed, if got.Some? then s.popped + [got.value] else s.popped)
  }

  function Left(s: State, t: Thread): State {
    s.(at := s.at - {t})
  }

  function Step(s: State, e: Event): State
    requires Enabled(s, e)
  {
    match e
    case EPushEnter(t, x, w) => AfterPush(s, t, x, PushEnter(s.q, x), w)
    case EPushResume(t, w) => AfterPush(Left(s, t), t, s.at[t].x, PushResume(s.q, s.at[t].x), w)
    case ETryPush(t, x, w) => AfterPush(s, t, x, TryPush(s.q, x), w)
    case EPopEnter(t, w) => AfterPop(s, t, PopEnter(s.q), w)
    case EPopResume(t, w) => AfterPop(Left(s, t), t, PopResume(s.q, s.at[t].PopLate?), w)
    case ETryPop(t, w) => AfterPop(s, t, TryPop(s.q), w)
    case ETimeout(t) => s.(at := s.at[t := PopLate])
    case ESpurious(t) => s.(at := s.at[t := Woken(s.at[t])])
    case ETerm(t) => s.(q := Term(s.q), at := if s.q.active then s.at[t := Waking] else s.at)
    case EWake(t) => s.(at := Broadcast(s.at - {t}))
  }

  function Initial(maxlen: nat): State {
    State(View([], maxlen, 0, 0, true), map[], [], [])
  }

  /** The states that a queue with this bound can come to. */
  function Run(maxlen: nat, events: seq<Event>): Option<State> {
    if events == [] then Some(Initial(maxlen))
    else
      match Run(maxlen, events[..|events| - 1])
      case None => None
      case Some(s) => if Enabled(s, events[|events| - 1]) then Some(Step(s, events[|events| - 1])) else None
  }

  /** How many threads wait in which way. */
  datatype Tally = Tally(popAsleep: nat, popWoken: nat, popLate: nat, pushAsleep: nat, pushWoken: nat, waking: nat)

  function TallyOf(at: map<Thread, Place>): Tally {
    Tally(|Those(at, KPopAsleep)|, |Those(at, KPopWoken)|, |Those(at, KPopLate)|,
          |Those(at, KPushAsleep)|, |Those(at, KPushWoken)|, |Those(at, KWaking)|)
  }

  function Add(n: Tally, k: Kind): Tally {
    match k
    case KPopAsleep => n.(popAsleep := n.popAsleep + 1)
    case KPopWoken => n.(popWoken := n.popWoken + 1)
    case KPopLate => n.(popLate := n.popLate + 1)
    case KPushAsleep => n.(pushAsleep := n.pushAsleep + 1)
    case KPushWoken => n.(pushWoken := n.pushWoken + 1)
    case KWaking => n.(waking := n.waking + 1)
  }

  /** Every item has a woken popper coming for it as long as any popper is still asleep; the same for free places. */
  predicate NoLostWakeup(q: View, n: Tally) {
    && (n.popAsleep > 0 ==> n.popWoken >= |q.items|)
    && (n.pushAsleep > 0 ==> q.maxlen > 0 && n.pushWoken >= q.maxlen - |q.items|)
  }

  predicate Sound(q: View, n: Tally) {
    && q.poppers == n.popAsleep + n.popWoken + n.popLate
    && q.pushers == n.pushAsleep + n.pushWoken
    && (q.active ==> NoLostWakeup(q, n))
    && (q.maxlen != 0 ==> |q.items| <= q.maxlen)
    && (!q.active && n.waking == 0 ==> n.popAsleep == 0 && n.pushAsleep == 0)
  }

  predicate Inv(s: State) {
    Sound(s.q, TallyOf(s.at)) && s.pushed == s.popped + s.q.items
  }

  function TallyAfterPush(n: Tally, r: Outcome): Tally {
    if r.Wait? then n.(pushAsleep := n.pushAsleep + 1)
    else if r.signal && n.popAsleep > 0 then n.(popAsleep := n.popAsleep - 1, popWoken := n.popWoken + 1)
    else n
  }

  function TallyAfterPop(n: Tally, r: Outcome): Tally {
    if r.Wait? then n.(popAsleep := n.popAsleep + 1)
    else if r.signal && n.pushAsleep > 0 then n.(pushAsleep := n.pushAsleep - 1, pushWoken := n.pushWoken + 1)
    else n
  }

  lemma PushSound(q: View, n: Tally, x: Pointer)
    requires Sound(q, n)
    ensures Sound(PushEnter(q, x).0, TallyAfterPush(n, PushEnter(q, x).1))
    ensures Sound(TryPush(q, x).0, TallyAfterPush(n, TryPush(q, x).1))
    ensures n.pushWoken > 0 ==>
      Sound(PushResume(q, x).0, TallyAfterPush(n.(pushWoken := n.pushWoken - 1), PushResume(q, x).1))
  {
  }

  lemma PopSound(q: View, n: Tally)
    requires Sound(q, n)
    ensures Sound(PopEnter(q).0, TallyAfterPop(n, PopEnter(q).1))
    ensures Sound(TryPop(q).0, TallyAfterPop(n, TryPop(q).1))
    ensures n.popWoken > 0 ==>
      Sound(PopResume(q, false).0, TallyAfterPop(n.(popWoken := n.popWoken - 1), PopResume(q, false).1))
    ensures n.popLate > 0 ==>
      Sound(PopResume(q, true).0, TallyAfterPop(n.(popLate := n.popLate - 1), PopResume(q, true).1))
  {
  }

  lemma ComesAs(at: map<Thread, Place>, t: Thread, p: Place, k: Kind)
    requires t !in at
    ensures |Those(at[t := p], k)| == |Those(at, k)| + if k == KindOf(p) then 1 else 0
  {
    assert Those(at[t := p], k) == if k == KindOf(p) then Those(at, k) + {t} else Those(at, k);
  }

  lemma Comes(at: map<Thread, Place>, t: Thread, p: Place)
    requires t !in at
    ensures TallyOf(at[t := p]) == Add(TallyOf(at), KindOf(p))
  {
    hide Those;
    forall k: Kind ensures |Those(at[t := p], k)| == |Those(at, k)| + if k == KindOf(p) then 1 else 0 {
      ComesAs(at, t, p, k);
    }
  }

  lemma Goes(at: map<Thread, Place>, t: Thread)
    requires t in at
    ensures TallyOf(at) == Add(TallyOf(at - {t}), KindOf(at[t]))
  {
    Comes(at - {t}, t, at[t]);
    assert (at - {t})[t := at[t]] == at;
  }

  lemma Moves(at: map<Thread, Place>, t: Thread, p: Place)
    requires t in at
    ensures Add(TallyOf(at), KindOf(p)) == Add(TallyOf(at[t := p]), KindOf(at[t]))
  {
    hide TallyOf;
    Goes(at, t);
    Comes(at - {t}, t, p);
    assert (at - {t})[t := p] == at[t := p];
  }

  /** A broadcast turns all sleepers into woken threads. */
  lemma Broadcasts(at: map<Thread, Place>)
    ensures var n := TallyOf(at);
      TallyOf(Broadcast(at)) == Tally(0, n.popAsleep + n.popWoken, n.popLate, 0, n.pushAsleep + n.pushWoken, n.waking)
  {
    BroadcastWakes(at, KPopAsleep, KPopWoken);
    BroadcastWakes(at, KPushAsleep, KPushWoken);
    BroadcastSpares(at, KPopLate);
    BroadcastSpares(at, KWaking);
    hide Those, Broadcast;
  }

  lemma BroadcastWakes(at: map<Thread, Place>, asleep: Kind, woken: Kind)
    requires (asleep == KPopAsleep && woken == KPopWoken) || (asleep == KPushAsleep && woken == KPushWoken)
    ensures |Those(Broadcast(at), asleep)| == 0
    ensures |Those(Broadcast(at), woken)| == |Those(at, asleep)| + |Those(at, woken)|
  {
    var to := Broadcast(at);
    forall t | t in to ensures KindOf(to[t]) != asleep { KindWoken(at, t, asleep, woken); }
    assert Those(to, asleep) == {};
    BroadcastJoins(at, asleep, woken);
    assert Those(at, asleep) !! Those(at, woken);
  }

  lemma KindWoken(at: map<Thread, Place>, t: Thread, asleep: Kind, woken: Kind)
    requires t in at && ((asleep == KPopAsleep && woken == KPopWoken) || (asleep == KPushAsleep && woken == KPushWoken))
    ensures KindOf(Woken(at[t])) != asleep
    ensures KindOf(Woken(at[t])) == woken <==> KindOf(at[t]) == asleep || KindOf(at[t]) == woken
  {
  }

  lemma BroadcastJoins(at: map<Thread, Place>, asleep: Kind, woken: Kind)
    requires (asleep == KPopAsleep && woken == KPopWoken) || (asleep == KPushAsleep && woken == KPushWoken)
    ensures Those(Broadcast(at), woken) == Those(at, asleep) + Those(at, woken)
  {
    var to := Broadcast(at);
    forall t ensures t in Those(to, woken) <==> t in Those(at, asleep) || t in Those(at, woken) {
      if t in at { KindWoken(at, t, asleep, woken); }
    }
  }

  lemma BroadcastSpares(at: map<Thread, Place>, k: Kind)
    requires k == KPopLate || k == KWaking
    ensures |Those(Broadcast(at), k)| == |Those(at, k)|
  {
    assert Those(Broadcast(at), k) == Those(at, k);
  }

  lemma PushTally(s: State, t: Thread, x: Pointer, r: (View, Outcome), w: Thread)
    requires t !in s.at && CanWake(s, KPopAsleep, w)
    ensures TallyOf(AfterPush(s, t, x, r, w).at) == TallyAfterPush(TallyOf(s.at), r.1)
  {
    hide TallyOf;
    TallyIs(s.at);
    if r.1.Wait? {
      Comes(s.at, t, PushAsleep(x));
    } else if w in Those(s.at, KPopAsleep) {
      Moves(s.at, w, PopWoken);
    }
  }

  lemma PopTally(s: State, t: Thread, r: (View, Outcome), w: Thread)
    requires t !in s.at && CanWake(s, KPushAsleep, w)
    ensures TallyOf(AfterPop(s, t, r, w).at) == TallyAfterPop(TallyOf(s.at), r.1)
  {
    hide TallyOf;
    TallyIs(s.at);
    if r.1.Wait? {
      Comes(s.at, t, PopAsleep);
    } else if w in Those(s.at, KPushAsleep) {
      Moves(s.at, w, PushWoken(s.at[w].x));
    }
  }

  lemma TallyIs(at: map<Thread, Place>)
    ensures TallyOf(at).popAsleep == |Those(at, KPopAsleep)| && TallyOf(at).pushAsleep == |Those(at, KPushAsleep)|
  {
  }

  lemma PushFifo(s: State, t: Thread, x: Pointer, r: (View, Outcome), w: Thread)
    requires s.pushed == s.popped + s.q.items
    requires r == PushEnter(s.q, x) || r == TryPush(s.q, x) || (s.q.pushers > 0 && r == PushResume(s.q, x))
    ensures AfterPush(s, t, x, r, w).pushed == AfterPush(s, t, x, r, w).popped + AfterPush(s, t, x, r, w).q.items
  {
  }

  lemma PopFifo(s: State, t: Thread, r: (View, Outcome), w: Thread, late: bool)
    requires s.pushed == s.popped + s.q.items
    requires r == PopEnter(s.q) || r == TryPop(s.q) || (s.q.poppers > 0 && r == PopResume(s.q, late))
    ensures AfterPop(s, t, r, w).pushed == AfterPop(s, t, r, w).popped + AfterPop(s, t, r, w).q.items
  {
  }

  lemma PushKeeps(s: State, t: Thread, x: Pointer, r: (View, Outcome), w: Thread)
    requires Inv(s) && t !in s.at && CanWake(s, KPopAsleep, w)
    requires r == PushEnter(s.q, x) || r == TryPush(s.q, x)
    ensures Inv(AfterPush(s, t, x, r, w))
  {
    hide Sound, TallyOf, PushEnter, TryPush, PushResume, CanWake;
    PushSound(s.q, TallyOf(s.at), x);
    PushTally(s, t, x, r, w);
    PushFifo(s, t, x, r, w);
  }

  lemma PopKeeps(s: State, t: Thread, r: (View, Outcome), w: Thread)
    requires Inv(s) && t !in s.at && CanWake(s, KPushAsleep, w)
    requires r == PopEnter(s.q) || r == TryPop(s.q)
    ensures Inv(AfterPop(s, t, r, w))
  {
    hide Sound, TallyOf, PopEnter, TryPop, PopResume, CanWake;
    PopSound(s.q, TallyOf(s.at));
    PopTally(s, t, r, w);
    PopFifo(s, t, r, w, false);
  }

  lemma LeftCanWake(s: State, t: Thread, k: Kind, w: Thread)
    requires t in s.at && KindOf(s.at[t]) != k && CanWake(s, k, w)
    ensures CanWake(Left(s, t), k, w)
  {
    assert Those(s.at - {t}, k) == Those(s.at, k);
  }

  lemma PushResumeKeeps(s: State, t: Thread, w: Thread)
    requires Inv(s) && Enabled(s, EPushResume(t, w))
    ensures Inv(Step(s, EPushResume(t, w)))
  {
    hide Sound, TallyOf, PushEnter, TryPush, PushResume, CanWake;
    var x := s.at[t].x;
    Goes(s.at, t);
    LeftCanWake(s, t, KPopAsleep, w);
    PushSound(s.q, TallyOf(s.at), x);
    PushTally(Left(s, t), t, x, PushResume(s.q, x), w);
    PushFifo(Left(s, t), t, x, PushResume(s.q, x), w);
    assert Step(s, EPushResume(t, w)).q == PushResume(s.q, x).0;
  }

  lemma PopResumeKeeps(s: State, t: Thread, w: Thread)
    requires Inv(s) && Enabled(s, EPopResume(t, w))
    ensures Inv(Step(s, EPopResume(t, w)))
  {
    hide Sound, TallyOf, PopEnter, TryPop, PopResume, CanWake;
    var late := s.at[t].PopLate?;
    Goes(s.at, t);
    LeftCanWake(s, t, KPushAsleep, w);
    PopSound(s.q, TallyOf(s.at));
    PopTally(Left(s, t), t, PopResume(s.q, late), w);
    PopFifo(Left(s, t), t, PopResume(s.q, late), w, late);
    assert Step(s, EPopResume(t, w)).q == PopResume(s.q, late).0;
  }

  lemma WaitersKeep(s: State, e: Event)
    requires Inv(s) && Enabled(s, e) && (e.ETimeout? || e.ESpurious? || e.ETerm? || e.EWake?)
    ensures Inv(Step(s, e))
  {
    hide TallyOf;
    match e
    case ETimeout(t) => Moves(s.at, t, PopLate);
    case ESpurious(t) => Moves(s.at, t, Woken(s.at[t]));
    case ETerm(t) => Comes(s.at, t, Waking);
    case EWake(t) =>
      Broadcasts(s.at - {t});
      if t in s.at { Goes(s.at, t); } else { assert s.at - {t} == s.at; }
  }

  lemma StepKeeps(s: State, e: Event)
    requires Inv(s) && Enabled(s, e)
    ensures Inv(Step(s, e))
  {
    hide Inv, AfterPush, AfterPop, CanWake;
    match e
    case EPushEnter(t, x, w) => PushKeeps(s, t, x, PushEnter(s.q, x), w);
    case EPushResume(t, w) => PushResumeKeeps(s, t, w);
    case ETryPush(t, x, w) => PushKeeps(s, t, x, TryPush(s.q, x), w);
    case EPopEnter(t, w) => PopKeeps(s, t, PopEnter(s.q), w);
    case EPopResume(t, w) => PopResumeKeeps(s, t, w);
    case ETryPop(t, w) => PopKeeps(s, t, TryPop(s.q), w);
    case ETimeout(_) => WaitersKeep(s, e);
    case ESpurious(_) => WaitersKeep(s, e);
    case ETerm(_) => WaitersKeep(s, e);
    case EWake(_) => WaitersKeep(s, e);
  }

  lemma StepFixes(s: State, e: Event)
    requires Enabled(s, e)
    ensures Step(s, e).q.maxlen == s.q.maxlen && (Step(s, e).q.active ==> s.q.active)
  {
  }

  /** In every interleaving of any number of threads. */
  lemma {:induction false} RunKeeps(maxlen: nat, events: seq<Event>)
    ensures Run(maxlen, events).Some? ==> Inv(Run(maxlen, events).value) && Run(maxlen, events).value.q.maxlen == maxlen
  {
    if events != [] {
      hide Step, Enabled, Inv;
      RunKeeps(maxlen, events[..|events| - 1]);
      var r := Run(maxlen, events[..|events| - 1]);
      if r.Some? && Enabled(r.value, events[|events| - 1]) {
        StepKeeps(r.value, events[|events| - 1]);
        StepFixes(r.value, events[|events| - 1]);
      }
    }
  }

  /** The safety of the queue on every run. While it is active no wakeup is lost: with no thread on its way, a popper sleeps
      only at an empty queue and a pusher only at a full one. What came out is the beginning of what went in, and the
      bound holds. */
  lemma QueueIsSafe(maxlen: nat, events: seq<Event>)
    requires Run(maxlen, events).Some?
    ensures var s := Run(maxlen, events).value;
      && s.popped <= s.pushed && s.q.items == s.pushed[|s.popped|..]
      && (maxlen != 0 ==> |s.q.items| <= maxlen)
      && (s.q.active && Those(s.at, KPopAsleep) != {} ==> |Those(s.at, KPopWoken)| >= |s.q.items|)
      && (s.q.active && Those(s.at, KPushAsleep) != {} ==> maxlen > 0 && |Those(s.at, KPushWoken)| >= maxlen - |s.q.items|)
      && s.q.poppers == |Those(s.at, KPopAsleep)| + |Those(s.at, KPopWoken)| + |Those(s.at, KPopLate)|
      && s.q.pushers == |Those(s.at, KPushAsleep)| + |Those(s.at, KPushWoken)|
  {
    RunKeeps(maxlen, events);
  }

  /** Once ks_q_term has broadcast, nobody sleeps any more. */
  lemma NobodySleepsAfterTerm(maxlen: nat, events: seq<Event>)
    requires Run(maxlen, events).Some?
    requires !Run(maxlen, events).value.q.active && Those(Run(maxlen, events).value.at, KWaking) == {}
    ensures forall t | t in Run(maxlen, events).value.at ::
              Run(maxlen, events).value.at[t].PopWoken? || Run(maxlen, events).value.at[t].PopLate?
              || Run(maxlen, events).value.at[t].PushWoken?
  {
    RunKeeps(maxlen, events);
    var at := Run(maxlen, events).value.at;
    forall t | t in at ensures at[t].PopWoken? || at[t].PopLate? || at[t].PushWoken? {
      assert t in Those(at, KindOf(at[t]));
    }
  }

  /** Later steps neither reopen a terminated queue, nor move its items, nor add a thread that still has to broadcast. */
  lemma TermIsFinal(s: State, e: Event)
    requires Enabled(s, e) && !s.q.active
    ensures !Step(s, e).q.active && Step(s, e).q.items == s.q.items && Those(Step(s, e).at, KWaking) <= Those(s.at, KWaking)
  {
  }

  lemma SomeWaker(s: State, k: Kind) returns (w: Thread)
    ensures CanWake(s, k, w)
  {
    if Those(s.at, k) == {} { w := 0; } else { w :| w in Those(s.at, k); }
  }

  /** A woken or late thread is never stuck: its second section can run, whoever is asleep. */
  lemma WokenCanGoOn(s: State, t: Thread)
    requires Inv(s)
    ensures t in Those(s.at, KPushWoken) ==> exists w :: Enabled(s, EPushResume(t, w))
    ensures t in Those(s.at, KPopWoken) || t in Those(s.at, KPopLate) ==> exists w :: Enabled(s, EPopResume(t, w))
  {
    if t in s.at { Goes(s.at, t); }
    var v := SomeWaker(s, KPopAsleep);
    var w := SomeWaker(s, KPushAsleep);
    assert t in Those(s.at, KPushWoken) ==> Enabled(s, EPushResume(t, v));
    assert t in Those(s.at, KPopWoken) || t in Those(s.at, KPopLate) ==> Enabled(s, EPopResume(t, w));
  }

  // ----- what the calls answer

  /** When each pop succeeds, and with which item: the oldest. */
  lemma PopsAnswer(v: View, timedOut: bool)
    ensures var (n, o) := TryPop(v);
      && (o.status == Success <==> v.active && v.items != [])
      && (v.active && v.items != [] ==> o == Return(Success, Some(v.items[0]), v.pushers > 0) && n == v.(items := v.items[1..]))
      && (o.status != Success ==> n == v)
      && (o == Return(Break, None, false) <==> v.active && v.items == []) && (o == Return(Inactive, None, false) <==> !v.active)
    ensures var (n, o) := PopEnter(v);
      && (o == Wait <==> v.active && v.items == []) && (o != Wait ==> (n, o) == TryPop(v))
      && (o == Wait ==> n == v.(poppers := v.poppers + 1))
    ensures v.poppers > 0 ==> var w := v.(poppers := v.poppers - 1); var (n, o) := PopResume(v, timedOut);
      if timedOut then n == w && o == Return(Timeout, None, false)
      else if v.active || v.items == [] then (n, o) == TryPop(w)
      else n == w && o == Return(Inactive, None, w.pushers > 0)
  {
  }

  /** When each push succeeds: the item comes last. */
  lemma PushesAnswer(v: View, x: Pointer)
    ensures var (n, o) := TryPush(v, x);
      && (o == Return(Success, None, v.poppers > 0) <==> v.active && (v.maxlen == 0 || |v.items| != v.maxlen))
      && n == (if o.status == Success then v.(items := v.items + [x]) else v)
      && (o == Return(Break, None, false) <==> v.active && v.maxlen != 0 && |v.items| == v.maxlen)
      && (o == Return(Inactive, None, false) <==> !v.active)
    ensures var (n, o) := PushEnter(v, x);
      && (o == Wait <==> v.active && v.maxlen != 0 && |v.items| == v.maxlen) && (o != Wait ==> (n, o) == TryPush(v, x))
      && (o == Wait ==> n == v.(pushers := v.pushers + 1))
    ensures v.pushers > 0 ==> var w := v.(pushers := v.pushers - 1); var (n, o) := PushResume(v, x);
      if v.active then (n, o) == TryPush(w, x) else n == w && o.Return? && o.status == Inactive && o.got == None
  {
  }

  /** The calls that can take an item; late is a wait that timed out. */
  predicate Pops(s: State, e: Event, t: Thread) {
    match e
    case EPopEnter(u, _) => u == t
    case EPopResume(u, _) => u == t && t in s.at && s.at[t] == PopWoken
    case ETryPop(u, _) => u == t
    case _ => false
  }

  /** The calls that can put x in. */
  predicate Pushes(s: State, e: Event, t: Thread, x: Pointer) {
    match e
    case EPushEnter(u, y, _) => u == t && x == y
    case EPushResume(u, _) => u == t && t in s.at && s.at[t] == PushWoken(x)
    case ETryPush(u, y, _) => u == t && x == y
    case _ => false
  }

  /** On every run: as long as the queue is active, a pop that finds an item takes the oldest that was put in and not taken out,
      and a push that finds room puts its item behind all others. */
  lemma CallsSucceed(maxlen: nat, events: seq<Event>, e: Event, t: Thread, x: Pointer)
    requires Run(maxlen, events).Some? && Enabled(Run(maxlen, events).value, e) && Run(maxlen, events).value.q.active
    ensures var s := Run(maxlen, events).value; var n := Step(s, e);
      && (Pops(s, e, t) && s.q.items != [] ==>
            |s.popped| < |s.pushed| && n.popped == s.popped + [s.pushed[|s.popped|]] && n.pushed == s.pushed
            && n.q.items == s.q.items[1..] && t !in n.at)
      && (Pushes(s, e, t, x) && (maxlen == 0 || |s.q.items| < maxlen) ==>
            n.pushed == s.pushed + [x] && n.popped == s.popped && n.q.items == s.q.items + [x] && t !in n.at)
  {
    RunKeeps(maxlen, events);
    var s := Run(maxlen, events).value;
    assert s.q.items != [] ==> s.q.items[0] == s.pushed[|s.popped|];
  }

  /** Nor do they do anything else: an empty queue lets a popper fall asleep or turns it away, a full one a pusher, and a wait
      that timed out takes nothing. */
  lemma CallsFail(s: State, e: Event, t: Thread, x: Pointer)
    requires Enabled(s, e) && s.q.active
    ensures s.q.items == [] ==>
      && (e.ETryPop? ==> Step(s, e) == s)
      && (e.EPopEnter? ==> Step(s, e) == s.(q := s.q.(poppers := s.q.poppers + 1), at := s.at[e.t := PopAsleep]))
    ensures Full(s.q) ==>
      && (e.ETryPush? ==> Step(s, e) == s)
      && (e.EPushEnter? ==> Step(s, e) == s.(q := s.q.(pushers := s.q.pushers + 1), at := s.at[e.t := PushAsleep(e.x)]))
    ensures e.EPopResume? && s.at[e.t] == PopLate ==>
      Step(s, e) == s.(q := s.q.(poppers := s.q.poppers - 1), at := s.at - {e.t})
  {
  }
}
