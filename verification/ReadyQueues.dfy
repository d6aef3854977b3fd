/** The state of the multi-level feedback queue scheduler as a value, what each operation makes of
    it, and what every run keeps: the queues stay in order, and each of them is served in the order
    of arrival. */
module ReadyQueues {
  import opened FixedPoint
  import opened Sequences

  const NUM_QUEUES: nat := 64

  datatype Status = Running | Ready | Blocked | Dying

  /** struct thread, as far as scheduling goes.  `level` is the queue that the thread's
      priority_elem is linked into while the thread is ready. */
  class Thread {
    const base: int
    var priority: int
    var nice: int
    var recentCpu: int
    var status: Status
    var level: int

    constructor (base: int, priority: int, nice: int, recentCpu: int)
      ensures this.base == base && this.priority == priority && this.nice == nice && this.recentCpu == recentCpu
      ensures status == Blocked && level == 0
    {
      this.base, this.priority, this.nice, this.recentCpu := base, priority, nice, recentCpu;
      status, level := Blocked, 0;
    }
  }

  /** The fields of a thread that change. */
  datatype Info = Info(priority: int, nice: int, recentCpu: int, status: Status, level: int)

  datatype State = State(
    idle: Thread, current: Thread, all: seq<Thread>, ready: seq<Thread>, levels: seq<seq<Thread>>, highest: int,
    loadAvg: int, ticks: nat, info: map<Thread, Info>)

  // ----- Invariants -----

  ghost predicate ThreadsOk(s: State) {
    && NoDup(s.all) && s.idle in s.all
    && (forall t :: t in s.info ==> t in s.all) && (forall t :: t in s.all ==> t in s.info)
    && (forall t :: t in s.info ==>
          && PRI_MIN <= s.info[t].priority <= PRI_MAX && NICE_MIN <= s.info[t].nice <= NICE_MAX
          && s.info[t].status != Dying)
  }

  /** The ready threads, except the idle thread, are the ones in the ready list. */
  ghost predicate ReadyOk(s: State) {
    && NoDup(s.ready)
    && (forall t :: t in s.ready ==> t in s.info && t != s.idle && s.info[t].status == Ready)
    && (forall t :: t in s.info && t != s.idle && s.info[t].status == Ready ==> t in s.ready)
  }

  /** Each thread in the ready list is in one queue, no higher than `highest`. */
  ghost predicate LevelsOk(s: State) {
    && |s.levels| == NUM_QUEUES && PRI_MIN <= s.highest <= PRI_MAX
    && (forall l :: 0 <= l < NUM_QUEUES ==> NoDup(s.levels[l]))
    && (forall t :: t in s.ready ==> t in s.info && 0 <= s.info[t].level <= s.highest && t in s.levels[s.info[t].level])
    && (forall l, t :: 0 <= l < NUM_QUEUES && t in s.levels[l] ==> t in s.ready && t in s.info && s.info[t].level == l)
  }

  ghost predicate Queued(s: State) { ThreadsOk(s) && ReadyOk(s) && LevelsOk(s) }

  ghost predicate Runs(s: State) {
    s.current in s.info && forall t :: t in s.info ==> (s.info[t].status == Running <==> t == s.current)
  }

  ghost predicate NoneRuns(s: State) { forall t :: t in s.info ==> s.info[t].status != Running }

  ghost predicate Ok(s: State) { Queued(s) && Runs(s) }

  /** Every ready thread is in the queue of its priority. */
  ghost predicate Matched(s: State) {
    forall t :: t in s.ready ==> t in s.info && s.info[t].level == s.info[t].priority
  }

  /** The bounds on load_avg and recent_cpu, `j` ticks after the last update, if at most `n` threads
      are ever ready. */
  ghost predicate NumericAt(s: State, n: nat, j: nat) {
    LoadOk(s.loadAvg, n) && forall t :: t in s.info && t != s.idle ==> RecentOk(s.info[t].recentCpu, n, j)
  }

  ghost predicate Numeric(s: State, n: nat) { NumericAt(s, n, s.ticks % TIMER_FREQ) }

  // ----- What the operations do -----

  function BaseOf(t: Thread): int { t.base }

  /** The ready list once list_insert_ordered has put a thread into it. */
  function InsertOrdered(s: seq<Thread>, t: Thread): seq<Thread> {
    s[..Place(s, BaseOf, t)] + [t] + s[Place(s, BaseOf, t)..]
  }

  function Of(s: State, t: Thread): Info { if t in s.info then s.info[t] else Info(0, 0, 0, Blocked, 0) }

  function With(s: State, t: Thread, i: Info): State { s.(info := s.info[t := i]) }

  function WithStatus(s: State, t: Thread, status: Status): State { With(s, t, Of(s, t).(status := status)) }

  function Max(x: int, y: int): int { if x < y then y else x }

  /** list_push_back */
  function Enqueue(levels: seq<seq<Thread>>, l: int, t: Thread): seq<seq<Thread>> {
    if 0 <= l < |levels| then levels[l := levels[l] + [t]] else levels
  }

  /** list_remove */
  function Unlink(levels: seq<seq<Thread>>, l: int, t: Thread): seq<seq<Thread>> {
    if 0 <= l < |levels| then levels[l := Without(levels[l], t)] else levels
  }

  /** The end of thread_unblock, and the middle of thread_yield: the thread goes to the end of the
      queue of its priority. */
  function Pushed(s: State, t: Thread): State {
    var p := Of(s, t).priority;
    With(s, t, Of(s, t).(status := Ready, level := p)).(
      ready := InsertOrdered(s.ready, t), levels := Enqueue(s.levels, p, t), highest := Max(s.highest, p))
  }

  /** The highest queue below `h` that is not empty; -1 if there is none. */
  function Top(levels: seq<seq<Thread>>, h: nat): (l: int)
    requires h <= |levels|
    ensures -1 <= l < h && (l >= 0 ==> levels[l] != []) && forall k :: l < k < h ==> levels[k] == []
  {
    if h == 0 then -1 else if levels[h - 1] != [] then h - 1 else Top(levels, h - 1)
  }

  /** next_thread_to_run: the first thread of the highest queue that is not empty; the idle thread if
      all are empty. */
  function Chosen(s: State): Thread {
    var l := Top(s.levels, |s.levels|);
    if l < 0 then s.idle else s.levels[l][0]
  }

  /** schedule: that thread leaves its queue and runs. */
  function Picked(s: State): State {
    var l, t := Top(s.levels, |s.levels|), Chosen(s);
    WithStatus(s, t, Running).(
      current := t, ready := if l < 0 then s.ready else Without(s.ready, t),
      levels := if l < 0 then s.levels else s.levels[l := s.levels[l][1..]])
  }

  /** thread_block */
  function Blocks(s: State): State { Picked(WithStatus(s, s.current, Blocked)) }

  /** thread_yield up to schedule. */
  function GivenUp(s: State): State {
    if s.current != s.idle then Pushed(s, s.current) else WithStatus(s, s.idle, Ready)
  }

  function Yields(s: State): State { Picked(GivenUp(s)) }

  /** thread_exit up to schedule. */
  function Gone(s: State): State { s.(all := Without(s.all, s.current), info := s.info - {s.current}) }

  /** update_priority: a ready thread whose priority changes goes to the end of the queue of its new
      priority. */
  function Reranked(s: State, t: Thread): State {
    if t == s.idle then s
    else
      var i := Of(s, t);
      var p := NewPriority(i.recentCpu, i.nice);
      (if p != i.priority && i.status == Ready
       then With(s, t, i.(priority := p, level := p)).(levels := Enqueue(Unlink(s.levels, i.level, t), p, t))
       else With(s, t, i.(priority := p))).(highest := Max(s.highest, p))
  }

  /** update_priority for the first `k` threads. */
  ghost function RerankedAll(s: State, k: nat): State
    requires k <= |s.all|
  {
    if k == 0 then s else Reranked(RerankedAll(s, k - 1), s.all[k - 1])
  }

  /** thread_set_nice up to thread_yield. */
  function Nicer(s: State, nice: int): State {
    var s' := With(s, s.current, Of(s, s.current).(nice := nice));
    if s.current != s.idle then Reranked(s', s.current) else s'
  }

  function NiceSet(s: State, nice: int): State {
    var s' := Nicer(s, nice);
    if Of(s', s'.current).priority < s'.highest then Yields(s') else s'
  }

  /** thread_create up to thread_unblock: the new thread inherits nice and recent_cpu.  The priority
      that init_thread computes for it only raises `highest`; the one it is given stands. */
  function Added(s: State, t: Thread, priority: int): State {
    var i := Of(s, s.current);
    With(s, t, Info(priority, i.nice, i.recentCpu, Blocked, 0)).(
      all := s.all + [t], highest := Max(s.highest, NewPriority(i.recentCpu, i.nice)))
  }

  function Created(s: State, t: Thread, priority: int): State {
    var s' := Pushed(Added(s, t, priority), t);
    if t.base > s'.current.base then Yields(s') else s'
  }

  /** What lock_acquire and lock_release do to a priority: the queues are left alone. */
  function Donated(s: State, t: Thread, priority: int): State { With(s, t, Of(s, t).(priority := priority)) }

  /** count_ready_threads */
  function ReadyCnt(s: State): nat { |s.ready| + if s.current != s.idle then 1 else 0 }

  /** The running thread is charged for a tick. */
  function Charged(s: State): State {
    var i := Of(s, s.current);
    var s' := if s.current != s.idle then With(s, s.current, i.(recentCpu := AddInt(i.recentCpu, 1))) else s;
    s'.(ticks := s.ticks + 1)
  }

  /** update_recent_cpu for one thread. */
  function Decayed(i: Info, loadAvg: int): Info {
    if loadAvg >= 0 then i.(recentCpu := NewRecentCpu(i.recentCpu, i.nice, loadAvg)) else i
  }

  /** update_load_avg, and update_recent_cpu for every thread. */
  ghost function Second(s: State): State {
    var loadAvg := NewLoadAvg(s.loadAvg, ReadyCnt(s));
    s.(loadAvg := loadAvg,
       info := map t | t in s.info :: if t == s.idle then s.info[t] else Decayed(s.info[t], loadAvg))
  }

  /** timer_interrupt and thread_tick. */
  ghost function Ticked(s: State): State {
    var a := Charged(s);
    var b := if a.ticks % TIMER_FREQ == 0 then Second(a) else a;
    if a.ticks % 4 == 0 then RerankedAll(b, |b.all|) else b
  }

  /** What happens to the scheduler.  Threads are named by their place in the list of all threads. */
  datatype Event =
    | Tick
    | Yield
    | Block
    | Unblock(i: nat)
    | Create(priority: int)
    | Exit
    | Nice(nice: int)
    | Donate(i: nat, priority: int)

  /** One event; `t` is the thread that a create makes.  Events that cannot happen in the state do
      nothing. */
  ghost function Next(s: State, e: Event, t: Thread): State {
    match e
    case Tick => Ticked(s)
    case Yield => Yields(s)
    case Block => Blocks(s)
    case Unblock(i) =>
      if i < |s.all| && s.all[i] != s.idle && Of(s, s.all[i]).status == Blocked then Pushed(s, s.all[i]) else s
    case Create(priority) =>
      if s.current != s.idle && PRI_MIN <= priority <= PRI_MAX then Created(s, t, priority) else s
    case Exit => if s.current != s.idle then Picked(Gone(s)) else s
    case Nice(nice) => if NICE_MIN <= nice <= NICE_MAX then NiceSet(s, nice) else s
    case Donate(i, priority) =>
      if i < |s.all| && PRI_MIN <= priority <= PRI_MAX then Donated(s, s.all[i], priority) else s
  }

  /** The thread that a create makes, if it can happen, is a new one. */
  ghost predicate Fits(s: State, e: Event, t: Thread) {
    e.Create? && s.current != s.idle && PRI_MIN <= e.priority <= PRI_MAX ==> t !in s.info && t.base == e.priority
  }

  /** A run: the states between the events, and the threads that creates make. */
  ghost predicate IsRun(ss: seq<State>, events: seq<Event>, news: seq<Thread>) {
    && |ss| == |events| + 1 && |news| == |events|
    && forall k :: 0 <= k < |events| ==>
         && Fits(ss[k], events[k], news[k])
         && ss[k + 1] == Next(ss[k], events[k], news[k])
  }

  // ----- Every operation keeps the queues in order -----

  lemma InsertIs(s: seq<Thread>, t: Thread)
    requires NoDup(s) && t !in s
    ensures NoDup(InsertOrdered(s, t)) && t in InsertOrdered(s, t)
    ensures forall x :: x in InsertOrdered(s, t) ==> x in s || x == t
    ensures forall x :: x in s ==> x in InsertOrdered(s, t)
  {
    hide Place;
    var i := Place(s, BaseOf, t);
    assert s == s[..i] + s[i..];
  }

  lemma Absent(s: State, t: Thread)
    requires Queued(s) && (t in s.info ==> s.info[t].status != Ready)
    ensures t !in s.ready && forall l :: 0 <= l < NUM_QUEUES ==> t !in s.levels[l]
  {
  }

  lemma PushedOk(s: State, t: Thread)
    requires Queued(s) && t in s.info && t != s.idle && s.info[t].status != Ready
    ensures Queued(Pushed(s, t)) && (Matched(s) ==> Matched(Pushed(s, t)))
    ensures Runs(s) && t != s.current ==> Runs(Pushed(s, t))
    ensures Runs(s) && t == s.current ==> NoneRuns(Pushed(s, t))
  {
    hide NoDup, InsertOrdered, LevelsOk;
    Absent(s, t);
    InsertIs(s.ready, t);
    PushedLevels(s, t);
  }

  lemma PushedLevels(s: State, t: Thread)
    requires LevelsOk(s) && NoDup(s.ready) && t in s.info && t !in s.ready && PRI_MIN <= s.info[t].priority <= PRI_MAX
    requires forall l :: 0 <= l < NUM_QUEUES ==> t !in s.levels[l]
    ensures LevelsOk(Pushed(s, t))
  {
    hide NoDup, InsertOrdered;
    InsertIs(s.ready, t);
    var p := s.info[t].priority;
    PushIs(s.levels[p], t);
    var s' := Pushed(s, t);
    forall x | x in s'.ready
      ensures x in s'.info && 0 <= s'.info[x].level <= s'.highest && x in s'.levels[s'.info[x].level]
    {
      if x != t { assert x in s.ready && x in s.levels[s.info[x].level]; }
    }
    forall l, x | 0 <= l < NUM_QUEUES && x in s'.levels[l]
      ensures x in s'.ready && x in s'.info && s'.info[x].level == l
    {
      if x != t { assert x in s.levels[l]; }
    }
  }

  /** The chosen thread is the first of the highest queue that is not empty; without donation none
      that is ready has a higher priority. */
  lemma ChosenIs(s: State)
    requires Queued(s)
    ensures s.ready == [] <==> Top(s.levels, |s.levels|) < 0
    ensures s.ready == [] ==> Chosen(s) == s.idle
    ensures s.ready != [] ==>
      && Chosen(s) in s.ready && Chosen(s) in s.info && 0 <= s.info[Chosen(s)].level < |s.levels|
      && s.info[Chosen(s)].level == Top(s.levels, |s.levels|)
      && s.levels[s.info[Chosen(s)].level] != [] && Chosen(s) == s.levels[s.info[Chosen(s)].level][0]
    ensures forall t :: t in s.ready ==> t in s.info && s.info[t].level <= Top(s.levels, |s.levels|)
    ensures Matched(s) && s.ready != [] ==>
      forall t :: t in s.ready ==> s.info[t].priority <= s.info[Chosen(s)].priority <= s.highest
  {
    hide NoDup, Top;
    var l := Top(s.levels, |s.levels|);
    if l >= 0 {
      assert s.levels[l][0] in s.levels[l];
      assert s.levels[l][0] in s.ready;
    }
    forall t | t in s.ready
      ensures s.info[t].level <= l
    {
      assert t in s.levels[s.info[t].level];
    }
    if s.ready != [] { assert s.ready[0] in s.ready; }
  }

  lemma PickedOk(s: State)
    requires Queued(s) && NoneRuns(s)
    ensures Ok(Picked(s)) && Picked(s).current == Chosen(s) && (Matched(s) ==> Matched(Picked(s)))
  {
    hide NoDup, Top, Without, Chosen, LevelsOk;
    ChosenIs(s);
    HighestIs(s);
    var l, t := Top(s.levels, |s.levels|), Chosen(s);
    if l >= 0 {
      WithoutIs(s.ready, t);
      PickedLevels(s, l);
    } else {
      SameLevels(s, Picked(s));
    }
  }

  lemma SameLevels(s: State, s': State)
    requires LevelsOk(s) && s'.levels == s.levels && s'.ready == s.ready && s.highest <= s'.highest <= PRI_MAX
    requires forall t :: t in s.ready ==> t in s.info && t in s'.info && s'.info[t].level == s.info[t].level
    ensures LevelsOk(s')
  {
    hide NoDup;
  }

  lemma PickedLevels(s: State, l: nat)
    requires LevelsOk(s) && NoDup(s.ready) && l == Top(s.levels, |s.levels|) && Chosen(s) in s.info
    ensures LevelsOk(Picked(s))
  {
    hide Without, Top, NoDup;
    var t, q := Chosen(s), s.levels[l];
    WithoutIs(s.ready, t);
    TailIs(q);
    var s' := Picked(s);
    forall x | x in s'.ready
      ensures x in s'.info && 0 <= s'.info[x].level <= s'.highest && x in s'.levels[s'.info[x].level]
    {
      assert x in s.ready && x != t && x in s.levels[s.info[x].level];
    }
    forall k, x | 0 <= k < NUM_QUEUES && x in s'.levels[k]
      ensures x in s'.ready && x in s'.info && s'.info[x].level == k
    {
      assert x in s.levels[k] && t in s.levels[l];
    }
  }

  lemma TailIs(q: seq<Thread>)
    requires NoDup(q) && q != []
    ensures NoDup(q[1..]) && (forall x :: x in q[1..] ==> x in q && x != q[0])
    ensures forall x :: x in q ==> x in q[1..] || x == q[0]
  {
    assert q == [q[0]] + q[1..];
  }

  lemma StoppedOk(s: State, status: Status)
    requires Ok(s) && (status == Blocked || (status == Ready && s.current == s.idle))
    ensures Queued(WithStatus(s, s.current, status)) && NoneRuns(WithStatus(s, s.current, status))
    ensures Matched(s) ==> Matched(WithStatus(s, s.current, status))
  {
    hide NoDup, LevelsOk;
    Absent(s, s.current);
    HighestIs(s);
    SameLevels(s, WithStatus(s, s.current, status));
  }

  lemma GivenUpOk(s: State)
    requires Ok(s)
    ensures Queued(GivenUp(s)) && NoneRuns(GivenUp(s)) && (Matched(s) ==> Matched(GivenUp(s)))
  {
    hide Queued, Runs, NoneRuns, Matched;
    if s.current != s.idle { PushCurrent(s); } else { StoppedOk(s, Ready); }
  }

  lemma PushCurrent(s: State)
    requires Ok(s) && s.current != s.idle
    ensures Queued(Pushed(s, s.current)) && NoneRuns(Pushed(s, s.current))
    ensures Matched(s) ==> Matched(Pushed(s, s.current))
  {
    hide Queued, Matched, Pushed;
    PushedOk(s, s.current);
  }

  lemma YieldsOk(s: State)
    requires Ok(s)
    ensures Ok(Yields(s)) && (Matched(s) ==> Matched(Yields(s)))
  {
    hide Queued, Runs, NoneRuns, Matched, GivenUp, Picked;
    GivenUpOk(s);
    PickedOk(GivenUp(s));
  }

  lemma BlocksOk(s: State)
    requires Ok(s)
    ensures Ok(Blocks(s)) && (Matched(s) ==> Matched(Blocks(s)))
  {
    hide Queued, Runs, NoneRuns, Matched, WithStatus, Picked;
    StoppedOk(s, Blocked);
    PickedOk(WithStatus(s, s.current, Blocked));
  }

  lemma GoneOk(s: State)
    requires Ok(s) && s.current != s.idle
    ensures Queued(Gone(s)) && NoneRuns(Gone(s)) && (Matched(s) ==> Matched(Gone(s)))
  {
    hide NoDup, Without, LevelsOk;
    Absent(s, s.current);
    HighestIs(s);
    WithoutIs(s.all, s.current);
    SameLevels(s, Gone(s));
  }

  lemma ExitOk(s: State)
    requires Ok(s) && s.current != s.idle
    ensures Ok(Picked(Gone(s))) && (Matched(s) ==> Matched(Picked(Gone(s))))
  {
    hide Queued, Runs, NoneRuns, Matched, Gone, Picked;
    GoneOk(s);
    PickedOk(Gone(s));
  }

  /** A ready thread's place in the queues moves to the end of another queue, or of the same. */
  lemma Requeued(levels: seq<seq<Thread>>, from: int, to: int, t: Thread)
    requires 0 <= from < |levels| && 0 <= to < |levels|
    requires forall l :: 0 <= l < |levels| ==> NoDup(levels[l]) && (t in levels[l] <==> l == from)
    ensures
      var r := Enqueue(Unlink(levels, from, t), to, t);
      && |r| == |levels|
      && (forall l :: 0 <= l < |r| ==> NoDup(r[l]) && (t in r[l] <==> l == to))
      && (forall l, x :: 0 <= l < |r| && x in r[l] && x != t ==> x in levels[l])
      && (forall l, x :: 0 <= l < |r| && x in levels[l] && x != t ==> x in r[l])
  {
    hide NoDup, Without;
    WithoutIs(levels[from], t);
    var u := Unlink(levels, from, t);
    PushIs(u[to], t);
  }

  lemma RerankedOk(s: State, t: Thread)
    requires Queued(s) && t in s.info
    ensures Queued(Reranked(s, t)) && (Matched(s) ==> Matched(Reranked(s, t))) && (Runs(s) ==> Runs(Reranked(s, t)))
    ensures Reranked(s, t).all == s.all && Reranked(s, t).idle == s.idle && Reranked(s, t).current == s.current
  {
    hide NoDup, Unlink, Enqueue, LevelsOk, NewPriority;
    if t != s.idle {
      var i := s.info[t];
      var p := NewPriority(i.recentCpu, i.nice);
      HighestIs(s);
      if p != i.priority && i.status == Ready {
        RerankedLevels(s, t);
      } else {
        SameLevels(s, Reranked(s, t));
      }
    }
  }

  lemma RerankedLevels(s: State, t: Thread)
    requires LevelsOk(s) && t in s.ready && t in s.info && t != s.idle && s.info[t].status == Ready
    requires NewPriority(s.info[t].recentCpu, s.info[t].nice) != s.info[t].priority
    ensures LevelsOk(Reranked(s, t))
  {
    hide NoDup, Unlink, Enqueue;
    var i := s.info[t];
    var p := NewPriority(i.recentCpu, i.nice);
    Requeued(s.levels, i.level, p, t);
    var s' := Reranked(s, t);
    forall x | x in s'.ready
      ensures x in s'.info && 0 <= s'.info[x].level <= s'.highest && x in s'.levels[s'.info[x].level]
    {
      if x != t { assert x in s.levels[s.info[x].level]; }
    }
    forall k, x | 0 <= k < NUM_QUEUES && x in s'.levels[k]
      ensures x in s'.ready && x in s'.info && s'.info[x].level == k
    {
      if x != t { assert x in s.levels[k]; }
    }
  }

  lemma {:induction false} RerankedAllOk(s: State, k: nat)
    requires Ok(s) && k <= |s.all|
    ensures Ok(RerankedAll(s, k)) && (Matched(s) ==> Matched(RerankedAll(s, k)))
    ensures RerankedAll(s, k).all == s.all && RerankedAll(s, k).idle == s.idle && RerankedAll(s, k).current == s.current
  {
    hide Queued, Runs, Matched, Reranked;
    if k > 0 {
      RerankedAllOk(s, k - 1);
      InAll(RerankedAll(s, k - 1), s.all[k - 1]);
      RerankedOk(RerankedAll(s, k - 1), s.all[k - 1]);
    }
  }

  lemma InAll(s: State, t: Thread)
    requires Queued(s) && t in s.all
    ensures t in s.info
  {
  }

  lemma NicerOk(s: State, nice: int)
    requires Ok(s) && NICE_MIN <= nice <= NICE_MAX
    ensures Ok(Nicer(s, nice)) && (Matched(s) ==> Matched(Nicer(s, nice)))
  {
    hide Queued, Matched, Reranked;
    NiceOnlyOk(s, nice);
    var s' := With(s, s.current, Of(s, s.current).(nice := nice));
    RerankedOk(s', s.current);
  }

  lemma NiceOnlyOk(s: State, nice: int)
    requires Ok(s) && NICE_MIN <= nice <= NICE_MAX
    ensures
      var s' := With(s, s.current, Of(s, s.current).(nice := nice));
      Ok(s') && (Matched(s) ==> Matched(s'))
  {
    hide NoDup, LevelsOk;
    HighestIs(s);
    SameLevels(s, With(s, s.current, Of(s, s.current).(nice := nice)));
  }

  lemma NiceSetOk(s: State, nice: int)
    requires Ok(s) && NICE_MIN <= nice <= NICE_MAX
    ensures Ok(NiceSet(s, nice)) && (Matched(s) ==> Matched(NiceSet(s, nice)))
  {
    hide Queued, Runs, Matched, Nicer, Yields;
    NicerOk(s, nice);
    YieldsOk(Nicer(s, nice));
  }

  lemma AddedOk(s: State, t: Thread, priority: int)
    requires Ok(s) && t !in s.info && PRI_MIN <= priority <= PRI_MAX
    ensures Ok(Added(s, t, priority)) && (Matched(s) ==> Matched(Added(s, t, priority)))
  {
    hide NoDup, LevelsOk;
    PushIs(s.all, t);
    assert forall x :: x in s.ready ==> x != t;
    HighestIs(s);
    SameLevels(s, Added(s, t, priority));
  }

  lemma HighestIs(s: State)
    requires LevelsOk(s)
    ensures PRI_MIN <= s.highest <= PRI_MAX && forall t :: t in s.ready ==> t in s.info
  {
  }

  lemma CreatedOk(s: State, t: Thread, priority: int)
    requires Ok(s) && t !in s.info && PRI_MIN <= priority <= PRI_MAX
    ensures Ok(Created(s, t, priority)) && (Matched(s) ==> Matched(Created(s, t, priority)))
  {
    hide Queued, Matched, Yields, Pushed;
    AddedOk(s, t, priority);
    NewIsBlocked(s, t, priority);
    PushedOk(Added(s, t, priority), t);
    YieldsOk(Pushed(Added(s, t, priority), t));
  }

  lemma NewIsBlocked(s: State, t: Thread, priority: int)
    requires Ok(s) && t !in s.info
    ensures var a := Added(s, t, priority); t in a.info && t != a.idle && a.info[t].status == Blocked && t != a.current
  {
  }

  lemma SecondOk(s: State)
    requires Ok(s)
    ensures Ok(Second(s)) && (Matched(s) ==> Matched(Second(s)))
  {
    hide NoDup, Decayed, LevelsOk;
    HighestIs(s);
    forall i: Info, l: int
      ensures Decayed(i, l).priority == i.priority && Decayed(i, l).nice == i.nice
      ensures Decayed(i, l).status == i.status && Decayed(i, l).level == i.level
    {
      DecayedIs(i, l);
    }
    SameLevels(s, Second(s));
  }

  lemma DecayedIs(i: Info, l: int)
    ensures Decayed(i, l) == i.(recentCpu := Decayed(i, l).recentCpu)
  {
  }

  lemma ChargedOk(s: State)
    requires Ok(s)
    ensures Ok(Charged(s)) && (Matched(s) ==> Matched(Charged(s)))
  {
    hide NoDup, LevelsOk;
    HighestIs(s);
    SameLevels(s, Charged(s));
  }

  lemma TickedOk(s: State)
    requires Ok(s)
    ensures Ok(Ticked(s)) && (Matched(s) ==> Matched(Ticked(s)))
  {
    hide Queued, Runs, Matched, Charged, Second, RerankedAll;
    var a := Charged(s);
    ChargedOk(s);
    SecondOk(a);
    var b := if a.ticks % TIMER_FREQ == 0 then Second(a) else a;
    RerankedAllOk(b, |b.all|);
  }

  lemma DonatedOk(s: State, t: Thread, priority: int)
    requires Ok(s) && t in s.info && PRI_MIN <= priority <= PRI_MAX
    ensures Ok(Donated(s, t, priority))
  {
    hide NoDup, LevelsOk;
    HighestIs(s);
    SameLevels(s, Donated(s, t, priority));
  }

  /** Every event keeps the queues in order, and without donation every ready thread stays in the
      queue of its priority. */
  lemma NextOk(s: State, e: Event, t: Thread)
    requires Ok(s) && Fits(s, e, t)
    ensures Ok(Next(s, e, t)) && (Matched(s) && !e.Donate? ==> Matched(Next(s, e, t)))
  {
    hide Queued, Runs, Matched, Ticked, Yields, Blocks, Pushed, Created, Picked, Gone, NiceSet, Donated, Of;
    match e
    case Tick => TickedOk(s);
    case Yield => YieldsOk(s);
    case Block => BlocksOk(s);
    case Unblock(i) =>
      if i < |s.all| && s.all[i] != s.idle && Of(s, s.all[i]).status == Blocked { UnblockOk(s, s.all[i]); }
    case Create(priority) =>
      if s.current != s.idle && PRI_MIN <= priority <= PRI_MAX { CreatedOk(s, t, priority); }
    case Exit =>
      if s.current != s.idle { ExitOk(s); }
    case Nice(nice) =>
      if NICE_MIN <= nice <= NICE_MAX { NiceSetOk(s, nice); }
    case Donate(i, priority) =>
      if i < |s.all| && PRI_MIN <= priority <= PRI_MAX {
        InAll(s, s.all[i]);
        DonatedOk(s, s.all[i], priority);
      }
  }

  lemma UnblockOk(s: State, t: Thread)
    requires Ok(s) && t in s.all && t != s.idle && Of(s, t).status == Blocked
    ensures Ok(Pushed(s, t)) && (Matched(s) ==> Matched(Pushed(s, t)))
  {
    hide Queued, Matched, Pushed;
    InAll(s, t);
    PushedOk(s, t);
  }

  // ----- Bounds -----

  /** The threads, the load average and the clock are those of `s`, and no thread is charged. */
  ghost predicate SameCpu(s: State, s': State) {
    && s'.idle == s.idle && s'.loadAvg == s.loadAvg && s'.ticks == s.ticks
    && forall t :: t in s'.info ==> t in s.info && s'.info[t].recentCpu == s.info[t].recentCpu
  }

  lemma PushedCpu(s: State, t: Thread)
    requires t in s.info
    ensures SameCpu(s, Pushed(s, t))
  {
  }

  lemma PickedCpu(s: State)
    requires Queued(s)
    ensures SameCpu(s, Picked(s))
  {
    hide Top, Chosen;
    ChosenIs(s);
  }

  lemma YieldsCpu(s: State)
    requires Ok(s)
    ensures SameCpu(s, Yields(s))
  {
    hide Queued, Picked, Pushed;
    GivenUpOk(s);
    PickedCpu(GivenUp(s));
    PushedCpu(s, s.current);
  }

  lemma RerankedCpu(s: State, t: Thread)
    requires t in s.info
    ensures SameCpu(s, Reranked(s, t)) && Reranked(s, t).info.Keys == s.info.Keys
  {
  }

  lemma {:induction false} RerankedAllCpu(s: State, k: nat)
    requires k <= |s.all| && forall t :: t in s.all ==> t in s.info
    ensures SameCpu(s, RerankedAll(s, k)) && RerankedAll(s, k).info.Keys == s.info.Keys
  {
    hide Reranked;
    if k > 0 {
      RerankedAllCpu(s, k - 1);
      RerankedCpu(RerankedAll(s, k - 1), s.all[k - 1]);
    }
  }

  lemma NiceSetCpu(s: State, nice: int)
    requires Ok(s) && NICE_MIN <= nice <= NICE_MAX
    ensures SameCpu(s, NiceSet(s, nice))
  {
    hide Queued, Reranked, Yields;
    RerankedCpu(With(s, s.current, Of(s, s.current).(nice := nice)), s.current);
    NicerOk(s, nice);
    YieldsCpu(Nicer(s, nice));
  }

  /** A new thread starts with the account of the thread that creates it. */
  lemma CreatedNumeric(s: State, t: Thread, priority: int, n: nat)
    requires Ok(s) && t !in s.info && PRI_MIN <= priority <= PRI_MAX && s.current != s.idle && Numeric(s, n)
    ensures Numeric(Created(s, t, priority), n)
  {
    hide Queued, RecentOk, LoadOk, Pushed, Yields;
    var a := Added(s, t, priority);
    AddedOk(s, t, priority);
    NewIsBlocked(s, t, priority);
    assert Numeric(a, n);
    PushedCpu(a, t);
    PushedOk(a, t);
    YieldsCpu(Pushed(a, t));
  }

  lemma ChargedNumeric(s: State, n: nat)
    requires Runs(s) && Numeric(s, n)
    ensures NumericAt(Charged(s), n, SinceUpdate(s.ticks + 1))
  {
    hide RecentOk, SinceUpdate, AddInt;
    forall t | t in s.info && t != s.idle
      ensures RecentOk(s.info[t].recentCpu, n, SinceUpdate(s.ticks + 1))
      ensures RecentOk(AddInt(s.info[t].recentCpu, 1), n, SinceUpdate(s.ticks + 1))
    {
      TickBound(s.info[t].recentCpu, n, s.ticks);
    }
  }

  lemma SecondNumeric(s: State, n: nat)
    requires ThreadsOk(s) && NumericAt(s, n, TIMER_FREQ) && ReadyCnt(s) <= n
    ensures NumericAt(Second(s), n, 0)
  {
    hide RecentOk, NewLoadAvg, NewRecentCpu;
    LoadAvgBound(s.loadAvg, ReadyCnt(s), n);
    var loadAvg := NewLoadAvg(s.loadAvg, ReadyCnt(s));
    forall t | t in s.info && t != s.idle
      ensures RecentOk(NewRecentCpu(s.info[t].recentCpu, s.info[t].nice, loadAvg), n, 0)
    {
      RecentCpuBound(s.info[t].recentCpu, s.info[t].nice, loadAvg, n);
    }
  }

  /** A tick with at most `n` ready threads keeps the bounds. */
  lemma TickedNumeric(s: State, n: nat)
    requires Ok(s) && Numeric(s, n) && ReadyCnt(s) <= n
    ensures Numeric(Ticked(s), n)
  {
    hide RecentOk, LoadOk, RerankedAll, Second, ReadyOk, LevelsOk, NoDup;
    var a := Charged(s);
    ChargedNumeric(s, n);
    ChargedOk(s);
    SecondOk(a);
    var b := if a.ticks % TIMER_FREQ == 0 then Second(a) else a;
    if a.ticks % TIMER_FREQ == 0 {
      SecondNumeric(a, n);
      SecondClock(a);
    }
    assert Numeric(b, n);
    RerankedAllCpu(b, |b.all|);
  }

  lemma SecondClock(s: State)
    ensures Second(s).ticks == s.ticks
  {
  }

  lemma NextNumeric(s: State, e: Event, t: Thread, n: nat)
    requires Ok(s) && Fits(s, e, t) && Numeric(s, n) && (e.Tick? ==> ReadyCnt(s) <= n)
    ensures Numeric(Next(s, e, t), n)
  {
    hide Queued, RecentOk, LoadOk, Ticked, Yields, Pushed, Created, Picked, Gone, NiceSet;
    match e
    case Tick => TickedNumeric(s, n);
    case Yield => YieldsCpu(s);
    case Block =>
      StoppedOk(s, Blocked);
      PickedCpu(WithStatus(s, s.current, Blocked));
    case Unblock(i) =>
      if i < |s.all| && s.all[i] != s.idle {
        InAll(s, s.all[i]);
        PushedCpu(s, s.all[i]);
      }
    case Create(priority) =>
      if s.current != s.idle && PRI_MIN <= priority <= PRI_MAX { CreatedNumeric(s, t, priority, n); }
    case Exit =>
      if s.current != s.idle {
        GoneOk(s);
        GoneCpu(s);
        PickedCpu(Gone(s));
      }
    case Nice(nice) =>
      if NICE_MIN <= nice <= NICE_MAX { NiceSetCpu(s, nice); }
    case Donate(i, priority) =>
      if i < |s.all| { InAll(s, s.all[i]); }
  }

  lemma GoneCpu(s: State)
    ensures SameCpu(s, Gone(s))
  {
  }

  /** Every state of a run is in order; without donation every ready thread is in the queue of its
      priority; and while at most `n` threads are ready at each tick, the bounds hold. */
  lemma {:induction false} RunOk(ss: seq<State>, events: seq<Event>, news: seq<Thread>, n: nat, k: nat)
    requires IsRun(ss, events, news) && k < |ss| && Ok(ss[0])
    ensures Ok(ss[k])
    ensures Matched(ss[0]) && (forall i :: 0 <= i < k ==> !events[i].Donate?) ==> Matched(ss[k])
    ensures Numeric(ss[0], n) && (forall i :: 0 <= i < k && events[i].Tick? ==> ReadyCnt(ss[i]) <= n) ==>
      Numeric(ss[k], n)
  {
    hide Queued, Runs, Matched, Numeric, Next, ReadyCnt;
    if k > 0 {
      RunOk(ss, events, news, n, k - 1);
      assert ss[k] == Next(ss[k - 1], events[k - 1], news[k - 1]);
      NextOk(ss[k - 1], events[k - 1], news[k - 1]);
      if Numeric(ss[0], n) && forall i :: 0 <= i < k && events[i].Tick? ==> ReadyCnt(ss[i]) <= n {
        NextNumeric(ss[k - 1], events[k - 1], news[k - 1], n);
      }
    }
  }

  // ----- What the events do to the account of a thread and to the thread that runs -----

  /** A tick charges the running thread, unless it is the idle thread, and nobody else. */
  lemma ChargedIs(s: State)
    requires Ok(s)
    ensures Charged(s) == s.(ticks := s.ticks + 1, info := Charged(s).info) && Charged(s).info.Keys == s.info.Keys
    ensures forall t :: t in s.info ==>
      Charged(s).info[t] ==
      s.info[t].(recentCpu := s.info[t].recentCpu + if t == s.current && t != s.idle then 16384 else 0)
  {
  }

  /** A priority update leaves everything of the other threads alone, and everything but the priority
      and the queue of its own. */
  lemma RerankedIs(s: State, t: Thread)
    requires Queued(s) && t in s.info
    ensures Reranked(s, t).info.Keys == s.info.Keys
    ensures forall x :: x in s.info && x != t ==> Reranked(s, t).info[x] == s.info[x]
    ensures
      var i, j := s.info[t], Reranked(s, t).info[t];
      && j == i.(priority := j.priority, level := j.level)
      && if t == s.idle then j == i else IsPriority(j.priority, i.recentCpu, i.nice)
  {
    hide NewPriority, IsPriority;
    PriorityIs(s.info[t].recentCpu, s.info[t].nice);
  }

  /** After update_priority for the first `k` threads these have the priority that their recent_cpu
      and nice call for. */
  lemma {:induction false} RerankedAllIs(s: State, k: nat, t: Thread)
    requires Ok(s) && k <= |s.all| && t in s.info
    ensures
      var s' := RerankedAll(s, k);
      && s'.info.Keys == s.info.Keys
      && s'.info[t].recentCpu == s.info[t].recentCpu && s'.info[t].nice == s.info[t].nice
      && s'.info[t].status == s.info[t].status && (t == s.idle ==> s'.info[t].priority == s.info[t].priority)
      && (t in s.all[..k] && t != s.idle ==> IsPriority(s'.info[t].priority, s.info[t].recentCpu, s.info[t].nice))
      && (t !in s.all[..k] ==> s'.info[t].priority == s.info[t].priority)
  {
    hide Queued, Runs, Reranked, IsPriority, NoDup;
    if k > 0 {
      RerankedAllIs(s, k - 1, t);
      RerankedAllOk(s, k - 1);
      var m, x := RerankedAll(s, k - 1), s.all[k - 1];
      InAll(m, x);
      RerankedIs(m, x);
      assert s.all[..k] == s.all[..k - 1] + [x];
    }
  }

  /** One tick: the load average and the accounts change once a second, the priorities on every fourth
      tick, by the formulas. */
  lemma TickedIs(s: State, t: Thread)
    requires Ok(s) && t in s.info && s.loadAvg >= 0
    ensures
      var i, s' := s.info[t], Ticked(s);
      var second := (s.ticks + 1) % 100 == 0;
      var charged := i.recentCpu + if t == s.current && t != s.idle then 16384 else 0;
      && s'.ticks == s.ticks + 1 && s'.current == s.current && s'.info.Keys == s.info.Keys
      && s'.loadAvg >= 0 && s'.loadAvg ==
           (if second then NewLoadAvg(s.loadAvg, |s.ready| + if s.current != s.idle then 1 else 0) else s.loadAvg)
      && s'.info[t].recentCpu ==
           (if second && t != s.idle then NewRecentCpu(charged, i.nice, s'.loadAvg) else charged)
      && s'.info[t].nice == i.nice && s'.info[t].status == i.status
      && (if (s.ticks + 1) % 4 == 0 && t != s.idle then IsPriority(s'.info[t].priority, s'.info[t].recentCpu, i.nice)
          else s'.info[t].priority == i.priority)
  {
    hide Queued, Runs, RerankedAll, IsPriority, NewRecentCpu, NewLoadAvg;
    var a := Charged(s);
    ChargedOk(s);
    ChargedIs(s);
    SecondOk(a);
    LoadStays(s.loadAvg, ReadyCnt(s));
    var b := if a.ticks % TIMER_FREQ == 0 then Second(a) else a;
    InInfo(b, t);
    RerankedAllIs(b, |b.all|, t);
    RerankedAllOk(b, |b.all|);
    RerankedAllCpu(b, |b.all|);
    assert b.all[..|b.all|] == b.all;
  }

  lemma LoadStays(loadAvg: int, ready: nat)
    requires loadAvg >= 0
    ensures NewLoadAvg(loadAvg, ready) >= 0
  {
    LoadAvgIs(loadAvg, ready);
  }

  lemma InInfo(s: State, t: Thread)
    requires Ok(s)
    ensures (t in s.info ==> t in s.all) && forall x :: x in s.all ==> x in s.info
  {
  }

  /** No ready thread has a higher priority than the one that runs. */
  ghost predicate HighestRuns(s: State) {
    s.current in s.info && forall t :: t in s.ready ==> t in s.info && s.info[t].priority <= s.info[s.current].priority
  }

  /** After schedule, unless nobody was ready. */
  lemma PickedHighest(s: State)
    requires Queued(s) && NoneRuns(s) && Matched(s)
    ensures HighestRuns(Picked(s))
  {
    hide NoDup, Top, Without, Chosen;
    ChosenIs(s);
    WithoutIs(s.ready, Chosen(s));
  }

  lemma YieldsHighest(s: State)
    requires Ok(s) && Matched(s)
    ensures HighestRuns(Yields(s))
  {
    hide Queued, NoneRuns, Matched, GivenUp, Picked, HighestRuns;
    GivenUpOk(s);
    PickedHighest(GivenUp(s));
  }

  /** thread_set_nice: the nice value is set, the priority follows it, and then no ready thread has a
      higher priority than the one that runs.  The caller goes on running if no queue above its new
      priority has been used. */
  lemma NiceSetIs(s: State, nice: int)
    requires Ok(s) && Matched(s) && NICE_MIN <= nice <= NICE_MAX
    ensures
      var s', i := NiceSet(s, nice), s.info[s.current];
      && HighestRuns(s') && s.current in s'.info
      && s'.info[s.current].nice == nice && s'.info[s.current].recentCpu == i.recentCpu
      && (if s.current == s.idle then s'.info[s.current].priority == i.priority
          else IsPriority(s'.info[s.current].priority, i.recentCpu, nice))
      && (s'.info[s.current].priority >= s.highest ==> s'.current == s.current && s'.levels == s.levels)
      && SameCpu(s, s')
  {
    hide Queued, Yields, IsPriority, Reranked;
    var a := With(s, s.current, Of(s, s.current).(nice := nice));
    NiceOnlyOk(s, nice);
    RerankedIs(a, s.current);
    NicerOk(s, nice);
    NicerSame(s, nice);
    NicerHighest(s, nice);
    NiceSetCpu(s, nice);
    var b := Nicer(s, nice);
    YieldsHighest(b);
    YieldsInfo(b, s.current);
    if Of(b, b.current).priority >= b.highest { StaysHighest(b); }
  }

  lemma NicerHighest(s: State, nice: int)
    requires Ok(s)
    ensures
      var b := Nicer(s, nice);
      b.highest == if s.current == s.idle then s.highest else Max(s.highest, Of(b, s.current).priority)
  {
  }

  lemma StaysHighest(s: State)
    requires Ok(s) && Matched(s) && Of(s, s.current).priority >= s.highest
    ensures HighestRuns(s)
  {
    hide NoDup;
  }

  /** thread_yield changes no thread's priority, nice value or account. */
  lemma YieldsInfo(s: State, t: Thread)
    requires Ok(s) && t in s.info
    ensures
      var i, j := s.info[t], Yields(s).info;
      t in j && j[t].priority == i.priority && j[t].nice == i.nice && j[t].recentCpu == i.recentCpu
  {
    hide Queued, Top, Chosen;
    GivenUpOk(s);
    ChosenIs(GivenUp(s));
  }

  lemma NicerSame(s: State, nice: int)
    requires Ok(s)
    ensures Nicer(s, nice).levels == s.levels && Nicer(s, nice).current == s.current
  {
  }

  /** thread_create: a thread with the given priority and the creator's nice value and account.  It is
      behind the others of its priority; the creator goes on running unless the priority is above
      its own base priority, and then the highest of the ready threads runs. */
  lemma CreatedIs(s: State, t: Thread, priority: int)
    requires Ok(s) && Matched(s) && t !in s.info && t.base == priority && PRI_MIN <= priority <= PRI_MAX
    ensures
      var s', i := Created(s, t, priority), s.info[s.current];
      && t in s'.info && s'.all == s.all + [t]
      && s'.info[t].priority == priority && s'.info[t].nice == i.nice && s'.info[t].recentCpu == i.recentCpu
      && (if priority > s.current.base then HighestRuns(s')
          else s'.current == s.current && s'.levels == s.levels[priority := s.levels[priority] + [t]])
  {
    hide Queued, Yields, Matched, InsertOrdered, HighestRuns;
    var a := Added(s, t, priority);
    AddedOk(s, t, priority);
    NewIsBlocked(s, t, priority);
    PushedOk(a, t);
    var b := Pushed(a, t);
    LevelCount(a);
    YieldsHighest(b);
    YieldsInfo(b, t);
    YieldsAll(b);
  }

  lemma LevelCount(s: State)
    requires Queued(s)
    ensures |s.levels| == NUM_QUEUES
  {
  }

  lemma YieldsAll(s: State)
    ensures Yields(s).all == s.all
  {
  }

  // ----- What the events do to the threads -----

  /** Everything about thread `t` but its status and its queue is as it was. */
  ghost predicate SameThread(s: State, s': State, t: Thread) {
    && t in s.info && t in s'.info && s'.info[t].priority == s.info[t].priority && s'.info[t].nice == s.info[t].nice
    && s'.info[t].recentCpu == s.info[t].recentCpu
  }

  /** schedule: the thread that it chooses starts to run, and no other thread's state changes. */
  lemma PickedIs(s: State)
    requires Queued(s) && NoneRuns(s)
    ensures
      var s' := Picked(s);
      && s'.all == s.all && s'.info.Keys == s.info.Keys && s'.current in s.info && s'.info[s'.current].status == Running
      && (s.ready == [] ==> s'.current == s.idle) && (s.ready != [] ==> s'.current in s.ready)
      && (forall t :: t in s.info ==> SameThread(s, s', t))
      && (forall t :: t in s.info && t != s'.current ==> s'.info[t] == s.info[t])
      && (forall t :: t in s.ready && t != s'.current ==> t in s'.ready)
      && (forall t :: t in s'.ready ==> t in s.ready && t != s'.current)
  {
    hide NoDup, Top, Without, Chosen;
    ChosenIs(s);
    WithoutIs(s.ready, Chosen(s));
    IdleIn(s);
  }

  lemma IdleIn(s: State)
    requires Queued(s)
    ensures s.idle in s.all && s.idle in s.info && s.idle !in s.ready
  {
  }

  /** thread_block: the caller is blocked, in no queue, and does not run, unless it is the idle thread
      and no other is ready. */
  lemma BlocksIs(s: State)
    requires Ok(s)
    ensures
      var s', t := Blocks(s), s.current;
      && s'.all == s.all && t in s'.info && t !in s'.ready
      && (t != s.idle ==> s'.current != t && s'.info[t].status == Blocked)
      && (forall x :: x in s.info ==> SameThread(s, s', x))
      && (forall x :: x in s.info && x != t && x != s'.current ==> s'.info[x] == s.info[x])
  {
    hide Queued, Picked;
    var a := WithStatus(s, s.current, Blocked);
    StoppedOk(s, Blocked);
    PickedIs(a);
    CurrentNotReady(s);
  }

  lemma CurrentNotReady(s: State)
    requires Ok(s)
    ensures s.current in s.info && s.current !in s.ready
  {
  }

  /** thread_unblock: the thread is ready, at the end of the queue of its priority, and nothing else
      happens to any thread. */
  lemma PushedIs(s: State, t: Thread)
    requires Queued(s) && t in s.info && t != s.idle && s.info[t].status != Ready
    ensures
      var s' := Pushed(s, t);
      && s'.all == s.all && s'.current == s.current && s'.info.Keys == s.info.Keys && SameThread(s, s', t)
      && t in s'.ready && s'.info[t].status == Ready && s'.info[t].level == s.info[t].priority
      && s'.levels == s.levels[s.info[t].priority := s.levels[s.info[t].priority] + [t]]
      && (forall x :: x in s.info && x != t ==> s'.info[x] == s.info[x]) && (forall x :: x in s.ready ==> x in s'.ready)
  {
    hide NoDup, InsertOrdered;
    Absent(s, t);
    InsertIs(s.ready, t);
  }

  /** thread_yield: the caller runs on or is ready, and no other thread but the one that runs next
      changes its state. */
  lemma YieldsIs(s: State)
    requires Ok(s)
    ensures
      var s', t := Yields(s), s.current;
      && s'.all == s.all && t in s'.info && (s'.current == t || s'.info[t].status == Ready)
      && (s.ready == [] ==> s'.current == t)
      && (forall x :: x in s.info ==> SameThread(s, s', x))
      && (forall x :: x in s.info && x != t && x != s'.current ==> s'.info[x] == s.info[x])
  {
    hide Queued, Picked, Pushed;
    GivenUpOk(s);
    PickedIs(GivenUp(s));
    if s.current != s.idle {
      RunningIs(s);
      PushedIs(s, s.current);
      OnlyReady(s);
    }
  }

  lemma RunningIs(s: State)
    requires Ok(s)
    ensures Queued(s) && s.current in s.info && s.info[s.current].status == Running
  {
  }

  lemma OnlyReady(s: State)
    ensures s.ready == [] ==> Pushed(s, s.current).ready == [s.current]
  {
  }

  /** thread_exit: the caller is gone, and the others are as they were but for the one that runs next. */
  lemma ExitIs(s: State)
    requires Ok(s) && s.current != s.idle
    ensures
      var s', t := Picked(Gone(s)), s.current;
      && s'.all == Without(s.all, t) && t !in s'.info && s'.info.Keys == s.info.Keys - {t} && s'.current != t
      && (forall x :: x in s.info && x != t ==> SameThread(s, s', x))
      && (forall x :: x in s.info && x != t && x != s'.current ==> s'.info[x] == s.info[x])
  {
    hide Queued, Picked;
    GoneOk(s);
    PickedIs(Gone(s));
  }

  /** A donation sets the priority and leaves everything else, also the thread's queue. */
  lemma DonatedIs(s: State, t: Thread, priority: int)
    requires t in s.info
    ensures Donated(s, t, priority) == s.(info := s.info[t := s.info[t].(priority := priority)])
  {
  }

  // ----- First come, first served -----

  /** `t` comes before `u` in the queue. */
  ghost predicate Ahead(q: seq<Thread>, t: Thread, u: Thread) {
    exists i, j :: 0 <= i < j < |q| && q[i] == t && q[j] == u
  }

  ghost predicate InQueue(s: State, l: int, t: Thread) { 0 <= l < |s.levels| && t in s.levels[l] }

  /** `t` is in queue `l`, and `u` is behind it if it is in that queue. */
  ghost predicate Leads(s: State, l: int, t: Thread, u: Thread) {
    InQueue(s, l, t) && (u in s.levels[l] ==> Ahead(s.levels[l], t, u))
  }

  /** `t` is in queue `l`, the queue of its priority: nobody has donated to it. */
  ghost predicate Waits(s: State, l: int, t: Thread) {
    InQueue(s, l, t) && t in s.info && s.info[t].priority == l
  }

  lemma AheadAppend(q: seq<Thread>, t: Thread, u: Thread, x: Thread)
    requires t in q && (u in q ==> Ahead(q, t, u))
    ensures u in q + [x] ==> Ahead(q + [x], t, u)
  {
    var r := q + [x];
    if u in q {
      var i, j :| 0 <= i < j < |q| && q[i] == t && q[j] == u;
      assert r[i] == t && r[j] == u;
    } else if u == x {
      var i :| 0 <= i < |q| && q[i] == t;
      assert r[i] == t && r[|q|] == u;
    }
  }

  lemma AheadTail(q: seq<Thread>, t: Thread, u: Thread)
    requires NoDup(q) && q != [] && Ahead(q, t, u)
    ensures q[0] != u && (t in q[1..] ==> Ahead(q[1..], t, u))
  {
    var i, j :| 0 <= i < j < |q| && q[i] == t && q[j] == u;
    if t in q[1..] {
      var k :| 0 <= k < |q[1..]| && q[1..][k] == t;
      assert q[k + 1] == t && k + 1 == i;
      assert q[1..][i - 1] == t && q[1..][j - 1] == u;
    }
  }

  lemma {:induction false} AheadWithout(q: seq<Thread>, t: Thread, u: Thread, x: Thread)
    requires NoDup(q) && Ahead(q, t, u) && x != t && x != u
    ensures Ahead(Without(q, x), t, u)
  {
    var i, j :| 0 <= i < j < |q| && q[i] == t && q[j] == u;
    var r := Without(q, x);
    if q[0] == x {
      assert r[i - 1] == t && r[j - 1] == u;
    } else {
      var w := Without(q[1..], x);
      if i == 0 {
        assert q[1..][j - 1] == u && u in q[1..];
        WithoutIs(q[1..], x);
        assert u in w;
        var k :| 0 <= k < |w| && w[k] == u;
        assert r[0] == t && r[k + 1] == u;
      } else {
        assert q[1..][i - 1] == t && q[1..][j - 1] == u;
        AheadWithout(q[1..], t, u, x);
        var a, b :| 0 <= a < b < |w| && w[a] == t && w[b] == u;
        assert r[a + 1] == t && r[b + 1] == u;
      }
    }
  }

  lemma PushedLeads(s: State, x: Thread, l: int, t: Thread, u: Thread)
    requires Leads(s, l, t, u)
    ensures Leads(Pushed(s, x), l, t, u)
  {
    AheadAppend(s.levels[l], t, u, x);
  }

  lemma PickedLeads(s: State, l: int, t: Thread, u: Thread)
    requires Queued(s) && Leads(s, l, t, u) && t in Picked(s).levels[l]
    ensures Leads(Picked(s), l, t, u)
  {
    hide Top;
    if u in s.levels[l] { AheadTail(s.levels[l], t, u); }
  }

  lemma YieldsLeads(s: State, l: int, t: Thread, u: Thread)
    requires Ok(s) && Leads(s, l, t, u) && t in Yields(s).levels[l]
    ensures Leads(Yields(s), l, t, u)
  {
    hide Queued, Picked, Pushed, Leads;
    GivenUpOk(s);
    if s.current != s.idle { PushedLeads(s, s.current, l, t, u); } else { SameLeads(s, GivenUp(s), l, t, u); }
    PickedLeads(GivenUp(s), l, t, u);
  }

  lemma SameLeads(s: State, s': State, l: int, t: Thread, u: Thread)
    requires Leads(s, l, t, u) && s'.levels == s.levels
    ensures Leads(s', l, t, u)
  {
  }

  /** Updating another thread's priority keeps `t` ahead; updating its own does too, unless it leaves
      the queue. */
  lemma RerankedLeads(s: State, x: Thread, l: int, t: Thread, u: Thread)
    requires Queued(s) && x in s.info && Leads(s, l, t, u) && t != u && (x == t ==> Waits(s, l, t))
    ensures x != t || t in Reranked(s, x).levels[l] ==> Leads(Reranked(s, x), l, t, u)
    ensures x == t && t in Reranked(s, x).levels[l] ==> Reranked(s, x) == s.(highest := Reranked(s, x).highest)
  {
    hide Without, NoDup;
    if x != s.idle {
      var i := s.info[x];
      var p := NewPriority(i.recentCpu, i.nice);
      if p != i.priority && i.status == Ready {
        UnlinkedLeads(s, x, l, t, u);
        var levels := Unlink(s.levels, i.level, x);
        if x != t { AheadAppend(levels[l], t, u, x); }
      }
      if x == t { assert s.info[t := i] == s.info; }
    }
  }

  lemma UnlinkedLeads(s: State, x: Thread, l: int, t: Thread, u: Thread)
    requires Queued(s) && x in s.info && x != s.idle && s.info[x].status == Ready && Leads(s, l, t, u) && t != u
    ensures
      var levels := Unlink(s.levels, s.info[x].level, x);
      if x == t then t !in levels[l]
      else t in levels[l] && (u in levels[l] ==> Ahead(levels[l], t, u))
  {
    hide Without, NoDup, Ahead;
    var from := s.info[x].level;
    WithoutIs(s.levels[from], x);
    if from == l && x != t && x != u && u in s.levels[l] { AheadWithout(s.levels[l], t, u, x); }
  }

  /** Over update_priority for every thread: either `t` has left queue `l` and its own update is
      done, or it is still ahead of `u`. */
  lemma {:induction false} RerankedAllLeads(s: State, k: nat, l: int, t: Thread, u: Thread)
    requires Ok(s) && k <= |s.all| && Leads(s, l, t, u) && Waits(s, l, t) && t != u
    ensures
      var s' := RerankedAll(s, k);
      && 0 <= l < |s'.levels|
      && (t in s'.levels[l] ==> Leads(s', l, t, u) && Waits(s', l, t))
      && (t !in s'.levels[l] ==> t in s.all[..k])
  {
    hide Queued, Runs, Reranked, Leads, NoDup;
    if k > 0 {
      RerankedAllLeads(s, k - 1, l, t, u);
      RerankedAllOk(s, k - 1);
      var m, x := RerankedAll(s, k - 1), s.all[k - 1];
      InAll(m, x);
      QueueCount(Reranked(m, x), m, x, l);
      assert s.all[..k] == s.all[..k - 1] + [x];
      if t in m.levels[l] {
        RerankedLeads(m, x, l, t, u);
        if t in Reranked(m, x).levels[l] { StillLeads(m, x, l, t, u); }
        if x != t { RerankedOut(m, x, l, t); }
      } else {
        TookTurn(s, k - 1, t);
        RerankedOut(m, x, l, t);
      }
    }
  }

  lemma QueueCount(s': State, s: State, x: Thread, l: int)
    requires Queued(s) && x in s.info && s' == Reranked(s, x) && 0 <= l < |s.levels|
    ensures |s'.levels| == |s.levels|
  {
  }

  lemma StillLeads(s: State, x: Thread, l: int, t: Thread, u: Thread)
    requires Queued(s) && x in s.info && Waits(s, l, t) && t in Reranked(s, x).levels[l]
    requires x == t ==> Reranked(s, x) == s.(highest := Reranked(s, x).highest)
    ensures Waits(Reranked(s, x), l, t)
  {
  }

  /** A thread that is not updated does not leave or enter a queue. */
  lemma RerankedOut(s: State, x: Thread, l: int, t: Thread)
    requires Queued(s) && x in s.info && x != t && 0 <= l < |s.levels|
    ensures |Reranked(s, x).levels| == |s.levels| && (t in Reranked(s, x).levels[l] <==> t in s.levels[l])
  {
    hide Without, NoDup;
    if x != s.idle && s.info[x].status == Ready { WithoutIs(s.levels[s.info[x].level], x); }
  }

  lemma TookTurn(s: State, k: nat, t: Thread)
    requires Ok(s) && k < |s.all| && t in s.all[..k]
    ensures s.all[k] != t
  {
  }

  lemma TickedLeads(s: State, l: int, t: Thread, u: Thread)
    requires Ok(s) && Leads(s, l, t, u) && Waits(s, l, t) && t != u
    requires InQueue(Ticked(s), l, t)
    ensures Leads(Ticked(s), l, t, u)
  {
    hide Queued, Runs, RerankedAll, Leads, Decayed;
    var a := Charged(s);
    ChargedOk(s);
    SecondOk(a);
    var b := if a.ticks % TIMER_FREQ == 0 then Second(a) else a;
    SameLeads(s, b, l, t, u);
    assert Waits(b, l, t) by {
      if t in a.info { DecayedIs(a.info[t], NewLoadAvg(a.loadAvg, ReadyCnt(a))); }
    }
    if a.ticks % 4 == 0 { RerankedAllLeads(b, |b.all|, l, t, u); }
  }

  lemma NiceSetLeads(s: State, nice: int, l: int, t: Thread, u: Thread)
    requires Ok(s) && NICE_MIN <= nice <= NICE_MAX && Leads(s, l, t, u)
    requires InQueue(NiceSet(s, nice), l, t)
    ensures Leads(NiceSet(s, nice), l, t, u)
  {
    hide Queued, Yields, Leads;
    NicerOk(s, nice);
    SameLeads(s, Nicer(s, nice), l, t, u);
    if Yields(Nicer(s, nice)) == NiceSet(s, nice) { YieldsLeads(Nicer(s, nice), l, t, u); }
  }

  lemma CreatedLeads(s: State, x: Thread, priority: int, l: int, t: Thread, u: Thread)
    requires Ok(s) && x !in s.info && PRI_MIN <= priority <= PRI_MAX && Leads(s, l, t, u)
    requires InQueue(Created(s, x, priority), l, t)
    ensures Leads(Created(s, x, priority), l, t, u)
  {
    hide Queued, Yields, Leads, Pushed;
    var a := Added(s, x, priority);
    AddedOk(s, x, priority);
    NewIsBlocked(s, x, priority);
    PushedOk(a, x);
    SameLeads(s, a, l, t, u);
    PushedLeads(a, x, l, t, u);
    if Yields(Pushed(a, x)) == Created(s, x, priority) { YieldsLeads(Pushed(a, x), l, t, u); }
  }

  /** An event leaves a thread ahead of those behind it in the queue of its priority, for as long as
      it stays there. */
  lemma NextLeads(s: State, e: Event, x: Thread, l: int, t: Thread, u: Thread)
    requires Ok(s) && Fits(s, e, x) && Leads(s, l, t, u) && Waits(s, l, t) && t != u
    requires InQueue(Next(s, e, x), l, t)
    ensures Leads(Next(s, e, x), l, t, u)
  {
    hide Queued, Runs, Leads, Ticked, Yields, Pushed, Created, Picked, NiceSet, Waits;
    match e
    case Tick => TickedLeads(s, l, t, u);
    case Yield => YieldsLeads(s, l, t, u);
    case Block =>
      StoppedOk(s, Blocked);
      SameLeads(s, WithStatus(s, s.current, Blocked), l, t, u);
      PickedLeads(WithStatus(s, s.current, Blocked), l, t, u);
    case Unblock(i) =>
      if i < |s.all| { PushedLeads(s, s.all[i], l, t, u); }
    case Create(priority) =>
      if s.current != s.idle && PRI_MIN <= priority <= PRI_MAX { CreatedLeads(s, x, priority, l, t, u); }
    case Exit =>
      if s.current != s.idle {
        GoneOk(s);
        SameLeads(s, Gone(s), l, t, u);
        PickedLeads(Gone(s), l, t, u);
      }
    case Nice(nice) =>
      if NICE_MIN <= nice <= NICE_MAX { NiceSetLeads(s, nice, l, t, u); }
    case Donate(i, priority) =>
      if i < |s.all| && PRI_MIN <= priority <= PRI_MAX { SameLeads(s, Donated(s, s.all[i], priority), l, t, u); }
  }

  /** Whoever is behind `t` in its queue, or not in the queue, when `t` is there does not get ahead of
      it for as long as `t` waits in the queue of its priority. */
  lemma {:induction false} ArrivalOrder(
    ss: seq<State>, events: seq<Event>, news: seq<Thread>, i: nat, j: nat, l: int, t: Thread, u: Thread)
    requires IsRun(ss, events, news) && Ok(ss[0]) && i <= j < |ss| && t != u
    requires Leads(ss[i], l, t, u) && forall k :: i <= k <= j ==> Waits(ss[k], l, t)
    ensures Leads(ss[j], l, t, u)
    decreases j
  {
    hide Queued, Runs, Leads, Next;
    if i < j {
      ArrivalOrder(ss, events, news, i, j - 1, l, t, u);
      RunOk(ss, events, news, 0, j - 1);
      assert Waits(ss[j - 1], l, t) && Waits(ss[j], l, t);
      assert ss[j] == Next(ss[j - 1], events[j - 1], news[j - 1]);
      NextLeads(ss[j - 1], events[j - 1], news[j - 1], l, t, u);
    }
  }

  /** The thread that is chosen is not behind another. */
  lemma ChosenLeads(s: State, l: int, t: Thread, u: Thread)
    requires Queued(s) && Leads(s, l, t, u) && InQueue(s, l, u)
    ensures Chosen(s) != u
  {
    hide Top, Chosen;
    ChosenIs(s);
    AheadTail(s.levels[l], t, u);
    assert u in s.ready && s.info[u].level == l;
  }

  lemma PushedStays(s: State, x: Thread, l: int, u: Thread)
    requires InQueue(s, l, u)
    ensures InQueue(Pushed(s, x), l, u)
  {
  }

  lemma YieldsLater(s: State, l: int, t: Thread, u: Thread)
    requires Ok(s) && Leads(s, l, t, u) && InQueue(s, l, u)
    ensures Yields(s).current != u
  {
    hide Queued, Pushed, Leads, Chosen, Top;
    GivenUpOk(s);
    if s.current != s.idle {
      PushedLeads(s, s.current, l, t, u);
      PushedStays(s, s.current, l, u);
    } else {
      SameLeads(s, GivenUp(s), l, t, u);
    }
    ChosenLeads(GivenUp(s), l, t, u);
  }

  lemma CurrentNotQueued(s: State, l: int, u: Thread)
    requires Ok(s) && InQueue(s, l, u)
    ensures s.current != u
  {
  }

  /** An event does not run a thread that is behind another in its queue. */
  lemma NextLater(s: State, e: Event, x: Thread, l: int, t: Thread, u: Thread)
    requires Ok(s) && Fits(s, e, x) && Leads(s, l, t, u) && InQueue(s, l, u)
    ensures Next(s, e, x).current != u
  {
    hide Queued, Runs, Leads, Yields, Chosen, Top, RerankedAll, Pushed, Reranked;
    CurrentNotQueued(s, l, u);
    match e
    case Tick => TickedCurrent(s);
    case Yield => YieldsLater(s, l, t, u);
    case Block =>
      StoppedOk(s, Blocked);
      SameLeads(s, WithStatus(s, s.current, Blocked), l, t, u);
      ChosenLeads(WithStatus(s, s.current, Blocked), l, t, u);
    case Unblock(i) =>
      if i < |s.all| { PushedCurrent(s, s.all[i]); }
    case Create(priority) =>
      if s.current != s.idle && PRI_MIN <= priority <= PRI_MAX { CreatedLater(s, x, priority, l, t, u); }
    case Exit =>
      if s.current != s.idle {
        GoneOk(s);
        SameLeads(s, Gone(s), l, t, u);
        ChosenLeads(Gone(s), l, t, u);
      }
    case Nice(nice) =>
      if NICE_MIN <= nice <= NICE_MAX {
        NicerOk(s, nice);
        NicerSame(s, nice);
        SameLeads(s, Nicer(s, nice), l, t, u);
        YieldsLater(Nicer(s, nice), l, t, u);
      }
    case Donate(i, priority) =>
  }

  lemma TickedCurrent(s: State)
    requires Ok(s)
    ensures Ticked(s).current == s.current
  {
    hide Queued, Runs, RerankedAll;
    var a := Charged(s);
    ChargedOk(s);
    SecondOk(a);
    var b := if a.ticks % TIMER_FREQ == 0 then Second(a) else a;
    RerankedAllOk(b, |b.all|);
  }

  lemma PushedCurrent(s: State, x: Thread)
    ensures Pushed(s, x).current == s.current
  {
  }

  lemma CreatedLater(s: State, x: Thread, priority: int, l: int, t: Thread, u: Thread)
    requires Ok(s) && x !in s.info && PRI_MIN <= priority <= PRI_MAX && Leads(s, l, t, u) && InQueue(s, l, u)
    ensures Created(s, x, priority).current != u
  {
    hide Queued, Yields, Leads, Pushed;
    var a := Added(s, x, priority);
    AddedOk(s, x, priority);
    NewIsBlocked(s, x, priority);
    PushedOk(a, x);
    PushedCurrent(a, x);
    CurrentNotQueued(s, l, u);
    SameLeads(s, a, l, t, u);
    PushedLeads(a, x, l, t, u);
    PushedStays(a, x, l, u);
    YieldsLater(Pushed(a, x), l, t, u);
  }

  /** Two threads that wait in one queue run in the order of their arrival: while the earlier one
      waits there, the other does not start to run from it. */
  lemma ServedInOrder(
    ss: seq<State>, events: seq<Event>, news: seq<Thread>, i: nat, j: nat, l: int, t: Thread, u: Thread)
    requires IsRun(ss, events, news) && Ok(ss[0]) && i <= j < |events| && t != u
    requires Leads(ss[i], l, t, u) && (forall k :: i <= k <= j ==> Waits(ss[k], l, t)) && InQueue(ss[j], l, u)
    ensures ss[j + 1].current != u
  {
    hide Queued, Runs, Leads, Next;
    ArrivalOrder(ss, events, news, i, j, l, t, u);
    RunOk(ss, events, news, 0, j);
    assert ss[j + 1] == Next(ss[j], events[j], news[j]);
    NextLater(ss[j], events[j], news[j], l, t, u);
  }

  /** With donation it is otherwise: updating its priority leaves a thread ahead of those behind it
      exactly when the priority does not change.  A thread whose priority returns to that of its
      queue goes to the end of the queue it is in. */
  lemma KeepsPlaceIff(s: State, l: int, t: Thread, u: Thread)
    requires Queued(s) && t in s.info && t in s.ready && Leads(s, l, t, u) && InQueue(s, l, u) && t != u
    ensures
      var p := NewPriority(s.info[t].recentCpu, s.info[t].nice);
      && (Leads(Reranked(s, t), l, t, u) <==> p == s.info[t].priority)
      && (p == l && p != s.info[t].priority ==> Ahead(Reranked(s, t).levels[l], u, t))
  {
    var p := NewPriority(s.info[t].recentCpu, s.info[t].nice);
    assert t in s.levels[l];
    if p != s.info[t].priority {
      var q := Without(s.levels[l], t);
      WithoutIs(s.levels[l], t);
      if p == l {
        var r := q + [t];
        var k :| 0 <= k < |q| && q[k] == u;
        assert r[k] == u && r[|q|] == t;
        assert Reranked(s, t).levels[l] == r;
      }
    }
  }
}
