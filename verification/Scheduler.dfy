/** The multi-level feedback queue scheduler (src/threads/thread.c with thread_mlfqs set), from the
    point where the idle thread has started.  Each operation does to the threads and queues what
    ReadyQueues says. */
module Scheduler {
  import opened FixedPoint
  import opened Sequences
  import opened ReadyQueues

  class Scheduler {
    const idle: Thread
    var current: Thread
    var all: seq<Thread>
    var ready: seq<Thread>
    var levels: seq<seq<Thread>>
    var highest: int
    var loadAvg: int
    var ticks: nat
    const n: nat

    /** The running system just after the idle thread has blocked for the first time. */
    constructor (idle: Thread, initial: Thread, n: nat)
      requires idle != initial && initial.recentCpu == 0 && initial.nice == idle.nice == 0
      requires PRI_MIN <= initial.priority <= PRI_MAX && PRI_MIN <= idle.priority <= PRI_MAX
      requires initial.status == Running && idle.status == Blocked
      ensures Valid() && Matched(View()) && Numeric(View(), n)
      ensures this.idle == idle && current == initial && ready == [] && this.n == n
    {
      this.idle, current, this.n := idle, initial, n;
      all, ready, levels := [initial, idle], [], seq(NUM_QUEUES, l => []);
      highest, loadAvg, ticks := PRI_MIN, 0, 0;
    }

    ghost function InfoOf(t: Thread): Info
      reads t
    {
      Info(t.priority, t.nice, t.recentCpu, t.status, t.level)
    }

    ghost function Infos(): map<Thread, Info>
      reads this`all, all
    {
      map t | t in all :: InfoOf(t)
    }

    /** The state as a value. */
    ghost function View(): State
      reads this, all
    {
      State(idle, current, all, ready, levels, highest, loadAvg, ticks, Infos())
    }

    ghost predicate Valid()
      reads this, all
    {
      Ok(View())
    }

    twostate lemma OneChanged(t: Thread)
      requires all == old(all) && t in all && forall x :: x in all && x != t ==> unchanged(x)
      ensures Infos() == old(Infos())[t := InfoOf(t)]
    {
    }

    lemma InfoIs(t: Thread)
      requires t in all
      ensures t in View().info && Of(View(), t) == View().info[t] == InfoOf(t)
    {
    }

    // ----- Queues -----

    /** The end of thread_unblock, and the middle of thread_yield: `t` becomes ready. */
    method PushReady(t: Thread)
      requires Queued(View()) && t in all && t != idle && t.status != Ready
      modifies this`ready, this`levels, this`highest, t`status, t`level
      ensures Queued(View()) && View() == Pushed(old(View()), t)
    {
      hide InsertOrdered, ReadyOk, Infos, NoDup;
      InfoIs(t);
      PushedOk(View(), t);
      ready := InsertOrdered(ready, t);
      levels := levels[t.priority := levels[t.priority] + [t]];
      t.level := t.priority;
      if t.priority > highest {
        highest := t.priority;
      }
      t.status := Ready;
      OneChanged(t);
    }

    /** highest_non_empty_level: the scan ends before it passes level 0 whenever a thread is
        ready. */
    method HighestNonEmptyLevel() returns (l: nat)
      requires Queued(View()) && ready != []
      ensures l < |levels| && l == Top(levels, |levels|)
    {
      hide NoDup;
      ghost var t := ready[0];
      assert t in ready;
      AboveEmpty(View());
      var h := highest;
      while levels[h] == []
        invariant 0 <= h <= highest && t.level <= h
        invariant forall k :: h < k < NUM_QUEUES ==> levels[k] == []
        decreases h
      {
        h := h - 1;
      }
      l := h;
    }

    lemma AboveEmpty(s: State)
      requires Queued(s)
      ensures |s.levels| == NUM_QUEUES && forall k :: 0 <= k < NUM_QUEUES && s.levels[k] != [] ==> k <= s.highest
    {
      hide NoDup;
      forall k | 0 <= k < NUM_QUEUES && s.levels[k] != []
        ensures k <= s.highest
      {
        var t := s.levels[k][0];
        assert t in s.levels[k] && t in s.ready;
      }
    }

    /** next_thread_to_run: the first thread of the highest queue that is not empty, or the idle
        thread if no thread is ready. */
    method NextThreadToRun() returns (next: Thread)
      requires Queued(View()) && NoneRuns(View())
      modifies this`ready, this`levels
      ensures next == Chosen(old(View())) && next in all
      ensures old(ready) == [] ==> next == idle && ready == old(ready) && levels == old(levels)
      ensures old(ready) != [] ==>
        && 0 <= next.level < |old(levels)| && next.level == Top(old(levels), |old(levels)|)
        && old(levels)[next.level] != [] && next == old(levels)[next.level][0]
        && ready == Without(old(ready), next) && levels == old(levels)[next.level := old(levels)[next.level][1..]]
    {
      hide NoDup, Queued, NoneRuns, Top, Infos, InfoOf;
      ChosenIs(View());
      IdleIn(View());
      if ready == [] {
        return idle;
      }
      var l := HighestNonEmptyLevel();
      next := levels[l][0];
      InfoIn(next);
      InfoIs(next);
      assert Without(levels[l], next) == levels[l][1..];
      levels := levels[l := Without(levels[l], next)];
      ready := Without(ready, next);
    }

    lemma InfoIn(t: Thread)
      requires t in View().info
      ensures t in all && InfoOf(t).level == t.level
    {
    }

    lemma IdleIn(s: State)
      requires Queued(s)
      ensures s.idle in s.all
    {
    }

    // ----- Scheduling -----

    /** schedule: the chosen thread runs. */
    method Schedule()
      requires Queued(View()) && NoneRuns(View())
      modifies this`ready, this`levels, this`current, all`status
      ensures Valid() && View() == Picked(old(View()))
    {
      hide NoDup, Queued, NoneRuns, Top, Without, Runs, Infos;
      PickedOk(View());
      ChosenIs(View());
      var next := NextThreadToRun();
      InfoIs(next);
      current := next;
      next.status := Running;
      OneChanged(next);
    }

    /** thread_block */
    method Block()
      requires Valid()
      modifies this`ready, this`levels, this`current, all`status
      ensures Valid() && View() == Blocks(old(View()))
    {
      hide NoDup, Queued, Picked, Infos;
      CurrentIn();
      InfoIs(current);
      StoppedOk(View(), Blocked);
      current.status := Blocked;
      OneChanged(current);
      Schedule();
    }

    lemma CurrentIn()
      requires Valid()
      ensures current in all && idle in all && current.status == Running
    {
    }

    /** thread_unblock */
    method Unblock(t: Thread)
      requires Valid() && t in all && t != idle && t.status == Blocked
      modifies this`ready, this`levels, this`highest, t`status, t`level
      ensures Valid() && View() == Pushed(old(View()), t)
    {
      hide NoDup, Queued, Pushed, Infos;
      InfoIs(t);
      UnblockOk(View(), t);
      PushReady(t);
    }

    /** thread_yield */
    method Yield()
      requires Valid()
      modifies this`ready, this`levels, this`highest, this`current, all`status, all`level
      ensures Valid() && View() == Yields(old(View()))
    {
      hide NoDup, Queued, Pushed, Picked, Infos;
      CurrentIn();
      InfoIs(current);
      GivenUpOk(View());
      if current != idle {
        PushReady(current);
      } else {
        current.status := Ready;
        OneChanged(current);
      }
      Schedule();
    }

    /** thread_exit, up to the point where the next thread runs. */
    method Exit()
      requires Valid() && current != idle
      modifies this`all, this`ready, this`levels, this`current, all`status
      ensures Valid() && View() == Picked(Gone(old(View())))
    {
      hide NoDup, Queued, Picked, Without, Infos;
      CurrentIn();
      GoneOk(View());
      AllDistinct(View());
      WithoutIs(all, current);
      all := Without(all, current);
      assert forall i :: 0 <= i < |all| ==> all[i] in old(all);
      current.status := Dying;
      OneGone(current);
      Schedule();
    }

    lemma AllDistinct(s: State)
      requires Queued(s)
      ensures NoDup(s.all)
    {
    }

    twostate lemma OneGone(t: Thread)
      requires NoDup(old(all)) && all == Without(old(all), t) && forall x :: x in old(all) && x != t ==> unchanged(x)
      ensures Infos() == old(Infos()) - {t}
    {
      WithoutIs(old(all), t);
    }

    // ----- Priorities -----

    /** update_priority */
    method UpdatePriority(t: Thread)
      requires Queued(View()) && t in all
      modifies this`levels, this`highest, t`priority, t`level
      ensures Queued(View()) && View() == Reranked(old(View()), t)
      ensures t != idle ==> IsPriority(t.priority, t.recentCpu, t.nice)
    {
      hide Queued, Without, Infos, NewPriority, IsPriority;
      if t == idle {
        return;
      }
      PriorityIs(t.recentCpu, t.nice);
      InfoIs(t);
      RerankedOk(View(), t);
      ReadyIsQueued(View(), t);
      var oldPriority := t.priority;
      var priority := NewPriority(t.recentCpu, t.nice);
      t.priority := priority;
      if priority != oldPriority && t.status == Ready {
        levels := levels[t.level := Without(levels[t.level], t)];
        levels := levels[priority := levels[priority] + [t]];
        t.level := priority;
      }
      if highest < priority {
        highest := priority;
      }
      OneChanged(t);
    }

    lemma ReadyIsQueued(s: State, t: Thread)
      requires Queued(s) && t in s.info && t != s.idle
      ensures |s.levels| == NUM_QUEUES && (s.info[t].status == Ready ==> 0 <= s.info[t].level < NUM_QUEUES)
    {
    }

    /** thread_set_nice */
    method SetNice(nice: int)
      requires Valid() && NICE_MIN <= nice <= NICE_MAX
      modifies this`ready, this`levels, this`highest, this`current, current`nice, all`priority, all`status, all`level
      ensures Valid() && View() == NiceSet(old(View()), nice)
    {
      hide NoDup, Queued, Reranked, Yields, Infos;
      CurrentIn();
      InfoIs(current);
      NicerOk(View(), nice);
      NiceOnlyOk(View(), nice);
      current.nice := nice;
      OneChanged(current);
      if current != idle {
        UpdatePriority(current);
      }
      InfoIs(current);
      if current.priority < highest {
        Yield();
      }
    }

    /** thread_create up to thread_unblock. */
    method AddThread(priority: int) returns (t: Thread)
      requires Valid() && current != idle && PRI_MIN <= priority <= PRI_MAX
      modifies this`all, this`highest
      ensures Valid() && fresh(t) && t !in old(View()).info && t.base == priority
      ensures View() == Added(old(View()), t, priority)
    {
      hide NoDup, Queued, Infos;
      CurrentIn();
      InfoIs(current);
      t := new Thread(priority, priority, current.nice, current.recentCpu);
      var computed := NewPriority(t.recentCpu, t.nice);
      NotIn(t);
      AddedOk(View(), t, priority);
      if highest < computed {
        highest := computed;
      }
      all := all + [t];
      OneAdded(t);
    }

    lemma NotIn(t: Thread)
      requires t !in all
      ensures t !in View().info
    {
    }

    twostate lemma OneAdded(new t: Thread)
      requires all == old(all) + [t] && t !in old(all) && forall x :: x in old(all) ==> unchanged(x)
      ensures Infos() == old(Infos())[t := InfoOf(t)]
    {
    }

    /** thread_create */
    method Create(priority: int) returns (t: Thread)
      requires Valid() && current != idle && PRI_MIN <= priority <= PRI_MAX
      modifies this`all, this`ready, this`levels, this`highest, this`current, all`status, all`level
      ensures Valid() && fresh(t) && t !in old(View()).info && t.base == priority && all == old(all) + [t]
      ensures View() == Created(old(View()), t, priority)
    {
      hide NoDup, Queued, Pushed, Yields, Infos;
      ghost var s := View();
      t := AddThread(priority);
      NewIsBlocked(s, t, priority);
      InfoIs(t);
      PushedOk(View(), t);
      assert forall i :: 0 <= i < |all| ==> all[i] in old(all) || all[i] == t;
      PushReady(t);
      if t.base > current.base {
        Yield();
      }
    }

    /** What lock_acquire and lock_release do to a priority: the queues are left alone. */
    method Donate(t: Thread, priority: int)
      requires Valid() && t in all && PRI_MIN <= priority <= PRI_MAX
      modifies t`priority
      ensures Valid() && View() == Donated(old(View()), t, priority)
    {
      hide NoDup, Queued, Infos;
      InfoIs(t);
      DonatedOk(View(), t, priority);
      t.priority := priority;
      OneChanged(t);
    }

    // ----- Time -----

    /** timer_interrupt and thread_tick.  At most `n` threads are ready. */
    method Tick()
      requires Valid() && Numeric(View(), n) && ReadyCnt(View()) <= n
      modifies this`ticks, this`loadAvg, this`levels, this`highest, all`recentCpu, all`priority, all`level
      ensures Valid() && Numeric(View(), n) && View() == Ticked(old(View()))
    {
      hide NoDup, Queued, RecentOk, LoadOk, Infos, RerankedAll, Second;
      TickedNumeric(View(), n);
      ChargedNumeric(View(), n);
      ChargedOk(View());
      CurrentIn();
      InfoIs(current);
      ticks := ticks + 1;
      if current != idle {
        current.recentCpu := AddInt(current.recentCpu, 1);
        OneChanged(current);
      }
      assert View() == Charged(old(View()));
      if ticks % TIMER_FREQ == 0 {
        SecondOk(View());
        UpdateSecond();
      }
      if ticks % 4 == 0 {
        UpdatePriorities();
      }
    }

    /** update_load_avg, and update_recent_cpu for every thread. */
    method UpdateSecond()
      requires Valid() && NumericAt(View(), n, TIMER_FREQ) && ReadyCnt(View()) <= n
      modifies this`loadAvg, all`recentCpu
      ensures View() == Second(old(View()))
    {
      hide NoDup, Queued, RecentOk, NewLoadAvg, Decayed, InfoOf, Infos, Runs;
      AllDistinct(View());
      LoadAvgBound(loadAvg, ReadyCnt(View()), n);
      loadAvg := NewLoadAvg(loadAvg, |ready| + if current != idle then 1 else 0);
      var i := 0;
      while i < |all|
        invariant 0 <= i <= |all| && loadAvg == Second(old(View())).loadAvg >= 0
        invariant forall k :: 0 <= k < i ==>
          InfoOf(all[k]) == if all[k] == idle then old(InfoOf(all[k])) else Decayed(old(InfoOf(all[k])), loadAvg)
        invariant forall k :: i <= k < |all| ==> InfoOf(all[k]) == old(InfoOf(all[k]))
      {
        var t := all[i];
        Others(all, i);
        UpdateRecentCpu(t);
        i := i + 1;
      }
      AllDecayed();
    }

    /** update_recent_cpu */
    method UpdateRecentCpu(t: Thread)
      requires loadAvg >= 0
      modifies t`recentCpu
      ensures InfoOf(t) == if t == idle then old(InfoOf(t)) else Decayed(old(InfoOf(t)), loadAvg)
    {
      if t != idle {
        t.recentCpu := NewRecentCpu(t.recentCpu, t.nice, loadAvg);
      }
    }

    twostate lemma AllDecayed()
      requires all == old(all) && loadAvg == Second(old(View())).loadAvg
      requires forall k :: 0 <= k < |all| ==>
        InfoOf(all[k]) == if all[k] == idle then old(InfoOf(all[k])) else Decayed(old(InfoOf(all[k])), loadAvg)
      ensures Infos() == Second(old(View())).info
    {
    }

    /** update_priority for every thread. */
    method UpdatePriorities()
      requires Valid()
      modifies this`levels, this`highest, all`priority, all`level
      ensures Valid() && View() == RerankedAll(old(View()), |all|)
    {
      hide NoDup, Queued, Infos, Reranked, Runs;
      RerankedAllOk(View(), 0);
      var i := 0;
      while i < |all|
        invariant 0 <= i <= |all| && Valid() && View() == RerankedAll(old(View()), i)
      {
        RerankedAllOk(old(View()), i + 1);
        UpdatePriority(all[i]);
        i := i + 1;
      }
    }

    /** One event; `t` is the thread that it makes, if it does. */
    method Step(e: Event) returns (more: bool, ghost t: Thread)
      requires Valid() && Numeric(View(), n)
      modifies this, all
      ensures Valid() && Numeric(View(), n)
      ensures more <==> !(e.Tick? && old(ReadyCnt(View())) > n)
      ensures !more ==> View() == old(View())
      ensures more ==> Fits(old(View()), e, t) && View() == Next(old(View()), e, t)
      ensures forall i :: 0 <= i < |all| ==> all[i] in old(all) || fresh(all[i])
    {
      hide Queued, Runs, Numeric, Ticked, Yields, Blocks, Pushed, Created, Picked, NiceSet, Donated, Infos, Gone;
      more, t := true, idle;
      ghost var s := View();
      CurrentIn();
      match e {
        case Tick =>
          more := |ready| + (if current != idle then 1 else 0) <= n;
          if more { this.Tick(); }
        case Yield => this.Yield();
        case Block => this.Block();
        case Unblock(i) =>
          if i < |all| && all[i] != idle && all[i].status == Blocked {
            InfoIs(all[i]);
            this.Unblock(all[i]);
          } else if i < |all| {
            InfoIs(all[i]);
          }
        case Create(priority) =>
          if current != idle && PRI_MIN <= priority <= PRI_MAX {
            var made := this.Create(priority);
            t := made;
          }
        case Exit =>
          if current != idle {
            GoneIn(s);
            this.Exit();
          }
        case Nice(nice) =>
          if NICE_MIN <= nice <= NICE_MAX { SetNice(nice); }
        case Donate(i, priority) =>
          if i < |all| && PRI_MIN <= priority <= PRI_MAX { this.Donate(all[i], priority); }
      }
      if more { NextNumeric(s, e, t, n); }
    }
  }

  lemma GoneIn(s: State)
    requires Ok(s)
    ensures forall t :: t in Picked(Gone(s)).all ==> t in s.all
  {
    hide NoDup, Without;
    WithoutIs(s.all, s.current);
  }

  /** Any run of events is a run of ReadyQueues, up to a tick at which more than `n` threads are
      ready. */
  method Run(s: Scheduler, events: seq<Event>)
    returns (done: nat, ghost ss: seq<State>, ghost news: seq<Thread>)
    requires s.Valid() && Matched(s.View()) && Numeric(s.View(), s.n)
    modifies s, s.all
    ensures s.Valid() && Numeric(s.View(), s.n)
    ensures (forall i :: 0 <= i < |events| ==> !events[i].Donate?) ==> Matched(s.View())
    ensures done <= |events| && IsRun(ss, events[..done], news)
    ensures ss[0] == old(s.View()) && ss[done] == s.View()
    ensures done < |events| ==> events[done].Tick? && ReadyCnt(ss[done]) > s.n
  {
    hide Queued, Runs, Scheduler.View, Numeric, Next, Matched, ReadyCnt, Fits;
    done, ss, news := 0, [s.View()], [];
    while done < |events|
      invariant 0 <= done <= |events| && s.Valid() && Numeric(s.View(), s.n)
      invariant forall i :: 0 <= i < |s.all| ==> s.all[i] in old(s.all) || fresh(s.all[i])
      invariant |ss| == done + 1 && |news| == done && ss[0] == old(s.View()) && ss[done] == s.View()
      invariant forall k :: 0 <= k < done ==>
        Fits(ss[k], events[k], news[k]) && ss[k + 1] == Next(ss[k], events[k], news[k])
    {
      var more, t := s.Step(events[done]);
      if !more {
        break;
      }
      ss, news := ss + [s.View()], news + [t];
      done := done + 1;
    }
    RunOk(ss, events[..done], news, s.n, done);
  }
}
