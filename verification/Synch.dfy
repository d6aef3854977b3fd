/** Semaphores and locks (src/threads/synch.c) as systems of steps.  Each step is what one thread does
    with interrupts off; any thread may take the next one. */
module Synch {
  import opened Words
  import opened Sequences

  // ----- Semaphores -----

  /** struct semaphore.  `woken` are the threads that sema_up has unblocked and that have not tested
      the value again yet. */
  datatype Sema = Sema(value: nat, waiters: seq<nat>, woken: set<nat>)

  /** sema_init */
  function NewSema(value: nat): Sema { Sema(value, [], {}) }

  datatype SemaStep =
    | Pass(t: nat)                            // sema_down or sema_try_down finds a positive value
    | Wait(t: nat, place: nat)                // sema_down finds 0 and blocks, at some place in the list
    | Fail(t: nat)                            // sema_try_down finds 0
    | Up(woken: Option<nat>, rest: seq<nat>)  // sema_up; with waiters it sorts them and unblocks the first

  /** A step that a semaphore may take.  A thread in the list of waiters is blocked. */
  ghost predicate SemaNext(s: Sema, step: SemaStep, s': Sema) {
    match step
    case Pass(t) =>
      && t !in s.waiters && s.value > 0
      && s' == s.(value := s.value - 1, woken := s.woken - {t})
    case Wait(t, place) =>
      && t !in s.waiters && s.value == 0 && place <= |s.waiters|
      && s' == s.(waiters := s.waiters[..place] + [t] + s.waiters[place..], woken := s.woken - {t})
    case Fail(t) =>
      t !in s.waiters && t !in s.woken && s.value == 0 && s' == s
    case Up(None, rest) =>
      s.waiters == [] && s' == s.(value := s.value + 1)
    case Up(Some(woken), rest) =>
      && s.waiters != [] && multiset(s.waiters) == multiset([woken] + rest)
      && s' == s.(value := s.value + 1, waiters := rest, woken := s.woken + {woken})
  }

  /** While threads wait there are at least as many woken threads on their way as the value allows to
      pass: no wakeup is lost. */
  ghost predicate SemaOk(s: Sema) {
    && NoDup(s.waiters) && (forall t :: t in s.waiters ==> t !in s.woken)
    && (s.waiters != [] ==> s.value <= |s.woken|)
  }

  lemma SemaKeeps(s: Sema, step: SemaStep, s': Sema)
    requires SemaOk(s) && SemaNext(s, step, s')
    ensures SemaOk(s')
  {
    match step {
      case Pass(t) =>
      case Wait(t, place) =>
        assert s.waiters == s.waiters[..place] + s.waiters[place..];
      case Fail(t) =>
      case Up(None, rest) =>
      case Up(Some(woken), rest) =>
        Rearranged(s.waiters, [woken] + rest);
        Headed(woken, rest);
    }
  }

  /** What a step does to the value, and who blocks and who is unblocked by it. */
  lemma StepEffect(s: Sema, step: SemaStep, s': Sema)
    requires SemaOk(s) && SemaNext(s, step, s')
    ensures s'.value + (if step.Pass? then 1 else 0) == s.value + if step.Up? then 1 else 0
    ensures Elements(s'.waiters) == Effect(Elements(s.waiters), step)
    ensures |s'.waiters| + Wakes(step) == |s.waiters| + if step.Wait? then 1 else 0
  {
    match step {
      case Pass(t) =>
      case Wait(t, place) =>
        assert s.waiters == s.waiters[..place] + s.waiters[place..];
      case Fail(t) =>
      case Up(None, rest) =>
      case Up(Some(woken), rest) =>
        Rearranged(s.waiters, [woken] + rest);
        Headed(woken, rest);
        assert |multiset(s.waiters)| == |multiset([woken] + rest)|;
    }
  }

  // ----- What the steps of a run amount to -----

  /** The blocked threads after a step, if `blocked` were before it. */
  ghost function Effect(blocked: set<nat>, step: SemaStep): set<nat> {
    match step
    case Wait(t, _) => blocked + {t}
    case Up(Some(woken), _) => blocked - {woken}
    case _ => blocked
  }

  function Wakes(step: SemaStep): nat { if step.Up? && step.woken.Some? then 1 else 0 }

  /** The threads that these steps have blocked and not unblocked again. */
  ghost function BlockedBy(steps: seq<SemaStep>): set<nat> {
    if steps == [] then {} else Effect(BlockedBy(steps[..|steps| - 1]), steps[|steps| - 1])
  }

  /** How many of the steps are of a kind. */
  function Ups(steps: seq<SemaStep>): nat {
    if steps == [] then 0 else Ups(steps[..|steps| - 1]) + if steps[|steps| - 1].Up? then 1 else 0
  }

  function Passes(steps: seq<SemaStep>): nat {
    if steps == [] then 0 else Passes(steps[..|steps| - 1]) + if steps[|steps| - 1].Pass? then 1 else 0
  }

  function Waits(steps: seq<SemaStep>): nat {
    if steps == [] then 0 else Waits(steps[..|steps| - 1]) + if steps[|steps| - 1].Wait? then 1 else 0
  }

  lemma Headed(t: nat, rest: seq<nat>)
    requires NoDup([t] + rest)
    ensures NoDup(rest) && t !in rest && forall x :: x in [t] + rest <==> x == t || x in rest
  {
    var s := [t] + rest;
    assert forall i :: 0 <= i < |rest| ==> rest[i] == s[i + 1];
    assert s[0] == t;
  }

  /** A rearrangement has the same members, each once. */
  lemma Rearranged(s: seq<nat>, r: seq<nat>)
    requires NoDup(s) && multiset(s) == multiset(r)
    ensures NoDup(r) && forall t :: t in r <==> t in s
  {
    forall t
      ensures t in r <==> t in s
    {
      assert t in multiset(s) <==> t in s;
      assert t in multiset(r) <==> t in r;
    }
    forall i, j | 0 <= i < j < |r|
      ensures r[i] != r[j]
    {
      OnceEach(s, r[i]);
      if r[i] == r[j] {
        TwiceIn(r, i, j);
      }
    }
  }

  lemma {:induction false} OnceEach(s: seq<nat>, t: nat)
    requires NoDup(s)
    ensures multiset(s)[t] <= 1
  {
    if s != [] {
      OnceEach(s[1..], t);
      assert s == [s[0]] + s[1..];
      assert s[0] !in s[1..];
      assert s[0] in s[1..] <==> s[0] in multiset(s[1..]);
    }
  }

  lemma TwiceIn(r: seq<nat>, i: nat, j: nat)
    requires i < j < |r| && r[i] == r[j]
    ensures multiset(r)[r[i]] >= 2
  {
    assert r == r[..i] + [r[i]] + r[i + 1..j] + [r[j]] + r[j + 1..];
  }

  /** Runs of a semaphore from sema_init on. */
  ghost predicate SemaRun(states: seq<Sema>, steps: seq<SemaStep>) {
    && |states| == |steps| + 1 && states[0] == NewSema(states[0].value)
    && forall i :: 0 <= i < |steps| ==> SemaNext(states[i], steps[i], states[i + 1])
  }

  /** In every run the value is the initial one and the ups less the downs that passed, the threads
      that wait are exactly those that have blocked and have not been unblocked, and no wakeup is
      lost. */
  lemma {:induction false} SemaRunOk(states: seq<Sema>, steps: seq<SemaStep>, k: nat)
    requires SemaRun(states, steps) && k < |states|
    ensures SemaOk(states[k])
    ensures states[k].value + Passes(steps[..k]) == states[0].value + Ups(steps[..k])
    ensures Elements(states[k].waiters) == BlockedBy(steps[..k])
  {
    hide SemaOk, SemaNext;
    if k == 0 {
      NewSemaOk(states[0].value);
    } else {
      SemaRunOk(states, steps, k - 1);
      assert SemaNext(states[k - 1], steps[k - 1], states[k]);
      SemaKeeps(states[k - 1], steps[k - 1], states[k]);
      StepEffect(states[k - 1], steps[k - 1], states[k]);
      assert steps[..k][..k - 1] == steps[..k - 1];
    }
  }

  lemma NewSemaOk(value: nat)
    ensures SemaOk(NewSema(value)) && Elements(NewSema(value).waiters) == {}
  {
  }

  /** From moment `i` to moment `j`, unless nobody waits at some moment between, each up wakes one of
      the waiters. */
  lemma {:induction false} Drains(states: seq<Sema>, steps: seq<SemaStep>, i: nat, j: nat)
    requires SemaRun(states, steps) && i <= j < |states|
    requires forall m :: i <= m < j ==> states[m].waiters != []
    ensures |states[j].waiters| + Ups(steps[i..j]) == |states[i].waiters| + Waits(steps[i..j])
    decreases j
  {
    hide SemaOk, SemaNext;
    if i < j {
      Drains(states, steps, i, j - 1);
      SemaRunOk(states, steps, j - 1);
      assert SemaNext(states[j - 1], steps[j - 1], states[j]);
      StepEffect(states[j - 1], steps[j - 1], states[j]);
      AlwaysWakes(states[j - 1], steps[j - 1], states[j]);
      var part := steps[i..j];
      assert part[..j - i - 1] == steps[i..j - 1] && part[j - i - 1] == steps[j - 1];
    }
  }

  lemma AlwaysWakes(s: Sema, step: SemaStep, s': Sema)
    requires SemaNext(s, step, s') && s.waiters != []
    ensures Wakes(step) == if step.Up? then 1 else 0
  {
  }

  /** Who no longer waits has been woken. */
  lemma {:induction false} LeftByWaking(states: seq<Sema>, steps: seq<SemaStep>, i: nat, j: nat, t: nat)
    requires SemaRun(states, steps) && i <= j < |states| && t in states[i].waiters && t !in states[j].waiters
    ensures exists k :: i <= k < j && steps[k].Up? && steps[k].woken == Some(t)
    decreases j
  {
    hide SemaOk, SemaNext;
    if t !in states[j - 1].waiters {
      LeftByWaking(states, steps, i, j - 1, t);
    } else {
      SemaRunOk(states, steps, j - 1);
      assert SemaNext(states[j - 1], steps[j - 1], states[j]);
      StepEffect(states[j - 1], steps[j - 1], states[j]);
      assert t in Elements(states[j - 1].waiters) && t !in Elements(states[j].waiters);
      assert steps[j - 1].Up? && steps[j - 1].woken == Some(t);
    }
  }

  /** As many ups as there are waiters, and as join them meanwhile, wake every one of the waiters,
      whatever else happens and in whatever order. */
  lemma EveryoneWakes(states: seq<Sema>, steps: seq<SemaStep>, i: nat, j: nat, t: nat)
    requires SemaRun(states, steps) && i <= j < |states| && t in states[i].waiters
    requires Ups(steps[i..j]) >= |states[i].waiters| + Waits(steps[i..j])
    ensures exists k :: i <= k < j && steps[k].Up? && steps[k].woken == Some(t)
  {
    hide SemaNext;
    if forall m :: i <= m < j ==> states[m].waiters != [] {
      Drains(states, steps, i, j);
      assert states[j].waiters == [];
      LeftByWaking(states, steps, i, j, t);
    } else {
      var m :| i <= m < j && states[m].waiters == [];
      LeftByWaking(states, steps, i, m, t);
    }
  }

  // ----- The operations on a semaphore -----

  ghost predicate Descending(s: seq<nat>, prio: nat -> int) {
    forall i, j :: 0 <= i < j < |s| ==> prio(s[i]) >= prio(s[j])
  }

  /** `t` has the highest priority, and no other that has it is before it. */
  ghost predicate FirstHighest(s: seq<nat>, prio: nat -> int, t: nat) {
    && (forall u :: u in s ==> prio(u) <= prio(t))
    && exists i :: 0 <= i < |s| && s[i] == t && forall j :: 0 <= j < i ==> prio(s[j]) < prio(t)
  }

  /** list_sort by descending priority, which is stable. */
  function SortDesc(s: seq<nat>, prio: nat -> int): seq<nat> {
    if s == [] then [] else Before(s[0], SortDesc(s[1..], prio), prio)
  }

  function Before(x: nat, s: seq<nat>, prio: nat -> int): seq<nat> {
    if s == [] || prio(s[0]) <= prio(x) then [x] + s else [s[0]] + Before(x, s[1..], prio)
  }

  lemma {:induction false} BeforeIs(x: nat, s: seq<nat>, prio: nat -> int)
    requires Descending(s, prio)
    ensures
      var r := Before(x, s, prio);
      && multiset(r) == multiset{x} + multiset(s) && r != [] && Descending(r, prio)
      && r[0] == if s == [] || prio(s[0]) <= prio(x) then x else s[0]
  {
    if s == [] || prio(s[0]) <= prio(x) {
      assert multiset([x] + s) == multiset{x} + multiset(s);
    } else {
      BeforeIs(x, s[1..], prio);
      var r := Before(x, s[1..], prio);
      assert s == [s[0]] + s[1..];
      assert multiset([s[0]] + r) == multiset{s[0]} + multiset(r);
      Prepended(s[0], r, prio);
    }
  }

  lemma Prepended(x: nat, r: seq<nat>, prio: nat -> int)
    requires Descending(r, prio) && (r != [] ==> prio(r[0]) <= prio(x))
    ensures Descending([x] + r, prio)
  {
  }

  /** The first of the result is the first of the highest. */
  lemma {:induction false} SortDescIs(s: seq<nat>, prio: nat -> int)
    ensures
      var r := SortDesc(s, prio);
      multiset(r) == multiset(s) && Descending(r, prio) && (s != [] ==> r != [] && FirstHighest(s, prio, r[0]))
  {
    hide Descending, FirstHighest, Before;
    if s == [] {
      assert Descending([], prio) by { Sole([], prio); }
    } else {
      var q := SortDesc(s[1..], prio);
      SortDescIs(s[1..], prio);
      BeforeIs(s[0], q, prio);
      assert s == [s[0]] + s[1..];
      if s[1..] == [] {
        assert |multiset(q)| == |multiset(s[1..])| == 0;
        Sole(s, prio);
      } else {
        FirstStep(s[0], s[1..], q[0], SortDesc(s, prio)[0], prio);
      }
    }
  }

  lemma Sole(s: seq<nat>, prio: nat -> int)
    requires |s| <= 1
    ensures Descending(s, prio) && (s != [] ==> FirstHighest(s, prio, s[0]))
  {
  }

  lemma FirstStep(x: nat, q: seq<nat>, h: nat, t: nat, prio: nat -> int)
    requires FirstHighest(q, prio, h) && t == if prio(h) <= prio(x) then x else h
    ensures FirstHighest([x] + q, prio, t)
  {
    var s := [x] + q;
    if prio(h) <= prio(x) {
      assert s[0] == x;
    } else {
      var i :| 0 <= i < |q| && q[i] == h && forall j :: 0 <= j < i ==> prio(q[j]) < prio(h);
      assert s[i + 1] == h && forall j :: 0 <= j < i + 1 ==> prio(s[j]) < prio(h);
    }
  }

  class Semaphore {
    var value: nat
    var waiters: seq<nat>
    ghost var woken: set<nat>

    ghost function State(): Sema
      reads this
    {
      Sema(value, waiters, woken)
    }

    constructor (value: nat)
      ensures State() == NewSema(value)
    {
      this.value, waiters, woken := value, [], {};
    }

    /** One test of the loop in sema_down by thread `t`: it passes, or waits to be woken. */
    method DownTest(t: nat, prio: nat -> int) returns (passed: bool, ghost step: SemaStep)
      requires t !in waiters
      modifies this
      ensures passed <==> old(value) > 0
      ensures step == Pass(t) || (step.Wait? && step.t == t)
      ensures SemaNext(old(State()), step, State())
    {
      woken := woken - {t};
      if value == 0 {
        var place := Place(waiters, prio, t);
        waiters := waiters[..place] + [t] + waiters[place..];
        return false, Wait(t, place);
      }
      value := value - 1;
      return true, Pass(t);
    }

    /** sema_try_down by a thread that is not itself in sema_down. */
    method TryDown(t: nat) returns (success: bool)
      requires t !in waiters && t !in woken
      modifies this
      ensures success <==> old(value) > 0
      ensures SemaNext(old(State()), if success then Pass(t) else Fail(t), State())
    {
      if value > 0 {
        value := value - 1;
        assert woken - {t} == woken;
        success := true;
      } else {
        success := false;
      }
    }

    /** sema_up: of the waiters with the highest priority the first in the list is unblocked, if there
        is one. */
    method Up(prio: nat -> int) returns (t: Option<nat>, ghost step: SemaStep)
      modifies this
      ensures t.None? <==> old(waiters) == []
      ensures t.Some? ==> FirstHighest(old(waiters), prio, t.value)
      ensures t.Some? ==> multiset([t.value] + waiters) == multiset(old(waiters))
      ensures Descending(waiters, prio)
      ensures step.Up? && step.woken == t && SemaNext(old(State()), step, State())
    {
      hide FirstHighest, Descending, SortDesc, SemaNext;
      t, step := None, SemaStep.Up(None, []);
      if waiters == [] {
        Sole([], prio);
        UpAlone(State());
      } else {
        var sorted := SortDesc(waiters, prio);
        SortDescIs(waiters, prio);
        Rest(sorted, prio);
        UpWaking(State(), sorted[0], sorted[1..]);
        t, step := Some(sorted[0]), SemaStep.Up(Some(sorted[0]), sorted[1..]);
        waiters := sorted[1..];
        woken := woken + {sorted[0]};
      }
      value := value + 1;
    }
  }

  lemma UpAlone(s: Sema)
    requires s.waiters == []
    ensures SemaNext(s, Up(None, []), s.(value := s.value + 1))
  {
  }

  lemma UpWaking(s: Sema, t: nat, rest: seq<nat>)
    requires s.waiters != [] && multiset(s.waiters) == multiset([t] + rest)
    ensures SemaNext(s, Up(Some(t), rest), s.(value := s.value + 1, waiters := rest, woken := s.woken + {t}))
  {
  }

  lemma Rest(s: seq<nat>, prio: nat -> int)
    requires s != [] && Descending(s, prio)
    ensures s == [s[0]] + s[1..] && Descending(s[1..], prio)
  {
    assert s == [s[0]] + s[1..];
  }

  // ----- Locks -----

  /** Where a thread is in lock_acquire and lock_release. */
  datatype Pc =
    | Outside
    | Entering   // in sema_down, about to test the value
    | Blocked    // in sema_down, waiting to be woken
    | Passed     // past sema_down; holder not set yet
    | Owner      // lock_acquire has returned
    | Releasing  // holder cleared; sema_up still to come

  /** struct lock and the threads that use it. */
  datatype Lock = Lock(sema: Sema, holder: Option<nat>, pc: map<nat, Pc>)

  /** lock_init */
  function NewLock(): Lock { Lock(NewSema(1), None, map[]) }

  function At(l: Lock, t: nat): Pc { if t in l.pc then l.pc[t] else Outside }

  datatype LockStep =
    | Acquire(t: nat)
    | Down(t: nat, step: SemaStep)
    | SetHolder(t: nat)
    | Release(t: nat)
    | SemaUp(t: nat, step: SemaStep)

  function Resumed(pc: map<nat, Pc>, woken: Option<nat>): map<nat, Pc> {
    if woken.Some? then pc[woken.value := Entering] else pc
  }

  ghost predicate LockNext(l: Lock, step: LockStep, l': Lock) {
    match step
    case Acquire(t) =>
      At(l, t) == Outside && l' == l.(pc := l.pc[t := Entering])
    case Down(t, s) =>
      && At(l, t) == Entering && (s == Pass(t) || (s.Wait? && s.t == t)) && SemaNext(l.sema, s, l'.sema)
      && l' == l.(sema := l'.sema, pc := l.pc[t := if s.Pass? then Passed else Blocked])
    case SetHolder(t) =>
      At(l, t) == Passed && l' == l.(holder := Some(t), pc := l.pc[t := Owner])
    case Release(t) =>
      At(l, t) == Owner && l' == l.(holder := None, pc := l.pc[t := Releasing])
    case SemaUp(t, s) =>
      && At(l, t) == Releasing && s.Up? && SemaNext(l.sema, s, l'.sema)
      && l' == l.(sema := l'.sema, pc := Resumed(l.pc[t := Outside], s.woken))
  }

  /** The threads between the sema_down of lock_acquire and the sema_up of lock_release. */
  ghost function Inside(l: Lock): set<nat> {
    set t | t in l.pc && l.pc[t] in {Passed, Owner, Releasing}
  }

  /** The value and the threads inside add up to one, the holder is the owner, and the blocked threads
      are exactly those in the list of waiters. */
  ghost predicate LockOk(l: Lock) {
    && SemaOk(l.sema) && l.sema.value + |Inside(l)| == 1
    && (forall t: nat :: l.holder == Some(t) <==> At(l, t) == Owner)
    && (forall t: nat :: At(l, t) == Blocked <==> t in Elements(l.sema.waiters))
    && (forall t: nat :: t in l.sema.woken ==> At(l, t) == Entering)
  }

  lemma LockKeeps(l: Lock, step: LockStep, l': Lock)
    requires LockOk(l) && LockNext(l, step, l')
    ensures LockOk(l')
  {
    hide SemaOk, SemaNext, Elements;
    match step {
      case Acquire(t) =>
        assert Inside(l') == Inside(l);
      case Down(t, s) =>
        DownKeeps(l, t, s, l');
      case SetHolder(t) =>
        HolderKeeps(l, t, l');
      case Release(t) =>
        assert Inside(l') == Inside(l);
      case SemaUp(t, s) =>
        UpKeeps(l, t, s, l');
    }
  }

  lemma DownKeeps(l: Lock, t: nat, s: SemaStep, l': Lock)
    requires LockOk(l) && LockNext(l, Down(t, s), l')
    ensures LockOk(l')
  {
    hide SemaOk, SemaNext, Elements, Inside, Effect, At;
    SemaKeeps(l.sema, s, l'.sema);
    StepEffect(l.sema, s, l'.sema);
    WokenAfter(l.sema, s, l'.sema);
    InsideWith(l, t, l');
    EffectIs(Elements(l.sema.waiters), s);
    forall u: nat
      ensures At(l', u) == if u == t then (if s.Pass? then Passed else Blocked) else At(l, u)
    {
      AtWith(l, t, l', u);
    }
  }

  lemma AtWith(l: Lock, t: nat, l': Lock, u: nat)
    requires t in l'.pc && l'.pc == l.pc[t := l'.pc[t]]
    ensures At(l', u) == if u == t then l'.pc[t] else At(l, u)
  {
  }

  /** Who is inside when one thread moves on. */
  lemma InsideWith(l: Lock, t: nat, l': Lock)
    requires t in l'.pc && l'.pc == l.pc[t := l'.pc[t]] && At(l, t) !in {Passed, Owner, Releasing}
    ensures Inside(l') == if l'.pc[t] in {Passed, Owner, Releasing} then Inside(l) + {t} else Inside(l)
    ensures |Inside(l')| == |Inside(l)| + if l'.pc[t] in {Passed, Owner, Releasing} then 1 else 0
  {
    assert Inside(l') == if l'.pc[t] in {Passed, Owner, Releasing} then Inside(l) + {t} else Inside(l);
  }

  lemma EffectIs(blocked: set<nat>, step: SemaStep)
    ensures step.Pass? ==> Effect(blocked, step) == blocked
    ensures step.Wait? ==> Effect(blocked, step) == blocked + {step.t}
  {
  }

  /** A step concerns only the thread that takes it and the one that it wakes. */
  lemma WokenAfter(s: Sema, step: SemaStep, s': Sema)
    requires SemaNext(s, step, s')
    ensures forall u :: u in s'.woken ==> u in s.woken || (step.Up? && step.woken == Some(u))
    ensures step.Pass? || step.Wait? ==> step.t !in s'.woken
    ensures step.Up? && step.woken.Some? ==> step.woken.value in s.waiters
  {
    if step.Up? && step.woken.Some? {
      assert step.woken.value in multiset([step.woken.value] + step.rest);
    }
  }

  lemma HolderKeeps(l: Lock, t: nat, l': Lock)
    requires LockOk(l) && LockNext(l, SetHolder(t), l')
    ensures LockOk(l')
  {
    hide SemaOk, Elements;
    AtMostOne(l);
    assert t in Inside(l);
    assert Inside(l') == Inside(l);
    forall u: nat
      ensures l'.holder == Some(u) <==> At(l', u) == Owner
    {
      assert At(l, u) == Owner ==> u in Inside(l);
    }
  }

  lemma UpKeeps(l: Lock, t: nat, s: SemaStep, l': Lock)
    requires LockOk(l) && LockNext(l, SemaUp(t, s), l')
    ensures LockOk(l')
  {
    hide SemaOk, SemaNext;
    SemaKeeps(l.sema, s, l'.sema);
    StepEffect(l.sema, s, l'.sema);
    WokenAfter(l.sema, s, l'.sema);
    assert s.woken.Some? ==> At(l, s.woken.value) == Blocked;
    assert Inside(l') == Inside(l) - {t};
  }

  /** Mutual exclusion. */
  lemma AtMostOne(l: Lock)
    requires LockOk(l)
    ensures forall t, u :: t in Inside(l) && u in Inside(l) ==> t == u
  {
    forall t, u | t in Inside(l) && u in Inside(l)
      ensures t == u
    {
      assert {t, u} <= Inside(l);
      SubsetSize({t, u}, Inside(l));
    }
  }

  ghost predicate LockRun(states: seq<Lock>, steps: seq<LockStep>) {
    && |states| == |steps| + 1 && states[0] == NewLock()
    && forall i :: 0 <= i < |steps| ==> LockNext(states[i], steps[i], states[i + 1])
  }

  lemma {:induction false} LockRunOk(states: seq<Lock>, steps: seq<LockStep>, k: nat)
    requires LockRun(states, steps) && k < |states|
    ensures LockOk(states[k])
  {
    if k == 0 {
      assert Inside(states[0]) == {};
    } else {
      LockRunOk(states, steps, k - 1);
      assert LockNext(states[k - 1], steps[k - 1], states[k]);
      LockKeeps(states[k - 1], steps[k - 1], states[k]);
    }
  }

  /** At every point of every run of any number of threads: at most one thread is inside, a non-null
      holder is that thread, the blocked threads are those in the list of waiters, and if a thread
      is blocked while none is inside, some thread that has been woken is about to test the
      semaphore, and will pass. */
  lemma LockIsSafe(states: seq<Lock>, steps: seq<LockStep>, k: nat)
    requires LockRun(states, steps) && k < |states|
    ensures forall t, u :: t in Inside(states[k]) && u in Inside(states[k]) ==> t == u
    ensures states[k].holder.Some? ==> Inside(states[k]) == {states[k].holder.value}
    ensures forall t: nat :: At(states[k], t) == Blocked <==> t in states[k].sema.waiters
    ensures Inside(states[k]) == {} && states[k].sema.waiters != [] ==>
      states[k].sema.value == 1 && states[k].sema.woken != {}
  {
    var l := states[k];
    LockRunOk(states, steps, k);
    AtMostOne(l);
    if l.holder.Some? {
      assert l.holder.value in Inside(l);
    }
  }

  /** The next step of a thread that is not blocked. */
  ghost predicate CanStep(l: Lock, t: nat) {
    exists step, l' :: LockNext(l, step, l') && step.t == t
  }

  /** There is no deadlock: a thread that is not blocked can always take its next step, and whenever a
      thread is blocked, one that is not is inside or about to enter. */
  lemma NoDeadlock(states: seq<Lock>, steps: seq<LockStep>, k: nat, t: nat)
    requires LockRun(states, steps) && k < |states|
    ensures CanStep(states[k], t) <==> At(states[k], t) != Blocked
    ensures At(states[k], t) == Blocked ==>
      exists u :: u in states[k].pc && states[k].pc[u] in {Entering, Passed, Owner, Releasing} && CanStep(states[k], u)
  {
    hide LockNext, LockOk;
    LockRunOk(states, steps, k);
    Steps(states[k], t);
    if At(states[k], t) == Blocked {
      var u := SomeoneMoves(states[k], t);
      Steps(states[k], u);
    }
  }

  lemma SomeoneMoves(l: Lock, t: nat) returns (u: nat)
    requires LockOk(l) && At(l, t) == Blocked
    ensures u in l.pc && l.pc[u] in {Entering, Passed, Owner, Releasing}
  {
    if Inside(l) != {} {
      u :| u in Inside(l);
    } else {
      assert l.sema.value == 1 && t in l.sema.waiters;
      assert l.sema.woken != {};
      u :| u in l.sema.woken;
    }
  }

  lemma Steps(l: Lock, t: nat)
    requires LockOk(l)
    ensures CanStep(l, t) <==> At(l, t) != Blocked
  {
    match At(l, t)
    case Outside => assert LockNext(l, Acquire(t), l.(pc := l.pc[t := Entering]));
    case Entering =>
      if l.sema.value > 0 {
        var s' := l.sema.(value := l.sema.value - 1, woken := l.sema.woken - {t});
        assert LockNext(l, Down(t, Pass(t)), l.(sema := s', pc := l.pc[t := Passed]));
      } else {
        var s' := l.sema.(waiters := l.sema.waiters[..0] + [t] + l.sema.waiters[0..], woken := l.sema.woken - {t});
        assert LockNext(l, Down(t, Wait(t, 0)), l.(sema := s', pc := l.pc[t := Blocked]));
      }
    case Blocked =>
    case Passed => assert LockNext(l, SetHolder(t), l.(holder := Some(t), pc := l.pc[t := Owner]));
    case Owner => assert LockNext(l, Release(t), l.(holder := None, pc := l.pc[t := Releasing]));
    case Releasing => UpSteps(l, t);
  }

  lemma UpSteps(l: Lock, t: nat)
    requires At(l, t) == Releasing
    ensures CanStep(l, t)
  {
    var w := l.sema.waiters;
    if w == [] {
      var s' := l.sema.(value := l.sema.value + 1);
      assert LockNext(l, SemaUp(t, Up(None, [])), l.(sema := s', pc := l.pc[t := Outside]));
    } else {
      assert w == [w[0]] + w[1..];
      var s' := l.sema.(value := l.sema.value + 1, waiters := w[1..], woken := l.sema.woken + {w[0]});
      var up := Up(Some(w[0]), w[1..]);
      assert LockNext(l, SemaUp(t, up), l.(sema := s', pc := Resumed(l.pc[t := Outside], up.woken)));
    }
  }

  /** The assertions of lock_acquire and lock_release hold: a thread that enters does not hold the
      lock, and one that releases it does. */
  lemma LockAsserts(states: seq<Lock>, steps: seq<LockStep>, k: nat)
    requires LockRun(states, steps) && k < |steps|
    ensures steps[k].Acquire? ==> states[k].holder != Some(steps[k].t)
    ensures steps[k].Release? ==> states[k].holder == Some(steps[k].t)
  {
    LockRunOk(states, steps, k);
    assert LockNext(states[k], steps[k], states[k + 1]);
  }
}
