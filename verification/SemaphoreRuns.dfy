/** What holds of the RTDM semaphore on every run, for any number of threads and any interleaving. */
module SemaphoreRuns {
  import opened Semaphore

  /** Threads that have decremented `count` and have not yet been accounted for in `sleepers`. */
  function InFlightSet(m: map<Tid, Phase>): set<Tid> { set t | t in m && InFlight(m[t]) }

  /** Permits: what an abstract counting semaphore would hold in this state. */
  function Permits(s: Sem): int { s.count + s.sleepers + |InFlightSet(s.phase)| }

  /** The change of an abstract counting semaphore: one up, one successful down, or nothing. */
  function Gain(e: Step): int {
    match e
    case Up(_) => 1
    case FastDown(_, _) => -1
    case Win(_) => -1
    case _ => 0
  }

  predicate SomeQueued(s: Sem) { exists t :: t in s.phase && Queued(s.phase[t]) }

  predicate NoneAwake(s: Sem) { forall t :: t in s.phase ==> !s.phase[t].Awake? }

  predicate NoneRaised(s: Sem) { forall t :: t in s.phase ==> !s.phase[t].Raised? }

  /** The invariant before destroy, against the abstract value `permits`. */
  predicate Inv(s: Sem, permits: int) {
    !s.destroyed ==>
      && 0 <= s.sleepers <= 1
      && 0 <= permits == Permits(s)
      && (SomeQueued(s) && NoneAwake(s) && NoneRaised(s) ==> s.count < 0)
  }

  lemma InFlightMember(m: map<Tid, Phase>, t: Tid, p: Phase)
    ensures t in InFlightSet(m) <==> t in m && InFlight(m[t])
    ensures InFlightSet(m[t := p]) == InFlightSet(m) - {t} + if InFlight(p) then {t} else {}
  {
  }

  lemma InFlightPut(m: map<Tid, Phase>, t: Tid, p: Phase)
    ensures InFlightSet(m[t := p]) == InFlightSet(m) - {t} + if InFlight(p) then {t} else {}
    ensures |InFlightSet(m[t := p])| ==
            |InFlightSet(m)| + (if InFlight(p) then 1 else 0) - (if t in m && InFlight(m[t]) then 1 else 0)
  {
    hide InFlightSet, InFlight;
    InFlightMember(m, t, p);
  }

  lemma InFlightDrop(m: map<Tid, Phase>, t: Tid)
    ensures |InFlightSet(m - {t})| == |InFlightSet(m)| - (if t in m && InFlight(m[t]) then 1 else 0)
  {
    assert InFlightSet(m - {t}) == InFlightSet(m) - {t};
  }

  /** Waking changes no permit; afterwards somebody is awake unless the queue is empty. */
  lemma WakesOneKeeps(s: Sem, s': Sem)
    requires WakesOne(s, s')
    ensures Permits(s') == Permits(s) && s'.(phase := s.phase) == s
    ensures SomeQueued(s') ==> !NoneAwake(s')
  {
    hide InFlightSet;
    if w :| AsleepIn(s, w) {
      var w' :| AsleepIn(s, w') && s' == Woken(s, w');
      InFlightPut(s.phase, w', Awake(s.phase[w'].mode));
      assert w' in s'.phase && s'.phase[w'].Awake?;
    } else if SomeQueued(s) {
      var q :| q in s.phase && Queued(s.phase[q]);
      assert !AsleepIn(s, q);
    }
  }

  /** The state in which the final wake_up of a step happens. */
  function BeforeWake(s: Sem, e: Step): Sem
    requires e.TryFail? || ((e.GiveUp? || e.Win? || e.Removed?) && CanRun(s, e.t)) || e.Wake?
  {
    var r := Without(s, e.t);
    match e
    case TryFail(_) => r.(count := s.count + s.sleepers + 1, sleepers := 0)
    case GiveUp(t, _) => r.(count := s.count + SleepersSeenBy(s, t), sleepers := 0)
    case Win(t) => r.(count := s.count + SleepersSeenBy(s, t) - 1, sleepers := 0)
    case Removed(t) => r.(sleepers := SleepersSeenBy(s, t))
    case _ => r
  }

  /** A section that leaves the queue wakes a successor. */
  lemma LeaveConserves(s: Sem, e: Step, s': Sem)
    requires Next(s, e, s') && (e.TryFail? || e.GiveUp? || e.Win?)
    ensures Permits(s') == Permits(s) + Gain(e)
    ensures s'.sleepers == 0 && s'.destroyed == s.destroyed
    ensures s'.count < 0 || (SomeQueued(s') ==> !NoneAwake(s'))
    ensures e.Win? ==> s'.count >= 0
  {
    InFlightDrop(s.phase, e.t);
    var r := BeforeWake(s, e);
    if e.TryFail? && r.count < 0 {
      assert s' == r;
    } else {
      WakesOneKeeps(r, s');
    }
  }

  /** The steps that change the phase of one thread and wake nobody. */
  lemma MoveConserves(s: Sem, e: Step, s': Sem)
    requires Next(s, e, s') && !s.destroyed
    requires e.FastDown? || e.SlowDown? || e.Enter? || e.Sleep? || e.Up? || e.Disturb?
    ensures Permits(s') == Permits(s) + Gain(e)
  {
    hide InFlightSet;
    if e.FastDown? || s'.phase == s.phase {
      assert s'.phase == s.phase;
    } else {
      InFlightPut(s.phase, e.t, s'.phase[e.t]);
    }
  }

  /** The wake-ups of `up` and of `destroy`. */
  lemma WakeConserves(s: Sem, e: Step, s': Sem)
    requires Next(s, e, s') && (e.Wake? || e.WakeAll?)
    ensures Permits(s') == Permits(s) + Gain(e)
    ensures s'.(phase := s.phase) == s && (SomeQueued(s') ==> !NoneAwake(s'))
  {
    var r := Without(s, e.t);
    InFlightDrop(s.phase, e.t);
    if e.Wake? {
      WakesOneKeeps(r, s');
    } else {
      assert InFlightSet(s'.phase) == InFlightSet(r.phase);
    }
  }

  /** Steps that a live semaphore cannot make, and the one that ends its life. */
  predicate DestroyStep(e: Step) { e.Refuse? || e.Removed? || e.Mark? }

  lemma DestroyedStays(s: Sem, e: Step, s': Sem)
    requires Next(s, e, s')
    ensures s.destroyed ==> s'.destroyed
    ensures s'.destroyed <==> s.destroyed || e.Mark?
    ensures DestroyStep(e) ==> s'.destroyed
  {
    if e.TryFail? || e.GiveUp? || e.Win? {
      LeaveConserves(s, e, s');
    } else if e.Wake? || e.Removed? {
      WakesOneKeeps(BeforeWake(s, e), s');
    }
  }

  /** Conservation of one step: `count`, `sleepers` and the decrements in flight move together by
      exactly what the abstract semaphore moves. An exit with -EINTR, -ETIMEDOUT or -EWOULDBLOCK
      therefore gives back exactly the decrement its call made. */
  lemma StepConserves(s: Sem, e: Step, s': Sem)
    requires Next(s, e, s') && !s'.destroyed
    ensures Permits(s') == Permits(s) + Gain(e)
  {
    DestroyedStays(s, e, s');
    if e.TryFail? || e.GiveUp? || e.Win? {
      LeaveConserves(s, e, s');
    } else if e.Wake? || e.WakeAll? {
      WakeConserves(s, e, s');
    } else {
      MoveConserves(s, e, s');
    }
  }

  /** `sleepers` stays 0 or 1, and sleepers are never stranded with a non-negative `count`. */
  lemma StepKeepsInv(s: Sem, e: Step, s': Sem, permits: int)
    requires Inv(s, permits) && Next(s, e, s')
    ensures Inv(s', permits + Gain(e))
  {
    DestroyedStays(s, e, s');
    if !s'.destroyed {
      StepConserves(s, e, s');
      if e.TryFail? || e.GiveUp? || e.Win? {
        LeaveConserves(s, e, s');
      } else if e.Wake? || e.WakeAll? {
        WakeConserves(s, e, s');
      } else {
        MoveKeepsInv(s, e, s');
      }
    }
  }

  lemma MoveKeepsInv(s: Sem, e: Step, s': Sem)
    requires Next(s, e, s') && !s.destroyed && Inv(s, Permits(s))
    requires e.FastDown? || e.SlowDown? || e.Enter? || e.Sleep? || e.Up? || e.Disturb?
    ensures 0 <= s'.sleepers <= 1
    ensures Permits(s) + Gain(e) >= 0
    ensures SomeQueued(s') && NoneAwake(s') && NoneRaised(s') ==> s'.count < 0
  {
    if e.Disturb? {
      assert s'.phase[e.t].Awake?;
    } else if e.Up? && s.count + 1 <= 0 {
      assert s'.phase[e.t].Raised?;
    } else if !e.Sleep? {
      assert forall x :: x in s.phase && x != e.t ==> x in s'.phase && s'.phase[x] == s.phase[x];
      assert forall x :: x in s'.phase && Queued(s'.phase[x]) ==> x in s.phase && s.phase[x] == s'.phase[x];
      assert SomeQueued(s') ==> SomeQueued(s);
      assert NoneAwake(s') ==> NoneAwake(s);
      assert NoneRaised(s') ==> NoneRaised(s);
    }
  }

  /** A run from rtdm_sem_init(val). */
  ghost predicate Run(val: nat, ss: seq<Sem>, es: seq<Step>) {
    && |ss| == |es| + 1
    && ss[0] == Sem(val, 0, false, map[])
    && forall i :: 0 <= i < |es| ==> Next(ss[i], es[i], ss[i + 1])
  }

  function Ups(es: seq<Step>): nat {
    if es == [] then 0 else Ups(es[..|es| - 1]) + if es[|es| - 1].Up? then 1 else 0
  }

  /** Calls that returned 0. */
  function Downs(es: seq<Step>): nat {
    if es == [] then 0
    else Downs(es[..|es| - 1]) + if es[|es| - 1].FastDown? || es[|es| - 1].Win? then 1 else 0
  }

  lemma {:induction false} RunKeepsInv(val: nat, ss: seq<Sem>, es: seq<Step>)
    requires Run(val, ss, es)
    ensures Inv(ss[|es|], val + Ups(es) - Downs(es))
  {
    if es != [] {
      var n := |es| - 1;
      RunKeepsInv(val, ss[..|es|], es[..n]);
      StepKeepsInv(ss[n], es[n], ss[n + 1], val + Ups(es[..n]) - Downs(es[..n]));
    }
  }

  /** Conservation on every run before destroy: the semaphore refines a plain counter that starts at
      `val`, and there are never more successful downs than permits. */
  lemma Conservation(val: nat, ss: seq<Sem>, es: seq<Step>)
    requires Run(val, ss, es) && !ss[|es|].destroyed
    ensures ss[|es|].count + ss[|es|].sleepers + |InFlightSet(ss[|es|].phase)| == val + Ups(es) - Downs(es)
    ensures 0 <= ss[|es|].sleepers <= 1
    ensures Downs(es) <= val + Ups(es)
  {
    RunKeepsInv(val, ss, es);
  }

  /** No lost wake-up: when threads are queued, all of them asleep, and no up or down is in flight,
      every permit ever given has been taken. */
  lemma NoLostWakeUp(val: nat, ss: seq<Sem>, es: seq<Step>)
    requires Run(val, ss, es)
    requires var s := ss[|es|];
      !s.destroyed && SomeQueued(s) && NoneAwake(s) && NoneRaised(s) && InFlightSet(s.phase) == {}
    ensures val + Ups(es) == Downs(es)
    ensures ss[|es|].count == -1 && ss[|es|].sleepers == 1
  {
    RunKeepsInv(val, ss, es);
  }

  /** A waiter that runs undisturbed gets a permit exactly when more permits exist than there are
      other downs in flight that could still claim one. */
  lemma SectionWinsIff(val: nat, ss: seq<Sem>, es: seq<Step>, t: Tid)
    requires Run(val, ss, es) && !ss[|es|].destroyed && CanRun(ss[|es|], t)
    ensures var s := ss[|es|];
      s.count + SleepersSeenBy(s, t) - 1 >= 0 <==>
      val + Ups(es) - Downs(es) > |InFlightSet(s.phase) - {t}|
  {
    RunKeepsInv(val, ss, es);
    var s := ss[|es|];
    if s.phase[t].Entering? {
      assert t in InFlightSet(s.phase);
    } else {
      assert InFlightSet(s.phase) - {t} == InFlightSet(s.phase);
    }
  }

  /** The events of a slow path that need a live semaphore. */
  predicate LiveOnly(e: Step) { e.Enter? || e.Sleep? || e.Win? || e.GiveUp? }

  lemma {:induction false} DestroyedFrom(ss: seq<Sem>, es: seq<Step>, i: nat, j: nat, val: nat)
    requires Run(val, ss, es) && i <= j < |ss| && ss[i].destroyed
    ensures ss[j].destroyed
    decreases j
  {
    if i < j {
      DestroyedFrom(ss, es, i, j - 1, val);
      DestroyedStays(ss[j - 1], es[j - 1], ss[j]);
    }
  }

  ghost predicate NoneAsleep(s: Sem) { forall t :: !AsleepIn(s, t) }

  /** What a step of one thread can do to another: wake it up, nothing else. */
  predicate AtMostWoken(s: Sem, s': Sem, x: Tid) {
    && (x in s.phase <==> x in s'.phase)
    && (x in s.phase ==>
          s'.phase[x] == s.phase[x] || (s.phase[x].Asleep? && s'.phase[x] == Awake(s.phase[x].mode)))
  }

  lemma OthersAtMostWoken(s: Sem, e: Step, s': Sem, x: Tid)
    requires Next(s, e, s') && x != e.t
    ensures AtMostWoken(s, s', x)
  {
    if e.TryFail? || e.GiveUp? || e.Win? || e.Removed? || e.Wake? {
      var r := BeforeWake(s, e);
      assert s' == r || WakesOne(r, s');
    }
  }

  lemma StaysAwake(s: Sem, e: Step, s': Sem)
    requires Next(s, e, s') && s.destroyed && NoneAsleep(s)
    ensures NoneAsleep(s')
  {
    forall x ensures !AsleepIn(s', x) {
      assert !AsleepIn(s, x);
      if x != e.t {
        OthersAtMostWoken(s, e, s', x);
      } else if e.TryFail? || e.GiveUp? || e.Win? || e.Removed? || e.Wake? {
        var r := BeforeWake(s, e);
        assert s' == r || WakesOne(r, s');
      }
    }
  }

  /** Destroying states that are still between set_bit and wake_up_all carry the mark. */
  lemma {:induction false} DestroyerMarks(ss: seq<Sem>, es: seq<Step>, i: nat, val: nat, t: Tid)
    requires Run(val, ss, es) && i < |ss| && t in ss[i].phase && ss[i].phase[t].Destroying?
    ensures ss[i].destroyed
    decreases i
  {
    if i > 0 {
      var s, e, s' := ss[i - 1], es[i - 1], ss[i];
      DestroyedStays(s, e, s');
      if !e.Mark? {
        if t != e.t { OthersAtMostWoken(s, e, s', t); }
        assert t in s.phase && s.phase[t].Destroying?;
        DestroyerMarks(ss, es, i - 1, val, t);
      }
    }
  }

  /** Destroy releases everyone: after rtdm_sem_destroy has finished nobody is asleep in any later
      state, and no slow path enters the queue, sleeps, succeeds or times out any more. */
  lemma {:induction false} DestroyReleases(val: nat, ss: seq<Sem>, es: seq<Step>, i: nat, j: nat)
    requires Run(val, ss, es) && i < j < |ss| && es[i].WakeAll?
    ensures ss[j].destroyed && NoneAsleep(ss[j])
    ensures j < |es| ==> !LiveOnly(es[j])
    decreases j
  {
    assert Next(ss[i], es[i], ss[i + 1]);
    DestroyerMarks(ss, es, i, val, es[i].t);
    DestroyedFrom(ss, es, i, j, val);
    if j > i + 1 {
      DestroyReleases(val, ss, es, i, j - 1);
      StaysAwake(ss[j - 1], es[j - 1], ss[j]);
    }
    if j < |es| {
      assert Next(ss[j], es[j], ss[j + 1]);
    }
  }

  /** A slow-path call that starts once the mark is set is refused with -EIDRM: that is the next
      step of its thread, whatever the other threads do in between. */
  lemma {:induction false} LateCallsAreRefused(val: nat, ss: seq<Sem>, es: seq<Step>, i: nat, j: nat)
    requires Run(val, ss, es) && i < j < |es| && ss[i].destroyed && es[i].SlowDown?
    requires es[j].t == es[i].t && forall k :: i < k < j ==> es[k].t != es[i].t
    ensures es[j] == Refuse(es[i].t)
  {
    DestroyedFrom(ss, es, i, j, val);
    assert Next(ss[i], es[i], ss[i + 1]);
    StillDecremented(val, ss, es, i, j);
    assert Next(ss[j], es[j], ss[j + 1]);
  }

  lemma {:induction false} StillDecremented(val: nat, ss: seq<Sem>, es: seq<Step>, i: nat, j: nat)
    requires Run(val, ss, es) && i < j < |ss| && es[i].SlowDown?
    requires forall k :: i < k < j ==> es[k].t != es[i].t
    ensures es[i].t in ss[j].phase && ss[j].phase[es[i].t].Decremented?
    decreases j
  {
    if j == i + 1 {
      assert Next(ss[i], es[i], ss[j]);
    } else {
      StillDecremented(val, ss, es, i, j - 1);
      OthersAtMostWoken(ss[j - 1], es[j - 1], ss[j], es[i].t);
    }
  }
}
