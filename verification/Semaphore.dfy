/** The RTDM counting semaphore: the `count`/`sleepers` protocol.

    Every atomic operation on `count` or on the destroy bit, and every section executed under the
    wait-queue lock, is one step. Threads that are not inside a call are absent from `phase`. */
module Semaphore {

  type Tid = nat

  /** `Forever`: rtdm_sem_down, or a timed down with timeout 0; `Bounded`: a positive timeout;
      `NoWait`: a negative timeout. */
  datatype Mode = Forever | Bounded | NoWait

  datatype Code = Success | EIDRM | EINTR | ETIMEDOUT | EWOULDBLOCK

  datatype Phase =
    | Decremented(mode: Mode)  // took `count` below zero, has not looked at the destroy bit yet
    | Entering(mode: Mode)     // passed that test, has not taken the lock yet
    | Asleep(mode: Mode)       // on the wait queue, blocked
    | Awake(mode: Mode)        // on the wait queue, runnable
    | Raised                   // an up between its increment and its wake_up
    | Destroying               // a destroy between its set_bit and its wake_up_all

  datatype Sem = Sem(count: int, sleepers: int, destroyed: bool, phase: map<Tid, Phase>)

  datatype Step =
    | FastDown(t: Tid, mode: Mode) | SlowDown(t: Tid, mode: Mode)
    | Refuse(t: Tid) | Enter(t: Tid) | TryFail(t: Tid)
    | GiveUp(t: Tid, code: Code) | Win(t: Tid) | Sleep(t: Tid) | Removed(t: Tid)
    | Up(t: Tid) | Wake(t: Tid) | Disturb(t: Tid)
    | Mark(t: Tid) | WakeAll(t: Tid)

  predicate InFlight(p: Phase) { p.Decremented? || p.Entering? }

  predicate Queued(p: Phase) { p.Asleep? || p.Awake? }

  predicate AsleepIn(s: Sem, w: Tid) { w in s.phase && s.phase[w].Asleep? }

  function Woken(s: Sem, w: Tid): Sem
    requires AsleepIn(s, w)
  {
    s.(phase := s.phase[w := Awake(s.phase[w].mode)])
  }

  /** wake_up on a queue of exclusive waiters: some sleeper becomes runnable, if there is one. */
  ghost predicate WakesOne(s: Sem, s': Sem) {
    if exists w :: AsleepIn(s, w) then exists w :: AsleepIn(s, w) && s' == Woken(s, w) else s' == s
  }

  /** Thread `t` can run its slow-path section: it is about to queue, or it is queued and runnable. */
  predicate CanRun(s: Sem, t: Tid) {
    t in s.phase && (s.phase[t].Awake? || (s.phase[t].Entering? && s.phase[t].mode != NoWait))
  }

  /** `sleepers` as the section of thread `t` reads it: incremented when `t` has just queued. */
  function SleepersSeenBy(s: Sem, t: Tid): int
    requires CanRun(s, t)
  {
    s.sleepers + if s.phase[t].Entering? then 1 else 0
  }

  function Without(s: Sem, t: Tid): Sem { s.(phase := s.phase - {t}) }

  function AllWoken(s: Sem): Sem {
    s.(phase := map x | x in s.phase :: if s.phase[x].Asleep? then Awake(s.phase[x].mode) else s.phase[x])
  }

  /** The transition relation. */
  ghost predicate Next(s: Sem, e: Step, s': Sem) {
    match e
    case FastDown(t, mode) => t !in s.phase && s.count > 0 && s' == s.(count := s.count - 1)
    case SlowDown(t, mode) =>
      && t !in s.phase && s.count <= 0
      && s' == s.(count := s.count - 1, phase := s.phase[t := Decremented(mode)])
    case Refuse(t) => t in s.phase && s.phase[t].Decremented? && s.destroyed && s' == Without(s, t)
    case Enter(t) =>
      && t in s.phase && s.phase[t].Decremented? && !s.destroyed
      && s' == s.(phase := s.phase[t := Entering(s.phase[t].mode)])
    case TryFail(t) =>
      && t in s.phase && s.phase[t] == Entering(NoWait)
      && var r := Without(s, t).(count := s.count + s.sleepers + 1, sleepers := 0);
         if r.count >= 0 then WakesOne(r, s') else s' == r
    case GiveUp(t, code) =>
      && CanRun(s, t) && !s.destroyed
      && (code == EINTR || (code == ETIMEDOUT && s.phase[t].mode == Bounded))
      && WakesOne(Without(s, t).(count := s.count + SleepersSeenBy(s, t), sleepers := 0), s')
    case Win(t) =>
      && CanRun(s, t) && !s.destroyed && s.count + SleepersSeenBy(s, t) - 1 >= 0
      && WakesOne(Without(s, t).(count := s.count + SleepersSeenBy(s, t) - 1, sleepers := 0), s')
    case Sleep(t) =>
      && CanRun(s, t) && !s.destroyed && s.count + SleepersSeenBy(s, t) - 1 < 0
      && s' == Sem(s.count + SleepersSeenBy(s, t) - 1, 1, false, s.phase[t := Asleep(s.phase[t].mode)])
    case Removed(t) =>
      CanRun(s, t) && s.destroyed && WakesOne(Without(s, t).(sleepers := SleepersSeenBy(s, t)), s')
    case Up(t) =>
      && t !in s.phase
      && s' == s.(count := s.count + 1, phase := if s.count + 1 <= 0 then s.phase[t := Raised] else s.phase)
    case Wake(t) => t in s.phase && s.phase[t].Raised? && WakesOne(Without(s, t), s')
    case Disturb(t) => AsleepIn(s, t) && s' == Woken(s, t)
    case Mark(t) => t !in s.phase && s' == s.(destroyed := true, phase := s.phase[t := Destroying])
    case WakeAll(t) => t in s.phase && s.phase[t].Destroying? && s' == AllWoken(Without(s, t))
  }

  /** rtdm_sem_t and the steps its operations are made of. */
  class RtdmSem {
    var count: int
    var sleepers: int
    var destroyed: bool
    var phase: map<Tid, Phase>

    function View(): Sem
      reads this
    {
      Sem(count, sleepers, destroyed, phase)
    }

    constructor (val: nat)
      ensures View() == Sem(val, 0, false, map[])
    {
      count, sleepers, destroyed, phase := val, 0, false, map[];
    }

    /** The decrement of rtdm_sem_down and rtdm_sem_timeddown; `done` says that the call is over. */
    method Decrement(t: Tid, mode: Mode) returns (done: bool)
      requires t !in phase
      modifies this
      ensures Next(old(View()), if done then FastDown(t, mode) else SlowDown(t, mode), View())
    {
      count := count - 1;
      done := count >= 0;
      if !done {
        phase := phase[t := Decremented(mode)];
      }
    }

    /** The unlocked test of the destroy bit that opens both slow paths. */
    method TestDestroy(t: Tid) returns (done: bool)
      requires t in phase && phase[t].Decremented?
      modifies this
      ensures Next(old(View()), if done then Refuse(t) else Enter(t), View())
    {
      done := destroyed;
      if done {
        phase := phase - {t};
      } else {
        phase := phase[t := Entering(phase[t].mode)];
      }
    }

    /** wake_up, with the queue lock held. */
    method WakeUpLocked()
      modifies this
      ensures WakesOne(old(View()), View())
    {
      var sleeping := set w | w in phase && phase[w].Asleep?;
      if sleeping != {} {
        var w :| w in sleeping;
        assert AsleepIn(View(), w);
        phase := phase[w := Awake(phase[w].mode)];
      } else {
        assert forall w :: AsleepIn(View(), w) ==> w in sleeping;
      }
    }

    /** The locked section of a down that must not wait. */
    method TrySection(t: Tid) returns (code: Code)
      requires t in phase && phase[t] == Entering(NoWait)
      modifies this
      ensures code == EWOULDBLOCK && Next(old(View()), TryFail(t), View())
    {
      var all := sleepers + 1;
      sleepers := 0;
      count := count + all;
      phase := phase - {t};
      if count >= 0 {
        WakeUpLocked();
      }
      code := EWOULDBLOCK;
    }

    /** One locked pass through the loop of a slow path, from queueing or waking up to leaving or
        going back to sleep. `done` says that the call returns `code`. */
    method Section(t: Tid, signal: bool, expired: bool) returns (done: bool, code: Code)
      requires CanRun(View(), t)
      modifies this
      ensures Next(old(View()),
                   if !done then Sleep(t)
                   else match code
                        case Success => Win(t)
                        case EIDRM => Removed(t)
                        case _ => GiveUp(t, code),
                   View())
      // destruction before a signal, a signal before the timeout, these before the permit
      ensures done && code == EIDRM <==> old(destroyed)
      ensures done && code == EINTR <==> !old(destroyed) && signal
      ensures done && code == ETIMEDOUT <==>
              !old(destroyed) && !signal && expired && old(phase[t].mode) == Bounded
      ensures done && code == Success <==>
              && !old(destroyed) && !signal && !(expired && old(phase[t].mode) == Bounded)
              && old(count + SleepersSeenBy(View(), t)) > 0
      ensures code != EWOULDBLOCK
    {
      var mode := phase[t].mode;
      if phase[t].Entering? {
        sleepers := sleepers + 1;
      }
      var seen := sleepers;
      done := true;
      if destroyed {
        code := EIDRM;
      } else if signal {
        code, sleepers, count := EINTR, 0, count + seen;
      } else if mode == Bounded && expired {
        code, sleepers, count := ETIMEDOUT, 0, count + seen;
      } else {
        code, count := Success, count + (seen - 1);
        if count >= 0 {
          sleepers := 0;
        } else {
          sleepers, done := 1, false;
        }
      }
      if done {
        phase := phase - {t};
        WakeUpLocked();
      } else {
        phase := phase[t := Asleep(mode)];
      }
    }

    /** The increment of rtdm_sem_up; `done` says that there is nobody to wake. */
    method Increment(t: Tid) returns (done: bool)
      requires t !in phase
      modifies this
      ensures done <==> count > 0
      ensures Next(old(View()), Up(t), View())
    {
      count := count + 1;
      done := count > 0;
      if !done {
        phase := phase[t := Raised];
      }
    }

    method WakeUp(t: Tid)
      requires t in phase && phase[t].Raised?
      modifies this
      ensures Next(old(View()), Wake(t), View())
    {
      phase := phase - {t};
      WakeUpLocked();
    }

    method SetDestroy(t: Tid)
      requires t !in phase
      modifies this
      ensures Next(old(View()), Mark(t), View())
    {
      destroyed := true;
      phase := phase[t := Destroying];
    }

    method WakeUpAll(t: Tid)
      requires t in phase && phase[t].Destroying?
      modifies this
      ensures Next(old(View()), WakeAll(t), View())
    {
      phase := phase - {t};
      phase := map x | x in phase :: if phase[x].Asleep? then Awake(phase[x].mode) else phase[x];
    }
  }
}
