/** rtdm_event_timedwait as seen by its caller: what the waiter finds at its three looks at the event
    decides how the wait ends. */
module Events {
  import opened Collections

  const EINTR := -4
  const EBADF := -9
  const EAGAIN := -11  // also EWOULDBLOCK
  const EFAULT := -14
  const EIDRM := -43
  const ETIMEDOUT := -110

  /** What a waiter finds: the event destroyed, its time over, a signal for the task, the event pending. */
  datatype Look = Look(destroyed: bool, expired: bool, signalled: bool, pending: bool)

  /** The three looks of one wait. */
  datatype Looks = Looks(entry: Look, before: Look, after: Look)

  /** What was seen is what the surroundings presented; only the event itself is the driver's own. */
  predicate SeenIn(seen: Looks, env: Looks) {
    && seen.entry == env.entry.(pending := seen.entry.pending)
    && seen.before == env.before.(pending := seen.before.pending)
    && seen.after == env.after.(pending := seen.after.pending)
  }

  /** The inline part. None: the wait goes on. */
  function AtEntry(l: Look): Option<int> {
    if l.destroyed then Some(EIDRM) else if l.pending then Some(0) else None
  }

  /** Before going to sleep. With a positive timeout the error found here is overwritten. */
  function BeforeSleep(timeout: int, l: Look): Option<int> {
    if timeout < 0 then Some(EAGAIN)
    else if timeout == 0 && l.destroyed then Some(EIDRM)
    else if timeout == 0 && l.signalled then Some(EINTR)
    else if l.pending then Some(0)
    else None
  }

  /** After waking up. Whether the event is pending is not looked at any more. */
  function AfterSleep(timeout: int, l: Look): int {
    if l.destroyed then EIDRM
    else if timeout > 0 && l.expired then ETIMEDOUT
    else if l.signalled then EINTR
    else 0
  }

  function TimedWait(timeout: int, l: Looks): int {
    if AtEntry(l.entry).Some? then AtEntry(l.entry).value
    else if BeforeSleep(timeout, l.before).Some? then BeforeSleep(timeout, l.before).value
    else AfterSleep(timeout, l.after)
  }

  /** The last look that was taken. */
  function Last(timeout: int, l: Looks): Look {
    if AtEntry(l.entry).Some? || timeout < 0 then l.entry
    else if BeforeSleep(timeout, l.before).Some? then l.before
    else l.after
  }

  /** Something that a wait with this timeout reports at this look. */
  predicate Trouble(timeout: int, l: Look) { l.destroyed || l.signalled || (timeout > 0 && l.expired) }

  /** Destruction is reported before the timeout, the timeout before a signal, and each only if the last
      look found it. A wait whose last look finds the event pending and nothing to report succeeds. A
      non-blocking one fails with -EAGAIN if and only if the event is neither pending nor destroyed. */
  lemma Outcome(timeout: int, l: Looks)
    ensures var ret, last := TimedWait(timeout, l), Last(timeout, l);
      && (ret == EIDRM ==> last.destroyed)
      && (ret == ETIMEDOUT ==> timeout > 0 && last.expired && !last.destroyed)
      && (ret == EINTR ==> last.signalled && !last.destroyed && !(timeout > 0 && last.expired))
      && (ret == EAGAIN <==> timeout < 0 && !l.entry.destroyed && !l.entry.pending)
      && (ret == 0 || ret == EIDRM || ret == ETIMEDOUT || ret == EINTR || ret == EAGAIN)
      && (!Trouble(timeout, last) && last.pending ==> ret == 0)
  {
  }

  /** A blocking wait succeeds if and only if it finds the event before it sleeps, and nothing that it
      reports there, or else is woken with nothing to report. In particular a signal, the end of the
      time or the destruction is never taken for the event once the waiter has slept. */
  lemma SucceedsIff(timeout: int, l: Looks)
    requires timeout >= 0
    ensures TimedWait(timeout, l) == 0 <==>
      && !l.entry.destroyed
      && (|| l.entry.pending
          || (!(timeout == 0 && Trouble(0, l.before)) && (l.before.pending || !Trouble(timeout, l.after))))
  {
  }

  /** A wait fails although the event is pending if and only if the event is destroyed at entry; or
      was not pending yet at entry, and is destroyed, or a signal comes, before an unlimited wait goes
      to sleep; or was not pending before the sleep either, and is destroyed, or the time is over, or
      a signal comes, together with the event. */
  lemma FailsWhilePendingIff(timeout: int, l: Looks)
    ensures TimedWait(timeout, l) < 0 && Last(timeout, l).pending <==>
      || (l.entry.pending && l.entry.destroyed)
      || (!l.entry.pending && !l.entry.destroyed && timeout == 0 && l.before.pending && Trouble(0, l.before))
      || (!l.entry.pending && !l.entry.destroyed && timeout >= 0 && !l.before.pending
          && !(timeout == 0 && Trouble(0, l.before)) && l.after.pending && Trouble(timeout, l.after))
  {
  }

  /** The event and a signal, or the end of the time, arrive while the waiter sleeps. */
  lemma LateEvent()
    ensures var quiet := Look(false, false, false, false);
      var l := Looks(quiet, quiet, Look(false, false, true, true));
      TimedWait(0, l) == EINTR && Last(0, l).pending
    ensures var quiet := Look(false, false, false, false);
      var l := Looks(quiet, quiet, Look(false, true, false, true));
      TimedWait(1, l) == ETIMEDOUT && Last(1, l).pending
  {
  }

  /* ---- the waits of one call of the driver ---- */

  /** What the waits of a call have seen in the surroundings `env`: all have succeeded, or all but the
      last, and that one has failed with this code. */
  predicate Waited(failed: Option<int>, timeout: int, env: seq<Looks>, seen: seq<Looks>) {
    && |seen| <= |env| && (forall k :: 0 <= k < |seen| ==> SeenIn(seen[k], env[k]))
    && (forall k :: 0 <= k < |seen| - (if failed.Some? then 1 else 0) ==> TimedWait(timeout, seen[k]) == 0)
    && (failed.Some? ==> seen != [] && TimedWait(timeout, seen[|seen| - 1]) == failed.value < 0)
  }

  lemma NoWait(timeout: int, env: seq<Looks>)
    ensures Waited(None, timeout, env, [])
  {
  }

  lemma NextWait(timeout: int, env: seq<Looks>, seen: seq<Looks>, look: Looks)
    requires Waited(None, timeout, env, seen) && |seen| < |env| && SeenIn(look, env[|seen|])
    ensures var ret := TimedWait(timeout, look);
      && Waited(if ret == 0 then None else Some(ret), timeout, env, seen + [look])
      && (ret == 0 || ret == EAGAIN || ret == ETIMEDOUT || ret == EINTR || ret == EIDRM)
      && (ret == EAGAIN ==> timeout < 0)
  {
    Outcome(timeout, look);
  }
}
