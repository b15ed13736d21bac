/** The receive half of the 16550A driver. Receive interrupts append to the ring at any time;
    rt_16550_read takes a snapshot under the lock, copies bytes to the caller without it, and gives
    the cells back under the lock. */
module UartRx {
  import opened Collections
  import opened Events
  import opened Ring

  const EIO := -5
  const EBUSY := -16
  const EPIPE := -32

  /** The error bits of `status`. */
  datatype Flag = Overrun | Parity | Framing | Break | SoftOverrun

  /** A character and the line status read after it. */
  datatype Char = Char(c: bv8, errors: set<Flag>)

  function Chars(line: seq<Char>): (r: seq<bv8>)
    ensures |r| == |line|
  {
    seq(|line|, i requires 0 <= i < |line| => line[i].c)
  }

  /** The errors that come with the characters. */
  function LineErrors(line: seq<Char>): set<Flag> {
    if line == [] then {} else LineErrors(line[..|line| - 1]) + line[|line| - 1].errors
  }

  /** The same for several fillings of the FIFO. */
  function AllChars(lines: seq<seq<Char>>): seq<bv8> {
    if lines == [] then [] else AllChars(lines[..|lines| - 1]) + Chars(lines[|lines| - 1])
  }

  function AllErrors(lines: seq<seq<Char>>): set<Flag> {
    if lines == [] then {} else AllErrors(lines[..|lines| - 1]) + LineErrors(lines[|lines| - 1])
  }

  lemma NoLines(lines: seq<seq<Char>>)
    ensures AllChars(lines[..0]) == [] && AllErrors(lines[..0]) == {}
  {
  }

  lemma NextLine(lines: seq<seq<Char>>, i: nat)
    requires i < |lines|
    ensures AllChars(lines[..i + 1]) == AllChars(lines[..i]) + Chars(lines[i])
    ensures AllErrors(lines[..i + 1]) == AllErrors(lines[..i]) + LineErrors(lines[i])
  {
    assert lines[..i + 1][..i] == lines[..i];
  }

  /** The mark of a soft overrun, if `n` bytes do not fit in `size`. */
  function Overflow(n: int, size: int): set<Flag> { if n > size then {SoftOverrun} else {} }

  function Min(a: int, b: int): int { if a < b then a else b }

  /** What the reader finds at a look: the pending errors and the number of bytes pending. */
  datatype Snapshot = Snapshot(status: set<Flag>, npend: int)

  /** What happens in one turn of the loop of a read: errors are found; bytes are taken, or not because the
      caller's memory has no room for them; there is nothing, and the read must not wait, or has waited
      with this result and then sees `left` bytes pending. `Hanging`: the run followed is over. */
  datatype Step =
    | Found
    | Took(bytes: seq<bv8>)
    | Broke(bytes: seq<bv8>)
    | Nothing
    | Hanging
    | Woke(ret: int, left: int, seen: Looks)

  /** How a read ends: with everything asked for, at a fault in the caller's memory, at an error found,
      with nothing pending when it must not wait any more, because the device has been closed; or the
      reader still waits when the run followed is over. */
  datatype End = Complete | Fault | Errors | Dry | Closed | StillWaiting

  /** The looks under the lock, what the waits have seen, the code of the one that failed, the number of
      looks up to then, and the number of bytes pending at the look after it. */
  datatype Log = Log(looks: seq<Snapshot>, seen: seq<Looks>, failed: Option<int>, atFailure: nat, after: int)

  /** What a reader takes that at each look takes all it still wants and finds. */
  function Taken(want: nat, looks: seq<Snapshot>): int {
    if looks == [] then 0
    else var n := Taken(want, looks[..|looks| - 1]); n + Min(want - n, looks[|looks| - 1].npend)
  }

  lemma TakenMore(want: nat, looks: seq<Snapshot>, l: Snapshot)
    ensures Taken(want, looks + [l]) == Taken(want, looks) + Min(want - Taken(want, looks), l.npend)
  {
    assert (looks + [l])[..|looks|] == looks;
  }

  /** What a read has done, in terms of what it found: errors end it at once; otherwise it takes all it
      finds until it has enough; it ends short of that only after a look that finds nothing, and, if it
      may wait, only after a wait that failed and one more look. */
  predicate Accounts(want: nat, room: nat, timeout: int, env: seq<Looks>, end: End, log: Log, count: nat) {
    log.looks != [] &&
    var n := |log.looks| - 1;
    var last := log.looks[n];
    && (forall k :: 0 <= k < n ==> log.looks[k].status == {})
    && (forall k :: 0 <= k <= n ==> log.looks[k].npend >= 0)
    && (end.Errors? <==> last.status != {})
    && count == Taken(want, if end.Fault? || end.Errors? then log.looks[..n] else log.looks)
    && (end.Complete? <==> count == want)
    && count <= room && (end.Fault? ==> room < count + Min(want - count, last.npend))
    && (end.Dry? || end.Closed? || end.StillWaiting? ==> last.npend == 0)
    && Waited(log.failed, timeout, env, log.seen)
    && (end.Dry? ==> (log.failed.None? <==> timeout < 0))
    && (end.Dry? && log.failed.Some? ==> log.after == 0 || log.atFailure <= n)
    && (end.Closed? <==> log.failed == Some(EIDRM))
    && (end.StillWaiting? ==> timeout >= 0 && log.failed.None? && |log.seen| == |env|)
  }

  /** What the caller is told. */
  function Result(end: End, log: Log, count: nat): int
    requires log.looks != []
  {
    match end
    case Complete => count
    case Fault => EFAULT
    case Errors => if Break in log.looks[|log.looks| - 1].status then EPIPE else EIO
    case Dry => if count > 0 then count else if log.failed.Some? then log.failed.value else EAGAIN
    case Closed => EBADF
    case StillWaiting => 0
  }

  /** A read under way: it has taken all it found, no error has been found, and after a wait that failed
      it has looked, or will look, once more. */
  predicate Going(want: nat, room: nat, timeout: int, env: seq<Looks>, log: Log, count: nat, ret: int) {
    && count <= want && count <= room && count == Taken(want, log.looks)
    && (forall k :: 0 <= k < |log.looks| ==> log.looks[k].status == {} && log.looks[k].npend >= 0)
    && Waited(log.failed, timeout, env, log.seen)
    && (if log.failed.Some? then
          && timeout >= 0 && log.failed.value == ret && (ret == ETIMEDOUT || ret == EINTR)
          && log.atFailure <= |log.looks| && (log.after > 0 || log.atFailure < |log.looks|)
        else (ret == 0 && timeout >= 0) || ret == EAGAIN)
  }

  lemma Begun(want: nat, room: nat, timeout: int, env: seq<Looks>)
    ensures Going(want, room, timeout, env, Log([], [], None, 0, -1), 0, EAGAIN)
  {
  }

  lemma GoingRet(want: nat, room: nat, timeout: int, env: seq<Looks>, log: Log, count: nat, ret: int)
    requires Going(want, room, timeout, env, log, count, ret)
    ensures count <= room && (count > 0 ==> log.looks != []) && (log.failed.Some? ==> log.failed.value == ret)
    ensures ret == 0 || ret == EAGAIN || ret == ETIMEDOUT || ret == EINTR
  {
  }

  /** The next look, and what becomes of the read: an error, a fault, or it goes on. */
  lemma Looked(want: nat, room: nat, timeout: int, env: seq<Looks>, log: Log, count: nat, ret: int, l: Snapshot)
    requires Going(want, room, timeout, env, log, count, ret) && count < want && l.npend >= 0
    ensures var log', block := log.(looks := log.looks + [l]), Min(want - count, l.npend);
      if l.status != {} then Accounts(want, room, timeout, env, Errors, log', count)
      else if count + block > room then Accounts(want, room, timeout, env, Fault, log', count)
      else Going(want, room, timeout, env, log', count + block, ret)
  {
    hide Waited;
    TakenMore(want, log.looks, l);
    assert (log.looks + [l])[..|log.looks|] == log.looks;
  }

  lemma Satisfied(want: nat, room: nat, timeout: int, env: seq<Looks>, log: Log, ret: int)
    requires Going(want, room, timeout, env, log, want, ret) && want > 0
    ensures Accounts(want, room, timeout, env, Complete, log, want)
  {
    hide Waited;
    if log.failed.Some? { FailedIs(log.failed, timeout, env, log.seen); }
  }

  lemma FailedIs(failed: Option<int>, timeout: int, env: seq<Looks>, seen: seq<Looks>)
    requires Waited(failed, timeout, env, seen) && failed.Some?
    ensures failed.value < 0
  {
  }

  /** The last look has found nothing: the end, if the read must not wait, or has no more time. */
  lemma FoundNothing(want: nat, room: nat, timeout: int, env: seq<Looks>, log: Log, count: nat, ret: int)
    requires Going(want, room, timeout, env, log, count, ret) && count < want
    requires log.looks != [] && log.looks[|log.looks| - 1].npend == 0 && log.atFailure < |log.looks|
    ensures timeout < 0 || log.failed.Some? ==> Accounts(want, room, timeout, env, Dry, log, count)
    ensures timeout < 0 ==> ret == EAGAIN && log.failed.None?
    ensures timeout >= 0 && log.failed.None? && |log.seen| == |env| ==>
      Accounts(want, room, timeout, env, StillWaiting, log, count)
  {
    hide Taken;
    if timeout < 0 && log.failed.None? { NeverWaited(timeout, env, log.seen); }
  }

  lemma NeverWaited(timeout: int, env: seq<Looks>, seen: seq<Looks>)
    requires Waited(None, timeout, env, seen)
    ensures |seen| <= |env|
  {
  }

  /** A wait after such a look. */
  lemma Slept(want: nat, room: nat, timeout: int, env: seq<Looks>, log: Log, count: nat, ret: int, seen: Looks,
              after: int)
    requires Going(want, room, timeout, env, log, count, ret) && count < want && timeout >= 0 && log.failed.None?
    requires log.looks != [] && log.looks[|log.looks| - 1].npend == 0
    requires |log.seen| < |env| && SeenIn(seen, env[|log.seen|]) && after >= 0
    ensures var ret' := TimedWait(timeout, seen);
      var log' := log.(seen := log.seen + [seen]);
      var failed := log'.(failed := Some(ret'), atFailure := |log.looks|, after := after);
      if ret' == 0 then Going(want, room, timeout, env, log', count, 0)
      else
        && (ret' == EIDRM || ret' == ETIMEDOUT || ret' == EINTR)
        && (ret' == EIDRM ==> Accounts(want, room, timeout, env, Closed, failed, count))
        && (ret' != EIDRM && after == 0 ==> Accounts(want, room, timeout, env, Dry, failed, count))
        && (ret' != EIDRM && after > 0 ==> Going(want, room, timeout, env, failed, count, ret'))
  {
    NextWait(timeout, env, log.seen, seen);
    hide Waited, TimedWait, SeenIn, Taken;
  }

  lemma SeenSo(seen: Looks, env: Looks)
    requires seen.entry.(pending := env.entry.pending) == env.entry
    requires seen.before.(pending := env.before.pending) == env.before
    requires seen.after.(pending := env.after.pending) == env.after
    ensures SeenIn(seen, env)
  {
  }

  /** What is pending when a read begins is part of what it returns. */
  lemma {:induction false} FirstTaken(want: nat, looks: seq<Snapshot>)
    requires looks != [] && forall k :: 0 <= k < |looks| ==> looks[k].npend >= 0
    ensures Min(want, looks[0].npend) <= Taken(want, looks) <= want
  {
    var rest := looks[..|looks| - 1];
    if rest != [] {
      FirstTaken(want, rest);
    }
  }

  lemma FirstLook(want: nat, room: nat, timeout: int, env: seq<Looks>, end: End, log: Log, count: nat)
    requires Accounts(want, room, timeout, env, end, log, count)
    ensures end.Complete? ==> count == want
    ensures end.Dry? ==> log.looks[|log.looks| - 1].npend == 0
    ensures !end.Fault? && !end.Errors? ==> count >= Min(want, log.looks[0].npend)
  {
    hide Waited;
    FirstTaken(want, log.looks);
  }

  class RxPath {
    const buf: array<bv8>  // IN_BUFFER_SIZE bytes
    var head: int
    var tail: int
    var npend: int
    var nwait: int
    var inEvent: bool      // RTDM_EVENT_PENDING of in_event
    var inLock: bool
    var status: set<Flag>
    ghost var received: seq<bv8>
    ghost var consumed: seq<bv8>
    ghost var overrun: bool  // a soft overrun has happened

    ghost predicate Indexed()
      reads this
    {
      0 <= head < buf.Length && 0 <= tail < buf.Length && 0 <= npend <= buf.Length && nwait >= 0
    }

    /** Until the first soft overrun: what readers have taken, followed by what is pending, is what
        has been received, in order. */
    ghost predicate Valid()
      reads this, buf
    {
      && Indexed()
      && (!overrun ==>
            && tail == Wrap(head + npend, buf.Length)
            && received == consumed + Slice(buf[..], head, npend))
    }

    constructor (size: nat)
      requires size > 0
      ensures Valid() && received == consumed == [] && !overrun && buf.Length == size && fresh(buf)
    {
      buf := new bv8[size];
      head, tail, npend, nwait, inEvent, inLock, status := 0, 0, 0, 0, false, false, {};
      received, consumed, overrun := [], [], false;
    }

    /** One character of rt_16550_rx_interrupt. */
    method Append(c: bv8) returns (soft: bool)
      requires Valid()
      modifies buf, this`tail, this`npend, this`received, this`overrun
      ensures Valid() && received == old(received) + [c]
      ensures soft <==> old(npend) == buf.Length
      ensures overrun == (old(overrun) || soft)
      ensures npend == if soft then old(npend) else old(npend) + 1
    {
      hide Slice;
      ghost var b, t := buf[..], tail;
      soft := npend + 1 > buf.Length;
      if !overrun && !soft {
        AppendOne(b, head, npend, c);
      }
      buf[tail] := c;
      assert buf[..] == b[t := c];
      tail := Wrap(tail + 1, buf.Length);
      received := received + [c];
      overrun := overrun || soft;
      if !soft {
        npend := npend + 1;
      }
    }

    /** rt_16550_rx_interrupt: the do-while loop reads `line`, all characters the FIFO holds. */
    method RxInterrupt(line: seq<Char>) returns (rbytes: int)
      requires Valid() && line != []
      modifies buf, this`tail, this`npend, this`received, this`overrun, this`status
      ensures Valid() && rbytes == |line| && received == old(received) + Chars(line)
      ensures status == old(status) + LineErrors(line) + Overflow(old(npend) + |line|, buf.Length)
      ensures overrun == (old(overrun) || old(npend) + |line| > buf.Length)
      ensures npend == Min(old(npend) + |line|, buf.Length)
    {
      hide Slice;
      rbytes := 0;
      var lsr: set<Flag> := {};
      assert Chars(line[..0]) == [];
      while rbytes < |line|
        invariant 0 <= rbytes <= |line| && Valid() && status == old(status)
        invariant received == old(received) + Chars(line[..rbytes])
        invariant lsr == LineErrors(line[..rbytes]) + Overflow(old(npend) + rbytes, buf.Length)
        invariant overrun == (old(overrun) || old(npend) + rbytes > buf.Length)
        invariant npend == Min(old(npend) + rbytes, buf.Length)
      {
        var soft := Append(line[rbytes].c);
        if soft {
          lsr := lsr + {SoftOverrun};
        }
        lsr := lsr + line[rbytes].errors;
        assert line[..rbytes + 1][..rbytes] == line[..rbytes];
        assert Chars(line[..rbytes + 1]) == Chars(line[..rbytes]) + [line[rbytes].c];
        rbytes := rbytes + 1;
      }
      assert line[..rbytes] == line;
      status := status + lsr;
    }

    /** The receive interrupts that one call of rt_16550_interrupt finds pending. */
    method Drain(lines: seq<seq<Char>>) returns (rbytes: int)
      requires Valid() && forall i :: 0 <= i < |lines| ==> lines[i] != []
      modifies buf, this`tail, this`npend, this`received, this`overrun, this`status
      ensures Valid() && received == old(received) + AllChars(lines) && rbytes == |AllChars(lines)|
      ensures status == old(status) + AllErrors(lines) + Overflow(old(npend) + rbytes, buf.Length)
      ensures overrun == (old(overrun) || old(npend) + rbytes > buf.Length)
      ensures npend == Min(old(npend) + rbytes, buf.Length)
    {
      hide Slice, Chars, LineErrors, AllChars, AllErrors;
      rbytes := 0;
      var i := 0;
      NoLines(lines);
      while i < |lines|
        invariant 0 <= i <= |lines| && Valid() && received == old(received) + AllChars(lines[..i])
        invariant rbytes == |AllChars(lines[..i])|
        invariant status == old(status) + AllErrors(lines[..i]) + Overflow(old(npend) + rbytes, buf.Length)
        invariant overrun == (old(overrun) || old(npend) + rbytes > buf.Length)
        invariant npend == Min(old(npend) + rbytes, buf.Length)
      {
        NextLine(lines, i);
        var k := RxInterrupt(lines[i]);
        rbytes := rbytes + k;
        i := i + 1;
      }
      assert lines[..i] == lines;
    }

    /** The receive side of one call of rt_16550_interrupt: `lines` are the contents of the FIFO at
        each receive interrupt it finds pending, `errors` what its status interrupts report. A waiting
        reader is signalled as soon as its request can be met or an error is pending, and not before. */
    method Interrupt(lines: seq<seq<Char>>, errors: set<Flag>)
      requires Valid() && forall i :: 0 <= i < |lines| ==> lines[i] != []
      modifies buf, this`tail, this`npend, this`received, this`overrun, this`status, this`nwait, this`inEvent
      ensures Valid() && received == old(received) + AllChars(lines) && old(npend) <= npend
      ensures var n := |AllChars(lines)|;
        && status == old(status) + AllErrors(lines) + Overflow(old(npend) + n, buf.Length) + errors
        && overrun == (old(overrun) || old(npend) + n > buf.Length)
        && npend == Min(old(npend) + n, buf.Length)
        && (if old(nwait) > 0 && (old(nwait) <= n || status != {}) then nwait == 0 && inEvent
            else nwait == (if old(nwait) > 0 then old(nwait) - n else 0) && inEvent == old(inEvent))
    {
      hide Slice, AllChars, AllErrors, Overflow;
      var rbytes := Drain(lines);
      status := status + errors;
      if nwait > 0 {
        if nwait <= rbytes || status != {} {
          nwait, inEvent := 0, true;
        } else {
          nwait := nwait - rbytes;
        }
      }
    }

    /** Any number of interrupts. */
    method Preempt()
      requires Valid()
      modifies buf, this`tail, this`npend, this`received, this`overrun, this`status, this`nwait, this`inEvent
      ensures Valid() && old(received) <= received && (old(overrun) ==> overrun) && old(npend) <= npend
    {
      hide Slice, Indexed;
      var k: nat := *;
      while k > 0
        invariant Valid() && old(received) <= received && (old(overrun) ==> overrun) && old(npend) <= npend
      {
        var lines, errors := Line();
        Interrupt(lines, errors);
        k := k - 1;
      }
    }

    /** What the hardware may present to one interrupt. */
    method Line() returns (lines: seq<seq<Char>>, errors: set<Flag>)
      ensures forall i :: 0 <= i < |lines| ==> lines[i] != []
    {
      lines := [];
      errors := *;
      var n: nat := *;
      while n > 0
        invariant forall i :: 0 <= i < |lines| ==> lines[i] != []
      {
        var first: Char, more: seq<Char> := *, *;
        lines := lines + [[first] + more];
        n := n - 1;
      }
    }

    /** Either the reader has not been signalled: what it still waits for and what has arrived make up
        the request, and no error is pending. Or it has: the request can be met or there is an error. */
    predicate Announced(request: int)
      reads this
    {
      if nwait > 0 then status == {} && nwait + npend == request else npend >= request || status != {}
    }

    /** Any number of interrupts while a reader waits for `request` bytes; the signal is not lost. */
    method Arrive(request: int)
      requires Valid() && (!overrun ==> Announced(request))
      modifies buf, this`tail, this`npend, this`received, this`overrun, this`status, this`nwait, this`inEvent
      ensures Valid() && old(received) <= received && (old(overrun) ==> overrun)
      ensures !overrun ==> Announced(request)
      ensures old(nwait == 0 ==> inEvent) ==> (nwait == 0 ==> inEvent)
      ensures (old(inEvent) ==> inEvent) && (inEvent && !old(inEvent) ==> nwait == 0)
    {
      hide Slice;
      var k: nat := *;
      while k > 0
        invariant Valid() && old(received) <= received && (old(overrun) ==> overrun)
        invariant !overrun ==> Announced(request)
        invariant old(nwait == 0 ==> inEvent) ==> (nwait == 0 ==> inEvent)
        invariant (old(inEvent) ==> inEvent) && (inEvent && !old(inEvent) ==> nwait == 0)
      {
        var lines, errors := Line();
        Interrupt(lines, errors);
        k := k - 1;
      }
    }

    method ClearEvent()
      requires Valid()
      modifies this`inEvent
      ensures Valid() && !inEvent
    {
      inEvent := false;
    }

    /** rtdm_event_timedwait on in_event, with interrupts at every point. Only a look before going to
        sleep notices that the event is pending; a signal, the timeout or the destruction of the event
        can end the wait although it is, and then it stays pending. However the wait ends, the reader
        has been signalled exactly when its request can be met or an error is pending. */
    method Wait(request: int, timeout: int, env: Looks) returns (ret: int, seen: Looks)
      requires Valid() && nwait == request > 0 && npend == 0 && status == {} && timeout >= 0
      modifies buf, this`tail, this`npend, this`received, this`overrun, this`status, this`nwait, this`inEvent
      ensures Valid() && old(received) <= received && (old(overrun) ==> overrun)
      ensures SeenIn(seen, env) && ret == TimedWait(timeout, seen)
      ensures !overrun ==> Announced(request)
      ensures inEvent == (ret < 0 && Last(timeout, seen).pending)
      // the event is there when it was or when the request has been announced as met, and only then
      ensures old(inEvent) ==> Last(timeout, seen).pending
      ensures Last(timeout, seen).pending && !old(inEvent) ==> nwait == 0
      ensures ret < 0 && nwait == 0 ==> inEvent
    {
      hide Valid, SeenIn;
      Arrive(request);
      var look := env.entry.(pending := inEvent);
      seen := env.(entry := look);
      var end := AtEntry(look);
      if end.None? {
        Arrive(request);
        look := env.before.(pending := inEvent);
        seen, end := seen.(before := look), BeforeSleep(timeout, look);
        if end.None? {
          Arrive(request);
          look := env.after.(pending := inEvent);
          seen, end := seen.(after := look), Some(AfterSleep(timeout, look));
        }
      }
      SeenSo(seen, env);
      ret := end.value;
      if ret == 0 {
        ClearEvent();
      }
    }

    /** rtdm_copy_to_user of the cells from `pos` on, a byte at a time with interrupts in between; it
        fails if the caller's memory has room for less. */
    method Copy(pos: int, len: int, room: int, ghost off: nat) returns (ok: bool, bytes: seq<bv8>)
      requires Valid() && 0 <= pos && 0 <= len && pos + len <= buf.Length && off + len <= npend
      requires len > 0 ==> pos == Wrap(head + off, buf.Length)
      modifies buf, this`tail, this`npend, this`received, this`overrun, this`status, this`nwait, this`inEvent
      ensures Valid() && old(received) <= received && (old(overrun) ==> overrun) && old(npend) <= npend
      ensures |bytes| <= len && (ok ==> |bytes| == len) && (ok <==> len == 0 || len <= room)
      ensures ok && !overrun ==> bytes == Part(received, |consumed| + off, len)
    {
      hide Slice, Valid, Part;
      bytes, ok := [], true;
      EmptyPart(received, |consumed| + off);
      while ok && |bytes| < len
        invariant |bytes| <= len && Valid() && old(received) <= received && (old(overrun) ==> overrun)
        invariant old(npend) <= npend
        invariant !overrun ==> bytes == Part(received, |consumed| + off, |bytes|)
        invariant (|bytes| > 0 ==> |bytes| <= room) && (!ok ==> room <= |bytes| < len)
        decreases len - |bytes|, ok
      {
        var c := Cell(pos, |bytes|, off);
        if |bytes| >= room {
          ok := false;
        } else {
          bytes := bytes + [c];
        }
        ghost var seen := received;
        Preempt();
        PartGrows(seen, received, |consumed| + off, |bytes|);
      }
    }

    /** The byte in a pending cell is the next one received. */
    method Cell(pos: int, k: nat, ghost off: nat) returns (c: bv8)
      requires Valid() && off + k < npend && 0 <= pos && pos + k < buf.Length && pos == Wrap(head + off, buf.Length)
      ensures !overrun ==> |consumed| + off + k < |received|
      ensures !overrun ==> Part(received, |consumed| + off, k) + [c] == Part(received, |consumed| + off, k + 1)
    {
      hide Slice;
      c := buf[pos + k];
      if !overrun {
        PendingAt(buf[..], head, npend, consumed, received, off, k, pos);
      }
    }

    /** Copy the oldest `block` bytes to the caller, in two parts if they cross the end of the ring. */
    method CopyBlock(block: int, room: int) returns (ok: bool, bytes: seq<bv8>)
      requires Valid() && 0 < block <= npend
      modifies buf, this`tail, this`npend, this`received, this`overrun, this`status, this`nwait, this`inEvent
      ensures Valid() && old(received) <= received && (old(overrun) ==> overrun) && block <= npend
      ensures |bytes| <= block && (ok ==> |bytes| == block) && (ok <==> block <= room)
      ensures ok && !overrun ==> bytes == Part(received, |consumed|, block)
    {
      hide Slice, Part;
      var pos, sub := head, block;
      var first: seq<bv8> := [];
      ghost var seen := received;
      EmptyPart(received, |consumed|);
      if pos + sub > buf.Length {
        sub := buf.Length - pos;
        ok, first := Copy(pos, sub, room, 0);
        if !ok {
          return false, first;
        }
        seen := received;
        sub, pos := block - sub, 0;
      }
      ok, bytes := Copy(pos, sub, room - (block - sub), block - sub);
      if ok && !overrun {
        Enough();
        PartJoin(seen, received, |consumed|, block - sub, sub);
      }
      bytes := first + bytes;
    }

    lemma Enough()
      requires Valid() && !overrun
      ensures |received| == |consumed| + npend
    {
    }

    /** The locked section that gives the copied cells back. */
    method Release(block: int)
      requires Valid() && 0 < block <= npend
      modifies this`head, this`npend, this`consumed
      ensures Valid() && npend == old(npend) - block
      ensures !overrun ==> consumed == old(consumed) + Part(received, |old(consumed)|, block)
    {
      hide Slice;
      if !overrun {
        Advance(buf[..], head, npend, consumed, received, block);
        consumed := consumed + Part(received, |consumed|, block);
      }
      head := Wrap(head + block, buf.Length);
      npend := npend - block;
    }

    /** One block: snapshot, copy and release, with interrupts at every point in between. */
    method Transfer(block: int, room: int) returns (ok: bool, bytes: seq<bv8>)
      requires Valid() && 0 < block <= npend
      modifies buf, this`head, this`tail, this`npend, this`received, this`consumed, this`overrun,
               this`status, this`nwait, this`inEvent
      ensures Valid() && old(received) <= received && (old(overrun) ==> overrun)
      ensures (ok ==> |bytes| == block) && (ok <==> block <= room)
      ensures !overrun ==> consumed == if ok then old(consumed) + bytes else old(consumed)
    {
      hide Slice, Part;
      Preempt();
      ok, bytes := CopyBlock(block, room);
      if ok {
        Release(block);
        Preempt();
      }
    }

    /** Announce the request under the lock, then wait without it. */
    method Sleep(request: int, timeout: int, env: Looks) returns (ret: int, seen: Looks)
      requires Valid() && request > 0 && npend == 0 && status == {} && timeout >= 0
      modifies buf, this`tail, this`npend, this`received, this`overrun, this`status, this`nwait, this`inEvent
      ensures Valid() && old(received) <= received && (old(overrun) ==> overrun)
      ensures SeenIn(seen, env) && ret == TimedWait(timeout, seen)
      ensures !overrun ==> Announced(request)
    {
      hide Slice, SeenIn, TimedWait, Last;
      nwait := request;
      ret, seen := Wait(request, timeout, env);
      Arrive(request);
    }

    /** Look at the errors and the number of bytes pending. */
    method Look() returns (l: Snapshot)
      requires Valid()
      ensures l == Snapshot(status, npend) && l.npend >= 0
    {
      l := Snapshot(status, npend);
    }

    method ClearStatus()
      requires Valid()
      modifies this`status
      ensures Valid() && status == {}
    {
      status := {};
    }

    /** Withdraw the request, without the lock. */
    method Withdraw()
      requires Valid()
      modifies buf, this`tail, this`npend, this`received, this`overrun, this`status, this`nwait, this`inEvent
      ensures Valid() && old(received) <= received && (old(overrun) ==> overrun) && nwait == 0
    {
      hide Slice;
      Preempt();
      nwait := 0;
    }

    /** Wait, and look without the lock how many bytes are pending. */
    method Await(request: int, timeout: int, env: Looks) returns (ret: int, left: int, seen: Looks)
      requires Valid() && request > 0 && npend == 0 && status == {} && timeout >= 0
      modifies buf, this`tail, this`npend, this`received, this`overrun, this`status, this`nwait, this`inEvent
      ensures Valid() && old(received) <= received && (old(overrun) ==> overrun)
      ensures SeenIn(seen, env) && ret == TimedWait(timeout, seen)
      ensures 0 <= left == npend
    {
      hide Valid, SeenIn, TimedWait;
      ret, seen := Sleep(request, timeout, env);
      var l := Look();
      left := l.npend;
    }

    /** One turn of the loop of rt_16550_read. */
    method Turn(nbyte: int, room: int, timeout: int, nonblocking: bool, env: seq<Looks>, turn: nat)
      returns (look: Snapshot, step: Step)
      requires Valid() && nbyte > 0 && turn <= |env| && (nonblocking || timeout >= 0)
      modifies buf, this`head, this`tail, this`npend, this`received, this`consumed, this`overrun,
               this`status, this`nwait, this`inEvent
      ensures Valid() && old(received) <= received && (old(overrun) ==> overrun)
      ensures look == Snapshot(old(status), old(npend)) && look.npend >= 0
      ensures !overrun ==> consumed == if step.Took? then old(consumed) + step.bytes else old(consumed)
      ensures match step
        case Found => look.status != {}
        case Took(bytes) => look.status == {} && |bytes| == Min(nbyte, look.npend) <= room && bytes != []
        case Broke(_) => look.status == {} && Min(nbyte, look.npend) > room && look.npend > 0
        case Nothing => look.status == {} && look.npend == 0 && nonblocking
        case Hanging => look.status == {} && look.npend == 0 && !nonblocking && turn == |env|
        case Woke(ret, left, seen) =>
          && look.status == {} && look.npend == 0 && !nonblocking && turn < |env|
          && SeenIn(seen, env[turn]) && ret == TimedWait(timeout, seen) && 0 <= left == npend
    {
      hide Valid, SeenIn, TimedWait;
      look := Look();
      if look.status != {} {
        ClearStatus();
        return look, Found;
      }
      if look.npend > 0 {
        var ok, bytes := Transfer(if look.npend <= nbyte then look.npend else nbyte, room);
        return look, if ok then Took(bytes) else Broke(bytes);
      }
      if nonblocking {
        return look, Nothing;
      }
      if turn == |env| {
        return look, Hanging;
      }
      var ret, left, seen := Await(nbyte, timeout, env[turn]);
      step := Woke(ret, left, seen);
    }

    /** The loop of rt_16550_read, for the one reader that holds `in_lock`. `count` is how many bytes
        have been taken out of the ring. */
    method ReadLoop(want: nat, room: nat, timeout: int, env: seq<Looks>)
      returns (ret: int, out: seq<bv8>, waiting: bool, ghost count: nat, ghost end: End, ghost log: Log)
      requires Valid() && want > 0
      modifies buf, this`head, this`tail, this`npend, this`received, this`consumed, this`overrun,
               this`status, this`nwait, this`inEvent
      ensures Valid() && old(received) <= received && (old(overrun) ==> overrun)
      ensures count <= |out| && (!overrun ==> consumed == old(consumed) + out[..count])
      ensures (!end.Fault? ==> count == |out|) && (waiting <==> end.StillWaiting?)
      ensures log.looks != [] && log.looks[0] == Snapshot(old(status), old(npend))
      ensures Accounts(want, room, timeout, env, end, log, count)
      ensures if end.Complete? || end.Dry? then ret == 0 || ret == EAGAIN || ret == ETIMEDOUT || ret == EINTR
              else ret == Result(end, log, count)
      ensures end.Dry? && count == 0 ==> ret == Result(end, log, count)
    {
      hide Valid, Waited, TimedWait, SeenIn, Taken, Going, Accounts;
      out, waiting, count, ret, end, log := [], false, 0, EAGAIN, Complete, Log([], [], None, 0, -1);
      Begun(want, room, timeout, env);
      var nonblocking, turn := timeout < 0, 0;
      while |out| < want
        invariant Valid() && old(received) <= received && (old(overrun) ==> overrun)
        invariant |out| == count <= want && (!overrun ==> consumed == old(consumed) + out)
        invariant if log.looks == [] then status == old(status) && npend == old(npend) && count == 0
                  else log.looks[0] == Snapshot(old(status), old(npend))
        invariant Going(want, room, timeout, env, log, count, ret) && |log.seen| == turn <= |env|
        invariant (nonblocking <==> timeout < 0 || log.failed.Some?) && log.atFailure <= |log.looks|
        decreases want - |out|, |env| - turn, !nonblocking
      {
        var look, step := Turn(want - |out|, room - |out|, timeout, nonblocking, env, turn);
        Looked(want, room, timeout, env, log, count, ret, look);
        GoingRet(want, room, timeout, env, log, count, ret);
        log := log.(looks := log.looks + [look]);
        match step {
          case Found =>
            ret, end := if Break in look.status then EPIPE else EIO, Errors;
            return;
          case Took(bytes) =>
            out, count := out + bytes, count + |bytes|;
          case Broke(bytes) =>
            ret, out, end := EFAULT, out + bytes, Fault;
            return;
          case Nothing =>
            FoundNothing(want, room, timeout, env, log, count, ret);
            end := Dry;
            return;
          case Hanging =>
            FoundNothing(want, room, timeout, env, log, count, ret);
            ret, waiting, end := 0, true, StillWaiting;
            return;
          case Woke(code, left, seen) =>
            Slept(want, room, timeout, env, log, count, ret, seen, left);
            log, turn, ret := log.(seen := log.seen + [seen]), turn + 1, code;
            if ret < 0 {
              log := log.(failed := Some(ret), atFailure := |log.looks|, after := left);
              if ret == EIDRM {
                ret, end := EBADF, Closed;
                return;
              }
              nonblocking := true;
              if left == 0 {
                end := Dry;
                Withdraw();
                return;
              }
            }
        }
      }
      Satisfied(want, room, timeout, env, log, ret);
      GoingRet(want, room, timeout, env, log, count, ret);
    }

    /** rt_16550_read. `out` is what has been copied to the caller, whose memory is `accessible` and has
        room for `room` bytes; `timeout` is rx_timeout, `env` what the waits for the event find, and
        `count` how many of the copied bytes have been taken out of the ring. */
    method Read(want: nat, accessible: bool, room: nat, timeout: int, env: seq<Looks>)
      returns (ret: int, out: seq<bv8>, ghost count: nat, ghost end: End, ghost log: Log)
      requires Valid()
      modifies buf, this
      ensures Valid() && old(received) <= received && (old(overrun) ==> overrun)
      ensures count <= |out| && (!overrun ==> consumed == old(consumed) + out[..count])
      ensures want == 0 ==> ret == 0 && out == []
      ensures want > 0 && !accessible ==> ret == EFAULT && out == []
      ensures want > 0 && accessible && old(inLock) ==> ret == EBUSY && out == [] && inLock
      ensures want > 0 && accessible && !old(inLock) ==>
        && log.looks != [] && log.looks[0] == Snapshot(old(status), old(npend))
        && Accounts(want, room, timeout, env, end, log, count) && ret == Result(end, log, count)
        && (!end.Fault? ==> count == |out|)
        && (!end.Fault? && !end.Errors? ==> count >= Min(want, old(npend)))
        && (ret == EAGAIN || ret == ETIMEDOUT || ret == EINTR ==>
              out == [] && log.looks[|log.looks| - 1].npend == 0)
        && (inLock <==> end.Closed? || end.StillWaiting?)
    {
      hide Valid, Accounts;
      end, log := Complete, Log([], [], None, 0, -1);
      if want == 0 {
        return 0, [], 0, end, log;
      }
      if !accessible {
        return EFAULT, [], 0, end, log;
      }
      if inLock {
        return EBUSY, [], 0, end, log;
      }
      TakeLock(true);
      var waiting;
      ret, out, waiting, count, end, log := ReadLoop(want, room, timeout, env);
      FirstLook(want, room, timeout, env, end, log, count);
      if ret == EBADF || waiting {
        return;
      }
      TakeLock(false);
      if |out| > 0 && (ret == 0 || ret == EAGAIN || ret == ETIMEDOUT || ret == EINTR) {
        ret := |out|;
      }
    }

    method TakeLock(taken: bool)
      requires Valid()
      modifies this`inLock
      ensures Valid() && inLock == taken
    {
      inLock := taken;
    }
  }

  /** `len` elements from `at` on, as far as there are any. */
  function Part(s: seq<bv8>, at: nat, len: nat): seq<bv8> {
    if at + len <= |s| then s[at..at + len] else []
  }

  lemma EmptyPart(s: seq<bv8>, at: nat)
    ensures Part(s, at, 0) == []
  {
  }

  lemma PartGrows(s: seq<bv8>, t: seq<bv8>, at: nat, len: nat)
    requires s <= t
    ensures at + len <= |s| ==> Part(t, at, len) == Part(s, at, len)
  {
  }

  lemma PartJoin(s: seq<bv8>, t: seq<bv8>, at: nat, a: nat, b: nat)
    requires s <= t && at + a + b <= |t|
    ensures Part(t, at, a) + Part(t, at + a, b) == Part(t, at, a + b)
    ensures at + a <= |s| ==> Part(s, at, a) == Part(t, at, a)
  {
  }

  /** Taking `block` bytes off the front of the pending ones. */
  lemma Advance(b: seq<bv8>, head: int, npend: int, consumed: seq<bv8>, received: seq<bv8>, block: int)
    requires 0 <= head < |b| && 0 < block <= npend <= |b| && received == consumed + Slice(b, head, npend)
    ensures var h := Wrap(head + block, |b|);
      && received == consumed + Part(received, |consumed|, block) + Slice(b, h, npend - block)
      && Wrap(h + (npend - block), |b|) == Wrap(head + npend, |b|)
  {
    var p := Slice(b, head, npend);
    if block < |b| {
      SliceSplit(b, head, npend, block);
    } else {
      assert Slice(b, Wrap(head + block, |b|), 0) == [] == p[block..];
    }
    assert Part(received, |consumed|, block) == p[..block];
    assert p == p[..block] + p[block..];
  }

  /** The cell behind `k` copied ones holds the next byte received. */
  lemma PendingAt(b: seq<bv8>, head: int, npend: int, consumed: seq<bv8>, received: seq<bv8>,
                  off: nat, k: nat, pos: int)
    requires 0 <= head < |b| && 0 <= npend <= |b| && received == consumed + Slice(b, head, npend)
    requires off + k < npend && 0 <= pos && pos + k < |b| && pos == Wrap(head + off, |b|)
    ensures |consumed| + off + k < |received|
    ensures Part(received, |consumed| + off, k) + [b[pos + k]] == Part(received, |consumed| + off, k + 1)
  {
    assert Slice(b, head, npend)[off + k] == b[Wrap(head + (off + k), |b|)] == b[pos + k];
    assert received[|consumed| + off + k] == b[pos + k];
  }

  lemma AppendOne(b: seq<bv8>, head: int, npend: int, c: bv8)
    requires 0 <= head < |b| && 0 <= npend < |b|
    ensures var t := Wrap(head + npend, |b|);
      && Slice(b[t := c], head, npend + 1) == Slice(b, head, npend) + [c]
      && Wrap(t + 1, |b|) == Wrap(head + (npend + 1), |b|)
  {
    var t := Wrap(head + npend, |b|);
    forall k | 0 <= k < npend + 1
      ensures Slice(b[t := c], head, npend + 1)[k] == (Slice(b, head, npend) + [c])[k]
    {
      assert k < npend ==> Wrap(head + k, |b|) != t;
    }
  }
}
