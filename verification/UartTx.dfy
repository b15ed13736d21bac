/** The transmit half of the 16550A driver. rt_16550_write reserves room under the lock, copies the
    caller's bytes into the ring without it, and commits under the lock again; transmit interrupts
    take bytes out of the ring at every point in between. */
module UartTx {
  import opened Collections
  import opened Events
  import opened Ring

  /** How a write ends: everything committed, a fault in the caller's memory, a wait that failed; or the
      writer still waits when the run followed is over. */
  datatype End = Complete | Fault | GaveUp(code: int) | StillWaiting

  function Min(a: int, b: int): int { if a < b then a else b }

  /** What the caller is told. */
  function Result(end: End, count: nat): int {
    match end
    case Complete => count
    case Fault => EFAULT
    case GaveUp(code) => if code == EIDRM then EBADF else if count > 0 then count else code
    case StillWaiting => 0
  }

  /** The wait that made the writer give up. */
  function Failure(end: End): Option<int> { if end.GaveUp? then Some(end.code) else None }

  /** Everything written fills the ring behind the first `gone` bytes. */
  predicate FullAt(gone: nat, committed: nat, size: nat) { committed == gone + size }

  class TxPath {
    const buf: array<bv8>  // OUT_BUFFER_SIZE bytes
    const fifo: nat        // tx_fifo of the device
    var head: int
    var tail: int
    var npend: int
    var txIrq: bool        // IER_TX in ier_status
    var outEvent: bool     // RTDM_EVENT_PENDING of out_event
    var wire: seq<bv8>     // everything written to THR
    ghost var committed: seq<bv8>

    ghost predicate Indexed()
      reads this
    {
      0 <= head < buf.Length && 0 <= tail < buf.Length && 0 <= npend <= buf.Length
    }

    /** What went out, followed by what is pending, is what the writers have committed; the transmit
        interrupt is enabled while anything is pending. */
    ghost predicate Valid()
      reads this, buf
    {
      && Indexed()
      && tail == Wrap(head + npend, buf.Length)
      && committed == wire + Slice(buf[..], head, npend)
      && (npend > 0 ==> txIrq)
    }

    constructor (size: nat, depth: nat)
      requires size > 0
      ensures Valid() && committed == [] && buf.Length == size && fifo == depth && fresh(buf)
    {
      buf, fifo := new bv8[size], depth;
      head, tail, npend, txIrq, outEvent, wire, committed := 0, 0, 0, false, false, [], [];
    }

    /** rt_16550_tx_interrupt. */
    method TxInterrupt()
      requires Valid()
      modifies this`head, this`npend, this`wire
      ensures Indexed() && tail == Wrap(head + npend, buf.Length)
      ensures committed == wire + Slice(buf[..], head, npend)
      ensures old(wire) <= wire && npend == if old(npend) <= fifo then 0 else old(npend) - fifo
    {
      hide Slice;
      var count := fifo;
      while count > 0 && npend > 0
        invariant 0 <= count <= fifo && npend <= old(npend) && old(npend) - npend == fifo - count
        invariant Indexed() && tail == Wrap(head + npend, buf.Length)
        invariant committed == wire + Slice(buf[..], head, npend) && old(wire) <= wire
        decreases count
      {
        SendOne();
        count := count - 1;
      }
    }

    /** One byte to THR. */
    method SendOne()
      requires Indexed() && tail == Wrap(head + npend, buf.Length) && npend > 0
      requires committed == wire + Slice(buf[..], head, npend)
      modifies this`head, this`npend, this`wire
      ensures Indexed() && tail == Wrap(head + npend, buf.Length) && npend == old(npend) - 1
      ensures committed == wire + Slice(buf[..], head, npend) && old(wire) <= wire
    {
      hide Slice;
      TakeFirst(buf[..], head, npend);
      ghost var rest := Slice(buf[..], Wrap(head + 1, buf.Length), npend - 1);
      assert wire + ([buf[head]] + rest) == wire + [buf[head]] + rest;
      wire := wire + [buf[head]];
      head := Wrap(head + 1, buf.Length);
      npend := npend - 1;
    }

    /** The transmit side of one call of rt_16550_interrupt; `ready` says that IIR reports a transmit
        interrupt. */
    method Interrupt(ready: bool)
      requires Valid()
      modifies this`head, this`npend, this`wire, this`txIrq, this`outEvent
      ensures Valid() && old(wire) <= wire
      ensures npend == if !ready then old(npend) else if old(npend) <= fifo then 0 else old(npend) - fifo
      ensures txIrq == (old(txIrq) && npend > 0)
      ensures outEvent == (old(outEvent) || (old(txIrq) && npend == 0))
    {
      if ready {
        TxInterrupt();
      }
      if txIrq && npend == 0 {
        txIrq, outEvent := false, true;
      }
    }

    /** Any number of interrupts. The writer is signalled if and only if the last pending byte goes out,
        or the interrupt is enabled with nothing pending. */
    method Preempt()
      requires Valid()
      modifies this`head, this`npend, this`wire, this`txIrq, this`outEvent
      ensures Valid() && old(wire) <= wire && npend <= old(npend)
      ensures (old(outEvent) ==> outEvent) && (outEvent && !old(outEvent) ==> npend == 0)
      ensures old(npend) > 0 && npend == 0 ==> outEvent
    {
      var k: nat := *;
      while k > 0
        invariant Valid() && old(wire) <= wire && npend <= old(npend)
        invariant (old(outEvent) ==> outEvent) && (outEvent && !old(outEvent) ==> npend == 0)
        invariant old(npend) > 0 && npend == 0 ==> outEvent
      {
        var ready: bool := *;
        Interrupt(ready);
        k := k - 1;
      }
    }

    method PutByte(pos: int, k: nat, v: bv8, ghost off: nat)
      requires Valid() && 0 <= pos && pos + k < buf.Length
      requires npend + off + k < buf.Length && pos == Wrap(tail + off, buf.Length)
      modifies buf
      ensures Valid() && buf[..] == old(buf[..])[pos + k := v]
    {
      hide Slice;
      Behind(head, npend, tail, off, pos, k, buf.Length);
      WriteBehind(buf[..], head, npend, npend + off + k, v);
      buf[pos + k] := v;
      assert buf[..] == old(buf[..])[pos + k := v];
    }

    /** rtdm_copy_from_user to position `pos`, a byte at a time with interrupts in between; it fails if
        fewer than the bytes asked for are readable. The cells written lie behind the pending ones. */
    method Copy(pos: int, src: seq<bv8>, readable: int, ghost off: nat) returns (ok: bool)
      requires Valid() && 0 <= pos && pos + |src| <= buf.Length
      requires npend + off + |src| <= buf.Length
      requires |src| > 0 ==> pos == Wrap(tail + off, buf.Length)
      modifies buf, this`head, this`npend, this`wire, this`txIrq, this`outEvent
      ensures Valid() && old(wire) <= wire && npend <= old(npend)
      ensures ok <==> |src| == 0 || |src| <= readable
      ensures ok ==> buf[pos..pos + |src|] == src
      ensures forall x :: 0 <= x < buf.Length && !(pos <= x < pos + |src|) ==> buf[x] == old(buf[x])
    {
      hide Slice;
      var k := 0;
      ok := true;
      while ok && k < |src|
        invariant 0 <= k <= |src| && Valid() && old(wire) <= wire && npend <= old(npend)
        invariant forall x :: pos <= x < pos + k ==> buf[x] == src[x - pos]
        invariant forall x :: 0 <= x < buf.Length && !(pos <= x < pos + |src|) ==> buf[x] == old(buf[x])
        invariant (k > 0 ==> k <= readable) && (!ok ==> k < |src| && k >= readable)
        decreases |src| - k, ok
      {
        if k >= readable {
          ok := false;
        } else {
          PutByte(pos, k, src[k], off);
          k := k + 1;
        }
        Preempt();
      }
    }

    /** Copy a block to the tail, in two parts if it crosses the end of the ring; `copied` is what
        counts as written so far. */
    method CopyBlock(data: seq<bv8>, readable: int) returns (ok: bool, copied: nat)
      requires Valid() && 0 < |data| && npend + |data| <= buf.Length
      modifies buf, this`head, this`npend, this`wire, this`txIrq, this`outEvent
      ensures Valid() && npend <= old(npend) && old(wire) <= wire && copied <= |data|
      ensures ok <==> |data| <= readable
      ensures ok ==> copied == |data| && Slice(buf[..], tail, |data|) == data
    {
      hide Slice;
      var pos, sub := tail, |data|;
      ghost var off := 0;
      copied, ok := 0, true;
      if pos + sub > buf.Length {
        sub := buf.Length - pos;
        ok := Copy(pos, data[..sub], readable, 0);
        if !ok {
          return;
        }
        copied, off := sub, sub;
        sub, pos := |data| - sub, 0;
      }
      ok := Copy(pos, data[copied..], readable - copied, off);
      if ok {
        copied := copied + sub;
        BlockParts(buf[..], tail, data);
      }
    }

    /** The locked section that makes a copied block pending. */
    method Commit(ghost block: seq<bv8>, len: int)
      requires Valid() && len == |block| > 0 && npend + len <= buf.Length && Slice(buf[..], tail, len) == block
      modifies this`tail, this`npend, this`txIrq, this`committed
      ensures Valid() && committed == old(committed) + block && npend == old(npend) + len
    {
      hide Slice;
      JoinPending(buf[..], head, npend, len);
      tail := Wrap(tail + len, buf.Length);
      npend := npend + len;
      committed := committed + block;
      txIrq := true;
    }

    method Free() returns (free: int)
      requires Valid()
      ensures 0 <= free == buf.Length - npend && |committed| == |wire| + npend
    {
      free := buf.Length - npend;
    }

    /** One block: reserved, copied and committed, with interrupts at every point in between. */
    method Transfer(block: seq<bv8>, readable: int) returns (ok: bool, copied: nat)
      requires Valid() && 0 < |block| && npend + |block| <= buf.Length
      modifies buf, this
      ensures Valid() && old(wire) <= wire
      ensures committed == if ok then old(committed) + block else old(committed)
      ensures (ok <==> |block| <= readable) && (ok ==> copied == |block|)
    {
      hide Slice;
      Preempt();
      ok, copied := CopyBlock(block, readable);
      if ok {
        Commit(block, |block|);
        Preempt();
      }
    }

    /** rt_16550_write for a user-space caller. Of the caller's memory `readable` bytes can be read;
        `refusal` is the result of the access check and of taking the mutex, and `env` what the waits
        for the event find, one after the other: the run is followed as long as it lasts. `count` is how
        many of the caller's bytes have been committed. */
    method Write(data: seq<bv8>, readable: nat, refusal: int, timeout: int, env: seq<Looks>)
      returns (ret: int, ghost count: nat, ghost end: End, ghost seen: seq<Looks>)
      requires Valid() && refusal <= 0
      modifies buf, this
      ensures Valid() && old(wire) <= wire
      ensures count <= |data| && committed == old(committed) + data[..count]
      ensures data == [] ==> ret == 0
      ensures data != [] && refusal < 0 ==> ret == refusal && count == 0
      ensures data != [] && refusal == 0 ==> Waited(Failure(end), timeout, env, seen) && ret == Result(end, count)
      ensures data != [] && refusal == 0 && end.StillWaiting? ==> |seen| == |env|
      ensures data != [] && refusal == 0 ==> (end.Complete? <==> count == |data|)
      ensures data != [] && refusal == 0 ==>
        if end.Fault? then count <= readable < |data|
        else count <= readable && count >= Min(|data|, buf.Length - old(npend))
      // it gives up, or waits for ever, only on a full ring
      ensures data != [] && refusal == 0 && (end.GaveUp? || end.StillWaiting?) ==>
        exists gone :: |old(wire)| <= gone <= |wire| && FullAt(gone, |committed|, buf.Length)
    {
      hide Slice, Indexed, Valid, Waited, TimedWait, SeenIn;
      count, end, seen := 0, Complete, [];
      NoWait(timeout, env);
      if data == [] {
        return 0, 0, end, [];
      }
      if refusal < 0 {
        return refusal, 0, end, [];
      }
      var written, nbyte, turn := 0, |data|, 0;
      ret := 0;
      while nbyte > 0
        invariant Valid() && old(wire) <= wire && ret == 0 && end == Complete
        invariant 0 <= nbyte <= |data| && written == count == |data| - nbyte && count <= readable
        invariant |seen| == turn <= |env| && Waited(None, timeout, env, seen)
        invariant committed == old(committed) + data[..count]
        invariant if turn == 0 && count == 0 then npend == old(npend)
                  else count >= Min(|data|, buf.Length - old(npend))
        decreases nbyte, |env| - turn
      {
        var free := Free();
        if free > 0 {
          var block := if nbyte <= free then nbyte else free;
          var ok, copied := Transfer(data[written..written + block], readable - written);
          written := written + copied;
          if !ok {
            ret, end := EFAULT, Fault;
            break;
          }
          NextBlock(old(committed), data, count, block);
          nbyte, count := nbyte - block, count + block;
        } else {
          ghost var gone := |wire|;
          assert FullAt(gone, |committed|, buf.Length);
          if turn == |env| {
            return 0, count, StillWaiting, seen;
          }
          ghost var look;
          ret, look := Wait(timeout, env[turn]);
          Preempt();
          NextWait(timeout, env, seen, look);
          seen := seen + [look];
          if ret < 0 {
            end := GaveUp(ret);
            assert FullAt(gone, |committed|, buf.Length);
            if ret == EIDRM {
              ret := EBADF;
              return;
            }
            break;
          }
          turn := turn + 1;
        }
      }
      if written > 0 && (ret == 0 || ret == EAGAIN || ret == ETIMEDOUT || ret == EINTR) {
        ret := written;
      }
    }

    method ClearEvent()
      requires Valid()
      modifies this`outEvent
      ensures Valid() && !outEvent
    {
      outEvent := false;
    }

    /** rtdm_event_timedwait on out_event, with interrupts at every point. Only a look before going
        to sleep notices that the event is pending; a signal, the timeout or the destruction of the
        event can end the wait although it is. */
    method Wait(timeout: int, env: Looks) returns (ret: int, ghost seen: Looks)
      requires Valid()
      modifies this`head, this`npend, this`wire, this`txIrq, this`outEvent
      ensures Valid() && old(wire) <= wire && npend <= old(npend)
      ensures SeenIn(seen, env) && ret == TimedWait(timeout, seen)
      ensures outEvent == (ret < 0 && Last(timeout, seen).pending)
      // the event is there when it was or when the ring has run empty, and only then
      ensures old(outEvent) ==> Last(timeout, seen).pending
      ensures Last(timeout, seen).pending && !old(outEvent) ==> npend == 0
      ensures old(npend) > 0 && npend == 0 && ret < 0 ==> outEvent
    {
      hide Valid;
      Preempt();
      var look := env.entry.(pending := outEvent);
      seen := env.(entry := look);
      var end := AtEntry(look);
      if end.None? {
        if timeout >= 0 {
          Preempt();
        }
        look := env.before.(pending := outEvent);
        seen, end := seen.(before := look), BeforeSleep(timeout, look);
        if end.None? {
          Preempt();
          look := env.after.(pending := outEvent);
          seen, end := seen.(after := look), Some(AfterSleep(timeout, look));
        }
      }
      ret := end.value;
      if ret == 0 {
        ClearEvent();
      }
    }
  }

  lemma TakeFirst(b: seq<bv8>, head: int, npend: int)
    requires 0 <= head < |b| && 0 < npend <= |b|
    ensures Slice(b, head, npend) == [b[head]] + Slice(b, Wrap(head + 1, |b|), npend - 1)
    ensures Wrap(Wrap(head + 1, |b|) + (npend - 1), |b|) == Wrap(head + npend, |b|)
  {
  }

  lemma NextBlock(was: seq<bv8>, data: seq<bv8>, count: nat, block: nat)
    requires count + block <= |data|
    ensures was + data[..count] + data[count..count + block] == was + data[..count + block]
  {
    assert data[..count] + data[count..count + block] == data[..count + block];
  }

  lemma BlockParts(b: seq<bv8>, tail: int, data: seq<bv8>)
    requires 0 <= tail < |b| && |data| <= |b|
    requires if tail + |data| > |b| then
               b[tail..] == data[..|b| - tail] && b[..|data| - (|b| - tail)] == data[|b| - tail..]
             else b[tail..tail + |data|] == data
    ensures Slice(b, tail, |data|) == data
  {
    PartsAreSlice(b, tail, |data|);
  }

  lemma JoinPending(b: seq<bv8>, head: int, npend: int, len: int)
    requires 0 <= head < |b| && 0 <= npend && 0 < len && npend + len <= |b|
    ensures Slice(b, head, npend + len) == Slice(b, head, npend) + Slice(b, Wrap(head + npend, |b|), len)
    ensures Wrap(Wrap(head + npend, |b|) + len, |b|) == Wrap(head + (npend + len), |b|)
  {
    SliceSplit(b, head, npend + len, npend);
  }

  /** A cell reserved behind the pending ones, seen from the head. */
  lemma Behind(head: int, npend: int, tail: int, off: nat, pos: int, k: nat, n: nat)
    requires 0 <= head < n && 0 <= npend && npend + off + k < n && 0 <= pos && pos + k < n
    requires tail == Wrap(head + npend, n) && pos == Wrap(tail + off, n)
    ensures pos + k == Wrap(head + (npend + off + k), n)
  {
  }

  /** Writing a cell that is not pending leaves the pending ones alone. */
  lemma WriteBehind(b: seq<bv8>, head: int, npend: int, j: int, v: bv8)
    requires 0 <= head < |b| && 0 <= npend <= j < |b|
    ensures Slice(b[Wrap(head + j, |b|) := v], head, npend) == Slice(b, head, npend)
  {
    var b' := b[Wrap(head + j, |b|) := v];
    forall k | 0 <= k < npend ensures Slice(b', head, npend)[k] == Slice(b, head, npend)[k] {
      assert Wrap(head + k, |b|) != Wrap(head + j, |b|);
    }
  }

  /** The copies for a kernel-space caller. When the block crosses the end of the ring, the second one
      has the length of the whole block, so that it also copies `over`, the bytes behind the caller's
      buffer, and may run over the first one. */
  function KernelCopy(b: seq<bv8>, tail: int, src: seq<bv8>, over: seq<bv8>): (r: seq<bv8>)
    requires 0 <= tail < |b| && |src| <= |b| && |over| == |b| - tail
    ensures |r| == |b|
  {
    if tail + |src| <= |b| then Written(b, tail, src)
    else
      var second := src[|b| - tail..] + over;
      seq(|b|, x requires 0 <= x < |b| =>
        if x < |src| then second[x] else if x < tail then b[x] else src[x - tail])
  }

  /** Whether the bytes pending and the block are what the ring holds after such a write. */
  predicate StreamKept(b: seq<bv8>, head: int, npend: int, src: seq<bv8>, over: seq<bv8>)
    requires 0 <= head < |b| && 0 <= npend && npend + |src| <= |b| && |over| == |b| - Wrap(head + npend, |b|)
  {
    Slice(KernelCopy(b, Wrap(head + npend, |b|), src, over), head, npend + |src|) == Slice(b, head, npend) + src
  }

  /** A kernel-space write appends its block to the stream, whatever lies behind the caller's buffer,
      if and only if it does not cross the end of the ring, or is not longer than the head is from
      the start. */
  lemma KernelWrapSafeIff(b: seq<bv8>, head: int, npend: int, src: seq<bv8>)
    requires 0 <= head < |b| && 0 <= npend < |b| && npend + |src| <= |b|
    ensures (Wrap(head + npend, |b|) + |src| <= |b| || |src| <= head) <==>
            forall over :: |over| == |b| - Wrap(head + npend, |b|) ==> StreamKept(b, head, npend, src, over)
  {
    var tail := Wrap(head + npend, |b|);
    var first := |b| - tail;
    if tail + |src| <= |b| {
      WriteExtends(b, head, npend, src);
      assert forall over :: |over| == first ==> StreamKept(b, head, npend, src, over);
    } else if |src| <= head {
      forall over | |over| == first ensures StreamKept(b, head, npend, src, over) {
        KernelCopyClear(b, head, npend, src, over);
      }
    } else {
      KernelCopyHits(b, head, npend, src);
    }
  }

  /** Below the head the second copy only spills into cells that are not in use. */
  lemma KernelCopyClear(b: seq<bv8>, head: int, npend: int, src: seq<bv8>, over: seq<bv8>)
    requires 0 <= head < |b| && 0 <= npend && head + npend < |b| < head + npend + |src|
    requires npend + |src| <= |b| && |src| <= head && |over| == |b| - (head + npend)
    ensures StreamKept(b, head, npend, src, over)
  {
    var r := KernelCopy(b, head + npend, src, over);
    forall k | 0 <= k < npend + |src|
      ensures Slice(r, head, npend + |src|)[k] == (Slice(b, head, npend) + src)[k]
    {
      assert Slice(r, head, npend + |src|)[k] == r[Wrap(head + k, |b|)];
    }
  }

  /** Otherwise the cell at the head gets a byte from behind the caller's buffer: the oldest pending
      one, or the first of the block. */
  lemma KernelCopyHits(b: seq<bv8>, head: int, npend: int, src: seq<bv8>)
    requires 0 <= head < |b| && 0 <= npend < |b| && npend + |src| <= |b|
    requires Wrap(head + npend, |b|) + |src| > |b| && head < |src|
    ensures exists over :: |over| == |b| - Wrap(head + npend, |b|) && !StreamKept(b, head, npend, src, over)
  {
    var tail := Wrap(head + npend, |b|);
    var first := |b| - tail;
    var was := (Slice(b, head, npend) + src)[0];
    var other: bv8 := if was == 0 then 1 else 0;
    var over := seq(first, _ => other);
    var r := KernelCopy(b, tail, src, over);
    assert |src| - first <= head < |src|;
    assert r[head] == other;
    assert Slice(r, head, npend + |src|)[0] == other;
    assert !StreamKept(b, head, npend, src, over);
  }

  /** The pending bytes alone survive whenever there are none, too. */
  lemma KernelPendingSafeIff(b: seq<bv8>, head: int, npend: int, src: seq<bv8>)
    requires 0 <= head < |b| && 0 <= npend && npend + |src| <= |b|
    requires Wrap(head + npend, |b|) + |src| > |b|
    ensures (npend == 0 || |src| <= head) <==>
            forall over :: |over| == |b| - Wrap(head + npend, |b|) ==>
              Slice(KernelCopy(b, Wrap(head + npend, |b|), src, over), head, npend) == Slice(b, head, npend)
  {
    var tail := Wrap(head + npend, |b|);
    var first := |b| - tail;
    if npend == 0 || |src| <= head {
      forall over | |over| == first
        ensures Slice(KernelCopy(b, tail, src, over), head, npend) == Slice(b, head, npend)
      {
      }
    } else {
      var other: bv8 := if b[head] == 0 then 1 else 0;
      var over := seq(first, _ => other);
      var r := KernelCopy(b, tail, src, over);
      assert |src| - first <= head < |src|;
      assert r[head] == other;
      assert Slice(r, head, npend)[0] == other && Slice(b, head, npend)[0] == b[head];
    }
  }

  /** Nothing is pending in a ring of two cells, and the block written still goes out wrong. */
  lemma CorruptBlock()
    ensures Slice(KernelCopy([0, 0], 1, [1, 2], [9]), 1, 2) == [9, 2]
    ensures !StreamKept([0, 0], 1, 0, [1, 2], [9])
  {
    var b: seq<bv8>, src: seq<bv8>, over: seq<bv8> := [0, 0], [1, 2], [9];
    var r := KernelCopy(b, 1, src, over);
    assert r == [2, 9];
    assert Slice(r, 1, 2) == [9, 2];
    assert Slice(b, 1, 0) + src == src;
    assert Slice(r, 1, 2)[0] != src[0];
  }
}
