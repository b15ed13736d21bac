/** A CAN socket's receive buffer: rtcan_rcv_deliver appends frames of varying length to a byte ring,
    rtcan_raw_recvmsg parses them back, both across the end of the ring. */
module RxRing {
  import opened Collections
  import opened Filters
  import opened FrameBytes
  import opened Ring

  /** Bytes in use between head and tail. */
  function Used(head: int, tail: int, n: nat): (r: nat)
    requires 0 <= head < n && 0 <= tail < n
    ensures r < n && Wrap(head + r, n) == tail
  {
    if tail >= head then tail - head else tail - head + n
  }

  function Size(st: Stored): nat { 6 + |st.frame.data| + if st.stamp.Some? then 8 else 0 }

  /** The memory image of a buffered frame. */
  function Bytes(st: Stored, o: Order): (r: seq<bv8>)
    requires WellSized(st.frame)
    ensures |r| == Size(st)
  {
    IdBytes(st.frame.id, o) + [st.frame.ifindex, DlcByte(st.frame.dlc, st.stamp.Some?)] + st.frame.data
    + if st.stamp.Some? then st.stamp.value else []
  }

  predicate AllWellSized(fs: seq<Stored>) { forall k :: 0 <= k < |fs| ==> WellSized(fs[k].frame) }

  /** The bytes of a sequence of frames, oldest first. */
  function Stream(fs: seq<Stored>, o: Order): seq<bv8>
    requires AllWellSized(fs)
  {
    if fs == [] then [] else Bytes(fs[0], o) + Stream(fs[1..], o)
  }

  lemma {:induction false} StreamAppend(fs: seq<Stored>, st: Stored, o: Order)
    requires AllWellSized(fs) && WellSized(st.frame)
    ensures Stream(fs + [st], o) == Stream(fs, o) + Bytes(st, o)
  {
    if fs == [] {
      assert fs + [st] == [st] && [st][1..] == [];
    } else {
      assert (fs + [st])[1..] == fs[1..] + [st];
      StreamAppend(fs[1..], st, o);
    }
  }

  /** The space that frames take in the buffer. */
  function TotalSize(fs: seq<Stored>): nat { if fs == [] then 0 else Size(fs[0]) + TotalSize(fs[1..]) }

  lemma {:induction false} StreamSize(fs: seq<Stored>, o: Order)
    requires AllWellSized(fs)
    ensures |Stream(fs, o)| == TotalSize(fs)
  {
    hide Bytes;
    if fs != [] {
      StreamSize(fs[1..], o);
    }
  }

  /** What recvmsg returns: a zero-padded can_frame, and the timestamp if it was asked for. */
  datatype Message = Message(id: CanId, ifindex: bv8, dlc: nat, data: seq<bv8>, stamp: Option<Stamp>)

  function Padded(d: seq<bv8>): (r: seq<bv8>)
    requires |d| <= 8
    ensures |r| == 8 && r[..|d|] == d && forall k :: |d| <= k < 8 ==> r[k] == 0
  {
    d + seq(8 - |d|, _ => 0)
  }

  function Shown(st: Stored, control: bool): Message
    requires WellSized(st.frame)
  {
    Message(st.frame.id, st.frame.ifindex, st.frame.dlc, Padded(st.frame.data), if control then st.stamp else None)
  }

  /** The bytes at the offsets where recvmsg looks for the fields of the first frame. */
  lemma Fields(st: Stored, rest: seq<bv8>, o: Order)
    requires WellSized(st.frame)
    ensures var c := Bytes(st, o) + rest;
      var n := |st.frame.data|;
      && |c| == Size(st) + |rest| && Size(st) >= 6 + n
      && IdFromBytes(c[..4], o) == st.frame.id
      && c[4] == st.frame.ifindex
      && DlcOf(c[5]) == st.frame.dlc && HasStamp(c[5]) == st.stamp.Some?
      && c[6..6 + n] == st.frame.data
      && (st.stamp.Some? ==> Size(st) == 14 + n && c[6 + n..14 + n] == st.stamp.value)
      && c[Size(st)..] == rest
  {
    hide IdBytes, IdFromBytes, DlcByte, DlcOf, HasStamp;
    IdRoundTrip(st.frame.id, o);
    DlcRoundTrip(st.frame.dlc, st.stamp.Some?);
    var c := Bytes(st, o) + rest;
    assert c[..4] == IdBytes(st.frame.id, o);
  }

  /** The fields of the oldest frame, in the bytes of all frames. */
  lemma FirstFields(fs: seq<Stored>, o: Order)
    requires AllWellSized(fs) && fs != []
    ensures var c, st, n := Stream(fs, o), fs[0], |fs[0].frame.data|;
      && |c| >= Size(st) >= 6 + n
      && IdFromBytes(c[..4], o) == st.frame.id
      && c[4] == st.frame.ifindex
      && DlcOf(c[5]) == st.frame.dlc && HasStamp(c[5]) == st.stamp.Some?
      && c[6..6 + n] == st.frame.data
      && (st.stamp.Some? ==> Size(st) == 14 + n && c[6 + n..14 + n] == st.stamp.value)
  {
    Fields(fs[0], Stream(fs[1..], o), o);
  }

  /** The buffered bytes determine the frames: nothing can be read back in two ways. */
  lemma {:induction false} StreamUnique(fs: seq<Stored>, gs: seq<Stored>, o: Order)
    requires AllWellSized(fs) && AllWellSized(gs) && Stream(fs, o) == Stream(gs, o)
    ensures fs == gs
  {
    hide IdBytes, IdFromBytes, DlcByte, DlcOf, HasStamp;
    if fs != [] && gs != [] {
      FirstFields(fs, o);
      FirstFields(gs, o);
      assert fs[0] == gs[0];
      Fields(fs[0], Stream(fs[1..], o), o);
      Fields(gs[0], Stream(gs[1..], o), o);
      StreamUnique(fs[1..], gs[1..], o);
    }
  }

  /** How many bytes recvmsg takes off the buffer. */
  function Taken(st: Stored, control: bool): nat {
    6 + |st.frame.data| + if control && st.stamp.Some? then 8 else 0
  }

  /** The state of a socket's receive buffer: `buf` holds RTCAN_RXBUF_SIZE bytes, and `full` is
      rx_buf_full. */
  datatype Rx = Rx(order: Order, buf: seq<bv8>, head: int, tail: int, full: nat)

  predicate InBounds(r: Rx) { 0 <= r.head < |r.buf| && 0 <= r.tail < |r.buf| }

  /** The bytes between head and tail. */
  function Content(r: Rx): (c: seq<bv8>)
    requires InBounds(r)
    ensures |c| == Used(r.head, r.tail, |r.buf|)
  {
    Slice(r.buf, r.head, Used(r.head, r.tail, |r.buf|))
  }

  /** The buffer holds exactly these frames, oldest first. */
  predicate Holds(r: Rx, fs: seq<Stored>) {
    InBounds(r) && AllWellSized(fs) && Content(r) == Stream(fs, r.order)
  }

  predicate Fits(r: Rx, st: Stored)
    requires InBounds(r)
  {
    Used(r.head, r.tail, |r.buf|) + Size(st) < |r.buf|
  }

  /** What rtcan_rcv_deliver makes of the buffer. */
  function Delivered(r: Rx, st: Stored): (r': Rx)
    requires InBounds(r) && WellSized(st.frame)
    ensures InBounds(r') && |r'.buf| == |r.buf| && r'.order == r.order
  {
    if Fits(r, st) then
      r.(buf := Written(r.buf, r.tail, Bytes(st, r.order)), tail := Wrap(r.tail + Size(st), |r.buf|))
    else r.(full := r.full + 1)
  }

  /** `len` bytes of the ring, whatever is in them. */
  function Get(b: seq<bv8>, pos: int, len: nat): (r: seq<bv8>)
    requires b != [] && 0 <= pos
    ensures |r| == len
  {
    seq(len, k requires 0 <= k < len => b[(pos + k) % |b|])
  }

  function ReadId(r: Rx): CanId
    requires InBounds(r)
  {
    IdFromBytes(Get(r.buf, r.head, 4), r.order)
  }

  function ReadDlc(r: Rx): bv8
    requires InBounds(r)
  {
    Get(r.buf, r.head + 5, 1)[0]
  }

  function ReadSize(r: Rx): nat
    requires InBounds(r)
  {
    PayloadSize(ReadId(r).rtr, DlcOf(ReadDlc(r)))
  }

  /** The bytes at the head claim that a timestamp follows the data. */
  predicate Stamped(r: Rx)
    requires InBounds(r)
  {
    HasStamp(ReadDlc(r))
  }

  /** What rtcan_raw_recvmsg makes of the bytes at the head. */
  function Peeked(r: Rx, control: bool): Message
    requires InBounds(r)
  {
    PayloadBound(r);
    Message(ReadId(r), Get(r.buf, r.head + 4, 1)[0], DlcOf(ReadDlc(r)), Padded(Get(r.buf, r.head + 6, ReadSize(r))),
            if control && Stamped(r) then Some(Get(r.buf, r.head + 6 + ReadSize(r), 8)) else None)
  }

  lemma PayloadBound(r: Rx)
    requires InBounds(r)
    ensures ReadSize(r) <= 8
  {
  }

  /** The buffer after recvmsg has taken the bytes it read. */
  function Advanced(r: Rx, control: bool): (r': Rx)
    requires InBounds(r)
    ensures InBounds(r') && r' == r.(head := r'.head)
  {
    r.(head := (r.head + 6 + ReadSize(r) + if control && Stamped(r) then 8 else 0) % |r.buf|)
  }

  /** Part of the content, read at its place in the ring. */
  lemma GetContent(r: Rx, c: seq<bv8>, off: nat, len: nat)
    requires InBounds(r) && c == Content(r) && off + len <= |c|
    ensures Get(r.buf, r.head + off, len) == c[off..off + len]
  {
    var got, want := Get(r.buf, r.head + off, len), c[off..off + len];
    forall k | 0 <= k < len ensures got[k] == want[k] {
      WrapIsMod(r.head + off + k, |r.buf|);
    }
  }

  /** recvmsg sees the oldest frame across any wrap, and takes its bytes except for a timestamp that
      was not asked for. */
  lemma PeekedIsShown(r: Rx, fs: seq<Stored>, control: bool)
    requires Holds(r, fs) && fs != []
    ensures Peeked(r, control) == Shown(fs[0], control)
    ensures Stamped(r) == fs[0].stamp.Some?
    ensures Taken(fs[0], control) < |r.buf|
    ensures Advanced(r, control).head == Wrap(r.head + Taken(fs[0], control), |r.buf|)
  {
    hide Get, IdFromBytes, DlcOf, HasStamp, Bytes, Stream, Slice, Content;
    var c, k := Content(r), |fs[0].frame.data|;
    FirstFields(fs, r.order);
    GetContent(r, c, 0, 4);
    assert c[0..4] == c[..4];
    GetContent(r, c, 4, 1);
    GetContent(r, c, 5, 1);
    GetContent(r, c, 6, k);
    if control && fs[0].stamp.Some? {
      GetContent(r, c, 6 + k, 8);
    }
    WrapIsMod(r.head + Taken(fs[0], control), |r.buf|);
  }

  /** An accepted frame is the newest one; a drop changes nothing but the counter. */
  lemma DeliveredHolds(r: Rx, fs: seq<Stored>, st: Stored)
    requires Holds(r, fs) && WellSized(st.frame)
    ensures Fits(r, st) <==> |Stream(fs, r.order)| + Size(st) < |r.buf|
    ensures Holds(Delivered(r, st), if Fits(r, st) then fs + [st] else fs)
  {
    hide Bytes, Stream, Written, Slice;
    if Fits(r, st) {
      var used, n := Used(r.head, r.tail, |r.buf|), |r.buf|;
      StreamAppend(fs, st, r.order);
      WriteExtends(r.buf, r.head, used, Bytes(st, r.order));
    }
  }

  /** Reading takes the oldest frame off, and leaves the others readable if and only if its timestamp
      was asked for or it has none. */
  lemma AdvancedHolds(r: Rx, fs: seq<Stored>, control: bool)
    requires Holds(r, fs) && fs != []
    ensures Holds(Advanced(r, control), fs[1..]) <==> control || fs[0].stamp.None?
  {
    hide Bytes, Peeked, Stamped, Advanced, Slice;
    PeekedIsShown(r, fs, control);
    Aligned(r.buf, r.head, r.tail, fs[0], Stream(fs[1..], r.order), Advanced(r, control).head, r.order, control);
  }

  class RxSocket {
    const order: Order
    const buf: array<bv8>  // RTCAN_RXBUF_SIZE bytes
    var head: int
    var tail: int
    var rxBufFull: nat
    ghost var frames: seq<Stored>

    ghost function View(): Rx
      reads this, buf
    {
      Rx(order, buf[..], head, tail, rxBufFull)
    }

    ghost predicate Valid()
      reads this, buf
    {
      Holds(View(), frames)
    }

    constructor (size: nat, o: Order)
      requires size > 0
      ensures Valid() && frames == [] && rxBufFull == 0 && buf.Length == size && order == o && fresh(buf)
    {
      order, buf, head, tail, rxBufFull, frames := o, new bv8[size], 0, 0, 0, [];
    }

    /** memcpy into the buffer. */
    method Copy(pos: int, src: seq<bv8>)
      requires 0 <= pos && pos + |src| <= buf.Length
      modifies buf
      ensures buf[..] == Pasted(old(buf[..]), pos, src)
    {
      var k := 0;
      while k < |src|
        invariant 0 <= k <= |src|
        invariant forall x :: 0 <= x < buf.Length ==>
                                buf[x] == if pos <= x < pos + k then src[x - pos] else old(buf[x])
      {
        buf[pos + k] := src[k];
        k := k + 1;
      }
    }

    /** The two-part copy to the tail. */
    method Put(image: seq<bv8>)
      requires InBounds(View()) && |image| <= buf.Length
      modifies buf
      ensures buf[..] == Written(old(buf[..]), tail, image)
    {
      var n := buf.Length;
      ghost var b := buf[..];
      if tail + |image| > n {
        hide Pasted, Written;
        var first := n - tail;
        Copy(tail, image[..first]);
        Copy(0, image[first..]);
        TwoCopies(b, tail, image);
      } else {
        Copy(tail, image);
      }
    }

    /** rtcan_rcv_deliver: the frame is appended, or dropped when the buffer cannot take it. */
    method Deliver(st: Stored) returns (stored: bool)
      requires Valid() && WellSized(st.frame)
      modifies this, buf
      ensures Valid() && View() == Delivered(old(View()), st)
      ensures stored <==> old(|Stream(frames, order)|) + Size(st) < buf.Length
      ensures stored ==> frames == old(frames) + [st]
      ensures !stored ==> frames == old(frames) && View() == old(View()).(full := old(rxBufFull) + 1)
    {
      hide Bytes, Stream, Written, Content;
      ghost var was := View();
      DeliveredHolds(was, frames, st);
      var image := Bytes(st, order);
      var size, n := |image|, buf.Length;
      var free := head - tail;
      if free <= 0 {
        free := free + n;
      }
      stored := free > size;
      if stored {
        Put(image);
        tail := Wrap(tail + size, n);
        frames := frames + [st];
      } else {
        rxBufFull := rxBufFull + 1;
      }
      assert View() == Delivered(was, st);
    }

    /** MEMCPY_FROM_RING_BUF. */
    method Fetch(pos: int, len: nat) returns (bytes: seq<bv8>, next: int)
      requires 0 <= pos < buf.Length && len <= buf.Length
      ensures bytes == Slice(buf[..], pos, len) && next == Wrap(pos + len, buf.Length)
    {
      PartsAreSlice(buf[..], pos, len);
      if pos + len > buf.Length {
        var first := buf.Length - pos;
        bytes := buf[pos..] + buf[..len - first];
      } else {
        bytes := buf[pos..pos + len];
      }
      next := Wrap(pos + len, buf.Length);
    }

    /** The ID, the interface index and the DLC byte at the head of the buffer. */
    method Header(ghost c: seq<bv8>) returns (id: CanId, ifindex: bv8, dlcByte: bv8, pos: int)
      requires 0 <= head < buf.Length && 6 <= |c| < buf.Length && c == Slice(buf[..], head, |c|)
      ensures id == IdFromBytes(c[..4], order) && ifindex == c[4] && dlcByte == c[5]
      ensures pos == Wrap(head + 6, buf.Length)
    {
      hide IdFromBytes;
      SliceMid(buf[..], head, c, 0, 4);
      var idBytes;
      idBytes, pos := Fetch(head, 4);
      id := IdFromBytes(idBytes, order);
      ifindex := buf[pos];
      pos := Wrap(pos + 1, buf.Length);
      dlcByte := buf[pos];
      pos := Wrap(pos + 1, buf.Length);
    }

    /** Reading the oldest frame field by field; `pos` is the position behind what was read. */
    method Parse(control: bool) returns (m: Message, pos: int)
      requires Valid() && frames != []
      ensures m == Shown(frames[0], control)
      ensures Taken(frames[0], control) < buf.Length && pos == Wrap(head + Taken(frames[0], control), buf.Length)
    {
      hide IdFromBytes, DlcOf, HasStamp, Bytes, Stream, Wrap, Slice;
      ghost var st, c, k := frames[0], Content(View()), |frames[0].frame.data|;
      FirstFields(frames, order);
      WrapAdd(head, 6, k, buf.Length);
      var id, ifindex, dlcByte, p := Header(c);
      var dlc := DlcOf(dlcByte);
      var payload := if dlc > 8 then 8 else dlc;
      SliceMid(buf[..], head, c, 6, k);
      var data := [];
      pos := p;
      if !id.rtr && payload > 0 {
        data, pos := Fetch(p, payload);
      }
      assert data == st.frame.data;
      var stamp := None;
      if control && HasStamp(dlcByte) {
        SliceMid(buf[..], head, c, 6 + k, 8);
        WrapAdd(head, 6 + k, 8, buf.Length);
        var stampBytes, next := Fetch(pos, 8);
        stamp, pos := Some(stampBytes), next;
      }
      m := Message(id, ifindex, dlc, Padded(data), stamp);
    }

    /** The locked section of rtcan_raw_recvmsg. `control` says that the caller passed a buffer for
        the timestamp. The frame read is always the oldest one. The bytes that stay behind are those
        of the other frames exactly when the timestamp, if any, was asked for too. */
    method Receive(control: bool, peek: bool) returns (m: Message)
      requires Valid() && frames != []
      modifies this
      ensures m == Shown(old(frames[0]), control) == Peeked(old(View()), control)
      ensures View() == if peek then old(View()) else Advanced(old(View()), control)
      ensures peek ==> frames == old(frames) && Valid()
      ensures !peek ==> frames == old(frames[1..])
      ensures !peek ==> (Valid() <==> control || old(frames[0].stamp).None?)
    {
      hide Bytes, Stream, Content, Peeked, Advanced, Shown;
      ghost var was := View();
      PeekedIsShown(was, frames, control);
      AdvancedHolds(was, frames, control);
      var pos;
      m, pos := Parse(control);
      if !peek {
        head := pos;
        frames := frames[1..];
      }
    }
  }

  /** Part of the content, read at its place in the ring. */
  lemma SliceMid(b: seq<bv8>, head: int, c: seq<bv8>, off: nat, len: nat)
    requires 0 <= head < |b| && |c| < |b| && c == Slice(b, head, |c|) && off + len <= |c|
    ensures Slice(b, Wrap(head + off, |b|), len) == c[off..off + len]
  {
  }

  /** After the first frame has been read, the remaining bytes are those of the other frames if and
      only if its timestamp was read as well. */
  lemma Aligned(b: seq<bv8>, head: int, tail: int, st: Stored, rest: seq<bv8>, pos: int, o: Order, control: bool)
    requires 0 <= head < |b| && 0 <= tail < |b| && WellSized(st.frame)
    requires Slice(b, head, Used(head, tail, |b|)) == Bytes(st, o) + rest
    requires pos == Wrap(head + Taken(st, control), |b|)
    ensures Slice(b, pos, Used(pos, tail, |b|)) == rest <==> control || st.stamp.None?
  {
    hide Bytes, Slice;
    var c := Bytes(st, o) + rest;
    var used := |c|;
    var off := Taken(st, control);
    assert Used(pos, tail, |b|) == used - off;
    SliceMid(b, head, c, off, used - off);
    assert c[off..used] == c[off..];
    if off == Size(st) {
      assert c[Size(st)..] == rest;
    } else {
      assert |c[off..]| == |rest| + 8;
    }
  }
}
