/** From a device's reception list into the sockets' byte rings: what every socket has buffered after
    any history of socket operations, received frames and reads. */
module DeliveryRuns {
  import opened Collections
  import opened Filters
  import opened FilterSpec
  import opened FilterDriver
  import opened FilterLists
  import opened FrameBytes
  import opened RxRing

  type Ring = r: Rx | InBounds(r) witness Rx(LittleEndian, [0], 0, 0, 0)

  /** The sockets and reception lists, the receive buffer of `size` bytes of each socket, and the sockets
      whose timestamps are switched on. */
  datatype World = World(net: Net, rings: map<SockId, Ring>, wants: set<SockId>, size: nat)

  datatype Event =
    | OpenSocket(s: SockId, order: Order, buf: seq<bv8>)
    | Control(op: Op)                                   // bind, setsockopt or close
    | TakeTimestamp(s: SockId, on: bool)                // the ioctl RTCAN_RTIOC_TAKE_TIMESTAMP
    | Incoming(dev: nat, frame: Frame, stamp: Stamp)    // rtcan_rcv
    | Read(s: SockId, control: bool)                    // recvmsg

  /** What rtcan_rcv_deliver stores for a socket. */
  function CopyFor(frame: Frame, stamp: Stamp, wants: set<SockId>, s: SockId): Stored {
    Stored(frame, if s in wants then Some(stamp) else None)
  }

  /** A reader comes only for a buffered frame, and asks for its timestamp if it has one. */
  predicate Possible(w: World, e: Event) {
    match e
    case OpenSocket(s, _, buf) => s !in w.net.socks && |buf| == w.size > 0
    case Control(op) => !op.Open? && Enabled(w.net, op)
    case TakeTimestamp(s, _) => s in w.net.socks
    case Incoming(i, frame, _) =>
      i < |w.net.devs| && w.net.devs[i].Some? && !frame.id.err && WellSized(frame)
    case Read(s, control) =>
      s in w.rings && w.rings[s].head != w.rings[s].tail && (Stamped(w.rings[s]) ==> control)
  }

  /** The frame is delivered to one listener after the other. */
  function Handed(rings: map<SockId, Ring>, hits: seq<SockId>, frame: Frame, stamp: Stamp, wants: set<SockId>)
    : map<SockId, Ring>
    requires WellSized(frame)
    decreases |hits|
  {
    if hits == [] then rings
    else
      var s := hits[0];
      var rest := if s in rings then rings[s := Delivered(rings[s], CopyFor(frame, stamp, wants, s))] else rings;
      Handed(rest, hits[1..], frame, stamp, wants)
  }

  function After(w: World, e: Event): World
    requires Possible(w, e)
  {
    match e
    case OpenSocket(s, order, buf) =>
      w.(net := Apply(w.net, Open(s)).0, rings := w.rings[s := Rx(order, buf, 0, 0, 0)], wants := w.wants - {s})
    case Control(op) =>
      w.(net := Apply(w.net, op).0, rings := if op.Close? then w.rings - {op.s} else w.rings)
    case TakeTimestamp(s, on) => w.(wants := if on then w.wants + {s} else w.wants - {s})
    case Incoming(i, frame, stamp) =>
      w.(rings := Handed(w.rings, Hits(Flat(w.net.devs[i].value), frame.id), frame, stamp, w.wants))
    case Read(s, control) => w.(rings := w.rings[s := Advanced(w.rings[s], control)])
  }

  /** What the caller of an operation is told. */
  function CodeOf(w: World, e: Event): Code
    requires Possible(w, e)
  {
    if e.Control? then Apply(w.net, e.op).1 else OK
  }

  /* ---- the plain view: each socket's wishes and a queue of frames ---- */

  datatype Queue = Queue(frames: seq<Stored>, dropped: nat)

  datatype Client = Client(wish: Wish, stamps: bool, queue: Queue)

  /** `n` copies are offered one by one; a copy is dropped if it would fill `size` bytes. */
  function Offered(q: Queue, st: Stored, n: nat, size: nat): Queue
    decreases n
  {
    if n == 0 then q
    else if TotalSize(q.frames) + Size(st) < size then Offered(q.(frames := q.frames + [st]), st, n - 1, size)
    else Offered(q.(dropped := q.dropped + 1), st, n - 1, size)
  }

  /** A frame arrives: the client gets a copy for each filter it last set that accepts the frame, with the
      time of arrival if it has asked for that. */
  function Arrived(c: Client, dev: nat, frame: Frame, stamp: Stamp, size: nat): Client {
    var n := Due(Some(c.wish), dev, frame.id);
    if c.stamps then c.(queue := Offered(c.queue, Stored(frame, Some(stamp)), n, size))
    else c.(queue := Offered(c.queue, Stored(frame, None), n, size))
  }

  /** The clients after an event that has returned `code`. */
  function NextClients(cs: map<SockId, Client>, size: nat, e: Event, code: Code): map<SockId, Client> {
    match e
    case OpenSocket(s, _, _) => cs[s := Client(Wish(None, Default), false, Queue([], 0))]
    case Control(op) =>
      if op.s !in cs then cs
      else
        var w := NextWish(Some(cs[op.s].wish), op.s, op, code);
        if w.None? then cs - {op.s} else cs[op.s := cs[op.s].(wish := w.value)]
    case TakeTimestamp(s, on) => if s in cs then cs[s := cs[s].(stamps := on)] else cs
    case Incoming(i, frame, stamp) => map s | s in cs :: Arrived(cs[s], i, frame, stamp, size)
    case Read(s, _) =>
      if s in cs && cs[s].queue.frames != []
      then cs[s := cs[s].(queue := cs[s].queue.(frames := cs[s].queue.frames[1..]))] else cs
  }

  predicate RingRefines(r: Rx, q: Queue, size: nat) {
    |r.buf| == size && Holds(r, q.frames) && r.full == q.dropped
  }

  /** One client and its representation. */
  predicate ClientRefines(w: World, s: SockId, c: Client)
    requires s in w.rings
  {
    RingRefines(w.rings[s], c.queue, w.size) && Granted(w.net.socks, s, Some(c.wish)) && (s in w.wants <==> c.stamps)
  }

  /** Lists, byte rings and flags are a representation of the clients. */
  ghost predicate Refines(w: World, cs: map<SockId, Client>) {
    && Consistent(w.net)
    && w.rings.Keys == cs.Keys == w.net.socks.Keys
    && forall s :: s in cs ==> ClientRefines(w, s, cs[s])
  }

  /* ---- one frame ---- */

  /** The buffer after `n` deliveries of the same frame. */
  function Times(r: Ring, st: Stored, n: nat): Ring
    requires WellSized(st.frame)
    decreases n
  {
    if n == 0 then r else Times(Delivered(r, st), st, n - 1)
  }

  /** Only the number of hits of a socket matters to its buffer. */
  lemma {:induction false} HandedTo(rings: map<SockId, Ring>, hits: seq<SockId>, frame: Frame, stamp: Stamp,
                                    wants: set<SockId>, s: SockId)
    requires WellSized(frame)
    ensures Handed(rings, hits, frame, stamp, wants).Keys == rings.Keys
    ensures s in rings ==>
      Handed(rings, hits, frame, stamp, wants)[s] == Times(rings[s], CopyFor(frame, stamp, wants, s), multiset(hits)[s])
    decreases |hits|
  {
    hide Delivered;
    if hits != [] {
      var h := hits[0];
      assert hits == [h] + hits[1..];
      var rest := if h in rings then rings[h := Delivered(rings[h], CopyFor(frame, stamp, wants, h))] else rings;
      assert rest.Keys == rings.Keys;
      HandedTo(rest, hits[1..], frame, stamp, wants, s);
    }
  }

  lemma {:induction false} TimesRefines(r: Ring, q: Queue, st: Stored, n: nat, size: nat)
    requires RingRefines(r, q, size) && WellSized(st.frame)
    ensures RingRefines(Times(r, st, n), Offered(q, st, n, size), size)
    decreases n
  {
    hide Holds, Stream, Content;
    if n > 0 {
      DeliveredHolds(r, q.frames, st);
      HeldSize(r, q.frames);
      if RxRing.Fits(r, st) {
        TimesRefines(Delivered(r, st), q.(frames := q.frames + [st]), st, n - 1, size);
      } else {
        TimesRefines(Delivered(r, st), q.(dropped := q.dropped + 1), st, n - 1, size);
      }
    }
  }

  lemma HeldSize(r: Rx, fs: seq<Stored>)
    requires Holds(r, fs)
    ensures AllWellSized(fs) && |Stream(fs, r.order)| == TotalSize(fs)
    ensures r.head != r.tail <==> fs != []
  {
    hide Bytes;
    StreamSize(fs, r.order);
  }

  /* ---- steps and runs ---- */

  lemma ArrivedRefines(w: World, s: SockId, c: Client, e: Event)
    requires s in w.rings && ClientRefines(w, s, c) && Consistent(w.net) && e.Incoming? && Possible(w, e)
    ensures s in After(w, e).rings && ClientRefines(After(w, e), s, Arrived(c, e.dev, e.frame, e.stamp, w.size))
  {
    hide Consistent, Hits, Flat, Handed, Times, Offered, RingRefines;
    var hits := Hits(Flat(w.net.devs[e.dev].value), e.frame.id);
    Delivery(w.net, e.dev, e.frame.id, s);
    HandedTo(w.rings, hits, e.frame, e.stamp, w.wants, s);
    var n := Due(Some(c.wish), e.dev, e.frame.id);
    TimesRefines(w.rings[s], c.queue, CopyFor(e.frame, e.stamp, w.wants, s), n, w.size);
  }

  lemma IncomingRefines(w: World, cs: map<SockId, Client>, e: Event)
    requires Refines(w, cs) && e.Incoming? && Possible(w, e)
    ensures Refines(After(w, e), NextClients(cs, w.size, e, OK))
  {
    hide Consistent, Hits, Flat, Handed, ClientRefines, Arrived;
    HandedTo(w.rings, Hits(Flat(w.net.devs[e.dev].value), e.frame.id), e.frame, e.stamp, w.wants, 0);
    forall s | s in cs
      ensures ClientRefines(After(w, e), s, Arrived(cs[s], e.dev, e.frame, e.stamp, w.size))
    {
      ArrivedRefines(w, s, cs[s], e);
    }
  }

  lemma ReadRefines(r: Ring, q: Queue, size: nat, control: bool)
    requires RingRefines(r, q, size) && r.head != r.tail && (Stamped(r) ==> control)
    ensures q.frames != [] && RingRefines(Advanced(r, control), q.(frames := q.frames[1..]), size)
    ensures AllWellSized(q.frames) && Peeked(r, control) == Shown(q.frames[0], control)
  {
    hide Holds, Stamped, Peeked, Shown;
    HeldSize(r, q.frames);
    PeekedIsShown(r, q.frames, control);
    AdvancedHolds(r, q.frames, control);
  }

  lemma OpenRefines(s: SockId, order: Order, buf: seq<bv8>)
    requires buf != []
    ensures RingRefines(Rx(order, buf, 0, 0, 0), Queue([], 0), |buf|)
  {
    assert Content(Rx(order, buf, 0, 0, 0)) == [];
  }

  /** Operations change the set of sockets only by opening and closing. */
  lemma ApplyKeys(n: Net, op: Op)
    requires Enabled(n, op)
    ensures Apply(n, op).0.socks.Keys ==
      if op.Open? then n.socks.Keys + {op.s} else if op.Close? then n.socks.Keys - {op.s} else n.socks.Keys
  {
    hide FilterSpec.Fits, Installed;
  }

  /** An operation does to each client what its user wishes. */
  lemma ControlRefines(w: World, cs: map<SockId, Client>, e: Event)
    requires Refines(w, cs) && e.Control? && Possible(w, e)
    ensures Refines(After(w, e), NextClients(cs, w.size, e, CodeOf(w, e)))
  {
    hide Consistent, RingRefines, Apply, Granted;
    ApplyConsistent(w.net, e.op);
    ApplyKeys(w.net, e.op);
    forall s | s in cs
      ensures Granted(Apply(w.net, e.op).0.socks, s, NextWish(Some(cs[s].wish), s, e.op, CodeOf(w, e)))
    {
      ApplyGrants(w.net, e.op, s, Some(cs[s].wish));
    }
    CloseSucceeds(w.net, e.op);
  }

  lemma CloseSucceeds(n: Net, op: Op)
    requires Enabled(n, op)
    ensures op.Close? ==> Apply(n, op).1 == OK
  {
  }

  lemma OpenSocketRefines(w: World, cs: map<SockId, Client>, e: Event)
    requires Refines(w, cs) && e.OpenSocket? && Possible(w, e)
    ensures Refines(After(w, e), NextClients(cs, w.size, e, OK))
  {
    hide Consistent, RingRefines, Apply;
    ApplyConsistent(w.net, Open(e.s));
    ApplyKeys(w.net, Open(e.s));
    OpenRefines(e.s, e.order, e.buf);
    OpenNet(w.net, e.s);
  }

  lemma OpenNet(n: Net, s: SockId)
    requires s !in n.socks
    ensures Apply(n, Open(s)).0.socks == n.socks[s := FRESH] && FRESH.flist == Default && FRESH.flistlen < 0
  {
  }

  lemma SwitchRefines(w: World, cs: map<SockId, Client>, e: Event)
    requires Refines(w, cs) && e.TakeTimestamp? && Possible(w, e)
    ensures Refines(After(w, e), NextClients(cs, w.size, e, OK))
  {
    hide Consistent, RingRefines, Granted;
  }

  lemma OneReadRefines(w: World, cs: map<SockId, Client>, e: Event)
    requires Refines(w, cs) && e.Read? && Possible(w, e)
    ensures Refines(After(w, e), NextClients(cs, w.size, e, OK))
  {
    hide Consistent, RingRefines, Stamped, Advanced, Granted;
    ReadRefines(w.rings[e.s], cs[e.s].queue, w.size, e.control);
  }

  lemma StepRefines(w: World, cs: map<SockId, Client>, e: Event)
    requires Refines(w, cs) && Possible(w, e)
    ensures Refines(After(w, e), NextClients(cs, w.size, e, CodeOf(w, e)))
  {
    hide Refines, Possible, After, NextClients;
    match e
    case Incoming(_, _, _) => IncomingRefines(w, cs, e);
    case OpenSocket(_, _, _) => OpenSocketRefines(w, cs, e);
    case Control(_) => ControlRefines(w, cs, e);
    case TakeTimestamp(_, _) => SwitchRefines(w, cs, e);
    case Read(_, _) => OneReadRefines(w, cs, e);
  }

  /** A history from the state without sockets, with the codes returned. */
  ghost predicate Run(present: seq<bool>, cap: nat, size: nat, es: seq<Event>, codes: seq<Code>, ws: seq<World>) {
    && |ws| == |es| + 1 && |codes| == |es|
    && ws[0] == World(Initial(present, cap), map[], {}, size)
    && forall t :: 0 <= t < |es| ==>
         Possible(ws[t], es[t]) && codes[t] == CodeOf(ws[t], es[t]) && ws[t + 1] == After(ws[t], es[t])
  }

  /** The clients after a sequence of events with these codes. */
  function Clients(size: nat, es: seq<Event>, codes: seq<Code>): map<SockId, Client>
    requires |codes| == |es|
  {
    if es == [] then map[]
    else var n := |es| - 1; NextClients(Clients(size, es[..n], codes[..n]), size, es[n], codes[n])
  }

  /** After every history each ring holds one copy per filter its user last set that accepts a frame, in
      order, except for those that did not fit and those read, and counts what did not fit. */
  lemma {:induction false} RunRefines(present: seq<bool>, cap: nat, size: nat, es: seq<Event>, codes: seq<Code>,
                                      ws: seq<World>, t: nat)
    requires Run(present, cap, size, es, codes, ws) && t < |ws|
    ensures ws[t].size == size && Refines(ws[t], Clients(size, es[..t], codes[..t]))
  {
    hide Refines, NextClients, Consistent;
    if t == 0 {
      StartRefines(present, cap, size);
    } else {
      RunRefines(present, cap, size, es, codes, ws, t - 1);
      StepRefines(ws[t - 1], Clients(size, es[..t - 1], codes[..t - 1]), es[t - 1]);
      SizeStays(ws[t - 1], es[t - 1]);
      assert es[..t][..t - 1] == es[..t - 1] && codes[..t][..t - 1] == codes[..t - 1];
    }
  }

  lemma StartRefines(present: seq<bool>, cap: nat, size: nat)
    ensures Refines(World(Initial(present, cap), map[], {}, size), map[])
  {
    assert Consistent(Initial(present, cap));
  }

  lemma SizeStays(w: World, e: Event)
    requires Possible(w, e)
    ensures After(w, e).size == w.size
  {
  }

  /** Whether a socket's timestamps are on after these events. */
  predicate StampsOn(es: seq<Event>, s: SockId) {
    es != [] &&
    var n := |es| - 1;
    if es[n].TakeTimestamp? && es[n].s == s then es[n].on
    else if es[n].OpenSocket? && es[n].s == s then false
    else StampsOn(es[..n], s)
  }

  /** Frame number `j` of the history, as it was received, with the time of its arrival if and only if the
      socket's timestamps were on then. */
  predicate Origin(es: seq<Event>, j: int, s: SockId, st: Stored) {
    && 0 <= j < |es| && es[j].Incoming? && st.frame == es[j].frame
    && st.stamp == if StampsOn(es[..j], s) then Some(es[j].stamp) else None
  }

  /** These frames have been received in the history. */
  ghost predicate Traced(es: seq<Event>, s: SockId, fs: seq<Stored>) {
    forall k :: 0 <= k < |fs| ==> Received(es, s, fs[k])
  }

  ghost predicate Received(es: seq<Event>, s: SockId, st: Stored) { exists j :: Origin(es, j, s, st) }

  lemma StillTraced(es: seq<Event>, s: SockId, fs: seq<Stored>)
    requires es != [] && Traced(es[..|es| - 1], s, fs)
    ensures Traced(es, s, fs) && (fs != [] ==> Traced(es, s, fs[1..]))
  {
    var n := |es| - 1;
    forall k | 0 <= k < |fs| ensures Received(es, s, fs[k]) {
      assert Received(es[..n], s, fs[k]);
      var j :| Origin(es[..n], j, s, fs[k]);
      assert es[..n][..j] == es[..j];
      assert Origin(es, j, s, fs[k]);
    }
    hide Received;
  }

  lemma MoreTraced(es: seq<Event>, s: SockId, c: Client, size: nat)
    requires es != [] && es[|es| - 1].Incoming? && Traced(es, s, c.queue.frames)
    requires c.stamps <==> StampsOn(es[..|es| - 1], s)
    ensures var e := es[|es| - 1]; Traced(es, s, Arrived(c, e.dev, e.frame, e.stamp, size).queue.frames)
  {
    hide Offered, Due, StampsOn;
    var n := |es| - 1;
    var st := Stored(es[n].frame, if c.stamps then Some(es[n].stamp) else None);
    var m := OfferedKeeps(c.queue, st, Due(Some(c.wish), es[n].dev, es[n].frame.id), size);
    assert Origin(es, n, s, st);
    assert Received(es, s, st);
    hide Received;
    assert Arrived(c, es[n].dev, es[n].frame, es[n].stamp, size).queue.frames == c.queue.frames + Copies(st, m);
  }

  /** What is in a queue comes from frames received, and a client's flag is what it last asked for. */
  lemma {:induction false} QueueTraced(size: nat, es: seq<Event>, codes: seq<Code>, s: SockId)
    requires |codes| == |es| && s in Clients(size, es, codes)
    ensures var c := Clients(size, es, codes)[s]; (c.stamps <==> StampsOn(es, s)) && Traced(es, s, c.queue.frames)
    decreases |es|
  {
    hide Traced, Offered, Due;
    assert es != [];
    var n := |es| - 1;
    var cs, e := Clients(size, es[..n], codes[..n]), es[n];
    if e.OpenSocket? && e.s == s {
      NoneTraced(es, s);
    } else {
      assert s in cs;
      QueueTraced(size, es[..n], codes[..n], s);
      StillTraced(es, s, cs[s].queue.frames);
      if e.Incoming? {
        MoreTraced(es, s, cs[s], size);
      }
    }
  }

  lemma NoneTraced(es: seq<Event>, s: SockId)
    ensures Traced(es, s, [])
  {
  }

  /** While there is room, the newest frame in the queue of a client that is due one is the one that has
      just arrived, with the time if the client has switched that on, and without it if not. */
  lemma NewestFrame(c: Client, dev: nat, frame: Frame, stamp: Stamp, size: nat)
    requires Due(Some(c.wish), dev, frame.id) > 0
    requires TotalSize(c.queue.frames) + Size(Stored(frame, if c.stamps then Some(stamp) else None)) < size
    ensures var fs := Arrived(c, dev, frame, stamp, size).queue.frames;
      && |fs| > |c.queue.frames| && c.queue.frames <= fs
      && var last := fs[|fs| - 1];
         last.frame == frame && (last.stamp.Some? <==> c.stamps) && (c.stamps ==> last.stamp == Some(stamp))
  {
    hide Offered, Due;
    var st := Stored(frame, if c.stamps then Some(stamp) else None);
    assert c.queue.frames + Copies(st, 0) == c.queue.frames;
    var m := OfferedKeeps(c.queue, st, Due(Some(c.wish), dev, frame.id), size);
  }

  /** A reader gets the oldest frame of its queue as it was received: ID with flags, interface, DLC and
      data; and, with a control buffer, the time of its arrival if and only if the socket's timestamps were
      on when it arrived. */
  lemma ReaderGetsOldest(present: seq<bool>, cap: nat, size: nat, es: seq<Event>, codes: seq<Code>, ws: seq<World>,
                         t: nat) returns (j: nat)
    requires Run(present, cap, size, es, codes, ws) && t < |es| && es[t].Read?
    ensures var cs, s, m := Clients(size, es[..t], codes[..t]), es[t].s, Peeked(ws[t].rings[es[t].s], es[t].control);
      && s in cs && cs[s].queue.frames != [] && j < t && es[j].Incoming?
      && var f := es[j].frame;
         && cs[s].queue.frames[0].frame == f && WellSized(f)
         && m.id == f.id && m.ifindex == f.ifindex && m.dlc == f.dlc && m.data == Padded(f.data)
         && m.stamp == if es[t].control && StampsOn(es[..j], s) then Some(es[j].stamp) else None
  {
    hide RingRefines, Stamped, Peeked, Consistent, Granted, NextClients;
    RunRefines(present, cap, size, es, codes, ws, t);
    var cs, s := Clients(size, es[..t], codes[..t]), es[t].s;
    ReadRefines(ws[t].rings[s], cs[s].queue, size, es[t].control);
    QueueTraced(size, es[..t], codes[..t], s);
    assert Received(es[..t], s, cs[s].queue.frames[0]);
    var i :| Origin(es[..t], i, s, cs[s].queue.frames[0]);
    j := i;
    assert es[..t][..j] == es[..j];
  }

  function Copies(st: Stored, n: nat): (r: seq<Stored>)
    ensures |r| == n
  {
    seq(n, _ => st)
  }

  /** Of `n` copies offered as many are kept as fit, and the others are counted. */
  lemma {:induction false} OfferedKeeps(q: Queue, st: Stored, n: nat, size: nat) returns (m: nat)
    ensures m <= n && Offered(q, st, n, size) == Queue(q.frames + Copies(st, m), q.dropped + (n - m))
    ensures m > 0 ==> TotalSize(q.frames + Copies(st, m)) < size
    ensures m < n ==> TotalSize(q.frames + Copies(st, m)) + Size(st) >= size
    decreases n
  {
    hide Size;
    if n == 0 {
      m := 0;
      assert q.frames + Copies(st, 0) == q.frames;
    } else if TotalSize(q.frames) + Size(st) < size {
      var k := OfferedKeeps(q.(frames := q.frames + [st]), st, n - 1, size);
      m := k + 1;
      assert q.frames + [st] + Copies(st, k) == q.frames + Copies(st, m);
      if k == 0 {
        assert q.frames + Copies(st, 1) == q.frames + [st];
        SizeAppend(q.frames, st);
      }
    } else {
      var k := OfferedKeeps(q.(dropped := q.dropped + 1), st, n - 1, size);
      m := k;
      if k > 0 {
        SizeGrows(q.frames, st, k);
      } else {
        assert q.frames + Copies(st, 0) == q.frames;
      }
    }
  }

  lemma {:induction false} SizeAppend(fs: seq<Stored>, st: Stored)
    ensures TotalSize(fs + [st]) == TotalSize(fs) + Size(st)
  {
    if fs == [] {
      assert fs + [st] == [st] && [st][1..] == [];
    } else {
      assert (fs + [st])[1..] == fs[1..] + [st];
      SizeAppend(fs[1..], st);
    }
  }

  lemma {:induction false} SizeGrows(fs: seq<Stored>, st: Stored, k: nat)
    requires k > 0
    ensures TotalSize(fs + Copies(st, k)) >= TotalSize(fs) + Size(st)
  {
    assert fs + Copies(st, k) == fs + Copies(st, k - 1) + [st];
    SizeAppend(fs + Copies(st, k - 1), st);
    if k == 1 {
      assert fs + Copies(st, 0) == fs;
    } else {
      SizeGrows(fs, st, k - 1);
    }
  }

  /* ---- the same on the buffers in place ---- */

  /** Every socket has a buffer of its own. */
  ghost predicate Separate(bufs: map<SockId, RxSocket>)
    reads set s | s in bufs :: bufs[s]
    reads set s | s in bufs :: bufs[s].buf
  {
    && (forall s :: s in bufs ==> bufs[s].Valid())
    && (forall s, t :: s in bufs && t in bufs && s != t ==> bufs[s] != bufs[t] && bufs[s].buf != bufs[t].buf)
  }

  /** The buffers are in these states. */
  ghost predicate Shows(bufs: map<SockId, RxSocket>, rings: map<SockId, Ring>)
    reads set s | s in bufs :: bufs[s]
    reads set s | s in bufs :: bufs[s].buf
  {
    bufs.Keys == rings.Keys && forall s :: s in bufs ==> bufs[s].View() == rings[s]
  }

  /** rtcan_rcv_deliver for one listener; the other buffers are not touched. */
  method DeliverTo(bufs: map<SockId, RxSocket>, h: SockId, st: Stored, ghost rings: map<SockId, Ring>)
    requires Separate(bufs) && Shows(bufs, rings) && WellSized(st.frame) && h in bufs
    modifies bufs[h], bufs[h].buf
    ensures Separate(bufs) && Shows(bufs, rings[h := Delivered(rings[h], st)])
  {
    hide Stream, Content, Delivered;
    var stored := bufs[h].Deliver(st);
  }

  lemma {:induction false} HandedNext(rings: map<SockId, Ring>, hits: seq<SockId>, frame: Frame, stamp: Stamp,
                                      wants: set<SockId>, h: SockId)
    requires WellSized(frame) && h in rings
    ensures Handed(rings, hits, frame, stamp, wants).Keys == rings.Keys
    ensures var r := Handed(rings, hits, frame, stamp, wants);
      Handed(rings, hits + [h], frame, stamp, wants) == r[h := Delivered(r[h], CopyFor(frame, stamp, wants, h))]
    decreases |hits|
  {
    hide Delivered;
    if hits == [] {
      assert (hits + [h])[1..] == [];
    } else {
      var s := hits[0];
      var rest := if s in rings then rings[s := Delivered(rings[s], CopyFor(frame, stamp, wants, s))] else rings;
      assert (hits + [h])[1..] == hits[1..] + [h];
      HandedNext(rest, hits[1..], frame, stamp, wants, h);
    }
  }

  /** The calls of rtcan_rcv_deliver for the listeners that a frame hits. */
  method Dispatch(bufs: map<SockId, RxSocket>, hits: seq<SockId>, frame: Frame, stamp: Stamp, wants: set<SockId>,
                  ghost rings: map<SockId, Ring>)
    requires Separate(bufs) && Shows(bufs, rings) && WellSized(frame)
    requires bufs.Keys == rings.Keys && forall k :: 0 <= k < |hits| ==> hits[k] in bufs
    modifies set s | s in bufs :: bufs[s]
    modifies set s | s in bufs :: bufs[s].buf
    ensures Separate(bufs) && Shows(bufs, Handed(rings, hits, frame, stamp, wants))
  {
    hide Separate, Shows, Handed, Delivered;
    var k := 0;
    assert hits[..0] == [];
    HandedNone(rings, frame, stamp, wants);
    while k < |hits|
      invariant 0 <= k <= |hits| && Separate(bufs) && Shows(bufs, Handed(rings, hits[..k], frame, stamp, wants))
    {
      HandedNext(rings, hits[..k], frame, stamp, wants, hits[k]);
      assert hits[..k + 1] == hits[..k] + [hits[k]];
      DeliverTo(bufs, hits[k], CopyFor(frame, stamp, wants, hits[k]), Handed(rings, hits[..k], frame, stamp, wants));
      k := k + 1;
    }
    assert hits[..k] == hits;
  }

  lemma HandedNone(rings: map<SockId, Ring>, frame: Frame, stamp: Stamp, wants: set<SockId>)
    requires WellSized(frame)
    ensures Handed(rings, [], frame, stamp, wants) == rings
  {
  }

  /** Lists and buffers in place are in the state `w`. */
  ghost predicate Represents(can: Can, bufs: map<SockId, RxSocket>, w: World)
    reads can, can.devs
    reads set s | s in bufs :: bufs[s]
    reads set s | s in bufs :: bufs[s].buf
  {
    can.Valid() && can.View() == w.net && bufs.Keys == w.net.socks.Keys && Separate(bufs) && Shows(bufs, w.rings)
  }

  /** rtcan_rcv for a frame that is not an error frame, on lists and buffers in place. */
  method Rcv(can: Can, bufs: map<SockId, RxSocket>, ifindex: int, frame: Frame, stamp: Stamp, wants: set<SockId>,
             ghost w: World)
    requires Represents(can, bufs, w) && 1 <= ifindex <= |can.devs| && can.devs[ifindex - 1] != null
    requires wants == w.wants && Possible(w, Incoming(ifindex - 1, frame, stamp))
    modifies can.devs[ifindex - 1]
    modifies set s | s in bufs :: bufs[s]
    modifies set s | s in bufs :: bufs[s].buf
    ensures Represents(can, bufs, After(w, Incoming(ifindex - 1, frame, stamp)))
  {
    hide Consistent, Device.Valid, Separate, Shows, Handed, Hits, Flat, Matches;
    var hits := can.Receive(ifindex, frame.id);
    forall k | 0 <= k < |hits| ensures hits[k] in bufs {
      assert multiset(hits)[hits[k]] > 0;
    }
    SameKeys(bufs, w.rings);
    Dispatch(bufs, hits, frame, stamp, wants, w.rings);
  }

  lemma SameKeys(bufs: map<SockId, RxSocket>, rings: map<SockId, Ring>)
    requires Shows(bufs, rings)
    ensures bufs.Keys == rings.Keys
  {
  }
}
