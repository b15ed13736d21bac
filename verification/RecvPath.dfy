/** The receive path of a CAN socket as a whole: the delivering interrupt writing the byte ring, the
    receive semaphore, and any number of readers parsing the ring. */
module RecvPath {
  import opened FrameBytes
  import opened RxRing
  import opened Semaphore
  import opened SemaphoreRuns

  /** `holders`: readers that have a permit and have not finished yet; `owing`: a delivery holds the
      socket lock between storing its frame and raising the semaphore. */
  datatype Sys = Sys(sem: Sem, rx: Rx, holders: set<Tid>, owing: bool)

  datatype Move =
    | Sync(e: Step)                                   // a step of the semaphore other than an up
    | Store(st: Stored)                               // rtcan_rcv_deliver puts a frame into the buffer
    | Drop(st: Stored)                                // rtcan_rcv_deliver finds no room
    | Notify(t: Tid)                                  // its rtdm_sem_up
    | Read(t: Tid, control: bool, message: Message)   // the locked section of recvmsg
    | Peek(t: Tid, control: bool, message: Message)   // with MSG_PEEK, which raises the semaphore again

  predicate TakesPermit(e: Step) { e.FastDown? || e.Win? }

  ghost predicate Moves(s: Sys, m: Move, s': Sys)
    requires InBounds(s.rx)
  {
    match m
    case Sync(e) =>
      && !e.Up? && !e.Mark?
      && (e.FastDown? || e.SlowDown? ==> e.t !in s.holders)
      && Next(s.sem, e, s'.sem)
      && s' == s.(sem := s'.sem, holders := s.holders + if TakesPermit(e) then {e.t} else {})
    case Store(st) =>
      !s.owing && WellSized(st.frame) && Fits(s.rx, st) && s' == s.(rx := Delivered(s.rx, st), owing := true)
    case Drop(st) =>
      !s.owing && WellSized(st.frame) && !Fits(s.rx, st) && s' == s.(rx := Delivered(s.rx, st))
    case Notify(t) =>
      s.owing && t !in s.holders && Next(s.sem, Up(t), s'.sem) && s' == s.(sem := s'.sem, owing := false)
    case Read(t, control, message) =>
      && !s.owing && t in s.holders && message == Peeked(s.rx, control)
      && s' == s.(holders := s.holders - {t}, rx := Advanced(s.rx, control))
    case Peek(t, control, message) =>
      && !s.owing && t in s.holders && message == Peeked(s.rx, control)
      && Next(s.sem, Up(t), s'.sem) && s' == s.(sem := s'.sem, holders := s.holders - {t})
  }

  /** A run from rtcan_socket_init to the last state before the socket is closed. */
  ghost predicate Run(ss: seq<Sys>, ms: seq<Move>) {
    && |ss| == |ms| + 1
    && ss[0] == Sys(Sem(0, 0, false, map[]), ss[0].rx, {}, false)
    && ss[0].rx.head == ss[0].rx.tail == 0 < |ss[0].rx.buf|
    && forall i :: 0 <= i < |ms| ==> InBounds(ss[i].rx) && Moves(ss[i], ms[i], ss[i + 1])
  }

  /** The readers pass a buffer for the timestamp when the frame has one. */
  predicate Careful(ss: seq<Sys>, ms: seq<Move>) {
    && |ss| == |ms| + 1
    && forall i :: 0 <= i < |ms| && ms[i].Read? && InBounds(ss[i].rx) && Stamped(ss[i].rx) ==> ms[i].control
  }

  function Accepted(ms: seq<Move>): seq<Stored> {
    if ms == [] then []
    else Accepted(ms[..|ms| - 1]) + if ms[|ms| - 1].Store? then [ms[|ms| - 1].st] else []
  }

  /** How many frames have been read, peeking aside. */
  function Reads(ms: seq<Move>): nat {
    if ms == [] then 0 else Reads(ms[..|ms| - 1]) + if ms[|ms| - 1].Read? then 1 else 0
  }

  /** The semaphore: frames = free permits + readers that hold one + a delivery not yet announced. */
  predicate Agrees(s: Sys, frames: nat) {
    && !s.sem.destroyed && Inv(s.sem, Permits(s.sem))
    && (forall t :: t in s.holders ==> t !in s.sem.phase)
    && Permits(s.sem) + |s.holders| + (if s.owing then 1 else 0) == frames
  }

  /** A thread that gets its permit leaves the semaphore. */
  lemma HoldersOutside(s: Sem, e: Step, s': Sem, holders: set<Tid>)
    requires Next(s, e, s') && !e.Mark? && forall t :: t in holders ==> t !in s.phase
    requires e.FastDown? || e.SlowDown? || e.Up? ==> e.t !in holders
    ensures forall t :: t in holders ==> t !in s'.phase
    ensures TakesPermit(e) ==> e.t !in s'.phase && e.t !in holders
  {
    forall t | t in holders && t != e.t ensures t !in s'.phase {
      OthersAtMostWoken(s, e, s', t);
    }
    if e.Win? {
      var r := BeforeWake(s, e);
      assert WakesOne(r, s') && e.t !in r.phase;
    }
  }

  /** The number of frames after a move. */
  function CountAfter(m: Move, n: int): int { if m.Store? then n + 1 else if m.Read? then n - 1 else n }

  lemma MoveAgrees(s: Sys, m: Move, s': Sys, n: nat)
    requires InBounds(s.rx) && Moves(s, m, s') && Agrees(s, n)
    ensures m.Read? || m.Peek? ==> n > 0
    ensures CountAfter(m, n) >= 0 && Agrees(s', CountAfter(m, n))
  {
    hide Delivered, Peeked, Advanced, Fits, Next, Permits;
    match m
    case Sync(e) =>
      DestroyedStays(s.sem, e, s'.sem);
      StepConserves(s.sem, e, s'.sem);
      StepKeepsInv(s.sem, e, s'.sem, Permits(s.sem));
      HoldersOutside(s.sem, e, s'.sem, s.holders);
    case Notify(t) =>
      DestroyedStays(s.sem, Up(t), s'.sem);
      StepConserves(s.sem, Up(t), s'.sem);
      StepKeepsInv(s.sem, Up(t), s'.sem, Permits(s.sem));
      HoldersOutside(s.sem, Up(t), s'.sem, s.holders);
    case Peek(t, _, _) =>
      DestroyedStays(s.sem, Up(t), s'.sem);
      StepConserves(s.sem, Up(t), s'.sem);
      StepKeepsInv(s.sem, Up(t), s'.sem, Permits(s.sem));
      HoldersOutside(s.sem, Up(t), s'.sem, s.holders - {t});
    case Read(t, _, _) =>
      assert |s.holders - {t}| == |s.holders| - 1;
    case Store(st) =>
    case Drop(st) =>
  }

  /** The ring: deliveries append, careful reads take the oldest frame, nothing else touches it. */
  lemma MoveHolds(s: Sys, m: Move, s': Sys, fs: seq<Stored>)
    requires Holds(s.rx, fs) && Moves(s, m, s') && (m.Read? || m.Peek? ==> fs != [])
    requires m.Read? && Stamped(s.rx) ==> m.control
    ensures Holds(s'.rx, if m.Store? then fs + [m.st] else if m.Read? then fs[1..] else fs)
    ensures m.Read? || m.Peek? ==> m.message == Shown(fs[0], m.control)
    ensures m.Store? ==> |Stream(fs, s.rx.order)| + Size(m.st) < |s.rx.buf|
    ensures m.Drop? ==> |Stream(fs, s.rx.order)| + Size(m.st) >= |s.rx.buf|
    ensures m.Drop? ==> s' == s.(rx := s.rx.(full := s.rx.full + 1))
    ensures s'.rx.order == s.rx.order && |s'.rx.buf| == |s.rx.buf|
  {
    hide Holds, Stream, Peeked, Stamped, Shown;
    if m.Store? || m.Drop? {
      DeliveredHolds(s.rx, fs, m.st);
    } else if m.Read? || m.Peek? {
      PeekedIsShown(s.rx, fs, m.control);
      AdvancedHolds(s.rx, fs, m.control);
    }
  }

  /** On every run frames in the buffer = free permits + readers holding one + a delivery not yet
      announced. */
  lemma {:induction false} RunAgrees(ss: seq<Sys>, ms: seq<Move>, i: nat)
    requires Run(ss, ms) && i < |ss|
    ensures Reads(ms[..i]) <= |Accepted(ms[..i])| && Agrees(ss[i], |Accepted(ms[..i])| - Reads(ms[..i]))
  {
    hide Moves, Agrees, Accepted, Reads;
    if i == 0 {
      StartAgrees(ss[0], ms);
    } else {
      RunAgrees(ss, ms, i - 1);
      MoveAgrees(ss[i - 1], ms[i - 1], ss[i], |Accepted(ms[..i - 1])| - Reads(ms[..i - 1]));
      OneMore(ms, i - 1);
    }
  }

  lemma StartAgrees(s: Sys, ms: seq<Move>)
    requires s == Sys(Sem(0, 0, false, map[]), s.rx, {}, false)
    ensures Accepted(ms[..0]) == [] && Reads(ms[..0]) == 0 && Agrees(s, 0)
  {
    assert ms[..0] == [];
    assert InFlightSet(s.sem.phase) == {};
  }

  lemma OneMore(ms: seq<Move>, i: nat)
    requires i < |ms|
    ensures Accepted(ms[..i + 1]) == Accepted(ms[..i]) + if ms[i].Store? then [ms[i].st] else []
    ensures Reads(ms[..i + 1]) == Reads(ms[..i]) + if ms[i].Read? then 1 else 0
  {
    assert ms[..i + 1][..i] == ms[..i];
  }

  /** So a reader that got a permit, peeking or not, never parses an empty buffer. */
  lemma PermitMeansFrame(ss: seq<Sys>, ms: seq<Move>, i: nat)
    requires Run(ss, ms) && i < |ms|
    ensures Permits(ss[i].sem) + |ss[i].holders| + (if ss[i].owing then 1 else 0)
         == |Accepted(ms[..i])| - Reads(ms[..i])
    ensures ms[i].Read? || ms[i].Peek? ==> Reads(ms[..i]) < |Accepted(ms[..i])|
  {
    hide Moves, Accepted, Reads;
    RunAgrees(ss, ms, i);
    MoveAgrees(ss[i], ms[i], ss[i + 1], |Accepted(ms[..i])| - Reads(ms[..i]));
  }

  /** The ring of state `i` holds the frames accepted so far except those read. */
  ghost predicate Tracks(ss: seq<Sys>, ms: seq<Move>, i: nat)
    requires i < |ss| && i <= |ms|
  {
    var all, k, s := Accepted(ms[..i]), Reads(ms[..i]), ss[i];
    k <= |all| && Holds(s.rx, all[k..]) && s.rx.order == ss[0].rx.order && |s.rx.buf| == |ss[0].rx.buf|
  }

  lemma {:induction false} RunTracks(ss: seq<Sys>, ms: seq<Move>, i: nat)
    requires Run(ss, ms) && Careful(ss, ms) && i < |ss|
    ensures Tracks(ss, ms, i)
  {
    if i == 0 {
      hide Moves, Agrees;
      StartAgrees(ss[0], ms);
      assert Content(ss[0].rx) == [];
    } else {
      hide Run, Careful, Tracks;
      RunTracks(ss, ms, i - 1);
      MoveTracks(ss, ms, i - 1);
    }
  }

  lemma MoveTracks(ss: seq<Sys>, ms: seq<Move>, i: nat)
    requires Run(ss, ms) && Careful(ss, ms) && i < |ms| && Tracks(ss, ms, i)
    ensures Tracks(ss, ms, i + 1)
  {
    hide Moves, Holds, Stamped, Accepted, Reads;
    var all, k := Accepted(ms[..i]), Reads(ms[..i]);
    var fs := all[k..];
    HoldsSized(ss[i].rx, fs);
    PermitMeansFrame(ss, ms, i);
    MoveHolds(ss[i], ms[i], ss[i + 1], fs);
    OneMore(ms, i);
    var all', k' := Accepted(ms[..i + 1]), Reads(ms[..i + 1]);
    assert all'[k'..] == if ms[i].Store? then fs + [ms[i].st] else if ms[i].Read? then fs[1..] else fs;
  }

  /** Being careful is exactly what it takes: the ring holds the frames accepted and not yet read in
      every state of a run, if and only if no timestamp is left unread. */
  lemma CarefulIff(ss: seq<Sys>, ms: seq<Move>)
    requires Run(ss, ms)
    ensures Careful(ss, ms) <==> forall i :: 0 <= i <= |ms| ==> Tracks(ss, ms, i)
  {
    hide Moves, Stamped, Tracks;
    if Careful(ss, ms) {
      forall i | 0 <= i <= |ms| ensures Tracks(ss, ms, i) {
        RunTracks(ss, ms, i);
      }
    } else {
      var i :| 0 <= i < |ms| && ms[i].Read? && Stamped(ss[i].rx) && !ms[i].control;
      if Tracks(ss, ms, i) {
        CarelessLoses(ss, ms, i);
      }
    }
  }

  lemma CarelessLoses(ss: seq<Sys>, ms: seq<Move>, i: nat)
    requires Run(ss, ms) && i < |ms| && Tracks(ss, ms, i)
    requires ms[i].Read? && Stamped(ss[i].rx) && !ms[i].control
    ensures !Tracks(ss, ms, i + 1)
  {
    hide Holds, Stamped, Accepted, Reads, Peeked, Advanced;
    var all, k := Accepted(ms[..i]), Reads(ms[..i]);
    PermitMeansFrame(ss, ms, i);
    PeekedIsShown(ss[i].rx, all[k..], false);
    AdvancedHolds(ss[i].rx, all[k..], false);
    OneMore(ms, i);
    assert Accepted(ms[..i + 1]) == all && all[k..][1..] == all[k + 1..];
    assert Moves(ss[i], ms[i], ss[i + 1]);
    assert ss[i + 1].rx == Advanced(ss[i].rx, false);
  }

  /** First in, first out, for any number of readers and across any wrap of the ring: after k reads a
      reader gets the frame accepted as number k, with its ID, interface, DLC, payload and timestamp. */
  lemma InOrder(ss: seq<Sys>, ms: seq<Move>, i: nat)
    requires Run(ss, ms) && Careful(ss, ms) && i < |ms| && (ms[i].Read? || ms[i].Peek?)
    ensures var all, k := Accepted(ms[..i]), Reads(ms[..i]);
      k < |all| && WellSized(all[k].frame) && ms[i].message == Shown(all[k], ms[i].control)
  {
    hide Holds, Moves, Shown;
    RunTracks(ss, ms, i);
    PermitMeansFrame(ss, ms, i);
    var all, k := Accepted(ms[..i]), Reads(ms[..i]);
    MoveHolds(ss[i], ms[i], ss[i + 1], all[k..]);
    HoldsSized(ss[i].rx, all[k..]);
  }

  lemma HoldsSized(r: Rx, fs: seq<Stored>)
    requires Holds(r, fs)
    ensures InBounds(r) && forall k :: 0 <= k < |fs| ==> WellSized(fs[k].frame)
  {
  }

  /** A frame is dropped if and only if it and the frames not yet read would reach the buffer size, and
      a drop changes nothing but the counter. */
  lemma DroppedIff(ss: seq<Sys>, ms: seq<Move>, i: nat)
    requires Run(ss, ms) && Careful(ss, ms) && i < |ms| && (ms[i].Store? || ms[i].Drop?)
    ensures Reads(ms[..i]) <= |Accepted(ms[..i])|
    ensures ms[i].Drop? <==> TotalSize(Accepted(ms[..i])[Reads(ms[..i])..]) + Size(ms[i].st) >= |ss[0].rx.buf|
    ensures ms[i].Drop? ==> ss[i + 1] == ss[i].(rx := ss[i].rx.(full := ss[i].rx.full + 1))
  {
    hide Moves, Stream;
    RunTracks(ss, ms, i);
    var fs := Accepted(ms[..i])[Reads(ms[..i])..];
    MoveHolds(ss[i], ms[i], ss[i + 1], fs);
    StreamSize(fs, ss[i].rx.order);
  }
}
