/** The receive-filter subsystem as values: which socket occupies which segment of which device's
    reception list, what bind, setsockopt and close do to that, and what holds after every history. */
module FilterSpec {
  import opened Collections
  import opened Filters

  type SockId = nat

  /** `sock->flist`: NULL, RTCAN_FLIST_NO_FILTER, or the list set by the user. */
  datatype FList = Default | NoFilter | List(filters: seq<Filter>)

  datatype Sock = Sock(ifindex: nat, flistlen: int, flist: FList)

  /** A run of consecutive entries that belong to one socket. */
  datatype Segment = Segment(sock: SockId, filters: seq<Filter>)

  datatype Entry = Entry(sock: SockId, filter: Filter)

  /** `devs[i]` is the device with interface index i + 1, if there is one. */
  datatype Net = Net(socks: map<SockId, Sock>, devs: seq<Option<seq<Segment>>>, cap: nat)

  datatype Code = OK | ENODEV | ENOSPC | EINVAL

  datatype Op =
    | Open(s: SockId)
    | Bind(s: SockId, ifindex: int)
    | SetFilter(s: SockId, flist: FList)
    | Close(s: SockId)

  const UNBOUND: int := -1
  const FRESH: Sock := Sock(0, UNBOUND, Default)

  function MountAll(fs: seq<Filter>): (r: seq<Filter>)
    ensures |r| == |fs| && forall j :: 0 <= j < |fs| ==> r[j] == Mount(fs[j])
  {
    seq(|fs|, j requires 0 <= j < |fs| => Mount(fs[j]))
  }

  /** The filters a socket with this list occupies receivers with. */
  function Installed(fl: FList): seq<Filter> {
    match fl
    case Default => [ACCEPT_ALL]
    case NoFilter => []
    case List(fs) => MountAll(fs)
  }

  function SegEntries(g: Segment): (r: seq<Entry>)
    ensures |r| == |g.filters| && forall j :: 0 <= j < |r| ==> r[j] == Entry(g.sock, g.filters[j])
  {
    seq(|g.filters|, j requires 0 <= j < |g.filters| => Entry(g.sock, g.filters[j]))
  }

  /** The reception list that a sequence of segments spells out. */
  function Flat(segs: seq<Segment>): seq<Entry> {
    if segs == [] then [] else SegEntries(segs[0]) + Flat(segs[1..])
  }

  function Drop(segs: seq<Segment>, s: SockId): seq<Segment> {
    if segs == [] then []
    else (if segs[0].sock == s then [] else [segs[0]]) + Drop(segs[1..], s)
  }

  predicate InScope(ifindex: nat, i: nat) { ifindex == 0 || ifindex == i + 1 }

  predicate Owns(k: Sock, i: nat) { k.flistlen > 0 && InScope(k.ifindex, i) }

  predicate DistinctSocks(segs: seq<Segment>) {
    forall j, k :: 0 <= j < k < |segs| ==> segs[j].sock != segs[k].sock
  }

  predicate WellFormed(k: Sock, ndevs: nat) {
    && k.ifindex <= ndevs
    && (k.flist.List? ==> k.flist.filters != [])
    && (k.flistlen == |Installed(k.flist)| || (k.flistlen == UNBOUND && k.ifindex == 0))
  }

  /** The list of device i agrees with the sockets: each socket that has filters and is bound to
      this device owns exactly one segment, made of its own filters in the user's order. */
  ghost predicate Agrees(segs: seq<Segment>, socks: map<SockId, Sock>, i: nat, cap: nat) {
    && DistinctSocks(segs)
    && |Flat(segs)| <= cap
    && (forall k :: 0 <= k < |segs| ==>
          && segs[k].sock in socks
          && Owns(socks[segs[k].sock], i)
          && segs[k].filters == Installed(socks[segs[k].sock].flist))
    && (forall s :: s in socks && Owns(socks[s], i) ==> exists k :: 0 <= k < |segs| && segs[k].sock == s)
  }

  ghost predicate Consistent(n: Net) {
    && (forall s :: s in n.socks ==> WellFormed(n.socks[s], |n.devs|))
    && (forall i :: 0 <= i < |n.devs| && n.devs[i].Some? ==> Agrees(n.devs[i].value, n.socks, i, n.cap))
  }

  /** Room for `fl` on every device in scope, once the socket's present entries are gone. */
  predicate Fits(n: Net, s: SockId, ifindex: nat, fl: FList) {
    forall i :: 0 <= i < |n.devs| && n.devs[i].Some? && InScope(ifindex, i) ==>
                  |Flat(Drop(n.devs[i].value, s))| + |Installed(fl)| <= n.cap
  }

  function Placed(segs: seq<Segment>, s: SockId, fl: FList, here: bool): seq<Segment> {
    (if here && Installed(fl) != [] then [Segment(s, Installed(fl))] else []) + Drop(segs, s)
  }

  function Rebound(n: Net, s: SockId, ifindex: nat, fl: FList): Net {
    n.(socks := n.socks[s := Sock(ifindex, |Installed(fl)|, fl)],
       devs := seq(|n.devs|, i requires 0 <= i < |n.devs| =>
                 if n.devs[i].Some? then Some(Placed(n.devs[i].value, s, fl, InScope(ifindex, i))) else None))
  }

  function Unbound(n: Net, s: SockId): Net {
    n.(socks := n.socks - {s},
       devs := seq(|n.devs|, i requires 0 <= i < |n.devs| =>
                 if n.devs[i].Some? then Some(Drop(n.devs[i].value, s)) else None))
  }

  predicate Enabled(n: Net, op: Op) { if op.Open? then op.s !in n.socks else op.s in n.socks }

  predicate Plausible(fl: FList, cap: nat) { fl.List? ==> 1 <= |fl.filters| <= cap }

  /** The effect of an operation, and the code it returns. */
  function Apply(n: Net, op: Op): (Net, Code)
    requires Enabled(n, op)
  {
    match op
    case Open(s) => (n.(socks := n.socks[s := FRESH]), OK)
    case Bind(s, ifindex) =>
      if ifindex < 0 || ifindex > |n.devs| then (n, ENODEV)
      else if !Fits(n, s, ifindex, n.socks[s].flist) then (n, ENOSPC)
      else (Rebound(n, s, ifindex, n.socks[s].flist), OK)
    case SetFilter(s, fl) =>
      if !Plausible(fl, n.cap) then (n, EINVAL)
      else if n.socks[s].flistlen < 0 then (n.(socks := n.socks[s := n.socks[s].(flist := fl)]), OK)
      else if !Fits(n, s, n.socks[s].ifindex, fl) then (n, ENOSPC)
      else (Rebound(n, s, n.socks[s].ifindex, fl), OK)
    case Close(s) => (Unbound(n, s), OK)
  }

  lemma {:induction false} DropMembers(segs: seq<Segment>, s: SockId, g: Segment)
    ensures g in Drop(segs, s) <==> g in segs && g.sock != s
  {
    if segs != [] {
      DropMembers(segs[1..], s, g);
      assert g in segs <==> g == segs[0] || g in segs[1..];
    }
  }

  lemma {:induction false} DropDistinct(segs: seq<Segment>, s: SockId)
    requires DistinctSocks(segs)
    ensures DistinctSocks(Drop(segs, s))
  {
    if segs != [] {
      var rest, d := segs[1..], Drop(segs[1..], s);
      DropDistinct(rest, s);
      forall k | 0 <= k < |d| ensures d[k].sock != segs[0].sock {
        DropMembers(rest, s, d[k]);
        var j :| 0 <= j < |rest| && rest[j] == d[k];
        assert segs[j + 1] == d[k];
      }
    }
  }

  lemma {:induction false} DropShrinks(segs: seq<Segment>, s: SockId)
    ensures |Flat(Drop(segs, s))| <= |Flat(segs)|
  {
    if segs != [] {
      DropShrinks(segs[1..], s);
      if segs[0].sock != s {
        assert Drop(segs, s)[1..] == Drop(segs[1..], s);
      } else {
        assert Drop(segs, s) == Drop(segs[1..], s);
      }
    }
  }

  /** What remains after removing a socket still agrees with the other sockets. */
  ghost predicate AgreesBut(r: seq<Segment>, socks: map<SockId, Sock>, s: SockId, i: nat) {
    && DistinctSocks(r)
    && (forall k :: 0 <= k < |r| ==>
          && r[k].sock != s && r[k].sock in socks && Owns(socks[r[k].sock], i)
          && r[k].filters == Installed(socks[r[k].sock].flist))
    && (forall x :: x in socks && x != s && Owns(socks[x], i) ==> exists k :: 0 <= k < |r| && r[k].sock == x)
  }

  lemma DropAgrees(segs: seq<Segment>, socks: map<SockId, Sock>, s: SockId, i: nat, cap: nat)
    requires Agrees(segs, socks, i, cap)
    ensures AgreesBut(Drop(segs, s), socks, s, i) && |Flat(Drop(segs, s))| <= cap
  {
    var r := Drop(segs, s);
    DropDistinct(segs, s);
    DropShrinks(segs, s);
    forall k | 0 <= k < |r|
      ensures r[k].sock != s && r[k].sock in socks && Owns(socks[r[k].sock], i)
      ensures r[k].filters == Installed(socks[r[k].sock].flist)
    {
      DropMembers(segs, s, r[k]);
    }
    forall x | x in socks && x != s && Owns(socks[x], i)
      ensures exists k :: 0 <= k < |r| && r[k].sock == x
    {
      var j :| 0 <= j < |segs| && segs[j].sock == x;
      DropMembers(segs, s, segs[j]);
    }
  }

  lemma FlatCons(g: Segment, r: seq<Segment>)
    ensures |Flat([g] + r)| == |g.filters| + |Flat(r)|
  {
    assert ([g] + r)[1..] == r;
  }

  lemma AddAgrees(r: seq<Segment>, socks: map<SockId, Sock>, s: SockId, k: Sock, i: nat, cap: nat)
    requires AgreesBut(r, socks, s, i) && |Flat(r)| + |Installed(k.flist)| <= cap
    requires Owns(k, i)
    ensures Agrees([Segment(s, Installed(k.flist))] + r, socks[s := k], i, cap)
  {
    hide Flat, Installed;
    var p, socks' := [Segment(s, Installed(k.flist))] + r, socks[s := k];
    FlatCons(Segment(s, Installed(k.flist)), r);
    forall x | x in socks' && Owns(socks'[x], i)
      ensures exists j :: 0 <= j < |p| && p[j].sock == x
    {
      if x == s {
        assert p[0].sock == s;
      } else {
        var j :| 0 <= j < |r| && r[j].sock == x;
        assert p[j + 1].sock == x;
      }
    }
  }

  lemma SkipAgrees(r: seq<Segment>, socks: map<SockId, Sock>, s: SockId, k: Sock, i: nat, cap: nat)
    requires AgreesBut(r, socks, s, i) && |Flat(r)| <= cap && !Owns(k, i)
    ensures Agrees(r, socks[s := k], i, cap)
  {
    hide Flat, Installed;
    var socks' := socks[s := k];
    assert forall x :: x in socks' && Owns(socks'[x], i) ==> x != s && x in socks && Owns(socks[x], i);
  }

  lemma PlacedAgrees(segs: seq<Segment>, socks: map<SockId, Sock>, s: SockId, ifindex: nat, fl: FList, i: nat, cap: nat)
    requires Agrees(segs, socks, i, cap)
    requires InScope(ifindex, i) ==> |Flat(Drop(segs, s))| + |Installed(fl)| <= cap
    ensures Agrees(Placed(segs, s, fl, InScope(ifindex, i)), socks[s := Sock(ifindex, |Installed(fl)|, fl)], i, cap)
  {
    hide Agrees, AgreesBut, Flat, Drop, Installed;
    var k := Sock(ifindex, |Installed(fl)|, fl);
    DropAgrees(segs, socks, s, i, cap);
    if Owns(k, i) {
      AddAgrees(Drop(segs, s), socks, s, k, i, cap);
    } else {
      SkipAgrees(Drop(segs, s), socks, s, k, i, cap);
      assert Placed(segs, s, fl, InScope(ifindex, i)) == Drop(segs, s);
    }
  }

  lemma ReboundConsistent(n: Net, s: SockId, ifindex: nat, fl: FList)
    requires Consistent(n) && ifindex <= |n.devs| && Fits(n, s, ifindex, fl)
    requires fl.List? ==> fl.filters != []
    ensures Consistent(Rebound(n, s, ifindex, fl))
  {
    hide Agrees, Placed, Flat, Drop, Installed;
    forall i | 0 <= i < |n.devs| && n.devs[i].Some?
      ensures Agrees(Rebound(n, s, ifindex, fl).devs[i].value, Rebound(n, s, ifindex, fl).socks, i, n.cap)
    {
      PlacedAgrees(n.devs[i].value, n.socks, s, ifindex, fl, i, n.cap);
    }
  }

  lemma GoneAgrees(r: seq<Segment>, socks: map<SockId, Sock>, s: SockId, i: nat, cap: nat)
    requires AgreesBut(r, socks, s, i) && |Flat(r)| <= cap
    ensures Agrees(r, socks - {s}, i, cap)
  {
    var socks' := socks - {s};
    assert forall x :: x in socks' ==> x != s && x in socks && socks'[x] == socks[x];
  }

  lemma UnboundConsistent(n: Net, s: SockId)
    requires Consistent(n)
    ensures Consistent(Unbound(n, s))
  {
    forall i | 0 <= i < |n.devs| && n.devs[i].Some?
      ensures Agrees(Drop(n.devs[i].value, s), n.socks - {s}, i, n.cap)
    {
      DropAgrees(n.devs[i].value, n.socks, s, i, n.cap);
      GoneAgrees(Drop(n.devs[i].value, s), n.socks, s, i, n.cap);
    }
  }

  /** Changing the list or the existence of a socket without filters leaves every device alone. */
  lemma OffListConsistent(n: Net, s: SockId, k: Sock)
    requires Consistent(n) && WellFormed(k, |n.devs|) && k.flistlen <= 0
    requires s in n.socks ==> n.socks[s].flistlen <= 0
    ensures Consistent(n.(socks := n.socks[s := k]))
  {
    hide Flat, Installed;
    var socks' := n.socks[s := k];
    forall i | 0 <= i < |n.devs| && n.devs[i].Some?
      ensures Agrees(n.devs[i].value, socks', i, n.cap)
    {
      var segs := n.devs[i].value;
      assert forall j :: 0 <= j < |segs| ==> segs[j].sock != s;
      assert forall x :: x in socks' && Owns(socks'[x], i) ==> x in n.socks && Owns(n.socks[x], i);
    }
  }

  /** Every operation keeps the lists in agreement with the sockets. */
  lemma ApplyConsistent(n: Net, op: Op)
    requires Consistent(n) && Enabled(n, op)
    ensures Consistent(Apply(n, op).0)
    ensures Apply(n, op).0.cap == n.cap && |Apply(n, op).0.devs| == |n.devs|
    ensures Apply(n, op).1 != OK ==> Apply(n, op).0 == n
  {
    match op
    case Open(s) => OffListConsistent(n, s, FRESH);
    case Bind(s, ifindex) =>
      if Apply(n, op).1 == OK { ReboundConsistent(n, s, ifindex, n.socks[s].flist); }
    case SetFilter(s, fl) =>
      if Apply(n, op).1 == OK {
        if n.socks[s].flistlen < 0 {
          OffListConsistent(n, s, n.socks[s].(flist := fl));
        } else {
          ReboundConsistent(n, s, n.socks[s].ifindex, fl);
        }
      }
    case Close(s) => UnboundConsistent(n, s);
  }

  /** The state before the first socket is opened: every receiver is free. */
  function Initial(present: seq<bool>, cap: nat): Net {
    Net(map[], seq(|present|, i requires 0 <= i < |present| => if present[i] then Some([]) else None), cap)
  }

  /** A history of operations over a fixed set of devices, with the state before and after each. */
  ghost predicate History(present: seq<bool>, cap: nat, ops: seq<Op>, ns: seq<Net>) {
    && |ns| == |ops| + 1
    && ns[0] == Initial(present, cap)
    && forall t :: 0 <= t < |ops| ==> Enabled(ns[t], ops[t]) && ns[t + 1] == Apply(ns[t], ops[t]).0
  }

  lemma {:induction false} HistoryConsistent(present: seq<bool>, cap: nat, ops: seq<Op>, ns: seq<Net>, t: nat)
    requires History(present, cap, ops, ns) && t < |ns|
    ensures Consistent(ns[t]) && ns[t].cap == cap && |ns[t].devs| == |present|
  {
    if t > 0 {
      HistoryConsistent(present, cap, ops, ns, t - 1);
      ApplyConsistent(ns[t - 1], ops[t - 1]);
    }
  }

  /** The entries of a reception list that belong to other sockets. */
  function OthersIn(es: seq<Entry>, s: SockId): nat {
    if es == [] then 0 else (if es[0].sock != s then 1 else 0) + OthersIn(es[1..], s)
  }

  lemma {:induction false} OthersConcat(a: seq<Entry>, b: seq<Entry>, s: SockId)
    ensures OthersIn(a + b, s) == OthersIn(a, s) + OthersIn(b, s)
  {
    if a == [] {
      assert a + b == b;
    } else {
      assert (a + b)[1..] == a[1..] + b;
      OthersConcat(a[1..], b, s);
    }
  }

  lemma {:induction false} SegmentOthers(g: Segment, s: SockId)
    ensures OthersIn(SegEntries(g), s) == if g.sock == s then 0 else |g.filters|
    decreases |g.filters|
  {
    if g.filters != [] {
      var rest := Segment(g.sock, g.filters[1..]);
      assert SegEntries(g)[1..] == SegEntries(rest);
      SegmentOthers(rest, s);
    }
  }

  lemma {:induction false} DropCounts(segs: seq<Segment>, s: SockId)
    ensures |Flat(Drop(segs, s))| == OthersIn(Flat(segs), s)
  {
    if segs != [] {
      DropCounts(segs[1..], s);
      OthersConcat(SegEntries(segs[0]), Flat(segs[1..]), s);
      SegmentOthers(segs[0], s);
      if segs[0].sock != s {
        assert Drop(segs, s)[1..] == Drop(segs[1..], s);
      } else {
        assert Drop(segs, s) == Drop(segs[1..], s);
      }
    }
  }

  /** Binding is all or nothing: it is refused for lack of space exactly when on some device in the
      new scope the other sockets' entries leave too little room, and then nothing has changed. */
  lemma BindAllOrNothing(n: Net, s: SockId, ifindex: int)
    requires Consistent(n) && s in n.socks
    ensures var (n', code) := Apply(n, Bind(s, ifindex));
      && (code == ENODEV <==> ifindex < 0 || ifindex > |n.devs|)
      && (code == ENOSPC <==>
            && 0 <= ifindex <= |n.devs|
            && exists i :: 0 <= i < |n.devs| && n.devs[i].Some? && InScope(ifindex, i)
                           && OthersIn(Flat(n.devs[i].value), s) + |Installed(n.socks[s].flist)| > n.cap)
      && (code != OK ==> n' == n)
      && (code == OK ==> n'.socks == n.socks[s := Sock(ifindex, |Installed(n.socks[s].flist)|, n.socks[s].flist)])
  {
    hide Drop, Flat, OthersIn, Installed, Agrees;
    forall i | 0 <= i < |n.devs| && n.devs[i].Some?
      ensures |Flat(Drop(n.devs[i].value, s))| == OthersIn(Flat(n.devs[i].value), s)
    {
      DropCounts(n.devs[i].value, s);
    }
  }

  /** The sockets that rtcan_rcv hands a frame to, in list order. */
  function Hits(es: seq<Entry>, id: CanId): seq<SockId> {
    if es == [] then []
    else (if Accept(id, es[0].filter) then [es[0].sock] else []) + Hits(es[1..], id)
  }

  /** How many user filters accept the identifier by the documented rule; without user filters every
      frame is accepted once. */
  function Matches(fl: FList, id: CanId): nat {
    match fl
    case Default => 1
    case NoFilter => 0
    case List(fs) => MatchCount(fs, id)
  }

  function MatchCount(fs: seq<Filter>, id: CanId): nat {
    if fs == [] then 0 else (if Documented(id, fs[0]) then 1 else 0) + MatchCount(fs[1..], id)
  }

  lemma {:induction false} HitsConcat(a: seq<Entry>, b: seq<Entry>, id: CanId)
    ensures Hits(a + b, id) == Hits(a, id) + Hits(b, id)
  {
    if a == [] {
      assert a + b == b;
    } else {
      assert (a + b)[1..] == a[1..] + b;
      HitsConcat(a[1..], b, id);
    }
  }

  lemma {:induction false} SegmentHits(g: Segment, id: CanId, s: SockId)
    ensures g.sock != s ==> multiset(Hits(SegEntries(g), id))[s] == 0
    decreases |g.filters|
  {
    if g.filters != [] {
      var rest := Segment(g.sock, g.filters[1..]);
      assert SegEntries(g)[1..] == SegEntries(rest);
      SegmentHits(rest, id, s);
    }
  }

  lemma {:induction false} UserHits(s: SockId, fs: seq<Filter>, id: CanId)
    requires !id.err
    ensures multiset(Hits(SegEntries(Segment(s, MountAll(fs))), id))[s] == MatchCount(fs, id)
  {
    var g := Segment(s, MountAll(fs));
    if fs != [] {
      assert MountAll(fs)[1..] == MountAll(fs[1..]);
      assert SegEntries(g)[1..] == SegEntries(Segment(s, MountAll(fs[1..])));
      UserHits(s, fs[1..], id);
      MountedAccepts(id, fs[0]);
    }
  }

  lemma OwnHits(s: SockId, fl: FList, id: CanId)
    requires !id.err
    ensures multiset(Hits(SegEntries(Segment(s, Installed(fl))), id))[s] == Matches(fl, id)
  {
    match fl
    case Default =>
      DefaultAccepts(id);
      assert SegEntries(Segment(s, Installed(fl))) == [Entry(s, ACCEPT_ALL)];
    case NoFilter =>
    case List(fs) => UserHits(s, fs, id);
  }

  lemma {:induction false} ListHits(segs: seq<Segment>, id: CanId, s: SockId, fl: FList)
    requires DistinctSocks(segs) && !id.err
    requires forall k :: 0 <= k < |segs| && segs[k].sock == s ==> segs[k].filters == Installed(fl)
    ensures multiset(Hits(Flat(segs), id))[s] ==
            if exists k :: 0 <= k < |segs| && segs[k].sock == s then Matches(fl, id) else 0
  {
    hide SegEntries, Installed, Matches;
    if segs != [] {
      hide Hits;
      var rest := segs[1..];
      assert forall k :: 0 <= k < |rest| ==> rest[k] == segs[k + 1];
      HitsConcat(SegEntries(segs[0]), Flat(rest), id);
      ListHits(rest, id, s, fl);
      if segs[0].sock == s {
        OwnHits(s, fl, id);
        assert segs[0] == Segment(s, Installed(fl));
      } else {
        SegmentHits(segs[0], id, s);
        if k :| 0 <= k < |segs| && segs[k].sock == s {
          assert rest[k - 1].sock == s;
        }
      }
    }
  }

  /** How often a socket should get a frame from device i: once per user filter that accepts it
      under the documented rule, if the socket is bound to that device. */
  function Reached(socks: map<SockId, Sock>, i: nat, id: CanId, s: SockId): nat {
    if s in socks && socks[s].flistlen >= 0 && InScope(socks[s].ifindex, i) then Matches(socks[s].flist, id) else 0
  }

  /** Delivery through the lists refines the plain view "socket -> user filters". */
  lemma Delivery(n: Net, i: nat, id: CanId, s: SockId)
    requires Consistent(n) && i < |n.devs| && n.devs[i].Some? && !id.err
    ensures multiset(Hits(Flat(n.devs[i].value), id))[s] == Reached(n.socks, i, id, s)
  {
    var segs := n.devs[i].value;
    var fl := if s in n.socks then n.socks[s].flist else Default;
    ListHits(segs, id, s, fl);
    if s in n.socks && n.socks[s].flistlen == 0 {
      assert fl.NoFilter?;
    }
  }

  /* ---- what the user has asked for ---- */

  /** How many entries a filter list takes. */
  function Length(fl: FList): nat {
    match fl
    case Default => 1
    case NoFilter => 0
    case List(fs) => |fs|
  }

  /** setsockopt: refused for an implausible length, or, on a bound socket, exactly when on some device in
      its scope the other sockets' entries leave too little room; a refusal changes nothing. */
  lemma SetFilterAllOrNothing(n: Net, s: SockId, fl: FList)
    requires Consistent(n) && s in n.socks
    ensures var (n', code) := Apply(n, SetFilter(s, fl));
      && (code == EINVAL <==> fl.List? && !(1 <= |fl.filters| <= n.cap))
      && (code == ENOSPC <==>
            && code != EINVAL && n.socks[s].flistlen >= 0
            && exists i :: 0 <= i < |n.devs| && n.devs[i].Some? && InScope(n.socks[s].ifindex, i)
                           && OthersIn(Flat(n.devs[i].value), s) + Length(fl) > n.cap)
      && (code != OK ==> n' == n) && code != ENODEV
  {
    hide Drop, Flat, OthersIn, Agrees;
    forall i | 0 <= i < |n.devs| && n.devs[i].Some?
      ensures |Flat(Drop(n.devs[i].value, s))| == OthersIn(Flat(n.devs[i].value), s)
    {
      DropCounts(n.devs[i].value, s);
    }
  }

  /** A socket as its user sees it: the scope of the last bind that succeeded, and the filter list of the
      last setsockopt that succeeded. */
  datatype Wish = Wish(scope: Option<int>, flist: FList)

  /** What the user of socket `s` wishes after an operation that has returned `code`; None: not open. */
  function NextWish(w: Option<Wish>, s: SockId, op: Op, code: Code): Option<Wish> {
    if op.s != s || code != OK then w
    else match op
      case Open(_) => Some(Wish(None, Default))
      case Close(_) => None
      case Bind(_, ifindex) => if w.Some? then Some(w.value.(scope := Some(ifindex))) else w
      case SetFilter(_, fl) => if w.Some? then Some(w.value.(flist := fl)) else w
  }

  function Wished(ops: seq<Op>, codes: seq<Code>, s: SockId): Option<Wish>
    requires |codes| == |ops|
  {
    if ops == [] then None
    else var n := |ops| - 1; NextWish(Wished(ops[..n], codes[..n], s), s, ops[n], codes[n])
  }

  /** The socket's fields say what its user wishes. */
  predicate Granted(socks: map<SockId, Sock>, s: SockId, w: Option<Wish>) {
    && (s in socks <==> w.Some?)
    && (w.Some? ==>
          && socks[s].flist == w.value.flist
          && (socks[s].flistlen >= 0 <==> w.value.scope.Some?)
          && (w.value.scope.Some? ==> socks[s].ifindex == w.value.scope.value))
  }

  lemma ApplyGrants(n: Net, op: Op, s: SockId, w: Option<Wish>)
    requires Consistent(n) && Enabled(n, op) && Granted(n.socks, s, w)
    ensures var (n', code) := Apply(n, op); Granted(n'.socks, s, NextWish(w, s, op, code))
  {
    hide Fits, Installed, Agrees;
    ApplyConsistent(n, op);
  }

  /** The codes that the operations of a history return. */
  ghost predicate Returned(ops: seq<Op>, ns: seq<Net>, codes: seq<Code>) {
    && |codes| == |ops| < |ns|
    && forall t :: 0 <= t < |ops| ==> Enabled(ns[t], ops[t]) && codes[t] == Apply(ns[t], ops[t]).1
  }

  /** In every history the sockets hold what their users have asked for and been granted. */
  lemma {:induction false} HistoryGrants(present: seq<bool>, cap: nat, ops: seq<Op>, ns: seq<Net>, codes: seq<Code>,
                                         s: SockId, t: nat)
    requires History(present, cap, ops, ns) && Returned(ops, ns, codes) && t <= |ops|
    ensures Granted(ns[t].socks, s, Wished(ops[..t], codes[..t], s))
  {
    if t > 0 {
      hide Granted, Consistent;
      HistoryGrants(present, cap, ops, ns, codes, s, t - 1);
      HistoryConsistent(present, cap, ops, ns, t - 1);
      ApplyGrants(ns[t - 1], ops[t - 1], s, Wished(ops[..t - 1], codes[..t - 1], s));
      assert ops[..t][..t - 1] == ops[..t - 1] && codes[..t][..t - 1] == codes[..t - 1];
    }
  }

  /** How often a socket should get a frame from device i, by its user's wishes. */
  function Due(w: Option<Wish>, i: nat, id: CanId): nat {
    if w.Some? && w.value.scope.Some? && (w.value.scope.value == 0 || w.value.scope.value == i + 1)
    then Matches(w.value.flist, id) else 0
  }

  /** Delivery over every history: a socket gets a frame once for each filter that its user last set and
      that accepts it, if it is bound to the device; so it is reached if and only if one of them matches
      or none was defined. */
  lemma DeliveryAfterHistory(present: seq<bool>, cap: nat, ops: seq<Op>, ns: seq<Net>, codes: seq<Code>,
                             i: nat, id: CanId, s: SockId)
    requires History(present, cap, ops, ns) && Returned(ops, ns, codes)
    requires var n := ns[|ops|]; i < |n.devs| && n.devs[i].Some? && !id.err
    ensures var hits, w := Hits(Flat(ns[|ops|].devs[i].value), id), Wished(ops, codes, s);
      && multiset(hits)[s] == Due(w, i, id)
      && (s in hits <==>
            && w.Some? && w.value.scope.Some? && (w.value.scope.value == 0 || w.value.scope.value == i + 1)
            && match w.value.flist {
                 case Default => true
                 case NoFilter => false
                 case List(fs) => exists j :: 0 <= j < |fs| && Documented(id, fs[j])
               })
  {
    hide Hits, Flat, Consistent;
    var n, w := ns[|ops|], Wished(ops, codes, s);
    HistoryConsistent(present, cap, ops, ns, |ops|);
    HistoryGrants(present, cap, ops, ns, codes, s, |ops|);
    assert ops[..|ops|] == ops && codes[..|ops|] == codes;
    Delivery(n, i, id, s);
    if w.Some? && w.value.flist.List? {
      SomeMatch(w.value.flist.filters, id);
    }
    var hits := Hits(Flat(n.devs[i].value), id);
    assert s in hits <==> s in multiset(hits);
  }

  lemma {:induction false} SomeMatch(fs: seq<Filter>, id: CanId)
    ensures MatchCount(fs, id) > 0 <==> exists j :: 0 <= j < |fs| && Documented(id, fs[j])
  {
    if fs != [] {
      SomeMatch(fs[1..], id);
      if j :| 0 <= j < |fs| && Documented(id, fs[j]) {
        if j > 0 { assert Documented(id, fs[1..][j - 1]); }
      } else {
        assert forall j :: 0 <= j < |fs[1..]| ==> fs[1..][j] == fs[j + 1];
      }
    }
  }
}
