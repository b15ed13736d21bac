/** Binding sockets to devices: rtcan_raw_check_filter, rtcan_raw_add_filter and
    rtcan_raw_remove_filter over every device in scope, and bind, setsockopt and close on top of them.
    Each entry point refines the corresponding operation of FilterSpec. */
module FilterDriver {
  import opened Collections
  import opened Filters
  import opened FilterSpec
  import opened FilterLists

  /** Removing a socket frees exactly the entries it is recorded with. */
  lemma RoomFreed(segs: seq<Segment>, socks: map<SockId, Sock>, s: SockId, i: nat, cap: nat)
    requires Agrees(segs, socks, i, cap) && s in socks && WellFormed(socks[s], i + 1 + socks[s].ifindex)
    ensures |Flat(Drop(segs, s))| == |Flat(segs)| - if Owns(socks[s], i) then socks[s].flistlen else 0
    ensures !Owns(socks[s], i) ==> Drop(segs, s) == segs
  {
    if Owns(socks[s], i) {
      var g :| 0 <= g < |segs| && segs[g].sock == s;
      FlatAt(segs, g);
      DropAt(segs, g);
    } else {
      FlatAbsent(segs, s);
    }
  }

  /** The lists with a socket's segment put in front on every device in scope. */
  function Prefixed(lists: seq<Option<seq<Segment>>>, s: SockId, fl: FList, ifindex: nat)
    : (r: seq<Option<seq<Segment>>>)
    ensures |r| == |lists|
    ensures Installed(fl) == [] ==> r == lists
  {
    seq(|lists|, i requires 0 <= i < |lists| =>
      if lists[i].Some? && InScope(ifindex, i) && Installed(fl) != []
      then Some([Segment(s, Installed(fl))] + lists[i].value) else lists[i])
  }

  function UsedBy(lists: seq<Option<seq<Segment>>>, s: SockId): (r: seq<int>)
    ensures |r| == |lists|
    ensures forall k :: 0 <= k < |lists| && lists[k].Some? ==> r[k] == |Flat(Drop(lists[k].value, s))|
  {
    seq(|lists|, i requires 0 <= i < |lists| => if lists[i].Some? then |Flat(Drop(lists[i].value, s))| else 0)
  }

  lemma FitsUsed(n: Net, s: SockId, ifindex: nat, fl: FList, used: seq<int>)
    requires used == UsedBy(n.devs, s)
    ensures Fits(n, s, ifindex, fl) <==>
            forall k :: 0 <= k < |n.devs| && n.devs[k].Some? && InScope(ifindex, k) ==>
                          used[k] + |Installed(fl)| <= n.cap
  {
  }

  /** A socket has no entries outside its scope, and none at all while it has no filters. */
  lemma NothingElsewhere(n: Net, s: SockId, k: nat)
    requires Consistent(n) && s in n.socks && k < |n.devs| && !Owns(n.socks[s], k)
    ensures Unbound(n, s).devs[k] == n.devs[k]
  {
    if n.devs[k].Some? {
      RoomFreed(n.devs[k].value, n.socks, s, k, n.cap);
    }
  }

  predicate SegmentAt(segs: seq<Segment>, g: nat, s: SockId, flistlen: int) {
    DistinctSocks(segs) && g < |segs| && segs[g].sock == s && |segs[g].filters| == flistlen
  }

  /** What removing the socket's segment makes of one device's list. */
  predicate Removal(d: Option<seq<Segment>>, g: nat, s: SockId, flistlen: int, d': Option<seq<Segment>>) {
    if d.None? then d'.None? else SegmentAt(d.value, g, s, flistlen) && d' == Some(Drop(d.value, s))
  }

  /** Where the socket's segment is on one device in scope. */
  lemma SegmentOn(n: Net, s: SockId, k: nat) returns (g: nat)
    requires Consistent(n) && s in n.socks && k < |n.devs| && Owns(n.socks[s], k)
    ensures Removal(n.devs[k], g, s, n.socks[s].flistlen, Unbound(n, s).devs[k])
  {
    g := 0;
    if n.devs[k].Some? {
      assert Agrees(n.devs[k].value, n.socks, k, n.cap);
      g :| 0 <= g < |n.devs[k].value| && n.devs[k].value[g].sock == s;
    }
  }

  lemma Removals(n: Net, s: SockId) returns (at: seq<nat>)
    requires Consistent(n) && s in n.socks && n.socks[s].flistlen > 0
    ensures |at| == |n.devs|
    ensures forall k :: 0 <= k < |n.devs| ==>
              if InScope(n.socks[s].ifindex, k)
              then Removal(n.devs[k], at[k], s, n.socks[s].flistlen, Unbound(n, s).devs[k])
              else Unbound(n, s).devs[k] == n.devs[k]
  {
    at := [];
    while |at| < |n.devs|
      invariant |at| <= |n.devs|
      invariant forall k :: 0 <= k < |at| ==>
                  if InScope(n.socks[s].ifindex, k)
                  then Removal(n.devs[k], at[k], s, n.socks[s].flistlen, Unbound(n, s).devs[k])
                  else Unbound(n, s).devs[k] == n.devs[k]
    {
      var g := 0;
      if InScope(n.socks[s].ifindex, |at|) {
        g := SegmentOn(n, s, |at|);
      } else {
        NothingElsewhere(n, s, |at|);
      }
      at := at + [g];
    }
  }

  lemma RoomAfter(n: Net, s: SockId, ifindex: nat, fl: FList)
    requires Fits(n, s, ifindex, fl)
    ensures forall k :: 0 <= k < |n.devs| && Unbound(n, s).devs[k].Some? && InScope(ifindex, k) ==>
                          |Flat(Unbound(n, s).devs[k].value)| + |Installed(fl)| <= n.cap
  {
  }

  lemma ReboundLists(n: Net, s: SockId, ifindex: nat, fl: FList)
    ensures Rebound(n, s, ifindex, fl).devs == Prefixed(Unbound(n, s).devs, s, fl, ifindex)
  {
    var a, b := Rebound(n, s, ifindex, fl).devs, Prefixed(Unbound(n, s).devs, s, fl, ifindex);
    forall i | 0 <= i < |n.devs| ensures a[i] == b[i] {
      if n.devs[i].Some? {
        assert [] + Drop(n.devs[i].value, s) == Drop(n.devs[i].value, s);
      }
    }
  }

  class Can {
    var devs: seq<Device?>
    var socks: map<SockId, Sock>
    const cap: nat  // RTCAN_MAX_RECEIVERS

    ghost predicate Shape()
      reads this, devs
    {
      forall i :: 0 <= i < |devs| && devs[i] != null ==>
                    devs[i].Valid() && |devs[i].receivers| == cap && devs[i].ifindex == i + 1
    }

    ghost function SegsOf(d: Device?): Option<seq<Segment>>
      reads d
    {
      if d == null then None else Some(d.segs)
    }

    ghost function View(): (n: Net)
      reads this, devs
      ensures n.socks == socks && n.cap == cap && |n.devs| == |devs|
      ensures forall i :: 0 <= i < |devs| ==> n.devs[i] == SegsOf(devs[i])
    {
      var ds := devs;
      Net(socks, seq(|ds|, i requires 0 <= i < |ds| reads ds => SegsOf(ds[i])), cap)
    }

    ghost predicate Valid()
      reads this, devs
    {
      Shape() && Consistent(View())
    }

    /** The registered devices before any socket is bound. */
    constructor (ds: seq<Device?>, n: nat)
      requires forall i :: 0 <= i < |ds| && ds[i] != null ==>
                 ds[i].Valid() && |ds[i].receivers| == n && ds[i].ifindex == i + 1 && ds[i].segs == []
      ensures Valid() && devs == ds && cap == n
      ensures View() == Initial(seq(|ds|, i requires 0 <= i < |ds| => ds[i] != null), n)
    {
      devs, socks, cap := ds, map[], n;
      new;
      hide Device.Valid;
      assert View().devs == Initial(seq(|ds|, i requires 0 <= i < |ds| => ds[i] != null), n).devs;
    }

    /** rtcan_dev_get_by_index. */
    function GetByIndex(i: int): (d: Device?)
      reads this
      ensures d == if 1 <= i <= |devs| then devs[i - 1] else null
    {
      if i <= 0 || i > |devs| then null else devs[i - 1]
    }

    /** The space check of rtcan_raw_check_filter; `used[k]` is what device k holds for others. */
    method CheckSpace(sock: Sock, ifindex: nat, flistlen: int, ghost used: seq<int>) returns (code: Code)
      requires ifindex <= |devs| == |used| && sock.ifindex <= |devs|
      requires forall k :: 0 <= k < |devs| && devs[k] != null ==>
                             devs[k].freeEntries + (if Owns(sock, k) then sock.flistlen else 0) == cap - used[k]
      ensures code == OK || code == ENOSPC
      ensures code == OK <==> forall k :: 0 <= k < |devs| && devs[k] != null && InScope(ifindex, k) ==>
                                            used[k] + flistlen <= cap
    {
      var oldIfindex, oldAll := 0, 0;
      if sock.flistlen > 0 {
        if sock.ifindex == 0 {
          oldAll := sock.flistlen;
        } else {
          oldIfindex := sock.ifindex;
        }
      }
      var begin, end := if ifindex != 0 then ifindex else 1, if ifindex != 0 then ifindex else |devs|;
      var i := begin;
      while i <= end
        invariant begin <= i <= end + 1
        invariant forall k :: begin - 1 <= k < i - 1 && devs[k] != null ==> used[k] + flistlen <= cap
      {
        var dev := GetByIndex(i);
        if dev != null {
          var free := dev.freeEntries + oldAll;
          if i == oldIfindex {
            free := free + sock.flistlen;
          }
          assert dev == devs[i - 1];
          if free < flistlen {
            return ENOSPC;
          }
        }
        i := i + 1;
      }
      return OK;
    }

    method CheckFilter(s: SockId, ifindex: nat, flist: FList) returns (code: Code)
      requires Valid() && s in socks && ifindex <= |devs|
      ensures code == if Fits(View(), s, ifindex, flist) then OK else ENOSPC
    {
      if flist.NoFilter? {
        NoFilterFits(s, ifindex);
        return OK;
      }
      ghost var used := Used(s);
      code := CheckSpace(socks[s], ifindex, if flist.List? then |flist.filters| else 1, used);
      FitsUsed(View(), s, ifindex, flist, used);
      assert forall k :: 0 <= k < |devs| ==> (View().devs[k].Some? <==> devs[k] != null);
    }

    /** The space that the other sockets take on each device. */
    lemma Used(s: SockId) returns (used: seq<int>)
      requires Valid() && s in socks
      ensures used == UsedBy(View().devs, s)
      ensures forall k :: 0 <= k < |devs| && devs[k] != null ==>
                devs[k].freeEntries + (if Owns(socks[s], k) then socks[s].flistlen else 0) == cap - used[k]
    {
      var n := View();
      used := UsedBy(n.devs, s);
      forall k | 0 <= k < |devs| && devs[k] != null
        ensures devs[k].freeEntries + (if Owns(socks[s], k) then socks[s].flistlen else 0) == cap - used[k]
      {
        assert n.devs[k] == SegsOf(devs[k]);
        RoomFreed(devs[k].segs, socks, s, k, cap);
        RoomOn(k);
      }
    }

    lemma RoomOn(k: nat)
      requires Shape() && k < |devs| && devs[k] != null
      ensures devs[k].freeEntries == cap - |Flat(devs[k].segs)|
    {
      assert |EntriesOf(devs[k].receivers, devs[k].recv)| == |devs[k].recv|;
    }

    lemma NoFilterFits(s: SockId, ifindex: nat)
      requires Valid() && s in socks
      ensures Fits(View(), s, ifindex, NoFilter)
    {
      var n := View();
      forall i | 0 <= i < |n.devs| && n.devs[i].Some?
        ensures |Flat(Drop(n.devs[i].value, s))| <= cap
      {
        DropShrinks(n.devs[i].value, s);
      }
    }

    ghost predicate Holds(lists: seq<Option<seq<Segment>>>)
      reads this, devs
    {
      Shape() && Shows(lists)
    }

    /** The device lists as a sequence of values. */
    ghost predicate Shows(lists: seq<Option<seq<Segment>>>)
      reads this, devs
    {
      |lists| == |devs| && forall k :: 0 <= k < |devs| ==> SegsOf(devs[k]) == lists[k]
    }

    /** One device's turn of rtcan_raw_remove_filter. */
    method RemoveTurn(i: int, s: SockId, flistlen: int, ghost g: nat, ghost lists: seq<Option<seq<Segment>>>,
                      ghost turn: Option<seq<Segment>>)
      requires Holds(lists) && 1 <= i <= |devs| && flistlen > 0
      requires Removal(lists[i - 1], g, s, flistlen, turn)
      modifies devs
      ensures Holds(lists[i - 1 := turn])
    {
      hide Device.Valid, Drop;
      var dev := GetByIndex(i);
      assert SegsOf(dev) == lists[i - 1];
      if dev != null {
        dev.RemoveFilter(s, flistlen, g);
      }
    }

    /** One device's turn of rtcan_raw_add_filter. */
    method AddTurn(i: int, s: SockId, flist: FList, ghost lists: seq<Option<seq<Segment>>>,
                   ghost turn: Option<seq<Segment>>)
      requires Holds(lists) && 1 <= i <= |devs| && !flist.NoFilter?
      requires flist.List? ==> flist.filters != []
      requires lists[i - 1].Some? ==>
                 var segs := lists[i - 1].value;
                 |Flat(segs)| + |Installed(flist)| <= cap && turn == Some([Segment(s, Installed(flist))] + segs)
      requires lists[i - 1].None? ==> turn == None
      modifies devs
      ensures Holds(lists[i - 1 := turn])
    {
      hide Device.Valid, Flat;
      var dev := GetByIndex(i);
      assert SegsOf(dev) == lists[i - 1];
      if dev != null {
        RoomOn(i - 1);
        dev.AddFilter(s, flist);
      }
    }

    /** The loop of rtcan_raw_remove_filter; `at[k]` is the socket's segment on device k. */
    method RemoveLoop(s: SockId, ifindex: nat, flistlen: int, ghost at: seq<nat>,
                      ghost lists: seq<Option<seq<Segment>>>, ghost goal: seq<Option<seq<Segment>>>)
      requires Holds(lists) && |at| == |devs| && flistlen > 0 && ifindex <= |devs|
      requires |goal| == |lists| == |devs|
      requires forall k {:trigger Removal(lists[k], at[k], s, flistlen, goal[k])} ::
                 0 <= k < |lists| && InScope(ifindex, k) ==> Removal(lists[k], at[k], s, flistlen, goal[k])
      requires forall k :: 0 <= k < |lists| && !InScope(ifindex, k) ==> goal[k] == lists[k]
      modifies devs
      ensures Holds(goal)
    {
      hide Holds, Removal, Flat, Installed, Prefixed;
      var begin, end := if ifindex != 0 then ifindex else 1, if ifindex != 0 then ifindex else |devs|;
      var i := begin;
      ghost var now := lists;
      while i <= end
        invariant begin <= i <= end + 1
        invariant |now| == |goal| && Holds(now)
        invariant forall k :: begin - 1 <= k < i - 1 ==> now[k] == goal[k]
        invariant forall k :: 0 <= k < |devs| && !(begin - 1 <= k < i - 1) ==> now[k] == lists[k]
      {
        assert Removal(lists[i - 1], at[i - 1], s, flistlen, goal[i - 1]);
        RemoveTurn(i, s, flistlen, at[i - 1], now, goal[i - 1]);
        now := now[i - 1 := goal[i - 1]];
        i := i + 1;
      }
      assert now == goal;
    }

    /** The entries of the socket leave the list of every device. */
    method RemoveFilter(s: SockId)
      requires Valid() && s in socks
      modifies devs
      ensures Holds(Unbound(old(View()), s).devs)
    {
      ghost var n := View();
      if socks[s].flistlen > 0 {
        ghost var at := Removals(n, s);
        RemoveLoop(s, socks[s].ifindex, socks[s].flistlen, at, n.devs, Unbound(n, s).devs);
      } else {
        forall k | 0 <= k < |devs| ensures Unbound(n, s).devs[k] == n.devs[k] {
          NothingElsewhere(n, s, k);
        }
      }
    }

    /** The loop of rtcan_raw_add_filter. */
    method AddLoop(s: SockId, flist: FList, ifindex: nat, ghost lists: seq<Option<seq<Segment>>>,
                   ghost goal: seq<Option<seq<Segment>>>)
      requires Holds(lists) && ifindex <= |devs| && !flist.NoFilter?
      requires (flist.List? ==> flist.filters != []) && goal == Prefixed(lists, s, flist, ifindex)
      requires |lists| == |devs|
      requires forall k :: 0 <= k < |lists| && lists[k].Some? && InScope(ifindex, k) ==>
                             |Flat(lists[k].value)| + |Installed(flist)| <= cap
      modifies devs
      ensures Holds(goal)
    {
      hide Holds;
      var begin, end := if ifindex != 0 then ifindex else 1, if ifindex != 0 then ifindex else |devs|;
      var i := begin;
      ghost var now := lists;
      while i <= end
        invariant begin <= i <= end + 1
        invariant |now| == |goal| && Holds(now)
        invariant forall k :: begin - 1 <= k < i - 1 ==> now[k] == goal[k]
        invariant forall k :: 0 <= k < |devs| && !(begin - 1 <= k < i - 1) ==> now[k] == lists[k]
      {
        AddTurn(i, s, flist, now, goal[i - 1]);
        now := now[i - 1 := goal[i - 1]];
        i := i + 1;
      }
      assert now == goal;
    }

    /** The socket's filters become the first segment of every device in scope. */
    method AddFilter(s: SockId, flist: FList, ifindex: nat, ghost lists: seq<Option<seq<Segment>>>)
      returns (flistlen: int)
      requires Holds(lists) && ifindex <= |devs| && (flist.List? ==> flist.filters != [])
      requires forall k :: 0 <= k < |lists| && lists[k].Some? && InScope(ifindex, k) ==>
                             |Flat(lists[k].value)| + |Installed(flist)| <= cap
      modifies devs
      ensures flistlen == |Installed(flist)|
      ensures Holds(Prefixed(lists, s, flist, ifindex))
    {
      if flist.NoFilter? {
        return 0;
      }
      flistlen := if flist.List? then |flist.filters| else 1;
      AddLoop(s, flist, ifindex, lists, Prefixed(lists, s, flist, ifindex));
    }

    /** Move a socket to the devices of `ifindex` with the filters `flist`, for which there is room. */
    method Move(s: SockId, ifindex: nat, flist: FList)
      requires Valid() && s in socks && ifindex <= |devs| && Fits(View(), s, ifindex, flist)
      requires flist.List? ==> flist.filters != []
      modifies this`socks, devs
      ensures Valid() && View() == Rebound(old(View()), s, ifindex, flist)
    {
      hide Holds, Drop, Flat, Fits, Prefixed, Installed, Agrees;
      ghost var n := View();
      RoomAfter(n, s, ifindex, flist);
      ReboundLists(n, s, ifindex, flist);
      ReboundConsistent(n, s, ifindex, flist);
      RemoveFilter(s);
      var flistlen := AddFilter(s, flist, ifindex, Unbound(n, s).devs);
      SetSock(s, Sock(ifindex, flistlen, flist), Rebound(n, s, ifindex, flist).devs);
    }

    /** Record the socket's new binding; the lists are not touched. */
    method SetSock(s: SockId, k: Sock, ghost lists: seq<Option<seq<Segment>>>)
      requires Holds(lists)
      modifies this`socks
      ensures Shape() && View() == Net(old(socks)[s := k], lists, cap)
    {
      hide Device.Valid;
      socks := socks[s := k];
      assert View().devs == lists;
    }

    /** rtcan_raw_bind: all or nothing. */
    method Bind(s: SockId, ifindex: int) returns (code: Code)
      requires Valid() && s in socks
      modifies this`socks, devs
      ensures Valid() && (View(), code) == Apply(old(View()), Op.Bind(s, ifindex))
    {
      if ifindex < 0 || ifindex > |devs| {
        return ENODEV;
      }
      code := CheckFilter(s, ifindex, socks[s].flist);
      if code == OK {
        Move(s, ifindex, socks[s].flist);
      }
    }

    /** The CAN_RAW_FILTER part of rtcan_raw_setsockopt. */
    method SetFilter(s: SockId, flist: FList) returns (code: Code)
      requires Valid() && s in socks
      modifies this`socks, devs
      ensures Valid() && (View(), code) == Apply(old(View()), Op.SetFilter(s, flist))
    {
      if flist.List? && (|flist.filters| < 1 || |flist.filters| > cap) {
        return EINVAL;
      }
      hide Device.Valid, Agrees, Rebound, WellFormed;
      ghost var n := View();
      code := OK;
      if socks[s].flistlen >= 0 {
        code := CheckFilter(s, socks[s].ifindex, flist);
        if code == OK {
          Move(s, socks[s].ifindex, flist);
        }
      } else {
        socks := socks[s := socks[s].(flist := flist)];
        assert View().devs == n.devs;
        OffListConsistent(n, s, n.socks[s].(flist := flist));
      }
    }

    /** rtcan_rcv on one device: every socket gets the frame as often as its filters accept it. */
    method Receive(ifindex: int, id: CanId) returns (hits: seq<SockId>)
      requires Valid() && 1 <= ifindex <= |devs| && devs[ifindex - 1] != null && !id.err
      modifies devs[ifindex - 1]
      ensures Valid() && View() == old(View())
      ensures hits == Hits(Flat(View().devs[ifindex - 1].value), id)
      ensures forall s :: multiset(hits)[s] == Reached(socks, ifindex - 1, id, s)
    {
      hide Device.Valid, Consistent, Hits, Flat, Matches;
      ghost var n := View();
      var dev := GetByIndex(ifindex);
      assert n.devs[ifindex - 1] == SegsOf(dev);
      hits := dev.Receive(id);
      assert View().devs == n.devs;
      forall s ensures multiset(hits)[s] == Reached(socks, ifindex - 1, id, s) {
        Delivery(n, ifindex - 1, id, s);
      }
    }

    method OpenSocket(s: SockId)
      requires Valid() && s !in socks
      modifies this`socks
      ensures Valid() && (View(), OK) == Apply(old(View()), Open(s))
    {
      ghost var n := View();
      socks := socks[s := FRESH];
      assert View().devs == n.devs;
      OffListConsistent(n, s, FRESH);
    }

    /** rtcan_raw_close; an unbound socket has no entries to remove. */
    method CloseSocket(s: SockId)
      requires Valid() && s in socks
      modifies this`socks, devs
      ensures Valid() && (View(), OK) == Apply(old(View()), Close(s))
    {
      hide Device.Valid, Drop, Consistent;
      ghost var n := View();
      RemoveFilter(s);
      socks := socks - {s};
      assert View().devs == Unbound(n, s).devs;
      UnboundConsistent(n, s);
    }
  }
}
