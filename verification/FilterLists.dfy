/** The two singly linked lists that thread a CAN device's receivers, and the splices that bind,
    setsockopt and close perform on them. A list is given by its head index and the `next` fields;
    the array of receivers is part of the device structure and is never shared. */
module FilterLists {
  import opened Collections
  import opened Filters
  import opened FilterSpec

  const NIL: int := -1

  datatype Recv = Recv(filter: Filter, matchCount: nat, sock: SockId, next: int)

  predicate InRange(r: seq<Recv>, l: seq<int>) { forall k :: 0 <= k < |l| ==> 0 <= l[k] < |r| }

  function HeadOr(l: seq<int>, tail: int): int { if l == [] then tail else l[0] }

  /** What follows position `k` of a list that leads to `tail`. */
  function After(l: seq<int>, k: nat, tail: int): int { if k + 1 < |l| then l[k + 1] else tail }

  /** From `head`, the `next` fields run through `l` and then lead to `tail`. */
  predicate ChainTo(r: seq<Recv>, head: int, l: seq<int>, tail: int) {
    && InRange(r, l)
    && head == HeadOr(l, tail)
    && forall k {:trigger After(l, k, tail)} :: 0 <= k < |l| ==> r[l[k]].next == After(l, k, tail)
  }

  function EntriesOf(r: seq<Recv>, l: seq<int>): (es: seq<Entry>)
    requires InRange(r, l)
    ensures |es| == |l| && forall k :: 0 <= k < |l| ==> es[k] == Entry(r[l[k]].sock, r[l[k]].filter)
  {
    seq(|l|, k requires 0 <= k < |l| => Entry(r[l[k]].sock, r[l[k]].filter))
  }

  function Relink(r: seq<Recv>, x: int, next: int): seq<Recv>
    requires 0 <= x < |r|
  {
    r[x := r[x].(next := next)]
  }

  lemma ChainSplit(r: seq<Recv>, head: int, a: seq<int>, b: seq<int>, tail: int)
    requires ChainTo(r, head, a + b, tail)
    ensures ChainTo(r, head, a, HeadOr(b, tail)) && ChainTo(r, HeadOr(b, tail), b, tail)
  {
    var l := a + b;
    forall k | 0 <= k < |a| ensures 0 <= a[k] < |r| && r[a[k]].next == After(a, k, HeadOr(b, tail)) {
      assert a[k] == l[k] && After(l, k, tail) == After(a, k, HeadOr(b, tail));
    }
    forall k | 0 <= k < |b| ensures 0 <= b[k] < |r| && r[b[k]].next == After(b, k, tail) {
      assert b[k] == l[|a| + k] && After(l, |a| + k, tail) == After(b, k, tail);
    }
  }

  lemma ChainJoin(r: seq<Recv>, head: int, a: seq<int>, b: seq<int>, tail: int)
    requires ChainTo(r, head, a, HeadOr(b, tail)) && ChainTo(r, HeadOr(b, tail), b, tail)
    ensures ChainTo(r, head, a + b, tail)
  {
    var l := a + b;
    forall k | 0 <= k < |l| ensures 0 <= l[k] < |r| && r[l[k]].next == After(l, k, tail) {
      if k < |a| {
        assert After(l, k, tail) == After(a, k, HeadOr(b, tail));
      } else {
        assert l[k] == b[k - |a|] && After(l, k, tail) == After(b, k - |a|, tail);
      }
    }
  }

  /** Relinking a node outside a list leaves the list alone. */
  lemma ChainFrame(r: seq<Recv>, head: int, l: seq<int>, tail: int, x: int, next: int)
    requires ChainTo(r, head, l, tail) && 0 <= x < |r| && x !in l
    ensures ChainTo(Relink(r, x, next), head, l, tail)
  {
  }

  /** Relinking the last node of a list changes where the list leads. */
  lemma ChainRetarget(r: seq<Recv>, head: int, l: seq<int>, tail: int, next: int)
    requires ChainTo(r, head, l, tail) && l != [] && Distinct(l)
    ensures ChainTo(Relink(r, l[|l| - 1], next), head, l, next)
  {
    var r' := Relink(r, l[|l| - 1], next);
    forall k | 0 <= k < |l| ensures r'[l[k]].next == After(l, k, next) {
      assert r[l[k]].next == After(l, k, tail);
    }
  }

  /** Moving the first `n` free receivers to the front of the reception list. */
  lemma SpliceIn(r: seq<Recv>, e: int, h: int, empty: seq<int>, recv: seq<int>, n: nat)
    requires ChainTo(r, e, empty, NIL) && ChainTo(r, h, recv, NIL)
    requires Distinct(empty + recv) && 0 < n <= |empty|
    ensures var r' := Relink(r, empty[n - 1], h);
      && ChainTo(r', e, empty[..n] + recv, NIL)
      && ChainTo(r', r[empty[n - 1]].next, empty[n..], NIL)
  {
    var a, b := empty[..n], empty[n..];
    var x := empty[n - 1];
    assert empty == a + b && a[|a| - 1] == x;
    ChainSplit(r, e, a, b, NIL);
    assert r[a[|a| - 1]].next == After(a, |a| - 1, HeadOr(b, NIL));
    forall k | 0 <= k < |b| ensures b[k] != x {
      assert (empty + recv)[n - 1] == x && (empty + recv)[n + k] == b[k];
    }
    forall k | 0 <= k < |recv| ensures recv[k] != x {
      assert (empty + recv)[n - 1] == x && (empty + recv)[|empty| + k] == recv[k];
    }
    assert Distinct(a) by {
      assert forall k :: 0 <= k < |a| ==> (empty + recv)[k] == a[k];
    }
    ChainRetarget(r, e, a, HeadOr(b, NIL), h);
    ChainFrame(r, HeadOr(b, NIL), b, NIL, x, h);
    ChainFrame(r, h, recv, NIL, x, h);
    ChainJoin(Relink(r, x, h), e, a, recv, NIL);
  }

  /** Moving the middle part `b` of the reception list a + b + c to the front of the free list. */
  lemma SpliceOut(r: seq<Recv>, h: int, e: int, a: seq<int>, b: seq<int>, c: seq<int>, empty: seq<int>)
    requires ChainTo(r, h, a + (b + c), NIL) && ChainTo(r, e, empty, NIL)
    requires Distinct(a + (b + c) + empty) && b != [] && InRange(r, a) && InRange(r, b)
    ensures var r1 := if a == [] then r else Relink(r, a[|a| - 1], HeadOr(c, NIL));
      var r2 := Relink(r1, b[|b| - 1], e);
      && r[b[|b| - 1]].next == HeadOr(c, NIL) && r1[b[|b| - 1]].next == HeadOr(c, NIL)
      && ChainTo(r2, HeadOr(a + c, NIL), a + c, NIL)
      && ChainTo(r2, b[0], b + empty, NIL)
  {
    Parts(a, b, c, empty);
    ChainSplit(r, h, a, b + c, NIL);
    ChainSplit(r, HeadOr(b + c, NIL), b, c, NIL);
    var y, hc := b[|b| - 1], HeadOr(c, NIL);
    var r1 := r;
    if a != [] {
      var x := a[|a| - 1];
      r1 := Relink(r, x, hc);
      ChainRetarget(r, h, a, b[0], hc);
      ChainFrame(r, b[0], b, hc, x, hc);
      ChainFrame(r, hc, c, NIL, x, hc);
      ChainFrame(r, e, empty, NIL, x, hc);
    }
    var ha := HeadOr(a, hc);
    assert r[y].next == After(b, |b| - 1, hc);
    assert ChainTo(r1, ha, a, hc);
    ChainRetarget(r1, b[0], b, hc, e);
    ChainFrame(r1, ha, a, hc, y, e);
    ChainFrame(r1, hc, c, NIL, y, e);
    ChainFrame(r1, e, empty, NIL, y, e);
    ChainJoin(Relink(r1, y, e), ha, a, c, NIL);
    ChainJoin(Relink(r1, y, e), b[0], b, empty, NIL);
  }

  /** Consecutive parts of a list without repetitions have no node in common. */
  lemma Parts(a: seq<int>, b: seq<int>, c: seq<int>, d: seq<int>)
    requires Distinct(a + (b + c) + d) && b != []
    ensures Distinct(a) && Distinct(b)
    ensures var y := b[|b| - 1]; y !in a && y !in c && y !in d
    ensures a != [] ==> var x := a[|a| - 1]; x !in b && x !in c && x !in d
  {
    var l := a + (b + c) + d;
    assert forall k :: 0 <= k < |a| ==> l[k] == a[k];
    assert forall k :: 0 <= k < |b| ==> l[|a| + k] == b[k];
    assert forall k :: 0 <= k < |c| ==> l[|a| + |b| + k] == c[k];
    assert forall k :: 0 <= k < |d| ==> l[|a| + |b| + |c| + k] == d[k];
  }

  lemma {:induction false} FlatConcat(a: seq<Segment>, b: seq<Segment>)
    ensures Flat(a + b) == Flat(a) + Flat(b)
  {
    if a == [] {
      assert a + b == b;
    } else {
      assert (a + b)[1..] == a[1..] + b;
      FlatConcat(a[1..], b);
    }
  }

  lemma FlatAt(segs: seq<Segment>, g: nat)
    requires g < |segs|
    ensures Flat(segs) == Flat(segs[..g]) + (SegEntries(segs[g]) + Flat(segs[g + 1..]))
    ensures Flat(segs[..g] + segs[g + 1..]) == Flat(segs[..g]) + Flat(segs[g + 1..])
  {
    assert segs == segs[..g] + segs[g..] && segs[g..][1..] == segs[g + 1..];
    FlatConcat(segs[..g], segs[g..]);
    FlatConcat(segs[..g], segs[g + 1..]);
  }

  predicate Absent(segs: seq<Segment>, s: SockId) { forall k :: 0 <= k < |segs| ==> segs[k].sock != s }

  lemma {:induction false} FlatAbsent(segs: seq<Segment>, s: SockId)
    requires Absent(segs, s)
    ensures forall k :: 0 <= k < |Flat(segs)| ==> Flat(segs)[k].sock != s
    ensures Drop(segs, s) == segs
  {
    if segs != [] {
      FlatAbsent(segs[1..], s);
    }
  }

  lemma {:induction false} DropAt(segs: seq<Segment>, g: nat)
    requires DistinctSocks(segs) && g < |segs|
    ensures Drop(segs, segs[g].sock) == segs[..g] + segs[g + 1..]
    ensures Absent(segs[..g], segs[g].sock)
    decreases g
  {
    var s := segs[g].sock;
    if g == 0 {
      FlatAbsent(segs[1..], s);
    } else {
      var rest := segs[1..];
      DropAt(rest, g - 1);
      assert rest[g - 1] == segs[g];
      assert segs[..g] == [segs[0]] + rest[..g - 1] && rest[g..] == segs[g + 1..];
    }
  }

  /** Every receiver index below `n` occurs exactly once. */
  ghost predicate OnceEach(m: multiset<int>, n: nat) { forall x :: m[x] == if 0 <= x < n then 1 else 0 }

  lemma OnceDistinct(l: seq<int>, n: nat)
    requires OnceEach(multiset(l), n)
    ensures Distinct(l)
  {
    forall j, k | 0 <= j < k < |l| ensures l[j] != l[k] {
      assert l == l[..k] + l[k..] && l[j] in l[..k] && l[k] in l[k..];
      var a, b := multiset(l[..k]), multiset(l[k..]);
      assert multiset(l) == a + b && a[l[j]] >= 1 && b[l[k]] >= 1;
      assert multiset(l)[l[j]] == a[l[j]] + b[l[j]];
    }
  }

  /** The reception and free lists of one device: both end, they share no receiver, and together
      they hold every receiver; the counter is the length of the free list. */
  ghost predicate ListsOk(r: seq<Recv>, h: int, e: int, recv: seq<int>, empty: seq<int>, free: int) {
    && ChainTo(r, h, recv, NIL)
    && ChainTo(r, e, empty, NIL)
    && OnceEach(multiset(recv + empty), |r|)
    && free == |empty| == |r| - |recv|
  }

  /** The first `j` receivers of the free list have been filled in, and nothing else has changed. */
  ghost predicate Filled(r: seq<Recv>, r': seq<Recv>, empty: seq<int>, sock: SockId, fs: seq<Filter>, j: nat)
    requires InRange(r, empty)
  {
    && |r'| == |r| && j <= |fs| && j <= |empty|
    && (forall x :: 0 <= x < |r| ==> r'[x].next == r[x].next)
    && (forall k :: 0 <= k < j ==> r'[empty[k]].sock == sock && r'[empty[k]].filter == fs[k])
    && (forall x :: 0 <= x < |r| && x !in empty[..j] ==> r'[x] == r[x])
  }

  lemma FillOne(r: seq<Recv>, r': seq<Recv>, empty: seq<int>, sock: SockId, fs: seq<Filter>, j: nat)
    requires InRange(r, empty) && Distinct(empty)
    requires Filled(r, r', empty, sock, fs, j) && j < |fs| && j < |empty|
    ensures Filled(r, Filling(r', empty[j], sock, fs[j]), empty, sock, fs, j + 1)
  {
    var x := empty[j];
    assert empty[..j + 1] == empty[..j] + [x];
    assert forall k :: 0 <= k < j ==> empty[k] != x;
  }

  function Filling(r: seq<Recv>, x: int, sock: SockId, f: Filter): seq<Recv>
    requires 0 <= x < |r|
  {
    r[x := Recv(f, 0, sock, r[x].next)]
  }

  lemma AddLists(r: seq<Recv>, e: int, h: int, empty: seq<int>, recv: seq<int>, n: nat)
    requires ListsOk(r, h, e, recv, empty, |empty|) && 0 < n <= |empty|
    ensures ListsOk(Relink(r, empty[n - 1], h), e, r[empty[n - 1]].next, empty[..n] + recv, empty[n..], |empty| - n)
  {
    assert multiset(recv + empty) == multiset(empty + recv);
    OnceDistinct(empty + recv, |r|);
    SpliceIn(r, e, h, empty, recv, n);
    assert empty == empty[..n] + empty[n..];
    assert multiset(empty[..n] + recv + empty[n..]) == multiset(recv + empty);
  }

  lemma AddEntries(r: seq<Recv>, r': seq<Recv>, empty: seq<int>, recv: seq<int>,
                   segs: seq<Segment>, sock: SockId, fs: seq<Filter>)
    requires InRange(r, empty) && InRange(r, recv) && OnceEach(multiset(recv + empty), |r|)
    requires EntriesOf(r, recv) == Flat(segs)
    requires 0 < |fs| <= |empty| && Filled(r, r', empty, sock, fs, |fs|)
    ensures EntriesOf(r', empty[..|fs|] + recv) == Flat([Segment(sock, fs)] + segs)
  {
    hide OnceEach, Filled;
    var a := empty[..|fs|];
    OldEntries(r, r', empty, recv, sock, fs);
    NewEntries(r, r', empty, sock, fs);
    EntriesConcat(r', a, recv);
    assert ([Segment(sock, fs)] + segs)[1..] == segs;
  }

  lemma EntriesConcat(r: seq<Recv>, a: seq<int>, b: seq<int>)
    requires InRange(r, a) && InRange(r, b)
    ensures InRange(r, a + b) && EntriesOf(r, a + b) == EntriesOf(r, a) + EntriesOf(r, b)
  {
  }

  lemma NewEntries(r: seq<Recv>, r': seq<Recv>, empty: seq<int>, sock: SockId, fs: seq<Filter>)
    requires InRange(r, empty) && |fs| <= |empty| && Filled(r, r', empty, sock, fs, |fs|)
    ensures InRange(r', empty[..|fs|]) && EntriesOf(r', empty[..|fs|]) == SegEntries(Segment(sock, fs))
  {
  }

  lemma OldEntries(r: seq<Recv>, r': seq<Recv>, empty: seq<int>, recv: seq<int>, sock: SockId, fs: seq<Filter>)
    requires InRange(r, empty) && InRange(r, recv) && OnceEach(multiset(recv + empty), |r|)
    requires |fs| <= |empty| && Filled(r, r', empty, sock, fs, |fs|)
    ensures InRange(r', recv) && EntriesOf(r', recv) == EntriesOf(r, recv)
  {
    hide OnceEach;
    forall j | 0 <= j < |recv| ensures r'[recv[j]] == r[recv[j]] {
      Apart(recv, empty, |r|, j, |fs|);
    }
  }

  lemma Apart(recv: seq<int>, empty: seq<int>, size: nat, k: nat, n: nat)
    requires OnceEach(multiset(recv + empty), size) && k < |recv| && n <= |empty|
    ensures recv[k] !in empty[..n]
  {
    OnceDistinct(recv + empty, size);
    var l := recv + empty;
    assert forall j :: 0 <= j < n ==> empty[..n][j] == l[|recv| + j];
    assert l[k] == recv[k];
  }

  lemma AddCorrect(r: seq<Recv>, r': seq<Recv>, e: int, h: int, empty: seq<int>, recv: seq<int>,
                   segs: seq<Segment>, sock: SockId, fs: seq<Filter>)
    requires ListsOk(r, h, e, recv, empty, |empty|) && EntriesOf(r, recv) == Flat(segs)
    requires 0 < |fs| <= |empty| && Filled(r, r', empty, sock, fs, |fs|)
    ensures 0 <= empty[|fs| - 1] < |r'| == |r|
    ensures var n, last := |fs|, empty[|fs| - 1];
      var r2 := Relink(r', last, h);
      && ListsOk(r2, e, r'[last].next, empty[..n] + recv, empty[n..], |empty| - n)
      && EntriesOf(r2, empty[..n] + recv) == Flat([Segment(sock, fs)] + segs)
  {
    hide OnceEach, Flat;
    AddEntries(r, r', empty, recv, segs, sock, fs);
    assert ListsOk(r', h, e, recv, empty, |empty|);
    AddLists(r', e, h, empty, recv, |fs|);
    SameEntries(r', Relink(r', empty[|fs| - 1], h), empty[..|fs|] + recv);
  }

  lemma InstalledLength(fl: FList)
    ensures |Installed(fl)| == match fl case Default => 1 case NoFilter => 0 case List(fs) => |fs|
  {
  }

  /** Links are no part of the entries. */
  lemma SameEntries(r: seq<Recv>, r': seq<Recv>, l: seq<int>)
    requires InRange(r, l) && |r'| == |r|
    requires forall x :: 0 <= x < |r| ==> r'[x].sock == r[x].sock && r'[x].filter == r[x].filter
    ensures EntriesOf(r', l) == EntriesOf(r, l)
  {
  }

  predicate SameButCounts(r: seq<Recv>, r': seq<Recv>) {
    |r'| == |r| && forall x :: 0 <= x < |r| ==> r'[x].(matchCount := 0) == r[x].(matchCount := 0)
  }

  /** The receivers after each of those in `done` that accepts the ID has counted the match. */
  function Counted(r: seq<Recv>, done: seq<int>, id: CanId): seq<Recv> {
    seq(|r|, x requires 0 <= x < |r| =>
      if x in done && Accept(id, r[x].filter) then r[x].(matchCount := r[x].matchCount + 1) else r[x])
  }

  lemma NothingCounted(r: seq<Recv>, id: CanId)
    ensures Counted(r, [], id) == r
  {
  }

  lemma CountedSame(r: seq<Recv>, done: seq<int>, id: CanId)
    ensures SameButCounts(r, Counted(r, done, id))
  {
  }

  lemma CountStep(r: seq<Recv>, l: seq<int>, k: nat, id: CanId)
    requires InRange(r, l) && Distinct(l) && k < |l|
    ensures var c := Counted(r, l[..k], id);
      && |c| == |r| && c[l[k]] == r[l[k]]
      && Counted(r, l[..k + 1], id) ==
         if Accept(id, r[l[k]].filter) then c[l[k] := r[l[k]].(matchCount := r[l[k]].matchCount + 1)] else c
  {
    hide Accept;
    assert l[k] !in l[..k];
    assert l[..k + 1] == l[..k] + [l[k]];
  }

  lemma FirstDistinct(a: seq<int>, b: seq<int>)
    requires Distinct(a + b)
    ensures Distinct(a)
  {
    assert forall k :: 0 <= k < |a| ==> a[k] == (a + b)[k];
  }

  class Device {
    const ifindex: nat  // assigned by rtcan_dev_register
    var receivers: seq<Recv>
    var recvList: int
    var emptyList: int
    var freeEntries: int
    ghost var recv: seq<int>
    ghost var empty: seq<int>
    ghost var segs: seq<Segment>

    ghost predicate Valid()
      reads this
    {
      && ListsOk(receivers, recvList, emptyList, recv, empty, freeEntries)
      && EntriesOf(receivers, recv) == Flat(segs)
    }

    /** The receiver lists as rtcan_dev_alloc builds them. */
    constructor (n: nat, index: nat)
      requires n >= 1
      ensures Valid() && segs == [] && |receivers| == n && ifindex == index
    {
      ifindex := index;
      var r := seq(n, _ => Recv(ACCEPT_ALL, 0, 0, 0));
      var j := 0;
      while j < n - 1
        invariant 0 <= j <= n - 1 && |r| == n
        invariant forall k :: 0 <= k < j ==> r[k].next == k + 1
      {
        r := Relink(r, j, j + 1);
        j := j + 1;
      }
      r := Relink(r, j, NIL);
      receivers, recvList, emptyList, freeEntries := r, NIL, 0, n;
      recv, empty, segs := [], Count(n), [];
      new;
      assert recv + empty == empty;
    }

    /** Fill the first receivers of the free list with a socket's filters; `last` is the last one. */
    method Fill(sock: SockId, flist: FList) returns (last: int)
      requires Valid() && !flist.NoFilter? && |Installed(flist)| <= freeEntries
      requires flist.List? ==> flist.filters != []
      modifies this`receivers
      ensures 0 < |Installed(flist)| <= |empty| && last == empty[|Installed(flist)| - 1]
      ensures 0 <= last < |receivers| == |old(receivers)| && freeEntries == |empty|
      ensures Filled(old(receivers), receivers, empty, sock, Installed(flist), |Installed(flist)|)
    {
      last := emptyList;
      ghost var was, fs := receivers, Installed(flist);
      EmptyDistinct();
      FillOne(was, receivers, empty, sock, fs, 0);
      if flist.List? {
        receivers := Filling(receivers, last, sock, Mount(flist.filters[0]));
        var j := 1;
        while j < |flist.filters|
          invariant 1 <= j <= |flist.filters| && last == empty[j - 1]
          invariant Filled(was, receivers, empty, sock, fs, j)
        {
          FillOne(was, receivers, empty, sock, fs, j);
          assert was[empty[j - 1]].next == After(empty, j - 1, NIL);
          last := receivers[last].next;
          receivers := Filling(receivers, last, sock, Mount(flist.filters[j]));
          j := j + 1;
        }
      } else {
        receivers := Filling(receivers, last, sock, ACCEPT_ALL);
      }
    }

    lemma EmptyDistinct()
      requires Valid()
      ensures Distinct(empty)
    {
      OnceDistinct(recv + empty, |receivers|);
      assert forall k :: 0 <= k < |empty| ==> empty[k] == (recv + empty)[|recv| + k];
    }

    /** One device's turn of rtcan_raw_add_filter. */
    method AddFilter(sock: SockId, flist: FList)
      requires Valid() && !flist.NoFilter? && |Installed(flist)| <= freeEntries
      requires flist.List? ==> flist.filters != []
      modifies this
      ensures Valid() && |receivers| == old(|receivers|)
      ensures segs == [Segment(sock, Installed(flist))] + old(segs)
    {
      hide ListsOk, Filled, Flat, EntriesOf, Installed;
      var first := emptyList;
      ghost var was, fs := receivers, Installed(flist);
      var last := Fill(sock, flist);
      AddCorrect(was, receivers, emptyList, recvList, empty, recv, segs, sock, fs);
      InstalledLength(flist);
      freeEntries := freeEntries - if flist.List? then |flist.filters| else 1;
      emptyList := receivers[last].next;
      receivers := Relink(receivers, last, recvList);
      recvList := first;
      recv, empty := empty[..|fs|] + recv, empty[|fs|..];
      segs := [Segment(sock, fs)] + segs;
    }

    /** One device's turn of rtcan_raw_remove_filter: `flistlen` entries from the first one of the
        socket on; `g` is the socket's segment. */
    method RemoveFilter(sock: SockId, flistlen: int, ghost g: nat)
      requires Valid() && DistinctSocks(segs)
      requires g < |segs| && segs[g].sock == sock && |segs[g].filters| == flistlen > 0
      modifies this
      ensures Valid() && |receivers| == old(|receivers|)
      ensures segs == Drop(old(segs), sock)
    {
      ghost var a, b, c := Parted(recv, segs, g);
      FoundAt(receivers, a, b, c, segs, g);
      var first, next, last := Locate(sock, flistlen, |a|);
      assert recv[|a| + flistlen - 1] == b[|b| - 1] && recv[|a|] == b[0];
      assert a != [] ==> recv[|a| - 1] == a[|a| - 1];
      Unlink(first, next, last, flistlen, a, b, c, g);
    }

    /** Detach the entries from `next` to `last` and put them in front of the free list. */
    method Unlink(first: int, next: int, last: int, flistlen: int,
                  ghost a: seq<int>, ghost b: seq<int>, ghost c: seq<int>, ghost g: nat)
      requires Valid() && recv == a + (b + c) && g < |segs| && DistinctSocks(segs)
      requires |a| == |Flat(segs[..g])| && |b| == |segs[g].filters| == flistlen > 0
      requires first == (if a == [] then NIL else a[|a| - 1]) && next == b[0] && last == b[|b| - 1]
      modifies this
      ensures Valid() && |receivers| == old(|receivers|)
      ensures segs == Drop(old(segs), old(segs[g].sock))
    {
      hide OnceEach, Flat, Drop;
      PartsInRange(receivers, a, b, c);
      RestEntries(receivers, a, b, c, segs, g);
      ghost var r, h := receivers, recvList;
      if first != NIL {
        receivers := Relink(receivers, first, receivers[last].next);
      } else {
        recvList := receivers[last].next;
      }
      RemoveLists(r, h, emptyList, a, b, c, empty, receivers);
      SameEntries(r, receivers, a + c);
      SameEntries(receivers, Relink(receivers, last, emptyList), a + c);
      receivers := Relink(receivers, last, emptyList);
      emptyList := next;
      freeEntries := freeEntries + flistlen;
      recv, empty, segs := a + c, b + empty, Drop(segs, segs[g].sock);
    }

    /** The search of rtcan_raw_remove_filter: the predecessor, the first and the last entry. */
    method Locate(sock: SockId, flistlen: int, ghost p: nat) returns (first: int, next: int, last: int)
      requires ChainTo(receivers, recvList, recv, NIL) && 0 < flistlen && p + flistlen <= |recv|
      requires forall k :: 0 <= k < p ==> receivers[recv[k]].sock != sock
      requires receivers[recv[p]].sock == sock
      ensures first == if p == 0 then NIL else recv[p - 1]
      ensures next == recv[p] && last == recv[p + flistlen - 1]
    {
      first, next := NIL, recvList;
      ghost var k := 0;
      while receivers[next].sock != sock
        invariant 0 <= k <= p && next == recv[k]
        invariant first == if k == 0 then NIL else recv[k - 1]
        decreases p - k
      {
        assert receivers[recv[k]].next == After(recv, k, NIL);
        first := next;
        next := receivers[first].next;
        k := k + 1;
      }
      last := next;
      k := p;
      var j := 1;
      while j < flistlen
        invariant 1 <= j <= flistlen && k == p + j - 1 && last == recv[k]
      {
        assert receivers[recv[k]].next == After(recv, k, NIL);
        last := receivers[last].next;
        j, k := j + 1, k + 1;
      }
    }

    /** rtcan_rcv for a frame that is not an error frame: the sockets the frame is handed to. Each
        listed receiver that accepts the ID counts the match, and nothing else changes. */
    method Receive(id: CanId) returns (hits: seq<SockId>)
      requires Valid() && !id.err
      modifies this`receivers
      ensures Valid() && receivers == Counted(old(receivers), recv, id) && SameButCounts(old(receivers), receivers)
      ensures hits == Hits(Flat(segs), id)
    {
      hide Counted, OnceEach, Flat, Accept, SameButCounts;
      hits := [];
      var listener := recvList;
      ghost var k, r0, es := 0, receivers, Flat(segs);
      OnceDistinct(recv + empty, |receivers|);
      FirstDistinct(recv, empty);
      assert es[..0] == [] && recv[..0] == [];
      NothingCounted(r0, id);
      while listener != NIL
        invariant 0 <= k <= |recv| && listener == if k < |recv| then recv[k] else NIL
        invariant receivers == Counted(r0, recv[..k], id)
        invariant hits == Hits(es[..k], id)
        decreases |recv| - k
      {
        CountStep(r0, recv, k, id);
        var r := receivers[listener];
        assert EntriesOf(r0, recv)[k] == es[k];
        HitsStep(es, k, id);
        assert r0[recv[k]].next == After(recv, k, NIL);
        if Accept(id, r.filter) {
          receivers := receivers[listener := r.(matchCount := r.matchCount + 1)];
          hits := hits + [r.sock];
        }
        listener := r.next;
        k := k + 1;
      }
      assert es[..k] == es && recv[..k] == recv;
      CountedSame(r0, recv, id);
      CountsKeepLists(r0, receivers);
    }

    /** Counting matches touches no list. */
    lemma CountsKeepLists(r: seq<Recv>, r': seq<Recv>)
      requires ListsOk(r, recvList, emptyList, recv, empty, freeEntries) && SameButCounts(r, r')
      ensures ListsOk(r', recvList, emptyList, recv, empty, freeEntries)
      ensures EntriesOf(r', recv) == EntriesOf(r, recv)
    {
    }
  }

  lemma RemoveOnce(a: seq<int>, b: seq<int>, c: seq<int>, empty: seq<int>)
    ensures multiset(a + c + (b + empty)) == multiset(a + (b + c) + empty)
  {
  }

  lemma RemoveLists(r: seq<Recv>, h: int, e: int, a: seq<int>, b: seq<int>, c: seq<int>, empty: seq<int>,
                    r1: seq<Recv>)
    requires ListsOk(r, h, e, a + (b + c), empty, |empty|) && b != [] && InRange(r, a) && InRange(r, b)
    requires r1 == if a == [] then r else Relink(r, a[|a| - 1], r[b[|b| - 1]].next)
    ensures r1[b[|b| - 1]].next == r[b[|b| - 1]].next
    ensures ListsOk(Relink(r1, b[|b| - 1], e), if a == [] then r[b[|b| - 1]].next else h, b[0],
                    a + c, b + empty, |empty| + |b|)
  {
    OnceDistinct(a + (b + c) + empty, |r|);
    RemoveOnce(a, b, c, empty);
    SpliceOut(r, h, e, a, b, c, empty);
  }

  /** The reception list around segment `g`. */
  lemma Parted(recv: seq<int>, segs: seq<Segment>, g: nat) returns (a: seq<int>, b: seq<int>, c: seq<int>)
    requires |recv| == |Flat(segs)| && g < |segs|
    ensures recv == a + (b + c) && |a| == |Flat(segs[..g])| && |b| == |segs[g].filters|
  {
    FlatAt(segs, g);
    var p, q := |Flat(segs[..g])|, |Flat(segs[..g])| + |segs[g].filters|;
    a, b, c := recv[..p], recv[p..q], recv[q..];
  }

  lemma InRangeParts(r: seq<Recv>, a: seq<int>, b: seq<int>)
    requires InRange(r, a + b)
    ensures InRange(r, a) && InRange(r, b)
  {
    var l := a + b;
    assert forall k :: 0 <= k < |a| ==> a[k] == l[k];
    assert forall k :: 0 <= k < |b| ==> b[k] == l[|a| + k];
  }

  lemma PartsInRange(r: seq<Recv>, a: seq<int>, b: seq<int>, c: seq<int>)
    requires InRange(r, a + (b + c))
    ensures InRange(r, a) && InRange(r, b) && InRange(r, c) && InRange(r, a + c)
    ensures EntriesOf(r, a + (b + c)) == EntriesOf(r, a) + (EntriesOf(r, b) + EntriesOf(r, c))
    ensures EntriesOf(r, a + c) == EntriesOf(r, a) + EntriesOf(r, c)
  {
    hide EntriesOf, InRange;
    InRangeParts(r, a, b + c);
    InRangeParts(r, b, c);
    EntriesConcat(r, b, c);
    EntriesConcat(r, a, b + c);
    EntriesConcat(r, a, c);
  }

  /** The entries of segment `g` are the first ones of its socket. */
  lemma FoundAt(r: seq<Recv>, a: seq<int>, b: seq<int>, c: seq<int>, segs: seq<Segment>, g: nat)
    requires InRange(r, a + (b + c)) && EntriesOf(r, a + (b + c)) == Flat(segs) && DistinctSocks(segs)
    requires g < |segs| && |a| == |Flat(segs[..g])| && |b| == |segs[g].filters| > 0
    ensures forall k :: 0 <= k < |a| ==> r[(a + (b + c))[k]].sock != segs[g].sock
    ensures r[(a + (b + c))[|a|]].sock == segs[g].sock
  {
    FlatAt(segs, g);
    DropAt(segs, g);
    FlatAbsent(segs[..g], segs[g].sock);
    var es, f := EntriesOf(r, a + (b + c)), Flat(segs[..g]);
    assert es[|a|] == SegEntries(segs[g])[0];
    forall k | 0 <= k < |a| ensures r[(a + (b + c))[k]].sock != segs[g].sock {
      assert es[k] == f[k];
    }
  }

  lemma RestEntries(r: seq<Recv>, a: seq<int>, b: seq<int>, c: seq<int>, segs: seq<Segment>, g: nat)
    requires InRange(r, a + (b + c)) && EntriesOf(r, a + (b + c)) == Flat(segs) && DistinctSocks(segs)
    requires g < |segs| && |a| == |Flat(segs[..g])| && |b| == |segs[g].filters|
    ensures InRange(r, a + c) && EntriesOf(r, a + c) == Flat(Drop(segs, segs[g].sock))
  {
    PartsInRange(r, a, b, c);
    FlatAt(segs, g);
    DropAt(segs, g);
    SameParts(EntriesOf(r, a), EntriesOf(r, b), EntriesOf(r, c),
              Flat(segs[..g]), SegEntries(segs[g]), Flat(segs[g + 1..]));
  }

  lemma SameParts<T>(a: seq<T>, b: seq<T>, c: seq<T>, x: seq<T>, y: seq<T>, z: seq<T>)
    requires a + (b + c) == x + (y + z) && |a| == |x| && |b| == |y|
    ensures a == x && b == y && c == z
  {
    var l := a + (b + c);
    assert a == l[..|a|] && b == l[|a|..|a| + |b|] && c == l[|a| + |b|..];
    assert x == l[..|a|] && y == l[|a|..|a| + |b|] && z == l[|a| + |b|..];
  }

  lemma HitsStep(es: seq<Entry>, k: nat, id: CanId)
    requires k < |es|
    ensures Hits(es[..k + 1], id) == Hits(es[..k], id) + if Accept(id, es[k].filter) then [es[k].sock] else []
  {
    HitsConcat(es[..k], [es[k]], id);
    assert es[..k + 1] == es[..k] + [es[k]];
  }

  /** The indices below `n`, in order. */
  function Count(n: nat): (l: seq<int>)
    ensures |l| == n && forall k :: 0 <= k < n ==> l[k] == k
    ensures OnceEach(multiset(l), n)
  {
    if n == 0 then [] else Count(n - 1) + [n - 1]
  }
}
