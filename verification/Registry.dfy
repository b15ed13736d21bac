/** The table of registered CAN devices: slots, names and reference counts. */
module Registry {
  import opened Collections

  const IFNAMSIZ := 16

  datatype Dev = Dev(id: nat, name: string, ifindex: int, refcount: int)

  /** The name a driver asks for: fixed, or with one "%d" between two parts. */
  datatype NameMask = Fixed(name: string) | Template(prefix: string, suffix: string)

  datatype Code = OK | ENOMEM | EEXIST

  /** The mask fits in `name[IFNAMSIZ]`, terminator included. */
  predicate FitsName(m: NameMask) {
    match m
    case Fixed(name) => |name| < IFNAMSIZ
    case Template(p, q) => |p| + 2 + |q| < IFNAMSIZ
  }

  function Digit(d: nat): char
    requires d < 10
  {
    "0123456789"[d]
  }

  function Decimal(n: nat): string {
    if n < 10 then [Digit(n)] else Decimal(n / 10) + [Digit(n % 10)]
  }

  /** snprintf into a buffer of IFNAMSIZ bytes. */
  function Print(p: string, n: nat, q: string): string {
    var s := p + Decimal(n) + q;
    if |s| < IFNAMSIZ then s else s[..IFNAMSIZ - 1]
  }

  /** The number that a string of decimal digits stands for. */
  function Value(s: string): int {
    if s == [] then 0 else 10 * Value(s[..|s| - 1]) + (s[|s| - 1] as int - '0' as int)
  }

  /** "%d" prints the number, without leading zeros. */
  lemma {:induction false} DecimalValue(n: nat)
    ensures Value(Decimal(n)) == n
    ensures forall k :: 0 <= k < |Decimal(n)| ==> '0' <= Decimal(n)[k] <= '9'
    ensures n > 0 ==> Decimal(n)[0] != '0'
  {
    if n >= 10 {
      DecimalValue(n / 10);
      assert Decimal(n)[..|Decimal(n)| - 1] == Decimal(n / 10);
    }
  }

  lemma {:induction false} DecimalInjective(a: nat, b: nat)
    requires Decimal(a) == Decimal(b)
    ensures a == b
  {
    var s := Decimal(a);
    assert s[|s| - 1] == Digit(a % 10) == Digit(b % 10);
    if a >= 10 && b >= 10 {
      assert Decimal(a / 10) == s[..|s| - 1] == Decimal(b / 10);
      DecimalInjective(a / 10, b / 10);
    }
  }

  /** Larger numbers are not shorter. */
  lemma {:induction false} DecimalLonger(a: nat, b: nat)
    requires a <= b
    ensures |Decimal(a)| <= |Decimal(b)|
  {
    if a >= 10 {
      DecimalLonger(a / 10, b / 10);
    }
  }

  /** Leading digits are a smaller number. */
  lemma {:induction false} LeadingDigits(n: nat, j: nat) returns (m: nat)
    requires 0 < j < |Decimal(n)|
    ensures m < n && Decimal(m) == Decimal(n)[..j]
  {
    var s := Decimal(n / 10);
    assert Decimal(n)[..|s|] == s;
    if j == |s| {
      m := n / 10;
    } else {
      m := LeadingDigits(n / 10, j);
      assert Decimal(n)[..j] == s[..j];
    }
  }

  /** The names for the numbers below `max` fit in IFNAMSIZ bytes. */
  predicate AllFit(p: string, q: string, max: nat) {
    max == 0 || |p| + |Decimal(max - 1)| + |q| < IFNAMSIZ
  }

  /** Names that are not cut off are different for different numbers. */
  lemma PrintInjective(p: string, q: string, max: nat, a: nat, b: nat)
    requires AllFit(p, q, max) && a < max && b < max && Print(p, a, q) == Print(p, b, q)
    ensures a == b
  {
    DecimalLonger(a, max - 1);
    DecimalLonger(b, max - 1);
    var s, t := p + Decimal(a) + q, p + Decimal(b) + q;
    assert s == t;
    assert s[|p|..|s| - |q|] == Decimal(a) && t[|p|..|t| - |q|] == Decimal(b);
    DecimalInjective(a, b);
  }

  /** For masks that end in "%d", as all drivers use them, that is the exact condition. */
  lemma PrintInjectiveIff(p: string, max: nat)
    requires FitsName(Template(p, ""))
    ensures AllFit(p, "", max) <==>
            forall a, b :: 0 <= a < max && 0 <= b < max && Print(p, a, "") == Print(p, b, "") ==> a == b
  {
    if AllFit(p, "", max) {
      forall a, b | 0 <= a < max && 0 <= b < max && Print(p, a, "") == Print(p, b, "") ensures a == b {
        PrintInjective(p, "", max, a, b);
      }
    } else {
      var n, j := max - 1, IFNAMSIZ - 1 - |p|;
      var m := LeadingDigits(n, j);
      assert p + Decimal(m) + "" == p + Decimal(m);
      assert (p + Decimal(n) + "")[..IFNAMSIZ - 1] == p + Decimal(n)[..j];
      assert Print(p, m, "") == Print(p, n, "");
    }
  }

  ghost predicate Occupied(slots: seq<Option<Dev>>, i: int) { 0 <= i < |slots| && slots[i].Some? }

  /** Slot, name and identity of every device, and its reference count, are as they should be. */
  ghost predicate Sound(slots: seq<Option<Dev>>, held: multiset<nat>) {
    && (forall i :: Occupied(slots, i) ==>
          slots[i].value.ifindex == i + 1 && slots[i].value.refcount == held[slots[i].value.id])
    && (forall i, j :: Occupied(slots, i) && Occupied(slots, j) && i != j ==>
          slots[i].value.name != slots[j].value.name && slots[i].value.id != slots[j].value.id)
    && (forall d :: d in held ==> exists i :: Occupied(slots, i) && slots[i].value.id == d)
  }

  ghost predicate Taken(slots: seq<Option<Dev>>, name: string) {
    exists i :: Occupied(slots, i) && slots[i].value.name == name
  }

  /** The names for all numbers below `n` are in use. */
  ghost predicate AllTaken(slots: seq<Option<Dev>>, p: string, q: string, n: nat) {
    forall k :: 0 <= k < n ==> Taken(slots, Print(p, k, q))
  }

  /** The device would get a name that is in use. */
  ghost predicate Clashes(slots: seq<Option<Dev>>, mask: NameMask) {
    match mask
    case Fixed(name) => Taken(slots, name)
    case Template(p, q) => AllTaken(slots, p, q, |slots|) && Taken(slots, p + "%d" + q)
  }

  /** There are at most n different slots below n. */
  lemma {:induction false} Pigeonhole(at: seq<int>, n: nat)
    requires Distinct(at) && forall k :: 0 <= k < |at| ==> 0 <= at[k] < n
    ensures |at| <= n
    decreases n
  {
    assert |at| > 0 ==> at[0] < n;
    if n == 0 {
    } else if k :| 0 <= k < |at| && at[k] == n - 1 {
      Pigeonhole(at[..k] + at[k + 1..], n - 1);
    } else {
      Pigeonhole(at, n - 1);
    }
  }

  /** While a slot is free, one of the numbers below the table size gives a free name. */
  lemma FreshNumber(slots: seq<Option<Dev>>, p: string, q: string, free: nat)
    requires free < |slots| && slots[free].None? && AllFit(p, q, |slots|)
    ensures exists n :: 0 <= n < |slots| && !Taken(slots, Print(p, n, q))
  {
    hide Print;
    if forall n :: 0 <= n < |slots| ==> Taken(slots, Print(p, n, q)) {
      var at: seq<int> := [];
      while |at| < |slots|
        invariant |at| <= |slots|
        invariant forall k :: 0 <= k < |at| ==> Occupied(slots, at[k]) && slots[at[k]].value.name == Print(p, k, q)
      {
        assert Taken(slots, Print(p, |at|, q));
        var i :| Occupied(slots, i) && slots[i].value.name == Print(p, |at|, q);
        at := at + [i];
      }
      forall j, k | 0 <= j < k < |at| ensures at[j] != at[k] {
        if at[j] == at[k] { PrintInjective(p, q, |slots|, j, k); }
      }
      Pigeonhole(at + [free], |slots|);
      assert false;
    }
  }

  /** The first number that gives its name. */
  predicate FirstFor(p: string, k: nat) { forall j :: 0 <= j < k ==> Print(p, j, "") != Print(p, k, "") }

  lemma {:induction false} FirstWith(p: string, k: nat) returns (j: nat)
    ensures j <= k && FirstFor(p, j) && Print(p, j, "") == Print(p, k, "")
  {
    hide Print;
    if i :| 0 <= i < k && Print(p, i, "") == Print(p, k, "") {
      j := FirstWith(p, i);
    } else {
      j := k;
    }
  }

  /** A table in which every name for the mask is in use, one device for each. */
  function Exhausted(p: string, max: nat): (slots: seq<Option<Dev>>)
    ensures |slots| == max
  {
    seq(max, k requires 0 <= k < max => if FirstFor(p, k) then Some(Dev(k, Print(p, k, ""), k + 1, 0)) else None)
  }

  lemma ExhaustedSound(p: string, max: nat)
    ensures Sound(Exhausted(p, max), multiset{}) && AllTaken(Exhausted(p, max), p, "", max)
  {
    hide Print;
    var slots := Exhausted(p, max);
    forall k | 0 <= k < max ensures Taken(slots, Print(p, k, "")) {
      var j := FirstWith(p, k);
      assert Occupied(slots, j) && slots[j].value.name == Print(p, k, "");
    }
  }

  /** Every sound table of this size with a free slot has a number that gives a free name. */
  ghost predicate AlwaysFresh(p: string, max: nat) {
    forall slots, held :: |slots| == max && Sound(slots, held) && HasRoom(slots) ==> !AllTaken(slots, p, "", max)
  }

  ghost predicate HasRoom(slots: seq<Option<Dev>>) { exists f :: 0 <= f < |slots| && slots[f].None? }

  /** A mask that ends in "%d" always gets a fresh name while a slot is free, if and only if all its
      names fit. */
  lemma FreshIff(p: string, max: nat)
    requires FitsName(Template(p, ""))
    ensures AllFit(p, "", max) <==> AlwaysFresh(p, max)
  {
    hide Print, Sound;
    if AllFit(p, "", max) {
      forall slots: seq<Option<Dev>>, held | |slots| == max && Sound(slots, held) && HasRoom(slots)
        ensures !AllTaken(slots, p, "", max)
      {
        var free :| 0 <= free < |slots| && slots[free].None?;
        FreshNumber(slots, p, "", free);
      }
    } else {
      PrintInjectiveIff(p, max);
      var a, b :| 0 <= a < max && 0 <= b < max && Print(p, a, "") == Print(p, b, "") && a != b;
      ExhaustedSound(p, max);
      var repeated := if a < b then b else a;
      assert Exhausted(p, max)[repeated].None?;
    }
  }

  function Pow10(d: nat): nat { if d == 0 then 1 else 10 * Pow10(d - 1) }

  lemma {:induction false} DecimalLength(n: nat, d: nat)
    requires 0 < d && n < Pow10(d)
    ensures |Decimal(n)| <= d
  {
    if n >= 10 {
      DecimalLength(n / 10, d - 1);
    }
  }

  /** The mask of all drivers in the repository never runs out, whatever the size of the table. */
  lemma DriverMaskFits(max: nat)
    requires max <= 0x7fff_ffff
    ensures FitsName(Template("rtcan", "")) && AllFit("rtcan", "", max) && AlwaysFresh("rtcan", max)
  {
    if max > 0 {
      assert Pow10(10) == 10_000_000_000;
      DecimalLength(max - 1, 10);
    }
    FreshIff("rtcan", max);
  }

  class Table {
    var slots: seq<Option<Dev>>
    ghost var held: multiset<nat>  // outstanding references, by device

    ghost predicate Valid()
      reads this
    {
      Sound(slots, held)
    }

    constructor (max: nat)
      ensures Valid() && |slots| == max && held == multiset{} && forall i :: 0 <= i < max ==> slots[i].None?
    {
      slots, held := seq(max, _ => None), multiset{};
    }

    /** __rtcan_dev_get_by_name: the slot, or -1. */
    method Find(name: string) returns (i: int)
      ensures -1 <= i < |slots|
      ensures i >= 0 ==> Occupied(slots, i) && slots[i].value.name == name
      ensures i < 0 ==> !Taken(slots, name)
    {
      i := 0;
      while i < |slots|
        invariant 0 <= i <= |slots|
        invariant forall j :: 0 <= j < i && slots[j].Some? ==> slots[j].value.name != name
      {
        if slots[i].Some? && slots[i].value.name == name {
          return;
        }
        i := i + 1;
      }
      i := -1;
    }

    /** __rtcan_dev_new_index: the first free slot, or -1. */
    method NewSlot() returns (i: int)
      ensures -1 <= i < |slots|
      ensures i >= 0 ==> slots[i].None? && forall j :: 0 <= j < i ==> slots[j].Some?
      ensures i < 0 ==> forall j :: 0 <= j < |slots| ==> slots[j].Some?
    {
      i := 0;
      while i < |slots|
        invariant 0 <= i <= |slots| && forall j :: 0 <= j < i ==> slots[j].Some?
      {
        if slots[i].None? {
          return;
        }
        i := i + 1;
      }
      i := -1;
    }

    /** atomic_inc and atomic_dec of a device's refcount. */
    method Reference(i: int)
      requires Valid() && Occupied(slots, i)
      modifies this
      ensures Valid() && held == old(held) + multiset{old(slots[i].value.id)}
      ensures slots == old(slots)[i := Some(old(slots[i].value).(refcount := old(slots[i].value.refcount) + 1))]
    {
      var d := slots[i].value;
      held := held + multiset{d.id};
      slots := slots[i := Some(d.(refcount := d.refcount + 1))];
      Recounted(old(slots), slots, old(held), held, i);
    }

    method Dereference(i: int)
      requires Valid() && Occupied(slots, i) && slots[i].value.id in held
      modifies this
      ensures Valid() && held == old(held) - multiset{old(slots[i].value.id)}
      ensures slots == old(slots)[i := Some(old(slots[i].value).(refcount := old(slots[i].value.refcount) - 1))]
    {
      var d := slots[i].value;
      held := held - multiset{d.id};
      slots := slots[i := Some(d.(refcount := d.refcount - 1))];
      Recounted(old(slots), slots, old(held), held, i);
    }

    /** rtcan_dev_get_by_name: the device is found exactly when the name is registered. */
    method GetByName(name: string) returns (i: int)
      requires Valid()
      modifies this
      ensures Valid() && -1 <= i < |slots| == |old(slots)|
      ensures i >= 0 <==> old(Taken(slots, name))
      ensures i < 0 ==> slots == old(slots) && held == old(held)
      ensures i >= 0 ==>
        && Occupied(slots, i) && slots[i].value.name == name
        && held == old(held) + multiset{slots[i].value.id}
        && slots == old(slots)[i := slots[i]]
        && old(slots[i]) == Some(slots[i].value.(refcount := slots[i].value.refcount - 1))
    {
      i := Find(name);
      if i >= 0 {
        Reference(i);
      }
    }

    /** rtcan_dev_get_by_index: the slot of the device with this interface index, or -1. */
    method GetByIndex(ifindex: int) returns (i: int)
      requires Valid()
      modifies this
      ensures Valid() && -1 <= i < |slots| == |old(slots)|
      ensures i >= 0 <==> exists j :: old(Occupied(slots, j)) && old(slots[j].value.ifindex) == ifindex
      ensures i < 0 ==> slots == old(slots) && held == old(held)
      ensures i >= 0 ==>
        && Occupied(slots, i) && slots[i].value.ifindex == ifindex
        && held == old(held) + multiset{slots[i].value.id}
        && slots == old(slots)[i := slots[i]]
        && old(slots[i]) == Some(slots[i].value.(refcount := slots[i].value.refcount - 1))
    {
      if ifindex <= 0 || ifindex > |slots| || slots[ifindex - 1].None? {
        return -1;
      }
      i := ifindex - 1;
      assert Occupied(slots, i);
      Reference(i);
    }

    /** rtcan_dev_alloc_name: the first number that gives a free name. If there is none, the device
        keeps the mask itself as its name. */
    method AllocName(p: string, q: string, ghost free: nat) returns (name: string)
      requires Valid() && free < |slots| && slots[free].None?
      modifies this
      ensures Valid() && slots == old(slots) && held == old(held)
      ensures if AllTaken(slots, p, q, |slots|) then name == p + "%d" + q
              else exists n :: 0 <= n < |slots| && name == Print(p, n, q) && !Taken(slots, name)
                               && AllTaken(slots, p, q, n)
      ensures AllFit(p, q, |slots|) ==> !AllTaken(slots, p, q, |slots|)
    {
      hide Sound, Taken, Print;
      if AllFit(p, q, |slots|) {
        FreshNumber(slots, p, q, free);
      }
      name := p + "%d" + q;
      var i := 0;
      while i < |slots|
        invariant 0 <= i <= |slots| && Valid() && slots == old(slots) && held == old(held)
        invariant AllTaken(slots, p, q, i) && name == p + "%d" + q
      {
        var buf := Print(p, i, q);
        var found := Probe(buf);
        if !found {
          name := buf;
          return;
        }
        i := i + 1;
      }
    }

    /** A lookup whose reference is dropped at once. */
    method Probe(name: string) returns (found: bool)
      requires Valid()
      modifies this
      ensures Valid() && slots == old(slots) && held == old(held)
      ensures found <==> Taken(slots, name)
    {
      hide Sound, Taken;
      var i := GetByName(name);
      found := i >= 0;
      if found {
        Dereference(i);
      }
    }

    /** rtcan_dev_register. */
    method Register(id: nat, mask: NameMask) returns (code: Code, slot: int)
      requires Valid() && FitsName(mask)
      requires forall i :: Occupied(slots, i) ==> slots[i].value.id != id
      modifies this
      ensures Valid() && held == old(held)
      ensures code == ENOMEM <==> forall j :: 0 <= j < |old(slots)| ==> old(slots)[j].Some?
      ensures code == EEXIST <==> HasRoom(old(slots)) && Clashes(old(slots), mask)
      ensures mask.Template? && AllFit(mask.prefix, mask.suffix, |old(slots)|) ==> code != EEXIST
      ensures code != OK ==> slots == old(slots)
      ensures code == OK ==>
        && 0 <= slot < |slots| == |old(slots)| && old(slots)[slot].None? && slots[slot].Some?
        && slots == old(slots)[slot := slots[slot]]
        && (forall j :: 0 <= j < slot ==> old(slots)[j].Some?)
        && slots[slot].value.id == id && slots[slot].value.ifindex == slot + 1
        && !Taken(old(slots), slots[slot].value.name)
        && |slots[slot].value.name| < IFNAMSIZ
        && (match mask
            case Fixed(s) => slots[slot].value.name == s
            case Template(p, q) =>
              if AllTaken(old(slots), p, q, |slots|) then slots[slot].value.name == p + "%d" + q
              else exists n :: 0 <= n < |slots| && slots[slot].value.name == Print(p, n, q)
                               && AllTaken(old(slots), p, q, n))
    {
      slot := NewSlot();
      if slot < 0 {
        return ENOMEM, slot;
      }
      var name;
      match mask {
        case Fixed(s) => name := s;
        case Template(p, q) => name := AllocName(p, q, slot);
      }
      var clash := Find(name);
      if clash >= 0 {
        return EEXIST, slot;
      }
      Unreferenced(slots, held, id);
      slots := slots[slot := Some(Dev(id, name, slot + 1, 0))];
      Added(old(slots), slots, held, slot);
      code := OK;
    }

    /** One turn of the loop of rtcan_dev_unregister: the device goes only when nobody refers to it. */
    method TryUnregister(i: int) returns (done: bool)
      requires Valid() && Occupied(slots, i)
      modifies this
      ensures Valid() && held == old(held)
      ensures done <==> old(slots[i].value.id) !in held
      ensures slots == if done then old(slots)[i := None] else old(slots)
    {
      done := slots[i].value.refcount <= 0;
      if done {
        ghost var was := slots;
        slots := slots[i := None];
        Removed(was, slots, held, i);
      }
    }
  }

  lemma Unreferenced(slots: seq<Option<Dev>>, held: multiset<nat>, id: nat)
    requires Sound(slots, held) && forall i :: Occupied(slots, i) ==> slots[i].value.id != id
    ensures id !in held
  {
  }

  /** A reference taken or dropped is counted on both sides. */
  lemma Recounted(was: seq<Option<Dev>>, now: seq<Option<Dev>>, held: multiset<nat>, held': multiset<nat>, i: int)
    requires Sound(was, held) && Occupied(was, i)
    requires var d := was[i].value;
      && now == was[i := Some(d.(refcount := held'[d.id]))]
      && forall x :: x != d.id ==> held'[x] == held[x]
    ensures Sound(now, held')
  {
    assert forall j :: Occupied(now, j) <==> Occupied(was, j);
    forall d | d in held' ensures exists j :: Occupied(now, j) && now[j].value.id == d {
      if d == was[i].value.id {
        assert Occupied(now, i);
      } else {
        assert d in held;
        var j :| Occupied(was, j) && was[j].value.id == d;
        assert Occupied(now, j);
      }
    }
  }

  lemma Added(was: seq<Option<Dev>>, now: seq<Option<Dev>>, held: multiset<nat>, slot: int)
    requires Sound(was, held) && 0 <= slot < |was| == |now| && was[slot].None? && now[slot].Some?
    requires now == was[slot := now[slot]]
    requires var d := now[slot].value;
      && d.ifindex == slot + 1 && d.refcount == 0 && d.id !in held && !Taken(was, d.name)
      && forall i :: Occupied(was, i) ==> was[i].value.id != d.id
    ensures Sound(now, held)
  {
    forall d | d in held ensures exists j :: Occupied(now, j) && now[j].value.id == d {
      var j :| Occupied(was, j) && was[j].value.id == d;
      assert Occupied(now, j);
    }
  }

  lemma Removed(was: seq<Option<Dev>>, now: seq<Option<Dev>>, held: multiset<nat>, i: int)
    requires Sound(was, held) && Occupied(was, i) && was[i].value.refcount <= 0 && now == was[i := None]
    ensures Sound(now, held)
  {
    forall d | d in held ensures exists j :: Occupied(now, j) && now[j].value.id == d {
      var j :| Occupied(was, j) && was[j].value.id == d;
      assert Occupied(now, j);
    }
  }
}
