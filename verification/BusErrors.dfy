/** The throttle on SJA1000 bus-error frames: a counter that enabling sets and each bus-error
    interrupt decrements. The counter is a `char`, which wraps at its lower end. */
module BusErrors {

  /** The values of `char`: -128..127 where it is signed, 0..255 where it is not. */
  datatype CharRange = CharRange(lo: int, hi: int)

  predicate IsRange(c: CharRange) { c.lo <= 0 && 4 <= c.hi }

  /** A call of rtcan_sja_enable_bus_err, or an error interrupt with or without the bus-error bit. */
  datatype Event = Enable | Interrupt(busError: bool)

  const BUS_ERROR := Interrupt(true)

  function After(c: CharRange, on: int, e: Event): int {
    match e
    case Enable => if on < 2 then 2 else on
    case Interrupt(busError) => if !busError then on else if on == c.lo then c.hi else on - 1
  }

  /** A bus-error frame is passed out to the sockets. */
  predicate Passes(on: int, e: Event) { e == BUS_ERROR && on >= 2 }

  class Chip {
    const range: CharRange
    var busErrOn: int
    ghost var enabled: nat  // calls of EnableBusErr
    ghost var passed: nat   // bus-error frames passed out
    ghost var since: nat    // bus errors since the last enable, and one more before the first
    ghost var calm: bool    // the counter has not wrapped

    /** Unless the counter has wrapped, no more bus-error frames have been passed than enabled. */
    ghost predicate Valid()
      reads this
    {
      && IsRange(range)
      && (calm ==> busErrOn == 2 - since >= range.lo && passed + (if since == 0 then 1 else 0) <= enabled)
    }

    constructor (c: CharRange)
      requires IsRange(c)
      ensures Valid() && range == c && enabled == passed == 0 && since == 1 && calm
    {
      range, busErrOn, enabled, passed, since, calm := c, 1, 0, 0, 1, true;
    }

    method EnableBusErr()
      requires Valid()
      modifies this
      ensures Valid() && since == 0 && enabled == old(enabled) + 1 && passed == old(passed) && calm == old(calm)
    {
      if busErrOn < 2 {
        busErrOn := 2;
      }
      since, enabled := 0, enabled + 1;
    }

    /** The guard of the error branch of rtcan_sja_interrupt: of the bus errors after an enable the
        first is passed out and no other, until there have been so many that the counter wraps. */
    method ErrorInterrupt(busError: bool) returns (handled: bool)
      requires Valid()
      modifies this
      ensures Valid() && enabled == old(enabled)
      ensures !busError ==> handled && since == old(since) && passed == old(passed) && calm == old(calm)
      ensures busError ==>
        && since == old(since) + 1 && passed == old(passed) + (if handled then 1 else 0)
        && calm == (old(calm) && since <= 2 - range.lo)
        && (old(calm) ==> (handled <==> old(since) == 0))
    {
      handled := true;
      if busError {
        handled := busErrOn >= 2;
        calm := calm && busErrOn != range.lo;
        busErrOn := if busErrOn == range.lo then range.hi else busErrOn - 1;
        since, passed := since + 1, passed + if handled then 1 else 0;
      }
    }
  }

  function Passed(c: CharRange, on: int, es: seq<Event>): nat
    decreases |es|
  {
    if es == [] then 0 else (if Passes(on, es[0]) then 1 else 0) + Passed(c, After(c, on, es[0]), es[1..])
  }

  function Enables(es: seq<Event>): nat {
    if es == [] then 0 else (if es[0].Enable? then 1 else 0) + Enables(es[1..])
  }

  /** At most one bus-error frame is passed after each enable, none before the first; `owed` says
      that one may still come. */
  predicate OnePerEnable(c: CharRange, on: int, owed: bool, es: seq<Event>)
    decreases |es|
  {
    es == [] ||
    var e := es[0];
    (Passes(on, e) ==> owed) && OnePerEnable(c, After(c, on, e), e.Enable? || (owed && !Passes(on, e)), es[1..])
  }

  /** No more than `limit` bus errors come without an enable in between; `since` have come already. */
  predicate Bursts(since: nat, limit: nat, es: seq<Event>)
    decreases |es|
  {
    since <= limit &&
    (es == [] || Bursts(if es[0].Enable? then 0 else if es[0].busError then since + 1 else since, limit, es[1..]))
  }

  /** One per enable bounds the total. */
  lemma {:induction false} Total(c: CharRange, on: int, owed: bool, es: seq<Event>)
    requires OnePerEnable(c, on, owed, es)
    ensures Passed(c, on, es) <= Enables(es) + if owed then 1 else 0
    decreases |es|
  {
    if es != [] {
      Total(c, After(c, on, es[0]), es[0].Enable? || (owed && !Passes(on, es[0])), es[1..]);
    }
  }

  /** While bursts are short enough for the counter, the throttle works from any counter it reaches. */
  lemma {:induction false} Throttled(c: CharRange, on: int, es: seq<Event>)
    requires IsRange(c) && c.lo <= on <= 2 && Bursts(2 - on, 2 - c.lo, es)
    ensures OnePerEnable(c, on, on == 2, es)
    ensures Passed(c, on, es) <= Enables(es) + if on == 2 then 1 else 0
    decreases |es|
  {
    if es != [] {
      Throttled(c, After(c, on, es[0]), es[1..]);
    }
    Total(c, on, on == 2, es);
  }

  function Errors(n: nat): seq<Event> { if n == 0 then [] else [BUS_ERROR] + Errors(n - 1) }

  lemma {:induction false} Drain(c: CharRange, on: int, n: nat, limit: nat, rest: seq<Event>)
    requires on <= 1 && c.lo <= on - n && 2 - on + n <= limit
    ensures OnePerEnable(c, on, false, Errors(n) + rest) <==> OnePerEnable(c, on - n, false, rest)
    ensures Bursts(2 - on, limit, Errors(n) + rest) <==> Bursts(2 - (on - n), limit, rest)
    decreases n
  {
    if n == 0 {
      assert Errors(0) + rest == rest;
    } else {
      assert (Errors(n) + rest)[1..] == Errors(n - 1) + rest;
      Drain(c, on - 1, n - 1, limit, rest);
    }
  }

  /** One bus error more without an enable wraps the counter; the next enable leaves it high, and
      two frames pass. */
  lemma Overflow(c: CharRange, limit: nat) returns (es: seq<Event>)
    requires IsRange(c) && limit > 2 - c.lo
    ensures Bursts(1, limit, es) && !OnePerEnable(c, 1, false, es)
  {
    var d := [BUS_ERROR];
    var k := [BUS_ERROR] + d;
    var b := [Enable] + k;
    var a := [BUS_ERROR] + b;
    es := Errors(1 - c.lo) + a;
    Drain(c, 1, 1 - c.lo, limit, a);
    assert d[1..] == [] && k[1..] == d && b[1..] == k && a[1..] == b;
    assert !OnePerEnable(c, c.hi - 1, false, d);
    assert !OnePerEnable(c, c.hi, true, k);
    assert !OnePerEnable(c, c.hi, false, b);
    assert Bursts(0, limit, k) by { assert Bursts(1, limit, d); }
  }

  /** From the initial counter the throttle holds over every sequence of events with bursts up to
      `limit` if and only if the counter can count them: 130 for a signed `char`, 2 for an unsigned one. */
  lemma ThrottledIff(c: CharRange, limit: nat)
    requires IsRange(c)
    ensures limit <= 2 - c.lo <==> forall es :: Bursts(1, limit, es) ==> OnePerEnable(c, 1, false, es)
  {
    if limit <= 2 - c.lo {
      forall es | Bursts(1, limit, es) ensures OnePerEnable(c, 1, false, es) {
        Wider(1, limit, 2 - c.lo, es);
        Throttled(c, 1, es);
      }
    } else {
      var es := Overflow(c, limit);
    }
  }

  lemma {:induction false} Wider(since: nat, limit: nat, more: nat, es: seq<Event>)
    requires limit <= more && Bursts(since, limit, es)
    ensures Bursts(since, more, es)
    decreases |es|
  {
    if es != [] {
      Wider(if es[0].Enable? then 0 else if es[0].busError then since + 1 else since, limit, more, es[1..]);
    }
  }
}
