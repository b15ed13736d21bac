/** CAN identifiers and the two readings of a receive filter: the documented rule on user filters,
    and the test rtcan_rcv makes on mounted ones. */
module Filters {

  /** A 32-bit CAN ID word: CAN_EFF_FLAG, CAN_RTR_FLAG, CAN_ERR_FLAG and the 29 bits below. In a
      filter the third flag is CAN_INV_FILTER. */
  datatype CanId = CanId(eff: bool, rtr: bool, err: bool, num: bv29)

  const ZERO_ID := CanId(false, false, false, 0)

  /** Bitwise `&` on the words. */
  function And(a: CanId, b: CanId): CanId {
    CanId(a.eff && b.eff, a.rtr && b.rtr, a.err && b.err, a.num & b.num)
  }

  predicate SingleBit(m: bv29) { m != 0 && m & (m - 1) == 0 }

  predicate Has(x: bv29, m: bv29) { x & m != 0 }

  /** Bit for bit. */
  lemma AndBits(a: CanId, b: CanId, m: bv29)
    requires SingleBit(m)
    ensures Has(And(a, b).num, m) <==> Has(a.num, m) && Has(b.num, m)
    ensures (And(a, b).eff <==> a.eff && b.eff) && (And(a, b).rtr <==> a.rtr && b.rtr)
    ensures And(a, b).err <==> a.err && b.err
  {
    hide SingleBit, Has;
    OneBit(a.num, b.num, m);
  }

  lemma OneBit(x: bv29, y: bv29, m: bv29)
    requires SingleBit(m)
    ensures Has(x & y, m) <==> Has(x, m) && Has(y, m)
  {
  }

  datatype Filter = Filter(id: CanId, mask: CanId)

  const ACCEPT_ALL := Filter(ZERO_ID, ZERO_ID)

  function Mount(f: Filter): Filter {
    if f.id.err then
      Filter(f.id.(err := false), f.mask.(err := true))
    else
      Filter(f.id, f.mask.(err := false))
  }

  predicate Accept(id: CanId, f: Filter) {
    if f.mask.err then And(id, f.mask) != f.id else And(id, f.mask) == f.id
  }

  /** The rule of the API documentation, on the filter the user passed in. */
  predicate Documented(id: CanId, f: Filter) {
    if f.id.err then And(id, f.mask) != f.id.(err := false) else And(id, f.mask) == f.id
  }

  /** Mounting loses nothing for the identifiers that reach the filters. */
  lemma MountedAccepts(id: CanId, f: Filter)
    requires !id.err
    ensures Accept(id, Mount(f)) <==> Documented(id, f)
  {
    var m := Mount(f).mask;
    assert And(id, m) == And(id, f.mask);
  }

  /** The entry mounted for a socket without user filters lets every frame through. */
  lemma DefaultAccepts(id: CanId)
    ensures Accept(id, ACCEPT_ALL)
  {
  }
}
