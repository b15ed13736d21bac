/** How a frame is laid out in a socket's receive buffer: `struct rtcan_rb_frame` with as many data
    bytes as the frame has, then the timestamp if there is one. */
module FrameBytes {
  import opened Collections
  import opened Filters

  datatype Order = LittleEndian | BigEndian

  type Stamp = s: seq<bv8> | |s| == 8 witness [0, 0, 0, 0, 0, 0, 0, 0]

  /** A received frame as the controllers hand it over: DLC 0..15, and the bytes that count. */
  datatype Frame = Frame(id: CanId, ifindex: bv8, dlc: nat, data: seq<bv8>)

  /** A frame in the buffer. */
  datatype Stored = Stored(frame: Frame, stamp: Option<Stamp>)

  function PayloadSize(rtr: bool, dlc: nat): nat {
    if rtr then 0 else if dlc > 8 then 8 else dlc
  }

  predicate WellSized(f: Frame) { f.dlc <= 15 && |f.data| == PayloadSize(f.id.rtr, f.dlc) }

  function Low8(x: bv29): bv8 { (x & 0xff) as bv8 }

  function Wide(x: bv8): bv29 { x as bv29 }

  function Flags(eff: bool, rtr: bool, err: bool): bv8 {
    (if eff then 0x80 else 0) | (if rtr then 0x40 else 0) | (if err then 0x20 else 0)
  }

  function Byte1(n: bv29): bv8 { Low8(n >> 8) }
  function Byte2(n: bv29): bv8 { Low8(n >> 16) }

  /** The byte of the ID word that holds its three flags. */
  function Byte3(n: bv29, flags: bv8): bv8 { Low8(n >> 24) | flags }

  predicate FlagsOnly(b: bv8) { b & 0x1f == 0 }
  predicate EffBit(b: bv8) { b & 0x80 != 0 }
  predicate RtrBit(b: bv8) { b & 0x40 != 0 }
  predicate ErrBit(b: bv8) { b & 0x20 != 0 }

  function NumOf(b0: bv8, b1: bv8, b2: bv8, b3: bv8): bv29 {
    Wide(b0) | (Wide(b1) << 8) | (Wide(b2) << 16) | (Wide(b3 & 0x1f) << 24)
  }

  function IdOf(b0: bv8, b1: bv8, b2: bv8, b3: bv8): CanId {
    CanId(EffBit(b3), RtrBit(b3), ErrBit(b3), NumOf(b0, b1, b2, b3))
  }

  /** The ID word in memory. */
  function IdBytes(id: CanId, order: Order): seq<bv8> {
    var b0, b1, b2, b3 := Low8(id.num), Byte1(id.num), Byte2(id.num), Byte3(id.num, Flags(id.eff, id.rtr, id.err));
    if order == LittleEndian then [b0, b1, b2, b3] else [b3, b2, b1, b0]
  }

  function IdFromBytes(b: seq<bv8>, order: Order): CanId
    requires |b| == 4
  {
    if order == LittleEndian then IdOf(b[0], b[1], b[2], b[3]) else IdOf(b[3], b[2], b[1], b[0])
  }

  lemma FlagBits(eff: bool, rtr: bool, err: bool)
    ensures var f := Flags(eff, rtr, err);
      FlagsOnly(f) && EffBit(f) == eff && RtrBit(f) == rtr && ErrBit(f) == err
  {
  }

  lemma NumBytes(n: bv29, flags: bv8)
    requires FlagsOnly(flags)
    ensures NumOf(Low8(n), Byte1(n), Byte2(n), Byte3(n, flags)) == n
  {
  }

  lemma TopBits(n: bv29, flags: bv8)
    ensures var top := Byte3(n, flags);
      EffBit(top) == EffBit(flags) && RtrBit(top) == RtrBit(flags) && ErrBit(top) == ErrBit(flags)
  {
  }

  lemma IdRoundTrip(id: CanId, order: Order)
    ensures |IdBytes(id, order)| == 4 && IdFromBytes(IdBytes(id, order), order) == id
  {
    hide Low8, Byte1, Byte2, Byte3, NumOf, Flags, FlagsOnly, EffBit, RtrBit, ErrBit;
    var flags := Flags(id.eff, id.rtr, id.err);
    FlagBits(id.eff, id.rtr, id.err);
    NumBytes(id.num, flags);
    TopBits(id.num, flags);
  }

  /** The eight bits of the number from bit `k` on; the bits of a byte that `k` bits of the number leave. */
  function ByteAt(n: bv29, k: nat): bv8
    requires k <= 21
  {
    Low8(n >> k)
  }

  function ByteAbove(n: bv29, k: nat): bv8
    requires k <= 8
  {
    Low8(n << k)
  }

  lemma WordBytes(n: bv29)
    ensures Low8(n) == ByteAt(n, 0) && Byte1(n) == ByteAt(n, 8) && Byte2(n) == ByteAt(n, 16)
  {
  }

  /** Where the ID word is in memory. */
  lemma IdLayout(id: CanId)
    ensures var l, b := IdBytes(id, LittleEndian), IdBytes(id, BigEndian);
      && |l| == 4 && b == [l[3], l[2], l[1], l[0]]
      && l[0] == ByteAt(id.num, 0) && l[1] == ByteAt(id.num, 8) && l[2] == ByteAt(id.num, 16)
      && EffBit(l[3]) == id.eff && RtrBit(l[3]) == id.rtr && ErrBit(l[3]) == id.err
  {
    hide Low8, Byte1, Byte2, Byte3, ByteAt, Flags, FlagsOnly, EffBit, RtrBit, ErrBit;
    WordBytes(id.num);
    FlagBits(id.eff, id.rtr, id.err);
    TopBits(id.num, Flags(id.eff, id.rtr, id.err));
  }

  /** The DLC byte, with the mark RTCAN_HAS_TIMESTAMP. */
  function DlcByte(dlc: nat, stamped: bool): bv8
    requires dlc <= 15
  {
    (dlc as bv8) | (if stamped then 0x80 else 0)
  }

  function DlcOf(b: bv8): nat { (b & 0x7f) as nat }

  predicate HasStamp(b: bv8) { b & 0x80 != 0 }

  lemma DlcRoundTrip(dlc: nat, stamped: bool)
    requires dlc <= 15
    ensures DlcOf(DlcByte(dlc, stamped)) == dlc && HasStamp(DlcByte(dlc, stamped)) == stamped
  {
    var d: bv8 := dlc as bv8;
    assert d <= 15;
    DlcBits(d);
  }

  lemma DlcBits(d: bv8)
    requires d <= 15
    ensures (d | 0x80) & 0x7f == d && d & 0x7f == d && (d | 0x80) & 0x80 != 0 && d & 0x80 == 0
  {
  }
}
