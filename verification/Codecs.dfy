/** Frames on their way into and out of the SJA1000 and MSCAN registers. */
module Codecs {
  import opened Collections
  import opened Filters
  import opened FrameBytes
  import opened RxRing

  /** `can_frame_t`, as rtcan_raw_sendmsg gets it. */
  datatype TxFrame = TxFrame(id: CanId, dlc: nat, data: seq<bv8>)

  /** The checks of rtcan_raw_sendmsg on the frame itself. */
  predicate SendOk(f: TxFrame) { |f.data| == 8 && f.dlc <= 15 && (!f.id.eff ==> f.id.num <= 0x7FF - 16) }

  function TxSize(f: TxFrame): nat { if f.dlc > 8 then 8 else f.dlc }

  /** What the receiver should be handed: the same ID and DLC, and the data bytes that count. */
  function Expected(f: TxFrame, ifindex: bv8): Frame
    requires SendOk(f)
  {
    Frame(f.id, ifindex, f.dlc, f.data[..PayloadSize(f.id.rtr, f.dlc)])
  }

  /* ---- bit fields of the SJA1000 ---- */

  function Fir(dlc: nat, eff: bool, rtr: bool): bv8
    requires dlc <= 15
  {
    (dlc as bv8) | (if eff then 0x80 else 0) | (if rtr then 0x40 else 0)
  }

  predicate FirEff(b: bv8) { b & 0x80 != 0 }
  predicate FirRtr(b: bv8) { b & 0x40 != 0 }
  function FirDlc(b: bv8): nat { (b & 15) as nat }

  lemma FirRoundTrip(dlc: nat, eff: bool, rtr: bool)
    requires dlc <= 15
    ensures var b := Fir(dlc, eff, rtr); FirEff(b) == eff && FirRtr(b) == rtr && FirDlc(b) == dlc
  {
    var d: bv8 := dlc as bv8;
    assert d <= 15;
    FirBits(d, if eff then 0x80 else 0, if rtr then 0x40 else 0);
  }

  lemma FirBits(d: bv8, e: bv8, r: bv8)
    requires d <= 15 && (e == 0 || e == 0x80) && (r == 0 || r == 0x40)
    ensures var b := d | e | r; b & 0x80 == e && b & 0x40 == r && b & 15 == d
  {
  }

  function Shr21(n: bv29): bv8 { Low8(n >> 21) }
  function Shr13(n: bv29): bv8 { Low8(n >> 13) }
  function Shr5(n: bv29): bv8 { Low8(n >> 5) }
  function Shr3(n: bv29): bv8 { Low8(n >> 3) }
  function Shl3(n: bv29): bv8 { Low8(n << 3) }
  function Shl5(n: bv29): bv8 { Low8(n << 5) }

  function SjaEffNum(a: bv8, b: bv8, c: bv8, d: bv8): bv29 {
    (Wide(a) << 21) | (Wide(b) << 13) | (Wide(c) << 5) | (Wide(d) >> 3)
  }

  function StdNum(a: bv8, b: bv8): bv29 { (Wide(a) << 3) | (Wide(b) >> 5) }

  lemma SjaEffRoundTrip(n: bv29)
    ensures SjaEffNum(Shr21(n), Shr13(n), Shr5(n), Shl3(n)) == n
  {
  }

  lemma SjaStdRoundTrip(n: bv29)
    requires n <= 0x7FF
    ensures StdNum(Shr3(n), Shl5(n)) == n
  {
  }

  /* ---- SJA1000 ---- */

  const SJA_FIR := 16
  const SJA_ID1 := 17
  const SJA_ID2 := 18
  const SJA_ID3 := 19
  const SJA_ID4 := 20
  const SJA_DATA_SFF := 19
  const SJA_DATA_EFF := 21

  function DataStart(eff: bool): nat { if eff then SJA_DATA_EFF else SJA_DATA_SFF }

  predicate SjaHoldsId(r: seq<bv8>, id: CanId)
    requires |r| == 32
  {
    if id.eff then
      && r[SJA_ID1] == Shr21(id.num) && r[SJA_ID2] == Shr13(id.num)
      && r[SJA_ID3] == Shr5(id.num) && r[SJA_ID4] == Shl3(id.num)
    else r[SJA_ID1] == Shr3(id.num) && r[SJA_ID2] == Shl5(id.num)
  }

  /** The transmit registers hold the frame. */
  predicate SjaHolds(r: seq<bv8>, f: TxFrame)
    requires |r| == 32 && |f.data| == 8 && f.dlc <= 15
  {
    && r[SJA_FIR] == Fir(f.dlc, f.id.eff, f.id.rtr)
    && SjaHoldsId(r, f.id)
    && (!f.id.rtr ==> r[DataStart(f.id.eff)..DataStart(f.id.eff) + TxSize(f)] == f.data[..TxSize(f)])
  }

  /** The frame a receiver reads from its registers. */
  function SjaDecoded(r: seq<bv8>, ifindex: bv8): Frame
    requires |r| == 32
  {
    var fir := r[SJA_FIR];
    var dlc := FirDlc(fir);
    var num := if FirEff(fir) then SjaEffNum(r[SJA_ID1], r[SJA_ID2], r[SJA_ID3], r[SJA_ID4])
               else StdNum(r[SJA_ID1], r[SJA_ID2]);
    var at := DataStart(FirEff(fir));
    Frame(CanId(FirEff(fir), FirRtr(fir), false, num), ifindex, dlc, r[at..at + PayloadSize(FirRtr(fir), dlc)])
  }

  lemma ShiftsAre(n: bv29)
    ensures Shr21(n) == ByteAt(n, 21) && Shr13(n) == ByteAt(n, 13) && Shr5(n) == ByteAt(n, 5)
    ensures Shr3(n) == ByteAt(n, 3) && Shl3(n) == ByteAbove(n, 3) && Shl5(n) == ByteAbove(n, 5)
  {
  }

  lemma FirIs(dlc: nat, eff: bool, rtr: bool)
    requires dlc <= 15
    ensures Fir(dlc, eff, rtr) as int == dlc + (if eff then 128 else 0) + (if rtr then 64 else 0)
  {
    var d: bv8 := dlc as bv8;
    assert d <= 15;
    FirSum(d, if eff then 0x80 else 0, if rtr then 0x40 else 0);
  }

  lemma FirSum(d: bv8, e: bv8, r: bv8)
    requires d <= 15 && (e == 0 || e == 0x80) && (r == 0 || r == 0x40)
    ensures d | e | r == d + e + r && d + e + r >= d
  {
  }

  /** The layout by register address and bit. */
  lemma SjaLayout(r: seq<bv8>, f: TxFrame)
    requires |r| == 32 && SendOk(f) && SjaHolds(r, f)
    ensures f.id.eff ==>
      && r[17] == ByteAt(f.id.num, 21) && r[18] == ByteAt(f.id.num, 13)
      && r[19] == ByteAt(f.id.num, 5) && r[20] == ByteAbove(f.id.num, 3)
    ensures !f.id.eff ==> r[17] == ByteAt(f.id.num, 3) && r[18] == ByteAbove(f.id.num, 5)
    ensures !f.id.rtr ==>
      forall k :: 0 <= k < (if f.dlc > 8 then 8 else f.dlc) ==> r[k + (if f.id.eff then 21 else 19)] == f.data[k]
    ensures r[16] as int == f.dlc + (if f.id.eff then 128 else 0) + (if f.id.rtr then 64 else 0)
  {
    hide Fir, FirEff, FirRtr, FirDlc, Shr21, Shr13, Shr5, Shr3, Shl3, Shl5, ByteAt, ByteAbove;
    ShiftsAre(f.id.num);
    FirIs(f.dlc, f.id.eff, f.id.rtr);
    var at, n := DataStart(f.id.eff), TxSize(f);
    if !f.id.rtr {
      forall k | 0 <= k < n ensures r[k + at] == f.data[k] {
        assert r[at..at + n][k] == f.data[..n][k];
      }
    }
  }

  /** What is sent is what is received. */
  lemma SjaRoundTrip(r: seq<bv8>, f: TxFrame, ifindex: bv8)
    requires |r| == 32 && SendOk(f) && !f.id.err && SjaHolds(r, f)
    ensures SjaDecoded(r, ifindex) == Expected(f, ifindex)
  {
    hide Fir, FirEff, FirRtr, FirDlc, Shr21, Shr13, Shr5, Shr3, Shl3, Shl5, SjaEffNum, StdNum;
    FirRoundTrip(f.dlc, f.id.eff, f.id.rtr);
    if f.id.eff {
      SjaEffRoundTrip(f.id.num);
    } else {
      SjaStdRoundTrip(f.id.num);
    }
  }

  class Sja1000 {
    var regs: seq<bv8>

    method WriteReg(at: nat, v: bv8)
      requires at < |regs|
      modifies this
      ensures regs == old(regs)[at := v]
    {
      regs := regs[at := v];
    }

    /** The loop that writes the data bytes. */
    method WriteData(start: nat, data: seq<bv8>)
      requires |regs| == 32 && start + |data| <= 32
      modifies this
      ensures |regs| == 32 && regs[..start] == old(regs[..start]) && regs[start..start + |data|] == data
    {
      ghost var before := regs;
      var i := 0;
      while i < |data|
        invariant 0 <= i <= |data| && |regs| == 32
        invariant forall k :: 0 <= k < start ==> regs[k] == before[k]
        invariant forall x :: start <= x < start + i ==> regs[x] == data[x - start]
      {
        WriteReg(start + i, data[i]);
        i := i + 1;
      }
    }

    method WriteId(id: CanId)
      requires |regs| == 32
      modifies this
      ensures |regs| == 32 && SjaHoldsId(regs, id)
    {
      hide Shr21, Shr13, Shr5, Shr3, Shl3, Shl5;
      if id.eff {
        WriteReg(SJA_ID1, Shr21(id.num));
        WriteReg(SJA_ID2, Shr13(id.num));
        WriteReg(SJA_ID3, Shr5(id.num));
        WriteReg(SJA_ID4, Shl3(id.num));
      } else {
        WriteReg(SJA_ID1, Shr3(id.num));
        WriteReg(SJA_ID2, Shl5(id.num));
      }
    }

    /** rtcan_sja_start_xmit, up to the write of the command register. */
    method StartXmit(f: TxFrame)
      requires |regs| == 32 && |f.data| == 8 && f.dlc <= 15
      modifies this
      ensures |regs| == 32 && SjaHolds(regs, f)
    {
      hide Fir, Shr21, Shr13, Shr5, Shr3, Shl3, Shl5;
      var size := if f.dlc > 8 then 8 else f.dlc;
      WriteId(f.id);
      if !f.id.rtr {
        WriteData(DataStart(f.id.eff), f.data[..size]);
      }
      WriteReg(SJA_FIR, Fir(f.dlc, f.id.eff, f.id.rtr));
    }

    /** rtcan_sja_rx_interrupt. */
    method ReadFrame(ifindex: bv8) returns (frame: Frame)
      requires |regs| == 32
      ensures frame == SjaDecoded(regs, ifindex) && WellSized(frame)
    {
      hide FirEff, FirRtr, FirDlc, SjaEffNum, StdNum;
      var fir := regs[SJA_FIR];
      FirRange(fir);
      var dlc := FirDlc(fir);
      var size := if dlc > 8 then 8 else dlc;
      var num := if FirEff(fir) then SjaEffNum(regs[SJA_ID1], regs[SJA_ID2], regs[SJA_ID3], regs[SJA_ID4])
                 else StdNum(regs[SJA_ID1], regs[SJA_ID2]);
      var start := DataStart(FirEff(fir));
      var data := [];
      if !FirRtr(fir) {
        var i := 0;
        while i < size
          invariant 0 <= i <= size && data == regs[start..start + i]
        {
          assert regs[start..start + (i + 1)] == regs[start..start + i] + [regs[start + i]];
          data := data + [regs[start + i]];
          i := i + 1;
        }
      }
      frame := Frame(CanId(FirEff(fir), FirRtr(fir), false, num), ifindex, dlc, data);
    }
  }

  lemma FirRange(b: bv8)
    ensures FirDlc(b) <= 15
  {
    var d := b & 15;
    assert d <= 15;
  }

  /* ---- MSCAN ---- */

  function Idr0Eff(n: bv29): bv8 { Low8((n & 0x1fe00000) >> 21) }
  function Idr1Eff(n: bv29): bv8 { Low8((n & 0x001c0000) >> 13) | Low8((n & 0x00038000) >> 15) | 0x18 }
  function Idr4(n: bv29): bv8 { Low8((n & 0x00007f80) >> 7) }
  function Idr5(n: bv29, rtr: bool): bv8 {
    if rtr then Low8((n & 0x0000007f) << 1) | 1 else Low8((n & 0x0000007f) << 1) & 0xfe
  }
  function Idr0Std(n: bv29): bv8 { Low8((n & 0x000007f8) >> 3) }
  function Idr1Std(n: bv29, rtr: bool): bv8 {
    if rtr then Low8((n & 0x00000007) << 5) | 0x10 else Low8((n & 0x00000007) << 5) & 0xef
  }

  predicate Extended(idr1: bv8) { idr1 & 0x08 != 0 }
  predicate ExtRtr(idr5: bv8) { idr5 & 0x01 != 0 }
  predicate StdRtr(idr1: bv8) { idr1 & 0x10 != 0 }

  function MscanEffNum(a: bv8, b: bv8, c: bv8, d: bv8): bv29 {
    (Wide(a) << 21) | ((Wide(b) & 0xe0) << 13) | ((Wide(b) & 7) << 15) | (Wide(c) << 7) | (Wide(d) >> 1)
  }

  lemma MscanEffRoundTrip(n: bv29, rtr: bool)
    ensures MscanEffNum(Idr0Eff(n), Idr1Eff(n), Idr4(n), Idr5(n, rtr)) == n
    ensures Extended(Idr1Eff(n)) && ExtRtr(Idr5(n, rtr)) == rtr
  {
  }

  lemma MscanStdRoundTrip(n: bv29, rtr: bool)
    requires n <= 0x7FF
    ensures StdNum(Idr0Std(n), Idr1Std(n, rtr)) == n
    ensures !Extended(Idr1Std(n, rtr)) && StdRtr(Idr1Std(n, rtr)) == rtr
  {
  }

  /** Data registers come in pairs with a gap of two. */
  function DsrAt(i: nat): nat { i + i / 2 * 2 }

  function Gather(dsr: seq<bv8>, k: nat): (r: seq<bv8>)
    requires |dsr| == 16 && k <= 8
    ensures |r| == k && forall i :: 0 <= i < k ==> r[i] == dsr[DsrAt(i)]
  {
    seq(k, i requires 0 <= i < k => dsr[DsrAt(i)])
  }

  function DlrDlc(b: bv8): nat { (b & 15) as nat }

  datatype Mbuf = Mbuf(idr: seq<bv8>, dsr: seq<bv8>, dlr: bv8)

  predicate MscanHolds(m: Mbuf, f: TxFrame)
    requires |m.idr| == 8 && |m.dsr| == 16 && |f.data| == 8 && f.dlc <= 15
  {
    && m.dlr == f.dlc as bv8
    && (if f.id.eff then
          && m.idr[0] == Idr0Eff(f.id.num) && m.idr[1] == Idr1Eff(f.id.num)
          && m.idr[4] == Idr4(f.id.num) && m.idr[5] == Idr5(f.id.num, f.id.rtr)
        else m.idr[0] == Idr0Std(f.id.num) && m.idr[1] == Idr1Std(f.id.num, f.id.rtr))
    && (!f.id.rtr ==> Gather(m.dsr, TxSize(f)) == f.data[..TxSize(f)])
  }

  function MscanDecoded(m: Mbuf, ifindex: bv8): Frame
    requires |m.idr| == 8 && |m.dsr| == 16
  {
    var eff := Extended(m.idr[1]);
    var rtr := if eff then ExtRtr(m.idr[5]) else StdRtr(m.idr[1]);
    var num := if eff then MscanEffNum(m.idr[0], m.idr[1], m.idr[4], m.idr[5]) else StdNum(m.idr[0], m.idr[1]);
    var dlc := DlrDlc(m.dlr);
    Frame(CanId(eff, rtr, false, num), ifindex, dlc, Gather(m.dsr, PayloadSize(rtr, dlc)))
  }

  lemma DlrRoundTrip(dlc: nat)
    requires dlc <= 15
    ensures DlrDlc(dlc as bv8) == dlc
  {
    var d: bv8 := dlc as bv8;
    assert d <= 15;
    assert d & 15 == d;
  }

  /** The layout by register and bit; the data registers come in pairs. */
  lemma MscanLayout(m: Mbuf, f: TxFrame)
    requires |m.idr| == 8 && |m.dsr| == 16 && SendOk(f) && MscanHolds(m, f)
    ensures m.dlr == f.dlc as bv8
    ensures !f.id.rtr ==>
      forall k :: 0 <= k < (if f.dlc > 8 then 8 else f.dlc) ==> m.dsr[[0, 1, 4, 5, 8, 9, 12, 13][k]] == f.data[k]
  {
    hide Idr0Eff, Idr1Eff, Idr4, Idr5, Idr0Std, Idr1Std;
    if !f.id.rtr {
      var g := Gather(m.dsr, TxSize(f));
      forall k | 0 <= k < TxSize(f) ensures m.dsr[[0, 1, 4, 5, 8, 9, 12, 13][k]] == f.data[k] {
        assert DsrAt(k) == [0, 1, 4, 5, 8, 9, 12, 13][k];
        assert g[k] == f.data[..TxSize(f)][k];
      }
    }
  }

  /** The fields of the ID registers: idr[0], the upper and lower three bits of idr[1], idr[4] and the upper
      bits of idr[5] hold the number; SRR and IDE are set in an extended frame. */
  predicate EffFields(n: bv29, i0: bv8, i1: bv8, i4: bv8, i5: bv8) {
    i0 == ByteAt(n, 21) && MidBits(n, i1) && i4 == ByteAt(n, 7) && LowBits(n, i5)
  }

  predicate MidBits(n: bv29, i1: bv8) {
    i1 & 0x18 == 0x18 && i1 >> 5 == Low8((n >> 18) & 7) && i1 & 7 == Low8((n >> 15) & 7)
  }

  predicate LowBits(n: bv29, i5: bv8) { i5 >> 1 == Low8(n & 0x7f) }

  predicate StdFields(n: bv29, i0: bv8, i1: bv8) {
    i0 == Low8(n >> 3) && i1 >> 5 == Low8(n & 7) && i1 & 8 == 0
  }

  lemma EffBits(n: bv29, rtr: bool)
    ensures EffFields(n, Idr0Eff(n), Idr1Eff(n), Idr4(n), Idr5(n, rtr)) && ExtRtr(Idr5(n, rtr)) == rtr
  {
    hide Idr0Eff, Idr1Eff, Idr4, Idr5, ByteAt, MidBits, LowBits, ExtRtr;
    WholeBytes(n);
    MidIs(n);
    LowIs(n, rtr);
  }

  lemma WholeBytes(n: bv29)
    ensures Idr0Eff(n) == ByteAt(n, 21) && Idr4(n) == ByteAt(n, 7)
  {
  }

  lemma MidIs(n: bv29)
    ensures MidBits(n, Idr1Eff(n))
  {
  }

  lemma LowIs(n: bv29, rtr: bool)
    ensures LowBits(n, Idr5(n, rtr)) && ExtRtr(Idr5(n, rtr)) == rtr
  {
  }

  lemma StdBits(n: bv29, rtr: bool)
    requires n <= 0x7FF
    ensures StdFields(n, Idr0Std(n), Idr1Std(n, rtr)) && StdRtr(Idr1Std(n, rtr)) == rtr
  {
  }

  lemma MscanIdLayout(m: Mbuf, f: TxFrame)
    requires |m.idr| == 8 && |m.dsr| == 16 && SendOk(f) && MscanHolds(m, f)
    ensures f.id.eff ==> EffFields(f.id.num, m.idr[0], m.idr[1], m.idr[4], m.idr[5]) && ExtRtr(m.idr[5]) == f.id.rtr
    ensures !f.id.eff ==> StdFields(f.id.num, m.idr[0], m.idr[1]) && StdRtr(m.idr[1]) == f.id.rtr
  {
    hide Idr0Eff, Idr1Eff, Idr4, Idr5, Idr0Std, Idr1Std, EffFields, StdFields, ExtRtr, StdRtr;
    if f.id.eff {
      EffBits(f.id.num, f.id.rtr);
    } else {
      StdBits(f.id.num, f.id.rtr);
    }
  }

  lemma MscanRoundTrip(m: Mbuf, f: TxFrame, ifindex: bv8)
    requires |m.idr| == 8 && |m.dsr| == 16 && SendOk(f) && !f.id.err && MscanHolds(m, f)
    ensures MscanDecoded(m, ifindex) == Expected(f, ifindex)
  {
    hide Idr0Eff, Idr1Eff, Idr4, Idr5, Idr0Std, Idr1Std, Extended, ExtRtr, StdRtr, MscanEffNum, StdNum, DlrDlc;
    DlrRoundTrip(f.dlc);
    if f.id.eff {
      MscanEffRoundTrip(f.id.num, f.id.rtr);
    } else {
      MscanStdRoundTrip(f.id.num, f.id.rtr);
    }
  }

  class Mscan {
    var idr: seq<bv8>
    var dsr: seq<bv8>
    var dlr: bv8

    function View(): Mbuf
      reads this
    {
      Mbuf(idr, dsr, dlr)
    }

    /** rtcan_mscan_start_xmit, once the transmit buffer is found empty. */
    method StartXmit(f: TxFrame)
      requires |idr| == 8 && |dsr| == 16 && |f.data| == 8 && f.dlc <= 15
      modifies this
      ensures |idr| == 8 && |dsr| == 16 && MscanHolds(View(), f)
    {
      hide Idr0Eff, Idr1Eff, Idr4, Idr5, Idr0Std, Idr1Std;
      var size := if f.dlc > 8 then 8 else f.dlc;
      if f.id.eff {
        idr := idr[0 := Idr0Eff(f.id.num)][1 := Idr1Eff(f.id.num)];
        idr := idr[4 := Idr4(f.id.num)][5 := Idr5(f.id.num, f.id.rtr)];
      } else {
        idr := idr[0 := Idr0Std(f.id.num)][1 := Idr1Std(f.id.num, f.id.rtr)];
      }
      if !f.id.rtr {
        ghost var ids := idr;
        var i := 0;
        while i < size
          invariant 0 <= i <= size && |dsr| == 16 && idr == ids
          invariant forall k :: 0 <= k < i ==> dsr[DsrAt(k)] == f.data[k]
        {
          dsr := dsr[DsrAt(i) := f.data[i]];
          i := i + 1;
        }
      }
      dlr := f.dlc as bv8;
    }

    /** rtcan_mscan_rx_interrupt. */
    method ReadFrame(ifindex: bv8) returns (frame: Frame)
      requires |idr| == 8 && |dsr| == 16
      ensures frame == MscanDecoded(View(), ifindex) && WellSized(frame)
    {
      hide Extended, ExtRtr, StdRtr, MscanEffNum, StdNum, DlrDlc;
      DlrRange(dlr);
      var dlc := DlrDlc(dlr);
      var size := if dlc > 8 then 8 else dlc;
      var eff := Extended(idr[1]);
      var rtr, num;
      if eff {
        num, rtr := MscanEffNum(idr[0], idr[1], idr[4], idr[5]), ExtRtr(idr[5]);
      } else {
        num, rtr := StdNum(idr[0], idr[1]), StdRtr(idr[1]);
      }
      var data := [];
      if !rtr {
        var i := 0;
        while i < size
          invariant 0 <= i <= size && data == Gather(dsr, i)
        {
          assert Gather(dsr, i + 1) == Gather(dsr, i) + [dsr[DsrAt(i)]];
          data := data + [dsr[DsrAt(i)]];
          i := i + 1;
        }
      }
      frame := Frame(CanId(eff, rtr, false, num), ifindex, dlc, data);
    }
  }

  lemma DlrRange(b: bv8)
    ensures DlrDlc(b) <= 15
  {
    var d := b & 15;
    assert d <= 15;
  }

  /* ---- end to end ---- */

  /** The message a reader should get for a frame sent: the sender's ID with its flags, the DLC and
      the data bytes that count, zero-padded; an RTR frame carries none. */
  function Arrival(f: TxFrame, ifindex: bv8, stamp: Option<Stamp>): Message
    requires SendOk(f)
  {
    var data := if f.id.rtr then [] else if f.dlc > 8 then f.data else f.data[..f.dlc];
    Message(f.id, ifindex, f.dlc, data + seq(8 - |data|, _ => 0), stamp)
  }

  /** Deliver a frame to a socket that has `waiting` frames buffered, and read until it comes; `control`
      says whether its timestamp is asked for. */
  method BufferAndRead(sock: RxSocket, frame: Frame, stamp: Option<Stamp>, waiting: nat, control: bool)
    returns (m: Option<Message>)
    requires sock.Valid() && WellSized(frame) && |sock.frames| == waiting
    modifies sock, sock.buf
    ensures m.Some? <==> old(|Stream(sock.frames, sock.order)|) + Size(Stored(frame, stamp)) < sock.buf.Length
    ensures m.Some? ==> m.value == Shown(Stored(frame, stamp), control)
    ensures m.None? ==> sock.Valid() && sock.frames == old(sock.frames)
    ensures m.Some? ==> sock.frames == [] && (sock.Valid() <==> control || stamp.None?)
  {
    hide Holds, Stream, Shown, Peeked, Advanced, Delivered, Fits;
    var stored := sock.Deliver(Stored(frame, stamp));
    if !stored {
      return None;
    }
    ghost var all := sock.frames;
    var k := 0;
    while k < waiting
      invariant 0 <= k <= waiting && sock.Valid() && sock.frames == all[k..]
    {
      var earlier := sock.Receive(true, false);
      k := k + 1;
    }
    var last := sock.Receive(control, false);
    m := Some(last);
  }

  /** From the sender through two SJA1000 and the byte ring to the reader. The bus brings the frame into
      the receiving chip as the sending one laid it out. */
  method ThroughSja(f: TxFrame, tx: Sja1000, rx: Sja1000, sock: RxSocket, ifindex: bv8, stamp: Option<Stamp>,
                    waiting: nat, control: bool)
    returns (m: Option<Message>)
    requires SendOk(f) && !f.id.err && |tx.regs| == 32 && sock.Valid() && |sock.frames| == waiting
    modifies tx, rx, sock, sock.buf
    ensures m.Some? <==>
            old(|Stream(sock.frames, sock.order)|) + Size(Stored(Expected(f, ifindex), stamp)) < sock.buf.Length
    ensures m.Some? ==> m.value == Arrival(f, ifindex, if control then stamp else None)
  {
    hide SjaHolds, SjaDecoded, Holds, Stream;
    tx.StartXmit(f);
    rx.regs := tx.regs;
    var frame := rx.ReadFrame(ifindex);
    SjaRoundTrip(rx.regs, f, ifindex);
    m := BufferAndRead(sock, frame, stamp, waiting, control);
  }

  /** The same through two MSCAN controllers. */
  method ThroughMscan(f: TxFrame, tx: Mscan, rx: Mscan, sock: RxSocket, ifindex: bv8, stamp: Option<Stamp>,
                      waiting: nat, control: bool)
    returns (m: Option<Message>)
    requires SendOk(f) && !f.id.err && |tx.idr| == 8 && |tx.dsr| == 16 && sock.Valid() && |sock.frames| == waiting
    modifies tx, rx, sock, sock.buf
    ensures m.Some? <==>
            old(|Stream(sock.frames, sock.order)|) + Size(Stored(Expected(f, ifindex), stamp)) < sock.buf.Length
    ensures m.Some? ==> m.value == Arrival(f, ifindex, if control then stamp else None)
  {
    hide MscanHolds, MscanDecoded, Holds, Stream;
    tx.StartXmit(f);
    rx.idr, rx.dsr, rx.dlr := tx.idr, tx.dsr, tx.dlr;
    var frame := rx.ReadFrame(ifindex);
    MscanRoundTrip(rx.View(), f, ifindex);
    m := BufferAndRead(sock, frame, stamp, waiting, control);
  }
}
