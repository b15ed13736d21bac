/** The bit-timing search rtcan_calc_bit_time, and the BTR registers it feeds. */
module BitTime {

  const MAX_TSEG1 := 15
  const MAX_TSEG2 := 7

  datatype Timing = Timing(brp: int, propSeg: int, phaseSeg1: int, phaseSeg2: int, sjw: int, sam: int)

  datatype Result = Ok(timing: Timing) | EDOM

  /** The inputs for which no 32-bit operation of the search overflows. */
  predicate InRange(clock: int, rate: int) { 0 <= clock < 0x8000_0000 && 1 <= rate && 25 * rate < 0x1_0000_0000 }

  function Abs(x: int): nat { if x < 0 then -x else x }

  /** Deviation from `rate` with prescaler `brp` and `n` time quanta per bit. */
  function Deviation(clock: int, rate: int, brp: int, n: int): nat
    requires 1 <= brp && 1 <= n
  {
    Product(brp, n);
    Abs(rate - clock / (brp * n))
  }

  lemma Product(a: int, b: int)
    requires 1 <= a && 1 <= b
    ensures 1 <= a * b
  {
  }

  /** The prescaler for `n` quanta, rounded down. */
  function Prescaler(clock: int, rate: int, n: int): int
    requires 1 <= rate && 1 <= n
  {
    Product(n, rate);
    clock / (n * rate)
  }

  /** A pair the controller can be set to, with a bit length the search does not skip. */
  predicate Candidate(clock: int, rate: int, brp: int, n: int)
    requires 1 <= rate
  {
    1 <= brp <= 64 && 3 <= n <= 25 && Prescaler(clock, rate, n) <= 64
  }

  lemma DivAtLeast(a: int, b: int, c: int)
    requires 0 < b && b * c <= a
    ensures c <= a / b
  {
    MulStep(b, a / b, c);
  }

  lemma DivBelow(a: int, b: int, c: int)
    requires 0 < b && a < b * c
    ensures a / b < c
  {
    MulStep(b, c, a / b);
  }

  /** Multiples of b are b apart. */
  lemma MulStep(b: int, x: int, y: int)
    requires 0 < b
    ensures x < y ==> b * x + b <= b * y
    ensures x <= y ==> b * x <= b * y
  {
    var d := y - x;
    assert b * y == b * x + b * d;
    if d >= 1 {
      assert b * d == b + b * (d - 1);
      NonNegative(b, d - 1);
    }
  }

  lemma Regroup(a: int, b: int, c: int)
    ensures (a * b) * c == (b * c) * a
  {
  }

  lemma Twice(a: int, b: int)
    ensures a * (2 * b) == 2 * (a * b)
  {
  }

  lemma NonNegative(a: int, b: int)
    requires 0 <= a && 0 <= b
    ensures 0 <= a * b
  {
  }

  lemma Floor(a: int, b: int)
    requires 0 <= a && 0 < b
    ensures 0 <= a / b && b * (a / b) <= a
  {
  }

  lemma PrescalerBounds(clock: int, rate: int, n: int)
    requires 0 <= clock && 1 <= rate && 1 <= n
    ensures var q, nr := Prescaler(clock, rate, n), n * rate;
      0 <= q && 1 <= nr && nr * q <= clock < nr * q + nr
  {
    Product(n, rate);
  }

  /** Up to the rounded-down prescaler the controller is too fast, beyond it too slow. */
  lemma TooFast(clock: int, rate: int, brp: int, n: int)
    requires 0 <= clock && 1 <= rate && 1 <= n && 1 <= brp <= Prescaler(clock, rate, n)
    ensures 1 <= brp * n && rate <= clock / (brp * n)
  {
    var q, nr := Prescaler(clock, rate, n), n * rate;
    PrescalerBounds(clock, rate, n);
    Product(brp, n);
    MulStep(nr, brp, q);
    Regroup(brp, n, rate);
    DivAtLeast(clock, brp * n, rate);
  }

  lemma TooSlow(clock: int, rate: int, brp: int, n: int)
    requires 0 <= clock && 1 <= rate && 1 <= n && Prescaler(clock, rate, n) < brp
    ensures 1 <= brp && 1 <= brp * n && 0 <= clock / (brp * n) < rate
  {
    var q, nr := Prescaler(clock, rate, n), n * rate;
    PrescalerBounds(clock, rate, n);
    Product(brp, n);
    MulStep(nr, q, brp);
    Regroup(brp, n, rate);
    DivBelow(clock, brp * n, rate);
  }

  lemma SlowerWith(clock: int, a: int, b: int, n: int)
    requires 0 <= clock && 1 <= n && 1 <= a <= b
    ensures 1 <= a * n && 1 <= b * n && clock / (b * n) <= clock / (a * n)
  {
    Product(a, n);
    Product(b, n);
    MulStep(n, a, b);
    var x, y, q := a * n, b * n, clock / (b * n);
    Floor(clock, y);
    MulStep2(q, x, y);
    DivAtLeast(clock, x, q);
  }

  lemma MulStep2(q: int, x: int, y: int)
    requires 0 <= q && x <= y
    ensures x * q <= y * q
  {
    assert y * q == x * q + (y - x) * q;
    NonNegative(y - x, q);
  }

  /** Trying only the rounded-down and the rounded-up prescaler loses nothing. */
  lemma Neighbours(clock: int, rate: int, brp: int, n: int)
    requires 0 <= clock && 1 <= rate && Candidate(clock, rate, brp, n)
    ensures 0 <= Prescaler(clock, rate, n)
    ensures var q := Prescaler(clock, rate, n);
      if brp <= q then Deviation(clock, rate, q, n) <= Deviation(clock, rate, brp, n)
      else Deviation(clock, rate, q + 1, n) <= Deviation(clock, rate, brp, n)
  {
    var q := Prescaler(clock, rate, n);
    PrescalerBounds(clock, rate, n);
    if brp <= q {
      TooFast(clock, rate, q, n);
      SlowerWith(clock, brp, q, n);
    } else {
      TooSlow(clock, rate, q + 1, n);
      SlowerWith(clock, q + 1, brp, n);
    }
  }

  /** No pair that the search visits deviates by more than the rate itself. */
  lemma DeviationBound(clock: int, rate: int, brp: int, n: int)
    requires 0 <= clock && 1 <= rate && 1 <= n && 1 <= brp
    requires brp == Prescaler(clock, rate, n) || brp == Prescaler(clock, rate, n) + 1
    ensures Deviation(clock, rate, brp, n) <= rate
  {
    var q, nr := Prescaler(clock, rate, n), n * rate;
    PrescalerBounds(clock, rate, n);
    if brp == q {
      TooFast(clock, rate, q, n);
      Regroup(q, n, rate);
      Twice(q * n, rate);
      MulStep(nr, 1, q);
      DivBelow(clock, q * n, 2 * rate);
    } else {
      TooSlow(clock, rate, brp, n);
    }
  }

  /** No candidate with at most `upTo` quanta beats `best`; equally good ones are not longer than `n`. */
  ghost predicate BestUpTo(clock: int, rate: int, best: int, n: int, upTo: int)
    requires 1 <= rate
  {
    forall b, m :: Candidate(clock, rate, b, m) && m <= upTo ==>
      && best <= Deviation(clock, rate, b, m)
      && (best == Deviation(clock, rate, b, m) ==> m <= n)
  }

  /** The same for one pair that the search visits, if it is a candidate. */
  predicate Beats(clock: int, rate: int, best: int, n: int, brp: int, m: int)
    requires 1 <= rate && 1 <= m
  {
    1 <= brp <= 64 ==>
      best <= Deviation(clock, rate, brp, m) && (best == Deviation(clock, rate, brp, m) ==> m <= n)
  }

  /** The pair found so far is a candidate; before the first one `tseg` is 0. */
  predicate Found(clock: int, rate: int, best: int, tseg: int, brp: int)
    requires 1 <= rate
  {
    if tseg == 0 then best == 1000000000
    else Candidate(clock, rate, brp, 1 + tseg) && best == Deviation(clock, rate, brp, 1 + tseg) <= rate
  }

  lemma BothNeighbours(clock: int, rate: int, best: int, n: int, m: int)
    requires 0 <= clock && 1 <= rate && BestUpTo(clock, rate, best, n, m - 1) && 3 <= m <= 25
    requires var q := Prescaler(clock, rate, m);
      Beats(clock, rate, best, n, q, m) && Beats(clock, rate, best, n, q + 1, m)
    ensures BestUpTo(clock, rate, best, n, m)
  {
    forall b, k | Candidate(clock, rate, b, k) && k <= m
      ensures best <= Deviation(clock, rate, b, k)
      ensures best == Deviation(clock, rate, b, k) ==> k <= n
    {
      if k == m {
        Neighbours(clock, rate, b, m);
      }
    }
  }

  lemma NothingShorter(clock: int, rate: int, best: int, n: int)
    requires 1 <= rate
    ensures BestUpTo(clock, rate, best, n, 2)
  {
  }

  lemma IsCandidate(clock: int, rate: int, brp: int, n: int)
    requires 1 <= rate && 3 <= n <= 25 && 1 <= brp <= 64 && Prescaler(clock, rate, n) <= brp
    ensures Candidate(clock, rate, brp, n)
  {
  }

  lemma RateBound(clock: int, rate: int)
    requires InRange(clock, rate)
    ensures 0 <= clock && 1 <= rate < 1000000000
  {
  }

  /** The search loop. */
  method Search(clock: int, rate: int) returns (bestError: int, bestTseg: int, bestBrp: int)
    requires InRange(clock, rate)
    ensures Found(clock, rate, bestError, bestTseg, bestBrp + 1)
    ensures BestUpTo(clock, rate, bestError, 1 + bestTseg, 25)
  {
    hide BestUpTo, Candidate, Prescaler, Deviation, InRange;
    assert 0 <= clock && 1 <= rate < 1000000000 by { RateBound(clock, rate); }
    bestError, bestTseg, bestBrp := 1000000000, 0, 0;
    NothingShorter(clock, rate, bestError, 1);
    var tseg := 4;
    while tseg <= (MAX_TSEG2 + MAX_TSEG1 + 2) * 2 + 1
      invariant 4 <= tseg <= 50 && bestTseg <= tseg / 2
      invariant Found(clock, rate, bestError, bestTseg, bestBrp + 1)
      invariant BestUpTo(clock, rate, bestError, 1 + bestTseg, tseg / 2)
      invariant tseg % 2 == 1 ==>
                  Beats(clock, rate, bestError, 1 + bestTseg, Prescaler(clock, rate, 1 + tseg / 2), 1 + tseg / 2)
    {
      var n := 1 + tseg / 2;
      PrescalerBounds(clock, rate, n);
      ghost var e0, t0 := bestError, bestTseg;
      var brp := Prescaler(clock, rate, n) + tseg % 2;
      if brp != 0 && brp <= 64 {
        DeviationBound(clock, rate, brp, n);
        var error := Deviation(clock, rate, brp, n);
        if error <= bestError {
          bestError, bestTseg, bestBrp := error, tseg / 2, brp - 1;
          assert Candidate(clock, rate, brp, n) by { IsCandidate(clock, rate, brp, n); }
        }
      }
      StillBest(clock, rate, e0, 1 + t0, bestError, 1 + bestTseg, tseg / 2);
      if tseg % 2 == 1 {
        BothNeighbours(clock, rate, bestError, 1 + bestTseg, n);
      }
      assert (tseg + 1) / 2 == tseg / 2 + tseg % 2 && (tseg + 1) % 2 == 1 - tseg % 2;
      tseg := tseg + 1;
    }
  }

  /** A better or equally good and longer pair keeps what was established. */
  lemma StillBest(clock: int, rate: int, best: int, n: int, best': int, n': int, upTo: int)
    requires 1 <= rate && BestUpTo(clock, rate, best, n, upTo) && best' <= best
    requires best' < best ==> upTo <= n'
    requires best' == best ==> n <= n'
    ensures BestUpTo(clock, rate, best', n', upTo)
  {
  }

  /** The sample point the driver aims at, in percent of the bit time. */
  function SamplePoint(rate: int): int {
    if rate < (12500 + 10000) / 2 then 75 else if rate > (1000000 + 500000) / 2 then 75 else 90
  }

  function Quanta(t: Timing): int { 1 + t.propSeg + t.phaseSeg1 + t.phaseSeg2 }

  /** The fields the controllers can represent, sampling as late as asked for or as late as possible. */
  predicate Usable(t: Timing, rate: int) {
    && 1 <= t.brp <= 64 && t.propSeg == 0 && t.sam == 0
    && 1 <= t.phaseSeg1 <= 16 && 1 <= t.phaseSeg2 <= 8
    && t.sjw == (if rate < (100000 + 125000) / 2 then 2 else 1)
    && 1 + t.phaseSeg1 == (if SamplePoint(rate) * Quanta(t) / 100 > 17 then 17 else SamplePoint(rate) * Quanta(t) / 100)
  }

  /** What the result of the search says about all settings. */
  lemma Verdict(clock: int, rate: int, best: int, tseg: int, brp: int)
    requires InRange(clock, rate) && Found(clock, rate, best, tseg, brp)
    requires BestUpTo(clock, rate, best, 1 + tseg, 25)
    ensures tseg == 0 ==> Prescaler(clock, rate, 25) > 64 && rate < 10 * best
    ensures tseg != 0 ==> Prescaler(clock, rate, 25) <= 64 && BestOfAll(clock, rate, best, 1 + tseg)
    ensures tseg != 0 ==> (Attainable(clock, rate) <==> 10 * best <= rate)
  {
    CandidateIff(clock, rate);
    if tseg != 0 {
      NothingLost(clock, rate, best, brp, 1 + tseg);
      assert Settable(brp, 1 + tseg);
    } else if b, n :| Candidate(clock, rate, b, n) {
      var q := Prescaler(clock, rate, n);
      PrescalerBounds(clock, rate, n);
      DeviationBound(clock, rate, if q == 0 then 1 else q, n);
      assert Candidate(clock, rate, if q == 0 then 1 else q, n);
    }
  }

  /** rtcan_calc_bit_time: it succeeds exactly when the longest bit is not skipped and some setting
      of the controller comes within a tenth of the rate, and then returns the best setting there is,
      the longest if several are equally good. */
  method CalcBitTime(clock: int, rate: int) returns (r: Result)
    requires InRange(clock, rate)
    ensures r.Ok? <==> Prescaler(clock, rate, 25) <= 64 && Attainable(clock, rate)
    ensures r.Ok? ==>
      && Usable(r.timing, rate)
      && Settable(r.timing.brp, Quanta(r.timing))
      && var best := Deviation(clock, rate, r.timing.brp, Quanta(r.timing));
         10 * best <= rate && BestOfAll(clock, rate, best, Quanta(r.timing))
  {
    var samplePt, sjw := 90, 0;
    if rate > (1000000 + 500000) / 2 {
      samplePt := 75;
    }
    if rate < (12500 + 10000) / 2 {
      samplePt := 75;
    }
    if rate < (100000 + 125000) / 2 {
      sjw := 1;
    }
    var bestError, bestTseg, bestBrp := Search(clock, rate);
    Verdict(clock, rate, bestError, bestTseg, bestBrp + 1);
    if bestError != 0 {
      TenTimes(rate, bestError);
      if rate / bestError < 10 {
        return EDOM;
      }
    }
    var tseg2 := bestTseg - (samplePt * (bestTseg + 1)) / 100;
    if tseg2 < 0 {
      tseg2 := 0;
    }
    if tseg2 > MAX_TSEG2 {
      tseg2 := MAX_TSEG2;
    }
    var tseg1 := bestTseg - tseg2 - 2;
    if tseg1 > MAX_TSEG1 {
      tseg1 := MAX_TSEG1;
      tseg2 := bestTseg - tseg1 - 2;
    }
    r := Ok(Timing(bestBrp + 1, 0, tseg1 + 1, tseg2 + 1, sjw + 1, 0));
  }

  lemma TenTimes(rate: int, e: int)
    requires 0 < e && 0 <= rate
    ensures rate / e < 10 <==> rate < 10 * e
  {
    if rate < 10 * e {
      DivBelow(rate, e, 10);
    } else {
      DivAtLeast(rate, e, 10);
    }
  }

  /** A pair the controller can be set to. */
  predicate Settable(brp: int, n: int) { 1 <= brp <= 64 && 3 <= n <= 25 }

  /** The best of all pairs, the longest if several are equally good. */
  ghost predicate BestOfAll(clock: int, rate: int, best: int, len: int) {
    forall b, n :: Settable(b, n) ==>
      best <= Deviation(clock, rate, b, n) && (best == Deviation(clock, rate, b, n) ==> n <= len)
  }

  /** Longer bits need smaller prescalers. */
  lemma PrescalerFalls(clock: int, rate: int, n: int, m: int)
    requires 0 <= clock && 1 <= rate && 1 <= n <= m
    ensures Prescaler(clock, rate, m) <= Prescaler(clock, rate, n)
  {
    SlowerWith(clock, n, m, rate);
  }

  /** Between a skipped length and one that is not, nearly all of the skipped bit time is kept. */
  lemma AcrossTheEdge(clock: int, rate: int, n: int)
    requires 0 <= clock && 1 <= rate && 3 <= n
    requires Prescaler(clock, rate, n + 1) <= 64 < Prescaler(clock, rate, n)
    ensures 64 * n <= Prescaler(clock, rate, n + 1) * (n + 1)
  {
    hide Prescaler;
    var q, m := Prescaler(clock, rate, n + 1), n + 1;
    PrescalerBounds(clock, rate, n);
    PrescalerBounds(clock, rate, m);
    MulStep(n * rate, 65, Prescaler(clock, rate, n));
    OneTurnMore(m, rate, q);
    EdgeBound(q, n, m, rate, clock, n * rate);
  }

  /** One step of the prescaler is one bit of clock ticks. */
  lemma OneTurnMore(m: int, rate: int, q: int)
    ensures (m * rate) * q + m * rate == (q * m + m) * rate
  {
    assert (q * m + m) * rate == (q * m) * rate + m * rate;
    Regroup(q, m, rate);
  }

  lemma EdgeBound(q: int, n: int, m: int, rate: int, clock: int, nr: int)
    requires 1 <= rate && m == n + 1 && nr == n * rate
    requires nr * 65 <= clock < (q * m + m) * rate
    ensures 64 * n <= q * m
  {
    var x := q * m;
    if x + m <= 65 * n {
      MulStep2(rate, x + m, 65 * n);
      Regroup(65, n, rate);
    }
  }

  /** A skipped length is beaten by the largest prescaler of the next length, or by the rounded-down
      prescaler there if that is not skipped: all of them are too fast, and these are the slowest. */
  lemma SkippedIsBeaten(clock: int, rate: int, brp: int, n: int, q: int)
    requires 0 <= clock && 1 <= rate && 3 <= n && 1 <= brp <= 64 < Prescaler(clock, rate, n)
    requires 1 <= q == (if Prescaler(clock, rate, n + 1) <= 64 then Prescaler(clock, rate, n + 1) else 64)
    requires 64 * n <= q * (n + 1)
    ensures Deviation(clock, rate, q, n + 1) <= Deviation(clock, rate, brp, n)
  {
    TooFast(clock, rate, brp, n);
    TooFast(clock, rate, q, n + 1);
    MulStep2(n, brp, 64);
    Product(q, n + 1);
    SlowerWith(clock, brp * n, q * (n + 1), 1);
  }

  /** No pair of a skipped length is better than what the search finds, and every skipped length is
      shorter than that. */
  lemma {:induction false} SkippedLength(clock: int, rate: int, best: int, len: int, brp: int, n: int)
    requires 0 <= clock && 1 <= rate && BestUpTo(clock, rate, best, len, 25) && 1 <= brp <= 64
    requires 3 <= n < 25 && Prescaler(clock, rate, 25) <= 64 < Prescaler(clock, rate, n)
    ensures best <= Deviation(clock, rate, brp, n)
    decreases 25 - n
  {
    if Prescaler(clock, rate, n + 1) <= 64 {
      var q := Prescaler(clock, rate, n + 1);
      AcrossTheEdge(clock, rate, n);
      PrescalerBounds(clock, rate, n + 1);
      SkippedIsBeaten(clock, rate, brp, n, q);
      assert Candidate(clock, rate, q, n + 1);
    } else {
      SkippedIsBeaten(clock, rate, brp, n, 64);
      SkippedLength(clock, rate, best, len, 64, n + 1);
    }
  }

  /** The search sees a pair at all if and only if the longest bit is not skipped. */
  lemma CandidateIff(clock: int, rate: int)
    requires 0 <= clock && 1 <= rate
    ensures Prescaler(clock, rate, 25) <= 64 <==> exists b, n :: Candidate(clock, rate, b, n)
  {
    if Prescaler(clock, rate, 25) <= 64 {
      assert Candidate(clock, rate, 1, 25);
    } else if b, n :| Candidate(clock, rate, b, n) {
      PrescalerFalls(clock, rate, n, 25);
    }
  }

  /** If it sees any, then skipping loses nothing: the choice is the best of all prescalers and all
      lengths. */
  lemma NothingLost(clock: int, rate: int, best: int, brp: int, len: int)
    requires 0 <= clock && 1 <= rate && BestUpTo(clock, rate, best, len, 25)
    requires Candidate(clock, rate, brp, len)
    ensures Prescaler(clock, rate, 25) <= 64 && BestOfAll(clock, rate, best, len)
  {
    PrescalerFalls(clock, rate, len, 25);
    forall b, n | Settable(b, n)
      ensures best <= Deviation(clock, rate, b, n) && (best == Deviation(clock, rate, b, n) ==> n <= len)
    {
      if Prescaler(clock, rate, n) <= 64 {
        assert Candidate(clock, rate, b, n);
      } else {
        SkippedLength(clock, rate, best, len, b, n);
        if len < n { PrescalerFalls(clock, rate, len, n); }
      }
    }
  }

  /** Some setting of the controller comes within a tenth of the rate. */
  ghost predicate Attainable(clock: int, rate: int) {
    exists b, n :: Settable(b, n) && 10 * Deviation(clock, rate, b, n) <= rate
  }

  /** When every length is skipped, the slowest setting is the best one. So an attainable rate is
      refused if and only if the longest bit is skipped and the slowest setting is near enough. */
  lemma WronglyRefusedIff(clock: int, rate: int)
    requires 0 <= clock && 1 <= rate && Prescaler(clock, rate, 25) > 64
    ensures Attainable(clock, rate) <==> 10 * (clock / 1600 - rate) <= rate
  {
    TooFast(clock, rate, 64, 25);
    if b, n :| Settable(b, n) && 10 * Deviation(clock, rate, b, n) <= rate {
      PrescalerFalls(clock, rate, n, 25);
      TooFast(clock, rate, b, n);
      MulStep2(n, b, 64);
      Product(b, n);
      SlowerWith(clock, b * n, 1600, 1);
    }
    if 10 * (clock / 1600 - rate) <= rate {
      assert Settable(64, 25) && 10 * Deviation(clock, rate, 64, 25) <= rate;
    }
  }

  /** The usual 8 MHz clock could come within a tenth of 4900 baud, and every length is skipped. */
  lemma RefusedAt8MHz()
    ensures InRange(8000000, 4900) && Prescaler(8000000, 4900, 25) == 65 && Attainable(8000000, 4900)
    ensures forall b, n :: !Candidate(8000000, 4900, b, n)
  {
    WronglyRefusedIff(8000000, 4900);
    CandidateIff(8000000, 4900);
  }

  /** Bus timing registers 0 and 1. A mask of low bits is a remainder here, a shift a multiplication,
      and the fields do not overlap. */
  datatype Btr = Btr(btr0: int, btr1: int)

  /** What BTR0_SET_xxx and BTR1_SET_xxx make of a standard bit time. */
  function Encode(t: Timing): (r: Btr)
    ensures 0 <= r.btr0 < 256 && 0 <= r.btr1 < 256
  {
    Btr((t.brp - 1) % 64 + (t.sjw - 1) % 4 * 64,
        (t.propSeg + t.phaseSeg1 - 1) % 16 + (t.phaseSeg2 - 1) % 8 * 16 + t.sam % 2 * 128)
  }

  /** What the controller reads from its registers; it does not know the propagation segment. */
  function Decode(b: Btr): Timing {
    Timing(b.btr0 % 64 + 1, 0, b.btr1 % 16 + 1, b.btr1 / 16 % 8 + 1, b.btr0 / 64 + 1, b.btr1 / 128)
  }

  predicate FitsRegisters(t: Timing) {
    && 1 <= t.brp <= 64 && 1 <= t.sjw <= 4 && 0 <= t.sam <= 1
    && 1 <= t.propSeg + t.phaseSeg1 <= 16 && 1 <= t.phaseSeg2 <= 8
  }

  /** The registers hold a bit time without loss exactly when each field is in its range. */
  lemma LosslessIff(t: Timing)
    ensures Decode(Encode(t)) == t.(propSeg := 0, phaseSeg1 := t.propSeg + t.phaseSeg1) <==> FitsRegisters(t)
  {
    hide Encode;
    Fields0(t);
    Fields1(t);
    LowBits(t.brp - 1, 64);
    LowBits(t.sjw - 1, 4);
    LowBits(t.propSeg + t.phaseSeg1 - 1, 16);
    LowBits(t.phaseSeg2 - 1, 8);
    LowBits(t.sam, 2);
  }

  /** What the fields of BTR0 decode to. */
  lemma Fields0(t: Timing)
    ensures var d := Decode(Encode(t)); d.brp == (t.brp - 1) % 64 + 1 && d.sjw == (t.sjw - 1) % 4 + 1
  {
    Digits((t.brp - 1) % 64, (t.sjw - 1) % 4, 64);
  }

  /** What the fields of BTR1 decode to. */
  lemma Fields1(t: Timing)
    ensures var d := Decode(Encode(t));
      && d.phaseSeg1 == (t.propSeg + t.phaseSeg1 - 1) % 16 + 1
      && d.phaseSeg2 == (t.phaseSeg2 - 1) % 8 + 1 && d.sam == t.sam % 2
  {
    var b := Encode(t);
    Digits((t.propSeg + t.phaseSeg1 - 1) % 16, (t.phaseSeg2 - 1) % 8 + t.sam % 2 * 8, 16);
    Digits((t.phaseSeg2 - 1) % 8, t.sam % 2, 8);
    assert b.btr1 / 128 == b.btr1 / 16 / 8;
  }

  /** A mask keeps a number if and only if the number fits. */
  lemma LowBits(x: int, n: int)
    requires n == 2 || n == 4 || n == 8 || n == 16 || n == 64
    ensures x % n == x <==> 0 <= x < n
  {
  }

  /** Where the fields are in the two registers. */
  lemma BtrLayout(t: Timing)
    requires FitsRegisters(t)
    ensures Encode(t).btr0 == (t.brp - 1) + 64 * (t.sjw - 1)
    ensures Encode(t).btr1 == (t.propSeg + t.phaseSeg1 - 1) + 16 * (t.phaseSeg2 - 1) + 128 * t.sam
  {
    LowBits(t.brp - 1, 64);
    LowBits(t.sjw - 1, 4);
    LowBits(t.propSeg + t.phaseSeg1 - 1, 16);
    LowBits(t.phaseSeg2 - 1, 8);
    LowBits(t.sam, 2);
  }

  lemma Digits(lo: int, hi: int, base: int)
    requires base == 64 || base == 16 || base == 8
    requires 0 <= lo < base && 0 <= hi
    ensures (lo + hi * base) % base == lo && (lo + hi * base) / base == hi
  {
  }

  /** What the search returns reaches the controller unchanged, and the baud rate recomputed from the
      registers is the one that was within a tenth of the request. */
  lemma ChosenTimingArrives(clock: int, rate: int, t: Timing)
    requires 1 <= rate && Usable(t, rate) && 10 * Deviation(clock, rate, t.brp, Quanta(t)) <= rate
    ensures Decode(Encode(t)) == t
    ensures 1 <= t.brp * Quanta(t)
    ensures 10 * Abs(rate - clock / (Decode(Encode(t)).brp * Quanta(Decode(Encode(t))))) <= rate
  {
    LosslessIff(t);
    Product(t.brp, Quanta(t));
  }
}
