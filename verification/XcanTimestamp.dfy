/** xcan_timestamp2ktime: a 64-bit time for a frame from a 16-bit hardware tick count.
    The arithmetic is the code's, with every conversion written out; the theorems say
    what it computes, how exact it is over unbounded runs, and how it relates to the
    reference algorithm in the comment above it. */
module XcanTimestamp {
  import opened Machine

  const BILLION: nat := 1_000_000_000

  /** A ktime_t that ktime_get can return. */
  type Ktime = t: int | 0 <= t < 0x8000_0000_0000_0000

  /** ref_timepoint; ktime == 0 means that it is not set yet. */
  datatype Timepoint = Timepoint(ktime: nat, ts: u16)

  lemma DivisionBounds(x: nat, d: nat)
    requires 0 < d <= x
    ensures 0 < x / d <= x
  {
    assert x == (x / d) * d + x % d;
    MulMonotone(1, d, x / d);
  }

  /** The scale xcan_probe sets up: nanoseconds per tick, rounded down. A CAN clock
      above one gigahertz would make it zero and the driver divide by it. */
  function TickNs(freq: nat): (mul: int)
    requires 0 < freq <= BILLION
    ensures 0 < mul <= BILLION && mul == BILLION / freq
    ensures mul * freq <= BILLION < mul * freq + freq
  {
    assert BILLION == (BILLION / freq) * freq + BILLION % freq;
    DivisionBounds(BILLION, freq);
    BILLION / freq
  }

  // ------------------------------------------------- what the code computes

  /** The reference point a call works with: a fresh one if none was set. */
  function Reference(ref: Timepoint, now: nat, ts: u16): Timepoint {
    if ref.ktime == 0 then Timepoint(now, ts) else ref
  }

  /** Ticks from the reference point to now, by the system clock. */
  function Estimate(ref: Timepoint, now: nat, mul: nat): int
    requires mul > 0
  {
    (now - ref.ktime) / mul
  }

  /** The signed 16-bit correction of the estimate. */
  function Adjustment(ref: Timepoint, now: nat, ts: u16, mul: nat): int
    requires mul > 0
  {
    S16(ts - (Estimate(ref, now, mul) + ref.ts))
  }

  /** Ticks from the reference point to the frame; negative for one that precedes it. */
  function FrameTicks(ref: Timepoint, now: nat, ts: u16, mul: nat): int
    requires mul > 0
  {
    Estimate(ref, now, mul) + Adjustment(ref, now, ts, mul)
  }

  /** The frame's time in nanoseconds, on unbounded integers. */
  function FrameTime(ref: Timepoint, now: nat, ts: u16, mul: nat): int
    requires mul > 0
  {
    ref.ktime + FrameTicks(ref, now, ts, mul) * mul
  }

  lemma EstimateBounds(ref: Timepoint, now: nat, mul: nat)
    requires mul > 0 && ref.ktime <= now
    ensures 0 <= Estimate(ref, now, mul) <= now - ref.ktime
    ensures Estimate(ref, now, mul) * mul <= now - ref.ktime < Estimate(ref, now, mul) * mul + mul
  {
    var e := Estimate(ref, now, mul);
    assert now - ref.ktime == e * mul + (now - ref.ktime) % mul;
    if e < 0 { MulMonotone(e, 0 - 1, mul); }
    if e > 0 { MulMonotone(1, mul, e); }
  }

  /** So do the steps before it: the estimate fits, its low word gives the adjustment, and
      adding and removing the reference stamp cancels modulo 2^64. */
  lemma EstimateFits(ref: Timepoint, now: Ktime, ts: u16, mul: nat)
    requires mul > 0 && ref.ktime <= now
    ensures U64(U64(now - ref.ktime) / mul + ref.ts) == Estimate(ref, now, mul) + ref.ts
  {
    EstimateBounds(ref, now, mul);
    assert U64(now - ref.ktime) == now - ref.ktime;
  }

  lemma S16OfCongruent(x: int, y: int, k: int)
    requires x == y + k * TWO16
    ensures S16(x) == S16(y)
  {
  }

  lemma LowWordSuffices(x: int, ts: u16)
    ensures S16(ts - x % TWO16) == S16(ts - x)
  {
    S16OfCongruent(ts - x % TWO16, ts - x, x / TWO16);
  }

  lemma AdjustmentFromLowWord(ref: Timepoint, now: Ktime, ts: u16, mul: nat)
    requires mul > 0 && ref.ktime <= now
    ensures var e := Estimate(ref, now, mul);
      && U64(U64(now - ref.ktime) / mul + ref.ts) == e + ref.ts
      && S16(ts - (e + ref.ts) % TWO16) == Adjustment(ref, now, ts, mul)
  {
    EstimateFits(ref, now, ts, mul);
    LowWordSuffices(Estimate(ref, now, mul) + ref.ts, ts);
  }

  lemma S64OfCongruent(x: int, y: int, k: int)
    requires x == y + k * TWO64
    ensures S64(x) == S64(y)
  {
    SameRemainder(x + 0x8000_0000_0000_0000, y + 0x8000_0000_0000_0000, TWO64, k);
  }

  /** The u64 steps of the code lose nothing: the product is the true one modulo 2^64. */
  lemma ProductWraps(c: int, mul: nat)
    ensures Congruent(U64(U64(c) * mul), c * mul, TWO64)
  {
    var q := c / TWO64;
    assert c == q * TWO64 + U64(c);
    var x := U64(c) * mul;
    var q' := x / TWO64;
    assert x == q' * TWO64 + U64(x);
    assert c * mul == (q * mul) * TWO64 + x;
    assert U64(x) == c * mul + (0 - q * mul - q') * TWO64;
  }

  lemma StampCancels(x: int, t: int)
    ensures U64(U64(x + t) - t) == U64(x)
  {
    SameRemainder(U64(x + t) - t, x, TWO64, 0 - (x + t) / TWO64);
  }

  /** The sum that adds the reference stamp and the product that takes it off again: in 64
      bits they give the unbounded time. */
  lemma ProductSuffices(base: int, c: int, refTs: u16, mul: nat)
    ensures S64(base + U64(U64(U64(c + refTs) - refTs) * mul)) == S64(base + c * mul)
  {
    StampCancels(c, refTs);
    ProductWraps(c, mul);
    var k :| U64(U64(c) * mul) == c * mul + k * TWO64;
    S64OfCongruent(base + U64(U64(c) * mul), base + c * mul, k);
  }

  class Clock {
    var ref: Timepoint
    const mul: u32     // cantime2ns_mul; the shift that goes with it is set to 0

    constructor (freq: u32)
      requires 0 < freq <= BILLION
      ensures ref == Timepoint(0, 0) && mul == 1_000_000_000 / freq
    {
      ref, mul := Timepoint(0, 0), TickNs(freq);
    }

    /** The code as written; `now` is what ktime_get returned. */
    method Timestamp2Ktime(now: Ktime, ts: u16) returns (ktimeFrame: int, tmdiffns: u32)
      requires mul > 0 && ref.ktime <= now
      modifies this`ref
      ensures ref == Reference(old(ref), now, ts)
      ensures ktimeFrame == S64(FrameTime(ref, now, ts, mul))
      ensures tmdiffns == U32(Adjustment(ref, now, ts, mul) * 50)
    {
      if ref.ktime == 0 {
        ref := Timepoint(now, ts);
      }
      var cantimeFrame: u64 := U64(U64(now - ref.ktime) / mul + ref.ts);
      AdjustmentFromLowWord(ref, now, ts, mul);
      var cantimeLsw: u16 := cantimeFrame % TWO16;
      var cantimeAdj := S16(ts - cantimeLsw);
      cantimeFrame := U64(cantimeFrame + cantimeAdj);
      var product: u64 := U64(U64(cantimeFrame - ref.ts) * mul);
      ktimeFrame := S64(ref.ktime + product);
      tmdiffns := U32(cantimeAdj * 50);
      ProductSuffices(ref.ktime, FrameTicks(ref, now, ts, mul), ref.ts, mul);
    }
  }

  /** The reported time is never further than half a rollover and a tick from now. */
  lemma WithinHalfRollover(ref: Timepoint, now: nat, ts: u16, mul: nat)
    requires mul > 0 && ref.ktime <= now
    ensures -0x7FFF * mul <= now - FrameTime(ref, now, ts, mul) <= 0x8000 * mul + mul - 1
  {
    EstimateBounds(ref, now, mul);
    var e, adj := Estimate(ref, now, mul), Adjustment(ref, now, ts, mul);
    assert (e + adj) * mul == e * mul + adj * mul;
    MulMonotone(-0x8000, adj, mul);
    MulMonotone(adj, 0x7FFF, mul);
  }

  /** For every clock reading more than about nine hours before the 64-bit range runs
      out, the reported time is the unbounded one. */
  lemma NoOverflow(ref: Timepoint, now: Ktime, ts: u16, mul: nat)
    requires 0 < mul <= BILLION && ref.ktime <= now
    requires now + 0x8000 * BILLION < 0x8000_0000_0000_0000
    ensures S64(FrameTime(ref, now, ts, mul)) == FrameTime(ref, now, ts, mul)
  {
    WithinHalfRollover(ref, now, ts, mul);
    MulMonotone(mul, BILLION, 0x8000);
  }

  /** Adding the signed 16-bit difference makes a number end in the stamp. */
  lemma AdjustedEndsIn(x: int, ts: u16)
    ensures (x + S16(ts - x)) % TWO16 == ts
  {
    var k := (ts - x + 0x8000) / TWO16;
    assert S16(ts - x) == ts - x - k * TWO16;
    SameRemainder(x + S16(ts - x), ts, TWO16, 0 - k);
  }

  lemma UniqueNear(e: int, refTs: u16, ts: u16, c: int)
    ensures (c + refTs) % TWO16 == ts && -0x8000 <= c - e < 0x8000 <==> c == e + S16(ts - (e + refTs))
  {
    var c' := e + S16(ts - (e + refTs));
    AdjustedEndsIn(e + refTs, ts);
    if (c + refTs) % TWO16 == ts && -0x8000 <= c - e < 0x8000 {
      CloseAndCongruent(c + refTs, c' + refTs, TWO16);
    }
  }

  /** The tick count is the unique one that ends in the hardware's 16 bits and lies
      within half a rollover of the estimate, on either side of the reference point. */
  lemma FrameTicksUnique(ref: Timepoint, now: nat, ts: u16, mul: nat, c: int)
    requires mul > 0
    ensures (c + ref.ts) % TWO16 == ts && -0x8000 <= c - Estimate(ref, now, mul) < 0x8000
      <==> c == FrameTicks(ref, now, ts, mul)
  {
    UniqueNear(Estimate(ref, now, mul), ref.ts, ts, c);
  }

  // ---------------------------------------------------------------- accuracy

  /** The hardware counter at time t: it runs at freq, from some phase. */
  function HwTicks(freq: nat, phase: int, t: int): int {
    (t * freq + phase) / BILLION
  }

  /** A frame: when it arrived, and how much later the driver looked at the clock. */
  datatype Arrival = Arrival(at: int, latency: nat)

  /** The 16-bit timestamp the hardware puts into the frame. */
  function Stamp(freq: nat, phase: int, a: Arrival): u16 {
    HwTicks(freq, phase, a.at) % TWO16
  }

  /** The reference point that processing `a` first would set. */
  function PointOf(freq: nat, phase: int, a: Arrival): Timepoint
    requires a.at + a.latency >= 0
  {
    Timepoint(a.at + a.latency, Stamp(freq, phase, a))
  }

  /** Hardware ticks between the first frame and this one. */
  function TrueTicks(freq: nat, phase: int, first: Arrival, a: Arrival): int {
    HwTicks(freq, phase, a.at) - HwTicks(freq, phase, first.at)
  }

  predicate InOrder(first: Arrival, a: Arrival) {
    0 <= first.at + first.latency <= a.at + a.latency
  }

  function RecoveredTicks(freq: nat, phase: int, first: Arrival, a: Arrival): int
    requires 0 < freq <= BILLION && InOrder(first, a)
  {
    FrameTicks(PointOf(freq, phase, first), a.at + a.latency, Stamp(freq, phase, a), TickNs(freq))
  }

  /** The count is recovered exactly when the estimate is off by at most half a rollover. */
  lemma RecoveredExactly(freq: nat, phase: int, first: Arrival, a: Arrival)
    requires 0 < freq <= BILLION && InOrder(first, a)
    ensures RecoveredTicks(freq, phase, first, a) == TrueTicks(freq, phase, first, a)
      <==> -0x8000 <= TrueTicks(freq, phase, first, a)
                      - Estimate(PointOf(freq, phase, first), a.at + a.latency, TickNs(freq)) < 0x8000
  {
    var ref, d := PointOf(freq, phase, first), TrueTicks(freq, phase, first, a);
    var h0, h := HwTicks(freq, phase, first.at), HwTicks(freq, phase, a.at);
    SameRemainder(d + ref.ts, h, TWO16, 0 - h0 / TWO16);
    FrameTicksUnique(ref, a.at + a.latency, Stamp(freq, phase, a), TickNs(freq), d);
  }

  lemma QuotientBounds(x: int, b: nat)
    requires b > 0
    ensures x - b < (x / b) * b <= x
  {
    assert x == (x / b) * b + x % b;
  }

  /** True ticks against elapsed time, both scaled by the frequency. */
  lemma TrueTicksBounds(freq: nat, phase: int, first: Arrival, a: Arrival)
    ensures var d := TrueTicks(freq, phase, first, a);
      (a.at - first.at) * freq - BILLION < d * BILLION < (a.at - first.at) * freq + BILLION
  {
    var x0, x := first.at * freq + phase, a.at * freq + phase;
    QuotientBounds(x0, BILLION);
    QuotientBounds(x, BILLION);
    assert x - x0 == (a.at - first.at) * freq;
  }

  /** Where in its tick time t falls, in nanoseconds, when a tick takes mul of them. */
  function WithinTick(freq: nat, phase: int, t: int): (r: nat)
    requires 0 < freq <= BILLION
    ensures r < TickNs(freq)
  {
    (t + phase / freq) % TickNs(freq)
  }

  lemma TicksSplit(k: int, mul: nat, r: nat, freq: nat)
    requires r < mul
    ensures (k * mul + r) * freq == k * (mul * freq) + r * freq
    ensures r * freq + freq <= mul * freq
  {
    MulMonotone(r, mul - 1, freq);
    assert (mul - 1) * freq == mul * freq - freq;
  }

  /** When freq divides 10^9, the hardware counts whole ticks of mul nanoseconds. */
  lemma HwTicksExact(freq: nat, phase: int, t: int)
    requires 0 < freq <= BILLION && BILLION % freq == 0
    ensures HwTicks(freq, phase, t) * TickNs(freq) + WithinTick(freq, phase, t) == t + phase / freq
  {
    var mul, p, q := TickNs(freq), phase / freq, phase % freq;
    var k, r := (t + p) / mul, (t + p) % mul;
    assert mul * freq == BILLION by { assert BILLION == (BILLION / freq) * freq + BILLION % freq; }
    assert t + p == k * mul + r && phase == p * freq + q;
    assert t * freq + phase == (t + p) * freq + q;
    TicksSplit(k, mul, r, freq);
    RemainderUnique(t * freq + phase, BILLION, k, r * freq + q);
  }

  lemma SpreadProduct(h: int, h0: int, e: int, m: int)
    ensures (h - h0 - e) * m == h * m - h0 * m - e * m
  {
  }

  /** When freq divides 10^9: how far the true count is from the estimate. It is how much
      less this frame waited than the first, in ticks, up to where in their ticks the two
      arrivals fell. */
  lemma EstimateError(freq: nat, phase: int, first: Arrival, a: Arrival)
    requires 0 < freq <= BILLION && BILLION % freq == 0 && InOrder(first, a)
    ensures var mul := TickNs(freq);
      var err := TrueTicks(freq, phase, first, a)
                 - Estimate(PointOf(freq, phase, first), a.at + a.latency, mul);
      var x := a.latency - first.latency + WithinTick(freq, phase, a.at) - WithinTick(freq, phase, first.at);
      0 <= x + err * mul < mul
  {
    var mul, ref := TickNs(freq), PointOf(freq, phase, first);
    var e := Estimate(ref, a.at + a.latency, mul);
    HwTicksExact(freq, phase, first.at);
    HwTicksExact(freq, phase, a.at);
    EstimateBounds(ref, a.at + a.latency, mul);
    SpreadProduct(HwTicks(freq, phase, a.at), HwTicks(freq, phase, first.at), e, mul);
  }

  lemma CompareMultiples(k: int, n: int, m: nat)
    requires m > 0 && n * m < k * m
    ensures n < k
  {
    if k <= n { MulMonotone(k, n, m); }
  }

  /** Dividing a strict two-sided bound by a positive factor. */
  lemma ScaleDown(x: int, y: int, m: nat, f: nat)
    requires f > 0 && y * f - m * f < x * f < y * f + m * f
    ensures y - m < x < y + m
  {
    assert (y - m) * f == y * f - m * f && (y + m) * f == y * f + m * f;
    CompareMultiples(x, y - m, f);
    CompareMultiples(y + m, x, f);
  }

  /** How much longer than the first frame one may wait. */
  predicate RecoverableExtra(freq: nat, extra: int)
    requires 0 < freq <= BILLION
  {
    -0x7FFE * TickNs(freq) - 1 <= extra <= 0x8000 * TickNs(freq)
  }

  predicate InWindow(freq: nat, first: Arrival, a: Arrival)
    requires 0 < freq <= BILLION
  {
    RecoverableExtra(freq, a.latency - first.latency)
  }

  lemma RecoveryWindow(freq: nat, phase: int, first: Arrival, a: Arrival)
    requires 0 < freq <= BILLION && BILLION % freq == 0 && InOrder(first, a) && InWindow(freq, first, a)
    ensures RecoveredTicks(freq, phase, first, a) == TrueTicks(freq, phase, first, a)
  {
    var mul := TickNs(freq);
    var err := TrueTicks(freq, phase, first, a)
               - Estimate(PointOf(freq, phase, first), a.at + a.latency, mul);
    RecoveredExactly(freq, phase, first, a);
    EstimateError(freq, phase, first, a);
    CompareMultiples(err, -0x8001, mul);
    CompareMultiples(0x8000, err, mul);
  }

  /** Where the two arrivals fall in their ticks decides at the edges of the window. */
  lemma OutsideWindow(freq: nat, phase: int, first: Arrival, a: Arrival)
    requires 0 < freq <= BILLION && BILLION % freq == 0 && InOrder(first, a)
    requires var x := a.latency - first.latency + WithinTick(freq, phase, a.at) - WithinTick(freq, phase, first.at);
      x <= -0x7FFF * TickNs(freq) - 1 || x >= 0x8001 * TickNs(freq)
    ensures RecoveredTicks(freq, phase, first, a) != TrueTicks(freq, phase, first, a)
  {
    var mul := TickNs(freq);
    var err := TrueTicks(freq, phase, first, a)
               - Estimate(PointOf(freq, phase, first), a.at + a.latency, mul);
    RecoveredExactly(freq, phase, first, a);
    EstimateError(freq, phase, first, a);
    if a.latency - first.latency + WithinTick(freq, phase, a.at) - WithinTick(freq, phase, first.at) >= 0x8001 * mul {
      CompareMultiples(-0x8000, err, mul);
    } else {
      CompareMultiples(err, 0x7FFF, mul);
    }
  }

  /** A first frame r nanoseconds into a tick and one s nanoseconds into another, which
      waits `extra` longer. */
  lemma ArrivalsWithin(freq: nat, extra: int, r: nat, s: nat) returns (first: Arrival, a: Arrival)
    requires 0 < freq <= BILLION && r < TickNs(freq) && s < TickNs(freq)
    ensures InOrder(first, a) && a.latency - first.latency == extra
    ensures WithinTick(freq, 0, first.at) == r && WithinTick(freq, 0, a.at) == s
  {
    var mul := TickNs(freq);
    var far: nat := if extra < 0 then 1 - extra else 1;
    MulMonotone(1, far, mul - 1);
    assert far * (mul - 1) == far * mul - far;
    first := Arrival(r, far);
    a := Arrival(far * mul + s, far + extra);
    assert 0 / freq == 0 by { RemainderUnique(0, freq, 0, 0); }
    RemainderUnique(r, mul, 0, r);
    RemainderUnique(far * mul + s, mul, far, s);
  }

  /** When freq divides 10^9: whatever the arrivals and the phase of the counter, a frame
      that waited `extra` longer than the first is recovered, exactly when that is at
      least -(2^15 - 2) ticks and one nanosecond and at most 2^15 ticks. */
  lemma RecoveryWindowExactly(freq: nat, extra: int)
    requires 0 < freq <= BILLION && BILLION % freq == 0
    ensures -0x7FFE * TickNs(freq) - 1 <= extra <= 0x8000 * TickNs(freq) <==>
      forall phase: int, first: Arrival, a: Arrival ::
        InOrder(first, a) && a.latency - first.latency == extra ==>
          RecoveredTicks(freq, phase, first, a) == TrueTicks(freq, phase, first, a)
  {
    if RecoverableExtra(freq, extra) {
      forall phase: int, first: Arrival, a: Arrival | InOrder(first, a) && a.latency - first.latency == extra
        ensures RecoveredTicks(freq, phase, first, a) == TrueTicks(freq, phase, first, a)
      {
        RecoveryWindow(freq, phase, first, a);
      }
    } else {
      var last := TickNs(freq) - 1;
      var first, a := ArrivalsWithin(freq, extra, if extra < 0 then last else 0, if extra < 0 then 0 else last);
      OutsideWindow(freq, 0, first, a);
    }
  }

  /** The time reported for `a` when `first` set the reference point. */
  function Reported(freq: nat, phase: int, first: Arrival, a: Arrival): int
    requires 0 < freq <= BILLION && InOrder(first, a)
  {
    FrameTime(PointOf(freq, phase, first), a.at + a.latency, Stamp(freq, phase, a), TickNs(freq))
  }

  /** t is the true arrival time plus the first frame's latency, to within one tick. */
  predicate Accurate(freq: nat, first: Arrival, a: Arrival, t: int)
    requires 0 < freq <= BILLION
  {
    -TickNs(freq) < t - (a.at + first.latency) < TickNs(freq)
  }

  lemma ReportedTime(freq: nat, phase: int, first: Arrival, a: Arrival)
    requires 0 < freq <= BILLION && BILLION % freq == 0 && InOrder(first, a) && InWindow(freq, first, a)
    ensures Accurate(freq, first, a, Reported(freq, phase, first, a))
  {
    var mul, d := TickNs(freq), TrueTicks(freq, phase, first, a);
    RecoveryWindow(freq, phase, first, a);
    assert mul * freq == BILLION by { assert BILLION == (BILLION / freq) * freq + BILLION % freq; }
    TrueTicksBounds(freq, phase, first, a);
    ScaleDown(d * mul, a.at - first.at, mul, freq);
  }

  /** The frames of a run, none of them seen before the first was, each inside the window. */
  predicate GoodRun(freq: nat, first: Arrival, frames: seq<Arrival>)
    requires 0 < freq <= BILLION
  {
    forall i :: 0 <= i < |frames| ==> InOrder(first, frames[i]) && InWindow(freq, first, frames[i])
  }

  /** The times the driver reports for a run of frames, from the reference point it has. */
  function Reports(freq: nat, phase: int, ref: Timepoint, frames: seq<Arrival>): (ts: seq<int>)
    requires 0 < freq <= BILLION
    requires forall i :: 0 <= i < |frames| ==> frames[i].at + frames[i].latency >= 0
    ensures |ts| == |frames|
    decreases |frames|
  {
    if frames == [] then [] else
      var now, ts := frames[0].at + frames[0].latency, Stamp(freq, phase, frames[0]);
      var ref' := Reference(ref, now, ts);
      [FrameTime(ref', now, ts, TickNs(freq))] + Reports(freq, phase, ref', frames[1..])
  }

  lemma {:induction false} ReportsFromReference(freq: nat, phase: int, first: Arrival, frames: seq<Arrival>, k: nat)
    requires 0 < freq <= BILLION && BILLION % freq == 0
    requires first.at + first.latency > 0 && GoodRun(freq, first, frames) && k < |frames|
    ensures Accurate(freq, first, frames[k], Reports(freq, phase, PointOf(freq, phase, first), frames)[k])
    decreases k
  {
    if k == 0 {
      ReportedTime(freq, phase, first, frames[0]);
    } else {
      ReportsFromReference(freq, phase, first, frames[1..], k - 1);
    }
  }

  /** No accumulation: in a run of any length, every frame inside the window is reported
      at its true arrival time plus the first frame's latency, to within one tick. */
  lemma RunAccuracy(freq: nat, phase: int, frames: seq<Arrival>, k: nat)
    requires 0 < freq <= BILLION && BILLION % freq == 0
    requires k < |frames| && frames[0].at + frames[0].latency > 0 && GoodRun(freq, frames[0], frames)
    ensures Accurate(freq, frames[0], frames[k], Reports(freq, phase, Timepoint(0, 0), frames)[k])
  {
    ReportsFromReference(freq, phase, frames[0], frames, k);
  }

  /** One arrival late enough for the drift to exceed half a rollover. */
  lemma DriftShows(freq: nat)
    requires 0 < freq <= BILLION && BILLION % freq != 0
    ensures var first := Arrival(0, 1); var a := Arrival(BILLION * (TickNs(freq) * TWO16), 1);
      InOrder(first, a) && RecoveredTicks(freq, 0, first, a) != TrueTicks(freq, 0, first, a)
  {
    var mul := TickNs(freq);
    var first, a := Arrival(0, 1), Arrival(BILLION * (mul * TWO16), 1);
    var r := BILLION % freq;
    assert BILLION == mul * freq + r;
    assert a.at * freq + 0 == (freq * (mul * TWO16)) * BILLION + 0;
    RemainderUnique(a.at * freq, BILLION, freq * (mul * TWO16), 0);
    assert TrueTicks(freq, 0, first, a) == freq * (mul * TWO16);
    assert a.at == (BILLION * TWO16) * mul + 0;
    RemainderUnique(a.at, mul, BILLION * TWO16, 0);
    assert Estimate(PointOf(freq, 0, first), a.at + a.latency, mul) == BILLION * TWO16;
    assert BILLION * TWO16 == (mul * freq) * TWO16 + r * TWO16;
    assert (mul * freq) * TWO16 == freq * (mul * TWO16);
    MulMonotone(1, r, TWO16);
    RecoveredExactly(freq, 0, first, a);
  }

  /** With every frame waiting equally long, the tick count is recovered for all of them
      exactly when the frequency divides 10^9; otherwise the truncated scale drifts. */
  lemma ExactFrequencies(freq: nat)
    requires 0 < freq <= BILLION
    ensures BILLION % freq == 0 <==>
      forall phase: int, first: Arrival, a: Arrival ::
        InOrder(first, a) && a.latency == first.latency ==>
          RecoveredTicks(freq, phase, first, a) == TrueTicks(freq, phase, first, a)
  {
    if BILLION % freq == 0 {
      forall phase: int, first: Arrival, a: Arrival | InOrder(first, a) && a.latency == first.latency
        ensures RecoveredTicks(freq, phase, first, a) == TrueTicks(freq, phase, first, a)
      {
        RecoveryWindow(freq, phase, first, a);
      }
    } else {
      DriftShows(freq);
    }
  }

  // ------------------------------------------------- the reference algorithm

  /** A multiple of m is at most x exactly when its factor is at most x / m. */
  lemma NotAfter(x: nat, m: nat, c: nat)
    requires m > 0
    ensures c * m <= x <==> c <= x / m
  {
    assert x == (x / m) * m + x % m;
    if c <= x / m { MulMonotone(c, x / m, m); } else { MulMonotone(x / m + 1, c, m); }
  }

  function ToNs(freq: nat, ticks: nat): (ns: nat)
    requires 0 < freq <= BILLION
    ensures ns >= ticks
  {
    MulMonotone(freq, BILLION, ticks);
    NotAfter(ticks * BILLION, freq, ticks);
    ticks * BILLION / freq
  }

  /** The algorithm of the comment before the function. */
  function CommentTime(freq: nat, ref: Timepoint, now: nat, ts: u16): int
    requires 0 < freq <= BILLION && ref.ktime <= now
  {
    var rollover := ToNs(freq, TWO16);
    var tsdelta := U16(ts - ref.ts);
    if now - ref.ktime < rollover then ref.ktime + ToNs(freq, tsdelta)
    else
      var frame := ref.ktime + (now - ref.ktime) / rollover * rollover + ToNs(freq, tsdelta);
      if frame > now then frame - rollover else frame
  }

  /** The comment's exact conversion and the code's truncated scale agree on a rollover. */
  predicate ScalesAgree(freq: nat)
    requires 0 < freq <= BILLION
  {
    TWO16 * (BILLION % freq) < freq
  }

  lemma ToNsExact(freq: nat, ticks: nat)
    requires 0 < freq <= BILLION && ScalesAgree(freq) && ticks <= TWO16
    ensures ToNs(freq, ticks) == ticks * TickNs(freq)
  {
    var mul, r := TickNs(freq), BILLION % freq;
    assert BILLION == mul * freq + r;
    MulMonotone(ticks, TWO16, r);
    assert ticks * BILLION == (ticks * mul) * freq + ticks * r;
    RemainderUnique(ticks * BILLION, freq, ticks * mul, ticks * r);
  }

  lemma RolloverLonger(freq: nat)
    requires 0 < freq <= BILLION && !ScalesAgree(freq)
    ensures ToNs(freq, TWO16) > TWO16 * TickNs(freq)
  {
    var mul, r := TickNs(freq), BILLION % freq;
    assert BILLION == mul * freq + r;
    assert TWO16 * BILLION == (TWO16 * mul) * freq + TWO16 * r;
    assert (TWO16 * mul + 1) * freq == (TWO16 * mul) * freq + freq;
    NotAfter(TWO16 * BILLION, freq, TWO16 * mul + 1);
  }

  /** In ticks: the comment's candidate is the last count congruent to the stamp that is
      not after the estimate, once a rollover has passed. */
  function CommentTicks(e: nat, delta: u16): int {
    if e < TWO16 then delta
    else
      var c := e / TWO16 * TWO16 + delta;
      if c > e then c - TWO16 else c
  }

  /** Scaling the comment's candidate: n rollovers and delta ticks, one rollover less if
      that is after now. */
  lemma ScaledCandidate(x: nat, mul: nat, n: nat, delta: u16)
    requires mul > 0
    ensures n * (TWO16 * mul) + delta * mul == (n * TWO16 + delta) * mul
    ensures (n * TWO16 + delta) * mul - TWO16 * mul == (n * TWO16 + delta - TWO16) * mul
    ensures n * (TWO16 * mul) + delta * mul > x <==> n * TWO16 + delta > x / mul
    ensures x < TWO16 * mul <==> x / mul < TWO16
  {
    assert (n * TWO16) * mul == n * (TWO16 * mul);
    assert (n * TWO16 + delta) * mul == (n * TWO16) * mul + delta * mul;
    NotAfter(x, mul, n * TWO16 + delta);
    NotAfter(x, mul, TWO16);
  }

  lemma RolloverQuotient(x: nat, mul: nat)
    requires mul > 0
    ensures x / (TWO16 * mul) == (x / mul) / TWO16
  {
    var q := x / mul;
    assert x == q * mul + x % mul;
    assert q == (q / TWO16) * TWO16 + q % TWO16;
    var rest := (q % TWO16) * mul + x % mul;
    assert q * mul == ((q / TWO16) * TWO16) * mul + (q % TWO16) * mul;
    assert ((q / TWO16) * TWO16) * mul == (q / TWO16) * (TWO16 * mul);
    MulMonotone(q % TWO16, TWO16 - 1, mul);
    assert (TWO16 - 1) * mul == TWO16 * mul - mul;
    RemainderUnique(x, TWO16 * mul, q / TWO16, rest);
  }

  lemma CommentInTicks(freq: nat, ref: Timepoint, now: nat, ts: u16)
    requires 0 < freq <= BILLION && ScalesAgree(freq) && ref.ktime <= now
    ensures ToNs(freq, TWO16) == TWO16 * TickNs(freq)
    ensures Estimate(ref, now, TickNs(freq)) >= 0
    ensures CommentTime(freq, ref, now, ts)
         == ref.ktime + CommentTicks(Estimate(ref, now, TickNs(freq)), U16(ts - ref.ts)) * TickNs(freq)
  {
    var mul, x, delta := TickNs(freq), now - ref.ktime, U16(ts - ref.ts);
    ToNsExact(freq, TWO16);
    ToNsExact(freq, delta);
    EstimateBounds(ref, now, mul);
    RolloverQuotient(x, mul);
    ScaledCandidate(x, mul, Estimate(ref, now, mul) / TWO16, delta);
  }

  lemma RolloversInNs(k: int, n: int, mul: nat)
    ensures (k + n * TWO16) * mul == k * mul + n * (TWO16 * mul)
  {
    assert (n * TWO16) * mul == n * (TWO16 * mul);
  }

  function AheadOfEstimate(e: int, d: u16): int {
    if 0 < U16(d - e) < 0x8000 then 1 else 0
  }

  function NearestRollover(e: int, d: u16): int {
    if d >= e + 0x8000 then -1 else if d < e - 0x8000 then 1 else 0
  }

  /** How many rollovers the live code is later than the comment: e is the estimate from
      the clocks and d how far the frame's stamp is ahead of the reference's. Once a rollover
      has passed, the signed adjustment is positive exactly when the stamp is less than
      half a rollover ahead of the estimate; before that, the code moves the frame by a
      rollover when the stamp is half a rollover or more from the estimate. */
  function RolloversApart(freq: nat, ref: Timepoint, now: nat, ts: u16): int
    requires 0 < freq <= BILLION && ref.ktime <= now
  {
    var e, d := Estimate(ref, now, TickNs(freq)), U16(ts - ref.ts);
    if now - ref.ktime >= ToNs(freq, TWO16) then AheadOfEstimate(e, d)
    else NearestRollover(e, d)
  }

  /** CommentTicks is the last count congruent to d that is not after e. */
  lemma AheadInTicks(e: nat, d: u16)
    requires e >= TWO16
    ensures e + S16(d - e) == CommentTicks(e, d) + AheadOfEstimate(e, d) * TWO16
  {
    var q, r := e / TWO16, e % TWO16;
    assert e == q * TWO16 + r;
    S16OfCongruent(d - r, d - e, q);
    SameRemainder(d - r, d - e, TWO16, q);
  }

  lemma TicksAgainstComment(e: nat, d: u16)
    ensures e >= TWO16 ==> e + S16(d - e) == CommentTicks(e, d) + AheadOfEstimate(e, d) * TWO16
    ensures e < TWO16 ==> e + S16(d - e) == CommentTicks(e, d) + NearestRollover(e, d) * TWO16
  {
    if e >= TWO16 {
      AheadInTicks(e, d);
    }
  }

  lemma LiveInTicks(freq: nat, ref: Timepoint, now: nat, ts: u16)
    requires 0 < freq <= BILLION && ScalesAgree(freq) && ref.ktime <= now
    requires Estimate(ref, now, TickNs(freq)) >= 0
    ensures FrameTicks(ref, now, ts, TickNs(freq))
         == CommentTicks(Estimate(ref, now, TickNs(freq)), U16(ts - ref.ts))
            + RolloversApart(freq, ref, now, ts) * TWO16
  {
    var mul := TickNs(freq);
    var e, d := Estimate(ref, now, mul), U16(ts - ref.ts);
    ToNsExact(freq, TWO16);
    NotAfter(now - ref.ktime, mul, TWO16);
    S16OfCongruent(ts - (e + ref.ts), d - e, (ts - ref.ts) / TWO16);
    TicksAgainstComment(e, d);
  }

  lemma PositiveS16(x: int)
    ensures S16(x) > 0 <==> 0 < U16(x) < 0x8000
  {
    S16OfCongruent(x, U16(x), x / TWO16);
  }

  lemma AdjustmentSign(ref: Timepoint, now: nat, ts: u16, mul: nat)
    requires mul > 0
    ensures Adjustment(ref, now, ts, mul) > 0
      <==> AheadOfEstimate(Estimate(ref, now, mul), U16(ts - ref.ts)) == 1
  {
    var e, d := Estimate(ref, now, mul), U16(ts - ref.ts);
    S16OfCongruent(ts - (e + ref.ts), d - e, (ts - ref.ts) / TWO16);
    PositiveS16(d - e);
  }

  /** The live code against the comment, when the scales agree. Once a rollover has
      passed they agree when the signed adjustment is not positive, and the live code is
      later by one rollover when it is. Before that they agree unless the live code puts
      the frame before the reference point or a whole rollover after it. */
  lemma LiveAgainstComment(freq: nat, ref: Timepoint, now: nat, ts: u16)
    requires 0 < freq <= BILLION && ScalesAgree(freq) && ref.ktime <= now
    ensures FrameTime(ref, now, ts, TickNs(freq))
         == CommentTime(freq, ref, now, ts) + RolloversApart(freq, ref, now, ts) * ToNs(freq, TWO16)
    ensures now - ref.ktime >= ToNs(freq, TWO16) ==>
      RolloversApart(freq, ref, now, ts) == if Adjustment(ref, now, ts, TickNs(freq)) > 0 then 1 else 0
  {
    var mul := TickNs(freq);
    AdjustmentSign(ref, now, ts, mul);
    CommentInTicks(freq, ref, now, ts);
    LiveInTicks(freq, ref, now, ts);
    var c, n := FrameTicks(ref, now, ts, mul), RolloversApart(freq, ref, now, ts);
    var k := CommentTicks(Estimate(ref, now, mul), U16(ts - ref.ts));
    RolloversInNs(k, n, mul);
  }

  lemma ToNsOfNothing(freq: nat)
    requires 0 < freq <= BILLION
    ensures ToNs(freq, 0) == 0
  {
    RemainderUnique(0, freq, 0, 0);
  }

  /** For no other frequency: when exactly 2^16 truncated ticks have passed and the stamp is
      the reference's own, the comment counts less than a rollover and the code counts one. */
  lemma ScalesDiffer(freq: nat, ref: Timepoint)
    requires 0 < freq <= BILLION && !ScalesAgree(freq)
    ensures var now := ref.ktime + TWO16 * TickNs(freq);
      FrameTime(ref, now, ref.ts, TickNs(freq))
      != CommentTime(freq, ref, now, ref.ts) + RolloversApart(freq, ref, now, ref.ts) * ToNs(freq, TWO16)
  {
    var mul := TickNs(freq);
    var now := ref.ktime + TWO16 * mul;
    RolloverLonger(freq);
    RemainderUnique(now - ref.ktime, mul, TWO16, 0);
    assert FrameTicks(ref, now, ref.ts, mul) == TWO16;
    ToNsOfNothing(freq);
  }

  /** The relation between the live code and the comment holds for every input exactly
      when 2^16 times the remainder of 10^9 by the frequency is below the frequency, so
      for every frequency that divides 10^9. */
  lemma CommentMatchesExactly(freq: nat)
    requires 0 < freq <= BILLION
    ensures TWO16 * (BILLION % freq) < freq <==>
      forall ref: Timepoint, now: nat, ts: u16 :: ref.ktime <= now ==>
        FrameTime(ref, now, ts, TickNs(freq))
        == CommentTime(freq, ref, now, ts) + RolloversApart(freq, ref, now, ts) * ToNs(freq, TWO16)
  {
    if ScalesAgree(freq) {
      forall ref: Timepoint, now: nat, ts: u16 | ref.ktime <= now
        ensures FrameTime(ref, now, ts, TickNs(freq))
             == CommentTime(freq, ref, now, ts) + RolloversApart(freq, ref, now, ts) * ToNs(freq, TWO16)
      {
        LiveAgainstComment(freq, ref, now, ts);
      }
    } else {
      ScalesDiffer(freq, Timepoint(1, 0));
    }
  }
}
