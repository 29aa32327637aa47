/** The audio PWM: a reloading divider (cnt_div) that triggers a down-counter
    (pulse_gen), both clocked together. */
module Pwm {
  /** Number of values of a 24-bit register. */
  const RANGE: nat := 0x100_0000

  type u24 = x: int | 0 <= x < RANGE

  // ------------------------------------------------------------ one clock edge

  predicate DivTrigger(cnt: u24) { cnt <= 1 }

  function DivNext(cnt: u24, ratio: u24): u24 {
    if cnt <= 1 then ratio else cnt - 1
  }

  function PulseNext(cnt: u24, trigger: bool, duration: u24): u24 {
    if trigger then duration else if cnt == 0 then 0 else cnt - 1
  }

  predicate PulseOut(cnt: u24, trigger: bool, duration: u24) {
    if trigger then duration != 0 else cnt != 0
  }

  datatype PwmInput = PwmInput(period: u24, duty: u24)
  datatype PwmState = PwmState(div: u24, pulse: u24)

  function ResetState(i: PwmInput): PwmState { PwmState(i.period, 0) }

  function Next(s: PwmState, i: PwmInput): PwmState {
    PwmState(DivNext(s.div, i.period), PulseNext(s.pulse, DivTrigger(s.div), i.duty))
  }

  predicate Output(s: PwmState, i: PwmInput) {
    PulseOut(s.pulse, DivTrigger(s.div), i.duty)
  }

  /** The samples of the output over a run. */
  function Outputs(s: PwmState, ins: seq<PwmInput>): (out: seq<bool>)
    ensures |out| == |ins|
    decreases |ins|
  {
    if ins == [] then [] else [Output(s, ins[0])] + Outputs(Next(s, ins[0]), ins[1..])
  }

  function After(s: PwmState, ins: seq<PwmInput>): PwmState
    decreases |ins|
  {
    if ins == [] then s else After(Next(s, ins[0]), ins[1..])
  }

  // --------------------------------------------------------- the period's view

  function Max(a: int, b: int): int { if a < b then b else a }
  function Min(a: int, b: int): int { if a < b then a else b }

  /** Samples of one period of length m with duty D: D + 1 high samples first, none when
      D is zero. */
  function Period(m: nat, duty: u24): (w: seq<bool>)
    ensures |w| == m
  {
    seq(m, j => duty > 0 && j <= duty)
  }

  /** What the PWM is for, without counters: period and duty are read at the start of a
      period and nothing written later disturbs it. The last period may be cut short. */
  function Wave(ins: seq<PwmInput>): (w: seq<bool>)
    ensures |w| == |ins|
    decreases |ins|
  {
    if ins == [] then [] else
      var n := Min(Max(ins[0].period, 1), |ins|);
      Period(n, ins[0].duty) + Wave(ins[n..])
  }

  lemma {:induction false} OutputsSplit(s: PwmState, a: seq<PwmInput>, b: seq<PwmInput>)
    ensures Outputs(s, a + b) == Outputs(s, a) + Outputs(After(s, a), b)
    decreases |a|
  {
    if a == [] {
      assert a + b == b;
    } else {
      assert (a + b)[1..] == a[1..] + b;
      OutputsSplit(Next(s, a[0]), a[1..], b);
    }
  }

  /** A pulse that has p cycles to go. */
  function Falling(n: nat, p: nat): (w: seq<bool>)
    ensures |w| == n
  {
    seq(n, j => j < p)
  }

  /** Between triggers the divider only counts down, and the output shows whether the
      pulse is still running. */
  lemma {:induction false} Coast(s: PwmState, ins: seq<PwmInput>)
    requires |ins| < s.div
    ensures After(s, ins).div == s.div - |ins|
    ensures Outputs(s, ins) == Falling(|ins|, s.pulse)
    decreases |ins|
  {
    if ins != [] {
      var s' := Next(s, ins[0]);
      Coast(s', ins[1..]);
      assert Falling(|ins|, s.pulse) == [Output(s, ins[0])] + Falling(|ins| - 1, s'.pulse);
    }
  }

  /** The cycles of one period, or of its beginning, from the trigger on. */
  lemma OnePeriod(s: PwmState, ins: seq<PwmInput>)
    requires DivTrigger(s.div) && 0 < |ins| <= Max(ins[0].period, 1)
    ensures Outputs(s, ins) == Period(|ins|, ins[0].duty)
    ensures |ins| == Max(ins[0].period, 1) ==> DivTrigger(After(s, ins).div)
  {
    var i, s' := ins[0], Next(s, ins[0]);
    if i.period >= 1 {
      Coast(s', ins[1..]);
    }
    assert Period(|ins|, i.duty) == [i.duty > 0] + Falling(|ins| - 1, i.duty);
  }

  /** From a trigger on, the two counters produce exactly the period-wise wave, for every
      sequence of register values and runs of every length. */
  lemma {:induction false} OutputsAreWave(s: PwmState, ins: seq<PwmInput>)
    requires DivTrigger(s.div)
    ensures Outputs(s, ins) == Wave(ins)
    decreases |ins|
  {
    if ins != [] {
      var n := Min(Max(ins[0].period, 1), |ins|);
      assert ins == ins[..n] + ins[n..];
      OutputsSplit(s, ins[..n], ins[n..]);
      OnePeriod(s, ins[..n]);
      if n < |ins| {
        OutputsAreWave(After(s, ins[..n]), ins[n..]);
      }
    }
  }

  /** After reset: silence until the divider has counted the period once, then the wave. */
  lemma OutputsAfterReset(i: PwmInput, ins: seq<PwmInput>)
    ensures var n := Min(Max(i.period - 1, 0), |ins|);
      Outputs(ResetState(i), ins) == Falling(n, 0) + Wave(ins[n..])
  {
    var s := ResetState(i);
    var n := Min(Max(i.period - 1, 0), |ins|);
    assert ins == ins[..n] + ins[n..];
    OutputsSplit(s, ins[..n], ins[n..]);
    if i.period > 0 {
      Coast(s, ins[..n]);
    } else {
      assert ins[..n] == [];
    }
    if n < |ins| {
      OutputsAreWave(After(s, ins[..n]), ins[n..]);
    }
  }

  function High(w: seq<bool>): nat {
    if w == [] then 0 else (if w[0] then 1 else 0) + High(w[1..])
  }

  lemma {:induction false} HighOfPrefix(m: nat, h: nat)
    ensures High(Falling(m, h)) == Min(m, h)
  {
    if m > 0 {
      var w := Falling(m, h);
      if h == 0 {
        assert w[1..] == Falling(m - 1, 0);
        HighOfPrefix(m - 1, 0);
      } else {
        assert w[1..] == Falling(m - 1, h - 1);
        HighOfPrefix(m - 1, h - 1);
      }
    }
  }

  /** Exactness of one period: the next trigger comes exactly max(P, 1) cycles after a
      trigger that saw period P and duty D, and the output is high for exactly
      min(D + 1, max(P, 1)) of them, the first ones; for none when D is zero. */
  lemma PeriodExact(s: PwmState, ins: seq<PwmInput>)
    requires DivTrigger(s.div) && ins != [] && |ins| == Max(ins[0].period, 1)
    ensures forall j :: 0 < j < |ins| ==> !DivTrigger(After(s, ins[..j]).div)
    ensures DivTrigger(After(s, ins).div)
    ensures High(Outputs(s, ins)) == if ins[0].duty == 0 then 0 else Min(ins[0].duty + 1, |ins|)
  {
    var i := ins[0];
    OnePeriod(s, ins);
    var h := if i.duty == 0 then 0 else i.duty + 1;
    assert Period(|ins|, i.duty) == Falling(|ins|, h);
    HighOfPrefix(|ins|, h);
    forall j | 0 < j < |ins|
      ensures !DivTrigger(After(s, ins[..j]).div)
    {
      assert ins[..j][1..] == ins[1..j];
      Coast(Next(s, i), ins[1..j]);
    }
  }

  /** Register writes between two triggers change nothing before the second. */
  lemma MidPeriodWritesIgnored(s: PwmState, a: seq<PwmInput>, b: seq<PwmInput>)
    requires DivTrigger(s.div) && |a| == |b| > 0 && a[0] == b[0]
    requires var n := Min(Max(a[0].period, 1), |a|); a[n..] == b[n..]
    ensures Outputs(s, a) == Outputs(s, b)
  {
    OutputsAreWave(s, a);
    OutputsAreWave(s, b);
  }

  // ------------------------------------------------------------- the circuits

  /** cnt_div: one clock edge. `q` is the combinational output before the edge. */
  class CntDiv {
    var cnt: u24

    constructor (c: u24)
      ensures cnt == c
    {
      cnt := c;
    }

    method Clock(reset: bool, en: bool, ratio: u24) returns (q: bool)
      modifies this
      ensures q == (!reset && en && DivTrigger(old(cnt)))
      ensures cnt == if reset then ratio else if en then DivNext(old(cnt), ratio) else old(cnt)
    {
      var next: u24;
      if reset {
        next, q := ratio, false;
      } else if !en {
        next, q := cnt, false;
      } else if cnt <= 1 {
        next, q := ratio, true;
      } else {
        next, q := cnt - 1, false;
      }
      cnt := next;
    }
  }

  /** pulse_gen: one clock edge. With the enable low the code assigns no output, so a
      latch keeps the last one. */
  class PulseGen {
    var cnt: u24
    var latch: bool

    constructor ()
      ensures cnt == 0 && !latch
    {
      cnt, latch := 0, false;
    }

    method Clock(reset: bool, en: bool, trigger: bool, duration: u24) returns (q: bool)
      modifies this
      ensures q == if reset then false else if en then PulseOut(old(cnt), trigger, duration) else old(latch)
      ensures cnt == if reset then 0 else if en then PulseNext(old(cnt), trigger, duration) else old(cnt)
      ensures latch == q
    {
      var next: u24;
      if reset {
        next, q := 0, false;
      } else if !en {
        next, q := cnt, latch;
      } else if trigger {
        q := duration != 0;
        next := duration;
      } else if cnt == 0 {
        next, q := cnt, false;
      } else {
        next, q := cnt - 1, true;
      }
      cnt, latch := next, q;
    }
  }

  /** The wiring of audio_single_pwm_v1_0: both enables high, the divider's output is the
      trigger, period and duty come from the register file. */
  class PwmTop {
    const div: CntDiv
    const pulse: PulseGen

    ghost function State(): PwmState
      reads div, pulse
    {
      PwmState(div.cnt, pulse.cnt)
    }

    constructor (c: u24)
      ensures fresh(div) && fresh(pulse) && State() == PwmState(c, 0)
    {
      div := new CntDiv(c);
      pulse := new PulseGen();
    }

    method Clock(reset: bool, i: PwmInput) returns (out: bool)
      modifies div, pulse
      ensures State() == if reset then ResetState(i) else Next(old(State()), i)
      ensures out == (!reset && Output(old(State()), i))
    {
      var start := div.Clock(reset, true, i.period);
      out := pulse.Clock(reset, true, start, i.duty);
    }

    /** Any number of clock edges out of reset: the samples of the speaker output. */
    method Play(ins: seq<PwmInput>) returns (samples: seq<bool>)
      modifies div, pulse
      ensures samples == Outputs(old(State()), ins)
      ensures DivTrigger(old(State()).div) ==> samples == Wave(ins)
    {
      samples := [];
      ghost var s0 := State();
      for t := 0 to |ins|
        invariant samples + Outputs(State(), ins[t..]) == Outputs(s0, ins)
      {
        var out := Clock(false, ins[t]);
        assert ins[t..][1..] == ins[t + 1..];
        samples := samples + [out];
      }
      if DivTrigger(s0.div) { OutputsAreWave(s0, ins); }
    }
  }
}
