/** audio_single_pwm_v1_0: the slave's registers 2 and 3 feed the PWM. */
module AudioTop {
  import opened Machine
  import opened ByteLanes
  import opened AxiSlave
  import opened AxiSlaveRun
  import opened Pwm

  /** audio_pwm_period and audio_pwm_duty: the low 24 bits of two registers. */
  function PwmInputs(regs: seq<u32>): PwmInput
    requires |regs| == REGS
  {
    PwmInput(regs[2] % RANGE, regs[3] % RANGE)
  }

  /** What the PWM sees, cycle by cycle, under any bus traffic and any resets. */
  function Inputs(s: Slave, es: seq<Edge>): (ins: seq<PwmInput>)
    requires |s.regs| == REGS
    ensures |ins| == |es|
    decreases |es|
  {
    if es == [] then [] else [PwmInputs(s.regs)] + Inputs(StepSlave(s, es[0].aresetn, es[0].m), es[1..])
  }

  /** The PWM after one edge; fsm_rst is the inverted bus reset. */
  function NextPwm(q: PwmState, aresetn: bool, i: PwmInput): PwmState {
    if aresetn then Next(q, i) else ResetState(i)
  }

  /** The speaker's samples under the same edges. */
  function Speaker(s: Slave, q: PwmState, es: seq<Edge>): (out: seq<bool>)
    requires |s.regs| == REGS
    ensures |out| == |es|
    decreases |es|
  {
    if es == [] then [] else
      var e, i := es[0], PwmInputs(s.regs);
      [e.aresetn && Output(q, i)] + Speaker(StepSlave(s, e.aresetn, e.m), NextPwm(q, e.aresetn, i), es[1..])
  }

  lemma SpeakerStep(s: Slave, q: PwmState, es: seq<Edge>)
    requires |s.regs| == REGS && es != []
    ensures var e, i := es[0], PwmInputs(s.regs);
      Speaker(s, q, es) == [e.aresetn && Output(q, i)]
        + Speaker(StepSlave(s, e.aresetn, e.m), NextPwm(q, e.aresetn, i), es[1..])
  {
  }

  class Top {
    const slave: SlaveCore
    const pwm: PwmTop

    ghost predicate Valid()
      reads slave, slave.slvReg, pwm, pwm.div, pwm.pulse
    {
      slave.Valid()
    }

    constructor ()
      ensures Valid() && slave.State() == ResetSlave() && pwm.State() == PwmState(0, 0)
      ensures fresh(slave) && fresh(slave.slvReg) && fresh(pwm.div) && fresh(pwm.pulse)
    {
      slave := new SlaveCore();
      pwm := new PwmTop(0);
    }

    /** One edge of the common clock. */
    method Clock(e: Edge) returns (speaker: bool)
      requires Valid()
      modifies slave, slave.slvReg, pwm.div, pwm.pulse
      ensures Valid() && slave.State() == StepSlave(old(slave.State()), e.aresetn, e.m)
      ensures var i := PwmInputs(old(slave.State()).regs);
        pwm.State() == NextPwm(old(pwm.State()), e.aresetn, i) && speaker == (e.aresetn && Output(old(pwm.State()), i))
    {
      var i := PwmInput(slave.slvReg[2] % RANGE, slave.slvReg[3] % RANGE);
      speaker := pwm.Clock(!e.aresetn, i);
      slave.RisingEdge(e.aresetn, e.m);
    }

    /** Any number of edges: the samples of the speaker. */
    method Play(es: seq<Edge>) returns (samples: seq<bool>)
      requires Valid()
      modifies slave, slave.slvReg, pwm.div, pwm.pulse
      ensures Valid() && samples == Speaker(old(slave.State()), old(pwm.State()), es)
    {
      samples := [];
      ghost var all := Speaker(slave.State(), pwm.State(), es);
      for t := 0 to |es|
        invariant Valid() && samples + Speaker(slave.State(), pwm.State(), es[t..]) == all
      {
        ghost var s, q := slave.State(), pwm.State();
        var out := Clock(es[t]);
        SpeakerStep(s, q, es[t..]);
        assert es[t..][1..] == es[t + 1..];
        AppendAssociates(samples, [out], Speaker(slave.State(), pwm.State(), es[t + 1..]));
        samples := samples + [out];
      }
    }
  }

  // --------------------------------------------------- whole periods, always

  predicate OutOfReset(es: seq<Edge>) {
    forall k :: 0 <= k < |es| ==> es[k].aresetn
  }

  lemma {:induction false} SpeakerFollowsRegisters(s: Slave, q: PwmState, es: seq<Edge>)
    requires |s.regs| == REGS && OutOfReset(es)
    ensures Speaker(s, q, es) == Outputs(q, Inputs(s, es))
    decreases |es|
  {
    if es != [] {
      SpeakerFollowsRegisters(StepSlave(s, true, es[0].m), Next(q, PwmInputs(s.regs)), es[1..]);
    }
  }

  /** From a trigger on, whatever the bus does, the speaker plays whole periods of the
      values the registers held at each trigger. */
  lemma SpeakerPlaysWave(s: Slave, q: PwmState, es: seq<Edge>)
    requires |s.regs| == REGS && DivTrigger(q.div) && OutOfReset(es)
    ensures Speaker(s, q, es) == Wave(Inputs(s, es))
  {
    SpeakerFollowsRegisters(s, q, es);
    OutputsAreWave(q, Inputs(s, es));
  }

  // ------------------------------------------------------ seen from the bus

  /** In every run of the slave, resets included: the period is in the word at byte address 8,
      the duty in the word at 12, as the accepted writes have left them. */
  lemma PwmFromBus(regs: seq<u32>, es: seq<Edge>)
    requires |regs| == REGS && Run(regs, es).Some?
    ensures var p, base := Run(regs, es).value, Base(regs, es);
      PwmInputs(p.s.regs) == PwmInput(Fold(base, p.h.writes, Index(8)) % 0x100_0000,
                                      Fold(base, p.h.writes, Index(12)) % 0x100_0000)
  {
    IndexOfAddress(8);
    IndexOfAddress(12);
    assert Index(8) == 2 && Index(12) == 3;
    SlaveIsMemory(regs, es);
  }

  /** The master asks for no write. */
  predicate NoWrites(es: seq<Edge>) {
    forall k :: 0 <= k < |es| ==> es[k].aresetn && !es[k].m.awvalid
  }

  lemma {:induction false} RegistersStay(s: Slave, es: seq<Edge>, j: nat)
    requires |s.regs| == REGS && NoWrites(es) && j < |es|
    ensures Inputs(s, es)[j] == PwmInputs(s.regs)
    decreases |es|
  {
    var s' := StepSlave(s, true, es[0].m);
    assert s'.regs == s.regs;
    if j > 0 { RegistersStay(s', es[1..], j - 1); }
  }

  /** The sample of a tone: in each stretch of max(period, 1) cycles the first duty + 1 are
      high, and none if the duty is zero. */
  predicate Tone(period: nat, duty: nat, j: nat) {
    duty > 0 && j % Max(period, 1) <= duty
  }

  lemma PeriodOn(m: nat, j: nat)
    requires m > 0 && j >= m
    ensures (j - m) % m == j % m
  {
    SameRemainder(j - m, j, m, -1);
  }

  lemma {:induction false} WaveOfConstant(ins: seq<PwmInput>, i: PwmInput, j: nat)
    requires j < |ins| && forall k :: 0 <= k < |ins| ==> ins[k] == i
    ensures Wave(ins)[j] == Tone(i.period, i.duty, j)
    decreases |ins|
  {
    var m := Max(i.period, 1);
    var n := Min(m, |ins|);
    if j < n {
      RemainderUnique(j, m, 0, j);
    } else {
      PeriodOn(m, j);
      WaveOfConstant(ins[n..], i, j - n);
    }
  }

  /** Once the registers hold a period and a duty and the bus writes no more, the speaker
      plays their tone from the next trigger on, for ever. */
  lemma SpeakerPlaysTone(s: Slave, q: PwmState, es: seq<Edge>, j: nat)
    requires |s.regs| == REGS && DivTrigger(q.div) && NoWrites(es) && j < |es|
    ensures Speaker(s, q, es)[j] == Tone(PwmInputs(s.regs).period, PwmInputs(s.regs).duty, j)
  {
    SpeakerPlaysWave(s, q, es);
    forall k | 0 <= k < |es|
      ensures Inputs(s, es)[k] == PwmInputs(s.regs)
    {
      RegistersStay(s, es, k);
    }
    WaveOfConstant(Inputs(s, es), PwmInputs(s.regs), j);
  }

  lemma FoldOfLast(base: seq<u32>, writes: seq<WriteOp>, period: u32, duty: u32)
    requires |base| == REGS && |writes| >= 2
    requires writes[|writes| - 2] == WriteOp(8, period, ALL_LANES)
    requires writes[|writes| - 1] == WriteOp(12, duty, ALL_LANES)
    ensures Fold(base, writes, Index(8)) == period && Fold(base, writes, Index(12)) == duty
  {
    IndexOfAddress(8);
    IndexOfAddress(12);
    var before := writes[..|writes| - 1];
    assert before[|before| - 1] == WriteOp(8, period, ALL_LANES);
    assert Fold(base, before, Index(8)) == period;
  }

  /** From the bus to the speaker: after a write of `period` to byte address 8 and one of
      `duty` to 12, in any run with any resets before them, the speaker plays their tone from
      the next trigger on. */
  lemma {:induction false} WritesPlayTone(
      regs: seq<u32>, es: seq<Edge>, q: PwmState, more: seq<Edge>, period: u32, duty: u32, j: nat)
    requires |regs| == REGS && Run(regs, es).Some? && |Run(regs, es).value.h.writes| >= 2
    requires var writes := Run(regs, es).value.h.writes;
      && writes[|writes| - 2] == WriteOp(8, period, ALL_LANES)
      && writes[|writes| - 1] == WriteOp(12, duty, ALL_LANES)
    requires DivTrigger(q.div) && NoWrites(more) && j < |more|
    ensures Speaker(Run(regs, es).value.s, q, more)[j] == Tone(period % 0x100_0000, duty % 0x100_0000, j)
  {
    var p := Run(regs, es).value;
    PwmFromBus(regs, es);
    FoldOfLast(Base(regs, es), p.h.writes, period, duty);
    SpeakerPlaysTone(p.s, q, more, j);
  }

  // ------------------------------------------------------------------ reset

  /** A PWM that has nothing to play. */
  predicate Mute(s: Slave, q: PwmState) {
    |s.regs| == REGS && PwmInputs(s.regs).duty == 0 && q.pulse == 0
  }

  lemma {:induction false} MuteStays(s: Slave, q: PwmState, es: seq<Edge>, j: nat)
    requires Mute(s, q) && NoWrites(es) && j < |es|
    ensures !Speaker(s, q, es)[j]
    decreases |es|
  {
    if j > 0 {
      MuteStays(StepSlave(s, true, es[0].m), Next(q, PwmInputs(s.regs)), es[1..], j - 1);
    }
  }

  /** One edge in reset silences the speaker, whatever was playing and whatever the registers
      held, until something is written again. */
  lemma ResetSilences(s: Slave, q: PwmState, e: Edge, es: seq<Edge>, j: nat)
    requires |s.regs| == REGS && !e.aresetn && NoWrites(es) && j <= |es|
    ensures !Speaker(s, q, [e] + es)[j]
  {
    var s', q' := StepSlave(s, false, e.m), NextPwm(q, false, PwmInputs(s.regs));
    ResetClears(s, e.m);
    assert ([e] + es)[1..] == es;
    if j > 0 { MuteStays(s', q', es, j - 1); }
  }
}
