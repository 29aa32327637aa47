/** How long a test of the AXI master takes against any slave that obeys the handshake
    rules: a fixed number of cycles of its own, and every cycle in which the slave keeps
    it waiting. So it ends if the slave does not keep it waiting for ever. */
module AxiMasterTiming {
  import opened Machine
  import opened AxiMaster
  import opened AxiMasterRun

  /** A request is up in this cycle and not accepted. */
  predicate RequestWaits(y: Sys, s: SlaveOut) {
    (y.m.w.awvalid && !s.awready) || (y.m.w.wvalid && !s.wready) || (y.m.r.arvalid && !s.arready)
  }

  /** A request was accepted whose response is not up in this cycle. */
  predicate ResponseWaits(y: Sys, s: SlaveOut) {
    || (|y.log.bs| < |y.log.aws| && |y.log.bs| < |y.log.ws| && !s.bvalid)
    || (|y.log.rs| < |y.log.ars| && !s.rvalid)
  }

  predicate Waits(y: Sys, s: SlaveOut) { RequestWaits(y, s) || ResponseWaits(y, s) }

  /** Progress of the current write, 0 to 4: none started, start pulse, a valid up, response
      awaited, response ready up. */
  function WritePos(w: WriteSide): (k: nat)
    ensures k <= 4
  {
    if !w.issued then 0 else if w.start then 1 else if w.awvalid || w.wvalid then 2 else if !w.bready then 3 else 4
  }

  function ReadPos(r: ReadSide): (k: nat)
    ensures k <= 4
  {
    if !r.issued then 0 else if r.start then 1 else if r.arvalid then 2 else if !r.rready then 3 else 4
  }

  function Pos(m: Master): nat {
    if m.exec.InitWrite? then WritePos(m.w) else if m.exec.InitRead? then ReadPos(m.r) else 0
  }

  /** Cycles of its own that the master has behind it. */
  function Work(c: Config, y: Sys): nat {
    match y.m.exec
    case InitWrite => 5 * |y.log.bs| + WritePos(y.m.w)
    case InitRead => 5 * c.n + 1 + 5 * |y.log.rs| + ReadPos(y.m.r)
    case InitCompare => 10 * c.n + 2
    case Idle => 10 * c.n + 3
  }

  // ------------------------------------------------------------ one cycle

  lemma WriteWorks(c: Config, y: Sys, i: Input)
    requires Ordinary(c, y, i) && Inv(c, y) && y.m.exec.InitWrite?
    ensures Work(c, SysStep(c, y, i)) + Bit(Waits(y, i.s)) == Work(c, y) + 1
  {
  }

  lemma ReadWorks(c: Config, y: Sys, i: Input)
    requires Ordinary(c, y, i) && Inv(c, y) && y.m.exec.InitRead?
    ensures Work(c, SysStep(c, y, i)) + Bit(Waits(y, i.s)) == Work(c, y) + 1
  {
  }

  /** A cycle of a test is a cycle of work or one of waiting. */
  lemma TestWorks(c: Config, y: Sys, i: Input)
    requires c.n >= 1 && Legal(c, y, i) && Inv(c, y) && !y.m.exec.Idle?
    ensures Work(c, SysStep(c, y, i)) + Bit(Waits(y, i.s)) == Work(c, y) + 1
  {
    if y.m.exec.InitWrite? {
      WriteWorks(c, y, i);
    } else if y.m.exec.InitRead? {
      ReadWorks(c, y, i);
    }
  }

  lemma NoWaitsWhenIdle(c: Config, y: Sys, i: Input)
    requires c.n >= 1 && Legal(c, y, i) && Inv(c, y) && y.m.exec.Idle?
    ensures !Waits(y, i.s)
  {
  }

  lemma WorkBounds(c: Config, y: Sys)
    requires c.n >= 1 && Inv(c, y)
    ensures Work(c, y) <= 10 * c.n + 3
    ensures y.m.exec.Idle? <==> Work(c, y) == 10 * c.n + 3
  {
  }

  // --------------------------------------------------------- a whole test

  /** A start pulse is seen in IDLE in cycle t. */
  predicate StartsAt(c: Config, ins: seq<Input>, t: nat)
    requires t < |ins|
  {
    var y := Run(c, ins[..t]);
    y.Some? && y.value.m.exec.Idle? && Pulse(y.value.m)
  }

  /** How many cycles after cycle t the slave has kept the master waiting. */
  function Waited(c: Config, ins: seq<Input>, t: nat): nat
    requires Run(c, ins).Some?
  {
    if |ins| <= t + 1 then 0 else
      var before := ins[..|ins| - 1];
      Waited(c, before, t) + Bit(Waits(Run(c, before).value, ins[|ins| - 1].s))
  }

  /** The run is inside the test that cycle t started, or just past its end. */
  predicate Within(c: Config, ins: seq<Input>, t: nat) {
    && c.n >= 1 && Run(c, ins).Some? && t < |ins| && StartsAt(c, ins, t)
    && |ins| - (t + 1) <= 10 * c.n + 3 + Waited(c, ins, t)
  }

  lemma WithinBefore(c: Config, ins: seq<Input>, t: nat)
    requires Within(c, ins, t) && |ins| > t + 1
    ensures Within(c, ins[..|ins| - 1], t)
  {
    assert ins[..|ins| - 1][..t] == ins[..t];
  }

  lemma AfterStart(c: Config, y: Sys, i: Input)
    requires c.n >= 1 && Legal(c, y, i) && y.m.exec.Idle? && Pulse(y.m) && Inv(c, SysStep(c, y, i))
    ensures var y' := SysStep(c, y, i); Work(c, y') == 0 && !y'.m.exec.Idle? && !y'.m.compareDone
  {
  }

  lemma DoneWhenIdle(c: Config, y: Sys, i: Input)
    requires c.n >= 1 && Legal(c, y, i) && Inv(c, y) && !y.m.exec.Idle?
    ensures SysStep(c, y, i).m.compareDone <==> SysStep(c, y, i).m.exec.Idle?
  {
  }

  /** The duration of a test, exactly: against any obeying slave, 10n + 3 cycles and those
      in which the slave keeps the master waiting; TXN_DONE is up at the end of them and in
      no cycle before. */
  lemma {:induction false} TestDuration(c: Config, ins: seq<Input>, t: nat)
    requires Within(c, ins, t)
    ensures var y := Run(c, ins).value;
      && Work(c, y) + Waited(c, ins, t) == |ins| - (t + 1)
      && (y.m.exec.Idle? <==> |ins| - (t + 1) == 10 * c.n + 3 + Waited(c, ins, t))
      && (y.m.compareDone <==> y.m.exec.Idle?)
    decreases |ins|
  {
    AlwaysInv(c, ins);
    if |ins| == t + 1 {
      assert ins[..|ins| - 1] == ins[..t];
      AfterStart(c, Run(c, ins[..t]).value, ins[t]);
    } else {
      var before, i := ins[..|ins| - 1], ins[|ins| - 1];
      var y := Run(c, before).value;
      AlwaysInv(c, before);
      WithinBefore(c, ins, t);
      TestDuration(c, before, t);
      if y.m.exec.Idle? { NoWaitsWhenIdle(c, y, i); }
      TestWorks(c, y, i);
      WorkBounds(c, Run(c, ins).value);
      DoneWhenIdle(c, y, i);
    }
  }

  // ------------------------------------------------------- a patient bound

  /** For how many cycles the slave has now left a request unaccepted, or an accepted one
      without its response. */
  function RequestWait(c: Config, ins: seq<Input>): nat
    requires Run(c, ins).Some?
  {
    if ins == [] then 0 else
      var before := ins[..|ins| - 1];
      if RequestWaits(Run(c, before).value, ins[|ins| - 1].s) then RequestWait(c, before) + 1 else 0
  }

  function ResponseWait(c: Config, ins: seq<Input>): nat
    requires Run(c, ins).Some?
  {
    if ins == [] then 0 else
      var before := ins[..|ins| - 1];
      if ResponseWaits(Run(c, before).value, ins[|ins| - 1].s) then ResponseWait(c, before) + 1 else 0
  }

  /** In no cycle of the run has a request waited more than a cycles, or a response been
      awaited more than b. */
  predicate Prompt(c: Config, ins: seq<Input>, a: nat, b: nat)
    requires Run(c, ins).Some?
  {
    && RequestWait(c, ins) <= a && ResponseWait(c, ins) <= b
    && (ins != [] ==> Prompt(c, ins[..|ins| - 1], a, b))
  }

  /** Waiting time that the current transaction may have had. */
  function Allowance(pos: nat, request: nat, response: nat, a: nat, b: nat): nat {
    if pos < 2 then 0 else if pos == 2 then request else if pos == 3 then a + response else a + b
  }

  function Answered(y: Sys): nat { |y.log.bs| + |y.log.rs| }

  /** One cycle either waits at a request, waits at a response, or goes on. */
  predicate Moves(y: Sys, y': Sys, s: SlaveOut) {
    var pos, pos' := Pos(y.m), Pos(y'.m);
    if RequestWaits(y, s) then !ResponseWaits(y, s) && pos == pos' == 2 && Answered(y') == Answered(y)
    else if ResponseWaits(y, s) then pos == pos' == 3 && Answered(y') == Answered(y)
    else if pos == 4 then pos' == 0 && Answered(y') == Answered(y) + 1
    else (pos' == pos + 1 || pos == pos' == 0) && Answered(y') == Answered(y)
  }

  lemma WriteMoves(c: Config, y: Sys, i: Input)
    requires Ordinary(c, y, i) && Inv(c, y) && y.m.exec.InitWrite?
    ensures Moves(y, SysStep(c, y, i), i.s)
  {
  }

  lemma ReadMoves(c: Config, y: Sys, i: Input)
    requires Ordinary(c, y, i) && Inv(c, y) && y.m.exec.InitRead?
    ensures Moves(y, SysStep(c, y, i), i.s)
  {
  }

  lemma TestMoves(c: Config, y: Sys, i: Input)
    requires c.n >= 1 && Legal(c, y, i) && Inv(c, y) && !y.m.exec.Idle?
    ensures Moves(y, SysStep(c, y, i), i.s)
  {
    if y.m.exec.InitWrite? {
      WriteMoves(c, y, i);
    } else if y.m.exec.InitRead? {
      ReadMoves(c, y, i);
    }
  }

  /** The waiting so far is what the answered transactions and the current one may have had. */
  predicate Bounded(y: Sys, waited: nat, request: nat, response: nat, a: nat, b: nat) {
    waited <= (a + b) * Answered(y) + Allowance(Pos(y.m), request, response, a, b)
  }

  lemma MoveBounded(y: Sys, y': Sys, s: SlaveOut, waited: nat, request: nat, response: nat, a: nat, b: nat)
    requires Moves(y, y', s) && request <= a && response <= b
    requires Bounded(y, waited, request, response, a, b)
    ensures Bounded(y', waited + Bit(Waits(y, s)), if RequestWaits(y, s) then request + 1 else 0,
                    if ResponseWaits(y, s) then response + 1 else 0, a, b)
  {
    assert (a + b) * (Answered(y) + 1) == (a + b) * Answered(y) + (a + b);
  }

  lemma NotIdleBefore(c: Config, ins: seq<Input>, t: nat)
    requires Within(c, ins, t) && |ins| > t + 1
    ensures !Run(c, ins[..|ins| - 1]).value.m.exec.Idle?
  {
    var before := ins[..|ins| - 1];
    AlwaysInv(c, before);
    WithinBefore(c, ins, t);
    TestDuration(c, before, t);
    var y := Run(c, before).value;
    if y.m.exec.Idle? { NoWaitsWhenIdle(c, y, ins[|ins| - 1]); }
  }

  lemma CycleMoves(c: Config, ins: seq<Input>, t: nat)
    requires Within(c, ins, t) && |ins| > t + 1
    ensures Moves(Run(c, ins[..|ins| - 1]).value, Run(c, ins).value, ins[|ins| - 1].s)
  {
    AlwaysInv(c, ins[..|ins| - 1]);
    NotIdleBefore(c, ins, t);
    TestMoves(c, Run(c, ins[..|ins| - 1]).value, ins[|ins| - 1]);
  }

  lemma {:induction false} WaitedAtMost(c: Config, ins: seq<Input>, t: nat, a: nat, b: nat)
    requires Within(c, ins, t) && Prompt(c, ins, a, b)
    ensures Bounded(Run(c, ins).value, Waited(c, ins, t), RequestWait(c, ins), ResponseWait(c, ins), a, b)
    decreases |ins|
  {
    var y := Run(c, ins).value;
    if |ins| == t + 1 {
      assert Waited(c, ins, t) == 0 && (a + b) * Answered(y) >= 0;
    } else {
      var before, i := ins[..|ins| - 1], ins[|ins| - 1];
      var y0 := Run(c, before).value;
      WithinBefore(c, ins, t);
      WaitedAtMost(c, before, t, a, b);
      CycleMoves(c, ins, t);
      MoveBounded(y0, y, i.s, Waited(c, before, t), RequestWait(c, before), ResponseWait(c, before), a, b);
    }
  }

  function Limit(n: nat, a: nat, b: nat): nat { (10 + 2 * (a + b)) * n + 3 }

  /** The test that cycle t started is not over. */
  predicate GoesOn(c: Config, ins: seq<Input>, t: nat) {
    Within(c, ins, t) && |ins| - (t + 1) < 10 * c.n + 3 + Waited(c, ins, t)
  }

  /** TXN_DONE is up after the first m cycles. */
  predicate DoneAt(c: Config, ins: seq<Input>, m: nat) {
    m <= |ins| && Run(c, ins[..m]).Some? && Run(c, ins[..m]).value.m.compareDone
  }

  lemma StillWithin(c: Config, ins: seq<Input>, t: nat)
    requires |ins| > t + 1 && Run(c, ins).Some?
    requires Within(c, ins[..|ins| - 1], t)
    requires |ins| - 1 - (t + 1) < 10 * c.n + 3 + Waited(c, ins[..|ins| - 1], t)
    ensures Within(c, ins, t)
  {
    assert ins[..|ins| - 1][..t] == ins[..t];
  }

  lemma AnsweredAtMost(c: Config, y: Sys)
    requires c.n >= 1 && Inv(c, y) && !y.m.exec.Idle?
    ensures Answered(y) + Bit(Pos(y.m) >= 2) <= 2 * c.n
  {
  }

  lemma Distribute(n: nat, d: nat)
    ensures (10 + 2 * d) * n == 10 * n + d * (2 * n)
    ensures d * (n + 1) == d * n + d
  {
  }

  lemma AllowanceFits(k: nat, n: nat, pos: nat, request: nat, response: nat, a: nat, b: nat)
    requires k + Bit(pos >= 2) <= 2 * n && request <= a && response <= b
    ensures 10 * n + 3 + (a + b) * k + Allowance(pos, request, response, a, b) <= Limit(n, a, b)
  {
    var d := a + b;
    MulMonotone(k + Bit(pos >= 2), 2 * n, d);
    Distribute(n, d);
    Distribute(k, d);
  }

  /** Inside a test there is time left. */
  lemma StillShort(c: Config, ins: seq<Input>, t: nat, a: nat, b: nat)
    requires Within(c, ins, t) && Prompt(c, ins, a, b)
    requires |ins| - (t + 1) < 10 * c.n + 3 + Waited(c, ins, t)
    ensures |ins| - (t + 1) < Limit(c.n, a, b)
  {
    var y := Run(c, ins).value;
    AlwaysInv(c, ins);
    TestDuration(c, ins, t);
    WaitedAtMost(c, ins, t, a, b);
    AnsweredAtMost(c, y);
    AllowanceFits(Answered(y), c.n, Pos(y.m), RequestWait(c, ins), ResponseWait(c, ins), a, b);
  }

  lemma EndsOrGoesOnNext(c: Config, ins: seq<Input>, t: nat, a: nat, b: nat)
    requires Run(c, ins).Some? && |ins| > t + 1 && GoesOn(c, ins[..|ins| - 1], t) && Prompt(c, ins, a, b)
    ensures GoesOn(c, ins, t) || (|ins| <= t + 1 + Limit(c.n, a, b) && DoneAt(c, ins, |ins|))
  {
    StillWithin(c, ins, t);
    StillShort(c, ins[..|ins| - 1], t, a, b);
    TestDuration(c, ins, t);
    assert ins[..|ins|] == ins;
  }

  lemma {:induction false} EndsOrGoesOn(c: Config, ins: seq<Input>, t: nat, a: nat, b: nat) returns (m: nat)
    requires c.n >= 1 && Run(c, ins).Some? && t < |ins| && StartsAt(c, ins, t) && Prompt(c, ins, a, b)
    ensures GoesOn(c, ins, t) || (t < m <= t + 1 + Limit(c.n, a, b) && DoneAt(c, ins, m))
    decreases |ins|
  {
    m := |ins|;
    if |ins| > t + 1 {
      var before := ins[..|ins| - 1];
      assert before[..t] == ins[..t];
      m := EndsOrGoesOn(c, before, t, a, b);
      if GoesOn(c, before, t) {
        m := |ins|;
        EndsOrGoesOnNext(c, ins, t, a, b);
      } else {
        assert before[..m] == ins[..m];
      }
    }
  }

  /** The test ends, against every obeying slave that is prompt: if no request waits more
      than a cycles and no response more than b, TXN_DONE is up (10 + 2(a + b))n + 3 cycles
      after the start pulse at the latest. */
  lemma TestEndsWithin(c: Config, ins: seq<Input>, t: nat, a: nat, b: nat)
    requires c.n >= 1 && Run(c, ins).Some? && t < |ins| && StartsAt(c, ins, t) && Prompt(c, ins, a, b)
    requires |ins| >= t + 1 + Limit(c.n, a, b)
    ensures exists m: nat :: t < m <= t + 1 + Limit(c.n, a, b) && DoneAt(c, ins, m)
  {
    var m := EndsOrGoesOn(c, ins, t, a, b);
    if GoesOn(c, ins, t) { StillShort(c, ins, t, a, b); }
  }
}
