/** The test master wired to the repository's own slave. Each meets what the other
    assumes, so the results about both apply; a test takes a fixed number of cycles and
    its verdict is known. */
module AxiSystem {
  import opened Machine
  import opened ByteLanes
  import opened AxiMaster
  import M = AxiMasterRun
  import T = AxiMasterTiming
  import opened AxiSlave
  import S = AxiSlaveRun

  /** Both sides, with the history of the current test. */
  datatype Joint = Joint(y: M.Sys, p: S.Port)

  /** What the master drives; the slave sees six bits of each address. */
  function Wires(c: Config, m: Master): MasterOut {
    MasterOut(m.w.awvalid, AwAddr(c, m) % 64, m.w.wvalid, m.w.wdata, ALL_LANES, m.w.bready,
              m.r.arvalid, ArAddr(c, m) % 64, m.r.rready)
  }

  function InputOf(j: Joint, init: bool): Input { Input(true, init, Drive(j.p.s)) }

  /** The slave's history starts anew with each test, from the registers as they are. */
  function Rebase(p: S.Port): S.Port { p.(mem0 := p.s.regs, h := S.History([], 0, [], [])) }

  function JointStep(c: Config, j: Joint, init: bool): Joint
    requires |j.p.s.regs| == REGS
  {
    var p := S.PortStep(j.p, Wires(c, j.y.m));
    Joint(M.SysStep(c, j.y, InputOf(j, init)), if j.y.m.exec.Idle? && Pulse(j.y.m) then Rebase(p) else p)
  }

  /** INIT_AXI_TXN does not start a test while one is going on. */
  predicate JointLegal(c: Config, j: Joint, init: bool) {
    var m' := Step(c, j.y.m, InputOf(j, init));
    m'.exec.Idle? || !Pulse(m')
  }

  /** Both out of reset; the registers may hold anything. */
  function Start(c: Config, regs: seq<u32>): Joint { Joint(M.Init(c), S.Rest(regs)) }

  function Run(c: Config, regs: seq<u32>, inits: seq<bool>): (r: Option<Joint>)
    requires |regs| == REGS
    ensures r.Some? ==> |r.value.p.s.regs| == REGS
  {
    if inits == [] then Some(Start(c, regs)) else
      var before := Run(c, regs, inits[..|inits| - 1]);
      var init := inits[|inits| - 1];
      if before.Some? && JointLegal(c, before.value, init) then Some(JointStep(c, before.value, init)) else None
  }

  // ------------------------------------------------------------- invariant

  /** The two histories tell the same story. */
  predicate SameWrites(log: M.Log, h: S.History) {
    && |log.aws| == |log.ws| == |h.writes| && |log.bs| == h.bs
    && (forall k: nat :: k < |h.writes| ==> h.writes[k] == S.WriteOp(log.aws[k] % 64, log.ws[k], ALL_LANES))
    && (forall k: nat :: k < |log.bs| ==> log.bs[k] == 0)
  }

  predicate SameReads(c: Config, log: M.Log, h: S.History) {
    && |log.ars| == |h.reqs| && |log.rs| == |h.rs|
    && (forall k: nat :: k < |h.reqs| ==> h.reqs[k] == S.ReadOp(log.ars[k] % 64, c.n))
    && (forall k: nat :: k < |log.rs| ==> log.rs[k] == M.ReadBeat(h.rs[k], 0))
  }

  /** Each side remembers the other's open handshakes. */
  predicate HeldRequests(c: Config, j: Joint) {
    var wires := Wires(c, j.y.m);
    && (j.p.heldAw.Some? ==> wires.awvalid && wires.awaddr == j.p.heldAw.value)
    && (j.p.heldW.Some? ==> wires.wvalid && (wires.wdata, wires.wstrb) == j.p.heldW.value)
    && (j.p.heldAr.Some? ==> wires.arvalid && wires.araddr == j.p.heldAr.value)
  }

  predicate HeldResponses(j: Joint) {
    var s := j.p.s;
    && (j.y.heldB.Some? ==> s.w.bvalid && s.w.bresp == j.y.heldB.value)
    && (j.y.heldR.Some? ==> s.r.rvalid && M.ReadBeat(s.r.rdata, s.r.rresp) == j.y.heldR.value)
  }

  predicate Linked(c: Config, j: Joint) {
    SameWrites(j.y.log, j.p.h) && SameReads(c, j.y.log, j.p.h) && HeldRequests(c, j) && HeldResponses(j)
  }

  predicate Inv(c: Config, j: Joint) {
    M.Inv(c, j.y) && S.Inv(j.p) && Linked(c, j)
  }

  /** The repository's slave obeys the rules the master relies on. */
  lemma SlaveKeepsRules(c: Config, j: Joint)
    requires Inv(c, j)
    ensures M.SlaveObeys(j.y, Drive(j.p.s))
  {
  }

  /** The master obeys the rules the slave relies on. */
  lemma MasterKeepsRules(c: Config, j: Joint)
    requires Inv(c, j)
    ensures S.MasterObeys(j.p, Wires(c, j.y.m))
  {
  }

  /** Write address and write data handshakes of the two sides are the same events. */
  lemma SameWriteEvents(c: Config, j: Joint)
    requires Inv(c, j)
    ensures var w, s := j.y.m.w, Drive(j.p.s);
      AwHs(w, s) == WHs(w, s) == S.WriteAccepted(j.p.s, Wires(c, j.y.m))
  {
  }

  lemma WritesStep(c: Config, j: Joint, init: bool)
    requires Inv(c, j) && !Pulse(j.y.m)
    ensures SameWrites(JointStep(c, j, init).y.log, JointStep(c, j, init).p.h)
  {
    SameWriteEvents(c, j);
  }

  /** Likewise for the read channels; a read is asked for after all the writes. */
  lemma SameReadEvents(c: Config, j: Joint)
    requires c.n >= 1 && Inv(c, j)
    ensures var r, s, wires := j.y.m.r, Drive(j.p.s), Wires(c, j.y.m);
      && ArHs(r, s) == S.ReadAccepted(j.p.s, wires) && RHs(r, s) == (j.p.s.r.rvalid && wires.rready)
      && (ArHs(r, s) ==> |j.p.h.writes| == c.n)
  {
  }

  lemma ReadsStep(c: Config, j: Joint, init: bool)
    requires c.n >= 1 && Inv(c, j) && !Pulse(j.y.m)
    ensures SameReads(c, JointStep(c, j, init).y.log, JointStep(c, j, init).p.h)
  {
    SameReadEvents(c, j);
    var log', h' := JointStep(c, j, init).y.log, JointStep(c, j, init).p.h;
    var r, s := j.y.m.r, Drive(j.p.s);
    assert log'.ars == M.Append(j.y.log.ars, ArHs(r, s), ArAddr(c, j.y.m));
    assert h'.reqs == M.Append(j.p.h.reqs, ArHs(r, s), S.ReadOp(ArAddr(c, j.y.m) % 64, c.n));
    assert log'.rs == M.Append(j.y.log.rs, RHs(r, s), M.ReadBeat(s.rdata, 0));
    assert h'.rs == M.Append(j.p.h.rs, RHs(r, s), s.rdata);
  }

  lemma HeldRequestsStep(c: Config, j: Joint, init: bool)
    requires |j.p.s.regs| == REGS && !Pulse(j.y.m)
    ensures HeldRequests(c, JointStep(c, j, init))
  {
    M.HoldsWithoutPulse(c, j.y.m, InputOf(j, init));
  }

  lemma HeldResponsesStep(c: Config, j: Joint, init: bool)
    requires Inv(c, j) && !Pulse(j.y.m)
    ensures HeldResponses(JointStep(c, j, init))
  {
  }

  /** A start pulse finds both sides at rest. */
  lemma StartStep(c: Config, j: Joint, init: bool)
    requires c.n >= 1 && Inv(c, j) && JointLegal(c, j, init) && Pulse(j.y.m)
    ensures Inv(c, JointStep(c, j, init))
  {
    var i, j' := InputOf(j, init), JointStep(c, j, init);
    SlaveKeepsRules(c, j);
    MasterKeepsRules(c, j);
    assert j.y.m.exec.Idle?;
    M.StartStep(c, j.y, i);
    S.InvStep(j.p, Wires(c, j.y.m));
    assert !j'.p.s.w.bvalid && !j'.p.s.r.rvalid;
    assert S.Memory(j'.p);
  }

  lemma InvStep(c: Config, j: Joint, init: bool)
    requires c.n >= 1 && Inv(c, j) && JointLegal(c, j, init)
    ensures Inv(c, JointStep(c, j, init))
  {
    if Pulse(j.y.m) {
      StartStep(c, j, init);
    } else {
      SlaveKeepsRules(c, j);
      MasterKeepsRules(c, j);
      M.InvStep(c, j.y, InputOf(j, init));
      S.InvStep(j.p, Wires(c, j.y.m));
      WritesStep(c, j, init);
      ReadsStep(c, j, init);
      HeldRequestsStep(c, j, init);
      HeldResponsesStep(c, j, init);
    }
  }

  lemma {:induction false} AlwaysInv(c: Config, regs: seq<u32>, inits: seq<bool>)
    requires c.n >= 1 && |regs| == REGS && Run(c, regs, inits).Some?
    ensures Inv(c, Run(c, regs, inits).value)
  {
    if inits == [] {
      S.AlwaysInv(regs, []);
    } else {
      AlwaysInv(c, regs, inits[..|inits| - 1]);
      InvStep(c, Run(c, regs, inits[..|inits| - 1]).value, inits[|inits| - 1]);
    }
  }

  // ------------------------------------------------------ cycles of a test

  /** What the master sees in a run of both. */
  function Inputs(c: Config, regs: seq<u32>, inits: seq<bool>): (ins: seq<Input>)
    requires |regs| == REGS && Run(c, regs, inits).Some?
    ensures |ins| == |inits|
  {
    if inits == [] then [] else
      var before := inits[..|inits| - 1];
      Inputs(c, regs, before) + [InputOf(Run(c, regs, before).value, inits[|inits| - 1])]
  }

  /** To the master, this slave is one that obeys the rules. */
  lemma {:induction false} MasterRuns(c: Config, regs: seq<u32>, inits: seq<bool>)
    requires c.n >= 1 && |regs| == REGS && Run(c, regs, inits).Some?
    ensures M.Run(c, Inputs(c, regs, inits)) == Some(Run(c, regs, inits).value.y)
  {
    if inits != [] {
      var before := inits[..|inits| - 1];
      var ins := Inputs(c, regs, inits);
      MasterRuns(c, regs, before);
      AlwaysInv(c, regs, before);
      SlaveKeepsRules(c, Run(c, regs, before).value);
      assert ins[..|ins| - 1] == Inputs(c, regs, before);
    }
  }

  lemma InputsBefore(c: Config, regs: seq<u32>, inits: seq<bool>)
    requires |regs| == REGS && Run(c, regs, inits).Some? && inits != []
    ensures Run(c, regs, inits[..|inits| - 1]).Some?
    ensures Inputs(c, regs, inits)[..|inits| - 1] == Inputs(c, regs, inits[..|inits| - 1])
  {
  }

  lemma {:induction false} InputsPrefix(c: Config, regs: seq<u32>, inits: seq<bool>, t: nat)
    requires |regs| == REGS && Run(c, regs, inits).Some? && t <= |inits|
    ensures Run(c, regs, inits[..t]).Some? && Inputs(c, regs, inits)[..t] == Inputs(c, regs, inits[..t])
    decreases |inits|
  {
    if t == |inits| {
      assert inits[..t] == inits;
    } else {
      var before := inits[..|inits| - 1];
      InputsBefore(c, regs, inits);
      InputsPrefix(c, regs, before, t);
      assert before[..t] == inits[..t];
      assert Inputs(c, regs, inits)[..t] == Inputs(c, regs, before)[..t];
    }
  }

  /** This slave has kept the master waiting for the current transaction. */
  predicate HasWaited(j: Joint) {
    var pos, s := T.Pos(j.y.m), j.p.s;
    pos > 2 || (pos == 2 && if j.y.m.exec.InitWrite? then s.w.awready else s.r.arready)
  }

  /** Waits that the test has had if each transaction has one. */
  function WaitsDue(j: Joint): nat { T.Answered(j.y) + Bit(HasWaited(j)) }

  lemma WriteWaitsOnce(c: Config, j: Joint, init: bool)
    requires c.n >= 1 && Inv(c, j) && j.y.m.exec.InitWrite?
    ensures WaitsDue(JointStep(c, j, init)) == WaitsDue(j) + Bit(T.Waits(j.y, Drive(j.p.s)))
  {
    SameWriteEvents(c, j);
  }

  lemma ReadWaitsOnce(c: Config, j: Joint, init: bool)
    requires c.n >= 1 && Inv(c, j) && j.y.m.exec.InitRead?
    ensures WaitsDue(JointStep(c, j, init)) == WaitsDue(j) + Bit(T.Waits(j.y, Drive(j.p.s)))
  {
    SameReadEvents(c, j);
  }

  /** The slave keeps the master waiting for one cycle of each transaction. */
  lemma WaitsOnce(c: Config, j: Joint, init: bool)
    requires c.n >= 1 && Inv(c, j) && !j.y.m.exec.Idle?
    ensures WaitsDue(JointStep(c, j, init)) == WaitsDue(j) + Bit(T.Waits(j.y, Drive(j.p.s)))
  {
    if j.y.m.exec.InitWrite? {
      WriteWaitsOnce(c, j, init);
    } else if j.y.m.exec.InitRead? {
      ReadWaitsOnce(c, j, init);
    }
  }

  // ------------------------------------------------------------ the verdict

  /** Six bits of an address are enough to select the register. */
  lemma IndexOfLowBits(x: nat)
    ensures Index(x % TWO32 % 64) == x / 4 % REGS
  {
    RemainderOfRemainder(x, TWO32, 64);
    var q, r := x / 64, x % 64;
    RemainderUnique(x, 4, 16 * q + r / 4, r % 4);
    RemainderUnique(x / 4, REGS, q, r / 4);
    RemainderUnique(r / 4, REGS, 0, r / 4);
  }

  lemma RegisterOf(c: Config, k: nat)
    ensures Index(M.AddrOf(c, k) % 64) == (c.base / 4 + k) % REGS
  {
    IndexOfLowBits(c.base + 4 * k);
    assert (c.base + 4 * k) / 4 == c.base / 4 + k;
  }

  lemma ShiftKeepsRemainders(b: nat, k: nat, i: nat)
    ensures (b + k) % REGS == (b + i) % REGS <==> k % REGS == i % REGS
  {
  }

  /** The k-th address selects register (base/4 + k) mod 16: two of them coincide exactly
      when their numbers differ by a multiple of 16. */
  lemma SameRegister(c: Config, k: nat, i: nat)
    ensures Index(M.AddrOf(c, k) % 64) == Index(M.AddrOf(c, i) % 64) <==> k % REGS == i % REGS
  {
    RegisterOf(c, k);
    RegisterOf(c, i);
    ShiftKeepsRemainders(c.base / 4, k, i);
  }

  /** The last of the first n writes that goes where write k goes. */
  function LastAlias(n: nat, k: nat): (a: nat)
    requires k < n
    ensures k <= a < n && a % REGS == k % REGS
  {
    if (n - 1) % REGS == k % REGS then n - 1 else LastAlias(n - 1, k)
  }

  /** The n writes of a test, as the slave sees them. */
  predicate TestWrites(c: Config, writes: seq<S.WriteOp>) {
    forall k: nat :: k < |writes| ==> writes[k] == S.WriteOp(M.AddrOf(c, k) % 64, M.DataOf(c, k), ALL_LANES)
  }

  lemma {:induction false} BytesAfterTest(c: Config, mem0: seq<u32>, writes: seq<S.WriteOp>, k: nat, b: nat)
    requires |mem0| == REGS && k < |writes| && TestWrites(c, writes) && b < 4
    ensures S.ByteAfter(mem0, writes, Index(M.AddrOf(c, k) % 64), b) == Lane(M.DataOf(c, LastAlias(|writes|, k)), b)
    decreases |writes|
  {
    var n := |writes|;
    SameRegister(c, n - 1, k);
    if (n - 1) % REGS != k % REGS {
      BytesAfterTest(c, mem0, writes[..n - 1], k, b);
    }
  }

  /** What the slave holds for address k after the writes: the last alias's data. */
  lemma WordAfterTest(c: Config, mem0: seq<u32>, writes: seq<S.WriteOp>, k: nat, v: u32)
    requires |mem0| == REGS && k < |writes| && TestWrites(c, writes)
    requires S.Word(mem0, writes, Index(M.AddrOf(c, k) % 64), v)
    ensures v == M.DataOf(c, LastAlias(|writes|, k))
  {
    forall b: nat | b < 4
      ensures Lane(v, b) == Lane(M.DataOf(c, LastAlias(|writes|, k)), b)
    {
      BytesAfterTest(c, mem0, writes, k, b);
    }
    RangeOfWord();
    LanesDetermine(v, M.DataOf(c, LastAlias(|writes|, k)), 4);
  }

  lemma {:induction false} NoAlias(n: nat, k: nat)
    requires k < n <= REGS
    ensures LastAlias(n, k) == k
  {
    if n - 1 != k { NoAlias(n - 1, k); }
  }

  lemma {:induction false} SameAlias(n: nat, k: nat, i: nat)
    requires k < n && i < n && k % REGS == i % REGS
    ensures LastAlias(n, k) == LastAlias(n, i)
  {
    if (n - 1) % REGS != k % REGS { SameAlias(n - 1, k, i); }
  }

  /** With more than 16 transactions, register 0's or register 16's read is wrong, even
      when the data wraps around. */
  lemma AliasShows(c: Config, n: nat)
    requires n > REGS
    ensures exists k: nat :: k < n && M.DataOf(c, LastAlias(n, k)) != M.DataOf(c, k)
  {
    SameAlias(n, 0, REGS);
    if M.DataOf(c, LastAlias(n, 0)) == M.DataOf(c, 0) {
      assert M.DataOf(c, LastAlias(n, REGS)) != M.DataOf(c, REGS);
    }
  }

  /** The data the k-th read of a finished test returned. */
  lemma ReadBack(c: Config, j: Joint, k: nat)
    requires c.n >= 1 && Inv(c, j) && |j.y.log.rs| == |j.y.log.ws| == c.n && k < c.n
    ensures j.y.log.rs[k] == M.ReadBeat(M.DataOf(c, LastAlias(c.n, k)), 0)
  {
    var h := j.p.h;
    assert S.Answers(j.p, k, h.rs[k]);
    assert h.writes[..c.n] == h.writes;
    WordAfterTest(c, j.p.mem0, h.writes, k, h.rs[k]);
  }

  lemma VerdictExactly(c: Config, j: Joint)
    requires c.n >= 1 && Inv(c, j) && |j.y.log.rs| == |j.y.log.ws| == |j.y.log.bs| == c.n
    ensures M.Bad(c, j.y.log) <==> c.n > REGS
  {
    forall k: nat | k < c.n
      ensures j.y.log.rs[k] == M.ReadBeat(M.DataOf(c, LastAlias(c.n, k)), 0)
      ensures c.n <= REGS ==> LastAlias(c.n, k) == k
    {
      ReadBack(c, j, k);
      if c.n <= REGS { NoAlias(c.n, k); }
    }
    if c.n > REGS {
      AliasShows(c, c.n);
      var k: nat :| k < c.n && M.DataOf(c, LastAlias(c.n, k)) != M.DataOf(c, k);
      assert j.y.log.rs[k].data != M.DataOf(c, k);
    }
  }

  // ---------------------------------------------------------- main results

  /** TXN_DONE is up. */
  predicate Done(j: Joint) { j.y.m.compareDone }

  /** Whenever TXN_DONE is up: ERROR is down exactly when the transactions fit the sixteen
      registers, and each register written holds the last data sent to it. */
  lemma VerdictOfTest(c: Config, regs: seq<u32>, inits: seq<bool>)
    requires c.n >= 1 && |regs| == REGS && Run(c, regs, inits).Some?
    ensures var j := Run(c, regs, inits).value;
      Done(j) ==>
        && (j.y.m.error <==> c.n > REGS)
        && (forall k: nat :: k < c.n ==>
              j.p.s.regs[Index(M.AddrOf(c, k) % 64)] == M.DataOf(c, LastAlias(c.n, k)))
  {
    AlwaysInv(c, regs, inits);
    var j := Run(c, regs, inits).value;
    if Done(j) {
      assert |j.y.log.ws| == c.n;
      VerdictExactly(c, j);
      forall k: nat | k < c.n
        ensures j.p.s.regs[Index(M.AddrOf(c, k) % 64)] == M.DataOf(c, LastAlias(c.n, k))
      {
        WordAfterTest(c, j.p.mem0, j.p.h.writes, k, j.p.s.regs[Index(M.AddrOf(c, k) % 64)]);
      }
    }
  }

  /** The run is inside the test that cycle t started, or just past its end. */
  predicate TestRun(c: Config, regs: seq<u32>, inits: seq<bool>, t: nat) {
    && c.n >= 1 && |regs| == REGS && Run(c, regs, inits).Some?
    && t < |inits| <= t + 1 + (12 * c.n + 3)
    && T.StartsAt(c, Inputs(c, regs, inits), t)
  }

  lemma TestRunBefore(c: Config, regs: seq<u32>, inits: seq<bool>, t: nat)
    requires TestRun(c, regs, inits, t) && |inits| > t + 1
    ensures TestRun(c, regs, inits[..|inits| - 1], t)
  {
    InputsBefore(c, regs, inits);
    assert Inputs(c, regs, inits)[..t] == Inputs(c, regs, inits[..|inits| - 1])[..t];
  }

  /** All waits are due when the test is over. */
  lemma WaitsDueAtEnd(c: Config, j: Joint)
    requires c.n >= 1 && Inv(c, j) && j.y.m.exec.Idle? && j.y.m.compareDone
    ensures WaitsDue(j) == 2 * c.n
  {
  }

  lemma WaitedOneMore(c: Config, regs: seq<u32>, inits: seq<bool>, t: nat)
    requires TestRun(c, regs, inits, t) && |inits| > t + 1 && M.Run(c, Inputs(c, regs, inits)).Some?
    requires T.GoesOn(c, Inputs(c, regs, inits[..|inits| - 1]), t)
    requires M.Run(c, Inputs(c, regs, inits[..|inits| - 1])) == Some(Run(c, regs, inits[..|inits| - 1]).value.y)
    ensures var before := inits[..|inits| - 1];
      && T.Within(c, Inputs(c, regs, inits), t)
      && T.Waited(c, Inputs(c, regs, inits), t) == T.Waited(c, Inputs(c, regs, before), t)
           + Bit(T.Waits(Run(c, regs, before).value.y, Drive(Run(c, regs, before).value.p.s)))
  {
    var ins := Inputs(c, regs, inits);
    assert ins[..|ins| - 1] == Inputs(c, regs, inits[..|inits| - 1]);
    T.StillWithin(c, ins, t);
  }

  lemma NothingDueAtStart(c: Config, j: Joint, init: bool)
    requires c.n >= 1 && Inv(c, j) && j.y.m.exec.Idle? && Pulse(j.y.m)
    ensures WaitsDue(JointStep(c, j, init)) == 0
  {
    var y' := JointStep(c, j, init).y;
    assert y'.log == M.EMPTY && y'.m.exec.InitWrite? && !y'.m.w.issued;
  }

  lemma JustStarted(c: Config, regs: seq<u32>, inits: seq<bool>, t: nat)
    requires TestRun(c, regs, inits, t) && |inits| == t + 1
    requires M.Run(c, Inputs(c, regs, inits)).Some?
    ensures T.Within(c, Inputs(c, regs, inits), t) && T.Waited(c, Inputs(c, regs, inits), t) == 0
    ensures WaitsDue(Run(c, regs, inits).value) == 0
  {
    var before := inits[..t];
    assert inits[..|inits| - 1] == before;
    MasterRuns(c, regs, before);
    assert Inputs(c, regs, inits)[..t] == Inputs(c, regs, before);
    AlwaysInv(c, regs, before);
    NothingDueAtStart(c, Run(c, regs, before).value, inits[t]);
  }

  lemma {:induction false} WaitedHere(c: Config, regs: seq<u32>, inits: seq<bool>, t: nat)
    requires TestRun(c, regs, inits, t)
    ensures var ins := Inputs(c, regs, inits);
      T.Within(c, ins, t) && T.Waited(c, ins, t) == WaitsDue(Run(c, regs, inits).value)
    decreases |inits|
  {
    MasterRuns(c, regs, inits);
    if |inits| == t + 1 {
      JustStarted(c, regs, inits, t);
    } else {
      var before := inits[..|inits| - 1];
      var j := Run(c, regs, before).value;
      TestRunBefore(c, regs, inits, t);
      WaitedHere(c, regs, before, t);
      MasterRuns(c, regs, before);
      AlwaysInv(c, regs, before);
      T.TestDuration(c, Inputs(c, regs, before), t);
      if j.y.m.exec.Idle? { WaitsDueAtEnd(c, j); }
      WaitsOnce(c, j, inits[|inits| - 1]);
      WaitedOneMore(c, regs, inits, t);
    }
  }

  lemma WaitsDueAtMost(c: Config, j: Joint)
    requires c.n >= 1 && Inv(c, j)
    ensures WaitsDue(j) <= 2 * c.n
  {
  }

  /** Every test ends, after a fixed number of cycles: with one wait for each of its 2n
      transactions, 12n + 3 cycles after the one in which the start pulse was seen in IDLE;
      TXN_DONE is up then and in none of the cycles before. */
  lemma TestTakes(c: Config, regs: seq<u32>, inits: seq<bool>, t: nat)
    requires TestRun(c, regs, inits, t)
    ensures var j := Run(c, regs, inits).value;
      && (j.y.m.exec.Idle? <==> |inits| == t + 1 + (12 * c.n + 3))
      && (j.y.m.compareDone <==> j.y.m.exec.Idle?)
  {
    var j := Run(c, regs, inits).value;
    MasterRuns(c, regs, inits);
    AlwaysInv(c, regs, inits);
    WaitedHere(c, regs, inits, t);
    T.TestDuration(c, Inputs(c, regs, inits), t);
    if j.y.m.exec.Idle? { WaitsDueAtEnd(c, j); }
    WaitsDueAtMost(c, j);
  }

  /** INIT_AXI_TXN high for k cycles. */
  function HeldHigh(k: nat): (inits: seq<bool>)
    ensures |inits| == k
  {
    seq(k, i => true)
  }

  /** What INIT_AXI_TXN held high for k cycles leaves in the pulse flip-flops. */
  predicate HeldFor(j: Joint, k: nat) {
    && (k >= 1 <==> j.y.m.ff)
    && (k >= 2 ==> j.y.m.ff2)
    && (k <= 1 ==> j.y.m.exec.Idle? && !j.y.m.ff2)
  }

  lemma HeldOneMore(c: Config, j: Joint, k: nat)
    requires |j.p.s.regs| == REGS && HeldFor(j, k)
    ensures JointLegal(c, j, true) && HeldFor(JointStep(c, j, true), k + 1)
  {
  }

  predicate RunsHeld(c: Config, regs: seq<u32>, inits: seq<bool>, k: nat)
    requires |regs| == REGS
  {
    var r := Run(c, regs, inits);
    r.Some? && HeldFor(r.value, k)
  }

  lemma RunOneMore(c: Config, regs: seq<u32>, inits: seq<bool>, init: bool)
    requires |regs| == REGS && Run(c, regs, inits).Some?
    requires JointLegal(c, Run(c, regs, inits).value, init)
    ensures Run(c, regs, inits + [init]) == Some(JointStep(c, Run(c, regs, inits).value, init))
  {
    assert (inits + [init])[..|inits|] == inits;
  }

  lemma HeldForLonger(c: Config, regs: seq<u32>, inits: seq<bool>, k: nat)
    requires |regs| == REGS && RunsHeld(c, regs, inits, k)
    ensures RunsHeld(c, regs, inits + [true], k + 1)
  {
    HeldOneMore(c, Run(c, regs, inits).value, k);
    RunOneMore(c, regs, inits, true);
  }

  /** INIT_AXI_TXN raised after reset and held is a legal way to run a test. */
  lemma {:induction false} HeldHighRuns(c: Config, regs: seq<u32>, k: nat)
    requires c.n >= 1 && |regs| == REGS
    ensures RunsHeld(c, regs, HeldHigh(k), k)
  {
    if k == 0 {
      assert HeldHigh(0) == [];
    } else {
      HeldHighRuns(c, regs, k - 1);
      assert HeldHigh(k) == HeldHigh(k - 1) + [true];
      HeldForLonger(c, regs, HeldHigh(k - 1), k - 1);
    }
  }

  lemma HeldHighStarts(c: Config, regs: seq<u32>, k: nat)
    requires c.n >= 1 && |regs| == REGS && 2 <= k <= 12 * c.n + 5
    ensures TestRun(c, regs, HeldHigh(k), 1)
  {
    HeldHighRuns(c, regs, k);
    HeldHighRuns(c, regs, 1);
    assert HeldHigh(k)[..1] == HeldHigh(1);
    InputsPrefix(c, regs, HeldHigh(k), 1);
    MasterRuns(c, regs, HeldHigh(1));
  }

  /** For every number of transactions, whatever the registers held: TXN_DONE comes up
      exactly 12n + 5 cycles after reset, with the verdict that 16 registers imply. */
  lemma TestCompletes(c: Config, regs: seq<u32>)
    requires c.n >= 1 && |regs| == REGS
    ensures var r := Run(c, regs, HeldHigh(12 * c.n + 5));
      r.Some? && Done(r.value) && (r.value.y.m.error <==> c.n > REGS)
  {
    var k := 12 * c.n + 5;
    HeldHighRuns(c, regs, k);
    HeldHighStarts(c, regs, k);
    TestTakes(c, regs, HeldHigh(k), 1);
    VerdictOfTest(c, regs, HeldHigh(k));
  }
}
