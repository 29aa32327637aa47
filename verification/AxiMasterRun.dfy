/** The test master against any slave that obeys the handshake rules of sections A3.2.1
    and A3.3.1 of the AMBA AXI and ACE Protocol Specification (ARM IHI 0022): readies and
    latencies are arbitrary, a response comes only for a request accepted before, and a
    valid once up stays up with its payload until it is accepted. */
module AxiMasterRun {
  import opened Machine
  import opened Clogb2
  import opened AxiMaster

  datatype ReadBeat = ReadBeat(data: u32, resp: Resp)

  /** The handshakes of the current test, channel by channel, in order. */
  datatype Log = Log(aws: seq<u32>, ws: seq<u32>, bs: seq<Resp>, ars: seq<u32>, rs: seq<ReadBeat>)

  const EMPTY := Log([], [], [], [], [])

  /** The master, the log, and the responses the slave has put up and the master has not
      accepted yet. */
  datatype Sys = Sys(m: Master, log: Log, heldB: Option<Resp>, heldR: Option<ReadBeat>)

  /** What the rules allow the slave to drive in this cycle. Outputs do not depend on inputs
      of the same cycle, so a response needs a request accepted at an earlier edge. */
  predicate SlaveObeys(y: Sys, s: SlaveOut) {
    && (s.bvalid ==> |y.log.bs| < |y.log.aws| && |y.log.bs| < |y.log.ws|)
    && (s.rvalid ==> |y.log.rs| < |y.log.ars|)
    && (y.heldB.Some? ==> s.bvalid && s.bresp == y.heldB.value)
    && (y.heldR.Some? ==> s.rvalid && ReadBeat(s.rdata, s.rresp) == y.heldR.value)
  }

  function Append<T>(xs: seq<T>, b: bool, x: T): seq<T> { if b then xs + [x] else xs }

  /** A start pulse in IDLE begins a new test and a new log. */
  function NextLog(c: Config, y: Sys, s: SlaveOut): Log {
    if y.m.exec.Idle? && Pulse(y.m) then EMPTY else
    Log(Append(y.log.aws, AwHs(y.m.w, s), AwAddr(c, y.m)),
        Append(y.log.ws, WHs(y.m.w, s), y.m.w.wdata),
        Append(y.log.bs, BHs(y.m.w, s), s.bresp),
        Append(y.log.ars, ArHs(y.m.r, s), ArAddr(c, y.m)),
        Append(y.log.rs, RHs(y.m.r, s), ReadBeat(s.rdata, s.rresp)))
  }

  function SysStep(c: Config, y: Sys, i: Input): Sys {
    Sys(Step(c, y.m, i), NextLog(c, y, i.s),
        if i.s.bvalid && !y.m.w.bready then Some(i.s.bresp) else None,
        if i.s.rvalid && !y.m.r.rready then Some(ReadBeat(i.s.rdata, i.s.rresp)) else None)
  }

  /** Out of reset, an obeying slave, and no start pulse while a test is going on. */
  predicate Legal(c: Config, y: Sys, i: Input) {
    i.aresetn && SlaveObeys(y, i.s) && (var m' := Step(c, y.m, i); m'.exec.Idle? || !Pulse(m'))
  }

  function Init(c: Config): Sys { Sys(ResetState(c), EMPTY, None, None) }

  /** The state after a run from reset, or None if an input of it is not legal. */
  function Run(c: Config, ins: seq<Input>): Option<Sys> {
    if ins == [] then Some(Init(c)) else
      var before := Run(c, ins[..|ins| - 1]);
      var i := ins[|ins| - 1];
      if before.Some? && Legal(c, before.value, i) then Some(SysStep(c, before.value, i)) else None
  }

  // ------------------------------------------------------------- invariant

  function AddrOf(c: Config, k: nat): u32 { U32(c.base + 4 * k) }
  function DataOf(c: Config, k: nat): u32 { U32(c.start + k) }

  /** Every entry of a log is the one its position calls for. */
  predicate Addresses(c: Config, xs: seq<u32>) { forall k: nat :: k < |xs| ==> xs[k] == AddrOf(c, k) }
  predicate Datas(c: Config, xs: seq<u32>) { forall k: nat :: k < |xs| ==> xs[k] == DataOf(c, k) }

  /** Write side, by counts of handshakes (aw, wd, b): a transaction is in progress from
      the cycle after its start pulse until its response is accepted, and only one is. */
  predicate WriteCtl(n: nat, w: WriteSide, aw: nat, wd: nat, b: nat, held: bool) {
    && aw + Bit(w.awvalid) == w.index == wd + Bit(w.wvalid)
    && w.index == b + Bit(w.issued && !w.start) && b + Bit(w.issued) <= n
    && b <= aw && b <= wd
    && (w.start ==> w.issued)
    && (w.bready ==> held)
    && (held ==> b < aw && b < wd)
    && (w.last <==> aw == n)
    && (w.done <==> b == n)
  }

  predicate WriteInv(c: Config, y: Sys) {
    && WriteCtl(c.n, y.m.w, |y.log.aws|, |y.log.ws|, |y.log.bs|, y.heldB.Some?)
    && y.m.w.awaddr == U32(4 * |y.log.aws|)
    && y.m.w.wdata == DataOf(c, |y.log.ws|)
  }

  predicate ReadCtl(n: nat, r: ReadSide, ar: nat, d: nat, held: bool) {
    && ar + Bit(r.arvalid) == r.index
    && r.index == d + Bit(r.issued && !r.start) && d + Bit(r.issued) <= n
    && d <= ar
    && (r.start ==> r.issued)
    && (held ==> d < ar)
    && (r.last <==> ar == n)
    && (r.done <==> d == n)
  }

  predicate ReadInv(c: Config, y: Sys) {
    && ReadCtl(c.n, y.m.r, |y.log.ars|, |y.log.rs|, y.heldR.Some?)
    && y.m.r.araddr == U32(4 * |y.log.ars|)
    && y.m.r.expected == DataOf(c, |y.log.rs|)
  }

  /** What the state machine's state says about both sides. The read ready is up for one
      idle cycle after a reset or a start. */
  predicate PhaseInv(c: Config, y: Sys) {
    var w, r, log := y.m.w, y.m.r, y.log;
    match y.m.exec
    case Idle =>
      !w.issued && !r.issued && (if log == EMPTY then !y.m.compareDone else |log.bs| == |log.rs| == c.n)
    case InitWrite =>
      && !r.issued && |log.ars| == 0 && !y.m.compareDone && !Pulse(y.m)
      && (r.rready ==> !w.issued && w.index == 0)
    case InitRead =>
      !w.issued && |log.bs| == c.n && !y.m.compareDone && !Pulse(y.m) && (r.rready ==> y.heldR.Some?)
    case InitCompare =>
      !w.issued && !r.issued && |log.bs| == c.n && |log.rs| == c.n && !y.m.compareDone && !Pulse(y.m)
  }

  /** SLVERR and DECERR; OKAY and EXOKAY are 0 and 1. */
  predicate Failed(r: Resp) { r == 2 || r == 3 }

  /** A write or read response signalled an error, or read data differed. */
  predicate BadWrite(log: Log) { exists k: nat :: k < |log.bs| && Failed(log.bs[k]) }
  predicate BadRead(log: Log) { exists k: nat :: k < |log.rs| && Failed(log.rs[k].resp) }
  predicate Mismatch(c: Config, log: Log) { exists k: nat :: k < |log.rs| && log.rs[k].data != DataOf(c, k) }
  predicate Bad(c: Config, log: Log) { BadWrite(log) || BadRead(log) || Mismatch(c, log) }

  /** Every cause is in the error register or one edge away from it. */
  predicate ErrorInv(c: Config, y: Sys) {
    && (y.m.errorReg || y.m.r.mismatch <==> Bad(c, y.log))
    && (y.m.exec.InitCompare? ==> (y.m.errorReg <==> Bad(c, y.log)))
    && (y.m.exec.Idle? && y.m.compareDone ==> (y.m.error <==> Bad(c, y.log)))
    && (y.m.error ==> y.m.compareDone)
  }

  predicate LogInv(c: Config, y: Sys) {
    Addresses(c, y.log.aws) && Datas(c, y.log.ws) && Addresses(c, y.log.ars)
  }

  predicate Inv(c: Config, y: Sys) {
    WriteInv(c, y) && ReadInv(c, y) && PhaseInv(c, y) && ErrorInv(c, y) && LogInv(c, y)
  }

  // ---------------------------------------------------------- preservation

  lemma IndexStep(c: Config, k: nat)
    requires c.n >= 1 && k <= c.n
    ensures AtLast(c, k) <==> k == c.n
    ensures k < c.n ==> NextIndex(c, true, k) == k + 1
  {
    WidthSuffices(c.n);
    RemainderUnique(c.n, IndexRange(c.n), 0, c.n);
    if k < c.n { RemainderUnique(k + 1, IndexRange(c.n), 0, k + 1); }
  }

  lemma AddrStep(c: Config, k: nat)
    ensures U32(U32(4 * k) + 4) == U32(4 * (k + 1))
    ensures U32(c.base + U32(4 * k)) == AddrOf(c, k)
  {
    AddWrapped(4 * k, 4);
    AddWrapped(4 * k, c.base);
  }

  /** The write side's counts after one edge. */
  predicate WriteCtlNext(c: Config, w: WriteSide, writing: bool, s: SlaveOut, aw: nat, wd: nat, b: nat) {
    WriteCtl(c.n, RunWrite(c, w, writing, s), aw + Bit(AwHs(w, s)), wd + Bit(WHs(w, s)), b + Bit(BHs(w, s)),
             s.bvalid && !w.bready)
  }

  /** Between transactions. */
  lemma WriteCtlResting(c: Config, w: WriteSide, writing: bool, s: SlaveOut, aw: nat, wd: nat, b: nat)
    requires c.n >= 1 && WriteCtl(c.n, w, aw, wd, b, false) && !w.issued
    requires !s.bvalid && (writing ==> !w.done)
    ensures WriteCtlNext(c, w, writing, s, aw, wd, b)
  {
    IndexStep(c, w.index);
  }

  /** The cycle of the start pulse. */
  lemma WriteCtlStarting(c: Config, w: WriteSide, s: SlaveOut, aw: nat, wd: nat, b: nat)
    requires c.n >= 1 && WriteCtl(c.n, w, aw, wd, b, false) && w.start
    requires !s.bvalid
    ensures WriteCtlNext(c, w, true, s, aw, wd, b)
  {
    IndexStep(c, w.index);
  }

  /** From then until the response is accepted. */
  lemma WriteCtlActive(c: Config, w: WriteSide, s: SlaveOut, aw: nat, wd: nat, b: nat, held: bool)
    requires c.n >= 1 && WriteCtl(c.n, w, aw, wd, b, held) && w.issued && !w.start
    requires (held ==> s.bvalid) && (s.bvalid ==> b < aw && b < wd)
    ensures WriteCtlNext(c, w, true, s, aw, wd, b)
  {
    IndexStep(c, w.index);
  }

  predicate ReadCtlNext(c: Config, r: ReadSide, reading: bool, s: SlaveOut, ar: nat, d: nat) {
    ReadCtl(c.n, RunRead(c, r, reading, s), ar + Bit(ArHs(r, s)), d + Bit(RHs(r, s)), s.rvalid && !r.rready)
  }

  lemma ReadCtlResting(c: Config, r: ReadSide, reading: bool, s: SlaveOut, ar: nat, d: nat)
    requires c.n >= 1 && ReadCtl(c.n, r, ar, d, false) && !r.issued
    requires !s.rvalid && (reading ==> !r.done)
    ensures ReadCtlNext(c, r, reading, s, ar, d)
  {
    IndexStep(c, r.index);
  }

  lemma ReadCtlStarting(c: Config, r: ReadSide, s: SlaveOut, ar: nat, d: nat)
    requires c.n >= 1 && ReadCtl(c.n, r, ar, d, false) && r.start
    requires !s.rvalid && !r.rready
    ensures ReadCtlNext(c, r, true, s, ar, d)
  {
    IndexStep(c, r.index);
  }

  lemma ReadCtlActive(c: Config, r: ReadSide, s: SlaveOut, ar: nat, d: nat, held: bool)
    requires c.n >= 1 && ReadCtl(c.n, r, ar, d, held) && r.issued && !r.start && (r.rready ==> held)
    requires (held ==> s.rvalid) && (s.rvalid ==> d < ar)
    ensures ReadCtlNext(c, r, true, s, ar, d)
  {
    IndexStep(c, r.index);
  }

  /** A step other than the start of a test. */
  predicate Ordinary(c: Config, y: Sys, i: Input) {
    c.n >= 1 && Legal(c, y, i) && !Pulse(y.m)
  }

  lemma WriteCountStep(c: Config, y: Sys, i: Input)
    requires c.n >= 1 && SlaveObeys(y, i.s)
    requires WriteCtl(c.n, y.m.w, |y.log.aws|, |y.log.ws|, |y.log.bs|, y.heldB.Some?)
    requires y.m.w.issued ==> Writing(y.m)
    ensures WriteCtlNext(c, y.m.w, Writing(y.m), i.s, |y.log.aws|, |y.log.ws|, |y.log.bs|)
  {
    var w, log := y.m.w, y.log;
    if !w.issued {
      WriteCtlResting(c, w, Writing(y.m), i.s, |log.aws|, |log.ws|, |log.bs|);
    } else if w.start {
      WriteCtlStarting(c, w, i.s, |log.aws|, |log.ws|, |log.bs|);
    } else {
      WriteCtlActive(c, w, i.s, |log.aws|, |log.ws|, |log.bs|, y.heldB.Some?);
    }
  }

  lemma ReadCountStep(c: Config, y: Sys, i: Input)
    requires c.n >= 1 && SlaveObeys(y, i.s)
    requires ReadCtl(c.n, y.m.r, |y.log.ars|, |y.log.rs|, y.heldR.Some?)
    requires y.m.r.issued ==> Reading(y.m) && (y.m.r.rready ==> y.heldR.Some?)
    ensures ReadCtlNext(c, y.m.r, Reading(y.m), i.s, |y.log.ars|, |y.log.rs|)
  {
    var r, log := y.m.r, y.log;
    if !r.issued {
      ReadCtlResting(c, r, Reading(y.m), i.s, |log.ars|, |log.rs|);
    } else if r.start {
      ReadCtlStarting(c, r, i.s, |log.ars|, |log.rs|);
    } else {
      ReadCtlActive(c, r, i.s, |log.ars|, |log.rs|, y.heldR.Some?);
    }
  }

  lemma WriteIssuedMeansWriting(c: Config, y: Sys)
    requires WriteInv(c, y) && PhaseInv(c, y) && y.m.w.issued
    ensures Writing(y.m)
  {
  }

  lemma ReadIssuedMeansReading(c: Config, y: Sys)
    requires ReadInv(c, y) && PhaseInv(c, y) && y.m.r.issued
    ensures Reading(y.m) && (y.m.r.rready ==> y.heldR.Some?)
  {
  }

  /** The payload registers follow the handshakes. */
  lemma WritePayloadStep(c: Config, y: Sys, i: Input)
    requires WriteInv(c, y)
    ensures var w' := RunWrite(c, y.m.w, Writing(y.m), i.s);
      && w'.awaddr == U32(4 * (|y.log.aws| + Bit(AwHs(y.m.w, i.s))))
      && w'.wdata == DataOf(c, |y.log.ws| + Bit(WHs(y.m.w, i.s)))
  {
    AddrStep(c, |y.log.aws|);
  }

  lemma ReadPayloadStep(c: Config, y: Sys, i: Input)
    requires ReadInv(c, y) && (RHs(y.m.r, i.s) ==> y.m.r.index == |y.log.rs| + 1)
    ensures var r' := RunRead(c, y.m.r, Reading(y.m), i.s);
      && r'.araddr == U32(4 * (|y.log.ars| + Bit(ArHs(y.m.r, i.s))))
      && r'.expected == DataOf(c, |y.log.rs| + Bit(RHs(y.m.r, i.s)))
  {
    AddrStep(c, |y.log.ars|);
  }

  /** Lengths of the logs after one edge. */
  lemma LogCounts(c: Config, y: Sys, s: SlaveOut)
    requires !(y.m.exec.Idle? && Pulse(y.m))
    ensures var log' := NextLog(c, y, s);
      && |log'.aws| == |y.log.aws| + Bit(AwHs(y.m.w, s)) && |log'.ws| == |y.log.ws| + Bit(WHs(y.m.w, s))
      && |log'.bs| == |y.log.bs| + Bit(BHs(y.m.w, s))
      && |log'.ars| == |y.log.ars| + Bit(ArHs(y.m.r, s)) && |log'.rs| == |y.log.rs| + Bit(RHs(y.m.r, s))
  {
  }

  lemma WriteStep(c: Config, y: Sys, i: Input)
    requires Ordinary(c, y, i) && WriteInv(c, y) && PhaseInv(c, y)
    ensures WriteInv(c, SysStep(c, y, i))
  {
    if y.m.w.issued { WriteIssuedMeansWriting(c, y); }
    WriteCountStep(c, y, i);
    WritePayloadStep(c, y, i);
    LogCounts(c, y, i.s);
  }

  lemma ReadStep(c: Config, y: Sys, i: Input)
    requires Ordinary(c, y, i) && ReadInv(c, y) && PhaseInv(c, y)
    ensures ReadInv(c, SysStep(c, y, i))
  {
    if y.m.r.issued { ReadIssuedMeansReading(c, y); }
    ReadCountStep(c, y, i);
    ReadPayloadStep(c, y, i);
    LogCounts(c, y, i.s);
  }

  lemma PhaseStep(c: Config, y: Sys, i: Input)
    requires Ordinary(c, y, i) && WriteInv(c, y) && ReadInv(c, y) && PhaseInv(c, y)
    ensures PhaseInv(c, SysStep(c, y, i))
  {
  }

  lemma AddressesAppend(c: Config, xs: seq<u32>, b: bool, x: u32)
    requires Addresses(c, xs) && (b ==> x == AddrOf(c, |xs|))
    ensures Addresses(c, Append(xs, b, x))
  {
  }

  lemma DatasAppend(c: Config, xs: seq<u32>, b: bool, x: u32)
    requires Datas(c, xs) && (b ==> x == DataOf(c, |xs|))
    ensures Datas(c, Append(xs, b, x))
  {
  }

  lemma LogAppends(c: Config, y: Sys, i: Input)
    requires !Pulse(y.m)
    ensures var log, log' := y.log, SysStep(c, y, i).log;
      && log'.aws == Append(log.aws, AwHs(y.m.w, i.s), AwAddr(c, y.m))
      && log'.ws == Append(log.ws, WHs(y.m.w, i.s), y.m.w.wdata)
      && log'.ars == Append(log.ars, ArHs(y.m.r, i.s), ArAddr(c, y.m))
  {
  }

  lemma WriteLogStep(c: Config, y: Sys, b: bool, d: bool)
    requires WriteInv(c, y) && Addresses(c, y.log.aws) && Datas(c, y.log.ws)
    ensures Addresses(c, Append(y.log.aws, b, AwAddr(c, y.m))) && Datas(c, Append(y.log.ws, d, y.m.w.wdata))
  {
    AddrStep(c, |y.log.aws|);
    AddressesAppend(c, y.log.aws, b, AwAddr(c, y.m));
    DatasAppend(c, y.log.ws, d, y.m.w.wdata);
  }

  lemma ReadLogStep(c: Config, y: Sys, b: bool)
    requires ReadInv(c, y) && Addresses(c, y.log.ars)
    ensures Addresses(c, Append(y.log.ars, b, ArAddr(c, y.m)))
  {
    AddrStep(c, |y.log.ars|);
    AddressesAppend(c, y.log.ars, b, ArAddr(c, y.m));
  }

  lemma LogStep(c: Config, y: Sys, i: Input)
    requires Ordinary(c, y, i) && WriteInv(c, y) && ReadInv(c, y) && LogInv(c, y)
    ensures LogInv(c, SysStep(c, y, i))
  {
    LogAppends(c, y, i);
    WriteLogStep(c, y, AwHs(y.m.w, i.s), WHs(y.m.w, i.s));
    ReadLogStep(c, y, ArHs(y.m.r, i.s));
  }

  lemma BadWriteStep(log: Log, log': Log, b: bool, r: Resp)
    requires log'.bs == Append(log.bs, b, r)
    ensures BadWrite(log') <==> BadWrite(log) || (b && Failed(r))
  {
    if BadWrite(log) {
      var k: nat :| k < |log.bs| && Failed(log.bs[k]);
      assert log'.bs[k] == log.bs[k];
    }
    if b && Failed(r) { assert log'.bs[|log.bs|] == r; }
  }

  lemma BadReadStep(log: Log, log': Log, b: bool, r: ReadBeat)
    requires log'.rs == Append(log.rs, b, r)
    ensures BadRead(log') <==> BadRead(log) || (b && Failed(r.resp))
  {
    if BadRead(log) {
      var k: nat :| k < |log.rs| && Failed(log.rs[k].resp);
      assert log'.rs[k] == log.rs[k];
    }
    if b && Failed(r.resp) { assert log'.rs[|log.rs|] == r; }
  }

  lemma MismatchStep(c: Config, log: Log, log': Log, b: bool, r: ReadBeat)
    requires log'.rs == Append(log.rs, b, r)
    ensures Mismatch(c, log') <==> Mismatch(c, log) || (b && r.data != DataOf(c, |log.rs|))
  {
    if Mismatch(c, log) {
      var k: nat :| k < |log.rs| && log.rs[k].data != DataOf(c, k);
      assert log'.rs[k] == log.rs[k];
    }
    if b && r.data != DataOf(c, |log.rs|) { assert log'.rs[|log.rs|] == r; }
  }

  /** A test that has all its responses sees no more handshakes. */
  lemma QuietWhenDone(c: Config, y: Sys, i: Input)
    requires Ordinary(c, y, i) && WriteInv(c, y) && ReadInv(c, y) && PhaseInv(c, y)
    requires y.m.exec.InitCompare? || y.m.exec.Idle? || (y.m.exec.InitRead? && y.m.r.done)
    ensures SysStep(c, y, i).log == y.log
  {
  }

  lemma ErrorStep(c: Config, y: Sys, i: Input)
    requires Ordinary(c, y, i) && WriteInv(c, y) && ReadInv(c, y) && PhaseInv(c, y) && ErrorInv(c, y)
    ensures ErrorInv(c, SysStep(c, y, i))
  {
    var y', s := SysStep(c, y, i), i.s;
    BadWriteStep(y.log, y'.log, BHs(y.m.w, s), s.bresp);
    BadReadStep(y.log, y'.log, RHs(y.m.r, s), ReadBeat(s.rdata, s.rresp));
    MismatchStep(c, y.log, y'.log, RHs(y.m.r, s), ReadBeat(s.rdata, s.rresp));
    if y.m.exec.InitCompare? || y.m.exec.Idle? || (y.m.exec.InitRead? && y.m.r.done) {
      QuietWhenDone(c, y, i);
    }
  }

  /** Both sides cleared and a new log. */
  predicate Fresh(c: Config, y: Sys) {
    && y.log == EMPTY && y.heldB.None? && y.heldR.None?
    && y.m.w == ClearWrite(c, false, false) && y.m.r == ClearRead(c, false, false)
    && y.m.exec.InitWrite? && !y.m.errorReg && !y.m.compareDone && !y.m.error && !Pulse(y.m)
  }

  lemma FreshInv(c: Config, y: Sys)
    requires c.n >= 1 && Fresh(c, y)
    ensures Inv(c, y)
  {
  }

  lemma StartsFresh(c: Config, y: Sys, i: Input)
    requires c.n >= 1 && Legal(c, y, i) && Inv(c, y) && Pulse(y.m)
    ensures Fresh(c, SysStep(c, y, i))
  {
    assert y.m.exec.Idle?;
  }

  lemma StartStep(c: Config, y: Sys, i: Input)
    requires c.n >= 1 && Legal(c, y, i) && Inv(c, y) && Pulse(y.m)
    ensures Inv(c, SysStep(c, y, i))
  {
    StartsFresh(c, y, i);
    FreshInv(c, SysStep(c, y, i));
  }

  lemma InvStep(c: Config, y: Sys, i: Input)
    requires c.n >= 1 && Legal(c, y, i) && Inv(c, y)
    ensures Inv(c, SysStep(c, y, i))
  {
    if Pulse(y.m) {
      StartStep(c, y, i);
    } else {
      WriteStep(c, y, i);
      ReadStep(c, y, i);
      PhaseStep(c, y, i);
      ErrorStep(c, y, i);
      LogStep(c, y, i);
    }
  }

  lemma {:induction false} AlwaysInv(c: Config, ins: seq<Input>)
    requires c.n >= 1 && Run(c, ins).Some?
    ensures Inv(c, Run(c, ins).value)
  {
    if ins != [] {
      AlwaysInv(c, ins[..|ins| - 1]);
      InvStep(c, Run(c, ins[..|ins| - 1]).value, ins[|ins| - 1]);
    }
  }

  // ---------------------------------------------------------- main results

  /** The n transactions of a test: the k-th write puts START + k at BASE + 4k, the k-th
      read asks for the same address. */
  predicate FullTest(c: Config, log: Log) {
    && log.aws == seq(c.n, k requires 0 <= k => AddrOf(c, k))
    && log.ws == seq(c.n, k requires 0 <= k => DataOf(c, k))
    && log.ars == log.aws
    && |log.bs| == |log.rs| == c.n
  }

  /** Whenever TXN_DONE is up, the last test made exactly its n writes and n reads, each
      with its address and data and in order, and ERROR tells whether any of their
      responses was an error or any read returned the wrong data: no error is missed, the
      last read's included, and none is invented. ERROR is down while TXN_DONE is. */
  lemma TestOutcome(c: Config, ins: seq<Input>)
    requires c.n >= 1 && Run(c, ins).Some?
    ensures var y := Run(c, ins).value;
      && (y.m.compareDone ==> y.m.exec.Idle? && FullTest(c, y.log) && (y.m.error <==> Bad(c, y.log)))
      && (y.m.error ==> y.m.compareDone)
  {
    AlwaysInv(c, ins);
    var y := Run(c, ins).value;
    if y.m.compareDone {
      assert y.m.exec.Idle?;
      assert |y.log.aws| == |y.log.ws| == |y.log.ars| == c.n;
    }
  }

  /** In every cycle of every run: at most one transaction is outstanding, the reads wait
      for the last write response, and everything sent so far is the right prefix. */
  lemma OneOutstanding(c: Config, ins: seq<Input>)
    requires c.n >= 1 && Run(c, ins).Some?
    ensures var log := Run(c, ins).value.log;
      && |log.bs| <= |log.aws| <= |log.bs| + 1 && |log.bs| <= |log.ws| <= |log.bs| + 1
      && |log.rs| <= |log.ars| <= |log.rs| + 1
      && (log.ars != [] ==> |log.bs| == c.n)
      && Addresses(c, log.aws) && Datas(c, log.ws) && Addresses(c, log.ars)
  {
    AlwaysInv(c, ins);
  }

  lemma BusyMeansNoPulse(c: Config, y: Sys)
    requires Inv(c, y) && (y.m.w.awvalid || y.m.w.wvalid || y.m.r.arvalid)
    ensures !Pulse(y.m)
  {
  }

  /** The master's side of the handshake rules, at one edge. */
  predicate HoldsValids(c: Config, m: Master, m': Master, s: SlaveOut) {
    && (m.w.awvalid && !s.awready ==> m'.w.awvalid && AwAddr(c, m') == AwAddr(c, m))
    && (m.w.wvalid && !s.wready ==> m'.w.wvalid && m'.w.wdata == m.w.wdata)
    && (m.r.arvalid && !s.arready ==> m'.r.arvalid && ArAddr(c, m') == ArAddr(c, m))
  }

  lemma HoldsWithoutPulse(c: Config, m: Master, i: Input)
    requires i.aresetn && !Pulse(m)
    ensures HoldsValids(c, m, Step(c, m, i), i.s)
  {
  }

  /** A valid of the master, once up, stays up with the same payload until the slave
      accepts it. */
  lemma ValidsHeld(c: Config, ins: seq<Input>, i: Input)
    requires c.n >= 1 && Run(c, ins).Some? && Legal(c, Run(c, ins).value, i)
    ensures HoldsValids(c, Run(c, ins).value.m, Step(c, Run(c, ins).value.m, i), i.s)
  {
    AlwaysInv(c, ins);
    var y := Run(c, ins).value;
    if y.m.w.awvalid || y.m.w.wvalid || y.m.r.arvalid {
      BusyMeansNoPulse(c, y);
      HoldsWithoutPulse(c, y.m, i);
    }
  }

  /** Neither transaction counter wraps: each counts the transactions started. */
  lemma CountersNeverWrap(c: Config, ins: seq<Input>)
    requires c.n >= 1 && Run(c, ins).Some?
    ensures var y := Run(c, ins).value;
      && y.m.w.index <= c.n < IndexRange(c.n) && y.m.r.index <= c.n
      && |y.log.aws| <= y.m.w.index && |y.log.ars| <= y.m.r.index
  {
    AlwaysInv(c, ins);
    WidthSuffices(c.n);
  }
}
