/** The AXI4-Lite test master (M00_AXI): the registers of its clocked processes and one
    rising edge of the clock. */
module AxiMaster {
  import opened Machine
  import opened Clogb2

  /** Number of transactions, first data value, base address of the slave. */
  datatype Config = Config(n: nat, start: u32, base: u32)

  type Resp = x: int | 0 <= x < 4

  /** Bit 1 of a response marks an error. */
  predicate IsError(r: Resp) { r >= 2 }

  /** What the slave drives. */
  datatype SlaveOut = SlaveOut(
    awready: bool, wready: bool, bvalid: bool, bresp: Resp,
    arready: bool, rvalid: bool, rdata: u32, rresp: Resp)

  /** The reset, INIT_AXI_TXN and the slave's outputs, sampled at a rising edge. */
  datatype Input = Input(aresetn: bool, init: bool, s: SlaveOut)

  datatype Exec = Idle | InitWrite | InitRead | InitCompare

  /** Registers of the three write channels and of the write controller: start is
      start_single_write, issued write_issued, index write_index, last last_write and
      done writes_done. */
  datatype WriteSide = WriteSide(
    awvalid: bool, awaddr: u32, wvalid: bool, wdata: u32, bready: bool,
    start: bool, issued: bool, index: nat, last: bool, done: bool)

  /** The same for the two read channels, with expected_rdata and read_mismatch. */
  datatype ReadSide = ReadSide(
    arvalid: bool, araddr: u32, rready: bool,
    start: bool, issued: bool, index: nat, last: bool, done: bool,
    expected: u32, mismatch: bool)

  datatype Master = Master(
    ff: bool, ff2: bool, exec: Exec, w: WriteSide, r: ReadSide,
    errorReg: bool, compareDone: bool, error: bool)

  /** init_txn_pulse: a rising edge of INIT_AXI_TXN, two registers later. */
  predicate Pulse(m: Master) { m.ff && !m.ff2 }

  /** The condition under which most of the processes clear their register. */
  predicate Clear(m: Master, i: Input) { !i.aresetn || Pulse(m) }

  predicate AwHs(w: WriteSide, s: SlaveOut) { w.awvalid && s.awready }
  predicate WHs(w: WriteSide, s: SlaveOut) { w.wvalid && s.wready }
  predicate BHs(w: WriteSide, s: SlaveOut) { s.bvalid && w.bready }
  predicate ArHs(r: ReadSide, s: SlaveOut) { r.arvalid && s.arready }
  predicate RHs(r: ReadSide, s: SlaveOut) { s.rvalid && r.rready }

  // ------------------------------------------------------- one rising edge

  /** The state machine is in INIT_WRITE (INIT_READ) and not about to leave it. */
  predicate Writing(m: Master) { m.exec.InitWrite? && !m.w.done }
  predicate Reading(m: Master) { m.exec.InitRead? && !m.r.done }

  /** The controller starts a transaction when nothing of the last one is left. */
  predicate MayWrite(w: WriteSide, s: SlaveOut) {
    !w.awvalid && !w.wvalid && !s.bvalid && !w.last && !w.start && !w.issued
  }

  predicate MayRead(r: ReadSide, s: SlaveOut) {
    !r.arvalid && !s.rvalid && !r.last && !r.start && !r.issued
  }

  /** An index counter, as wide as the number of transactions needs. */
  function NextIndex(c: Config, start: bool, index: nat): nat {
    if start then (index + 1) % IndexRange(c.n) else index
  }

  /** Terminal count: the index equals the number of transactions, in the index's width. */
  predicate AtLast(c: Config, index: nat) { index == c.n % IndexRange(c.n) }

  /** Neither reset nor a start pulse clears the registers. */
  function RunWrite(c: Config, w: WriteSide, writing: bool, s: SlaveOut): WriteSide {
    WriteSide(
      w.start || (w.awvalid && !s.awready),
      if AwHs(w, s) then U32(w.awaddr + 4) else w.awaddr,
      w.start || (w.wvalid && !s.wready),
      if WHs(w, s) then U32(c.start + w.index) else w.wdata,
      s.bvalid && !w.bready,
      if writing then MayWrite(w, s) || (w.bready && w.start) else w.start,
      if writing then MayWrite(w, s) || (!w.bready && w.issued) else w.issued,
      NextIndex(c, w.start, w.index),
      w.last || (AtLast(c, w.index) && s.awready),
      w.done || (w.last && BHs(w, s)))
  }

  /** Reset and the start pulse clear everything but the controller's two registers, which
      only reset does. */
  function ClearWrite(c: Config, start: bool, issued: bool): WriteSide {
    WriteSide(false, 0, false, c.start, false, start, issued, 0, false, false)
  }

  function RunRead(c: Config, r: ReadSide, reading: bool, s: SlaveOut): ReadSide {
    ReadSide(
      r.start || (r.arvalid && !s.arready),
      if ArHs(r, s) then U32(r.araddr + 4) else r.araddr,
      s.rvalid && !r.rready,
      if reading then MayRead(r, s) || (r.rready && r.start) else r.start,
      if reading then MayRead(r, s) || (!r.rready && r.issued) else r.issued,
      NextIndex(c, r.start, r.index),
      r.last || (AtLast(c, r.index) && s.arready),
      r.done || (r.last && RHs(r, s)),
      if RHs(r, s) then U32(c.start + r.index) else r.expected,
      r.mismatch || (RHs(r, s) && s.rdata != r.expected))
  }

  function ClearRead(c: Config, start: bool, issued: bool): ReadSide {
    ReadSide(false, 0, true, start, issued, 0, false, false, c.start, false)
  }

  function NextExec(m: Master): Exec {
    match m.exec
    case Idle => if Pulse(m) then InitWrite else Idle
    case InitWrite => if m.w.done then InitRead else InitWrite
    case InitRead => if m.r.done then InitCompare else InitRead
    case InitCompare => Idle
  }

  /** The error register sees a mismatch one edge after the comparison. */
  predicate NextError(m: Master, s: SlaveOut) {
    m.errorReg || m.r.mismatch || (BHs(m.w, s) && IsError(s.bresp)) || (RHs(m.r, s) && IsError(s.rresp))
  }

  function ResetState(c: Config): Master {
    Master(false, false, Idle, ClearWrite(c, false, false), ClearRead(c, false, false), false, false, false)
  }

  function Step(c: Config, m: Master, i: Input): Master {
    if !i.aresetn then ResetState(c)
    else if Pulse(m) then
      // the clearing processes ignore the state machine; the controllers do not
      var w := RunWrite(c, m.w, Writing(m), i.s);
      var r := RunRead(c, m.r, Reading(m), i.s);
      Master(i.init, m.ff, NextExec(m), ClearWrite(c, w.start, w.issued), ClearRead(c, r.start, r.issued), false,
             if m.exec.Idle? then false else m.exec.InitCompare? || m.compareDone,
             if m.exec.Idle? then false else if m.exec.InitCompare? then m.errorReg else m.error)
    else
      Master(i.init, m.ff, NextExec(m),
             RunWrite(c, m.w, Writing(m), i.s), RunRead(c, m.r, Reading(m), i.s), NextError(m, i.s),
             m.exec.InitCompare? || m.compareDone,
             if m.exec.InitCompare? then m.errorReg else m.error)
  }

  /** What a reset leaves, register by register and whatever the master was doing. */
  lemma ResetClears(c: Config, m: Master, i: Input)
    requires !i.aresetn
    ensures var n := Step(c, m, i);
      && !n.ff && !n.ff2 && n.exec.Idle? && !n.compareDone && !n.error && !n.errorReg
      && n.w == WriteSide(false, 0, false, c.start, false, false, false, 0, false, false)
      && n.r == ReadSide(false, 0, true, false, false, 0, false, false, c.start, false)
  {
  }

  /** What a start pulse clears, in any state: everything a reset does but the flip-flops, the
      state machine and what it alone drives. */
  lemma PulseClears(c: Config, m: Master, i: Input)
    requires i.aresetn && Pulse(m)
    ensures var n := Step(c, m, i);
      && !n.errorReg && n.ff == i.init && n.ff2
      && n.w == WriteSide(false, 0, false, c.start, false, n.w.start, n.w.issued, 0, false, false)
      && n.r == ReadSide(false, 0, true, n.r.start, n.r.issued, 0, false, false, c.start, false)
      && (if m.exec.Idle? then n.exec.InitWrite? && !n.compareDone && !n.error
          else if m.exec.InitCompare? then n.exec.Idle? && n.compareDone && n.error == m.errorReg
          else n.compareDone == m.compareDone && n.error == m.error)
  {
  }

  /** Nothing asked for and nothing going on. */
  predicate Silent(m: Master) {
    && !m.ff && !m.ff2 && m.exec.Idle? && !m.compareDone && !m.error
    && !m.w.awvalid && !m.w.wvalid && !m.w.start && !m.r.arvalid && !m.r.start
  }

  function After(c: Config, m: Master, ins: seq<Input>): Master
    decreases |ins|
  {
    if ins == [] then m else After(c, Step(c, m, ins[0]), ins[1..])
  }

  lemma {:induction false} SilentStays(c: Config, m: Master, ins: seq<Input>)
    requires Silent(m) && forall k :: 0 <= k < |ins| ==> !ins[k].init
    ensures Silent(After(c, m, ins))
    decreases |ins|
  {
    if ins != [] { SilentStays(c, Step(c, m, ins[0]), ins[1..]); }
  }

  /** After a reset, whatever went before it and whatever the slave drives, the master asks for
      nothing and reports nothing while INIT_AXI_TXN stays low. */
  lemma SilentUntilAsked(c: Config, m: Master, reset: Input, ins: seq<Input>)
    requires !reset.aresetn && forall k :: 0 <= k < |ins| ==> !ins[k].init
    ensures Silent(After(c, m, [reset] + ins))
  {
    assert ([reset] + ins)[1..] == ins;
    SilentStays(c, Step(c, m, reset), ins);
  }

  /** M_AXI_AWADDR and M_AXI_ARADDR: the offset on top of the base address. */
  function AwAddr(c: Config, m: Master): u32 { U32(c.base + m.w.awaddr) }
  function ArAddr(c: Config, m: Master): u32 { U32(c.base + m.r.araddr) }

  // ------------------------------------------------- the clocked processes

  /** The master as the VHDL architecture has it. Each clocked process is a method that works out
      the next value of its register from the registers before the edge; at the edge all
      of them change at once. */
  class MasterCore {
    const c: Config
    const range: nat    // of an index counter, TRANS_NUM_BITS downto 0
    var regs: Master

    constructor (c: Config)
      requires c.n >= 1
      ensures this.c == c && range == IndexRange(c.n) && regs == ResetState(c)
    {
      this.c, range, regs := c, Pow2(TransNumBits(c.n) + 1), ResetState(c);
    }

    /** A valid register: raised by a start pulse, dropped when the slave accepts. */
    method Valid(v: bool, start: bool, ready: bool, clear: bool) returns (n: bool)
      ensures n == (!clear && (start || (v && !ready)))
    {
      n := v;
      if clear {
        n := false;
      } else if start {
        n := true;
      } else if ready && v {
        n := false;
      }
    }

    /** A ready register: up for one cycle after the slave's valid is seen. */
    method Ready(r: bool, valid: bool, clear: bool, cleared: bool) returns (n: bool)
      ensures n == if clear then cleared else valid && !r
    {
      n := r;
      if clear {
        n := cleared;
      } else if valid && !r {
        n := true;
      } else if r {
        n := false;
      }
    }

    /** A transaction counter and its terminal flag. */
    method Counter(start: bool, index: nat, last: bool, ready: bool, clear: bool) returns (i: nat, l: bool)
      requires range == IndexRange(c.n)
      ensures i == if clear then 0 else NextIndex(c, start, index)
      ensures l == (!clear && (last || (AtLast(c, index) && ready)))
    {
      i, l := index, last;
      if clear { i := 0; } else if start { i := (index + 1) % range; }
      if clear { l := false; } else if index == c.n % range && ready { l := true; }
    }

    /** The INIT_WRITE part of MASTER_EXECUTION_PROC. */
    method WriteController(o: Master, aresetn: bool, s: SlaveOut) returns (start: bool, issued: bool)
      ensures start == (aresetn && RunWrite(c, o.w, Writing(o), s).start)
      ensures issued == (aresetn && RunWrite(c, o.w, Writing(o), s).issued)
    {
      var w := o.w;
      start, issued := w.start, w.issued;
      if !aresetn {
        start, issued := false, false;
      } else if o.exec.InitWrite? && !w.done {
        if !w.awvalid && !w.wvalid && !s.bvalid && !w.last && !w.start && !w.issued {
          start, issued := true, true;
        } else if w.bready {
          issued := false;
        } else {
          start := false;
        }
      }
    }

    method WriteProcesses(o: Master, aresetn: bool, clear: bool, s: SlaveOut) returns (n: WriteSide)
      requires range == IndexRange(c.n) && (!aresetn ==> clear)
      ensures clear ==> n == ClearWrite(c, aresetn && RunWrite(c, o.w, Writing(o), s).start,
                                           aresetn && RunWrite(c, o.w, Writing(o), s).issued)
      ensures !clear ==> n == RunWrite(c, o.w, Writing(o), s)
    {
      var w := o.w;
      var aw := Valid(w.awvalid, w.start, s.awready, clear);
      var wv := Valid(w.wvalid, w.start, s.wready, clear);
      var b := Ready(w.bready, s.bvalid, clear, false);
      var addr, data := w.awaddr, w.wdata;
      if clear { addr := 0; } else if s.awready && w.awvalid { addr := U32(w.awaddr + 4); }
      if clear { data := c.start; } else if s.wready && w.wvalid { data := U32(c.start + w.index); }
      var index, last := Counter(w.start, w.index, w.last, s.awready, clear);
      var done := w.done;
      if clear { done := false; } else if w.last && s.bvalid && w.bready { done := true; }
      var start, issued := WriteController(o, aresetn, s);
      n := WriteSide(aw, addr, wv, data, b, start, issued, index, last, done);
    }

    /** The INIT_READ part. */
    method ReadController(o: Master, aresetn: bool, s: SlaveOut) returns (start: bool, issued: bool)
      ensures start == (aresetn && RunRead(c, o.r, Reading(o), s).start)
      ensures issued == (aresetn && RunRead(c, o.r, Reading(o), s).issued)
    {
      var r := o.r;
      start, issued := r.start, r.issued;
      if !aresetn {
        start, issued := false, false;
      } else if o.exec.InitRead? && !r.done {
        if !r.arvalid && !s.rvalid && !r.last && !r.start && !r.issued {
          start, issued := true, true;
        } else if r.rready {
          issued := false;
        } else {
          start := false;
        }
      }
    }

    method ReadProcesses(o: Master, aresetn: bool, clear: bool, s: SlaveOut) returns (n: ReadSide)
      requires range == IndexRange(c.n) && (!aresetn ==> clear)
      ensures clear ==> n == ClearRead(c, aresetn && RunRead(c, o.r, Reading(o), s).start,
                                          aresetn && RunRead(c, o.r, Reading(o), s).issued)
      ensures !clear ==> n == RunRead(c, o.r, Reading(o), s)
    {
      var r := o.r;
      var ar := Valid(r.arvalid, r.start, s.arready, clear);
      var rr := Ready(r.rready, s.rvalid, clear, true);
      var addr, exp := r.araddr, r.expected;
      if clear { addr := 0; } else if s.arready && r.arvalid { addr := U32(r.araddr + 4); }
      if clear { exp := c.start; } else if s.rvalid && r.rready { exp := U32(c.start + r.index); }
      var index, last := Counter(r.start, r.index, r.last, s.arready, clear);
      var done, mm := r.done, r.mismatch;
      if clear { done := false; } else if r.last && s.rvalid && r.rready { done := true; }
      if clear { mm := false; } else if s.rvalid && r.rready && s.rdata != r.expected { mm := true; }
      var start, issued := ReadController(o, aresetn, s);
      n := ReadSide(ar, addr, rr, start, issued, index, last, done, exp, mm);
    }

    method ErrorRegister(o: Master, clear: bool, s: SlaveOut) returns (er: bool)
      ensures er == (!clear && NextError(o, s))
    {
      var writeRespError := o.w.bready && s.bvalid && IsError(s.bresp);
      var readRespError := o.r.rready && s.rvalid && IsError(s.rresp);
      er := o.errorReg;
      if clear {
        er := false;
      } else if o.r.mismatch || writeRespError || readRespError {
        er := true;
      }
    }

    /** The state register and the outputs TXN_DONE and ERROR. */
    method Execution(o: Master, aresetn: bool) returns (e: Exec, done: bool, err: bool)
      ensures e == if aresetn then NextExec(o) else Idle
      ensures done == (aresetn && (o.exec.InitCompare? || (o.compareDone && !(o.exec.Idle? && Pulse(o)))))
      ensures err == (aresetn && if o.exec.InitCompare? then o.errorReg else o.error && !(o.exec.Idle? && Pulse(o)))
    {
      e, done, err := o.exec, o.compareDone, o.error;
      if !aresetn {
        e, done, err := Idle, false, false;
      } else {
        match o.exec {
          case Idle =>
            if !o.ff2 && o.ff { e, err, done := InitWrite, false, false; }
          case InitWrite =>
            if o.w.done { e := InitRead; }
          case InitRead =>
            if o.r.done { e := InitCompare; }
          case InitCompare =>
            err, e, done := o.errorReg, Idle, true;
        }
      }
    }

    method RisingEdge(i: Input)
      requires range == IndexRange(c.n)
      modifies this
      ensures regs == Step(c, old(regs), i)
    {
      var o, s := regs, i.s;
      var clear := !i.aresetn || (!o.ff2 && o.ff);
      var w := WriteProcesses(o, i.aresetn, clear, s);
      var r := ReadProcesses(o, i.aresetn, clear, s);
      var er := ErrorRegister(o, clear, s);
      var e, done, err := Execution(o, i.aresetn);
      regs := Master(i.aresetn && i.init, i.aresetn && o.ff, e, w, r, er, done, err);
    }
  }
}
