/** The AXI4-Lite slave (S00_AXI): sixteen 32-bit registers behind one-cycle ready pulses,
    byte strobes and held responses; one rising edge of the clock. */
module AxiSlave {
  import opened Machine
  import opened ByteLanes
  import opened AxiMaster

  const REGS: nat := 16

  /** What the master drives. */
  datatype MasterOut = MasterOut(
    awvalid: bool, awaddr: nat, wvalid: bool, wdata: u32, wstrb: Strobe, bready: bool,
    arvalid: bool, araddr: nat, rready: bool)

  /** Registers of the write channels (awaddr is the latched address) and of the read
      channels. */
  datatype WriteRegs = WriteRegs(awready: bool, wready: bool, awaddr: nat, bvalid: bool, bresp: Resp)
  datatype ReadRegs = ReadRegs(arready: bool, araddr: nat, rvalid: bool, rresp: Resp, rdata: u32)
  datatype Slave = Slave(w: WriteRegs, r: ReadRegs, regs: seq<u32>)

  /** The register an address selects: its bits 5 downto 2. */
  function Index(addr: nat): (i: nat)
    ensures i < REGS
  {
    addr / 4 % REGS
  }

  /** Register j has the four byte addresses from 4j on. */
  lemma IndexOfAddress(addr: nat)
    requires addr < 64
    ensures 4 * Index(addr) <= addr < 4 * Index(addr) + 4
  {
  }

  /** slv_reg_wren and slv_reg_rden. */
  predicate WriteEnable(w: WriteRegs, m: MasterOut) { w.wready && m.wvalid && w.awready && m.awvalid }
  predicate ReadEnable(r: ReadRegs, m: MasterOut) { r.arready && m.arvalid && !r.rvalid }

  function StepWrite(w: WriteRegs, m: MasterOut): WriteRegs {
    WriteRegs(
      !w.awready && m.awvalid && m.wvalid,
      !w.wready && m.wvalid && m.awvalid,
      if !w.awready && m.awvalid && m.wvalid then m.awaddr else w.awaddr,
      if WriteEnable(w, m) && !w.bvalid then true else w.bvalid && !m.bready,
      if WriteEnable(w, m) && !w.bvalid then 0 else w.bresp)
  }

  function StepRead(r: ReadRegs, regs: seq<u32>, m: MasterOut): ReadRegs
    requires |regs| == REGS
  {
    ReadRegs(
      !r.arready && m.arvalid,
      if !r.arready && m.arvalid then m.araddr else r.araddr,
      if ReadEnable(r, m) then true else r.rvalid && !m.rready,
      if ReadEnable(r, m) then 0 else r.rresp,
      if ReadEnable(r, m) then regs[Index(r.araddr)] else r.rdata)
  }

  function StepRegs(w: WriteRegs, regs: seq<u32>, m: MasterOut): (n: seq<u32>)
    requires |regs| == REGS
    ensures |n| == REGS
  {
    var j := Index(w.awaddr);
    if WriteEnable(w, m) then regs[j := Merge(regs[j], m.wdata, m.wstrb)] else regs
  }

  function ResetSlave(): Slave {
    Slave(WriteRegs(false, false, 0, false, 0), ReadRegs(false, 0x3F, false, 0, 0), seq(REGS, i => 0))
  }

  function StepSlave(s: Slave, aresetn: bool, m: MasterOut): (n: Slave)
    requires |s.regs| == REGS
    ensures |n.regs| == REGS
  {
    if !aresetn then ResetSlave()
    else Slave(StepWrite(s.w, m), StepRead(s.r, s.regs, m), StepRegs(s.w, s.regs, m))
  }

  /** What the slave drives. */
  function Drive(s: Slave): SlaveOut {
    SlaveOut(s.w.awready, s.w.wready, s.w.bvalid, s.w.bresp, s.r.arready, s.r.rvalid, s.r.rdata, s.r.rresp)
  }

  /** The slave as the VHDL architecture has it: the clocked processes update the register file in
      place; every process sees the registers as they were before the edge. */
  class SlaveCore {
    const slvReg: array<u32>
    var w: WriteRegs
    var r: ReadRegs

    ghost predicate Valid()
      reads this, slvReg
    {
      slvReg.Length == REGS
    }

    ghost function State(): Slave
      reads this, slvReg
    {
      Slave(w, r, slvReg[..])
    }

    constructor ()
      ensures Valid() && State() == ResetSlave() && fresh(slvReg)
    {
      w, r := ResetSlave().w, ResetSlave().r;
      slvReg := new u32[REGS](i => 0);
      new;
      assert slvReg[..] == seq(REGS, i => 0);
    }

    method Clear()
      requires Valid()
      modifies slvReg
      ensures slvReg[..] == seq(REGS, i => 0)
    {
      for k := 0 to REGS
        invariant forall j :: 0 <= j < k ==> slvReg[j] == 0
      {
        slvReg[k] := 0;
      }
    }

    /** awready, address latch, wready and response. */
    method WriteProcesses(m: MasterOut) returns (n: WriteRegs)
      ensures n == StepWrite(w, m)
    {
      var awready, wready, addr, bvalid, bresp := false, false, w.awaddr, w.bvalid, w.bresp;
      if !w.awready && m.awvalid && m.wvalid {
        awready, addr := true, m.awaddr;
      }
      if !w.wready && m.wvalid && m.awvalid {
        wready := true;
      }
      if w.awready && m.awvalid && w.wready && m.wvalid && !w.bvalid {
        bvalid, bresp := true, 0;
      } else if m.bready && w.bvalid {
        bvalid := false;
      }
      n := WriteRegs(awready, wready, addr, bvalid, bresp);
    }

    /** arready with its address latch, rvalid, and the output register behind the read
        multiplexer. */
    method ReadProcesses(m: MasterOut) returns (n: ReadRegs)
      requires Valid()
      ensures n == StepRead(r, slvReg[..], m)
    {
      var arready, addr, rvalid, rresp, rdata := false, r.araddr, r.rvalid, r.rresp, r.rdata;
      if !r.arready && m.arvalid {
        arready, addr := true, m.araddr;
      }
      if r.arready && m.arvalid && !r.rvalid {
        rvalid, rresp := true, 0;
      } else if r.rvalid && m.rready {
        rvalid := false;
      }
      if r.arready && m.arvalid && !r.rvalid {
        rdata := slvReg[Index(r.araddr)];
      }
      n := ReadRegs(arready, addr, rvalid, rresp, rdata);
    }

    /** The register write: byte lane by byte lane under the strobes. */
    method Store(m: MasterOut)
      requires Valid()
      modifies slvReg
      ensures slvReg[..] == StepRegs(w, old(slvReg[..]), m)
    {
      if w.wready && m.wvalid && w.awready && m.awvalid {
        var j := Index(w.awaddr);
        var merged := WriteLanes(slvReg[j], m.wdata, m.wstrb);
        slvReg[j] := merged;
      }
    }

    method RisingEdge(aresetn: bool, m: MasterOut)
      requires Valid()
      modifies this, slvReg
      ensures Valid() && State() == StepSlave(old(State()), aresetn, m)
    {
      var w', r' := w, r;
      if !aresetn {
        w', r' := WriteRegs(false, false, 0, false, 0), ReadRegs(false, 0x3F, false, 0, 0);
        Clear();
      } else {
        w' := WriteProcesses(m);
        r' := ReadProcesses(m);
        Store(m);
      }
      w, r := w', r';
    }
  }
}
