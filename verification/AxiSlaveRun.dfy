/** The slave behind any master that obeys the handshake rules (ARM IHI 0022, section
    A3.2.1) and has at most one write and one read outstanding: it refines a memory of
    bytes, which a reset clears. */
module AxiSlaveRun {
  import opened Machine
  import opened ByteLanes
  import opened AxiMaster
  import opened AxiSlave

  datatype WriteOp = WriteOp(addr: nat, data: u32, strb: Strobe)

  /** A read, and how many writes had been accepted when it was. */
  datatype ReadOp = ReadOp(addr: nat, seen: nat)

  /** Accepted writes, number of responses accepted, accepted reads, data returned. */
  datatype History = History(writes: seq<WriteOp>, bs: nat, reqs: seq<ReadOp>, rs: seq<u32>)

  /** The slave; the registers it started from; its history; and the requests that were up
      in the last cycle without being accepted. */
  datatype Port = Port(
    s: Slave, mem0: seq<u32>, h: History,
    heldAw: Option<nat>, heldW: Option<(u32, Strobe)>, heldAr: Option<nat>)

  /** What the rules allow the master to drive in this cycle. */
  predicate MasterObeys(p: Port, m: MasterOut) {
    && (p.heldAw.Some? ==> m.awvalid && m.awaddr == p.heldAw.value)
    && (p.heldW.Some? ==> m.wvalid && (m.wdata, m.wstrb) == p.heldW.value)
    && (p.heldAr.Some? ==> m.arvalid && m.araddr == p.heldAr.value)
    && (m.awvalid ==> p.h.bs == |p.h.writes|)
    && (m.arvalid ==> |p.h.rs| == |p.h.reqs|)
  }

  /** The write address and the write data are both accepted at this edge. */
  predicate WriteAccepted(s: Slave, m: MasterOut) { s.w.awready && m.awvalid && s.w.wready && m.wvalid }
  predicate ReadAccepted(s: Slave, m: MasterOut) { s.r.arready && m.arvalid }

  function NextHistory(p: Port, m: MasterOut): History {
    History(
      if WriteAccepted(p.s, m) then p.h.writes + [WriteOp(m.awaddr, m.wdata, m.wstrb)] else p.h.writes,
      if p.s.w.bvalid && m.bready then p.h.bs + 1 else p.h.bs,
      if ReadAccepted(p.s, m) then p.h.reqs + [ReadOp(m.araddr, |p.h.writes|)] else p.h.reqs,
      if p.s.r.rvalid && m.rready then p.h.rs + [p.s.r.rdata] else p.h.rs)
  }

  function PortStep(p: Port, m: MasterOut): Port
    requires |p.s.regs| == REGS
  {
    Port(StepSlave(p.s, true, m), p.mem0, NextHistory(p, m),
         if m.awvalid && !p.s.w.awready then Some(m.awaddr) else None,
         if m.wvalid && !p.s.w.wready then Some((m.wdata, m.wstrb)) else None,
         if m.arvalid && !p.s.r.arready then Some(m.araddr) else None)
  }

  const NO_HISTORY := History([], 0, [], [])

  /** The slave at rest, with any contents. */
  function Rest(regs: seq<u32>): Port {
    Port(Slave(WriteRegs(false, false, 0, false, 0), ReadRegs(false, 0x3F, false, 0, 0), regs), regs,
         NO_HISTORY, None, None, None)
  }

  /** S_AXI_ARESETN and what the master drives, sampled at a rising edge. */
  datatype Edge = Edge(aresetn: bool, m: MasterOut)

  /** What a memory of sixteen words holds after a reset. */
  const ZEROS: seq<u32> := [0, 0, 0, 0, 0, 0, 0, 0, 0, 0, 0, 0, 0, 0, 0, 0]

  /** An edge with the reset low forgets everything that went before. */
  function PortEdge(p: Port, e: Edge): (p': Port)
    requires |p.s.regs| == REGS
    ensures |p'.s.regs| == REGS
  {
    if e.aresetn then PortStep(p, e.m)
    else Port(StepSlave(p.s, false, e.m), ZEROS, NO_HISTORY, None, None, None)
  }

  predicate EdgeObeys(p: Port, e: Edge) { e.aresetn ==> MasterObeys(p, e.m) }

  /** The slave after a run of edges, resets among them at any time, or None if the master
      breaks the rules. */
  function Run(regs: seq<u32>, es: seq<Edge>): (r: Option<Port>)
    requires |regs| == REGS
    ensures r.Some? ==> |r.value.s.regs| == REGS
  {
    if es == [] then Some(Rest(regs)) else
      var before := Run(regs, es[..|es| - 1]);
      var e := es[|es| - 1];
      if before.Some? && EdgeObeys(before.value, e) then Some(PortEdge(before.value, e)) else None
  }

  /** The contents at the last reset, or at the beginning. */
  function Base(regs: seq<u32>, es: seq<Edge>): (base: seq<u32>)
    requires |regs| == REGS
    ensures |base| == REGS
  {
    if es == [] then regs else if !es[|es| - 1].aresetn then ZEROS else Base(regs, es[..|es| - 1])
  }

  // ------------------------------------------------------ the byte memory

  /** Byte k of register j after some writes: the strobed byte of the last write that
      covers it, or what was there before. */
  function ByteAfter(mem0: seq<u32>, writes: seq<WriteOp>, j: nat, k: nat): nat
    requires |mem0| == REGS && j < REGS && k < 4
  {
    if writes == [] then Lane(mem0[j], k) else
      var last := writes[|writes| - 1];
      if Index(last.addr) == j && last.strb[k] then Lane(last.data, k)
      else ByteAfter(mem0, writes[..|writes| - 1], j, k)
  }

  /** Register j holds exactly the bytes of that memory. */
  predicate Word(mem0: seq<u32>, writes: seq<WriteOp>, j: nat, v: u32)
    requires |mem0| == REGS && j < REGS
  {
    forall k: nat :: k < 4 ==> Lane(v, k) == ByteAfter(mem0, writes, j, k)
  }

  lemma WordUnique(mem0: seq<u32>, writes: seq<WriteOp>, j: nat, v: u32, v': u32)
    requires |mem0| == REGS && j < REGS && Word(mem0, writes, j, v) && Word(mem0, writes, j, v')
    ensures v == v'
  {
    RangeOfWord();
    LanesDetermine(v, v', 4);
  }

  /** Register j after some writes, as a word: each write that selects it replaces the
      strobed bytes. */
  function Fold(mem0: seq<u32>, writes: seq<WriteOp>, j: nat): u32
    requires |mem0| == REGS && j < REGS
  {
    if writes == [] then mem0[j] else
      var last := writes[|writes| - 1];
      var before := Fold(mem0, writes[..|writes| - 1], j);
      if Index(last.addr) == j then Merge(before, last.data, last.strb) else before
  }

  /** An accepted write changes the bytes it covers and no others. */
  lemma WordAfterWrite(mem0: seq<u32>, writes: seq<WriteOp>, op: WriteOp, j: nat, v: u32)
    requires |mem0| == REGS && j < REGS && Word(mem0, writes, j, v)
    ensures Word(mem0, writes + [op], j, if Index(op.addr) == j then Merge(v, op.data, op.strb) else v)
  {
    assert (writes + [op])[..|writes|] == writes;
  }

  lemma {:induction false} FoldBytes(mem0: seq<u32>, writes: seq<WriteOp>, j: nat)
    requires |mem0| == REGS && j < REGS
    ensures Word(mem0, writes, j, Fold(mem0, writes, j))
  {
    if writes != [] {
      var n := |writes| - 1;
      FoldBytes(mem0, writes[..n], j);
      WordAfterWrite(mem0, writes[..n], writes[n], j, Fold(mem0, writes[..n], j));
      assert writes == writes[..n] + [writes[n]];
    }
  }

  /** The bytes determine the word: only the fold holds them. */
  lemma WordIsFold(mem0: seq<u32>, writes: seq<WriteOp>, j: nat, v: u32)
    requires |mem0| == REGS && j < REGS
    ensures Word(mem0, writes, j, v) <==> v == Fold(mem0, writes, j)
  {
    FoldBytes(mem0, writes, j);
    if Word(mem0, writes, j, v) { WordUnique(mem0, writes, j, v, Fold(mem0, writes, j)); }
  }

  predicate Memory(p: Port) {
    && |p.s.regs| == REGS == |p.mem0|
    && forall j: nat :: j < REGS ==> Word(p.mem0, p.h.writes, j, p.s.regs[j])
  }

  // ------------------------------------------------------------- invariant

  predicate WriteInv(p: Port) {
    var w := p.s.w;
    && w.awready == w.wready
    && (w.awready ==> p.heldAw == Some(w.awaddr) && p.heldW.Some?)
    && |p.h.writes| == p.h.bs + Bit(w.bvalid)
    && w.bresp == 0
  }

  predicate ReadInv(p: Port) {
    var r := p.s.r;
    && (r.arready ==> p.heldAr == Some(r.araddr))
    && |p.h.reqs| == |p.h.rs| + Bit(r.rvalid)
    && r.rresp == 0
  }

  /** v is what read number n should return. */
  predicate Answers(p: Port, n: nat, v: u32)
    requires |p.mem0| == REGS && n < |p.h.reqs|
  {
    var op := p.h.reqs[n];
    op.seen <= |p.h.writes| && Word(p.mem0, p.h.writes[..op.seen], Index(op.addr), v)
  }

  predicate DataInv(p: Port) {
    && |p.mem0| == REGS && |p.h.rs| <= |p.h.reqs|
    && (forall n: nat :: n < |p.h.rs| ==> Answers(p, n, p.h.rs[n]))
    && (p.s.r.rvalid ==> |p.h.rs| < |p.h.reqs| && Answers(p, |p.h.rs|, p.s.r.rdata))
  }

  predicate Inv(p: Port) { Memory(p) && WriteInv(p) && ReadInv(p) && DataInv(p) }

  lemma WriteStep(p: Port, m: MasterOut)
    requires |p.s.regs| == REGS && WriteInv(p) && MasterObeys(p, m)
    ensures WriteInv(PortStep(p, m))
  {
  }

  lemma ReadStep(p: Port, m: MasterOut)
    requires |p.s.regs| == REGS && ReadInv(p) && MasterObeys(p, m)
    ensures ReadInv(PortStep(p, m))
  {
  }

  lemma MemoryStep(p: Port, m: MasterOut)
    requires Memory(p) && WriteInv(p) && MasterObeys(p, m)
    ensures Memory(PortStep(p, m))
  {
    var p' := PortStep(p, m);
    if WriteAccepted(p.s, m) {
      var op := WriteOp(m.awaddr, m.wdata, m.wstrb);
      forall j: nat | j < REGS
        ensures Word(p'.mem0, p'.h.writes, j, p'.s.regs[j])
      {
        WordAfterWrite(p.mem0, p.h.writes, op, j, p.s.regs[j]);
      }
    }
  }

  /** Later events do not change what an accepted read should return. */
  lemma AnswersStable(p: Port, m: MasterOut, n: nat, v: u32)
    requires |p.s.regs| == REGS == |p.mem0| && n < |p.h.reqs| && Answers(p, n, v)
    ensures n < |PortStep(p, m).h.reqs| && Answers(PortStep(p, m), n, v)
  {
    var p', op := PortStep(p, m), p.h.reqs[n];
    assert p'.h.writes[..op.seen] == p.h.writes[..op.seen];
  }

  /** A read is answered from the registers as they are when it is accepted. */
  lemma AnswersNew(p: Port, m: MasterOut)
    requires Memory(p) && ReadInv(p) && MasterObeys(p, m) && ReadAccepted(p.s, m)
    ensures var p' := PortStep(p, m);
      p'.s.r.rvalid && |p'.h.reqs| == |p.h.reqs| + 1 && Answers(p', |p.h.reqs|, p'.s.r.rdata)
  {
    var p' := PortStep(p, m);
    assert p'.h.writes[..|p.h.writes|] == p.h.writes;
  }

  lemma DataStep(p: Port, m: MasterOut)
    requires Inv(p) && MasterObeys(p, m)
    ensures DataInv(PortStep(p, m))
  {
    var p' := PortStep(p, m);
    forall n: nat | n < |p'.h.rs|
      ensures n < |p'.h.reqs| && Answers(p', n, p'.h.rs[n])
    {
      AnswersStable(p, m, n, p'.h.rs[n]);
    }
    if ReadAccepted(p.s, m) {
      AnswersNew(p, m);
    } else if p.s.r.rvalid {
      AnswersStable(p, m, |p.h.rs|, p.s.r.rdata);
    }
  }

  lemma InvStep(p: Port, m: MasterOut)
    requires Inv(p) && MasterObeys(p, m)
    ensures Inv(PortStep(p, m))
  {
    WriteStep(p, m);
    ReadStep(p, m);
    MemoryStep(p, m);
    DataStep(p, m);
  }

  lemma UntouchedMemory(mem0: seq<u32>)
    requires |mem0| == REGS
    ensures forall j: nat :: j < REGS ==> Word(mem0, [], j, mem0[j])
  {
    assert forall j: nat, k: nat :: j < REGS && k < 4 ==> ByteAfter(mem0, [], j, k) == Lane(mem0[j], k);
  }

  /** A reset clears all sixteen registers and takes back ready and response, whatever the
      slave was doing. */
  lemma ResetClears(s: Slave, m: MasterOut)
    requires |s.regs| == REGS
    ensures StepSlave(s, false, m)
         == Slave(WriteRegs(false, false, 0, false, 0), ReadRegs(false, 0x3F, false, 0, 0), ZEROS)
  {
    assert seq(REGS, i => 0) == ZEROS;
  }

  lemma EdgeInv(p: Port, e: Edge)
    requires Inv(p) && EdgeObeys(p, e)
    ensures Inv(PortEdge(p, e))
  {
    if e.aresetn {
      InvStep(p, e.m);
    } else {
      ResetClears(p.s, e.m);
      UntouchedMemory(ZEROS);
    }
  }

  lemma {:induction false} AlwaysInv(regs: seq<u32>, es: seq<Edge>)
    requires |regs| == REGS && Run(regs, es).Some?
    ensures Inv(Run(regs, es).value) && Run(regs, es).value.mem0 == Base(regs, es)
  {
    if es == [] {
      UntouchedMemory(regs);
    } else {
      AlwaysInv(regs, es[..|es| - 1]);
      EdgeInv(Run(regs, es[..|es| - 1]).value, es[|es| - 1]);
    }
  }

  // ---------------------------------------------------------- main results

  /** The slave is a memory, over runs with resets at any time: each register holds the fold
      of the writes accepted since the last reset that select it, starting from zero, and the
      n-th read since then returns what its register held when it was accepted. */
  lemma SlaveIsMemory(regs: seq<u32>, es: seq<Edge>)
    requires |regs| == REGS && Run(regs, es).Some?
    ensures var p, base := Run(regs, es).value, Base(regs, es);
      && (forall j: nat :: j < REGS ==> p.s.regs[j] == Fold(base, p.h.writes, j))
      && |p.h.rs| <= |p.h.reqs|
      && (forall n: nat :: n < |p.h.rs| ==>
            && p.h.reqs[n].seen <= |p.h.writes|
            && p.h.rs[n] == Fold(base, p.h.writes[..p.h.reqs[n].seen], Index(p.h.reqs[n].addr)))
  {
    AlwaysInv(regs, es);
    var p, base := Run(regs, es).value, Base(regs, es);
    forall j: nat | j < REGS
      ensures p.s.regs[j] == Fold(base, p.h.writes, j)
    {
      WordIsFold(base, p.h.writes, j, p.s.regs[j]);
    }
    forall n: nat | n < |p.h.rs|
      ensures p.h.reqs[n].seen <= |p.h.writes|
      ensures p.h.rs[n] == Fold(base, p.h.writes[..p.h.reqs[n].seen], Index(p.h.reqs[n].addr))
    {
      assert Answers(p, n, p.h.rs[n]);
      WordIsFold(base, p.h.writes[..p.h.reqs[n].seen], Index(p.h.reqs[n].addr), p.h.rs[n]);
    }
  }

  /** Every write accepted since the last reset has had its response accepted, or has it up;
      likewise every read: exactly one response each, none unasked for, all of them OKAY. */
  lemma OneResponseEach(regs: seq<u32>, es: seq<Edge>)
    requires |regs| == REGS && Run(regs, es).Some?
    ensures var p := Run(regs, es).value;
      && |p.h.writes| == p.h.bs + Bit(p.s.w.bvalid)
      && |p.h.reqs| == |p.h.rs| + Bit(p.s.r.rvalid)
      && p.s.w.bresp == 0 && p.s.r.rresp == 0
  {
    AlwaysInv(regs, es);
  }

  /** Address and data of a write are accepted at the same edge. */
  lemma AcceptedTogether(regs: seq<u32>, es: seq<Edge>, m: MasterOut)
    requires |regs| == REGS && Run(regs, es).Some? && MasterObeys(Run(regs, es).value, m)
    ensures var s := Run(regs, es).value.s;
      && (s.w.awready && m.awvalid <==> s.w.wready && m.wvalid)
      && (s.w.awready && m.awvalid ==> s.w.awaddr == m.awaddr)
  {
    AlwaysInv(regs, es);
  }

  /** A response, once up, stays up with its payload until the master accepts it. */
  lemma ResponsesHeld(regs: seq<u32>, es: seq<Edge>, m: MasterOut)
    requires |regs| == REGS && Run(regs, es).Some? && MasterObeys(Run(regs, es).value, m)
    ensures var s := Run(regs, es).value.s; var s' := StepSlave(s, true, m);
      && (s.w.bvalid && !m.bready ==> s'.w.bvalid && s'.w.bresp == s.w.bresp)
      && (s.r.rvalid && !m.rready ==> s'.r.rvalid && s'.r.rdata == s.r.rdata && s'.r.rresp == s.r.rresp)
  {
    AlwaysInv(regs, es);
  }
}
