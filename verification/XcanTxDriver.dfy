/** The C functions xcan_start_xmit, xcan_tx_interrupt and xcan_interrupt: an object whose
    fields they update in place, with interference between every two
    statements. The ghost field `st` says where the run stands in XcanTxProtocol; each
    statement of the code is one step of that system, so all it proves applies here. */
module XcanTxDriver {
  import opened Machine
  import opened XcanFrame
  import opened XcanTxProtocol
  import opened XcanEchoRing

  class TxDriver {
    const txMax: nat
    const depth: nat                       // of the device's transmit FIFO
    var txHead: u32
    var txTail: u32
    var awake: bool                        // the network stack's transmit queue
    const echo: array<Option<CanFrame>>    // can.echo_skb
    var txok: bool                         // the device's ISR bit
    var entry: Words                       // what is written of the next FIFO entry
    var written: seq<Words>                // all entries so far, in order
    var inFlight: nat                      // how many of the last of them are not on the bus yet
    ghost const p: Params
    ghost var st: TxState

    /** e is what the frame that is being written encodes to. */
    predicate EncodesCurrent(x: XmitPc, e: Words) {
      Pushing(x) && EncodesTo(x.f, e)
    }

    /** The words of that frame written before the statement x. */
    predicate WrittenBefore(x: XmitPc, w: Words, e: Words) {
      && (!x.WriteId? ==> w.id == e.id)
      && (x.WriteDw1? || x.WriteDw2? ==> w.dlc == e.dlc)
      && (x.WriteDw2? ==> w.dw1 == e.dw1)
    }

    ghost predicate Staged(x: XmitPc, w: Words) {
      forall e :: EncodesCurrent(x, e) ==> WrittenBefore(x, w, e)
    }

    ghost predicate Valid()
      reads this, echo
    {
      && p == Params(txMax, depth) && ValidParams(p)
      && echo.Length == txMax
      && Reachable(p, st)
      && st.head == txHead && st.tail == txTail && st.awake == awake && st.txok == txok
      && st.ring == echo[..]
      && inFlight == |st.pushed| - st.completed
      && LoadedAll(st.pushed, written) && Staged(st.xmit, entry)
    }

    constructor (txMax: nat, depth: nat)
      requires 1 <= txMax < TWO32
      ensures Valid() && fresh(echo)
      ensures p == Params(txMax, depth) && st == Init(p)
    {
      this.txMax, this.depth, p := txMax, depth, Params(txMax, depth);
      txHead, txTail, awake, txok := 0, 0, true, false;
      entry, written, inFlight := Words(0, 0, 0, 0), [], 0;
      echo := new Option<CanFrame>[txMax](i => None);
      st := Init(Params(txMax, depth));
      new;
      InitReachable(p);
    }

    /** Record that the statement just executed is step `a` of the protocol. */
    ghost method Take(a: Action)
      requires ValidParams(p) && Reachable(p, st) && Enabled(p, st, a)
      modifies this`st
      ensures |old(st).ring| == p.txMax
      ensures st == Apply(p, old(st), a) && Reachable(p, st)
    {
      StepReachable(p, st, a);
      st := Apply(p, st, a);
    }

    /** What the hardware may do meanwhile: complete any number of transmissions. */
    method Device()
      requires Valid()
      modifies this`txok, this`inFlight, this`st
      ensures Valid()
      ensures st == old(st).(completed := st.completed, txok := st.txok)
    {
      var n: nat := *;
      while n > 0
        invariant Valid()
        invariant st == old(st).(completed := st.completed, txok := st.txok)
      {
        if inFlight > 0 {
          inFlight, txok := inFlight - 1, true;
          Take(Complete);
        }
        n := n - 1;
      }
    }

    /** The handler does not touch the transmit's side of the state. */
    twostate predicate HandlerOnly()
      reads this
    {
      && st.xmit == old(st.xmit) && st.headN == old(st.headN)
      && st.accepted == old(st.accepted) && st.pushed == old(st.pushed)
    }

    method ClearStatement()
      requires Valid() && st.handler.ClearTxok?
      modifies this`txok, this`inFlight, this`st
      ensures Valid() && st.handler.GetEcho? && HandlerOnly()
      ensures st.tailN == old(st.tailN) && st.returned == old(st.returned)
    {
      txok := false;
      Take(Handler);
    }

    method GetEchoStatement() returns (echoes: seq<CanFrame>)
      requires Valid() && st.handler.GetEcho?
      modifies this, echo
      ensures Valid() && st.handler.IncTail? && HandlerOnly()
      ensures st.tailN == old(st.tailN) && st.returned == old(st.returned) + echoes
    {
      var j := txTail % txMax;
      echoes := [];
      if echo[j].Some? {
        echoes := [echo[j].value];
        echo[j] := None;
      }
      Take(Handler);
    }

    method IncTailStatement()
      requires Valid() && st.handler.IncTail?
      modifies this
      ensures Valid() && st.handler.Reread? && HandlerOnly()
      ensures st.tailN == old(st.tailN) + 1 && st.returned == old(st.returned)
    {
      ghost var was := st;
      txTail := U32(txTail + 1);
      Take(Handler);
      assert st == was.(tail := txTail, tailN := was.tailN + 1, handler := Reread);
    }

    method RereadStatement() returns (isr: bool)
      requires Valid() && st.handler.Reread?
      modifies this
      ensures Valid() && st.handler == Loop(isr) && HandlerOnly()
      ensures isr == txok
      ensures st.tailN == old(st.tailN) && st.returned == old(st.returned)
    {
      isr := txok;
      Take(Handler);
    }

    /** The loop condition of xcan_tx_interrupt. */
    method LoopTest(isr: bool) returns (go: bool)
      requires Valid() && st.handler == Loop(isr)
      modifies this`st
      ensures Valid() && HandlerOnly()
      ensures st.tailN <= st.headN && (go <==> st.tailN < st.headN && isr)
      ensures txok == old(txok)
      ensures st.handler == if go then ClearTxok else Wake
      ensures st.tailN == old(st.tailN) && st.returned == old(st.returned)
    {
      Accounting(p, st);
      go := U32(txHead - txTail) > 0 && isr;
      ghost var was := st;
      assert go <==> was.tailN < was.headN && isr;
      Take(Handler);
      assert st == was.(handler := if go then ClearTxok else Wake);
    }

    /** When the handler is about to wake the queue, the ring has room. */
    lemma LeavesRoom()
      requires ValidParams(p) && Reachable(p, st) && st.handler.Wake?
      ensures U32(st.head - st.tail) < p.txMax
    {
      ReachableCounted(p, st);
      Accounting(p, st);
    }

    method WakeStatement()
      requires Valid() && st.handler.Wake?
      modifies this
      ensures Valid() && st.handler.Out? && HandlerOnly()
      ensures st.tailN == old(st.tailN) && st.returned == old(st.returned)
      ensures awake && U32(txHead - txTail) < txMax
    {
      Device();
      awake := true;
      LeavesRoom();
      Take(Handler);
    }

    /** The body of the drain loop. */
    method DrainOne() returns (isr: bool, echoes: seq<CanFrame>)
      requires Valid() && st.handler.ClearTxok?
      modifies this, echo
      ensures Valid() && st.handler == Loop(isr) && HandlerOnly()
      ensures isr == txok
      ensures st.tailN == old(st.tailN) + 1 && st.returned == old(st.returned) + echoes
    {
      Device();
      ClearStatement();
      Device();
      echoes := GetEchoStatement();
      Device();
      IncTailStatement();
      Device();
      isr := RereadStatement();
    }

    method DrainRound() returns (go: bool, echoes: seq<CanFrame>)
      requires Valid() && st.handler.ClearTxok?
      modifies this, echo
      ensures Valid() && HandlerOnly() && st.handler == if go then ClearTxok else Wake
      ensures st.tailN == old(st.tailN) + 1 <= st.headN && (go ==> st.tailN < st.headN)
      ensures go <==> st.tailN < st.headN && txok
      ensures st.returned == old(st.returned) + echoes
    {
      var isr;
      isr, echoes := DrainOne();
      go := LoopTest(isr);
    }

    /** Where no echo can be lost, each increment of tx_tail has returned one. */
    lemma OneEchoEach()
      requires ValidParams(p) && Reachable(p, st) && TWO32 % p.txMax == 0 && !st.handler.IncTail?
      ensures |st.returned| == st.tailN && st.returned <= st.accepted
    {
      EchoRingIsQueue(p, st);
    }

    /** The drain loop of xcan_tx_interrupt. */
    method Drain() returns (echoes: seq<CanFrame>)
      requires Valid() && st.handler == Loop(true)
      modifies this, echo
      ensures Valid() && st.handler.Wake? && HandlerOnly()
      ensures st.returned == old(st.returned) + echoes
      ensures st.tailN > old(st.tailN) || st.tailN == st.headN
      ensures old(txok) && txok ==> st.tailN == st.headN
      ensures TWO32 % txMax == 0 ==> |echoes| == st.tailN - old(st.tailN)
    {
      if TWO32 % txMax == 0 { OneEchoEach(); }
      echoes := [];
      ghost var t0, returned := st.tailN, st.returned;
      var go := LoopTest(true);
      while go
        invariant Valid() && st.handler == (if go then ClearTxok else Wake) && HandlerOnly()
        invariant t0 <= st.tailN <= st.headN
        invariant if go then st.tailN < st.headN else st.tailN > t0 || st.tailN == st.headN
        invariant !go && old(txok) ==> !txok || st.tailN == st.headN
        invariant st.returned == returned + echoes
        decreases go, st.headN - st.tailN
      {
        var one;
        go, one := DrainRound();
        AppendAssociates(returned, echoes, one);
        echoes := echoes + one;
      }
      if TWO32 % txMax == 0 { OneEchoEach(); }
    }

    /** xcan_tx_interrupt, entered with TXOK set in the handler's copy of ISR: it advances
        tx_tail unless no frame is out, and leaves the queue awake with room. If tx_max
        divides 2^32, it hands back one echo for each step of tx_tail, in the order the
        frames were accepted. */
    method TxInterrupt() returns (echoes: seq<CanFrame>)
      requires Valid() && st.handler == Loop(true)
      modifies this, echo
      ensures Valid() && st.handler.Out? && HandlerOnly()
      ensures st.returned == old(st.returned) + echoes
      ensures st.tailN > old(st.tailN) || st.tailN == st.headN
      ensures awake && U32(txHead - txTail) < txMax
      ensures TWO32 % txMax == 0 ==>
        && |echoes| == st.tailN - old(st.tailN)
        && st.returned <= st.accepted && echoes == st.accepted[|old(st.returned)|..|st.returned|]
    {
      echoes := Drain();
      WakeStatement();
      if TWO32 % txMax == 0 { OneEchoEach(); }
    }

    /** The transmit part of xcan_interrupt; every other part leaves this state alone. */
    method Interrupt() returns (echoes: seq<CanFrame>)
      requires Valid() && st.handler.Out?
      modifies this, echo
      ensures Valid() && st.handler.Out? && HandlerOnly()
      ensures st.returned == old(st.returned) + echoes
    {
      Device();
      var isr := txok;
      Take(Irq);
      echoes := [];
      if isr {
        echoes := TxInterrupt();
      }
    }

    /** What may happen between two statements of a transmit: completions, and any
        number of complete runs of the handler. */
    method Interference()
      requires Valid() && st.handler.Out?
      modifies this, echo
      ensures Valid() && st.handler.Out? && HandlerOnly()
      ensures old(st.returned) <= st.returned
    {
      var n: nat := *;
      while n > 0
        invariant Valid() && st.handler.Out? && HandlerOnly()
        invariant old(st.returned) <= st.returned
      {
        var echoes := Interrupt();
        n := n - 1;
      }
      Device();
    }

    /** A statement of the transmit is over; its successor is `next`. */
    twostate predicate XmitMoved(next: XmitPc)
      reads this
    {
      st.handler.Out? && st.xmit == next && old(st.returned) <= st.returned
    }

    method PutEchoStatement(f: CanFrame)
      requires Valid() && st.handler.Out? && st.xmit == PutEcho(f)
      modifies this, echo
      ensures Valid() && XmitMoved(IncHead(f))
      ensures st.accepted == old(st.accepted) + [f] && st.pushed == old(st.pushed)
    {
      Interference();
      var j := txHead % txMax;
      if echo[j].None? {
        echo[j] := Some(f);
      }
      ghost var was := st;
      Take(Xmit(false));
      assert st == was.(ring := echo[..], accepted := was.accepted + [f], xmit := IncHead(f));
    }

    method IncHeadStatement(f: CanFrame)
      requires Valid() && st.handler.Out? && st.xmit == IncHead(f)
      modifies this, echo
      ensures Valid() && XmitMoved(WriteId(f))
      ensures st.accepted == old(st.accepted) && st.pushed == old(st.pushed)
    {
      Interference();
      ghost var was := st;
      txHead := U32(txHead + 1);
      Take(Xmit(false));
      assert st == was.(head := txHead, headN := was.headN + 1, xmit := WriteId(f));
    }

    /** f is well-formed and e is what it encodes to, while its words are written. */
    lemma CurrentFrame(f: CanFrame) returns (e: Words)
      requires ValidParams(p) && Reachable(p, st) && Pushing(st.xmit) && st.xmit.f == f
      ensures ValidFrame(f) && e == Encode(f) && EncodesCurrent(st.xmit, e)
    {
      SentInOrder(p, st);
      e := Encode(f);
    }

    method WriteIdStatement(f: CanFrame, id: bv32)
      requires Valid() && st.handler.Out? && st.xmit == WriteId(f)
      requires ValidFrame(f) && id == Encode(f).id
      modifies this, echo
      ensures Valid() && XmitMoved(WriteDlc(f))
      ensures st.accepted == old(st.accepted) && st.pushed == old(st.pushed)
    {
      Interference();
      ghost var e := CurrentFrame(f);
      entry := entry.(id := id);
      Take(Xmit(false));
    }

    method StageDlc(f: CanFrame, dlc: bv32)
      requires Valid() && st.handler.Out? && st.xmit == WriteDlc(f) && !Remote(f.canId)
      requires ValidFrame(f) && dlc == Encode(f).dlc
      modifies this
      ensures Valid() && st == old(st).(xmit := WriteDw1(f))
    {
      ghost var e := CurrentFrame(f);
      entry := entry.(dlc := dlc);
      Take(Xmit(false));
    }

    method TriggerByDlc(f: CanFrame, dlc: bv32)
      requires Valid() && st.handler.Out? && st.xmit == WriteDlc(f) && Remote(f.canId)
      requires ValidFrame(f) && dlc == Encode(f).dlc
      modifies this
      ensures Valid() && st == old(st).(xmit := CheckFull, pushed := st.pushed) && st.pushed == old(st.pushed) + [f]
    {
      ghost var e := CurrentFrame(f);
      entry := entry.(dlc := dlc);
      LoadedAllAppend(st.pushed, written, f, entry);
      written, inFlight := written + [entry], inFlight + 1;
      Take(Xmit(false));
    }

    /** The write to the DLC word triggers the transmission of a remote frame. */
    method WriteDlcStatement(f: CanFrame, dlc: bv32)
      requires Valid() && st.handler.Out? && st.xmit == WriteDlc(f)
      requires ValidFrame(f) && dlc == Encode(f).dlc
      modifies this, echo
      ensures Valid() && XmitMoved(if Remote(f.canId) then CheckFull else WriteDw1(f))
      ensures st.accepted == old(st.accepted)
      ensures st.pushed == old(st.pushed) + if Remote(f.canId) then [f] else []
    {
      Interference();
      if Remote(f.canId) { TriggerByDlc(f, dlc); } else { StageDlc(f, dlc); }
    }

    method WriteDw1Statement(f: CanFrame, data: bv32)
      requires Valid() && st.handler.Out? && st.xmit == WriteDw1(f)
      requires ValidFrame(f) && data == Encode(f).dw1
      modifies this, echo
      ensures Valid() && XmitMoved(WriteDw2(f))
      ensures st.accepted == old(st.accepted) && st.pushed == old(st.pushed)
    {
      Interference();
      ghost var e := CurrentFrame(f);
      entry := entry.(dw1 := data);
      Take(Xmit(false));
    }

    /** For any other frame this write does. */
    method WriteDw2Statement(f: CanFrame, data: bv32)
      requires Valid() && st.handler.Out? && st.xmit == WriteDw2(f) && !Remote(f.canId)
      requires ValidFrame(f) && data == Encode(f).dw2
      modifies this, echo
      ensures Valid() && XmitMoved(CheckFull)
      ensures st.accepted == old(st.accepted) && st.pushed == old(st.pushed) + [f]
    {
      Interference();
      ghost var e := CurrentFrame(f);
      entry := entry.(dw2 := data);
      LoadedAllAppend(st.pushed, written, f, entry);
      written, inFlight := written + [entry], inFlight + 1;
      Take(Xmit(false));
    }

    method CheckFullStatement() returns (full: bool)
      requires Valid() && st.handler.Out? && st.xmit.CheckFull?
      modifies this, echo
      ensures Valid() && XmitMoved(StopQueue(full))
      ensures st.accepted == old(st.accepted) && st.pushed == old(st.pushed)
    {
      Interference();
      full := U32(txHead - txTail) == txMax;
      Take(Xmit(false));
    }

    method StopQueueStatement(full: bool)
      requires Valid() && st.handler.Out? && st.xmit == StopQueue(full)
      modifies this, echo
      ensures Valid() && XmitMoved(Idle)
      ensures st.accepted == old(st.accepted) && st.pushed == old(st.pushed)
    {
      Interference();
      if full {
        awake := false;
      }
      Take(Xmit(false));
    }

    /** The check for a full ring and the stop that follows it are two statements; the
        handler may empty the ring in between. */
    method StopIfFull()
      requires Valid() && st.handler.Out? && st.xmit.CheckFull?
      modifies this, echo
      ensures Valid() && XmitMoved(Idle)
      ensures st.accepted == old(st.accepted) && st.pushed == old(st.pushed)
    {
      var full := CheckFullStatement();
      StopQueueStatement(full);
    }

    /** Seeing TXFLL in a transmit takes a hardware FIFO shorter than tx_max. */
    lemma BusyNeedsShortFifo()
      requires ValidParams(p) && Reachable(p, st) && st.xmit.ReadSr? && Enabled(p, st, Xmit(true))
      ensures p.depth < p.txMax
    {
      assert BusyPossible(p);
      BusyExactlyWhenFifoShort(p);
    }

    /** The device may report TXFLL only when its FIFO holds `depth` frames. */
    method ReadSrStatement(f: CanFrame) returns (full: bool)
      requires Valid() && st.handler.Out? && st.xmit == ReadSr(f)
      modifies this, echo
      ensures Valid() && XmitMoved(if full then StopBusy else PutEcho(f))
      ensures st.accepted == old(st.accepted) && st.pushed == old(st.pushed)
      ensures full ==> depth < txMax
    {
      Interference();
      full := *;
      full := full && inFlight >= depth;
      if full { BusyNeedsShortFifo(); }
      Take(Xmit(full));
    }

    method StopBusyStatement()
      requires Valid() && st.handler.Out? && st.xmit.StopBusy?
      modifies this, echo
      ensures Valid() && XmitMoved(Idle) && !awake
      ensures st.accepted == old(st.accepted) && st.pushed == old(st.pushed)
    {
      Interference();
      awake := false;
      Take(Xmit(false));
    }

    /** The TXFLL check at the head of xcan_start_xmit; the handler may wake the queue
        between the read and the stop. */
    method CheckFifo(f: CanFrame) returns (busy: bool)
      requires Valid() && st.handler.Out? && st.xmit == ReadSr(f)
      modifies this, echo
      ensures Valid() && XmitMoved(if busy then Idle else PutEcho(f))
      ensures st.accepted == old(st.accepted) && st.pushed == old(st.pushed)
      ensures busy ==> depth < txMax && !awake
    {
      busy := ReadSrStatement(f);
      if busy { StopBusyStatement(); }
    }

    method WriteData(f: CanFrame, dw1: bv32, dw2: bv32)
      requires Valid() && st.handler.Out? && st.xmit == WriteDw1(f) && !Remote(f.canId)
      requires ValidFrame(f) && dw1 == Encode(f).dw1 && dw2 == Encode(f).dw2
      modifies this, echo
      ensures Valid() && XmitMoved(CheckFull)
      ensures st.accepted == old(st.accepted) && st.pushed == old(st.pushed) + [f]
    {
      WriteDw1Statement(f, dw1);
      WriteDw2Statement(f, dw2);
    }

    /** The register writes: one more entry, in the numbers of the register image. */
    method WriteFrame(f: CanFrame)
      requires Valid() && st.handler.Out? && st.xmit == WriteId(f)
      modifies this, echo
      ensures Valid() && XmitMoved(CheckFull)
      ensures st.accepted == old(st.accepted) && st.pushed == old(st.pushed) + [f]
      ensures |written| == |old(written)| + 1 && ValidFrame(f) && EntryImage(f, written[|old(written)|])
    {
      ghost var n := |written|;
      ghost var e := CurrentFrame(f);
      var w := Encode(f);
      WriteIdStatement(f, w.id);
      WriteDlcStatement(f, w.dlc);
      if !Remote(f.canId) {
        WriteData(f, w.dw1, w.dw2);
      }
      assert Loaded(st.pushed[n], written[n]);
      LoadedImage(f, written[n]);
    }

    /** The k-th accepted frame: its echo is in its slot, or was handed back. */
    ghost predicate Parked(k: nat, f: CanFrame)
      reads this, echo
      requires echo.Length > 0
    {
      if k < |st.returned| then st.returned[k] == f
      else echo[Slot(echo.Length, k)] == Some(f)
    }

    lemma FrameParked(k: nat)
      requires Valid() && TWO32 % txMax == 0 && k < |st.accepted|
      ensures Parked(k, st.accepted[k])
    {
      EchoRingIsQueue(p, st);
    }

    method ParkAndWrite(f: CanFrame)
      requires Valid() && st.handler.Out? && st.xmit == PutEcho(f)
      modifies this, echo
      ensures Valid() && XmitMoved(CheckFull)
      ensures st.accepted == old(st.accepted) + [f] && st.pushed == old(st.pushed) + [f]
    {
      PutEchoStatement(f);
      IncHeadStatement(f);
      WriteFrame(f);
    }

    method Transmit(f: CanFrame) returns (busy: bool)
      requires Valid() && st.xmit.Idle? && st.handler.Out? && awake && ValidFrame(f)
      modifies this, echo
      ensures Valid() && XmitMoved(Idle)
      ensures !busy ==> st.accepted == old(st.accepted) + [f] && st.pushed == old(st.pushed) + [f]
      ensures busy ==> st.accepted == old(st.accepted) && st.pushed == old(st.pushed)
      ensures busy ==> depth < txMax && !awake
    {
      Take(Submit(f));
      busy := CheckFifo(f);
      if !busy {
        ParkAndWrite(f);
        StopIfFull();
      }
    }

    /** xcan_start_xmit; can_dropped_invalid_skb drops a malformed frame. The result says
        whether the stack is told to keep the frame and try again. */
    method StartXmit(f: CanFrame) returns (busy: bool)
      requires Valid() && st.xmit.Idle? && st.handler.Out? && awake
      modifies this, echo
      ensures Valid() && XmitMoved(Idle)
      ensures f.dlc > 8 || |f.data| != 8 ==> !busy && st == old(st)
      ensures f.dlc <= 8 && |f.data| == 8 && !busy ==>
        st.accepted == old(st.accepted) + [f] && st.pushed == old(st.pushed) + [f]
      ensures busy ==> st.accepted == old(st.accepted) && st.pushed == old(st.pushed) && !awake
      ensures busy ==> depth < txMax
      ensures awake ==> U32(txHead - txTail) < txMax
      ensures f.dlc <= 8 && |f.data| == 8 && !busy && TWO32 % txMax == 0 ==> Parked(|old(st.accepted)|, f)
    {
      busy := false;
      if ValidFrame(f) {
        ghost var k := |st.accepted|;
        busy := Transmit(f);
        if !busy && TWO32 % txMax == 0 { FrameParked(k); }
      }
      if awake { QueueDiscipline(p, st); }
    }
  }
}
