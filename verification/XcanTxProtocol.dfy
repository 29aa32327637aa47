/** The transmit side of the CAN driver as a transition system on one CPU.

    One step is one statement of xcan_start_xmit or of the interrupt handler, or one
    transmission completed by the hardware. The handler may start between any two
    statements of a transmit and then runs to its end; completions may land anywhere. */
module XcanTxProtocol {
  import opened Machine
  import opened XcanFrame

  /** tx_max from the device tree, and the depth of the hardware's transmit FIFO. */
  datatype Params = Params(txMax: nat, depth: nat)

  /** Next statement of xcan_start_xmit. */
  datatype XmitPc =
    | Idle
    | ReadSr(f: CanFrame)
    | StopBusy
    | PutEcho(f: CanFrame)
    | IncHead(f: CanFrame)
    | WriteId(f: CanFrame)
    | WriteDlc(f: CanFrame)
    | WriteDw1(f: CanFrame)
    | WriteDw2(f: CanFrame)
    | CheckFull
    | StopQueue(full: bool)

  /** Next statement of the handler; `isr` is its local copy of the TXOK bit. */
  datatype HandlerPc =
    | Out
    | Loop(isr: bool)
    | ClearTxok
    | GetEcho
    | IncTail
    | Reread
    | Wake

  /** head, tail, ring and awake are the driver's; txok, pushed and completed the
      hardware's. headN and tailN count the increments of head and tail without
      wrap-around; accepted and returned list the frames parked in and taken from
      the echo ring. */
  datatype TxState = TxState(
    head: u32, tail: u32, ring: seq<Option<CanFrame>>, awake: bool,
    xmit: XmitPc, handler: HandlerPc, txok: bool,
    headN: nat, tailN: nat,
    accepted: seq<CanFrame>, pushed: seq<CanFrame>, completed: nat, returned: seq<CanFrame>)

  /** Submit: the network stack calls xcan_start_xmit. Xmit and Handler run the next
      statement of the transmit and of the handler; `full` is what a read of the status
      register says about TXFLL. */
  datatype Action = Submit(f: CanFrame) | Xmit(full: bool) | Complete | Irq | Handler

  predicate ValidParams(p: Params) {
    1 <= p.txMax < TWO32
  }

  function Init(p: Params): TxState {
    TxState(0, 0, seq(p.txMax, i => None), true, Idle, Out, false, 0, 0, [], [], 0, [])
  }

  /** The stack submits only to a queue that is awake, and can_dropped_invalid_skb has
      dropped a malformed frame by then. TXFLL is set only when the FIFO
      holds `depth` frames, and it never holds more than were pushed and not completed. */
  predicate Enabled(p: Params, s: TxState, a: Action) {
    match a
    case Submit(f) => s.handler.Out? && s.xmit.Idle? && s.awake && ValidFrame(f)
    case Xmit(full) =>
      && s.handler.Out? && !s.xmit.Idle?
      && (s.xmit.ReadSr? && full ==> |s.pushed| - s.completed >= p.depth)
    case Complete => s.completed < |s.pushed|
    case Irq => s.handler.Out?
    case Handler => !s.handler.Out?
  }

  /** can_put_echo_skb: an occupied slot keeps its frame and the new one is freed. */
  function PutEchoSkb(ring: seq<Option<CanFrame>>, j: nat, f: CanFrame): seq<Option<CanFrame>>
    requires j < |ring|
  {
    if ring[j].None? then ring[j := Some(f)] else ring
  }

  function XmitStep(p: Params, s: TxState, full: bool): (s': TxState)
    requires |s.ring| == p.txMax > 0
    ensures |s'.ring| == p.txMax
  {
    match s.xmit
    case Idle => s
    case ReadSr(f) =>
      s.(xmit := if full then StopBusy else PutEcho(f))
    case StopBusy => s.(awake := false, xmit := Idle)
    case PutEcho(f) =>
      s.(ring := PutEchoSkb(s.ring, s.head % p.txMax, f), accepted := s.accepted + [f], xmit := IncHead(f))
    case IncHead(f) => s.(head := U32(s.head + 1), headN := s.headN + 1, xmit := WriteId(f))
    case WriteId(f) => s.(xmit := WriteDlc(f))
    case WriteDlc(f) =>
      if Remote(f.canId) then s.(pushed := s.pushed + [f], xmit := CheckFull) else s.(xmit := WriteDw1(f))
    case WriteDw1(f) => s.(xmit := WriteDw2(f))
    case WriteDw2(f) => s.(pushed := s.pushed + [f], xmit := CheckFull)
    case CheckFull => s.(xmit := StopQueue(U32(s.head - s.tail) == p.txMax))
    case StopQueue(stop) => s.(awake := s.awake && !stop, xmit := Idle)
  }

  function HandlerStep(p: Params, s: TxState): (s': TxState)
    requires |s.ring| == p.txMax > 0
    ensures |s'.ring| == p.txMax
  {
    match s.handler
    case Out => s
    case Loop(isr) => s.(handler := if U32(s.head - s.tail) > 0 && isr then ClearTxok else Wake)
    case ClearTxok => s.(txok := false, handler := GetEcho)
    case GetEcho =>
      var j := s.tail % p.txMax;
      if s.ring[j].Some? then
        s.(ring := s.ring[j := None], returned := s.returned + [s.ring[j].value], handler := IncTail)
      else
        s.(handler := IncTail)
    case IncTail => s.(tail := U32(s.tail + 1), tailN := s.tailN + 1, handler := Reread)
    case Reread => s.(handler := Loop(s.txok))
    case Wake => s.(awake := true, handler := Out)
  }

  function Apply(p: Params, s: TxState, a: Action): (s': TxState)
    requires |s.ring| == p.txMax > 0
    ensures |s'.ring| == p.txMax
  {
    match a
    case Submit(f) => s.(xmit := ReadSr(f))
    case Xmit(full) => XmitStep(p, s, full)
    case Complete => s.(completed := s.completed + 1, txok := true)
    case Irq => s.(handler := if s.txok then Loop(true) else Out)
    case Handler => HandlerStep(p, s)
  }

  /** The state after a run, or None when some action of it is not enabled. */
  function Exec(p: Params, acts: seq<Action>): (r: Option<TxState>)
    requires ValidParams(p)
    ensures r.Some? ==> |r.value.ring| == p.txMax
  {
    if acts == [] then Some(Init(p)) else
      var before := Exec(p, acts[..|acts| - 1]);
      var a := acts[|acts| - 1];
      if before.Some? && Enabled(p, before.value, a) then Some(Apply(p, before.value, a)) else None
  }

  ghost predicate Reachable(p: Params, s: TxState)
    requires ValidParams(p)
  {
    exists acts :: Exec(p, acts) == Some(s)
  }

  lemma InitReachable(p: Params)
    requires ValidParams(p)
    ensures Reachable(p, Init(p))
  {
    assert Exec(p, []) == Some(Init(p));
  }

  lemma StepReachable(p: Params, s: TxState, a: Action)
    requires ValidParams(p) && Reachable(p, s) && Enabled(p, s, a)
    ensures |s.ring| == p.txMax
    ensures Reachable(p, Apply(p, s, a))
  {
    var acts :| Exec(p, acts) == Some(s);
    var more := acts + [a];
    assert more[..|more| - 1] == acts;
    assert Exec(p, more) == Some(Apply(p, s, a));
  }

  // ---------------------------------------------------------------- accounting

  /** A frame is counted in tx_head but its last register is not written yet. */
  predicate Pushing(x: XmitPc) {
    x.WriteId? || x.WriteDlc? || x.WriteDw1? || x.WriteDw2?
  }

  /** The handler has cleared TXOK and not yet counted the completion it stood for. */
  predicate Owed(h: HandlerPc) {
    h.GetEcho? || h.IncTail?
  }

  /** The statements before tx_head is incremented need a free slot, and so does a
      queue that the stack may use. */
  predicate NeedsRoom(s: TxState) {
    || (s.xmit.Idle? && s.awake)
    || s.xmit.ReadSr? || s.xmit.PutEcho? || s.xmit.IncHead?
    || s.xmit == StopQueue(false)
    || s.handler == Loop(false) || s.handler.Reread? || s.handler.Wake?
  }

  predicate Counted(p: Params, s: TxState) {
    && s.head == U32(s.headN) && s.tail == U32(s.tailN)
    && s.tailN + Bit(Owed(s.handler)) + Bit(s.txok) <= s.completed <= |s.pushed|
    && |s.pushed| + Bit(Pushing(s.xmit)) == s.headN <= s.tailN + p.txMax
    && (s.handler == Loop(true) || s.handler.ClearTxok? ==> s.txok)
    && (s.handler.ClearTxok? || Owed(s.handler) ==> s.tailN < s.headN)
    && (NeedsRoom(s) ==> s.headN < s.tailN + p.txMax)
  }

  /** While the counters are within one range of each other, the wrapping difference
      the code computes is the true one. */
  lemma WrappedDifference(h: nat, t: nat)
    requires t <= h < t + TWO32
    ensures U32(U32(h) - U32(t)) == h - t
  {
  }

  lemma WrappedIncrement(n: nat)
    ensures U32(U32(n) + 1) == U32(n + 1)
  {
  }

  lemma IncHeadKeepsCounted(p: Params, s: TxState)
    requires ValidParams(p) && |s.ring| == p.txMax && Counted(p, s) && s.xmit.IncHead? && s.handler.Out?
    ensures Counted(p, XmitStep(p, s, false))
  {
    WrappedIncrement(s.headN);
  }

  lemma CheckFullKeepsCounted(p: Params, s: TxState)
    requires ValidParams(p) && |s.ring| == p.txMax && Counted(p, s) && s.xmit.CheckFull? && s.handler.Out?
    ensures Counted(p, XmitStep(p, s, false))
  {
    WrappedDifference(s.headN, s.tailN);
  }

  lemma PushKeepsCounted(p: Params, s: TxState)
    requires ValidParams(p) && |s.ring| == p.txMax && Counted(p, s) && s.handler.Out?
    requires s.xmit.WriteDlc? || s.xmit.WriteDw2?
    ensures Counted(p, XmitStep(p, s, false))
  {
  }

  /** The statements that read the status register, write the two registers that push
      nothing, and stop the queue. */
  lemma ControlKeepsCounted(p: Params, s: TxState, full: bool)
    requires ValidParams(p) && |s.ring| == p.txMax && Counted(p, s) && s.handler.Out?
    requires s.xmit.ReadSr? || s.xmit.StopBusy? || s.xmit.WriteId? || s.xmit.WriteDw1? || s.xmit.StopQueue?
    ensures Counted(p, XmitStep(p, s, full))
  {
  }

  lemma PutEchoKeepsCounted(p: Params, s: TxState)
    requires ValidParams(p) && |s.ring| == p.txMax && Counted(p, s) && s.handler.Out? && s.xmit.PutEcho?
    ensures Counted(p, XmitStep(p, s, false))
  {
  }

  lemma XmitKeepsCounted(p: Params, s: TxState, full: bool)
    requires ValidParams(p) && |s.ring| == p.txMax && Counted(p, s) && Enabled(p, s, Xmit(full))
    ensures Counted(p, XmitStep(p, s, full))
  {
    match s.xmit {
      case PutEcho(_) => PutEchoKeepsCounted(p, s);
      case IncHead(_) => IncHeadKeepsCounted(p, s);
      case WriteDlc(_) => PushKeepsCounted(p, s);
      case WriteDw2(_) => PushKeepsCounted(p, s);
      case CheckFull => CheckFullKeepsCounted(p, s);
      case _ => ControlKeepsCounted(p, s, full);
    }
  }

  lemma LoopKeepsCounted(p: Params, s: TxState)
    requires ValidParams(p) && |s.ring| == p.txMax && Counted(p, s) && s.handler.Loop?
    ensures Counted(p, HandlerStep(p, s))
  {
    WrappedDifference(s.headN, s.tailN);
  }

  lemma IncTailKeepsCounted(p: Params, s: TxState)
    requires ValidParams(p) && |s.ring| == p.txMax && Counted(p, s) && s.handler.IncTail?
    ensures Counted(p, HandlerStep(p, s))
  {
    WrappedIncrement(s.tailN);
  }

  lemma HandlerKeepsCounted(p: Params, s: TxState)
    requires ValidParams(p) && |s.ring| == p.txMax && Counted(p, s)
    ensures Counted(p, HandlerStep(p, s))
  {
    match s.handler {
      case Loop(_) => LoopKeepsCounted(p, s);
      case IncTail => IncTailKeepsCounted(p, s);
      case _ =>
    }
  }

  lemma OtherKeepsCounted(p: Params, s: TxState, a: Action)
    requires ValidParams(p) && |s.ring| == p.txMax && Counted(p, s) && Enabled(p, s, a)
    requires a.Submit? || a.Complete? || a.Irq?
    ensures Counted(p, Apply(p, s, a))
  {
  }

  lemma StepKeepsCounted(p: Params, s: TxState, a: Action)
    requires ValidParams(p) && |s.ring| == p.txMax && Counted(p, s) && Enabled(p, s, a)
    ensures Counted(p, Apply(p, s, a))
  {
    match a {
      case Xmit(full) => XmitKeepsCounted(p, s, full);
      case Handler => HandlerKeepsCounted(p, s);
      case _ => OtherKeepsCounted(p, s, a);
    }
  }

  lemma {:induction false} AlwaysCounted(p: Params, acts: seq<Action>)
    requires ValidParams(p) && Exec(p, acts).Some?
    ensures Counted(p, Exec(p, acts).value)
  {
    if acts != [] {
      AlwaysCounted(p, acts[..|acts| - 1]);
      StepKeepsCounted(p, Exec(p, acts[..|acts| - 1]).value, acts[|acts| - 1]);
    }
  }

  lemma ReachableCounted(p: Params, s: TxState)
    requires ValidParams(p) && Reachable(p, s)
    ensures Counted(p, s)
  {
    var acts :| Exec(p, acts) == Some(s);
    AlwaysCounted(p, acts);
  }

  /** Accounting over every interleaved run: frames taken back, plus the one a pending
      TXOK stands for, are among those completed; those were pushed; those were
      counted in tx_head; and at most tx_max are in flight. */
  lemma Accounting(p: Params, s: TxState)
    requires ValidParams(p) && Reachable(p, s)
    ensures s.tailN + Bit(s.txok) <= s.completed <= |s.pushed| <= s.headN <= s.tailN + p.txMax
    ensures s.head == U32(s.headN) && s.tail == U32(s.tailN)
    ensures U32(s.head - s.tail) == s.headN - s.tailN
  {
    ReachableCounted(p, s);
    WrappedDifference(s.headN, s.tailN);
  }

  /** An awake queue with no transmit in progress always has room in the ring. */
  lemma QueueDiscipline(p: Params, s: TxState)
    requires ValidParams(p) && Reachable(p, s) && s.awake && s.xmit.Idle?
    ensures U32(s.head - s.tail) < p.txMax
  {
    ReachableCounted(p, s);
    Accounting(p, s);
  }

  lemma CompletionStays(p: Params, s: TxState, a: Action)
    requires ValidParams(p) && |s.ring| == p.txMax && Counted(p, s) && Enabled(p, s, a)
    requires !s.handler.Out? ==> s.completed > 0
    ensures !Apply(p, s, a).handler.Out? ==> Apply(p, s, a).completed > 0
  {
    var s' := Apply(p, s, a);
    assert s'.completed >= s.completed;
    assert a.Irq? && s.txok ==> s.completed > 0;
  }

  lemma {:induction false} HandlerNeedsCompletion(p: Params, acts: seq<Action>)
    requires ValidParams(p) && Exec(p, acts).Some?
    ensures !Exec(p, acts).value.handler.Out? ==> Exec(p, acts).value.completed > 0
  {
    if acts != [] {
      var before, a := acts[..|acts| - 1], acts[|acts| - 1];
      HandlerNeedsCompletion(p, before);
      AlwaysCounted(p, before);
      CompletionStays(p, Exec(p, before).value, a);
    }
  }

  /** An interrupt raised for another reason leaves the transmit side alone: until the
      hardware has completed a frame, tx_tail, the ring's echoes and the queue are not
      touched by the handler. */
  lemma NothingBeforeCompletion(p: Params, s: TxState)
    requires ValidParams(p) && Reachable(p, s) && s.completed == 0
    ensures s.handler.Out? && s.tailN == 0 && !s.txok
  {
    var acts :| Exec(p, acts) == Some(s);
    HandlerNeedsCompletion(p, acts);
    AlwaysCounted(p, acts);
  }

  // -------------------------------------------------------------- send order

  /** The hardware gets the accepted frames in order; the last accepted one may be on its
      way there. */
  predicate Sends(s: TxState) {
    && |s.accepted| == s.headN + Bit(s.xmit.IncHead?)
    && s.pushed <= s.accepted
    && (forall k :: 0 <= k < |s.accepted| ==> ValidFrame(s.accepted[k]))
    && (s.xmit.ReadSr? || s.xmit.PutEcho? ==> ValidFrame(s.xmit.f))
    && (Pushing(s.xmit) || s.xmit.IncHead? ==> s.accepted != [] && s.xmit.f == s.accepted[|s.accepted| - 1])
  }

  lemma PushSends(p: Params, s: TxState)
    requires ValidParams(p) && |s.ring| == p.txMax && Counted(p, s) && Sends(s)
    requires s.xmit.WriteDlc? || s.xmit.WriteDw2?
    ensures Sends(XmitStep(p, s, false))
  {
    assert s.pushed + [s.xmit.f] <= s.accepted;
  }

  lemma PutEchoSends(p: Params, s: TxState)
    requires ValidParams(p) && |s.ring| == p.txMax && Sends(s)
    requires s.xmit.PutEcho? || s.xmit.IncHead?
    ensures Sends(XmitStep(p, s, false))
  {
  }

  lemma WriteSends(p: Params, s: TxState)
    requires ValidParams(p) && |s.ring| == p.txMax && Sends(s)
    requires s.xmit.WriteId? || s.xmit.WriteDw1?
    ensures Sends(XmitStep(p, s, false))
  {
  }

  lemma QueueSends(p: Params, s: TxState, full: bool)
    requires ValidParams(p) && |s.ring| == p.txMax && Sends(s)
    requires s.xmit.ReadSr? || s.xmit.StopBusy? || s.xmit.CheckFull? || s.xmit.StopQueue?
    ensures Sends(XmitStep(p, s, full))
  {
  }

  lemma HandlerSends(p: Params, s: TxState)
    requires ValidParams(p) && |s.ring| == p.txMax && Sends(s)
    ensures Sends(HandlerStep(p, s))
  {
    var s' := HandlerStep(p, s);
    assert s'.accepted == s.accepted && s'.pushed == s.pushed && s'.headN == s.headN && s'.xmit == s.xmit;
  }

  lemma StepSends(p: Params, s: TxState, a: Action)
    requires ValidParams(p) && |s.ring| == p.txMax && Counted(p, s) && Sends(s) && Enabled(p, s, a)
    ensures Sends(Apply(p, s, a))
  {
    match a {
      case Submit(_) =>
      case Complete =>
      case Irq =>
      case Handler => HandlerSends(p, s);
      case Xmit(full) =>
        match s.xmit {
          case PutEcho(_) => PutEchoSends(p, s);
          case IncHead(_) => PutEchoSends(p, s);
          case WriteId(_) => WriteSends(p, s);
          case WriteDw1(_) => WriteSends(p, s);
          case WriteDlc(_) => PushSends(p, s);
          case WriteDw2(_) => PushSends(p, s);
          case _ => QueueSends(p, s, full);
        }
    }
  }

  lemma {:induction false} AlwaysSends(p: Params, acts: seq<Action>)
    requires ValidParams(p) && Exec(p, acts).Some?
    ensures Sends(Exec(p, acts).value)
  {
    if acts != [] {
      AlwaysCounted(p, acts[..|acts| - 1]);
      AlwaysSends(p, acts[..|acts| - 1]);
      StepSends(p, Exec(p, acts[..|acts| - 1]).value, acts[|acts| - 1]);
    }
  }

  /** The hardware gets the accepted frames in the order they were accepted, each once and
      each well-formed, for every tx_max and any number of frames. */
  lemma SentInOrder(p: Params, s: TxState)
    requires ValidParams(p) && Reachable(p, s)
    ensures s.pushed <= s.accepted && s.completed <= |s.pushed|
    ensures forall k :: 0 <= k < |s.accepted| ==> ValidFrame(s.accepted[k])
    ensures |s.accepted| == s.headN + Bit(s.xmit.IncHead?)
    ensures Pushing(s.xmit) ==> ValidFrame(s.xmit.f)
  {
    var acts :| Exec(p, acts) == Some(s);
    AlwaysCounted(p, acts);
    AlwaysSends(p, acts);
  }

  // ------------------------------------------------------- the TX_BUSY branch

  /** Some run reaches the status read of a transmit with TXFLL set. */
  ghost predicate BusyPossible(p: Params)
    requires ValidParams(p)
  {
    exists s :: Reachable(p, s) && s.xmit.ReadSr? && Enabled(p, s, Xmit(true))
  }

  /** A data frame without data. */
  const EMPTY_FRAME := CanFrame(0, 0, [0, 0, 0, 0, 0, 0, 0, 0])

  /** n frames sent one after the other and none completed. */
  predicate Backlog(s: TxState, n: nat) {
    && s.xmit.Idle? && s.handler.Out? && s.awake && !s.txok
    && s.headN == |s.pushed| == |s.accepted| == n && s.tailN == s.completed == 0
  }

  /** The register writes of a data frame. */
  lemma TransmitWrites(p: Params, s: TxState) returns (s': TxState)
    requires ValidParams(p) && Reachable(p, s) && s.xmit.WriteId? && !Remote(s.xmit.f.canId) && s.handler.Out?
    ensures Reachable(p, s') && s' == s.(pushed := s.pushed + [s.xmit.f], xmit := CheckFull)
  {
    var f := s.xmit.f;
    StepReachable(p, s, Xmit(false));
    s' := s.(xmit := WriteDlc(f));
    StepReachable(p, s', Xmit(false));
    s' := s.(xmit := WriteDw1(f));
    StepReachable(p, s', Xmit(false));
    s' := s.(xmit := WriteDw2(f));
    StepReachable(p, s', Xmit(false));
    s' := s.(pushed := s.pushed + [f], xmit := CheckFull);
  }

  /** Up to the check for a full ring. */
  lemma TransmitToCheck(p: Params, s: TxState, f: CanFrame) returns (s': TxState)
    requires ValidParams(p) && Reachable(p, s) && ValidFrame(f) && !Remote(f.canId)
    requires s.xmit.Idle? && s.handler.Out? && s.awake
    ensures |s.ring| == p.txMax && Reachable(p, s')
    ensures s' == s.(head := s'.head, headN := s.headN + 1, pushed := s.pushed + [f], accepted := s.accepted + [f],
                     ring := PutEchoSkb(s.ring, s.head % p.txMax, f), xmit := CheckFull)
  {
    StepReachable(p, s, Submit(f));
    s' := s.(xmit := ReadSr(f));
    StepReachable(p, s', Xmit(false));
    s' := s.(xmit := PutEcho(f));
    StepReachable(p, s', Xmit(false));
    s' := XmitStep(p, s', false);
    StepReachable(p, s', Xmit(false));
    s' := XmitStep(p, s', false);
    s' := TransmitWrites(p, s');
  }

  lemma TransmitCheck(p: Params, s: TxState) returns (s': TxState)
    requires ValidParams(p) && Reachable(p, s) && s.xmit.CheckFull? && s.handler.Out?
    ensures Reachable(p, s') && s' == s.(xmit := StopQueue(s.headN - s.tailN == p.txMax))
  {
    Accounting(p, s);
    StepReachable(p, s, Xmit(false));
    assert U32(s.head - s.tail) == s.headN - s.tailN;
    s' := s.(xmit := StopQueue(s.headN - s.tailN == p.txMax));
  }

  /** One undisturbed transmit: every statement from the submission to the return. */
  lemma TransmitOnce(p: Params, s: TxState, f: CanFrame) returns (s': TxState)
    requires ValidParams(p) && Reachable(p, s) && ValidFrame(f) && !Remote(f.canId)
    requires s.xmit.Idle? && s.handler.Out? && s.awake
    ensures |s.ring| == p.txMax
    ensures Reachable(p, s') && s'.xmit.Idle? && s'.handler.Out?
    ensures s'.txok == s.txok && s'.tailN == s.tailN && s'.completed == s.completed
    ensures s'.tail == s.tail && s'.returned == s.returned
    ensures s'.headN == s.headN + 1 && s'.pushed == s.pushed + [f] && s'.accepted == s.accepted + [f]
    ensures s'.ring == PutEchoSkb(s.ring, s.head % p.txMax, f)
    ensures s'.awake == (s'.headN - s'.tailN != p.txMax)
  {
    s' := TransmitToCheck(p, s, f);
    s' := TransmitCheck(p, s');
    StepReachable(p, s', Xmit(false));
    s' := s'.(xmit := Idle, awake := !s'.xmit.full);
  }

  lemma CompleteOne(p: Params, s: TxState) returns (s': TxState)
    requires ValidParams(p) && Reachable(p, s) && s.completed < |s.pushed|
    ensures Reachable(p, s') && s' == s.(completed := s.completed + 1, txok := true)
  {
    StepReachable(p, s, Complete);
    s' := s.(completed := s.completed + 1, txok := true);
  }

  lemma HandlerCounts(p: Params, s: TxState) returns (s': TxState)
    requires ValidParams(p) && Reachable(p, s) && s.handler.IncTail?
    ensures Reachable(p, s') && s' == s.(handler := Reread, tail := s'.tail, tailN := s.tailN + 1)
  {
    StepReachable(p, s, Handler);
    s' := HandlerStep(p, s);
  }

  lemma HandlerEnters(p: Params, s: TxState) returns (s': TxState)
    requires ValidParams(p) && Reachable(p, s) && s.handler == Loop(true)
    ensures |s.ring| == p.txMax && Reachable(p, s') && s.tailN < s.headN
    ensures s' == s.(handler := GetEcho, txok := false)
  {
    ReachableCounted(p, s);
    Accounting(p, s);
    StepReachable(p, s, Handler);
    assert U32(s.head - s.tail) > 0;
    s' := s.(handler := ClearTxok);
    StepReachable(p, s', Handler);
    s' := s.(handler := GetEcho, txok := false);
  }

  lemma HandlerTakesBack(p: Params, s: TxState) returns (s': TxState)
    requires ValidParams(p) && Reachable(p, s) && |s.ring| == p.txMax && s.handler.GetEcho?
    ensures Reachable(p, s')
    ensures s' == s.(handler := IncTail, ring := s.ring[s.tail % p.txMax := None], returned := s'.returned)
  {
    StepReachable(p, s, Handler);
    s' := HandlerStep(p, s);
  }

  lemma HandlerLeaves(p: Params, s: TxState) returns (s': TxState)
    requires ValidParams(p) && Reachable(p, s) && s.handler.Reread? && !s.txok
    ensures Reachable(p, s') && s' == s.(handler := Out, awake := true)
  {
    StepReachable(p, s, Handler);
    s' := s.(handler := Loop(false));
    StepReachable(p, s', Handler);
    s' := s.(handler := Wake);
    StepReachable(p, s', Handler);
    s' := s.(handler := Out, awake := true);
  }

  /** One run of the handler that finds a single TXOK and is not disturbed. */
  lemma HandlerOnce(p: Params, s: TxState) returns (s': TxState)
    requires ValidParams(p) && Reachable(p, s) && s.handler == Loop(true)
    ensures |s.ring| == p.txMax && Reachable(p, s') && s.tailN < s.headN
    ensures s' == s.(handler := Out, txok := false, awake := true, tail := s'.tail, tailN := s.tailN + 1,
                     ring := s.ring[s.tail % p.txMax := None], returned := s'.returned)
  {
    var s1 := HandlerEnters(p, s);
    var s2 := HandlerTakesBack(p, s1);
    var s3 := HandlerCounts(p, s2);
    s' := HandlerLeaves(p, s3);
  }

  lemma {:induction false} BacklogReachable(p: Params, n: nat) returns (s: TxState)
    requires ValidParams(p) && n < p.txMax
    ensures Reachable(p, s) && Backlog(s, n)
  {
    if n == 0 {
      InitReachable(p);
      s := Init(p);
    } else {
      s := BacklogReachable(p, n - 1);
      s := TransmitOnce(p, s, EMPTY_FRAME);
    }
  }

  /** The branch "TX FIFO full when queue awake" is dead exactly when the hardware FIFO
      is at least tx_max deep. */
  lemma BusyExactlyWhenFifoShort(p: Params)
    requires ValidParams(p)
    ensures BusyPossible(p) <==> p.depth < p.txMax
  {
    if BusyPossible(p) {
      var s :| Reachable(p, s) && s.xmit.ReadSr? && Enabled(p, s, Xmit(true));
      ReachableCounted(p, s);
    }
    if p.depth < p.txMax {
      var s := BacklogReachable(p, p.depth);
      StepReachable(p, s, Submit(EMPTY_FRAME));
      var s' := Apply(p, s, Submit(EMPTY_FRAME));
      assert s'.xmit.ReadSr? && Enabled(p, s', Xmit(true));
    }
  }
}
