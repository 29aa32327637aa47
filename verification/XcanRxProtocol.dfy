/** The receive side of the CAN driver as a transition system: the interrupt handler that
    masks the receive interrupts and schedules NAPI, the poll routine that drains the
    FIFO under a quota and unmasks them, and the arrival of frames.

    One step is one statement; statements of the handler and of the poll routine
    interleave freely, which covers one CPU (where the handler preempts the poll) and
    more. A step that only reads IER is left out: both writers overwrite the receive
    bits they read, and nothing else in IER changes while the interface is up. */
module XcanRxProtocol {
  import opened Machine
  import opened XcanFrame

  /** An entry of the receive FIFO. */
  type Message = Words

  /** Next statement of xcan_rx_poll, with its locals isr, work_done and quota. */
  datatype PollPc =
    | Idle
    | ReadIsr(work: int, quota: int)
    | Test(isr: bool, work: int, quota: int)
    | ClearRxok(work: int, quota: int)
    | Receive(work: int, quota: int)
    | ClearRxnemp(work: int, quota: int)
    | Finish(work: int, quota: int)
    | NapiComplete
    | Unmask

  /** Next statement of the receive part of xcan_interrupt. */
  datatype IrqPc = Out | Mask | Schedule

  /** fifo, rxnemp and rxok are the device's; masked says that IER has the receive bits
      off; sched is NAPI's scheduled bit; arrived and delivered are histories. */
  datatype RxState = RxState(
    fifo: seq<Message>, rxnemp: bool, rxok: bool, masked: bool, sched: bool,
    poll: PollPc, irq: IrqPc,
    arrived: seq<Message>, delivered: seq<Message>)

  /** Poll(alloc): the next statement of the poll routine; `alloc` is whether the
      allocation in xcan_rx succeeds. Irq starts the handler, for whatever reason. */
  datatype Action = Arrive(m: Message) | StartPoll(quota: int) | Poll(alloc: bool) | Irq | IrqStep

  /** After xcan_open: nothing received, receive interrupts on, NAPI enabled and idle. */
  const INIT := RxState([], false, false, false, false, Idle, Out, [], [])

  predicate Enabled(s: RxState, a: Action) {
    match a
    case Arrive(_) => true
    case StartPoll(_) => s.poll.Idle? && s.sched
    case Poll(_) => !s.poll.Idle?
    case Irq => s.irq.Out?
    case IrqStep => !s.irq.Out?
  }

  /** xcan_rx: without a buffer the frame stays in the FIFO. Reading an empty FIFO gives
      no frame; EmptyFifoNeverRead shows that it does not happen. */
  function ReceiveStep(s: RxState, alloc: bool, work: int, quota: int): RxState {
    if !alloc || s.fifo == [] then s.(poll := ClearRxnemp(work, quota))
    else s.(fifo := s.fifo[1..], delivered := s.delivered + [s.fifo[0]], poll := ClearRxnemp(work + 1, quota))
  }

  function PollStep(s: RxState, alloc: bool): RxState {
    match s.poll
    case Idle => s
    case ReadIsr(w, q) => s.(poll := Test(s.rxnemp, w, q))
    case Test(isr, w, q) => s.(poll := if isr && w < q then ClearRxok(w, q) else Finish(w, q))
    case ClearRxok(w, q) => s.(rxok := false, poll := Receive(w, q))
    case Receive(w, q) => ReceiveStep(s, alloc, w, q)
    // the device raises RXNEMP again at once if the FIFO still holds a frame
    case ClearRxnemp(w, q) => s.(rxnemp := s.fifo != [], poll := ReadIsr(w, q))
    case Finish(w, q) => s.(poll := if w < q then NapiComplete else Idle)
    case NapiComplete => s.(sched := false, poll := Unmask)
    case Unmask => s.(masked := false, poll := Idle)
  }

  function Apply(s: RxState, a: Action): RxState {
    match a
    case Arrive(m) => s.(fifo := s.fifo + [m], arrived := s.arrived + [m], rxnemp := true, rxok := true)
    case StartPoll(q) => s.(poll := ReadIsr(0, q))
    case Poll(alloc) => PollStep(s, alloc)
    case Irq => s.(irq := if s.rxnemp || s.rxok then Mask else Out)
    case IrqStep =>
      if s.irq.Mask? then s.(masked := true, irq := Schedule)
      else if s.irq.Schedule? then s.(sched := true, irq := Out)
      else s
  }

  function Exec(acts: seq<Action>): Option<RxState> {
    if acts == [] then Some(INIT) else
      var before := Exec(acts[..|acts| - 1]);
      var a := acts[|acts| - 1];
      if before.Some? && Enabled(before.value, a) then Some(Apply(before.value, a)) else None
  }

  ghost predicate Reachable(s: RxState) {
    exists acts :: Exec(acts) == Some(s)
  }

  lemma InitReachable()
    ensures Reachable(INIT)
  {
    assert Exec([]) == Some(INIT);
  }

  lemma StepReachable(s: RxState, a: Action)
    requires Reachable(s) && Enabled(s, a)
    ensures Reachable(Apply(s, a))
  {
    var acts :| Exec(acts) == Some(s);
    var more := acts + [a];
    assert more[..|more| - 1] == acts;
    assert Exec(more) == Some(Apply(s, a));
  }

  // --------------------------------------------------------------- invariant

  /** The poll routine has not given NAPI back yet. */
  predicate Polling(q: PollPc) {
    !q.Idle? && !q.Unmask?
  }

  predicate Inv(s: RxState) {
    && s.delivered + s.fifo == s.arrived
    && (s.fifo != [] ==> s.rxnemp)
    && (s.rxnemp && !s.poll.ClearRxnemp? ==> s.fifo != [])
    && ((s.poll.Test? && s.poll.isr) || s.poll.ClearRxok? || s.poll.Receive? ==> s.fifo != [])
    && (s.rxok ==> |s.fifo| > if s.poll.Receive? then 1 else 0)
    && (Polling(s.poll) ==> s.sched)
    && (s.masked ==> s.sched || s.poll.Unmask? || s.irq.Schedule?)
    && (s.poll.ClearRxok? || s.poll.Receive? ==> s.poll.work < s.poll.quota)
  }

  lemma ReceiveKeepsInv(s: RxState, alloc: bool)
    requires Inv(s) && s.poll.Receive?
    ensures Inv(PollStep(s, alloc))
  {
    if alloc {
      assert s.delivered + s.fifo == (s.delivered + [s.fifo[0]]) + s.fifo[1..];
    }
  }

  lemma DrainKeepsInv(s: RxState, alloc: bool)
    requires Inv(s)
    requires s.poll.ReadIsr? || s.poll.Test? || s.poll.ClearRxok? || s.poll.ClearRxnemp?
    ensures Inv(PollStep(s, alloc))
  {
  }

  lemma EndKeepsInv(s: RxState, alloc: bool)
    requires Inv(s)
    requires s.poll.Finish? || s.poll.NapiComplete? || s.poll.Unmask? || s.poll.Idle?
    ensures Inv(PollStep(s, alloc))
  {
  }

  lemma OtherKeepsInv(s: RxState, a: Action)
    requires Inv(s) && Enabled(s, a) && !a.Poll?
    ensures Inv(Apply(s, a))
  {
    if a.Arrive? {
      assert s.delivered + (s.fifo + [a.m]) == s.arrived + [a.m];
    }
  }

  lemma {:induction false} AlwaysInv(acts: seq<Action>)
    requires Exec(acts).Some?
    ensures Inv(Exec(acts).value)
  {
    if acts != [] {
      var s, a := Exec(acts[..|acts| - 1]).value, acts[|acts| - 1];
      AlwaysInv(acts[..|acts| - 1]);
      if !a.Poll? {
        OtherKeepsInv(s, a);
      } else if s.poll.Receive? {
        ReceiveKeepsInv(s, a.alloc);
      } else if s.poll.ReadIsr? || s.poll.Test? || s.poll.ClearRxok? || s.poll.ClearRxnemp? {
        DrainKeepsInv(s, a.alloc);
      } else {
        EndKeepsInv(s, a.alloc);
      }
    }
  }

  lemma ReachableInv(s: RxState)
    requires Reachable(s)
    ensures Inv(s)
  {
    var acts :| Exec(acts) == Some(s);
    AlwaysInv(acts);
  }

  /** A receive interrupt is asserted and enabled. */
  predicate InterruptPending(s: RxState) {
    !s.masked && (s.rxnemp || s.rxok)
  }

  /** No lost wakeup: the receive interrupts are off only while NAPI is scheduled, or the
      poll is about to turn them on, or the handler is about to schedule NAPI; so a frame
      in the FIFO always has a poll or an enabled interrupt coming. */
  lemma NoLostWakeup(s: RxState)
    requires Reachable(s)
    ensures s.masked ==> s.sched || s.poll.Unmask? || s.irq.Schedule?
    ensures s.fifo != [] ==> s.sched || s.poll.Unmask? || s.irq.Schedule? || InterruptPending(s)
  {
    ReachableInv(s);
  }

  /** Every frame that arrived was delivered once, in order, or is still in the FIFO. */
  lemma NothingLostOrReordered(s: RxState)
    requires Reachable(s)
    ensures s.arrived == s.delivered + s.fifo
  {
    ReachableInv(s);
  }

  lemma EmptyFifoNeverRead(s: RxState)
    requires Reachable(s) && s.poll.Receive?
    ensures s.fifo != []
  {
    ReachableInv(s);
  }

  /** No idle interrupt: the device asserts a receive bit only while a frame waits, except
      from the moment the poll takes the last frame until it clears RXNEMP. */
  lemma ReceiveBitMeansFrame(s: RxState)
    requires Reachable(s) && (s.rxok || (s.rxnemp && !s.poll.ClearRxnemp?))
    ensures s.fifo != []
  {
    ReachableInv(s);
  }

  /** Once masked, the receive interrupts stay off until a poll that ended below its quota
      turns them on. */
  lemma OnlyThePollUnmasks(s: RxState, a: Action)
    requires Reachable(s) && Enabled(s, a) && s.masked && !Apply(s, a).masked
    ensures s.poll.Unmask? && a.Poll?
  {
  }

  /** A poll that has used up its quota goes back to NAPI, which stays scheduled, and leaves
      the interrupts as they were. */
  lemma QuotaUsedUp(s: RxState, alloc: bool)
    requires Reachable(s) && s.poll.Finish? && s.poll.work >= s.poll.quota
    ensures PollStep(s, alloc) == s.(poll := Idle) && s.sched
  {
    ReachableInv(s);
  }

  lemma {:induction false} AlwaysQuiet(acts: seq<Action>)
    requires Exec(acts).Some? && Exec(acts).value.arrived == []
    ensures var s := Exec(acts).value; s.poll.Idle? && s.irq.Out? && !s.masked && !s.sched
  {
    if acts != [] {
      AlwaysInv(acts[..|acts| - 1]);
      AlwaysQuiet(acts[..|acts| - 1]);
    }
  }

  /** Interrupts raised for other reasons leave the receive side alone: until a frame has
      arrived nothing is masked, scheduled or polled. */
  lemma QuietBeforeFirst(s: RxState)
    requires Reachable(s) && s.arrived == []
    ensures s.poll.Idle? && s.irq.Out? && !s.masked && !s.sched
  {
    var acts :| Exec(acts) == Some(s);
    AlwaysQuiet(acts);
  }

  // ---------------------------------------------------------------- progress

  /** What the driver does next when nothing disturbs it: finish the handler, else finish
      the poll, else start the poll NAPI has scheduled, else take the interrupt, which
      MoveAdvances shows to be asserted and enabled then. */
  function NextMove(s: RxState, quota: int): (a: Action)
    ensures Enabled(s, a)
  {
    if !s.irq.Out? then IrqStep
    else if !s.poll.Idle? then Poll(true)
    else if s.sched then StartPoll(quota)
    else Irq
  }

  /** Statements until the next frame is delivered, bounded from above. */
  function Distance(s: RxState): nat {
    var sched := s.sched || !s.irq.Out?;
    var irq := if s.irq.Mask? then 2 else if s.irq.Schedule? then 1 else 0;
    irq +
    match s.poll
    case Idle => if sched then 5 else 8
    case ReadIsr(w, q) => if w < q then 4 else 13
    case Test(isr, w, q) => if isr && w < q then 3 else 12
    case ClearRxok(_, _) => 2
    case Receive(_, _) => 1
    case ClearRxnemp(w, q) => if w < q then 5 else 14
    case Finish(_, _) => 11
    case NapiComplete => 10
    case Unmask => 9
  }

  predicate Advances(s: RxState, s': RxState)
    requires s.fifo != []
  {
    || s'.delivered == s.delivered + [s.fifo[0]]
    || (s'.fifo == s.fifo && s'.delivered == s.delivered && Distance(s') < Distance(s))
  }

  lemma DrainAdvances(s: RxState)
    requires Inv(s) && s.fifo != [] && s.irq.Out?
    requires s.poll.ReadIsr? || s.poll.Test? || s.poll.ClearRxok? || s.poll.Receive? || s.poll.ClearRxnemp?
    ensures Advances(s, PollStep(s, true))
  {
  }

  lemma EndAdvances(s: RxState)
    requires Inv(s) && s.fifo != [] && s.irq.Out?
    requires s.poll.Finish? || s.poll.NapiComplete? || s.poll.Unmask?
    ensures Advances(s, PollStep(s, true))
  {
  }

  /** Each move delivers the oldest frame or comes closer to it, and an interrupt taken on
      the way is one that the device asserts and the driver has enabled. */
  lemma MoveAdvances(s: RxState, quota: int)
    requires Inv(s) && s.fifo != [] && quota > 0
    ensures Advances(s, Apply(s, NextMove(s, quota)))
    ensures NextMove(s, quota).Irq? ==> InterruptPending(s)
  {
    if s.irq.Out? && !s.poll.Idle? {
      if s.poll.Finish? || s.poll.NapiComplete? || s.poll.Unmask? { EndAdvances(s); } else { DrainAdvances(s); }
    }
  }

  /** The state after n undisturbed moves. */
  function Drive(s: RxState, quota: int, n: nat): RxState
    decreases n
  {
    if n == 0 then s else Drive(Apply(s, NextMove(s, quota)), quota, n - 1)
  }

  /** Each of the n moves that takes an interrupt finds one that is asserted and enabled. */
  predicate OnlyPending(s: RxState, quota: int, n: nat)
    decreases n
  {
    n > 0 ==>
      && (NextMove(s, quota).Irq? ==> InterruptPending(s))
      && OnlyPending(Apply(s, NextMove(s, quota)), quota, n - 1)
  }

  /** After n undisturbed moves, each interrupt among them pending, exactly `out` has been
      delivered. */
  predicate Delivers(s: RxState, quota: int, n: nat, out: seq<Message>) {
    OnlyPending(s, quota, n) && Drive(s, quota, n).delivered == out
  }

  lemma OneMoveEarlier(s: RxState, quota: int, n: nat, out: seq<Message>)
    requires NextMove(s, quota).Irq? ==> InterruptPending(s)
    requires Delivers(Apply(s, NextMove(s, quota)), quota, n, out)
    ensures Delivers(s, quota, n + 1, out)
  {
  }

  lemma DistancePositive(s: RxState)
    ensures 1 <= Distance(s) <= 16
  {
  }

  lemma {:induction false} DeliveredWithin(s: RxState, quota: int) returns (n: nat)
    requires Reachable(s) && s.fifo != [] && quota > 0
    ensures n <= Distance(s) && Delivers(s, quota, n, s.delivered + [s.fifo[0]])
    decreases Distance(s)
  {
    ReachableInv(s);
    MoveAdvances(s, quota);
    StepReachable(s, NextMove(s, quota));
    var s', out := Apply(s, NextMove(s, quota)), s.delivered + [s.fifo[0]];
    n := 0;
    if s'.delivered == out {
      assert Delivers(s', quota, 0, out);
      DistancePositive(s);
    } else {
      n := DeliveredWithin(s', quota);
    }
    OneMoveEarlier(s, quota, n, out);
    n := n + 1;
  }

  /** From every reachable state in which a frame waits, the driver left to itself
      delivers it within 16 statements, and needs no interrupt that is masked or not
      asserted: a waiting frame is never forgotten. */
  lemma WaitingFrameIsDelivered(s: RxState, quota: int)
    requires Reachable(s) && s.fifo != [] && quota > 0
    ensures exists n: nat :: n <= 16 && Delivers(s, quota, n, s.delivered + [s.fifo[0]])
  {
    var n := DeliveredWithin(s, quota);
    DistancePositive(s);
  }

  /** No frame, no poll, no interrupt: the receive side waits for the next frame. */
  predicate AtRest(s: RxState) {
    && s.fifo == [] && !s.rxnemp && !s.rxok && !s.masked && !s.sched
    && s.poll.Idle? && s.irq.Out?
  }

  /** Statements until rest, bounded from above, when no frame waits. */
  function RestDistance(s: RxState): nat {
    (if s.irq.Mask? then 22 else if s.irq.Schedule? then 21 else 0) +
    match s.poll
    case Idle => if s.sched then 6 else 0
    case ReadIsr(w, q) => if w < q then 5 else 9
    case Test(isr, w, q) => if w < q then 4 else 8
    case ClearRxok(_, _) => 0
    case Receive(_, _) => 0
    case ClearRxnemp(w, q) => if w < q then 6 else 10
    case Finish(w, q) => if w < q then 3 else 7
    case NapiComplete => 2
    case Unmask => if s.sched then 7 else 1
  }

  lemma MoveRests(s: RxState, quota: int)
    requires Inv(s) && s.fifo == [] && quota > 0 && !AtRest(s)
    ensures var s' := Apply(s, NextMove(s, quota));
      s'.fifo == [] && s'.delivered == s.delivered && RestDistance(s') < RestDistance(s)
  {
  }

  lemma {:induction false} RestsWithin(s: RxState, quota: int) returns (n: nat)
    requires Reachable(s) && s.fifo == [] && quota > 0
    ensures n <= RestDistance(s) && AtRest(Drive(s, quota, n))
    decreases RestDistance(s)
  {
    if AtRest(s) {
      n := 0;
    } else {
      ReachableInv(s);
      MoveRests(s, quota);
      StepReachable(s, NextMove(s, quota));
      n := RestsWithin(Apply(s, NextMove(s, quota)), quota);
      n := n + 1;
    }
  }

  /** When no frame waits, the driver left to itself comes to rest within 32 statements, with
      the receive interrupts on and NAPI given back: it does not poll for ever. */
  lemma ComesToRest(s: RxState, quota: int)
    requires Reachable(s) && s.fifo == [] && quota > 0
    ensures exists n: nat :: n <= 32 && AtRest(Drive(s, quota, n))
  {
    var n := RestsWithin(s, quota);
  }

  // ------------------------------------------- progress under interference

  /** What happens from s on, or None when some action is not enabled. */
  function Continue(s: RxState, acts: seq<Action>): Option<RxState>
    decreases |acts|
  {
    if acts == [] then Some(s)
    else if Enabled(s, acts[0]) then Continue(Apply(s, acts[0]), acts[1..])
    else None
  }

  predicate PollAction(a: Action) { a.Poll? || a.StartPoll? }

  function PollActions(acts: seq<Action>): nat {
    if acts == [] then 0 else Bit(PollAction(acts[0])) + PollActions(acts[1..])
  }

  /** Allocations succeed and quotas are positive. */
  predicate Kind(a: Action) {
    (a.Poll? ==> a.alloc) && (a.StartPoll? ==> a.quota > 0)
  }

  /** Actions of the poll until the oldest waiting frame is delivered, bounded from above;
      it does not depend on the handler or on what arrives. */
  function PollDistance(q: PollPc): (n: nat)
    ensures 1 <= n <= 9
  {
    match q
    case Idle => 5
    case ReadIsr(w, q) => if w < q then 4 else 8
    case Test(isr, w, q) => if w >= q then 7 else if isr then 3 else 9
    case ClearRxok(_, _) => 2
    case Receive(_, _) => 1
    case ClearRxnemp(w, q) => if w < q then 5 else 9
    case Finish(w, q) => if w < q then 8 else 6
    case NapiComplete => 7
    case Unmask => 6
  }

  /** The oldest frame of s is still the oldest in s', or was delivered first. */
  predicate StillOldest(s: RxState, s': RxState)
    requires s.fifo != []
  {
    s'.delivered == s.delivered && s'.fifo != [] && s'.fifo[0] == s.fifo[0]
  }

  lemma DrainNears(s: RxState)
    requires Inv(s) && s.fifo != []
    requires s.poll.ReadIsr? || s.poll.Test? || s.poll.ClearRxok? || s.poll.Receive? || s.poll.ClearRxnemp?
    ensures var s' := PollStep(s, true);
      || s'.delivered == s.delivered + [s.fifo[0]]
      || (StillOldest(s, s') && PollDistance(s'.poll) < PollDistance(s.poll))
  {
  }

  lemma EndNears(s: RxState)
    requires Inv(s) && s.fifo != []
    requires s.poll.Finish? || s.poll.NapiComplete? || s.poll.Unmask?
    ensures StillOldest(s, PollStep(s, true)) && PollDistance(PollStep(s, true).poll) < PollDistance(s.poll)
  {
  }

  /** Every action of the poll delivers the oldest frame or comes closer to it; nothing else
      takes the poll further away. */
  lemma ActionNears(s: RxState, a: Action)
    requires Inv(s) && s.fifo != [] && Enabled(s, a) && Kind(a)
    ensures var s' := Apply(s, a);
      || s'.delivered == s.delivered + [s.fifo[0]]
      || (StillOldest(s, s') && PollDistance(s'.poll) + Bit(PollAction(a)) <= PollDistance(s.poll))
  {
    if a.Poll? {
      if s.poll.Finish? || s.poll.NapiComplete? || s.poll.Unmask? { EndNears(s); } else { DrainNears(s); }
    }
  }

  lemma {:induction false} DeliveredGrows(s: RxState, acts: seq<Action>)
    requires Continue(s, acts).Some?
    ensures s.delivered <= Continue(s, acts).value.delivered
    decreases |acts|
  {
    if acts != [] {
      assert s.delivered <= Apply(s, acts[0]).delivered;
      DeliveredGrows(Apply(s, acts[0]), acts[1..]);
    }
  }

  lemma {:induction false} DeliveredAfter(s: RxState, acts: seq<Action>)
    requires Reachable(s) && s.fifo != [] && Continue(s, acts).Some?
    requires forall k :: 0 <= k < |acts| ==> Kind(acts[k])
    requires PollActions(acts) >= PollDistance(s.poll)
    ensures s.delivered + [s.fifo[0]] <= Continue(s, acts).value.delivered
    decreases |acts|
  {
    var a, s' := acts[0], Apply(s, acts[0]);
    ReachableInv(s);
    StepReachable(s, a);
    ActionNears(s, a);
    if s'.delivered == s.delivered + [s.fifo[0]] {
      DeliveredGrows(s', acts[1..]);
    } else {
      DeliveredAfter(s', acts[1..]);
    }
  }

  /** Under every interleaving: from every reachable state in which a frame waits, however the
      handler runs and whatever arrives, nine actions of the poll deliver it. */
  lemma DeliveredUnderInterference(s: RxState, acts: seq<Action>)
    requires Reachable(s) && s.fifo != [] && Continue(s, acts).Some?
    requires forall k :: 0 <= k < |acts| ==> Kind(acts[k])
    requires PollActions(acts) >= 9
    ensures s.delivered + [s.fifo[0]] <= Continue(s, acts).value.delivered
  {
    DeliveredAfter(s, acts);
  }
}
