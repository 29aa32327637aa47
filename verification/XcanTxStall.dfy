/** What the transmit protocol does not promise, that a stopped queue is woken again, and
    exactly which runs fail to wake it. */
module XcanTxStall {
  import opened Machine
  import opened XcanTxProtocol

  /** Nothing that can still happen changes anything. */
  ghost predicate Dead(p: Params, s: TxState)
    requires |s.ring| == p.txMax > 0
  {
    forall a :: Enabled(p, s, a) ==> Apply(p, s, a) == s
  }

  /** The queue is stopped, nothing is in progress, every frame is completed and every
      completion has been seen. */
  predicate Stalled(s: TxState) {
    s.xmit.Idle? && s.handler.Out? && !s.awake && !s.txok && s.completed == |s.pushed|
  }

  lemma DeadExactly(p: Params, s: TxState)
    requires ValidParams(p) && Reachable(p, s)
    ensures |s.ring| == p.txMax
    ensures Dead(p, s) <==> Stalled(s)
  {
    StepReachable(p, s, if s.handler.Out? then Irq else Handler);
    ReachableCounted(p, s);
    if !Stalled(s) {
      var a := if !s.handler.Out? then Handler
        else if !s.xmit.Idle? then Xmit(false)
        else if s.awake then Submit(EMPTY_FRAME)
        else if s.txok then Irq
        else Complete;
      assert Enabled(p, s, a) && Apply(p, s, a) != s;
    }
  }

  /** k frames sent, each completed at once, and no interrupt served yet. */
  lemma {:induction false} UnservedReachable(p: Params, k: nat) returns (s: TxState)
    requires ValidParams(p) && k < p.txMax
    ensures Reachable(p, s) && s.xmit.Idle? && s.handler.Out? && s.awake
    ensures s.headN == s.completed == |s.pushed| == k && s.tailN == 0
  {
    if k == 0 {
      InitReachable(p);
      s := Init(p);
    } else {
      s := UnservedReachable(p, k - 1);
      s := TransmitOnce(p, s, EMPTY_FRAME);
      s := CompleteOne(p, s);
    }
  }

  /** Between its decision to stop the queue, for a full ring or for TXFLL, and the stop, a
      handler run sees the last completion: from there on the stop is for good. */
  lemma HandledInWindow(p: Params, s: TxState) returns (s': TxState)
    requires ValidParams(p) && Reachable(p, s) && s.handler.Out? && s.txok
    requires s.xmit == StopQueue(true) || s.xmit.StopBusy?
    requires s.completed == |s.pushed|
    ensures Reachable(p, s') && Stalled(s') && s'.headN == s.headN
  {
    StepReachable(p, s, Irq);
    s' := s.(handler := Loop(true));
    s' := HandlerOnce(p, s');
    StepReachable(p, s', Xmit(false));
    s' := s'.(awake := false, xmit := Idle);
  }

  /** For every tx_max, even 1, the queue can stop for good: a transmit finds the ring full;
      before it stops the queue, its frame is completed and the handler runs, sees one TXOK
      and wakes the queue; then the transmit stops it. No interrupt will come to wake it
      again, though the hardware has sent every frame. */
  lemma QueueCanStall(p: Params) returns (s: TxState)
    requires ValidParams(p)
    ensures Reachable(p, s) && Stalled(s)
    ensures |s.ring| == p.txMax && Dead(p, s)
  {
    s := UnservedReachable(p, p.txMax - 1);
    s := TransmitToCheck(p, s, EMPTY_FRAME);
    s := TransmitCheck(p, s);
    s := CompleteOne(p, s);
    s := HandledInWindow(p, s);
    DeadExactly(p, s);
  }

  // ------------------------------------------------ the stop after a set TXFLL

  lemma {:induction false} AllCompleted(p: Params, s: TxState) returns (s': TxState)
    requires ValidParams(p) && Reachable(p, s) && s.completed < |s.pushed|
    ensures Reachable(p, s') && s' == s.(completed := |s.pushed|, txok := true)
    decreases |s.pushed| - s.completed
  {
    s' := CompleteOne(p, s);
    if s'.completed < |s.pushed| { s' := AllCompleted(p, s'); }
  }

  /** A transmit that reads TXFLL behind `depth` frames. */
  lemma BusyReachable(p: Params) returns (s: TxState)
    requires ValidParams(p) && p.depth < p.txMax
    ensures Reachable(p, s) && s.xmit.StopBusy? && s.handler.Out?
    ensures s.headN == |s.pushed| == p.depth && s.completed == s.tailN == 0 && !s.txok
  {
    s := BacklogReachable(p, p.depth);
    StepReachable(p, s, Submit(EMPTY_FRAME));
    s := s.(xmit := ReadSr(EMPTY_FRAME));
    StepReachable(p, s, Xmit(true));
    s := s.(xmit := StopBusy);
  }

  /** The same loss in the other window, with fewer frames than would fill the ring. Without
      any FIFO the first transmit stops the queue and nothing is ever sent. */
  lemma BusyCanStall(p: Params) returns (s: TxState)
    requires ValidParams(p) && p.depth < p.txMax
    ensures Reachable(p, s) && Stalled(s) && s.headN < p.txMax
  {
    s := BusyReachable(p);
    if p.depth == 0 {
      StepReachable(p, s, Xmit(false));
      s := s.(awake := false, xmit := Idle);
    } else {
      s := AllCompleted(p, s);
      s := HandledInWindow(p, s);
    }
  }

  /** With a FIFO at least tx_max deep, only a full ring stops the queue. */
  predicate StoppedByRing(p: Params, s: TxState) {
    !s.xmit.StopBusy? && (!s.awake || s.xmit == StopQueue(true) ==> s.headN >= p.txMax)
  }

  lemma XmitStoppedByRing(p: Params, s: TxState, full: bool)
    requires ValidParams(p) && p.depth >= p.txMax && |s.ring| == p.txMax && Counted(p, s)
    requires Enabled(p, s, Xmit(full)) && StoppedByRing(p, s)
    ensures StoppedByRing(p, XmitStep(p, s, full))
  {
    if s.xmit.CheckFull? { WrappedDifference(s.headN, s.tailN); }
  }

  lemma {:induction false} AlwaysStoppedByRing(p: Params, acts: seq<Action>)
    requires ValidParams(p) && p.depth >= p.txMax && Exec(p, acts).Some?
    ensures StoppedByRing(p, Exec(p, acts).value)
  {
    if acts != [] {
      var before, a := acts[..|acts| - 1], acts[|acts| - 1];
      AlwaysStoppedByRing(p, before);
      AlwaysCounted(p, before);
      if a.Xmit? { XmitStoppedByRing(p, Exec(p, before).value, a.full); }
    }
  }

  /** The queue can stop for good before the ring was ever full exactly when the hardware
      FIFO is shorter than tx_max. */
  lemma StallBeforeFullExactly(p: Params)
    requires ValidParams(p)
    ensures (exists s :: Reachable(p, s) && Stalled(s) && s.headN < p.txMax) <==> p.depth < p.txMax
  {
    if p.depth < p.txMax {
      var s := BusyCanStall(p);
    } else {
      forall s | Reachable(p, s) && Stalled(s)
        ensures s.headN >= p.txMax
      {
        var acts :| Exec(p, acts) == Some(s);
        AlwaysStoppedByRing(p, acts);
      }
    }
  }

  // -------------------------------------------------------- no other way to stall

  /** The handler starts, with a completion to see, between the decision to stop the queue
      and the stop. */
  predicate InWindow(s: TxState, a: Action) {
    a.Irq? && s.txok && (s.xmit == StopQueue(true) || s.xmit.StopBusy?)
  }

  predicate NoneInWindow(p: Params, acts: seq<Action>)
    requires ValidParams(p)
  {
    acts != [] ==>
      var before := acts[..|acts| - 1];
      NoneInWindow(p, before) && (Exec(p, before).Some? ==> !InWindow(Exec(p, before).value, acts[|acts| - 1]))
  }

  /** An interrupt is pending, or a completion that will raise one is to come. */
  predicate Coming(s: TxState) {
    s.txok || s.completed < |s.pushed|
  }

  /** A stop finds the queue to be woken later, or has not been decided yet. */
  predicate Wakes(p: Params, s: TxState) {
    && (!s.awake ==> s.xmit.Idle?)
    && (s.handler.Out? && s.xmit.Idle? && !s.awake ==> Coming(s))
    && (s.xmit == StopQueue(true) || s.xmit.StopBusy? ==> s.handler.Out? && Coming(s))
    && (s.handler.Out? && s.xmit.CheckFull? ==> Coming(s) || s.headN < s.tailN + p.txMax)
  }

  lemma XmitWakes(p: Params, s: TxState, full: bool)
    requires ValidParams(p) && p.depth >= 1 && |s.ring| == p.txMax && Counted(p, s) && Wakes(p, s)
    requires Enabled(p, s, Xmit(full))
    ensures Wakes(p, XmitStep(p, s, full))
  {
    if s.xmit.CheckFull? { WrappedDifference(s.headN, s.tailN); }
  }

  lemma HandlerWakes(p: Params, s: TxState)
    requires ValidParams(p) && |s.ring| == p.txMax && Counted(p, s) && Wakes(p, s) && !s.handler.Out?
    ensures Wakes(p, HandlerStep(p, s))
  {
  }

  lemma StepWakes(p: Params, s: TxState, a: Action)
    requires ValidParams(p) && p.depth >= 1 && |s.ring| == p.txMax && Counted(p, s) && Wakes(p, s)
    requires Enabled(p, s, a) && !InWindow(s, a)
    ensures Wakes(p, Apply(p, s, a))
  {
    match a {
      case Xmit(full) => XmitWakes(p, s, full);
      case Handler => HandlerWakes(p, s);
      case _ =>
    }
  }

  lemma {:induction false} AlwaysWakes(p: Params, acts: seq<Action>)
    requires ValidParams(p) && p.depth >= 1 && Exec(p, acts).Some? && NoneInWindow(p, acts)
    ensures Wakes(p, Exec(p, acts).value)
  {
    if acts != [] {
      var before := acts[..|acts| - 1];
      AlwaysCounted(p, before);
      AlwaysWakes(p, before);
      StepWakes(p, Exec(p, before).value, acts[|acts| - 1]);
    }
  }

  /** A run whose handler never starts in a window stalls the queue. */
  predicate StallsOutside(p: Params, acts: seq<Action>)
    requires ValidParams(p)
  {
    NoneInWindow(p, acts) && Exec(p, acts).Some? && Stalled(Exec(p, acts).value)
  }

  lemma OneMoreOutside(p: Params, acts: seq<Action>, a: Action, s: TxState, s': TxState)
    requires ValidParams(p) && Exec(p, acts) == Some(s) && NoneInWindow(p, acts)
    requires |s.ring| == p.txMax && Enabled(p, s, a) && !InWindow(s, a) && s' == Apply(p, s, a)
    ensures Exec(p, acts + [a]) == Some(s') && NoneInWindow(p, acts + [a])
  {
    var more := acts + [a];
    assert more[..|more| - 1] == acts;
  }

  /** Without a FIFO the first transmit reads TXFLL and stops a queue that has nothing to
      wake it. */
  lemma StallsWithoutFifo(p: Params)
    requires ValidParams(p) && p.depth == 0
    ensures StallsOutside(p, [Submit(EMPTY_FRAME), Xmit(true), Xmit(false)])
  {
    var s0, s1 := Init(p), Init(p).(xmit := ReadSr(EMPTY_FRAME));
    var s2, s3 := s0.(xmit := StopBusy), s0.(awake := false, xmit := Idle);
    assert Exec(p, []) == Some(s0) && NoneInWindow(p, []);
    assert [] + [Submit(EMPTY_FRAME)] == [Submit(EMPTY_FRAME)];
    assert [Submit(EMPTY_FRAME)] + [Xmit(true)] == [Submit(EMPTY_FRAME), Xmit(true)];
    OneMoreOutside(p, [], Submit(EMPTY_FRAME), s0, s1);
    OneMoreOutside(p, [Submit(EMPTY_FRAME)], Xmit(true), s1, s2);
    OneMoreOutside(p, [Submit(EMPTY_FRAME), Xmit(true)], Xmit(false), s2, s3);
    assert [Submit(EMPTY_FRAME), Xmit(true)] + [Xmit(false)] == [Submit(EMPTY_FRAME), Xmit(true), Xmit(false)];
  }

  /** Which runs stall the queue: as soon as the device has any FIFO, only those in which
      the handler starts in one of the two windows. Completions that share one TXOK never
      stall it by themselves. */
  lemma StallOutsideExactly(p: Params)
    requires ValidParams(p)
    ensures (exists acts :: StallsOutside(p, acts)) <==> p.depth == 0
  {
    if p.depth == 0 {
      StallsWithoutFifo(p);
    } else {
      forall acts | NoneInWindow(p, acts) && Exec(p, acts).Some?
        ensures !Stalled(Exec(p, acts).value)
      {
        AlwaysWakes(p, acts);
      }
    }
  }

  /** And what a stop does, wherever the handler ran before it: it is for good exactly when
      no interrupt is pending and no frame is out. */
  lemma StopStallsExactly(p: Params, s: TxState)
    requires ValidParams(p) && Reachable(p, s) && s.handler.Out?
    requires s.xmit == StopQueue(true) || s.xmit.StopBusy?
    ensures |s.ring| == p.txMax
    ensures Stalled(XmitStep(p, s, false)) <==> !Coming(s)
  {
    StepReachable(p, s, Xmit(false));
    ReachableCounted(p, s);
  }
}
