/** The echo ring of the transmit protocol refines an unbounded FIFO queue, and exactly
    when it does across the wrap-around of the 32-bit counters that index it. */
module XcanEchoRing {
  import opened Machine
  import opened XcanFrame
  import opened XcanTxProtocol

  /** The slot the driver uses for the k-th frame: the counter has wrapped to 32 bits
      before the remainder by tx_max is taken. */
  function Slot(txMax: nat, k: nat): (j: nat)
    requires txMax > 0
    ensures j < txMax
  {
    U32(k) % txMax
  }

  /** Any two frames that can be in flight together, among the first n, have different
      slots. */
  ghost predicate SlotsDistinct(txMax: nat, n: nat)
    requires txMax > 0
  {
    forall i: nat, j: nat {:trigger Slot(txMax, i), Slot(txMax, j)} ::
      i < j < n && j - i < txMax ==> Slot(txMax, i) != Slot(txMax, j)
  }

  lemma DistinctWithoutWrap(txMax: nat, i: nat, j: nat)
    requires 0 < txMax && i < j < TWO32 && j - i < txMax
    ensures Slot(txMax, i) != Slot(txMax, j)
  {
    if Slot(txMax, i) == Slot(txMax, j) {
      CloseAndCongruent(i, j, txMax);
    }
  }

  lemma DistinctAcrossWrap(txMax: nat, i: nat, j: nat)
    requires 0 < txMax && TWO32 % txMax == 0 && i < j && j - i < txMax
    ensures Slot(txMax, i) != Slot(txMax, j)
  {
    RemainderOfRemainder(i, TWO32, txMax);
    RemainderOfRemainder(j, TWO32, txMax);
    if Slot(txMax, i) == Slot(txMax, j) {
      CloseAndCongruent(i, j, txMax);
    }
  }

  /** The frame r places before the wrap-around shares slot 0 with the first one after. */
  lemma WrapCollides(txMax: nat)
    requires 0 < txMax < TWO32 && TWO32 % txMax != 0
    ensures Slot(txMax, TWO32 - TWO32 % txMax) == 0 == Slot(txMax, TWO32)
  {
    var q, r := TWO32 / txMax, TWO32 % txMax;
    assert TWO32 - r == q * txMax + 0;
    RemainderUnique(TWO32 - r, txMax, q, 0);
  }

  /** The slots keep frames apart for ever exactly when tx_max divides 2^32; for any
      other tx_max, exactly as long as no more than 2^32 frames are sent. */
  lemma SlotsDistinctExactly(txMax: nat, n: nat)
    requires 0 < txMax < TWO32
    ensures SlotsDistinct(txMax, n) <==> TWO32 % txMax == 0 || n <= TWO32
  {
    if TWO32 % txMax == 0 || n <= TWO32 {
      forall i: nat, j: nat | i < j < n && j - i < txMax
        ensures Slot(txMax, i) != Slot(txMax, j)
      {
        if TWO32 % txMax == 0 {
          DistinctAcrossWrap(txMax, i, j);
        } else {
          DistinctWithoutWrap(txMax, i, j);
        }
      }
    } else {
      WrapCollides(txMax);
      var i: nat := TWO32 - TWO32 % txMax;
      assert i < TWO32 < n && TWO32 - i < txMax;
    }
  }

  // ------------------------------------------------------------- refinement

  /** What came back is a prefix of what was accepted. */
  predicate Returns(s: TxState) {
    |s.returned| == s.tailN + Bit(s.handler.IncTail?) && s.returned <= s.accepted
  }

  /** The k-th accepted frame is in flight and slot j holds it. */
  ghost predicate Holds(p: Params, s: TxState, j: nat, k: nat)
    requires p.txMax > 0
  {
    |s.returned| <= k < |s.accepted| && Slot(p.txMax, k) == j
  }

  /** Every frame in flight sits in its own slot, and every other slot is empty. */
  ghost predicate RingIsQueue(p: Params, s: TxState)
    requires |s.ring| == p.txMax > 0
  {
    && (forall k: nat :: |s.returned| <= k < |s.accepted| ==> s.ring[Slot(p.txMax, k)] == Some(s.accepted[k]))
    && (forall j: nat :: j < p.txMax && s.ring[j].Some? ==> exists k: nat :: Holds(p, s, j, k))
  }

  ghost predicate Refines(p: Params, s: TxState) {
    && |s.ring| == p.txMax > 0
    && Sends(s) && Returns(s)
    && RingIsQueue(p, s)
  }

  /** A slot about to be filled is empty. */
  lemma PutFindsSlotEmpty(p: Params, s: TxState)
    requires ValidParams(p) && Counted(p, s) && Refines(p, s) && s.xmit.PutEcho?
    requires SlotsDistinct(p.txMax, |s.accepted| + 1)
    ensures Slot(p.txMax, |s.accepted|) == s.head % p.txMax
    ensures s.ring[s.head % p.txMax].None?
  {
    var n, j := |s.accepted|, s.head % p.txMax;
    assert Slot(p.txMax, n) == j;
    assert forall k: nat :: |s.returned| <= k < n ==> Slot(p.txMax, k) != j;
  }

  lemma PutRefines(p: Params, s: TxState)
    requires ValidParams(p) && Counted(p, s) && Refines(p, s) && s.xmit.PutEcho? && s.handler.Out?
    requires SlotsDistinct(p.txMax, |s.accepted| + 1)
    ensures Refines(p, XmitStep(p, s, false))
  {
    var s', n := XmitStep(p, s, false), |s.accepted|;
    PutFindsSlotEmpty(p, s);
    PutEchoSends(p, s);
    forall k: nat | |s'.returned| <= k < |s'.accepted|
      ensures s'.ring[Slot(p.txMax, k)] == Some(s'.accepted[k])
    {
      if k < n {
        assert Slot(p.txMax, k) != Slot(p.txMax, n);
      }
    }
    forall j: nat | j < p.txMax && s'.ring[j].Some?
      ensures exists k: nat :: Holds(p, s', j, k)
    {
      if j == Slot(p.txMax, n) {
        assert Holds(p, s', j, n);
      } else {
        var k: nat :| Holds(p, s, j, k);
        assert Holds(p, s', j, k);
      }
    }
  }

  /** The slot the handler empties holds the oldest frame in flight. */
  lemma GetTakesOldest(p: Params, s: TxState)
    requires ValidParams(p) && Counted(p, s) && Refines(p, s) && s.handler.GetEcho?
    ensures |s.returned| < |s.accepted|
    ensures s.ring[s.tail % p.txMax] == Some(s.accepted[|s.returned|])
  {
    assert Slot(p.txMax, |s.returned|) == s.tail % p.txMax;
  }

  lemma GetKeepsTheRest(p: Params, s: TxState, k: nat)
    requires ValidParams(p) && Counted(p, s) && Refines(p, s) && s.handler.GetEcho?
    requires SlotsDistinct(p.txMax, |s.accepted|) && |s.accepted| <= |s.returned| + p.txMax
    requires |s.returned| < k < |s.accepted|
    ensures HandlerStep(p, s).ring[Slot(p.txMax, k)] == Some(s.accepted[k])
  {
    assert Slot(p.txMax, |s.returned|) == s.tail % p.txMax;
    assert Slot(p.txMax, |s.returned|) != Slot(p.txMax, k);
  }

  lemma GetReturns(p: Params, s: TxState)
    requires ValidParams(p) && Counted(p, s) && Refines(p, s) && s.handler.GetEcho?
    ensures Returns(HandlerStep(p, s)) && HandlerStep(p, s).accepted == s.accepted
    ensures |HandlerStep(p, s).returned| == |s.returned| + 1
  {
    GetTakesOldest(p, s);
  }

  lemma GetEmptiesOne(p: Params, s: TxState, j: nat)
    requires ValidParams(p) && Counted(p, s) && Refines(p, s) && s.handler.GetEcho?
    requires j < p.txMax && HandlerStep(p, s).ring[j].Some?
    ensures exists k: nat :: Holds(p, HandlerStep(p, s), j, k)
  {
    GetTakesOldest(p, s);
    var t := s.tail % p.txMax;
    assert Slot(p.txMax, |s.returned|) == t;
    GetReturns(p, s);
    assert HandlerStep(p, s).ring == s.ring[t := None];
    assert j != t && s.ring[j].Some?;
    var k: nat :| Holds(p, s, j, k);
    assert k != |s.returned|;
    assert Holds(p, HandlerStep(p, s), j, k);
  }

  lemma GetRefines(p: Params, s: TxState)
    requires ValidParams(p) && Counted(p, s) && Refines(p, s) && s.handler.GetEcho?
    requires SlotsDistinct(p.txMax, |s.accepted|) && |s.accepted| <= |s.returned| + p.txMax
    ensures Refines(p, HandlerStep(p, s))
  {
    var s' := HandlerStep(p, s);
    GetReturns(p, s);
    HandlerSends(p, s);
    forall k: nat | |s'.returned| <= k < |s'.accepted|
      ensures s'.ring[Slot(p.txMax, k)] == Some(s'.accepted[k])
    {
      GetKeepsTheRest(p, s, k);
    }
    forall j: nat | j < p.txMax && s'.ring[j].Some?
      ensures exists k: nat :: Holds(p, s', j, k)
    {
      GetEmptiesOne(p, s, j);
    }
  }

  /** The ring's contents and histories are not this step's business. */
  predicate SameRing(s: TxState, s': TxState) {
    s'.ring == s.ring && s'.accepted == s.accepted && s'.returned == s.returned
  }

  /** A step that leaves the ring and both of its histories alone. */
  lemma OtherRefines(p: Params, s: TxState, s': TxState)
    requires Refines(p, s) && Sends(s') && Returns(s')
    requires SameRing(s, s')
    ensures Refines(p, s')
  {
    forall j: nat | j < p.txMax && s'.ring[j].Some?
      ensures exists k: nat :: Holds(p, s', j, k)
    {
      var k: nat :| Holds(p, s, j, k);
      assert Holds(p, s', j, k);
    }
  }

  lemma XmitReturns(p: Params, s: TxState, full: bool)
    requires ValidParams(p) && |s.ring| == p.txMax && Returns(s) && !s.xmit.PutEcho?
    ensures Returns(XmitStep(p, s, full)) && SameRing(s, XmitStep(p, s, full))
  {
    var s' := XmitStep(p, s, full);
    assert s'.tailN == s.tailN && s'.handler == s.handler;
  }

  lemma HandlerReturns(p: Params, s: TxState)
    requires ValidParams(p) && |s.ring| == p.txMax && Returns(s) && !s.handler.GetEcho?
    ensures Returns(HandlerStep(p, s)) && SameRing(s, HandlerStep(p, s))
  {
    var s' := HandlerStep(p, s);
    if s.handler.IncTail? {
      assert s'.tailN == s.tailN + 1 && s'.handler.Reread?;
    } else {
      assert s'.tailN == s.tailN && !s'.handler.IncTail?;
    }
  }

  lemma OtherReturns(p: Params, s: TxState, a: Action)
    requires ValidParams(p) && |s.ring| == p.txMax && Returns(s) && Enabled(p, s, a)
    requires !(a.Xmit? && s.xmit.PutEcho?) && !(a.Handler? && s.handler.GetEcho?)
    ensures Returns(Apply(p, s, a)) && SameRing(s, Apply(p, s, a))
  {
    match a {
      case Xmit(full) => XmitReturns(p, s, full);
      case Handler => HandlerReturns(p, s);
      case _ =>
    }
  }

  lemma StepRefines(p: Params, s: TxState, a: Action)
    requires ValidParams(p) && Counted(p, s) && Refines(p, s) && Enabled(p, s, a)
    requires SlotsDistinct(p.txMax, |Apply(p, s, a).accepted|)
    ensures Refines(p, Apply(p, s, a))
  {
    if a.Xmit? && s.xmit.PutEcho? {
      PutRefines(p, s);
    } else if a.Handler? && s.handler.GetEcho? {
      GetRefines(p, s);
    } else {
      StepSends(p, s, a);
      OtherReturns(p, s, a);
      OtherRefines(p, s, Apply(p, s, a));
    }
  }

  lemma {:induction false} AlwaysRefines(p: Params, acts: seq<Action>)
    requires ValidParams(p) && Exec(p, acts).Some?
    requires SlotsDistinct(p.txMax, |Exec(p, acts).value.accepted|)
    ensures Refines(p, Exec(p, acts).value)
  {
    if acts != [] {
      var before := acts[..|acts| - 1];
      AlwaysCounted(p, before);
      AlwaysRefines(p, before);
      StepRefines(p, Exec(p, before).value, acts[|acts| - 1]);
    }
  }

  /** The k-th echo returned is the k-th frame accepted and was completed by the
      hardware before; every frame still in flight is in the ring, unharmed; the handler
      takes the oldest of them. */
  lemma EchoRingIsQueue(p: Params, s: TxState)
    requires ValidParams(p) && Reachable(p, s)
    requires TWO32 % p.txMax == 0 || |s.accepted| <= TWO32
    ensures |s.ring| == p.txMax
    ensures s.returned <= s.accepted && |s.returned| <= s.completed
    ensures |s.returned| == s.tailN + Bit(s.handler.IncTail?)
    ensures s.pushed <= s.accepted
    ensures forall k: nat :: |s.returned| <= k < |s.accepted| ==> s.ring[Slot(p.txMax, k)] == Some(s.accepted[k])
    ensures s.handler.GetEcho? ==>
      |s.returned| < |s.accepted| && s.ring[s.tail % p.txMax] == Some(s.accepted[|s.returned|])
  {
    var acts :| Exec(p, acts) == Some(s);
    SlotsDistinctExactly(p.txMax, |s.accepted|);
    AlwaysCounted(p, acts);
    AlwaysRefines(p, acts);
    if s.handler.GetEcho? { GetTakesOldest(p, s); }
  }

  /** Whatever tx_max is: an occupied slot keeps its frame until the handler takes it. A
      transmit that finds its slot occupied loses the new frame's echo, not the old one's. */
  lemma OccupiedSlotSurvives(p: Params, s: TxState, a: Action, j: nat)
    requires ValidParams(p) && |s.ring| == p.txMax && Enabled(p, s, a)
    requires j < p.txMax && s.ring[j].Some?
    ensures Apply(p, s, a).ring[j] == s.ring[j]
      || (a.Handler? && s.handler.GetEcho? && j == s.tail % p.txMax
          && Apply(p, s, a).returned == s.returned + [s.ring[j].value])
  {
  }

  /** A transmit that is about to park its frame finds the slot empty. */
  lemma NoEchoOverwritten(p: Params, s: TxState)
    requires ValidParams(p) && Reachable(p, s) && s.xmit.PutEcho?
    requires TWO32 % p.txMax == 0 || |s.accepted| < TWO32
    ensures |s.ring| == p.txMax && s.ring[s.head % p.txMax].None?
  {
    var acts :| Exec(p, acts) == Some(s);
    SlotsDistinctExactly(p.txMax, |s.accepted|);
    SlotsDistinctExactly(p.txMax, |s.accepted| + 1);
    AlwaysCounted(p, acts);
    AlwaysRefines(p, acts);
    PutFindsSlotEmpty(p, s);
  }

  // ---------------------------------------------------- the converse: a lost echo

  /** Some run parks a frame in a slot that is still occupied. */
  ghost predicate EchoLossPossible(p: Params)
    requires ValidParams(p)
  {
    exists s :: Reachable(p, s) && |s.ring| == p.txMax && s.xmit.PutEcho? && s.ring[s.head % p.txMax].Some?
  }

  /** n frames sent, all of them completed and taken back. */
  predicate Settled(p: Params, s: TxState, n: nat) {
    && s.xmit.Idle? && s.handler.Out? && s.awake && !s.txok
    && s.headN == s.tailN == s.completed == |s.pushed| == n
    && s.ring == seq(p.txMax, i => None)
  }

  /** One frame sent, completed and taken back. */
  lemma FullCycle(p: Params, s: TxState, n: nat) returns (s': TxState)
    requires ValidParams(p) && p.txMax > 1 && Reachable(p, s) && Settled(p, s, n)
    ensures Reachable(p, s') && Settled(p, s', n + 1)
  {
    s' := TransmitOnce(p, s, EMPTY_FRAME);
    Accounting(p, s);
    Accounting(p, s');
    s' := CompleteOne(p, s');
    StepReachable(p, s', Irq);
    s' := Apply(p, s', Irq);
    s' := HandlerOnce(p, s');
    assert s'.ring == seq(p.txMax, i => None);
  }

  lemma {:induction false} SettledReachable(p: Params, n: nat) returns (s: TxState)
    requires ValidParams(p) && p.txMax > 1
    ensures Reachable(p, s) && Settled(p, s, n)
  {
    if n == 0 {
      InitReachable(p);
      s := Init(p);
    } else {
      s := SettledReachable(p, n - 1);
      s := FullCycle(p, s, n - 1);
    }
  }

  /** k frames behind n0 settled ones, completed but not taken back; the oldest is in its
      slot. */
  predicate Burst(p: Params, s: TxState, n0: nat, k: nat)
    requires p.txMax > 0
  {
    && |s.ring| == p.txMax
    && s.xmit.Idle? && s.handler.Out? && s.awake
    && s.headN == n0 + k && s.tailN == n0
    && (k > 0 ==> s.ring[Slot(p.txMax, n0)].Some?)
  }

  lemma PutFillsSlot(ring: seq<Option<CanFrame>>, j: nat, f: CanFrame, i: nat)
    requires j < |ring| && i < |ring| && (i == j || ring[i].Some?)
    ensures PutEchoSkb(ring, j, f)[i].Some?
  {
  }

  lemma BurstSent(p: Params, s0: TxState, n0: nat, k: nat) returns (s: TxState)
    requires ValidParams(p) && k + 1 < p.txMax && Reachable(p, s0) && Burst(p, s0, n0, k)
    ensures Reachable(p, s) && Burst(p, s, n0, k + 1) && s.completed < |s.pushed|
  {
    Accounting(p, s0);
    s := TransmitOnce(p, s0, EMPTY_FRAME);
    PutFillsSlot(s0.ring, s0.head % p.txMax, EMPTY_FRAME, Slot(p.txMax, n0));
  }

  lemma BurstOneMore(p: Params, s0: TxState, n0: nat, k: nat) returns (s: TxState)
    requires ValidParams(p) && k + 1 < p.txMax && Reachable(p, s0) && Burst(p, s0, n0, k)
    ensures Reachable(p, s) && Burst(p, s, n0, k + 1)
  {
    s := BurstSent(p, s0, n0, k);
    s := CompleteOne(p, s);
  }

  lemma {:induction false} BurstReachable(p: Params, n0: nat, k: nat) returns (s: TxState)
    requires ValidParams(p) && p.txMax > 1 && k < p.txMax
    ensures Reachable(p, s) && Burst(p, s, n0, k)
  {
    if k == 0 {
      s := SettledReachable(p, n0);
    } else {
      s := BurstReachable(p, n0, k - 1);
      s := BurstOneMore(p, s, n0, k - 1);
    }
  }

  /** With r the remainder of 2^32 by tx_max, the transmit after 2^32 frames of which
      the last r are not taken back finds slot 0 occupied. */
  lemma EchoLossReachable(p: Params)
    requires ValidParams(p) && TWO32 % p.txMax != 0
    ensures EchoLossPossible(p)
  {
    var n0: nat := TWO32 - TWO32 % p.txMax;
    var s := BurstReachable(p, n0, TWO32 % p.txMax);
    WrapCollides(p.txMax);
    assert s.head == 0 by { Accounting(p, s); }
    StepReachable(p, s, Submit(EMPTY_FRAME));
    var s1 := s.(xmit := ReadSr(EMPTY_FRAME));
    StepReachable(p, s1, Xmit(false));
    var s2 := s1.(xmit := PutEcho(EMPTY_FRAME));
    assert s2.ring[0].Some?;
  }

  /** An echo can be lost exactly when tx_max does not divide 2^32. */
  lemma EchoLossExactly(p: Params)
    requires ValidParams(p)
    ensures EchoLossPossible(p) <==> TWO32 % p.txMax != 0
  {
    if TWO32 % p.txMax != 0 {
      EchoLossReachable(p);
    } else {
      forall s | Reachable(p, s) && s.xmit.PutEcho?
        ensures |s.ring| == p.txMax && s.ring[s.head % p.txMax].None?
      {
        NoEchoOverwritten(p, s);
      }
    }
  }
}
