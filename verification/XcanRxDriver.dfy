/** The C functions xcan_rx_poll, xcan_rx and the receive part of xcan_interrupt, with
    arrivals and complete runs of the handler between every two statements of the poll.
    The ghost field `st` says where the run stands in XcanRxProtocol. */
module XcanRxDriver {
  import opened Machine
  import opened XcanFrame
  import opened XcanRxProtocol

  class RxDriver {
    var fifo: seq<Message>
    var rxnemp: bool
    var rxok: bool
    var masked: bool
    var sched: bool
    var stack: seq<CanFrame>    // the frames handed to netif_receive_skb, in order
    ghost var st: RxState

    ghost predicate Valid()
      reads this
    {
      && Reachable(st)
      && st.fifo == fifo && st.rxnemp == rxnemp && st.rxok == rxok
      && st.masked == masked && st.sched == sched
      && stack == DecodeAll(st.delivered)
    }

    constructor ()
      ensures Valid() && st == INIT
    {
      fifo, rxnemp, rxok, masked, sched, stack := [], false, false, false, false, [];
      st := INIT;
      new;
      InitReachable();
    }

    ghost method Take(a: Action)
      requires Reachable(st) && Enabled(st, a)
      modifies this`st
      ensures st == Apply(old(st), a) && Reachable(st)
    {
      StepReachable(st, a);
      st := Apply(st, a);
    }

    /** The receive part of xcan_interrupt: it masks and schedules if a receive bit is set,
        and does nothing else. */
    method Interrupt()
      requires Valid() && st.irq.Out?
      modifies this
      ensures Valid()
      ensures st == old(st).(masked := old(masked || rxnemp || rxok), sched := old(sched || rxnemp || rxok))
    {
      var isr := rxnemp || rxok;
      Take(Irq);
      if isr {
        masked := true;
        Take(IrqStep);
        sched := true;
        Take(IrqStep);
      }
    }

    /** Between two statements of the poll: frames arrive, the handler runs. */
    method Interference()
      requires Valid() && st.irq.Out?
      modifies this
      ensures Valid() && st.irq.Out? && st.poll == old(st.poll) && st.delivered == old(st.delivered)
      ensures old(st.arrived) <= st.arrived && (old(masked) ==> masked)
    {
      var n: nat := *;
      while n > 0
        invariant Valid() && st.irq.Out? && st.poll == old(st.poll) && st.delivered == old(st.delivered)
        invariant old(st.arrived) <= st.arrived && (old(masked) ==> masked)
      {
        if * {
          Interrupt();
        } else {
          var m: Message := *;
          fifo, rxnemp, rxok := fifo + [m], true, true;
          Take(Arrive(m));
        }
        n := n - 1;
      }
    }

    /** What waited in the FIFO has been delivered, or waits there still, before anything
        that arrived later. */
    lemma OldestFirst(delivered: seq<Message>, waiting: seq<Message>, frames: seq<Message>)
      requires Reachable(st) && st.delivered == delivered + frames && delivered + waiting <= st.arrived
      ensures waiting <= frames + st.fifo
    {
      NothingLostOrReordered(st);
      AppendAssociates(delivered, frames, st.fifo);
      PrefixWithout(delivered, waiting, frames + st.fifo);
    }

    method ReadIsrStatement() returns (isr: bool)
      requires Valid() && st.irq.Out? && st.poll.ReadIsr?
      modifies this
      ensures Valid() && st.irq.Out? && st.delivered == old(st.delivered)
      ensures old(st.arrived) <= st.arrived && (old(masked) ==> masked)
      ensures st.poll == Test(isr, old(st.poll.work), old(st.poll.quota))
      ensures isr <==> fifo != []
    {
      Interference();
      ReachableInv(st);
      isr := rxnemp;
      Take(Poll(true));
    }

    method ClearRxokStatement()
      requires Valid() && st.irq.Out? && st.poll.ClearRxok?
      modifies this
      ensures Valid() && st.irq.Out? && st.delivered == old(st.delivered)
      ensures old(st.arrived) <= st.arrived && (old(masked) ==> masked)
      ensures st.poll == Receive(old(st.poll.work), old(st.poll.quota))
    {
      Interference();
      rxok := false;
      Take(Poll(true));
    }

    /** The reads of the FIFO's registers, the last of which removes the entry. */
    method ReadFrame() returns (frames: seq<Message>)
      requires Valid() && st.irq.Out? && st.poll.Receive?
      modifies this
      ensures Valid() && st.irq.Out? && |frames| == 1 && st.delivered == old(st.delivered) + frames
      ensures old(st.arrived) <= st.arrived && (old(masked) ==> masked)
      ensures st.poll == ClearRxnemp(old(st.poll.work) + 1, old(st.poll.quota))
      ensures |stack| == |old(stack)| + 1 && stack[..|old(stack)|] == old(stack)
      ensures FrameImage(frames[0], stack[|old(stack)|])
    {
      EmptyFifoNeverRead(st);
      DecodedImage(fifo[0]);
      frames := [fifo[0]];
      DecodeAllAppend(st.delivered, fifo[0]);
      stack := stack + [Decode(fifo[0])];
      fifo := fifo[1..];
      Take(Poll(true));
    }

    /** xcan_rx: the result is the number of frames handed to the stack; `frames` are
        their FIFO entries. The stack gets the oldest entry, in the numbers of the register
        image. */
    method Rx(alloc: bool) returns (got: int, frames: seq<Message>)
      requires Valid() && st.irq.Out? && st.poll.Receive?
      modifies this
      ensures Valid() && st.irq.Out? && st.delivered == old(st.delivered) + frames
      ensures old(st.arrived) <= st.arrived && (old(masked) ==> masked)
      ensures got == |frames| == if alloc then 1 else 0
      ensures old(fifo) <= frames + fifo
      ensures old(fifo) != [] && (alloc ==> frames == [old(fifo[0])])
      ensures |stack| == |old(stack)| + got && stack[..|old(stack)|] == old(stack)
      ensures alloc ==> FrameImage(old(fifo[0]), stack[|old(stack)|])
      ensures st.poll == ClearRxnemp(old(st.poll.work) + got, old(st.poll.quota))
    {
      NothingLostOrReordered(st);
      EmptyFifoNeverRead(st);
      ghost var delivered, waiting := st.delivered, fifo;
      Interference();
      got, frames := 0, [];
      if alloc {
        frames := ReadFrame();
        got := 1;
      } else {
        Take(Poll(false));
      }
      OldestFirst(delivered, waiting, frames);
      assert alloc ==> waiting[0] == (frames + fifo)[0];
    }

    method ClearRxnempStatement()
      requires Valid() && st.irq.Out? && st.poll.ClearRxnemp?
      modifies this
      ensures Valid() && st.irq.Out? && st.delivered == old(st.delivered)
      ensures old(st.arrived) <= st.arrived && (old(masked) ==> masked)
      ensures st.poll == ReadIsr(old(st.poll.work), old(st.poll.quota))
    {
      Interference();
      rxnemp := fifo != [];
      Take(Poll(true));
    }

    method NapiCompleteStatement()
      requires Valid() && st.irq.Out? && st.poll.NapiComplete?
      modifies this
      ensures Valid() && st.irq.Out? && st.poll.Unmask? && st.delivered == old(st.delivered) && !sched
      ensures old(st.arrived) <= st.arrived && (old(masked) ==> masked)
    {
      Interference();
      sched := false;
      Take(Poll(true));
    }

    method UnmaskStatement()
      requires Valid() && st.irq.Out? && st.poll.Unmask?
      modifies this
      ensures Valid() && st.irq.Out? && st.poll.Idle? && st.delivered == old(st.delivered)
      ensures old(st.arrived) <= st.arrived
      ensures !masked
    {
      Interference();
      masked := false;
      Take(Poll(true));
    }

    /** Give NAPI back, then unmask. */
    method CompleteAndUnmask()
      requires Valid() && st.irq.Out? && st.poll.NapiComplete?
      modifies this
      ensures Valid() && st.irq.Out? && st.poll.Idle? && st.delivered == old(st.delivered)
      ensures old(st.arrived) <= st.arrived
      ensures !masked
    {
      NapiCompleteStatement();
      UnmaskStatement();
    }

    /** The body of the poll's loop, from its condition to the next read of ISR. */
    method Round(alloc: bool) returns (isr: bool, got: int, frames: seq<Message>)
      requires Valid() && st.irq.Out? && st.poll.Test? && st.poll.isr && st.poll.work < st.poll.quota
      modifies this
      ensures Valid() && st.irq.Out? && st.delivered == old(st.delivered) + frames
      ensures old(st.arrived) <= st.arrived && (old(masked) ==> masked)
      ensures got == |frames| == if alloc then 1 else 0
      ensures st.poll == Test(isr, old(st.poll.work) + got, old(st.poll.quota))
      ensures isr <==> fifo != []
    {
      Take(Poll(true));
      ClearRxokStatement();
      got, frames := Rx(alloc);
      ClearRxnempStatement();
      isr := ReadIsrStatement();
    }

    /** The tail of the poll: below the quota, NAPI is given back and the receive
        interrupts are turned on again; otherwise NAPI stays scheduled. */
    method FinishPoll(more: bool)
      requires Valid() && st.irq.Out? && st.poll.Test? && !(st.poll.isr && st.poll.work < st.poll.quota)
      requires more == (st.poll.work < st.poll.quota)
      modifies this
      ensures Valid() && st.irq.Out? && st.poll.Idle? && st.delivered == old(st.delivered)
      ensures old(st.arrived) <= st.arrived
      ensures if more then !masked else sched && (old(masked) ==> masked)
    {
      ReachableInv(st);
      Take(Poll(true));
      Take(Poll(true));
      if more {
        CompleteAndUnmask();
      }
    }

    /** The loop of the poll. `failures` bounds how many of its allocations fail. */
    method DrainFifo(quota: int, failures: nat) returns (workDone: int, frames: seq<Message>, rounds: nat)
      requires Valid() && st.irq.Out? && st.poll == ReadIsr(0, quota)
      modifies this
      ensures Valid() && st.irq.Out?
      ensures old(st.arrived) <= st.arrived && (old(masked) ==> masked)
      ensures st.poll.Test? && st.poll.work == workDone && st.poll.quota == quota
      ensures !(st.poll.isr && workDone < quota)
      ensures st.delivered == old(st.delivered) + frames && workDone == |frames|
      ensures workDone <= (if quota > 0 then quota else 0)
      ensures old(fifo) <= frames + fifo && (workDone < quota ==> old(fifo) <= frames)
      ensures rounds <= workDone + failures
    {
      NothingLostOrReordered(st);
      ghost var delivered, waiting := st.delivered, fifo;
      workDone, frames, rounds := 0, [], 0;
      var budget: nat := failures;
      var isr := ReadIsrStatement();
      while isr && workDone < quota
        invariant Valid() && st.irq.Out? && st.poll == Test(isr, workDone, quota)
        invariant old(st.arrived) <= st.arrived && (old(masked) ==> masked)
        invariant st.delivered == old(st.delivered) + frames && workDone == |frames|
        invariant isr <==> fifo != []
        invariant workDone <= (if quota > 0 then quota else 0)
        invariant rounds + budget == workDone + failures
        decreases budget + quota - workDone
      {
        var alloc: bool := *;
        alloc := alloc || budget == 0;
        if !alloc { budget := budget - 1; }
        var got, one;
        isr, got, one := Round(alloc);
        AppendAssociates(delivered, frames, one);
        workDone, frames, rounds := workDone + got, frames + one, rounds + 1;
      }
      OldestFirst(delivered, waiting, frames);
    }

    /** xcan_rx_poll. What waited in the FIFO is delivered, oldest first, or still waits there
        before anything that arrived meanwhile; when the poll gives up below its quota, all of
        it is delivered. With finitely many allocation failures it ends: the number of rounds
        of its loop is at most the frames delivered plus the failures. */
    method RxPoll(quota: int, failures: nat) returns (workDone: int, frames: seq<Message>, rounds: nat)
      requires Valid() && st.irq.Out? && st.poll.Idle? && sched
      modifies this
      ensures Valid() && st.irq.Out? && st.poll.Idle?
      ensures old(st.arrived) <= st.arrived
      ensures st.delivered == old(st.delivered) + frames && workDone == |frames|
      ensures workDone <= (if quota > 0 then quota else 0)
      ensures if workDone < quota then !masked else sched && (old(masked) ==> masked)
      ensures rounds <= workDone + failures
      ensures old(fifo) <= frames + fifo && (workDone < quota ==> old(fifo) <= frames)
      ensures st.arrived == old(st.delivered) + frames + fifo
    {
      NothingLostOrReordered(st);
      ghost var delivered, waiting := st.delivered, fifo;
      Take(StartPoll(quota));
      workDone, frames, rounds := DrainFifo(quota, failures);
      FinishPoll(workDone < quota);
      NothingLostOrReordered(st);
      OldestFirst(delivered, waiting, frames);
    }
  }
}
