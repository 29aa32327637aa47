/** What xcan_open, xcan_close and xcan_get_berr_counter hold: the interrupt line, two
    reference-counted clocks and the CAN device state. Every call into the kernel may
    fail; its return code is a parameter. */
module XcanResources {
  import opened Machine

  datatype Held = Held(irq: nat, canClk: nat, busClk: nat, candev: nat, running: bool)

  const NOTHING := Held(0, 0, 0, 0, false)
  const EVERYTHING := Held(1, 1, 1, 1, true)

  /** Return codes of the six calls of an open, in order. The interrupt, the reset and
      the chip start fail with a negative code, the others with any code but 0. */
  datatype OpenCodes = OpenCodes(irq: int, canClk: int, busClk: int, reset: int, candev: int, start: int)

  datatype BerrCodes = BerrCodes(canClk: int, busClk: int)

  /** What an open returns: the code of the first call that failed, or 0. */
  function FirstFailure(o: OpenCodes): int {
    if o.irq < 0 then o.irq
    else if o.canClk != 0 then o.canClk
    else if o.busClk != 0 then o.busClk
    else if o.reset < 0 then o.reset
    else if o.candev != 0 then o.candev
    else if o.start < 0 then o.start
    else 0
  }

  predicate OpenSucceeds(o: OpenCodes) {
    o.irq >= 0 && o.canClk == 0 && o.busClk == 0 && o.reset >= 0 && o.candev == 0 && o.start >= 0
  }

  /** What the driver does to the chip's registers. */
  datatype Chip = Reset | Start | Stop | ReadCounters

  /** An access to the chip, and what was held when it was made. */
  datatype Access = Access(what: Chip, held: Held)

  predicate Clocked(h: Held) {
    h.canClk > 0 && h.busClk > 0
  }

  predicate AllClocked(log: seq<Access>) {
    forall k :: 0 <= k < |log| ==> Clocked(log[k].held)
  }

  /** The chip is reset once both clocks run, and started if the device opens too. */
  function OpenAccesses(o: OpenCodes): seq<Chip> {
    if o.irq < 0 || o.canClk != 0 || o.busClk != 0 then []
    else if o.reset < 0 || o.candev != 0 then [Reset]
    else [Reset, Start]
  }

  function Accesses(log: seq<Access>): (whats: seq<Chip>)
    ensures |whats| == |log|
  {
    seq(|log|, k requires 0 <= k < |log| => log[k].what)
  }

  /** The receive counter is the second byte of the register. */
  lemma SecondByte(ecr: nat)
    ensures ecr % TWO16 / 256 == ecr / 256 % 256
  {
    var q, low := ecr / TWO16, ecr % TWO16;
    var h, l := low / 256, low % 256;
    assert ecr == q * TWO16 + low && low == 256 * h + l;
    RemainderUnique(ecr, 256, 256 * q + h, l);
    RemainderUnique(256 * q + h, 256, q, h);
  }

  class Interface {
    var irq: nat
    var canClk: nat
    var busClk: nat
    var candev: nat
    var running: bool
    var log: seq<Access>

    function State(): Held
      reads this
    {
      Held(irq, canClk, busClk, candev, running)
    }

    constructor ()
      ensures State() == NOTHING && log == []
    {
      irq, canClk, busClk, candev, running, log := 0, 0, 0, 0, false, [];
    }

    method Touch(what: Chip)
      modifies this`log
      ensures log == old(log) + [Access(what, State())]
    {
      log := log + [Access(what, State())];
    }

    /** Each label is the cleanup that xcan_open jumps to: leaving a block by `break` skips the
        rest of it and runs the releases that follow. */
    method Open(o: OpenCodes) returns (ret: int)
      requires !running
      modifies this
      ensures ret == FirstFailure(o) && (ret == 0 <==> OpenSucceeds(o))
      ensures old(log) <= log && Accesses(log[|old(log)|..]) == OpenAccesses(o)
      ensures AllClocked(log[|old(log)|..])
      ensures ret != 0 ==> State() == old(State())
      ensures var h := old(State());
        ret == 0 ==> State() == Held(h.irq + 1, h.canClk + 1, h.busClk + 1, h.candev + 1, true)
    {
      label err: {
        ret := o.irq;
        if ret < 0 { break err; }
        irq := irq + 1;
        label errIrq: {
          ret := o.canClk;
          if ret != 0 { break errIrq; }
          canClk := canClk + 1;
          label errCanClk: {
            ret := o.busClk;
            if ret != 0 { break errCanClk; }
            busClk := busClk + 1;
            label errBusClk: {
              Touch(Reset);
              ret := o.reset;
              if ret < 0 { break errBusClk; }
              ret := o.candev;
              if ret != 0 { break errBusClk; }
              candev := candev + 1;
              Touch(Start);
              ret := o.start;
              if ret >= 0 {
                running := true;
                return 0;
              }
              candev := candev - 1;
            }
            busClk := busClk - 1;
          }
          canClk := canClk - 1;
        }
        irq := irq - 1;
      }
    }

    method Close() returns (ret: int)
      requires running && Clocked(State()) && irq > 0 && candev > 0
      modifies this
      ensures ret == 0
      ensures |log| == |old(log)| + 1 && log[..|old(log)|] == old(log)
      ensures log[|old(log)|].what == Stop && Clocked(log[|old(log)|].held)
      ensures var h := old(State());
        State() == Held(h.irq - 1, h.canClk - 1, h.busClk - 1, h.candev - 1, false)
    {
      running := false;
      Touch(Stop);
      busClk := busClk - 1;
      canClk := canClk - 1;
      irq := irq - 1;
      candev := candev - 1;
      ret := 0;
    }

    method ReadCounts(first: nat, second: nat) returns (txerr: nat, rxerr: nat)
      requires Clocked(State())
      modifies this`log
      ensures |log| == |old(log)| + 2 && log[..|old(log)|] == old(log)
      ensures log[|old(log)|..] == [Access(ReadCounters, State()), Access(ReadCounters, State())]
      ensures txerr == first % 256 && rxerr == second / 256 % 256
    {
      Touch(ReadCounters);
      txerr := first % 256;
      Touch(ReadCounters);
      rxerr := second % TWO16 / 256;
      SecondByte(second);
    }

    /** The error counter register is read twice and may change in between. */
    method GetBerrCounter(b: BerrCodes, first: nat, second: nat) returns (ret: int, txerr: nat, rxerr: nat)
      modifies this
      ensures State() == old(State())
      ensures ret == if b.canClk != 0 then b.canClk else b.busClk
      ensures old(log) <= log && AllClocked(log[|old(log)|..])
      ensures Accesses(log[|old(log)|..]) == if ret == 0 then [ReadCounters, ReadCounters] else []
      ensures ret == 0 ==> txerr == first % 256 && rxerr == second / 256 % 256
    {
      txerr, rxerr := 0, 0;
      label err: {
        ret := b.canClk;
        if ret != 0 { break err; }
        canClk := canClk + 1;
        label errClk: {
          ret := b.busClk;
          if ret != 0 { break errClk; }
          busClk := busClk + 1;
          txerr, rxerr := ReadCounts(first, second);
          busClk := busClk - 1;
        }
        canClk := canClk - 1;
      }
    }
  }

  datatype Call = Open(o: OpenCodes) | Close | Berr(b: BerrCodes, first: nat, second: nat)

  /** Whether the network core sees the interface up: the last open or close decides, and
      an open counts only when it returned 0. */
  predicate Up(calls: seq<Call>) {
    if calls == [] then false else
      match calls[|calls| - 1]
      case Open(o) => OpenSucceeds(o)
      case Close => false
      case Berr(_, _, _) => Up(calls[..|calls| - 1])
  }

  /** The network core opens an interface that is down and closes one that is up; the
      counters may be asked for at any time. */
  predicate InTurn(calls: seq<Call>) {
    forall k :: 0 <= k < |calls| ==>
      && (calls[k].Open? ==> !Up(calls[..k]))
      && (calls[k].Close? ==> Up(calls[..k]))
  }

  /** Any sequence of calls with any failures: everything is held exactly once when the
      interface is open, and nothing otherwise; and these calls never access the chip without
      both of its clocks. */
  method RunCalls(calls: seq<Call>) returns (device: Interface)
    requires InTurn(calls)
    ensures device.State() == if Up(calls) then EVERYTHING else NOTHING
    ensures AllClocked(device.log)
  {
    device := new Interface();
    var i := 0;
    while i < |calls|
      invariant 0 <= i <= |calls|
      invariant device.State() == if Up(calls[..i]) then EVERYTHING else NOTHING
      invariant AllClocked(device.log)
    {
      assert calls[..i + 1][..i] == calls[..i];
      ghost var before := device.log;
      match calls[i] {
        case Open(o) => var _ := device.Open(o);
        case Close => var _ := device.Close();
        case Berr(b, first, second) => var _, _, _ := device.GetBerrCounter(b, first, second);
      }
      assert AllClocked(before) && AllClocked(device.log[|before|..]);
      assert device.log == before + device.log[|before|..];
      i := i + 1;
    }
    assert calls[..i] == calls;
  }
}
