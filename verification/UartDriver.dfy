/**
 The driver's code.  The class holds the driver's state structure and the device's registers; its methods
 are the routines of the driver, and wherever the processor could be interrupted they call `Interrupts`,
 wherever the host could act they call `Host`.  The ghost field `s` follows along in the step system: every
 statement that touches shared state is one of its events, so what is proved there holds here.
 */
module UartDriver {
  import opened Platform
  import opened Ring
  import opened UartMachine
  import opened UartInvariant
  import opened UartTheorems

  class JtagUart {
    // the driver's state structure
    var timeout: int
    var irqEnable: Enables
    var hostInactive: int
    var rxIn: nat
    var rxOut: nat
    var txIn: nat
    var txOut: nat
    const rxBuf: array<Byte>
    const txBuf: array<Byte>

    // the device
    var device: Enables
    var rxFifo: seq<Byte>
    var txFifo: seq<Byte>
    var activity: bool

    // the step system
    ghost const clock: bool
    ghost var events: seq<Event>
    ghost var trace: seq<Sys>
    ghost var s: Sys

    /** The code's variables are those of the step system. */
    ghost predicate Mirrors()
      reads this, rxBuf, txBuf
    {
      && rxBuf != txBuf
      && s.t.ring == Channel(txBuf[..], txIn, txOut) && s.x.ring == Channel(rxBuf[..], rxIn, rxOut)
      && s.t.fifo == txFifo && s.x.fifo == rxFifo
      && s.shadow == irqEnable && s.device == device && s.activity == activity
      && s.hostInactive == hostInactive && s.timeout == timeout
    }

    /** `s` is where the events so far lead. */
    ghost predicate Follows()
      reads this
    {
      Shaped(s) && IsTrace(clock, events, trace) && s == trace[|events|]
    }

    ghost predicate Valid()
      reads this, rxBuf, txBuf
    {
      Follows() && Mirrors()
    }

    /** No call is in progress. */
    ghost predicate Idle()
      reads this
    {
      s.isr.IOff? && s.t.w.pc.WIdle? && s.x.r.pc.RIdle?
    }

    ghost method Note(e: Event)
      requires Follows()
      modifies this`s, this`events, this`trace
      ensures Follows() && s == Apply(old(s), e)
    {
      var (events', trace') := (events + [e], trace + [Apply(s, e)]);
      forall n | 0 <= n < |events'|
        ensures Shaped(trace'[n]) && trace'[n + 1] == Apply(trace'[n], events'[n])
      {
        if n < |events| { assert events'[n] == events[n]; }
      }
      s, events, trace := Apply(s, e), events', trace';
    }

    /** Every state the code goes through is one of the step system's, so the invariant holds in it. */
    lemma InvNow()
      requires Follows()
      ensures s == Reached(clock, events) && Inv(s)
    {
      TraceIsReached(clock, events, trace);
    }

    /** The parts of the invariant, for the code that needs no more. */
    lemma WriterNow()
      requires Follows()
      ensures WriterInv(s.t)
    {
      InvNow();
    }

    lemma ReaderNow()
      requires Follows()
      ensures RLocalInv(s.x.ring, s.x.r)
    {
      InvNow();
    }

    lemma IsrNow()
      requires Follows()
      ensures |s.t.fifo| <= DEPTH && IsrRxInv(s) && IsrTxInv(s)
    {
      InvNow();
    }

    lemma HostNow()
      requires Follows()
      ensures HostInv(s)
    {
      InvNow();
    }

    lemma IsrProgress(ri: bool, wi: bool)
      requires Follows() && !s.isr.IOff?
      ensures IsrMeasure(IsrMoves(s, ri, wi)) < IsrMeasure(s)
    {
      InvNow();
      IsrStepDecreases(s, ri, wi);
    }

    /** altera_avalon_jtag_uart_init; `clock` says whether the alarm could be started. */
    constructor (clock: bool)
      ensures Valid() && Idle() && events == []
      ensures timeout == if clock then 10 else INT_MAX
      ensures hostInactive == 0 && irqEnable == device == Enables(true, false)
    {
      rxBuf := new Byte[LEN](_ => 0);
      txBuf := new Byte[LEN](_ => 0);
      rxIn, rxOut, txIn, txOut := 0, 0, 0, 0;
      irqEnable, device := Enables(true, false), Enables(true, false);
      hostInactive := 0;
      timeout := if clock then DEFAULT_TIMEOUT else INT_MAX;
      rxFifo, txFifo, activity := [], [], false;
      this.clock := clock;
      events, s := [], Boot(clock);
      trace := [Boot(clock)];
      new;
      assert txBuf[..] == s.t.ring.buf && rxBuf[..] == s.x.ring.buf;
    }

    /** Between two states only the host has acted. */
    twostate predicate OnlyHost()
      requires old(Shaped(s)) && Shaped(s)
      reads this
    {
      && s.t.w == old(s.t.w) && s.x.r == old(s.x.r) && s.isr == old(s.isr)
      && s.t.accepted == old(s.t.accepted) && s.x.returned == old(s.x.returned)
      && old(rxFifo) <= rxFifo && |txFifo| <= |old(txFifo)|
      && IsrMeasure(s) == old(IsrMeasure(s))
    }

    method HostSends(b: Byte)
      requires Valid()
      modifies this`rxFifo, this`s, this`events, this`trace
      ensures Valid() && OnlyHost()
    {
      rxFifo := rxFifo + [b];
      Note(HostSend(b));
    }

    method HostTakes()
      requires Valid()
      modifies this`txFifo, this`s, this`events, this`trace
      ensures Valid() && OnlyHost()
    {
      if txFifo != [] { txFifo := txFifo[1..]; }
      Note(HostTake);
    }

    method HostPolls()
      requires Valid()
      modifies this`activity, this`s, this`events, this`trace
      ensures Valid() && OnlyHost()
    {
      activity := true;
      Note(HostPoll);
    }

    /** The far end of the cable: any number of bytes sent, bytes taken and polls. */
    method Host()
      requires Valid()
      modifies this`rxFifo, this`txFifo, this`activity, this`s, this`events, this`trace
      ensures Valid() && OnlyHost()
    {
      var k: nat := *;
      while k > 0
        invariant Valid() && OnlyHost()
      {
        k := k - 1;
        if * {
          var b: Byte := *;
          HostSends(b);
        } else if * {
          HostTakes();
        } else {
          HostPolls();
        }
      }
    }

    // ---- the interrupt routine -----------------------------------------------------------------

    /** Between two states neither foreground call has moved. */
    twostate predicate ForegroundStill()
      reads this
    {
      && s.t.w == old(s.t.w) && s.x.r == old(s.x.r)
      && s.t.accepted == old(s.t.accepted) && s.x.returned == old(s.x.returned)
    }

    /** A step of the routine; the hints matter only when it reads the control register. */
    ghost method IsrTakes(ri: bool, wi: bool)
      requires Follows() && !s.isr.IOff?
      modifies this`s, this`events, this`trace
      ensures Follows() && s == IsrMoves(old(s), ri, wi)
      ensures IsrMeasure(s) < old(IsrMeasure(s))
    {
      IsrProgress(ri, wi);
      Note(IsrStep(ri, wi));
    }

    /** Any step but that. */
    ghost method IsrDecides()
      requires Follows() && !s.isr.IOff? && !s.isr.ITop?
      modifies this`s, this`events, this`trace
      ensures Follows() && s == IsrMoves(old(s), false, false)
      ensures IsrMeasure(s) < old(IsrMeasure(s))
    {
      IsrTakes(false, false);
    }

    /** One character from the hardware FIFO into the receive ring. */
    method ReceiveByte()
      requires Valid() && s.isr.IRx? && Next(rxIn) != rxOut && rxFifo != []
      modifies this`rxIn, this`rxFifo, this`s, this`events, this`trace, rxBuf
      ensures Valid() && ForegroundStill()
      ensures s.isr == IRx(|old(rxFifo)| > 1, old(s.isr.wi), old(s.isr.space), true)
      ensures IsrMeasure(s) < old(IsrMeasure(s))
    {
      var data := rxFifo[0];
      rxFifo := rxFifo[1..];
      rxBuf[rxIn] := data;
      rxIn := Next(rxIn);
      IsrDecides();
    }

    /** IOWR of the control register inside the routine, and the dummy read after it. */
    method StoreEnables()
      requires Valid() && (s.isr.IRxMaskStore? || s.isr.ITxMaskStore?)
      modifies this`device, this`rxFifo, this`txFifo, this`activity, this`s, this`events, this`trace
      ensures Valid() && ForegroundStill()
      ensures s.isr == if old(s.isr.IRxMaskStore?) then IsrTransmit(old(s.isr.wi), old(s.isr.space), true) else ITop
      ensures IsrMeasure(s) < old(IsrMeasure(s))
    {
      Host();
      device := irqEnable;
      IsrDecides();
      Host();
    }

    method MaskReceive()
      requires Valid() && s.isr.IRxMask?
      modifies this`irqEnable, this`device, this`rxFifo, this`txFifo, this`activity,
               this`s, this`events, this`trace
      ensures Valid() && ForegroundStill()
      ensures s.isr == IsrTransmit(old(s.isr.wi), old(s.isr.space), true)
      ensures IsrMeasure(s) < old(IsrMeasure(s))
    {
      irqEnable := irqEnable.(re := false);
      IsrDecides();
      StoreEnables();
    }

    /** The receive loop, up to its break; `avail` is the RAVAIL field of the last data word. */
    method ReceiveLoop(wi: bool, space: nat) returns (avail: bool)
      requires Valid() && s.isr == IRx(true, wi, space, false)
      modifies this`rxIn, this`rxFifo, this`txFifo, this`activity, this`s, this`events, this`trace, rxBuf
      ensures Valid() && ForegroundStill()
      ensures s.isr == if avail then IRxMask(wi, space) else IsrTransmit(wi, space, true)
      ensures IsrMeasure(s) < old(IsrMeasure(s))
    {
      avail := true;
      var more := true;
      ghost var progress := false;
      while more
        invariant Valid() && ForegroundStill()
        invariant if more then s.isr == IRx(avail, wi, space, progress) && (avail || progress)
                  else s.isr == (if avail then IRxMask(wi, space) else IsrTransmit(wi, space, true))
        invariant IsrMeasure(s) <= old(IsrMeasure(s)) && (!more ==> IsrMeasure(s) < old(IsrMeasure(s)))
        decreases more, IsrMeasure(s)
      {
        avail, more := ReceiveOne(avail, progress, wi, space);
        progress := true;
      }
    }

    /** One pass of the loop: stop at a full ring or an empty FIFO, or take a character. */
    method ReceiveOne(avail: bool, ghost progress: bool, wi: bool, space: nat) returns (avail': bool, more: bool)
      requires Valid() && s.isr == IRx(avail, wi, space, progress) && (avail || progress)
      modifies this`rxIn, this`rxFifo, this`txFifo, this`activity, this`s, this`events, this`trace, rxBuf
      ensures Valid() && ForegroundStill() && IsrMeasure(s) < old(IsrMeasure(s))
      ensures if more then s.isr == IRx(avail', wi, space, true)
              else s.isr == if avail' then IRxMask(wi, space) else IsrTransmit(wi, space, true)
    {
      avail' := avail;
      var next := Next(rxIn);
      if next == rxOut {
        IsrDecides();
        return avail, false;
      }
      Host();
      if rxFifo == [] {                                   // RVALID clear
        FindNothing();
        return false, false;
      }
      avail', more := |rxFifo| > 1, true;
      ReceiveByte();
    }

    /** The data register had nothing: only possible after something was received. */
    ghost method FindNothing()
      requires Valid() && s.isr.IRx? && rxFifo == [] && Next(rxIn) != rxOut
      modifies this`s, this`events, this`trace
      ensures Valid() && ForegroundStill() && s.isr == IsrTransmit(old(s.isr.wi), old(s.isr.space), true)
      ensures IsrMeasure(s) < old(IsrMeasure(s))
    {
      IsrNow();
      IsrDecides();
    }

    /** The RI half of a round. */
    method Receive(wi: bool, space: nat)
      requires Valid() && s.isr == IRx(true, wi, space, false)
      modifies this`rxIn, this`irqEnable, this`device, this`rxFifo, this`txFifo, this`activity,
               this`s, this`events, this`trace, rxBuf
      ensures Valid() && ForegroundStill() && s.isr == IsrTransmit(wi, space, true)
      ensures IsrMeasure(s) < old(IsrMeasure(s))
    {
      var avail := ReceiveLoop(wi, space);
      if avail {
        MaskReceive();
      }
    }

    /** One character from the transmit ring into the hardware FIFO. */
    method TransmitByte()
      requires Valid() && s.isr.ITx? && s.isr.space > 0 && txOut != txIn
      modifies this`txOut, this`txFifo, this`s, this`events, this`trace
      ensures Valid() && ForegroundStill()
      ensures |txFifo| <= DEPTH && s.isr == ITx(old(s.isr.space) - 1, true)
      ensures IsrMeasure(s) < old(IsrMeasure(s))
    {
      IsrNow();
      txFifo := txFifo + [txBuf[txOut]];
      txOut := Next(txOut);
      IsrDecides();
    }

    method MaskTransmit()
      requires Valid() && s.isr.ITxMask?
      modifies this`irqEnable, this`device, this`rxFifo, this`txFifo, this`activity,
               this`s, this`events, this`trace
      ensures Valid() && ForegroundStill() && s.isr.ITop?
      ensures IsrMeasure(s) < old(IsrMeasure(s))
    {
      irqEnable := irqEnable.(we := false);
      IsrDecides();
      StoreEnables();
    }

    /** The transmit loop; it leaves `space` of the room it was told of. */
    method TransmitLoop(wspace: nat, ghost progress: bool) returns (space: nat, ghost p: bool)
      requires Valid() && s.isr == ITx(wspace, progress)
      modifies this`txOut, this`rxFifo, this`txFifo, this`activity, this`s, this`events, this`trace
      ensures Valid() && ForegroundStill() && s.isr == ITx(space, p)
      ensures space == 0 || txOut == txIn
      ensures IsrMeasure(s) <= old(IsrMeasure(s))
    {
      space, p := wspace, progress;
      while space > 0 && txOut != txIn
        invariant Valid() && ForegroundStill() && s.isr == ITx(space, p)
        invariant IsrMeasure(s) <= old(IsrMeasure(s))
        decreases space
      {
        Host();
        TransmitByte();
        space, p := space - 1, true;
      }
    }

    /** The WI half of a round. */
    method Transmit(wspace: nat, ghost progress: bool)
      requires Valid() && s.isr == ITx(wspace, progress)
      modifies this`txOut, this`irqEnable, this`device, this`rxFifo, this`txFifo, this`activity,
               this`s, this`events, this`trace
      ensures Valid() && ForegroundStill() && s.isr.ITop?
      ensures IsrMeasure(s) < old(IsrMeasure(s))
    {
      ghost var p;
      var space;
      space, p := TransmitLoop(wspace, progress);
      IsrDecides();
      if space > 0 {
        MaskTransmit();
      }
    }

    /**
     Reading the control register: RI needs RE and data, WI needs WE and space, and the hardware may still
     choose not to raise either.
     */
    method ReadControl() returns (ri: bool, wi: bool, space: nat)
      requires Valid() && s.isr.ITop?
      modifies this`s, this`events, this`trace
      ensures Valid() && ForegroundStill()
      ensures ri ==> device.re && rxFifo != []
      ensures wi ==> device.we && space > 0
      ensures space == DEPTH - |txFifo|
      ensures s.isr == if ri then IRx(true, wi, space, false) else if wi then ITx(space, false) else IOff
      ensures IsrMeasure(s) < old(IsrMeasure(s))
    {
      IsrNow();
      ri, wi := *, *;
      ri := ri && device.re && rxFifo != [];
      wi := wi && device.we && |txFifo| < DEPTH;
      space := DEPTH - |txFifo|;
      DispatchIs(s, ri, wi);
      IsrTakes(ri, wi);
    }

    /** What the routine goes on to, once the hardware has raised RI and WI only where it may. */
    lemma DispatchIs(s: Sys, ri: bool, wi: bool)
      requires Shaped(s) && s.isr.ITop? && |s.t.fifo| <= DEPTH
      requires (ri ==> s.device.re && s.x.fifo != []) && (wi ==> s.device.we && |s.t.fifo| < DEPTH)
      ensures var space := DEPTH - |s.t.fifo|;
              IsrMoves(s, ri, wi)
                == s.(isr := if ri then IRx(true, wi, space, false) else if wi then ITx(space, false) else IOff)
    {
    }

    method EnterIsr()
      requires Valid() && Preemptible(s)
      modifies this`s, this`events, this`trace
      ensures Valid() && ForegroundStill() && s.isr.ITop?
    {
      Note(Interrupt);
    }

    /** altera_avalon_jtag_uart_irq.  It terminates against any host: each round takes fuel. */
    method Isr()
      requires Valid() && Preemptible(s)
      modifies this`rxIn, this`txOut, this`irqEnable, this`device, this`rxFifo, this`txFifo, this`activity,
               this`s, this`events, this`trace, rxBuf
      ensures Valid() && Preemptible(s) && ForegroundStill()
    {
      EnterIsr();
      while true
        invariant Valid() && ForegroundStill() && s.isr.ITop?
        decreases IsrMeasure(s)
      {
        Host();
        var ri, wi, space := ReadControl();
        if !ri && !wi { break; }
        if ri {
          Receive(wi, space);
        }
        if wi {
          Transmit(space, ri);
        }
      }
    }

    // ---- timeout and ioctl ---------------------------------------------------------------------

    /** altera_avalon_jtag_uart_timeout. */
    method TimeoutAlarm()
      requires Valid() && Preemptible(s)
      modifies this`hostInactive, this`device, this`activity, this`s, this`events, this`trace
      ensures Valid() && Preemptible(s) && ForegroundStill()
      ensures hostInactive == if old(activity) then 0
                              else if old(hostInactive) < INT_MAX - 2 then old(hostInactive) + 1
                              else old(hostInactive)
      ensures !activity && irqEnable == old(irqEnable)
      ensures old(activity) ==> device == irqEnable
    {
      if activity {
        device, activity := irqEnable, false;
        hostInactive := 0;
      } else if hostInactive < INT_MAX - 2 {
        hostInactive := hostInactive + 1;
      }
      Note(TimeoutTick);
    }

    /** altera_avalon_jtag_uart_ioctl, request TIOCSTIMEOUT. */
    method SetHostTimeout(value: int) returns (rc: int)
      requires Valid() && Preemptible(s)
      modifies this`timeout, this`s, this`events, this`trace
      ensures Valid() && Preemptible(s) && ForegroundStill()
      ensures rc == if old(timeout) == INT_MAX then -ENOTTY else 0
      ensures timeout == NewTimeout(old(timeout), value)
      ensures old(timeout) != INT_MAX ==> timeout == if 2 <= value < INT_MAX then value else INT_MAX - 1
      ensures old(timeout) == INT_MAX <==> timeout == INT_MAX
    {
      rc := -ENOTTY;
      if timeout != INT_MAX {
        timeout := if value >= 2 && value < INT_MAX then value else INT_MAX - 1;
        rc := 0;
      }
      Note(SetTimeout(value));
    }

    /** altera_avalon_jtag_uart_ioctl, request TIOCGCONNECTED. */
    method IsConnected() returns (rc: int, connected: bool)
      requires Valid()
      ensures rc == if timeout == INT_MAX then -ENOTTY else 0
      ensures rc == 0 ==> (connected <==> hostInactive < timeout)
      ensures rc == 0 && timeout == INT_MAX - 1 ==> connected
    {
      rc, connected := -ENOTTY, false;
      if timeout != INT_MAX {
        HostNow();
        connected := hostInactive < timeout;
        rc := 0;
      }
    }

    // ---- preemption ----------------------------------------------------------------------------

    /**
     Whatever can happen between two foreground statements: any number of host actions, interrupts and
     timeouts.  It cannot touch tx_in, rx_out or tx_buf.
     */
    method Interrupts()
      requires Valid() && Preemptible(s)
      modifies this`rxIn, this`txOut, this`irqEnable, this`device, this`rxFifo, this`txFifo, this`activity,
               this`hostInactive, this`s, this`events, this`trace, rxBuf
      ensures Valid() && Preemptible(s) && ForegroundStill()
    {
      var k: nat := *;
      while k > 0
        invariant Valid() && Preemptible(s) && ForegroundStill()
      {
        k := k - 1;
        if * {
          Host();
        } else if * {
          Isr();
        } else {
          TimeoutAlarm();
        }
      }
    }

    // ---- write ---------------------------------------------------------------------------------

    /** A write of `src` is at `pc`, `done` bytes of it accepted; no read is going on. */
    ghost predicate Writing(pc: WriterPc, src: seq<Byte>, nonblock: bool, done: nat)
      reads this
    {
      && s.t.w.pc == pc && s.t.w.src == src && s.t.w.nonblock == nonblock && s.t.w.done == done
      && s.isr.IOff? && s.x.r.pc.RIdle?
    }

    /** Between two states the reader has not moved and no call has finished. */
    twostate predicate OnlyWriter()
      reads this
    {
      s.x.r == old(s.x.r) && s.x.returned == old(s.x.returned) && s.t.accepted == old(s.t.accepted)
    }

    ghost method WriterDecides()
      requires Follows() && s.isr.IOff? && s.x.r.pc.RIdle?
      modifies this`s, this`events, this`trace
      ensures Follows() && s == WriterStep(old(s))
    {
      Note(WriterMoves);
    }

    /** One iteration of the memcpy. */
    method CopyByte(b: Byte, i: nat, n: nat, k: nat, src: seq<Byte>, nonblock: bool, done: nat)
      requires Valid() && Writing(WCopy(i, n, k), src, nonblock, done)
      requires i + k < LEN && done + k < |src| && k < n && b == src[done + k]
      modifies txBuf, this`s, this`events, this`trace
      ensures Valid() && Writing(WCopy(i, n, k + 1), src, nonblock, done) && OnlyWriter()
    {
      txBuf[i + k] := b;
      WriterDecides();
    }

    /** memcpy(sp->tx_buf + in, ptr, n), interruptible between any two bytes. */
    method CopyIn(i: nat, n: nat, src: seq<Byte>, nonblock: bool, done: nat)
      requires Valid() && Writing(WCopy(i, n, 0), src, nonblock, done)
      modifies txBuf, this`rxIn, this`txOut, this`irqEnable, this`device, this`rxFifo, this`txFifo,
               this`activity, this`hostInactive, this`s, this`events, this`trace, rxBuf
      ensures Valid() && Writing(WCopy(i, n, n), src, nonblock, done) && OnlyWriter()
    {
      var k := 0;
      while k < n
        invariant k <= n
        invariant Valid() && Writing(WCopy(i, n, k), src, nonblock, done) && OnlyWriter()
      {
        Interrupts();
        WriterNow();
        CopyByte(src[done + k], i, n, k, src, nonblock, done);
        k := k + 1;
      }
      Interrupts();
    }

    method AdvanceTxIn(i: nat, n: nat, src: seq<Byte>, nonblock: bool, done: nat)
      requires Valid() && Writing(WCopy(i, n, n), src, nonblock, done)
      modifies this`txIn, this`s, this`events, this`trace
      ensures done + n <= |src|
      ensures Valid() && Writing(WTest, src, nonblock, done + n) && OnlyWriter()
    {
      WriterNow();
      txIn := Advance(i, n);
      WriterDecides();
    }

    /** The samples of tx_in and tx_out, and the length of the run to copy; 0 if the ring looks full. */
    method SampleRoom(src: seq<Byte>, nonblock: bool, done: nat) returns (n: nat)
      requires Valid() && Writing(WTest, src, nonblock, done) && done < |src|
      modifies this`s, this`events, this`trace
      ensures Valid() && OnlyWriter()
      ensures n == 0 ==> Writing(WKick, src, nonblock, done)
      ensures n > 0 ==> done + n <= |src| && Writing(WCopy(txIn, n, 0), src, nonblock, done)
      ensures s.t.w.out == txOut
    {
      WriterNow();
      var i, out := txIn, txOut;
      n := FreeRun(i, out, |src| - done);
      WriterDecides();
    }

    /** The length of the run from `i` that is free while `out` is where it was, at most `count`. */
    method FreeRun(i: nat, out: nat, count: nat) returns (n: nat)
      requires i < LEN && out < LEN
      ensures n == if WriteRoom(out, i) > count then count else WriteRoom(out, i)
      ensures n <= count && i + n <= LEN && n + Used(out, i) <= CAPACITY
      ensures count > 0 ==> (n == 0 <==> Used(out, i) == CAPACITY)
    {
      WriteRoomIsSafe(out, i);
      if i < out {
        n := out - 1 - i;
      } else if out > 0 {
        n := LEN - i;
      } else {
        n := LEN - 1 - i;
      }
      if n > count {
        n := count;
      }
    }

    /** Copy as much as fits into the transmit ring. */
    method Fill(src: seq<Byte>, nonblock: bool, start: nat) returns (done: nat, out: nat)
      requires Valid() && Writing(WTest, src, nonblock, start) && start <= |src|
      modifies txBuf, this`txIn, this`rxIn, this`txOut, this`irqEnable, this`device, this`rxFifo, this`txFifo,
               this`activity, this`hostInactive, this`s, this`events, this`trace, rxBuf
      ensures start <= done <= |src|
      ensures Valid() && Writing(WKick, src, nonblock, done) && OnlyWriter()
      ensures done < |src| ==> s.t.w.out == out
    {
      done, out := start, 0;
      while done < |src|
        invariant start <= done <= |src|
        invariant Valid() && Writing(WTest, src, nonblock, done) && OnlyWriter()
      {
        Interrupts();
        out := txOut;
        var n := SampleRoom(src, nonblock, done);
        if n == 0 {
          return;
        }
        var i := txIn;
        CopyIn(i, n, src, nonblock, done);
        AdvanceTxIn(i, n, src, nonblock, done);
        done := done + n;
      }
      WriterDecides();
    }

    /** With interrupts disabled, enable the transmit interrupt. */
    method Kick(src: seq<Byte>, nonblock: bool, done: nat)
      requires Valid() && Writing(WKick, src, nonblock, done)
      modifies this`irqEnable, this`device, this`rxFifo, this`txFifo, this`activity,
               this`s, this`events, this`trace
      ensures Valid() && Writing(WAfter, src, nonblock, done) && OnlyWriter()
      ensures s.t.w.out == old(s.t.w.out) && device.we && irqEnable == device
    {
      irqEnable := irqEnable.(we := true);
      WriterDecides();
      Host();
      KickStore(src, nonblock, done);
    }

    method KickStore(src: seq<Byte>, nonblock: bool, done: nat)
      requires Valid() && Writing(WKickStore, src, nonblock, done)
      modifies this`device, this`s, this`events, this`trace
      ensures Valid() && Writing(WAfter, src, nonblock, done) && OnlyWriter()
      ensures s.t.w.out == old(s.t.w.out) && device == irqEnable
    {
      device := irqEnable;
      WriterDecides();
    }

    /** The end of the call: everything accepted, or a non-blocking call that has to stop. */
    ghost method DecideToStay(src: seq<Byte>, nonblock: bool, done: nat)
      requires Valid() && Writing(WAfter, src, nonblock, done) && done <= |src|
      modifies this`s, this`events, this`trace
      ensures Valid() && OnlyWriter() && s.t.w.out == old(s.t.w.out)
      ensures if done == |src| || nonblock then s.t.w.pc.WReturn? && Writing(s.t.w.pc, src, nonblock, done)
              else Writing(WSpinOut, src, nonblock, done)
    {
      WriterDecides();
    }

    method LookAtRing(src: seq<Byte>, nonblock: bool, done: nat, out: nat) returns (moved: bool)
      requires Valid() && Writing(WSpinOut, src, nonblock, done) && s.t.w.out == out
      modifies this`s, this`events, this`trace
      ensures Valid() && OnlyWriter() && s.t.w.out == out
      ensures Writing(if moved then WCheck else WSpinHost, src, nonblock, done)
      ensures moved <==> |s.t.ring.Bytes()| < CAPACITY
    {
      WriterNow();
      UsedIsInjective(out, txOut, txIn);
      moved := out != txOut;
      WriterDecides();
    }

    method LookAtHost(src: seq<Byte>, nonblock: bool, done: nat) returns (gone: bool)
      requires Valid() && Writing(WSpinHost, src, nonblock, done)
      modifies this`s, this`events, this`trace
      ensures Valid() && OnlyWriter() && s.t.w.out == old(s.t.w.out)
      ensures Writing(if gone then WCheck else WSpinOut, src, nonblock, done)
      ensures gone <==> hostInactive >= timeout
    {
      gone := hostInactive >= timeout;
      WriterDecides();
    }

    /**
     Spin until tx_out moves or the host is taken to be gone.  A call that outlasts `patience` looks is
     reported as still waiting.
     */
    method AwaitRoom(out: nat, src: seq<Byte>, nonblock: bool, done: nat, patience: nat) returns (left: nat)
      requires Valid() && Writing(WSpinOut, src, nonblock, done) && s.t.w.out == out
      modifies this`rxIn, this`txOut, this`irqEnable, this`device, this`rxFifo, this`txFifo, this`activity,
               this`hostInactive, this`s, this`events, this`trace, rxBuf
      ensures Valid() && OnlyWriter() && left <= patience
      ensures left > 0 ==> Writing(WCheck, src, nonblock, done)
      ensures left == 0 ==> Writing(WSpinOut, src, nonblock, done)
    {
      left := patience;
      while left > 0
        invariant left <= patience && s.t.w.out == out
        invariant Valid() && Writing(WSpinOut, src, nonblock, done) && OnlyWriter()
      {
        Interrupts();
        var moved := LookAtRing(src, nonblock, done, out);
        if moved { return; }
        Interrupts();
        var gone := LookAtHost(src, nonblock, done);
        if gone { return; }
        left := left - 1;
      }
    }

    /** if (sp->host_inactive) break; */
    method HostInactive(src: seq<Byte>, nonblock: bool, done: nat) returns (inactive: bool)
      requires Valid() && Writing(WCheck, src, nonblock, done)
      modifies this`s, this`events, this`trace
      ensures Valid() && OnlyWriter() && inactive == (hostInactive != 0)
      ensures if inactive then s.t.w.pc.WReturn? && Writing(s.t.w.pc, src, nonblock, done)
              else Writing(WTest, src, nonblock, done)
    {
      inactive := hostInactive != 0;
      WriterDecides();
    }

    ghost method FinishWrite(src: seq<Byte>, nonblock: bool, done: nat)
      requires Valid() && s.t.w.pc.WReturn? && Writing(s.t.w.pc, src, nonblock, done)
      modifies this`s, this`events, this`trace
      ensures Valid() && Writing(WIdle, src, nonblock, done)
      ensures done <= |src| && s.t.accepted == old(s.t.accepted) + src[..done]
      ensures done < |src| ==> nonblock || s.t.w.sawInactive
      ensures s.x.returned == old(s.x.returned)
    {
      WriterNow();
      WriterDecides();
    }

    ghost method StartWrite(src: seq<Byte>, nonblock: bool)
      requires Valid() && Idle()
      modifies this`s, this`events, this`trace
      ensures Valid() && Writing(WTest, src, nonblock, 0) && OnlyWriter()
    {
      Note(CallWrite(src, nonblock));
    }

    /** The do-while loop of write, over the bytes to be written. */
    method WriteAll(src: seq<Byte>, nonblock: bool, patience: nat) returns (waiting: bool, done: nat)
      requires Valid() && Writing(WTest, src, nonblock, 0)
      modifies txBuf, this`txIn, this`rxIn, this`txOut, this`irqEnable, this`device, this`rxFifo, this`txFifo,
               this`activity, this`hostInactive, this`s, this`events, this`trace, rxBuf
      ensures Valid() && OnlyWriter() && done <= |src|
      ensures if waiting then done < |src| && Writing(WSpinOut, src, nonblock, done)
              else s.t.w.pc.WReturn? && Writing(s.t.w.pc, src, nonblock, done)
    {
      var out, left := 0, patience + 1;
      done := 0;
      while true
        invariant done <= |src| && left > 0
        invariant Valid() && Writing(WTest, src, nonblock, done) && OnlyWriter()
        decreases left
      {
        done, out := Fill(src, nonblock, done);
        Interrupts();
        Kick(src, nonblock, done);
        DecideToStay(src, nonblock, done);
        if done == |src| || nonblock {
          return false, done;
        }
        left := AwaitRoom(out, src, nonblock, done, left - 1);
        if left == 0 {
          return true, done;
        }
        Interrupts();
        var inactive := HostInactive(src, nonblock, done);
        if inactive {
          return false, done;
        }
      }
    }

    /**
     altera_avalon_jtag_uart_write.  It accepts a prefix of the first `count` bytes and returns its length,
     or an error if that is 0; a call still waiting for room has published a prefix.
     */
    method Write(ptr: seq<Byte>, count: int, nonblock: bool, patience: nat) returns (waiting: bool, ret: int)
      requires Valid() && Idle() && count <= |ptr|
      modifies txBuf, this`txIn, this`rxIn, this`txOut, this`irqEnable, this`device, this`rxFifo, this`txFifo,
               this`activity, this`hostInactive, this`s, this`events, this`trace, rxBuf
      ensures Valid() && s.x.returned == old(s.x.returned)
      ensures var accepted := if ret > 0 then ret else 0;
              !waiting ==>
                && Idle()
                && accepted <= |ptr| && (accepted > 0 ==> accepted <= count)
                && s.t.accepted == old(s.t.accepted) + ptr[..accepted]
                && (accepted == 0 ==> ret == if nonblock then -EWOULDBLOCK else -EIO)
                && (accepted < count ==> nonblock || s.t.w.sawInactive)
      ensures waiting ==>
                && s.t.w.pc.WSpinOut? && s.t.w.done < count
                && s.t.published == old(s.t.accepted) + ptr[..s.t.w.done]
    {
      var src := if count > 0 then ptr[..count] else [];
      var done: nat;
      StartWrite(src, nonblock);
      waiting, done := WriteAll(src, nonblock, patience);
      assert src[..done] == ptr[..done];
      if waiting {
        WriterNow();
        return true, 0;
      }
      ret := if done > 0 then done else if nonblock then -EWOULDBLOCK else -EIO;
      FinishWrite(src, nonblock, done);
    }

    /** altera_avalon_jtag_uart_close: wait until everything is sent or the host is taken to be gone. */
    method Close(nonblock: bool, patience: nat) returns (waiting: bool, ret: int)
      requires Valid() && Idle()
      modifies this`rxIn, this`txOut, this`irqEnable, this`device, this`rxFifo, this`txFifo,
               this`activity, this`hostInactive, this`s, this`events, this`trace, rxBuf
      ensures Valid() && Idle() && ForegroundStill()
      ensures !waiting && ret == 0 ==> s.t.ring.Bytes() == [] || hostInactive >= timeout
      ensures !waiting && ret == 0 && hostInactive < timeout ==> s.t.accepted == s.t.hostGot + s.t.fifo
      ensures !waiting && ret != 0 ==> ret == -EWOULDBLOCK && nonblock && s.t.ring.Bytes() != []
      ensures waiting ==> !nonblock && s.t.ring.Bytes() != [] && hostInactive < timeout
      ensures nonblock ==> !waiting
    {
      var left: nat := patience + 1;
      while txOut != txIn && hostInactive < timeout
        invariant Valid() && Idle() && ForegroundStill() && (nonblock ==> left > 0)
        decreases left
      {
        assert s.t.ring.Bytes() != [];
        if nonblock {
          return false, -EWOULDBLOCK;
        }
        if left == 0 {
          return true, 0;
        }
        Interrupts();
        left := left - 1;
      }
      Drained();
      return false, 0;
    }

    /** An idle driver with an empty ring has passed everything it accepted to the hardware. */
    lemma Drained()
      requires Valid() && Idle()
      ensures txOut == txIn ==> s.t.ring.Bytes() == [] && s.t.accepted == s.t.hostGot + s.t.fifo
    {
      InvNow();
      assert s.t.published == s.t.accepted;
      if txOut == txIn { assert s.t.published == s.t.sent; }
    }

    // ---- read ----------------------------------------------------------------------------------

    /** A read is at `pc`, its `got` bytes are at the start of the caller's buffer; no write is going on. */
    ghost predicate Reading(pc: ReaderPc, buffer: array<Byte>, space: nat, nonblock: bool, got: nat)
      reads this, buffer
    {
      && s.x.r.pc == pc && s.x.r.space == space && s.x.r.nonblock == nonblock && s.x.r.got == got
      && |s.x.r.buf| <= buffer.Length && s.x.r.buf == buffer[..|s.x.r.buf|]
      && s.isr.IOff? && s.t.w.pc.WIdle?
    }

    /** Between two states the writer has not moved and no call has started or finished. */
    twostate predicate SameCalls()
      reads this
    {
      && s.t.w == old(s.t.w) && s.x.returned == old(s.x.returned) && s.t.accepted == old(s.t.accepted)
      && s.x.r.queued == old(s.x.r.queued)
    }

    /** Between two states the reader has moved within one pass of its outer loop. */
    twostate predicate OnlyReader()
      reads this
    {
      SameCalls() && s.x.r.passes == old(s.x.r.passes)
    }

    ghost method ReaderDecides()
      requires Follows() && s.isr.IOff? && s.t.w.pc.WIdle?
      modifies this`s, this`events, this`trace
      ensures Follows() && s == ReaderStep(old(s))
    {
      Note(ReaderMoves);
    }

    ghost method StartRead(buffer: array<Byte>, space: nat, nonblock: bool)
      requires Valid() && Idle()
      modifies this`s, this`events, this`trace
      ensures Valid() && Reading(RTest, buffer, space, nonblock, 0)
      ensures s.x.r.queued == |old(s.x.ring.Bytes())| && s.x.returned == old(s.x.returned)
      ensures s.t == old(s.t) && s.x.r.passes == 0
    {
      Note(CallRead(space, nonblock));
    }

    /** One iteration of the memcpy. */
    method TakeByte(buffer: array<Byte>, o: nat, n: nat, k: nat, space: nat, nonblock: bool, got: nat)
      requires Valid() && Reading(RCopy(o, n, k), buffer, space, nonblock, got)
      requires k < n && space <= buffer.Length && buffer != rxBuf && buffer != txBuf
      modifies buffer, this`s, this`events, this`trace
      ensures Valid() && Reading(RCopy(o, n, k + 1), buffer, space, nonblock, got) && OnlyReader()
    {
      ReaderNow();
      ghost var before := s.x.r.buf;
      buffer[got + k] := rxBuf[o + k];
      ReaderDecides();
      assert buffer[..got + k + 1] == before + [rxBuf[o + k]];
    }

    /** memcpy(ptr, sp->rx_buf + out, n), interruptible between any two bytes. */
    method CopyOut(buffer: array<Byte>, o: nat, n: nat, space: nat, nonblock: bool, got: nat)
      requires Valid() && Reading(RCopy(o, n, 0), buffer, space, nonblock, got)
      requires space <= buffer.Length && buffer != rxBuf && buffer != txBuf
      modifies buffer, this`rxIn, this`txOut, this`irqEnable, this`device, this`rxFifo, this`txFifo,
               this`activity, this`hostInactive, this`s, this`events, this`trace, rxBuf
      ensures Valid() && Reading(RCopy(o, n, n), buffer, space, nonblock, got) && OnlyReader()
    {
      var k := 0;
      while k < n
        invariant k <= n
        invariant Valid() && Reading(RCopy(o, n, k), buffer, space, nonblock, got) && OnlyReader()
      {
        Interrupts();
        TakeByte(buffer, o, n, k, space, nonblock, got);
        k := k + 1;
      }
      Interrupts();
    }

    method AdvanceRxOut(buffer: array<Byte>, o: nat, n: nat, space: nat, nonblock: bool, got: nat)
      requires Valid() && Reading(RCopy(o, n, n), buffer, space, nonblock, got)
      modifies this`rxOut, this`s, this`events, this`trace
      ensures n > 0 && got + n <= space
      ensures Valid() && OnlyReader()
      ensures Reading(if got + n < space then RSample else RAfter, buffer, space, nonblock, got + n)
    {
      ReaderNow();
      rxOut := Advance(o, n);
      ReaderDecides();
    }

    /** The samples of rx_in and rx_out, and the length of the run to copy; 0 if the ring looks empty. */
    method SampleQueue(buffer: array<Byte>, space: nat, nonblock: bool, got: nat) returns (n: nat, seen: nat)
      requires Valid() && Reading(RSample, buffer, space, nonblock, got)
      modifies this`s, this`events, this`trace
      ensures Valid() && OnlyReader()
      ensures n == 0 ==> Reading(RAfter, buffer, space, nonblock, got) && s.x.r.seen == seen
      ensures n > 0 ==> got + n <= space && Reading(RCopy(rxOut, n, 0), buffer, space, nonblock, got)
    {
      ReaderNow();
      seen := rxIn;
      n := Queued(seen, rxOut, space - got);
      ReaderDecides();
    }

    /** The length of the run from `out` that is filled while `i` is where it was, at most `space`. */
    method Queued(i: nat, out: nat, space: nat) returns (n: nat)
      requires i < LEN && out < LEN
      ensures n == if ReadRoom(out, i) > space then space else ReadRoom(out, i)
      ensures n <= space && out + n <= LEN && n <= Used(out, i)
      ensures space > 0 ==> (n == 0 <==> Used(out, i) == 0)
    {
      ReadRoomIsSafe(out, i);
      if i >= out {
        n := i - out;
      } else {
        n := LEN - out;
      }
      if n > space {
        n := space;
      }
    }

    /** The inner loop: read as much as possible. */
    method Drain(buffer: array<Byte>, space: nat, nonblock: bool, start: nat) returns (got: nat, seen: nat)
      requires Valid() && Reading(RSample, buffer, space, nonblock, start) && start < space
      requires space <= buffer.Length && buffer != rxBuf && buffer != txBuf
      modifies buffer, this`rxOut, this`rxIn, this`txOut, this`irqEnable, this`device, this`rxFifo,
               this`txFifo, this`activity, this`hostInactive, this`s, this`events, this`trace, rxBuf
      ensures Valid() && Reading(RAfter, buffer, space, nonblock, got) && OnlyReader()
      ensures start <= got <= space && (got == start ==> s.x.r.seen == seen)
    {
      got := start;
      while true
        invariant start <= got < space
        invariant Valid() && Reading(RSample, buffer, space, nonblock, got) && OnlyReader()
        decreases space - got
      {
        Interrupts();
        var n;
        n, seen := SampleQueue(buffer, space, nonblock, got);
        if n == 0 {
          return;
        }
        var o := rxOut;
        CopyOut(buffer, o, n, space, nonblock, got);
        AdvanceRxOut(buffer, o, n, space, nonblock, got);
        got := got + n;
        if got == space {
          return;
        }
      }
    }

    method LookForData(buffer: array<Byte>, space: nat, nonblock: bool, seen: nat) returns (arrived: bool)
      requires Valid() && Reading(RSpinIn, buffer, space, nonblock, 0) && s.x.r.seen == seen
      modifies this`s, this`events, this`trace
      ensures Valid() && OnlyReader() && s.x.r.seen == seen
      ensures Reading(if arrived then RCheck else RSpinHost, buffer, space, nonblock, 0)
      ensures arrived <==> s.x.ring.Bytes() != []
    {
      ReaderNow();
      arrived := seen != rxIn;
      ReaderDecides();
    }

    method LookForHost(buffer: array<Byte>, space: nat, nonblock: bool, seen: nat) returns (gone: bool)
      requires Valid() && Reading(RSpinHost, buffer, space, nonblock, 0) && s.x.r.seen == seen
      modifies this`s, this`events, this`trace
      ensures Valid() && OnlyReader() && s.x.r.seen == seen
      ensures Reading(if gone then RCheck else RSpinIn, buffer, space, nonblock, 0)
      ensures gone <==> hostInactive >= timeout
    {
      gone := hostInactive >= timeout;
      ReaderDecides();
    }

    /** Spin until rx_in moves or the host is taken to be gone, for at most `patience` looks. */
    method AwaitData(buffer: array<Byte>, space: nat, nonblock: bool, seen: nat, patience: nat)
      returns (waiting: bool)
      requires Valid() && Reading(RSpinIn, buffer, space, nonblock, 0) && s.x.r.seen == seen
      requires buffer != rxBuf
      modifies this`rxIn, this`txOut, this`irqEnable, this`device, this`rxFifo, this`txFifo,
               this`activity, this`hostInactive, this`s, this`events, this`trace, rxBuf
      ensures Valid() && OnlyReader() && s.x.r.seen == seen
      ensures Reading(if waiting then RSpinIn else RCheck, buffer, space, nonblock, 0)
    {
      var left := patience;
      while left > 0
        invariant s.x.r.seen == seen
        invariant Valid() && Reading(RSpinIn, buffer, space, nonblock, 0) && OnlyReader()
      {
        Interrupts();
        var arrived := LookForData(buffer, space, nonblock, seen);
        if arrived { return false; }
        Interrupts();
        var gone := LookForHost(buffer, space, nonblock, seen);
        if gone { return false; }
        left := left - 1;
      }
      waiting := true;
    }

    /** if (in == sp->rx_in) break; */
    method NothingCame(buffer: array<Byte>, space: nat, nonblock: bool, seen: nat) returns (nothing: bool)
      requires Valid() && Reading(RCheck, buffer, space, nonblock, 0) && s.x.r.seen == seen
      modifies this`s, this`events, this`trace
      ensures Valid() && OnlyReader()
      ensures Reading(if nothing then REnd else RTest, buffer, space, nonblock, 0)
      ensures nothing <==> s.x.ring.Bytes() == []
    {
      ReaderNow();
      nothing := seen == rxIn;
      ReaderDecides();
    }

    ghost method DecideToWait(buffer: array<Byte>, space: nat, nonblock: bool, got: nat, seen: nat)
      requires Valid() && Reading(RAfter, buffer, space, nonblock, got) && (got == 0 ==> s.x.r.seen == seen)
      modifies this`s, this`events, this`trace
      ensures Valid() && OnlyReader()
      ensures if got > 0 || nonblock then Reading(REnd, buffer, space, nonblock, got)
              else Reading(RSpinIn, buffer, space, nonblock, 0) && s.x.r.seen == seen
    {
      ReaderDecides();
    }

    /** while (space > 0), which the step system counts. */
    ghost method NextPass(buffer: array<Byte>, space: nat, nonblock: bool)
      requires Valid() && Reading(RTest, buffer, space, nonblock, 0)
      modifies this`s, this`events, this`trace
      ensures Valid() && SameCalls()
      ensures Reading(if space > 0 then RSample else REnd, buffer, space, nonblock, 0)
      ensures space > 0 ==> s.x.r.passes == old(s.x.r.passes) + 1 <= 2
    {
      ReaderDecides();
      ReaderNow();
    }

    /** Nothing was queued: wait, and look whether something came. */
    method WaitPass(buffer: array<Byte>, space: nat, seen: nat, patience: nat) returns (stop: bool, waiting: bool)
      requires Valid() && Reading(RSpinIn, buffer, space, false, 0) && s.x.r.seen == seen
      requires buffer != rxBuf
      modifies this`rxIn, this`txOut, this`irqEnable, this`device, this`rxFifo, this`txFifo,
               this`activity, this`hostInactive, this`s, this`events, this`trace, rxBuf
      ensures Valid() && OnlyReader() && (waiting ==> stop)
      ensures Reading(if waiting then RSpinIn else if stop then REnd else RTest, buffer, space, false, 0)
    {
      waiting := AwaitData(buffer, space, false, seen, patience);
      if waiting {
        return true, true;
      }
      Interrupts();
      stop := NothingCame(buffer, space, false, seen);
    }

    /** One pass of the outer loop; `stop` if it ends the loop. */
    method ReadPass(buffer: array<Byte>, space: nat, nonblock: bool, patience: nat)
      returns (stop: bool, waiting: bool, got: nat)
      requires Valid() && Reading(RSample, buffer, space, nonblock, 0)
      requires 0 < space <= buffer.Length && buffer != rxBuf && buffer != txBuf
      modifies buffer, this`rxOut, this`rxIn, this`txOut, this`irqEnable, this`device, this`rxFifo,
               this`txFifo, this`activity, this`hostInactive, this`s, this`events, this`trace, rxBuf
      ensures Valid() && OnlyReader() && got <= space && (waiting ==> stop && got == 0)
      ensures Reading(if waiting then RSpinIn else if stop then REnd else RTest, buffer, space, nonblock, got)
      ensures !stop ==> got == 0
    {
      var seen;
      got, seen := Drain(buffer, space, nonblock, 0);
      DecideToWait(buffer, space, nonblock, got, seen);
      if got > 0 || nonblock {
        return true, false, got;
      }
      stop, waiting := WaitPass(buffer, space, seen, patience);
    }

    /** The outer loop of read: two passes at most. */
    method ReadLoop(buffer: array<Byte>, space: nat, nonblock: bool, patience: nat)
      returns (waiting: bool, got: nat)
      requires Valid() && Reading(RTest, buffer, space, nonblock, 0) && s.x.r.passes == 0
      requires space <= buffer.Length && buffer != rxBuf && buffer != txBuf
      modifies buffer, this`rxOut, this`rxIn, this`txOut, this`irqEnable, this`device, this`rxFifo,
               this`txFifo, this`activity, this`hostInactive, this`s, this`events, this`trace, rxBuf
      ensures Valid() && SameCalls() && got <= space
      ensures Reading(if waiting then RSpinIn else REnd, buffer, space, nonblock, got)
      ensures waiting ==> got == 0
    {
      got := 0;
      ghost var passes := 0;
      while space > 0
        invariant Valid() && Reading(RTest, buffer, space, nonblock, 0) && SameCalls() && got == 0
        invariant s.x.r.passes == passes <= 2
        decreases 2 - passes
      {
        NextPass(buffer, space, nonblock);
        passes := passes + 1;
        var stop;
        stop, waiting, got := ReadPass(buffer, space, nonblock, patience);
        if stop {
          return;
        }
      }
      NextPass(buffer, space, nonblock);
      waiting := false;
    }

    /** With interrupts disabled, enable the receive interrupt: there is room now. */
    method Arm(buffer: array<Byte>, space: nat, nonblock: bool, got: nat)
      requires Valid() && Reading(RArm, buffer, space, nonblock, got) && buffer != rxBuf
      modifies this`irqEnable, this`device, this`rxFifo, this`txFifo, this`activity,
               this`s, this`events, this`trace
      ensures Valid() && SameCalls() && device.re && irqEnable == device
      ensures s.x.r.pc.RReturn? && Reading(s.x.r.pc, buffer, space, nonblock, got)
    {
      irqEnable := irqEnable.(re := true);
      ReaderDecides();
      Host();
      ArmStore(buffer, space, nonblock, got);
    }

    method ArmStore(buffer: array<Byte>, space: nat, nonblock: bool, got: nat)
      requires Valid() && Reading(RArmStore, buffer, space, nonblock, got)
      modifies this`device, this`s, this`events, this`trace
      ensures Valid() && SameCalls() && device == irqEnable
      ensures s.x.r.pc.RReturn? && Reading(s.x.r.pc, buffer, space, nonblock, got)
    {
      device := irqEnable;
      ReaderDecides();
    }

    ghost method DecideToArm(buffer: array<Byte>, space: nat, nonblock: bool, got: nat)
      requires Valid() && Reading(REnd, buffer, space, nonblock, got)
      modifies this`s, this`events, this`trace
      ensures Valid() && SameCalls()
      ensures if got > 0 then Reading(RArm, buffer, space, nonblock, got)
              else s.x.r.pc.RReturn? && Reading(s.x.r.pc, buffer, space, nonblock, got)
    {
      ReaderDecides();
    }

    ghost method FinishRead(buffer: array<Byte>, space: nat, nonblock: bool, got: nat)
      requires Valid() && s.x.r.pc.RReturn? && Reading(s.x.r.pc, buffer, space, nonblock, got)
      modifies this`s, this`events, this`trace
      ensures Valid() && Idle() && s.t == old(s.t)
      ensures got <= buffer.Length && s.x.returned == old(s.x.returned) + buffer[..got]
      ensures got == space || old(s.x.r.queued) <= got
      ensures got == 0 && space > 0 ==> nonblock || s.x.r.sawGone
    {
      ReaderNow();
      assert s.x.r.buf[..got] == buffer[..got];
      ReaderDecides();
    }

    /**
     altera_avalon_jtag_uart_read.  It fills the start of the caller's buffer and returns how much, at least
     what was queued at entry or what was asked for; or an error if that is nothing.
     */
    method Read(buffer: array<Byte>, space: int, nonblock: bool, patience: nat) returns (waiting: bool, ret: int)
      requires Valid() && Idle() && space <= buffer.Length && buffer != rxBuf && buffer != txBuf
      modifies buffer, this`rxOut, this`rxIn, this`txOut, this`irqEnable, this`device, this`rxFifo,
               this`txFifo, this`activity, this`hostInactive, this`s, this`events, this`trace, rxBuf
      ensures Valid() && s.t.accepted == old(s.t.accepted)
      ensures var (got, wanted) := (if ret > 0 then ret else 0, if space > 0 then space else 0);
              !waiting ==>
                && Idle()
                && got <= wanted
                && s.x.returned == old(s.x.returned) + buffer[..got]
                && (got == wanted || |old(s.x.ring.Bytes())| <= got)
                && (got == 0 ==> ret == if nonblock then -EWOULDBLOCK else -EIO)
                && (got == 0 && wanted > 0 ==> nonblock || s.x.r.sawGone)
      ensures waiting ==> s.x.r.pc.RSpinIn? && s.x.returned == old(s.x.returned) && old(s.x.ring.Bytes()) == []
    {
      var wanted := if space > 0 then space else 0;
      var got: nat;
      StartRead(buffer, wanted, nonblock);
      waiting, got := ReadLoop(buffer, wanted, nonblock, patience);
      if waiting {
        ReaderNow();
        return true, 0;
      }
      DecideToArm(buffer, wanted, nonblock, got);
      if got > 0 {
        Interrupts();
        Arm(buffer, wanted, nonblock, got);
      }
      ret := if got > 0 then got else if nonblock then -EWOULDBLOCK else -EIO;
      FinishRead(buffer, wanted, nonblock, got);
    }
  }
}
