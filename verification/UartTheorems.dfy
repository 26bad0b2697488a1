/**
 What the driver promises, for every sequence of events since reset: every interleaving of a writer, a
 reader, the interrupt routine, the timeout and the host.
 */
module UartTheorems {
  import opened Platform
  import opened Ring
  import opened UartMachine
  import opened UartInvariant

  function Reached(clock: bool, es: seq<Event>): (s: Sys)
    ensures Shaped(s)
  {
    Run(Boot(clock), es)
  }

  lemma ReachedInv(clock: bool, es: seq<Event>)
    ensures Inv(Reached(clock, es))
  {
    BootInv(clock);
    RunKeeps(Boot(clock), es);
  }

  /** `trace` lists the states that `es` leads through, the first being the state after reset. */
  ghost predicate IsTrace(clock: bool, es: seq<Event>, trace: seq<Sys>) {
    && |trace| == |es| + 1
    && trace[0] == Boot(clock)
    && forall n {:trigger es[n]} :: 0 <= n < |es| ==> Shaped(trace[n]) && trace[n + 1] == Apply(trace[n], es[n])
  }

  lemma {:induction false} TraceIsReached(clock: bool, es: seq<Event>, trace: seq<Sys>)
    requires IsTrace(clock, es, trace)
    ensures trace[|es|] == Reached(clock, es) && Inv(trace[|es|])
  {
    if es != [] {
      var es' := es[..|es| - 1];
      forall n | 0 <= n < |es'|
        ensures Shaped(trace[n]) && trace[n + 1] == Apply(trace[n], es'[n])
      {
        assert es'[n] == es[n];
      }
      TraceIsReached(clock, es', trace[..|es|]);
      assert trace[|es|] == Apply(trace[|es| - 1], es[|es| - 1]);
    }
    ReachedInv(clock, es);
  }

  /** The bytes writers have handed over: all of the finished calls' and the current call's so far. */
  function Written(t: TxSide): seq<Byte>
    requires t.w.done <= |t.w.src|
  {
    t.accepted + if t.w.pc.WIdle? then [] else t.w.src[..t.w.done]
  }

  /** The bytes readers have been given. */
  function ReadSoFar(x: RxSide): seq<Byte>
    requires x.r.got <= |x.r.buf|
  {
    x.returned + if x.r.pc.RIdle? then [] else x.r.buf[..x.r.got]
  }

  /** Nothing written is lost, duplicated or reordered on its way to the host. */
  lemma TxConservation(clock: bool, es: seq<Event>)
    ensures var t := Reached(clock, es).t;
            && t.w.done <= |t.w.src|
            && Written(t) == t.hostGot + t.fifo + t.ring.Bytes()
            && |t.fifo| <= DEPTH
  {
    ReachedInv(clock, es);
  }

  /** Nothing the host sends is lost, duplicated or reordered on its way to the readers. */
  lemma RxConservation(clock: bool, es: seq<Event>)
    ensures var x := Reached(clock, es).x;
            && x.r.got <= |x.r.buf|
            && x.hostSent == ReadSoFar(x) + x.ring.Bytes() + x.fifo
  {
    ReachedInv(clock, es);
    var x := Reached(clock, es).x;
    assert x.hostSent == (x.delivered + x.ring.Bytes()) + x.fifo;
  }

  /**
   However stale the writer's snapshot of tx_out, the byte it stores lands on no byte still to be sent;
   and the interrupt routine's store lands on no byte a reader still has to copy.
   */
  lemma StoresMissLiveBytes(clock: bool, es: seq<Event>)
    ensures var s := Reached(clock, es);
            && (s.t.w.pc.WCopy? && s.t.w.pc.k < s.t.w.pc.n ==>
                  WriterStep(s).t.ring.Bytes() == s.t.ring.Bytes())
            && (s.x.fifo != [] && !RingFull(s.x.ring) ==>
                  Pop(s.x).ring.Bytes() == s.x.ring.Bytes() + [s.x.fifo[0]])
  {
    ReachedInv(clock, es);
    var s := Reached(clock, es);
    if s.t.w.pc.WCopy? && s.t.w.pc.k < s.t.w.pc.n { WCopyPreservesLive(s.t); }
    if s.x.fifo != [] && !RingFull(s.x.ring) { PopAppends(s.x); }
  }

  /**
   No stuck data: bytes in the transmit ring have the transmit interrupt enabled, unless a writer has
   published since its last kick and is on its way to the next.
   */
  lemma NoStuckData(clock: bool, es: seq<Event>)
    ensures var s := Reached(clock, es);
            var pc := s.t.w.pc;
            s.t.ring.Bytes() != [] && !s.shadow.we ==>
              s.t.w.unkicked && (pc.WTest? || pc.WCopy? || pc.WKick?)
  {
    ReachedInv(clock, es);
  }

  /**
   No deaf receiver: the receive interrupt is off only while the ring is full, or while a reader that has
   made room is on its way to turning it on.
   */
  lemma NoDeafReceiver(clock: bool, es: seq<Event>)
    ensures var s := Reached(clock, es);
            !s.shadow.re && |s.x.ring.Bytes()| < CAPACITY ==>
              s.x.r.unarmed && s.x.r.got > 0 && !s.x.r.pc.RIdle? && !s.x.r.pc.RReturn?
  {
    ReachedInv(clock, es);
  }

  /** `irq_enable` is what the hardware has, except between updating it and writing it out. */
  lemma ShadowIsDevice(clock: bool, es: seq<Event>)
    ensures var s := Reached(clock, es);
            s.device == s.shadow || Critical(s) || s.isr.IRxMaskStore? || s.isr.ITxMaskStore?
  {
    ReachedInv(clock, es);
  }

  /**
   What `write` returns: the number of bytes it accepted if any, else the error for its mode; and it stops
   short only when non-blocking, on a full ring, or after finding the host inactive.
   */
  lemma WriteOutcome(clock: bool, es: seq<Event>)
    ensures var t := Reached(clock, es).t;
            t.w.pc.WReturn? ==>
              && t.w.done <= |t.w.src|
              && t.published == t.accepted + t.w.src[..t.w.done]
              && (t.w.done > 0 ==> t.w.pc.result == t.w.done)
              && (t.w.done == 0 ==> t.w.pc.result == if t.w.nonblock then -EWOULDBLOCK else -EIO)
              && (t.w.done < |t.w.src| ==>
                    (t.w.nonblock || t.w.sawInactive) && t.w.out < LEN && Used(t.w.out, t.ring.i) == CAPACITY)
  {
    ReachedInv(clock, es);
  }

  /**
   No lost wakeup: a waiting writer's snapshot of tx_out differs from tx_out exactly when the ring has
   room, so space that appears after the snapshot ends the wait at the next look.
   */
  lemma NoLostWakeup(clock: bool, es: seq<Event>)
    ensures var s := Reached(clock, es);
            s.t.w.pc.WSpinOut? ==>
              (WriterStep(s).t.w.pc.WSpinHost? <==> |s.t.ring.Bytes()| == CAPACITY)
  {
    ReachedInv(clock, es);
    var t := Reached(clock, es).t;
    if t.w.pc.WSpinOut? { UsedIsInjective(t.w.out, t.ring.o, t.ring.i); }
  }

  /** The same for a waiting reader: it keeps waiting exactly while the ring is empty. */
  lemma NoLostArrival(clock: bool, es: seq<Event>)
    ensures var s := Reached(clock, es);
            s.x.r.pc.RSpinIn? ==> (ReaderStep(s).x.r.pc.RSpinHost? <==> s.x.ring.Bytes() == [])
  {
    ReachedInv(clock, es);
  }

  /**
   A blocking write whose host is never found inactive accepts everything: whatever happens from a state
   in which the call starts, if `host_inactive` stays 0 then the call can only return its full count.
   */
  lemma {:induction false} BlockingWriteCompletes(s: Sys, bytes: seq<Byte>, es: seq<Event>)
    requires Inv(s) && Preemptible(s) && s.t.w.pc.WIdle?
    requires forall n :: 0 <= n <= |es| ==> Run(Apply(s, CallWrite(bytes, false)), es[..n]).hostInactive == 0
    requires forall n :: 0 <= n < |es| ==> !es[n].CallWrite?
    ensures var w := Run(Apply(s, CallWrite(bytes, false)), es).t.w;
            && w.src == bytes && !w.nonblock && !w.sawInactive
            && (w.pc.WReturn? ==> w.done == |bytes| && (bytes != [] ==> w.pc.result == |bytes|))
  {
    var s0 := Apply(s, CallWrite(bytes, false));
    ApplyKeeps(s, CallWrite(bytes, false));
    RunKeeps(s0, es);
    if es != [] {
      var es' := es[..|es| - 1];
      forall n | 0 <= n <= |es'| ensures Run(s0, es'[..n]).hostInactive == 0 {
        assert es'[..n] == es[..n];
      }
      BlockingWriteCompletes(s, bytes, es');
      assert Run(s0, es[..|es| - 1]).hostInactive == 0;
      WriterKeepsItsCall(Run(s0, es'), es[|es| - 1]);
    }
  }

  /** No event but a new call changes the writer's arguments, and only an inactive host sets the flag. */
  lemma WriterKeepsItsCall(s: Sys, e: Event)
    requires Shaped(s) && !e.CallWrite?
    ensures var (w, w') := (s.t.w, Apply(s, e).t.w);
            && w'.src == w.src && w'.nonblock == w.nonblock
            && (w'.sawInactive ==> w.sawInactive || s.hostInactive != 0)
  {
    if e.WriterMoves? {
      WriterStepKeepsItsCall(s);
    } else {
      OnlyTheWriterMoves(s, e);
    }
  }

  lemma WriterStepKeepsItsCall(s: Sys)
    requires Shaped(s)
    ensures var (w, w') := (s.t.w, WriterStep(s).t.w);
            && w'.src == w.src && w'.nonblock == w.nonblock
            && (w'.sawInactive ==> w.sawInactive || s.hostInactive != 0)
  {
    if s.t.w.pc.WTest? || s.t.w.pc.WCopy? { CopyKeepsItsCall(s); } else if Spinning(s.t.w.pc) { WaitKeepsItsCall(s); }
  }

  lemma CopyKeepsItsCall(s: Sys)
    requires Shaped(s) && (s.t.w.pc.WTest? || s.t.w.pc.WCopy?)
    ensures var (w, w') := (s.t.w, WriterStep(s).t.w);
            w'.src == w.src && w'.nonblock == w.nonblock && w'.sawInactive == w.sawInactive
  {
  }

  lemma WaitKeepsItsCall(s: Sys)
    requires Shaped(s) && Spinning(s.t.w.pc)
    ensures var (w, w') := (s.t.w, WriterStep(s).t.w);
            && w'.src == w.src && w'.nonblock == w.nonblock
            && (w'.sawInactive ==> w.sawInactive || s.hostInactive != 0)
  {
  }

  lemma OnlyTheWriterMoves(s: Sys, e: Event)
    requires Shaped(s) && !e.CallWrite? && !e.WriterMoves?
    ensures Apply(s, e).t.w == s.t.w
  {
  }

  /**
   What `read` returns: the outer loop runs at most twice; at least min(space, bytes queued at entry)
   bytes come back; nothing only if the call was non-blocking, asked for nothing or found the host gone.
   */
  lemma ReadOutcome(clock: bool, es: seq<Event>)
    ensures var x := Reached(clock, es).x;
            x.r.pc.RReturn? ==>
              && x.r.passes <= 2
              && |x.r.buf| == x.r.got <= x.r.space
              && x.delivered == x.returned + x.r.buf
              && (x.r.got == x.r.space || x.r.queued <= x.r.got)
              && (x.r.got == 0 && x.r.space > 0 ==> x.r.nonblock || x.r.sawGone)
              && (x.r.got > 0 ==> x.r.pc.result == x.r.got)
              && (x.r.got == 0 ==> x.r.pc.result == if x.r.nonblock then -EWOULDBLOCK else -EIO)
  {
    ReachedInv(clock, es);
    var x := Reached(clock, es).x;
    if x.r.pc.RReturn? { assert x.r.buf[..x.r.got] == x.r.buf; }
  }

  /**
   A blocking read waits: from a state in which the call starts, while the host is not taken to be gone, whatever
   happens the call can only return with data.
   */
  lemma {:induction false} BlockingReadReturnsData(s: Sys, space: nat, es: seq<Event>)
    requires Inv(s) && Preemptible(s) && s.x.r.pc.RIdle? && space > 0
    requires forall n :: 0 <= n <= |es| ==>
               var s' := Run(Apply(s, CallRead(space, false)), es[..n]); s'.hostInactive < s'.timeout
    requires forall n :: 0 <= n < |es| ==> !es[n].CallRead?
    ensures var r := Run(Apply(s, CallRead(space, false)), es).x.r;
            && r.space == space && !r.nonblock && !r.sawGone
            && (r.pc.RReturn? ==> r.got > 0 && r.pc.result == r.got)
  {
    var s0 := Apply(s, CallRead(space, false));
    ApplyKeeps(s, CallRead(space, false));
    RunKeeps(s0, es);
    if es != [] {
      var before := es[..|es| - 1];
      forall n | 0 <= n <= |before|
        ensures var s' := Run(s0, before[..n]); s'.hostInactive < s'.timeout
      {
        assert before[..n] == es[..n];
      }
      BlockingReadReturnsData(s, space, before);
      assert Run(s0, es[..|before|]).hostInactive < Run(s0, es[..|before|]).timeout && es[..|before|] == before;
      ReaderKeepsItsCall(Run(s0, before), es[|es| - 1]);
    }
  }

  /** No event but a new call changes the reader's arguments, and only a host that is gone sets the flag. */
  lemma ReaderKeepsItsCall(s: Sys, e: Event)
    requires Shaped(s) && !e.CallRead?
    ensures var (r, r') := (s.x.r, Apply(s, e).x.r);
            && r'.space == r.space && r'.nonblock == r.nonblock
            && (r'.sawGone ==> r.sawGone || s.hostInactive >= s.timeout)
  {
    if e.ReaderMoves? {
      ReaderStepKeepsItsCall(s);
    } else {
      OnlyTheReaderMoves(s, e);
    }
  }

  lemma ReaderStepKeepsItsCall(s: Sys)
    requires Shaped(s)
    ensures var (r, r') := (s.x.r, ReaderStep(s).x.r);
            && r'.space == r.space && r'.nonblock == r.nonblock
            && (r'.sawGone ==> r.sawGone || s.hostInactive >= s.timeout)
  {
    if s.x.r.pc.RSample? {
      SampleKeepsItsCall(s.x);
    } else if s.x.r.pc.RCopy? {
      TakeKeepsItsCall(s.x);
    } else {
      PlainStepKeepsItsCall(s);
      if s.x.r.pc.RSpinHost? { LookKeepsItsCall(s); }
    }
  }

  lemma LookKeepsItsCall(s: Sys)
    requires Shaped(s) && s.x.r.pc.RSpinHost?
    ensures ReaderStep(s).x.r.sawGone ==> s.x.r.sawGone || s.hostInactive >= s.timeout
  {
  }

  lemma PlainStepKeepsItsCall(s: Sys)
    requires Shaped(s) && !s.x.r.pc.RSample? && !s.x.r.pc.RCopy?
    ensures var (r, r') := (s.x.r, ReaderStep(s).x.r);
            r'.space == r.space && r'.nonblock == r.nonblock && (s.x.r.pc.RSpinHost? || r'.sawGone == r.sawGone)
  {
  }

  lemma SampleKeepsItsCall(x: RxSide)
    requires x.ring.Shaped()
    ensures var (r, r') := (x.r, RSampleStep(x).r);
            r'.space == r.space && r'.nonblock == r.nonblock && r'.sawGone == r.sawGone
  {
  }

  lemma TakeKeepsItsCall(x: RxSide)
    requires x.ring.Shaped() && x.r.pc.RCopy?
    ensures var (r, r') := (x.r, RCopyStep(x).r);
            r'.space == r.space && r'.nonblock == r.nonblock && r'.sawGone == r.sawGone
  {
  }

  lemma OnlyTheReaderMoves(s: Sys, e: Event)
    requires Shaped(s) && !e.CallRead? && !e.ReaderMoves?
    ensures Apply(s, e).x.r == s.x.r
  {
  }

  /**
   Host presence: `host_inactive` stops below INT_MAX - 1 and a timeout is never below 2.  Without a
   clock the timeout is INT_MAX for ever, and a timeout of INT_MAX or INT_MAX - 1 never expires.
   */
  lemma {:induction false} HostPresence(clock: bool, es: seq<Event>)
    ensures var s := Reached(clock, es);
            && 0 <= s.hostInactive <= INT_MAX - 2
            && 2 <= s.timeout <= INT_MAX
            && (s.timeout == INT_MAX <==> !clock)
            && (s.timeout >= INT_MAX - 1 ==> s.hostInactive < s.timeout)
  {
    ReachedInv(clock, es);
    if es != [] {
      HostPresence(clock, es[..|es| - 1]);
      TimeoutOnlyByRequest(Reached(clock, es[..|es| - 1]), es[|es| - 1]);
    }
  }

  lemma TimeoutOnlyByRequest(s: Sys, e: Event)
    requires Shaped(s)
    ensures var s' := Apply(s, e);
            s'.timeout == s.timeout || (s.timeout != INT_MAX && 2 <= s'.timeout < INT_MAX)
  {
  }

  /** How many silent seconds the alarm has counted in a run. */
  function Seconds(s: Sys, es: seq<Event>): nat
    requires Shaped(s)
  {
    if es == [] then 0 else
    var (before, e) := (es[..|es| - 1], es[|es| - 1]);
    Seconds(s, before) + if e.TimeoutTick? && Preemptible(Run(s, before)) then 1 else 0
  }

  /**
   The host polls and is then silent: the next alarm notes the poll, and each one after it counts one second more,
   up to INT_MAX - 2, whatever else happens.
   */
  lemma {:induction false} SilenceIsCounted(s: Sys, es: seq<Event>)
    requires Inv(s) && s.activity
    requires forall n :: 0 <= n < |es| ==> !es[n].HostPoll?
    ensures var (s', n) := (Run(s, es), Seconds(s, es));
            && s'.activity == (n == 0)
            && s'.hostInactive == if n == 0 then s.hostInactive else if n - 1 <= INT_MAX - 2 then n - 1 else INT_MAX - 2
  {
    if es != [] {
      var (before, e) := (es[..|es| - 1], es[|es| - 1]);
      SilenceIsCounted(s, before);
      if e.TimeoutTick? { AlarmCounts(Run(s, before)); } else { OnlyAlarmsCount(Run(s, before), e); }
    }
  }

  lemma AlarmCounts(s: Sys)
    requires Shaped(s)
    ensures var s' := Apply(s, TimeoutTick);
            if !Preemptible(s) then s' == s
            else !s'.activity && s'.hostInactive == if s.activity then 0
                                                    else if s.hostInactive < INT_MAX - 2 then s.hostInactive + 1
                                                    else s.hostInactive
  {
  }

  lemma OnlyAlarmsCount(s: Sys, e: Event)
    requires Shaped(s) && !e.TimeoutTick? && !e.HostPoll?
    ensures var s' := Apply(s, e); s'.activity == s.activity && s'.hostInactive == s.hostInactive
  {
  }

  // ---- the interrupt routine ends ---------------------------------------------------------------

  /** What a round of the interrupt routine can still consume. */
  function Fuel(s: Sys): nat
    requires Shaped(s)
  {
    CAPACITY - Used(s.x.ring.o, s.x.ring.i) + (if s.shadow.re then 1 else 0)
    + Used(s.t.ring.o, s.t.ring.i) + (if s.shadow.we then 1 else 0)
  }

  function Rank(isr: IsrPc): nat {
    match isr
    case IOff => 0
    case ITop => 10
    case IRx(_, _, _, progress) => if progress then 28 else 9
    case IRxMask(_, _) => 8
    case IRxMaskStore(_, _) => 27
    case ITx(_, progress) => if progress then 26 else 7
    case ITxMask => 6
    case ITxMaskStore => 25
  }

  function IsrMeasure(s: Sys): nat
    requires Shaped(s)
  {
    20 * Fuel(s) + Rank(s.isr)
  }

  /** A step of the receive half: either it takes fuel, or it comes closer to the transmit half. */
  lemma ReceiveDecreases(s: Sys, ri: bool, wi: bool)
    requires Shaped(s) && IsrRxInv(s) && s.isr.IRx?
    ensures IsrMeasure(IsrMoves(s, ri, wi)) < IsrMeasure(s)
  {
    if !RingFull(s.x.ring) && s.x.fifo != [] {
      PopTakesFuel(s.x);
    }
  }

  lemma PopTakesFuel(x: RxSide)
    requires x.ring.Shaped() && x.fifo != [] && !RingFull(x.ring)
    ensures Used(Pop(x).ring.o, Pop(x).ring.i) == Used(x.ring.o, x.ring.i) + 1
  {
  }

  lemma MaskDecreases(s: Sys, ri: bool, wi: bool)
    requires Shaped(s) && IsrRxInv(s) && (s.isr.IRxMask? || s.isr.IRxMaskStore?)
    ensures IsrMeasure(IsrMoves(s, ri, wi)) < IsrMeasure(s)
  {
  }

  lemma TransmitDecreases(s: Sys, ri: bool, wi: bool)
    requires Shaped(s) && IsrTxInv(s) && (s.isr.ITop? || s.isr.ITx? || s.isr.ITxMask? || s.isr.ITxMaskStore?)
    ensures IsrMeasure(IsrMoves(s, ri, wi)) < IsrMeasure(s)
  {
  }

  lemma IsrStepDecreases(s: Sys, ri: bool, wi: bool)
    requires Inv(s) && !s.isr.IOff?
    ensures IsrMeasure(IsrMoves(s, ri, wi)) < IsrMeasure(s)
  {
    if s.isr.IRx? {
      ReceiveDecreases(s, ri, wi);
    } else if s.isr.IRxMask? || s.isr.IRxMaskStore? {
      MaskDecreases(s, ri, wi);
    } else {
      TransmitDecreases(s, ri, wi);
    }
  }

  function IsrSteps(es: seq<Event>): nat {
    if es == [] then 0
    else IsrSteps(es[..|es| - 1]) + if es[|es| - 1].IsrStep? then 1 else 0
  }

  /**
   The interrupt routine ends, however the host keeps sending and draining: while it is running, the
   number of its steps is bounded by the state it started from.
   */
  lemma {:induction false} IsrTerminates(s: Sys, es: seq<Event>)
    requires Inv(s)
    requires forall n :: 0 <= n < |es| ==> !Run(s, es[..n]).isr.IOff?
    ensures IsrSteps(es) + IsrMeasure(Run(s, es)) <= IsrMeasure(s)
    ensures IsrSteps(es) <= 20 * (2 * LEN) + 28
  {
    FuelIsBounded(s);
    if es != [] {
      var (es', e) := (es[..|es| - 1], es[|es| - 1]);
      forall n | 0 <= n < |es'| ensures !Run(s, es'[..n]).isr.IOff? {
        assert es'[..n] == es[..n];
      }
      IsrTerminates(s, es');
      RunKeeps(s, es');
      var s' := Run(s, es');
      assert !Run(s, es[..|es| - 1]).isr.IOff?;
      if e.IsrStep? {
        IsrStepDecreases(s', e.ri, e.wi);
      } else {
        OthersWait(s', e);
      }
    }
  }

  lemma FuelIsBounded(s: Sys)
    requires Shaped(s)
    ensures IsrMeasure(s) <= 20 * (2 * LEN) + 28
  {
  }

  /** While the interrupt routine runs only the host acts, and it cannot give the routine more to do. */
  lemma OthersWait(s: Sys, e: Event)
    requires Shaped(s) && !s.isr.IOff? && !e.IsrStep?
    ensures IsrMeasure(Apply(s, e)) == IsrMeasure(s)
  {
  }

  // ---- two byte queues --------------------------------------------------------------------------

  /** The specification: two bounded queues, with everything that entered and left them. */
  datatype Queues = Queues(
    written: seq<Byte>, tx: seq<Byte>, sent: seq<Byte>,
    received: seq<Byte>, rx: seq<Byte>, read: seq<Byte>)

  datatype Action = Nothing | Write(bytes: seq<Byte>) | Transmit(b: Byte) | Receive(b: Byte) | Read(bytes: seq<Byte>)

  /** What the queues allow: writing and receiving up to the capacity, reading and transmitting from the front. */
  predicate Allowed(q: Queues, a: Action) {
    match a
    case Nothing => true
    case Write(bytes) => |q.tx| + |bytes| <= CAPACITY
    case Transmit(b) => q.tx != [] && q.tx[0] == b
    case Receive(_) => |q.rx| < CAPACITY
    case Read(bytes) => bytes <= q.rx
  }

  function Act(q: Queues, a: Action): Queues
    requires Allowed(q, a)
  {
    match a
    case Nothing => q
    case Write(bytes) => q.(written := q.written + bytes, tx := q.tx + bytes)
    case Transmit(b) => q.(tx := q.tx[1..], sent := q.sent + [b])
    case Receive(b) => q.(received := q.received + [b], rx := q.rx + [b])
    case Read(bytes) => q.(rx := q.rx[|bytes|..], read := q.read + bytes)
  }

  /** What enters a queue leaves it in order. */
  predicate InOrder(q: Queues) {
    q.written == q.sent + q.tx && q.received == q.read + q.rx
  }

  lemma QueuesKeepOrder(q: Queues, a: Action)
    requires InOrder(q) && Allowed(q, a)
    ensures InOrder(Act(q, a))
  {
    match a
    case Write(bytes) => assert q.sent + (q.tx + bytes) == (q.sent + q.tx) + bytes;
    case Transmit(b) => assert q.tx == [b] + q.tx[1..];
    case Receive(b) => assert q.read + (q.rx + [b]) == (q.read + q.rx) + [b];
    case Read(bytes) => assert q.rx == bytes + q.rx[|bytes|..];
    case Nothing =>
  }

  function Abstract(s: Sys): Queues
    requires Shaped(s)
  {
    Queues(s.t.published, s.t.ring.Bytes(), s.t.sent, s.x.popped, s.x.ring.Bytes(), s.x.delivered)
  }

  /** The writer publishes a run of its caller's bytes; every other step of it does nothing to the queues. */
  function WriterAction(t: TxSide): Action {
    if t.w.pc.WCopy? && t.w.pc.k >= t.w.pc.n && t.w.done + t.w.pc.n <= |t.w.src|
    then Write(t.w.src[t.w.done..t.w.done + t.w.pc.n])
    else Nothing
  }

  /** The reader releases what it has put at the end of its caller's buffer. */
  function ReaderAction(x: RxSide): Action {
    if x.r.pc.RCopy? && x.r.pc.k >= x.r.pc.n && x.r.got + x.r.pc.n <= |x.r.buf|
    then Read(x.r.buf[x.r.got..x.r.got + x.r.pc.n])
    else Nothing
  }

  /** The interrupt routine takes a byte from the receive FIFO, or puts one into the transmit FIFO. */
  function IsrAction(s: Sys): Action
    requires Shaped(s)
  {
    if s.isr.IRx? && !RingFull(s.x.ring) && s.x.fifo != [] then Receive(s.x.fifo[0])
    else if s.isr.ITx? && s.isr.space > 0 && s.t.ring.o != s.t.ring.i then Transmit(s.t.ring.buf[s.t.ring.o])
    else Nothing
  }

  function ActionOf(s: Sys, e: Event): Action
    requires Shaped(s)
  {
    match e
    case WriterMoves => if s.isr.IOff? && !s.x.r.pc.RArmStore? then WriterAction(s.t) else Nothing
    case ReaderMoves => if s.isr.IOff? && !s.t.w.pc.WKickStore? then ReaderAction(s.x) else Nothing
    case IsrStep(_, _) => IsrAction(s)
    case _ => Nothing
  }

  /** Every event of the driver is the one step of the two queues that its bytes say, or none. */
  lemma RefinesTwoQueues(s: Sys, e: Event)
    requires Inv(s)
    ensures Allowed(Abstract(s), ActionOf(s, e))
    ensures Abstract(Apply(s, e)) == Act(Abstract(s), ActionOf(s, e))
  {
    match e
    case WriterMoves =>
      if s.isr.IOff? && !s.x.r.pc.RArmStore? { WriterRefines(s); }
    case ReaderMoves =>
      if s.isr.IOff? && !s.t.w.pc.WKickStore? { ReaderRefines(s); }
    case IsrStep(ri, wi) => IsrRefines(s, ri, wi);
    case _ => assert Abstract(Apply(s, e)) == Abstract(s);
  }

  /** Only publishing moves the writer's end of the ring. */
  lemma WriterLeavesQueues(s: Sys)
    requires Shaped(s) && !s.t.w.pc.WCopy?
    ensures var s' := WriterStep(s);
            s'.t.ring == s.t.ring && s'.t.sent == s.t.sent && s'.t.published == s.t.published && s'.x == s.x
  {
  }

  lemma WriterRefines(s: Sys)
    requires Inv(s)
    ensures Allowed(Abstract(s), WriterAction(s.t))
    ensures Abstract(WriterStep(s)) == Act(Abstract(s), WriterAction(s.t))
  {
    var t := s.t;
    if !t.w.pc.WCopy? {
      WriterLeavesQueues(s);
    } else if t.w.pc.k < t.w.pc.n {
      WCopyPreservesLive(t);
      assert Abstract(WriterStep(s)) == Abstract(s);
    } else {
      PublishIsEnqueue(t);
      assert WriterStep(s).x == s.x;
    }
  }

  lemma PublishIsEnqueue(t: TxSide)
    requires t.ring.Shaped() && t.w.pc.WCopy? && t.w.pc.k == t.w.pc.n && WCopyInv(t.ring, t.w)
    ensures var (bytes, t') := (t.w.src[t.w.done..t.w.done + t.w.pc.n], WCopyStep(t));
            && |t.ring.Bytes()| + |bytes| <= CAPACITY && t'.ring.Bytes() == t.ring.Bytes() + bytes
            && t'.published == t.published + bytes && t'.sent == t.sent
  {
    Publish(t.ring.buf, t.ring.o, t.w.pc.i, t.w.pc.n);
  }

  /** Only releasing moves the reader's end of the ring. */
  lemma ReaderLeavesQueues(s: Sys)
    requires Shaped(s) && !(s.x.r.pc.RCopy? && s.x.r.pc.k >= s.x.r.pc.n)
    ensures var s' := ReaderStep(s);
            s'.x.ring == s.x.ring && s'.x.delivered == s.x.delivered && s'.x.popped == s.x.popped && s'.t == s.t
  {
  }

  lemma ReaderRefines(s: Sys)
    requires Inv(s)
    ensures Allowed(Abstract(s), ReaderAction(s.x))
    ensures Abstract(ReaderStep(s)) == Act(Abstract(s), ReaderAction(s.x))
  {
    var x := s.x;
    if x.r.pc.RCopy? && x.r.pc.k == x.r.pc.n {
      ReleaseIsDequeue(x);
      assert ReaderStep(s).t == s.t;
    } else {
      ReaderLeavesQueues(s);
    }
  }

  lemma ReleaseIsDequeue(x: RxSide)
    requires x.ring.Shaped() && x.r.pc.RCopy? && x.r.pc.k == x.r.pc.n && RCopyInv(x.ring, x.r)
    ensures var (bytes, x') := (x.r.buf[x.r.got..x.r.got + x.r.pc.n], RCopyStep(x));
            && bytes <= x.ring.Bytes() && x'.ring.Bytes() == x.ring.Bytes()[|bytes|..]
            && x'.delivered == x.delivered + bytes && x'.popped == x.popped
  {
    Consume(x.ring.buf, x.ring.o, x.ring.i, x.r.pc.n);
    assert x.r.buf[x.r.got..x.r.got + x.r.pc.n] == x.r.buf[x.r.got..];
  }

  lemma IsrRefines(s: Sys, ri: bool, wi: bool)
    requires Inv(s)
    ensures Allowed(Abstract(s), IsrAction(s))
    ensures Abstract(IsrMoves(s, ri, wi)) == Act(Abstract(s), IsrAction(s))
  {
    var (q, q') := (Abstract(s), Abstract(IsrMoves(s, ri, wi)));
    if s.isr.IRx? && !RingFull(s.x.ring) && s.x.fifo != [] {
      PopAppends(s.x);
      PopTakesFuel(s.x);
    } else if s.isr.ITx? && s.isr.space > 0 && s.t.ring.o != s.t.ring.i {
      Consume(s.t.ring.buf, s.t.ring.o, s.t.ring.i, 1);
      assert q.tx[0] == s.t.ring.buf[s.t.ring.o];
      assert q'.tx == q.tx[1..];
    } else {
      assert q' == q;
    }
  }

  /** So at every reachable state what was written and received is in the order of the queues. */
  lemma QueuesInOrder(clock: bool, es: seq<Event>)
    ensures InOrder(Abstract(Reached(clock, es)))
  {
    ReachedInv(clock, es);
  }
}
