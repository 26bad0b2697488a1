/**
 The interrupt-driven JTAG UART driver as a step system.

 One foreground writer, one foreground reader, the interrupt routine, the once-a-second timeout, the
 hardware FIFOs and a host take turns.  A foreground step touches at most one shared location; one byte
 of a `memcpy` is one step.  The interrupt routine runs to completion before the foreground continues,
 but the host may act between any two of its register accesses.  A critical section (interrupts disabled)
 is two steps, the shadow update and the register write, that only the host can separate.
 */
module UartMachine {
  import opened Platform
  import opened Ring

  const DEPTH: nat := 64                  // hardware transmit FIFO
  const DEFAULT_TIMEOUT: int := 10

  /** The RE and WE bits, as kept in `irq_enable` and in the device's control register. */
  datatype Enables = Enables(re: bool, we: bool)

  datatype WriterPc =
    | WIdle
    | WTest                               // while (count > 0): sample in, out; compute n
    | WCopy(i: nat, n: nat, k: nat)       // memcpy, k of n bytes done
    | WKick                               // interrupts off, set WE in the shadow
    | WKickStore                          // write the shadow to the device, interrupts on
    | WAfter                              // if (count > 0): non-blocking?
    | WSpinOut | WSpinHost                // wait for tx_out to move or the host to go
    | WCheck                              // if (host_inactive) break
    | WReturn(result: int)

  /**
   `done` is ptr - start and `out` the last snapshot of tx_out.  `unkicked` (something was published
   since the last kick) and `sawInactive` (the call gave up on the host) are history.
   */
  datatype Writer = Writer(
    pc: WriterPc, src: seq<Byte>, nonblock: bool, done: nat, out: nat,
    unkicked: bool, sawInactive: bool)

  datatype ReaderPc =
    | RIdle
    | RTest                               // while (space > 0)
    | RSample                             // sample in, out; compute n
    | RCopy(o: nat, n: nat, k: nat)       // memcpy, k of n bytes done
    | RAfter                              // data read, or non-blocking?
    | RSpinIn | RSpinHost                 // wait for rx_in to move or the host to go
    | RCheck                              // if (in == sp->rx_in) break
    | REnd
    | RArm | RArmStore                    // critical section: set RE again
    | RReturn(result: int)

  /**
   `buf` is what the caller's buffer holds, `got` is ptr - buffer and `seen` the last snapshot of rx_in.
   History: `passes` counts iterations of the outer loop, `queued` is the ring's content at entry,
   `unarmed` says rx_out moved since RE was last set, `sawGone` that the call found the host gone.
   */
  datatype Reader = Reader(
    pc: ReaderPc, space: nat, nonblock: bool, buf: seq<Byte>, got: nat, seen: nat,
    passes: nat, queued: nat, unarmed: bool, sawGone: bool)

  /** `progress` is history: this round of the outer loop has consumed something. */
  datatype IsrPc =
    | IOff
    | ITop                                                       // read the control register
    | IRx(avail: bool, wi: bool, space: nat, progress: bool)     // receive loop
    | IRxMask(wi: bool, space: nat)                              // clear RE in the shadow
    | IRxMaskStore(wi: bool, space: nat)
    | ITx(space: nat, progress: bool)                            // transmit loop
    | ITxMask                                                    // clear WE in the shadow
    | ITxMaskStore

  /**
   The transmit half: ring, hardware FIFO, writer.  Histories: bytes accepted by finished calls, bytes
   that crossed tx_in, the data register, the cable.
   */
  datatype TxSide = TxSide(
    ring: Channel, fifo: seq<Byte>, w: Writer,
    accepted: seq<Byte>, published: seq<Byte>, sent: seq<Byte>, hostGot: seq<Byte>)

  /**
   The receive half.  Histories: bytes that crossed the cable, the data register, rx_out, and bytes
   returned by finished calls.
   */
  datatype RxSide = RxSide(
    ring: Channel, fifo: seq<Byte>, r: Reader,
    hostSent: seq<Byte>, popped: seq<Byte>, delivered: seq<Byte>, returned: seq<Byte>)

  /** `shadow` is `irq_enable`, `device` the enable bits the hardware has, `activity` its AC bit. */
  datatype Sys = Sys(
    t: TxSide, x: RxSide, shadow: Enables, device: Enables, activity: bool,
    hostInactive: int, timeout: int, isr: IsrPc)

  datatype Event =
    | HostSend(b: Byte)
    | HostTake
    | HostPoll
    | Interrupt
    | IsrStep(ri: bool, wi: bool)         // the hints count only when the control register is read
    | TimeoutTick
    | SetTimeout(value: int)
    | CallWrite(bytes: seq<Byte>, nonblock: bool)
    | WriterMoves
    | CallRead(space: nat, nonblock: bool)
    | ReaderMoves

  function Boot(clock: bool): Sys {
    var empty := Channel(seq(LEN, _ => 0), 0, 0);
    Sys(TxSide(empty, [], Writer(WIdle, [], false, 0, 0, false, false), [], [], [], []),
        RxSide(empty, [], Reader(RIdle, 0, false, [], 0, 0, 0, 0, false, false), [], [], [], []),
        Enables(true, false), Enables(true, false), false,
        0, if clock then DEFAULT_TIMEOUT else INT_MAX, IOff)
  }

  /** A foreground thread has interrupts disabled. */
  predicate Critical(s: Sys) {
    s.t.w.pc.WKickStore? || s.x.r.pc.RArmStore?
  }

  /** Interrupts can be taken, and foreground code outside a critical section can run. */
  predicate Preemptible(s: Sys) {
    s.isr.IOff? && !Critical(s)
  }

  predicate Shaped(s: Sys) {
    s.t.ring.Shaped() && s.x.ring.Shaped()
  }

  // ---- the foreground writer -------------------------------------------------------------------

  function WriteResult(w: Writer): int {
    if w.done > 0 then w.done else if w.nonblock then -EWOULDBLOCK else -EIO
  }

  /** while (count > 0): look at the ring and choose a run, or leave for the kick. */
  function WSample(t: TxSide): TxSide
    requires t.ring.Shaped()
  {
    var w := t.w;
    if w.done >= |w.src| then t.(w := w.(pc := WKick)) else
    var room := WriteRoom(t.ring.o, t.ring.i);
    if room == 0 then t.(w := w.(pc := WKick, out := t.ring.o)) else
    var n := if room > |w.src| - w.done then |w.src| - w.done else room;
    t.(w := w.(pc := WCopy(t.ring.i, n, 0), out := t.ring.o))
  }

  /** One byte of the memcpy; after the last one, advance ptr, count and tx_in. */
  function WCopyStep(t: TxSide): (t': TxSide)
    requires t.ring.Shaped() && t.w.pc.WCopy?
    ensures t'.ring.Shaped()
  {
    var w := t.w;
    var WCopy(i, n, k) := w.pc;
    if k < n then
      if i + k < LEN && w.done + k < |w.src| then
        t.(ring := t.ring.(buf := t.ring.buf[i + k := w.src[w.done + k]]), w := w.(pc := WCopy(i, n, k + 1)))
      else t
    else if w.done + n <= |w.src| then
      t.(ring := t.ring.(i := Advance(i, n)),
         w := w.(pc := WTest, done := w.done + n, unkicked := true),
         published := t.published + w.src[w.done..w.done + n])
    else t
  }

  function WriterStep(s: Sys): (s': Sys)
    requires Shaped(s)
    ensures Shaped(s')
  {
    var (t, w) := (s.t, s.t.w);
    match w.pc
    case WIdle => s
    case WTest => s.(t := WSample(t))
    case WCopy(_, _, _) => s.(t := WCopyStep(t))
    case WKick => s.(shadow := s.shadow.(we := true), t := t.(w := w.(pc := WKickStore)))
    case WKickStore => s.(device := s.shadow, t := t.(w := w.(pc := WAfter, unkicked := false)))
    case WAfter =>
      if w.done < |w.src| && !w.nonblock then s.(t := t.(w := w.(pc := WSpinOut)))
      else s.(t := t.(w := w.(pc := WReturn(WriteResult(w)))))
    case WSpinOut => s.(t := t.(w := w.(pc := if w.out == t.ring.o then WSpinHost else WCheck)))
    case WSpinHost => s.(t := t.(w := w.(pc := if s.hostInactive < s.timeout then WSpinOut else WCheck)))
    case WCheck =>
      if s.hostInactive != 0
      then s.(t := t.(w := w.(pc := WReturn(WriteResult(w)), sawInactive := true)))
      else s.(t := t.(w := w.(pc := WTest)))
    case WReturn(_) =>
      if w.done <= |w.src|
      then s.(t := t.(w := w.(pc := WIdle), accepted := t.accepted + w.src[..w.done]))
      else s
  }

  // ---- the foreground reader -------------------------------------------------------------------

  function ReadResult(r: Reader): int {
    if r.got > 0 then r.got else if r.nonblock then -EWOULDBLOCK else -EIO
  }

  /** Look at the ring and choose a run, or find nothing more. */
  function RSampleStep(x: RxSide): RxSide
    requires x.ring.Shaped()
  {
    var r := x.r;
    var room := ReadRoom(x.ring.o, x.ring.i);
    if room == 0 then x.(r := r.(pc := RAfter, seen := x.ring.i)) else
    var n := if room > r.space - r.got then r.space - r.got else room;
    if n < 0 then x else x.(r := r.(pc := RCopy(x.ring.o, n, 0), seen := x.ring.i))
  }

  /** One byte of the memcpy; after the last one, advance ptr, space and rx_out. */
  function RCopyStep(x: RxSide): (x': RxSide)
    requires x.ring.Shaped() && x.r.pc.RCopy?
    ensures x'.ring.Shaped()
  {
    var r := x.r;
    var RCopy(o, n, k) := r.pc;
    if k < n then
      if o + k < LEN
      then x.(r := r.(pc := RCopy(o, n, k + 1), buf := r.buf + [x.ring.buf[o + k]]))
      else x
    else if r.got + n <= |r.buf| then
      x.(ring := x.ring.(o := Advance(o, n)),
         r := r.(pc := if r.space > r.got + n then RSample else RAfter, got := r.got + n, unarmed := true),
         delivered := x.delivered + r.buf[r.got..r.got + n])
    else x
  }

  function ReaderStep(s: Sys): (s': Sys)
    requires Shaped(s)
    ensures Shaped(s')
  {
    var (x, r) := (s.x, s.x.r);
    match r.pc
    case RIdle => s
    case RTest =>
      if r.space > r.got then s.(x := x.(r := r.(pc := RSample, passes := r.passes + 1)))
      else s.(x := x.(r := r.(pc := REnd)))
    case RSample => s.(x := RSampleStep(x))
    case RCopy(_, _, _) => s.(x := RCopyStep(x))
    case RAfter => s.(x := x.(r := r.(pc := if r.got > 0 || r.nonblock then REnd else RSpinIn)))
    case RSpinIn => s.(x := x.(r := r.(pc := if r.seen == x.ring.i then RSpinHost else RCheck)))
    case RSpinHost =>
      if s.hostInactive < s.timeout then s.(x := x.(r := r.(pc := RSpinIn)))
      else s.(x := x.(r := r.(pc := RCheck, sawGone := true)))
    case RCheck => s.(x := x.(r := r.(pc := if r.seen == x.ring.i then REnd else RTest)))
    case REnd => s.(x := x.(r := r.(pc := if r.got > 0 then RArm else RReturn(ReadResult(r)))))
    case RArm => s.(shadow := s.shadow.(re := true), x := x.(r := r.(pc := RArmStore)))
    case RArmStore =>
      s.(device := s.shadow, x := x.(r := r.(pc := RReturn(ReadResult(r)), unarmed := false)))
    case RReturn(_) =>
      if r.got <= |r.buf|
      then s.(x := x.(r := r.(pc := RIdle), returned := x.returned + r.buf[..r.got]))
      else s
  }

  // ---- the interrupt routine -------------------------------------------------------------------

  /** A byte from the hardware receive FIFO into the ring. */
  function Pop(x: RxSide): (x': RxSide)
    requires x.ring.Shaped() && x.fifo != []
    ensures x'.ring.Shaped()
  {
    var b := x.fifo[0];
    x.(ring := Channel(x.ring.buf[x.ring.i := b], Next(x.ring.i), x.ring.o),
       fifo := x.fifo[1..], popped := x.popped + [b])
  }

  /** A byte from the ring into the hardware transmit FIFO. */
  function Put(t: TxSide): (t': TxSide)
    requires t.ring.Shaped()
    ensures t'.ring.Shaped()
  {
    var b := t.ring.buf[t.ring.o];
    t.(ring := t.ring.(o := Next(t.ring.o)), fifo := t.fifo + [b], sent := t.sent + [b])
  }

  predicate RingFull(c: Channel) {
    Next(c.i) == c.o
  }

  /** After the receive half: the transmit half, or the next round. */
  function IsrTransmit(wi: bool, space: nat, progress: bool): IsrPc {
    if wi then ITx(space, progress) else ITop
  }

  /** Reading the control register: RI needs RE and data, WI needs WE and space; WSPACE is exact. */
  function IsrDispatch(s: Sys, ri: bool, wi: bool): IsrPc {
    var ri' := ri && s.device.re && s.x.fifo != [];
    var wi' := wi && s.device.we && |s.t.fifo| < DEPTH;
    var space := if |s.t.fifo| < DEPTH then DEPTH - |s.t.fifo| else 0;
    if ri' then IRx(true, wi', space, false)
    else if wi' then ITx(space, false)
    else IOff
  }

  function IsrMoves(s: Sys, ri: bool, wi: bool): (s': Sys)
    requires Shaped(s)
    ensures Shaped(s')
  {
    match s.isr
    case IOff => s
    case ITop => s.(isr := IsrDispatch(s, ri, wi))
    case IRx(avail, wi, space, progress) =>
      if RingFull(s.x.ring) then
        s.(isr := if avail then IRxMask(wi, space) else IsrTransmit(wi, space, progress))
      else if s.x.fifo == [] then                                  // RVALID clear, RAVAIL zero
        s.(isr := IsrTransmit(wi, space, progress))
      else
        s.(x := Pop(s.x), isr := IRx(|s.x.fifo| > 1, wi, space, true))
    case IRxMask(wi, space) => s.(shadow := s.shadow.(re := false), isr := IRxMaskStore(wi, space))
    case IRxMaskStore(wi, space) => s.(device := s.shadow, isr := IsrTransmit(wi, space, true))
    case ITx(space, progress) =>
      if space > 0 && s.t.ring.o != s.t.ring.i then s.(t := Put(s.t), isr := ITx(space - 1, true))
      else if space > 0 then s.(isr := ITxMask)
      else s.(isr := ITop)
    case ITxMask => s.(shadow := s.shadow.(we := false), isr := ITxMaskStore)
    case ITxMaskStore => s.(device := s.shadow, isr := ITop)
  }

  // ---- everything else -------------------------------------------------------------------------

  /** The once-a-second alarm: note activity, or count one more silent second. */
  function Timeout(s: Sys): Sys {
    if s.activity then s.(device := s.shadow, activity := false, hostInactive := 0)
    else if s.hostInactive < INT_MAX - 2 then s.(hostInactive := s.hostInactive + 1)
    else s
  }

  /** The TIOCSTIMEOUT request. */
  function NewTimeout(current: int, value: int): int {
    if current == INT_MAX then current
    else if 2 <= value < INT_MAX then value
    else INT_MAX - 1
  }

  /** One event; an event that cannot happen in `s` leaves it unchanged. */
  function Apply(s: Sys, e: Event): (s': Sys)
    requires Shaped(s)
    ensures Shaped(s')
  {
    match e
    case HostSend(b) => s.(x := s.x.(fifo := s.x.fifo + [b], hostSent := s.x.hostSent + [b]))
    case HostTake =>
      if s.t.fifo == [] then s
      else s.(t := s.t.(fifo := s.t.fifo[1..], hostGot := s.t.hostGot + [s.t.fifo[0]]))
    case HostPoll => s.(activity := true)
    case Interrupt => if Preemptible(s) then s.(isr := ITop) else s
    case IsrStep(ri, wi) => IsrMoves(s, ri, wi)
    case TimeoutTick => if Preemptible(s) then Timeout(s) else s
    case SetTimeout(v) => if Preemptible(s) then s.(timeout := NewTimeout(s.timeout, v)) else s
    case CallWrite(bytes, nonblock) =>
      if Preemptible(s) && s.t.w.pc.WIdle?
      then s.(t := s.t.(w := Writer(WTest, bytes, nonblock, 0, 0, false, false)))
      else s
    case WriterMoves => if s.isr.IOff? && !s.x.r.pc.RArmStore? then WriterStep(s) else s
    case CallRead(space, nonblock) =>
      if Preemptible(s) && s.x.r.pc.RIdle? then
        var queued := Used(s.x.ring.o, s.x.ring.i);
        s.(x := s.x.(r := Reader(RTest, space, nonblock, [], 0, 0, 0, queued, false, false)))
      else s
    case ReaderMoves => if s.isr.IOff? && !s.t.w.pc.WKickStore? then ReaderStep(s) else s
  }

  /** The state after a sequence of events. */
  function Run(s: Sys, es: seq<Event>): (s': Sys)
    requires Shaped(s)
    ensures Shaped(s')
  {
    if es == [] then s else Apply(Run(s, es[..|es| - 1]), es[|es| - 1])
  }
}
