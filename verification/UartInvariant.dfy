/** The inductive invariant of the driver, half by half, and its preservation by every event. */
module UartInvariant {
  import opened Platform
  import opened Ring
  import opened UartMachine

  /** Every published byte is with the host, in the hardware FIFO or in the ring, in order. */
  predicate TxConserved(t: TxSide)
    requires t.ring.Shaped()
  {
    t.published == t.sent + t.ring.Bytes() && t.sent == t.hostGot + t.fifo && |t.fifo| <= DEPTH
  }

  /** Every byte the host sent is in the hardware FIFO, in the ring or delivered, in order. */
  predicate RxConserved(x: RxSide)
    requires x.ring.Shaped()
  {
    x.hostSent == x.popped + x.fifo && x.popped == x.delivered + x.ring.Bytes()
  }

  /** The kick has been reached since the last look at the ring. */
  predicate PastCopy(pc: WriterPc) {
    !pc.WIdle? && !pc.WTest? && !pc.WCopy?
  }

  predicate Spinning(pc: WriterPc) {
    pc.WSpinOut? || pc.WSpinHost? || pc.WCheck?
  }

  /** The run being copied is free, wherever tx_out has moved to since the snapshot. */
  predicate WCopyInv(ring: Channel, w: Writer)
    requires ring.Shaped() && w.pc.WCopy?
  {
    var WCopy(i, n, k) := w.pc;
    && i == ring.i && 1 <= n && k <= n && w.done + n <= |w.src|
    && i + n <= LEN && n + Used(ring.o, i) <= CAPACITY
    && ring.buf[i..i + k] == w.src[w.done..w.done + k]
  }

  predicate WLocalInv(ring: Channel, w: Writer)
    requires ring.Shaped()
  {
    && w.done <= |w.src|
    && w.out < LEN
    && (w.pc.WCopy? ==> WCopyInv(ring, w))
    && (PastCopy(w.pc) && w.done < |w.src| ==> Used(w.out, ring.i) == CAPACITY)
    && (Spinning(w.pc) ==> w.done < |w.src| && !w.nonblock)
    && (w.pc.WReturn? ==>
          w.pc.result == WriteResult(w) && (w.done == |w.src| || w.nonblock || w.sawInactive))
    && (w.unkicked ==> w.pc.WTest? || w.pc.WCopy? || w.pc.WKick? || w.pc.WKickStore?)
  }

  predicate WriterInv(t: TxSide)
    requires t.ring.Shaped()
  {
    && WLocalInv(t.ring, t.w)
    && t.published == t.accepted + (if t.w.pc.WIdle? then [] else t.w.src[..t.w.done])
  }

  predicate RSpinning(pc: ReaderPc) {
    pc.RSpinIn? || pc.RSpinHost? || pc.RCheck?
  }

  /** The reader has stopped copying. */
  predicate PastRead(pc: ReaderPc) {
    pc.RAfter? || RSpinning(pc) || pc.REnd? || pc.RArm? || pc.RArmStore? || pc.RReturn?
  }

  /** The run being copied is published, and what has been copied is its beginning. */
  predicate RCopyInv(ring: Channel, r: Reader)
    requires ring.Shaped() && r.pc.RCopy?
  {
    var RCopy(o, n, k) := r.pc;
    && o == ring.o && 1 <= n <= Used(ring.o, ring.i) && k <= n && r.got + n <= r.space && o + n <= LEN
    && |r.buf| == r.got + k && r.buf[r.got..] == ring.buf[o..o + k]
  }

  predicate RCountsInv(ring: Channel, r: Reader)
    requires ring.Shaped()
  {
    var queue := Used(ring.o, ring.i);
    && r.passes <= 2 && r.queued <= r.got + queue
    && (r.pc.RTest? ==> r.passes <= 1 && r.got == 0 && (r.passes == 1 ==> queue > 0))
    && (r.pc.RSample? ==> r.got < r.space)
    && (r.passes == 2 && r.got == 0 ==> (r.pc.RSample? && queue > 0) || r.pc.RCopy?)
    && (PastRead(r.pc) ==> r.got == r.space || r.queued <= r.got)
    && (RSpinning(r.pc) ==> r.got == 0 && !r.nonblock)
    && (RSpinning(r.pc) || (r.pc.RAfter? && r.got == 0) ==>
          r.seen == ring.o && r.passes <= 1 && r.space > 0)
    && (r.pc.RCheck? ==> r.seen != ring.i || r.sawGone)
    && ((r.pc.REnd? || r.pc.RReturn?) && r.got == 0 && r.space > 0 ==> r.nonblock || r.sawGone)
    && (r.pc.RArm? || r.pc.RArmStore? ==> r.got > 0)
    && (r.pc.RReturn? ==> r.pc.result == ReadResult(r))
  }

  predicate RLocalInv(ring: Channel, r: Reader)
    requires ring.Shaped()
  {
    && r.got <= r.space && r.got <= |r.buf|
    && (if r.pc.RCopy? then RCopyInv(ring, r) else |r.buf| == r.got)
    && (!r.pc.RIdle? ==> RCountsInv(ring, r))
    && (r.unarmed <==> r.got > 0 && !r.pc.RIdle? && !r.pc.RReturn?)
  }

  predicate ReaderInv(x: RxSide)
    requires x.ring.Shaped()
  {
    && RLocalInv(x.ring, x.r)
    && x.delivered == x.returned + (if x.r.pc.RIdle? then [] else x.r.buf[..x.r.got])
  }

  predicate TxInv(t: TxSide) {
    t.ring.Shaped() && TxConserved(t) && WriterInv(t)
  }

  predicate RxInv(x: RxSide) {
    x.ring.Shaped() && RxConserved(x) && ReaderInv(x)
  }

  /**
   Transmit data never waits behind a masked interrupt without a kick on its way, and the receive
   interrupt is masked only while the ring is full or a reader is about to unmask it.
   */
  predicate EnablesInv(s: Sys)
    requires Shaped(s)
  {
    && (Used(s.t.ring.o, s.t.ring.i) > 0 ==> s.shadow.we || s.t.w.unkicked)
    && (!s.shadow.re ==> Used(s.x.ring.o, s.x.ring.i) == CAPACITY || s.x.r.unarmed)
  }

  /** Outside the shadow-then-register windows the device's enable bits are the shadow's. */
  predicate ShadowInv(s: Sys) {
    && (s.isr.IRxMaskStore? || s.isr.ITxMaskStore? || Critical(s) || s.device == s.shadow)
    && (Critical(s) ==> s.isr.IOff?)
    && !(s.t.w.pc.WKickStore? && s.x.r.pc.RArmStore?)
    && (s.t.w.pc.WKickStore? ==> s.shadow.we)
    && (s.x.r.pc.RArmStore? ==> s.shadow.re)
  }

  predicate IsrRxInv(s: Sys)
    requires Shaped(s)
  {
    var (used, isr) := (Used(s.x.ring.o, s.x.ring.i), s.isr);
    && (isr.IRx? ==> s.shadow.re && (!isr.progress ==> isr.avail && s.x.fifo != []))
    && (isr.IRxMask? ==> used == CAPACITY && s.shadow.re)
    && (isr.IRxMaskStore? ==> used == CAPACITY && !s.shadow.re)
  }

  predicate IsrTxInv(s: Sys)
    requires Shaped(s)
  {
    var (used, room, isr) := (Used(s.t.ring.o, s.t.ring.i), DEPTH - |s.t.fifo|, s.isr);
    && ((isr.IRx? || isr.IRxMask? || isr.IRxMaskStore?) && isr.wi ==>
          s.shadow.we && 0 < isr.space <= room)
    && (isr.ITx? ==> s.shadow.we && isr.space <= room && (!isr.progress ==> isr.space > 0))
    && (isr.ITxMask? ==> used == 0 && s.shadow.we)
    && (isr.ITxMaskStore? ==> used == 0 && !s.shadow.we)
  }

  predicate HostInv(s: Sys) {
    0 <= s.hostInactive <= INT_MAX - 2 && 2 <= s.timeout <= INT_MAX
  }

  /** What ties the two halves to the control register and the interrupt routine. */
  predicate ControlInv(s: Sys)
    requires Shaped(s)
  {
    EnablesInv(s) && ShadowInv(s) && IsrRxInv(s) && IsrTxInv(s) && HostInv(s)
  }

  predicate Inv(s: Sys) {
    TxInv(s.t) && RxInv(s.x) && ControlInv(s)
  }

  lemma BootInv(clock: bool)
    ensures Inv(Boot(clock))
  {
  }

  // ---- the writer ------------------------------------------------------------------------------

  lemma WSampleKeeps(t: TxSide)
    requires TxInv(t) && t.w.pc.WTest?
    ensures TxInv(WSample(t))
  {
    WriteRoomIsSafe(t.ring.o, t.ring.i);
  }

  /** Copying a byte changes nothing that is live: it lands outside what the interrupt routine may read. */
  lemma WCopyPreservesLive(t: TxSide)
    requires t.ring.Shaped() && t.w.pc.WCopy? && WCopyInv(t.ring, t.w) && t.w.pc.k < t.w.pc.n
    ensures WCopyStep(t).ring.Bytes() == t.ring.Bytes()
  {
    StoreOutside(t.ring.buf, t.ring.o, t.w.pc.i, t.w.pc.k, t.w.src[t.w.done + t.w.pc.k]);
  }

  /** One byte further, the run copied so far still is the beginning of what was asked for. */
  lemma CopiedRun(buf: seq<Byte>, i: nat, src: seq<Byte>, done: nat, k: nat)
    requires i + k < |buf| && done + k < |src| && buf[i..i + k] == src[done..done + k]
    ensures var buf' := buf[i + k := src[done + k]];
            buf'[i..i + k + 1] == src[done..done + k + 1]
  {
    var b := src[done + k];
    assert buf[i + k := b][i..i + k + 1] == buf[i..i + k] + [b];
    assert src[done..done + k + 1] == src[done..done + k] + [b];
  }

  lemma WCopyLocal(t: TxSide)
    requires t.ring.Shaped() && t.w.pc.WCopy? && WLocalInv(t.ring, t.w) && t.w.pc.k < t.w.pc.n
    ensures WLocalInv(WCopyStep(t).ring, WCopyStep(t).w)
  {
    CopiedRun(t.ring.buf, t.w.pc.i, t.w.src, t.w.done, t.w.pc.k);
  }

  lemma WCopyKeeps(t: TxSide)
    requires TxInv(t) && t.w.pc.WCopy? && t.w.pc.k < t.w.pc.n
    ensures TxInv(WCopyStep(t))
  {
    WCopyPreservesLive(t);
    WCopyLocal(t);
  }

  lemma WPublishConserves(t: TxSide)
    requires t.ring.Shaped() && TxConserved(t) && t.w.pc.WCopy? && t.w.pc.k == t.w.pc.n && WCopyInv(t.ring, t.w)
    ensures TxConserved(WCopyStep(t))
  {
    var (WCopy(i, n, k), w) := (t.w.pc, t.w);
    Publish(t.ring.buf, t.ring.o, i, n);
    var (run, t') := (w.src[w.done..w.done + n], WCopyStep(t));
    calc {
      t'.published;
      (t.sent + t.ring.Bytes()) + run;
      t.sent + (t.ring.Bytes() + run);
    }
  }

  lemma WPublishLocal(t: TxSide)
    requires t.ring.Shaped() && WriterInv(t) && t.w.pc.WCopy? && t.w.pc.k == t.w.pc.n
    ensures WriterInv(WCopyStep(t))
  {
    LongerPrefix(t.accepted, t.w.src, t.w.done, t.w.pc.n);
  }

  /** Any other writer step leaves ring and FIFO alone. */
  lemma WMoveKeeps(s: Sys)
    requires Shaped(s) && !s.t.w.pc.WTest? && !s.t.w.pc.WCopy? && WLocalInv(s.t.ring, s.t.w)
    ensures var t' := WriterStep(s).t;
            && t' == s.t.(w := t'.w, accepted := t'.accepted) && WLocalInv(t'.ring, t'.w)
            && t'.accepted == s.t.accepted + (if s.t.w.pc.WReturn? then s.t.w.src[..s.t.w.done] else [])
            && t'.w.src == s.t.w.src && t'.w.done == s.t.w.done
            && (t'.w.pc.WIdle? <==> s.t.w.pc.WIdle? || s.t.w.pc.WReturn?)
  {
    if Spinning(s.t.w.pc) { WWaits(s); }
  }

  lemma WWaits(s: Sys)
    requires Shaped(s) && Spinning(s.t.w.pc) && WLocalInv(s.t.ring, s.t.w)
    ensures var t' := WriterStep(s).t;
            t' == s.t.(w := t'.w) && WLocalInv(t'.ring, t'.w) && t'.w.src == s.t.w.src && t'.w.done == s.t.w.done
  {
  }

  lemma WriterTxKeeps(s: Sys)
    requires Shaped(s) && TxInv(s.t)
    ensures TxInv(WriterStep(s).t)
  {
    var w := s.t.w;
    if w.pc.WTest? {
      WSampleKeeps(s.t);
    } else if w.pc.WCopy? {
      if w.pc.k < w.pc.n { WCopyKeeps(s.t); } else { WPublishConserves(s.t); WPublishLocal(s.t); }
    } else {
      WMoveKeeps(s);
    }
  }

  lemma WriterControlKeeps(s: Sys)
    requires Shaped(s) && ControlInv(s) && s.isr.IOff? && !s.x.r.pc.RArmStore?
    ensures ControlInv(WriterStep(s))
  {
    if s.t.w.pc.WKick? || s.t.w.pc.WKickStore? {
    } else {
      WriterSharesNothing(s);
    }
  }

  /** Only the writer's half has changed, and it owes a kick if it has published anything. */
  predicate OnlyTx(s: Sys, s': Sys)
    requires Shaped(s) && Shaped(s')
  {
    && s' == s.(t := s'.t) && s'.t.fifo == s.t.fifo && !s'.t.w.pc.WKickStore?
    && (s'.t.w.unkicked || s'.t.w.unkicked == s.t.w.unkicked)
    && (Used(s'.t.ring.o, s'.t.ring.i) == Used(s.t.ring.o, s.t.ring.i) || s'.t.w.unkicked)
  }

  lemma CopySharesNothing(t: TxSide)
    requires t.ring.Shaped() && t.w.pc.WCopy?
    ensures var t' := WCopyStep(t);
            && t'.fifo == t.fifo && !t'.w.pc.WKickStore? && (t'.w.unkicked || t'.w.unkicked == t.w.unkicked)
            && ((t'.ring.o == t.ring.o && t'.ring.i == t.ring.i) || t'.w.unkicked)
  {
  }

  lemma SampleSharesNothing(t: TxSide)
    requires t.ring.Shaped()
    ensures var t' := WSample(t);
            t'.fifo == t.fifo && !t'.w.pc.WKickStore? && t'.w.unkicked == t.w.unkicked && t'.ring == t.ring
  {
  }

  /** Outside its critical section the writer touches only its own half of the state. */
  lemma WriterSharesNothing(s: Sys)
    requires Shaped(s) && !s.t.w.pc.WKick? && !s.t.w.pc.WKickStore?
    ensures OnlyTx(s, WriterStep(s))
  {
    if s.t.w.pc.WCopy? {
      CopySharesNothing(s.t);
      assert WriterStep(s) == s.(t := WCopyStep(s.t));
    } else if s.t.w.pc.WTest? {
      SampleSharesNothing(s.t);
      assert WriterStep(s) == s.(t := WSample(s.t));
    }
  }

  lemma WriterKeeps(s: Sys)
    requires Inv(s) && s.isr.IOff? && !s.x.r.pc.RArmStore?
    ensures Inv(WriterStep(s))
  {
    WriterTxKeeps(s);
    WriterControlKeeps(s);
  }

  // ---- the reader ------------------------------------------------------------------------------

  lemma RSampleKeeps(x: RxSide)
    requires RxInv(x) && x.r.pc.RSample?
    ensures RxInv(RSampleStep(x))
  {
    ReadRoomIsSafe(x.ring.o, x.ring.i);
  }

  lemma RCopyKeeps(x: RxSide)
    requires RxInv(x) && x.r.pc.RCopy? && x.r.pc.k < x.r.pc.n
    ensures RxInv(RCopyStep(x))
  {
    CopiedOut(x.r.buf, x.r.got, x.ring.buf, x.r.pc.o, x.r.pc.k);
  }

  lemma CopiedOut(buffer: seq<Byte>, got: nat, buf: seq<Byte>, o: nat, k: nat)
    requires got <= |buffer| && o + k < |buf| && buffer[got..] == buf[o..o + k]
    ensures var buffer' := buffer + [buf[o + k]];
            buffer'[got..] == buf[o..o + k + 1] && buffer'[..got] == buffer[..got]
  {
    assert (buffer + [buf[o + k]])[got..] == buffer[got..] + [buf[o + k]];
  }

  lemma RReleaseConserves(x: RxSide)
    requires x.ring.Shaped() && RxConserved(x) && x.r.pc.RCopy? && x.r.pc.k == x.r.pc.n && RCopyInv(x.ring, x.r)
    ensures RxConserved(RCopyStep(x))
  {
    var r := x.r;
    var RCopy(o, n, k) := r.pc;
    Consume(x.ring.buf, o, x.ring.i, n);
    var (x', taken) := (RCopyStep(x), x.ring.buf[o..o + n]);
    assert r.buf[r.got..r.got + n] == r.buf[r.got..] == taken;
    calc {
      x.popped;
      x.delivered + (taken + x'.ring.Bytes());
      (x.delivered + taken) + x'.ring.Bytes();
    }
  }

  lemma RReleaseLocal(x: RxSide)
    requires x.ring.Shaped() && ReaderInv(x) && x.r.pc.RCopy? && x.r.pc.k == x.r.pc.n
    ensures ReaderInv(RCopyStep(x))
  {
    RReleaseCounts(x);
    LongerPrefix(x.returned, x.r.buf, x.r.got, x.r.pc.n);
  }

  lemma LongerPrefix(before: seq<Byte>, s: seq<Byte>, k: nat, n: nat)
    requires k + n <= |s|
    ensures (before + s[..k]) + s[k..k + n] == before + s[..k + n]
  {
    assert s[..k + n] == s[..k] + s[k..k + n];
  }

  lemma RReleaseCounts(x: RxSide)
    requires x.ring.Shaped() && RLocalInv(x.ring, x.r) && x.r.pc.RCopy? && x.r.pc.k == x.r.pc.n
    ensures RLocalInv(RCopyStep(x).ring, RCopyStep(x).r)
  {
    Consume(x.ring.buf, x.r.pc.o, x.ring.i, x.r.pc.n);
  }

  /** Any other reader step leaves ring and FIFO alone. */
  lemma RMoveFrame(s: Sys)
    requires Shaped(s) && !s.x.r.pc.RSample? && !s.x.r.pc.RCopy? && s.x.r.got <= |s.x.r.buf|
    ensures var x' := ReaderStep(s).x;
            && x' == s.x.(r := x'.r, returned := x'.returned)
            && x'.returned == s.x.returned + (if s.x.r.pc.RReturn? then s.x.r.buf[..s.x.r.got] else [])
            && x'.r.buf == s.x.r.buf && x'.r.got == s.x.r.got
            && (x'.r.pc.RIdle? <==> s.x.r.pc.RIdle? || s.x.r.pc.RReturn?)
  {
  }

  lemma RMoveCounts(s: Sys)
    requires Shaped(s) && !s.x.r.pc.RSample? && !s.x.r.pc.RCopy? && !s.x.r.pc.RIdle? && !s.x.r.pc.RReturn?
    requires s.x.r.got <= s.x.r.space && RCountsInv(s.x.ring, s.x.r)
    ensures RCountsInv(s.x.ring, ReaderStep(s).x.r)
  {
    var pc := s.x.r.pc;
    if pc.RTest? || pc.RAfter? || pc.REnd? {
      RDecides(s);
    } else if RSpinning(pc) {
      RWaits(s);
    }
  }

  lemma RDecides(s: Sys)
    requires Shaped(s) && (s.x.r.pc.RTest? || s.x.r.pc.RAfter? || s.x.r.pc.REnd?)
    requires s.x.r.got <= s.x.r.space && RCountsInv(s.x.ring, s.x.r)
    ensures RCountsInv(s.x.ring, ReaderStep(s).x.r)
  {
  }

  lemma RWaits(s: Sys)
    requires Shaped(s) && RSpinning(s.x.r.pc)
    requires s.x.r.got <= s.x.r.space && RCountsInv(s.x.ring, s.x.r)
    ensures RCountsInv(s.x.ring, ReaderStep(s).x.r)
  {
  }

  lemma RMoveLocal(s: Sys)
    requires Shaped(s) && !s.x.r.pc.RSample? && !s.x.r.pc.RCopy? && RLocalInv(s.x.ring, s.x.r)
    ensures RLocalInv(s.x.ring, ReaderStep(s).x.r)
  {
    if !s.x.r.pc.RIdle? && !s.x.r.pc.RReturn? { RMoveCounts(s); }
  }

  lemma ReaderRxKeeps(s: Sys)
    requires Shaped(s) && RxInv(s.x)
    ensures RxInv(ReaderStep(s).x)
  {
    var r := s.x.r;
    if r.pc.RSample? {
      RSampleKeeps(s.x);
    } else if r.pc.RCopy? {
      if r.pc.k < r.pc.n { RCopyKeeps(s.x); } else { RReleaseConserves(s.x); RReleaseLocal(s.x); }
    } else {
      RMoveFrame(s);
      RMoveLocal(s);
    }
  }

  lemma ReaderControlKeeps(s: Sys)
    requires Shaped(s) && ControlInv(s) && RLocalInv(s.x.ring, s.x.r) && s.isr.IOff? && !s.t.w.pc.WKickStore?
    ensures ControlInv(ReaderStep(s))
  {
    if s.x.r.pc.RArm? || s.x.r.pc.RArmStore? {
    } else {
      ReaderSharesNothing(s);
    }
  }

  /** Outside its critical section the reader touches only its own half of the state. */
  lemma ReaderSharesNothing(s: Sys)
    requires Shaped(s) && !s.x.r.pc.RArm? && !s.x.r.pc.RArmStore?
    ensures var s' := ReaderStep(s);
            && s' == s.(x := s'.x) && s'.x.fifo == s.x.fifo && !s'.x.r.pc.RArmStore?
            && (s'.x.r.unarmed || s'.x.r.unarmed == s.x.r.unarmed)
            && (Used(s'.x.ring.o, s'.x.ring.i) == Used(s.x.ring.o, s.x.ring.i) || s'.x.r.unarmed)
  {
    if s.x.r.pc.RCopy? {
      TakeSharesNothing(s.x);
      assert ReaderStep(s) == s.(x := RCopyStep(s.x));
    }
  }

  lemma TakeSharesNothing(x: RxSide)
    requires x.ring.Shaped() && x.r.pc.RCopy?
    ensures var x' := RCopyStep(x);
            && x'.fifo == x.fifo && !x'.r.pc.RArmStore? && (x'.r.unarmed || x'.r.unarmed == x.r.unarmed)
            && ((x'.ring.o == x.ring.o && x'.ring.i == x.ring.i) || x'.r.unarmed)
  {
  }

  lemma ReaderKeeps(s: Sys)
    requires Inv(s) && s.isr.IOff? && !s.t.w.pc.WKickStore?
    ensures Inv(ReaderStep(s))
  {
    ReaderRxKeeps(s);
    ReaderControlKeeps(s);
  }

  // ---- the interrupt routine and the rest -------------------------------------------------------

  /** Storing a received byte appends it to the ring. */
  lemma PopAppends(x: RxSide)
    requires x.ring.Shaped() && x.fifo != [] && !RingFull(x.ring)
    ensures Pop(x).ring.Bytes() == x.ring.Bytes() + [x.fifo[0]]
  {
    var (c, b) := (x.ring, x.fifo[0]);
    StoreOutside(c.buf, c.o, c.i, 0, b);
    Publish(c.buf[c.i := b], c.o, c.i, 1);
    assert c.buf[c.i := b][c.i..c.i + 1] == [b];
  }

  lemma PopConserves(x: RxSide)
    requires x.ring.Shaped() && RxConserved(x) && !RingFull(x.ring) && x.fifo != []
    ensures RxConserved(Pop(x))
  {
    PopAppends(x);
    var b := x.fifo[0];
    assert x.popped + x.fifo == (x.popped + [b]) + x.fifo[1..];
    assert (x.delivered + x.ring.Bytes()) + [b] == x.delivered + (x.ring.Bytes() + [b]);
  }

  /** It also leaves a copy in progress alone. */
  lemma PopLocal(x: RxSide)
    requires x.ring.Shaped() && ReaderInv(x) && !RingFull(x.ring) && x.fifo != []
    ensures ReaderInv(Pop(x))
  {
    var buf' := Pop(x).ring.buf;
    if x.r.pc.RCopy? {
      assert buf'[x.r.pc.o..x.r.pc.o + x.r.pc.k] == x.ring.buf[x.r.pc.o..x.r.pc.o + x.r.pc.k];
    }
  }

  lemma PutConserves(t: TxSide)
    requires t.ring.Shaped() && TxConserved(t) && t.ring.o != t.ring.i && |t.fifo| < DEPTH
    ensures TxConserved(Put(t))
    ensures Used(Put(t).ring.o, Put(t).ring.i) == Used(t.ring.o, t.ring.i) - 1
  {
    Consume(t.ring.buf, t.ring.o, t.ring.i, 1);
  }

  /** Moving tx_out only widens the run a writer is filling. */
  lemma PutLocal(t: TxSide)
    requires t.ring.Shaped() && WriterInv(t) && t.ring.o != t.ring.i
    ensures WriterInv(Put(t))
  {
  }

  lemma IsrEnablesKeep(s: Sys, ri: bool, wi: bool)
    requires Shaped(s) && ControlInv(s)
    ensures var s' := IsrMoves(s, ri, wi); EnablesInv(s') && ShadowInv(s') && HostInv(s')
  {
  }

  lemma IsrLoopsKeep(s: Sys, ri: bool, wi: bool)
    requires Shaped(s) && |s.t.fifo| <= DEPTH && ShadowInv(s) && IsrRxInv(s) && IsrTxInv(s)
    ensures var s' := IsrMoves(s, ri, wi); IsrRxInv(s') && IsrTxInv(s')
  {
  }

  lemma IsrKeeps(s: Sys, ri: bool, wi: bool)
    requires Inv(s)
    ensures Inv(IsrMoves(s, ri, wi))
  {
    if s.isr.IRx? && !RingFull(s.x.ring) && s.x.fifo != [] {
      PopConserves(s.x);
      PopLocal(s.x);
    } else if s.isr.ITx? && s.isr.space > 0 && s.t.ring.o != s.t.ring.i {
      PutConserves(s.t);
      PutLocal(s.t);
    }
    IsrEnablesKeep(s, ri, wi);
    IsrLoopsKeep(s, ri, wi);
  }

  /** What the host, the timeout and the callers do touches no ring. */
  lemma OthersKeep(s: Sys, e: Event)
    requires Inv(s) && !e.WriterMoves? && !e.ReaderMoves? && !e.IsrStep?
    ensures Inv(Apply(s, e))
  {
    match e
    case HostSend(b) => HostSendKeeps(s, b);
    case HostTake => HostTakeKeeps(s);
    case CallWrite(bytes, nonblock) => CallWriteKeeps(s, bytes, nonblock);
    case CallRead(space, nonblock) => CallReadKeeps(s, space, nonblock);
    case _ => ControlEventKeeps(s, e);
  }

  lemma HostSendKeeps(s: Sys, b: Byte)
    requires Inv(s)
    ensures Inv(Apply(s, HostSend(b)))
  {
    assert s.x.popped + (s.x.fifo + [b]) == (s.x.popped + s.x.fifo) + [b];
  }

  lemma HostTakeKeeps(s: Sys)
    requires Inv(s)
    ensures Inv(Apply(s, HostTake))
  {
    if s.t.fifo != [] {
      assert s.t.hostGot + s.t.fifo == (s.t.hostGot + [s.t.fifo[0]]) + s.t.fifo[1..];
    }
  }

  lemma CallWriteKeeps(s: Sys, bytes: seq<Byte>, nonblock: bool)
    requires Inv(s)
    ensures Inv(Apply(s, CallWrite(bytes, nonblock)))
  {
  }

  lemma CallReadKeeps(s: Sys, space: nat, nonblock: bool)
    requires Inv(s)
    ensures Inv(Apply(s, CallRead(space, nonblock)))
  {
  }

  lemma ControlEventKeeps(s: Sys, e: Event)
    requires Inv(s) && (e.HostPoll? || e.Interrupt? || e.TimeoutTick? || e.SetTimeout?)
    ensures Inv(Apply(s, e))
  {
  }

  lemma ApplyKeeps(s: Sys, e: Event)
    requires Inv(s)
    ensures Inv(Apply(s, e))
  {
    if e.WriterMoves? {
      if s.isr.IOff? && !s.x.r.pc.RArmStore? { WriterKeeps(s); }
    } else if e.ReaderMoves? {
      if s.isr.IOff? && !s.t.w.pc.WKickStore? { ReaderKeeps(s); }
    } else if e.IsrStep? {
      IsrKeeps(s, e.ri, e.wi);
    } else {
      OthersKeep(s, e);
    }
  }

  lemma {:induction false} RunKeeps(s: Sys, es: seq<Event>)
    requires Inv(s)
    ensures Inv(Run(s, es))
  {
    if es != [] {
      RunKeeps(s, es[..|es| - 1]);
      ApplyKeeps(Run(s, es[..|es| - 1]), es[|es| - 1]);
    }
  }
}
