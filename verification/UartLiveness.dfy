/**
 A blocking write returns.  The writer waits only while it finds the ring full; every other step it takes
 is paid for by a byte accepted.  And one activation of the interrupt routine, once the host has taken a byte,
 is enough for the ring not to be full any more.
 */
module UartLiveness {
  import opened Arithmetic
  import opened Ring
  import opened UartMachine
  import opened UartInvariant
  import opened UartTheorems

  predicate Full(t: TxSide)
    requires t.ring.Shaped()
  {
    Used(t.ring.o, t.ring.i) == CAPACITY
  }

  // ---- the steps of a write ----------------------------------------------------------------------

  /** The event is a step of the writer. */
  predicate Steps(s: Sys, e: Event) {
    e.WriterMoves? && s.isr.IOff? && !s.x.r.pc.RArmStore?
  }

  /** How many steps the writer takes in a run. */
  function WriterSteps(s: Sys, es: seq<Event>): nat
    requires Shaped(s)
  {
    if es == [] then 0 else
    var (before, e) := (es[..|es| - 1], es[|es| - 1]);
    WriterSteps(s, before) + if Steps(Run(s, before), e) then 1 else 0
  }

  /** How often the writer has found the ring full since it last began to wait. */
  function Looks(s: Sys, es: seq<Event>): nat
    requires Shaped(s)
  {
    if es == [] then 0 else
    var (before, e) := (es[..|es| - 1], es[|es| - 1]);
    NextLooks(Run(s, before), e, Looks(s, before))
  }

  function NextLooks(s: Sys, e: Event, looks: nat): nat
    requires Shaped(s)
  {
    if !Steps(s, e) then looks
    else if s.t.w.pc.WAfter? then 0
    else if s.t.w.pc.WSpinOut? && Full(s.t) then looks + 1
    else looks
  }

  /** What the bytes still to be accepted may cost. */
  function Budget(bytes: nat, patience: nat): nat {
    bytes * (12 + 2 * patience)
  }

  lemma BudgetDrops(bytes: nat, n: nat, patience: nat)
    requires 1 <= n <= bytes
    ensures Budget(bytes, patience) >= Budget(bytes - n, patience) + n + 11 + 2 * patience
    ensures Budget(bytes, patience) >= n
  {
    var c := 11 + 2 * patience;
    Distribute(bytes - n, n, c + 1);
    Monotone(1, n, c);
    assert n * (c + 1) == n * c + n;
    ProductNonneg(bytes - n, c + 1);
  }

  /** A bound on the writer's steps from here, if it finds the ring full at most `patience` times in a wait. */
  function Potential(t: TxSide, looks: nat, patience: nat): int
    requires t.ring.Shaped() && t.w.done <= |t.w.src|
  {
    var left := |t.w.src| - t.w.done;
    Budget(left, patience) +
    match t.w.pc
    case WIdle => 0
    case WTest => if left > 0 && !Full(t) then 2 else 8 + 2 * patience
    case WCopy(_, _, k) => 1 - k
    case WKick => 7 + 2 * patience
    case WKickStore => 6 + 2 * patience
    case WAfter => 5 + 2 * patience
    case WSpinOut => 4 + 2 * (patience - looks)
    case WSpinHost => 5 + 2 * (patience - looks)
    case WCheck => 3
    case WReturn(_) => 0
  }

  predicate Busy(w: Writer) {
    !w.pc.WIdle? && !w.pc.WReturn?
  }

  /** A blocking call in progress, its host active; a wait is over only when there is room. */
  predicate InCall(s: Sys) {
    && Inv(s) && !s.t.w.nonblock && s.hostInactive == 0
    && (s.t.w.pc.WCheck? ==> !Full(s.t))
  }

  lemma SampleCosts(t: TxSide, looks: nat, patience: nat)
    requires TxInv(t) && t.w.pc.WTest?
    ensures Potential(WSample(t), looks, patience) < Potential(t, looks, patience)
  {
    WriteRoomIsSafe(t.ring.o, t.ring.i);
  }

  lemma CopyCosts(t: TxSide, looks: nat, patience: nat)
    requires TxInv(t) && t.w.pc.WCopy? && TxInv(WCopyStep(t))
    ensures Potential(WCopyStep(t), looks, patience) < Potential(t, looks, patience)
  {
    if t.w.pc.k == t.w.pc.n {
      BudgetDrops(|t.w.src| - t.w.done, t.w.pc.n, patience);
    }
  }

  /** The rest of the loop: each step comes closer to the next look at the ring, or is a look that is paid for. */
  lemma WaitCosts(s: Sys, looks: nat, patience: nat)
    requires InCall(s) && Busy(s.t.w) && !s.t.w.pc.WTest? && !s.t.w.pc.WCopy?
    requires s.isr.IOff? && !s.x.r.pc.RArmStore? && NextLooks(s, WriterMoves, looks) <= patience
    ensures var s' := WriterStep(s);
            && s'.t.w.done <= |s'.t.w.src|
            && Potential(s'.t, NextLooks(s, WriterMoves, looks), patience) < Potential(s.t, looks, patience)
            && (s'.t.w.pc.WCheck? ==> !Full(s'.t))
  {
    if s.t.w.pc.WSpinOut? { UsedIsInjective(s.t.w.out, s.t.ring.o, s.t.ring.i); }
  }

  lemma StepCosts(s: Sys, looks: nat, patience: nat)
    requires InCall(s) && Busy(s.t.w)
    requires s.isr.IOff? && !s.x.r.pc.RArmStore? && NextLooks(s, WriterMoves, looks) <= patience
    ensures var s' := WriterStep(s);
            && s'.t.w.done <= |s'.t.w.src|
            && Potential(s'.t, NextLooks(s, WriterMoves, looks), patience) < Potential(s.t, looks, patience)
            && (s'.t.w.pc.WCheck? ==> !Full(s'.t))
  {
    WriterKeeps(s);
    if s.t.w.pc.WTest? {
      SampleCosts(s.t, looks, patience);
    } else if s.t.w.pc.WCopy? {
      CopyCosts(s.t, looks, patience);
    } else {
      WaitCosts(s, looks, patience);
    }
  }

  /** What others do can only make room. */
  lemma OthersMakeRoom(s: Sys, e: Event)
    requires Inv(s) && !e.CallWrite? && !Steps(s, e)
    ensures var s' := Apply(s, e);
            && s'.t.w == s.t.w && s'.t.ring.i == s.t.ring.i && s'.t.ring.Shaped()
            && (Full(s'.t) ==> Full(s.t))
  {
    if e.ReaderMoves? && s.isr.IOff? && !s.t.w.pc.WKickStore? {
      ReaderLeavesTx(s);
    } else if e.IsrStep? {
      IsrMakesRoom(s, e.ri, e.wi);
    } else {
      RestLeavesTx(s, e);
    }
  }

  lemma ReaderLeavesTx(s: Sys)
    requires Shaped(s)
    ensures ReaderStep(s).t == s.t
  {
  }

  lemma IsrMakesRoom(s: Sys, ri: bool, wi: bool)
    requires Shaped(s)
    ensures var t' := IsrMoves(s, ri, wi).t;
            && t'.w == s.t.w && t'.ring.i == s.t.ring.i
            && Used(t'.ring.o, t'.ring.i) <= Used(s.t.ring.o, s.t.ring.i)
  {
  }

  lemma RestLeavesTx(s: Sys, e: Event)
    requires Shaped(s) && !e.CallWrite? && !e.IsrStep? && !Steps(s, e)
    requires !(e.ReaderMoves? && s.isr.IOff? && !s.t.w.pc.WKickStore?)
    ensures var t' := Apply(s, e).t; t'.w == s.t.w && t'.ring == s.t.ring
  {
  }

  /** One event: it costs the writer what it takes. */
  lemma EventCosts(s: Sys, e: Event, looks: nat, patience: nat)
    requires InCall(s) && Busy(s.t.w) && !e.CallWrite? && NextLooks(s, e, looks) <= patience
    ensures var t' := Apply(s, e).t;
            && t'.ring.Shaped() && t'.w.done <= |t'.w.src|
            && Potential(t', NextLooks(s, e, looks), patience) + (if Steps(s, e) then 1 else 0)
                 <= Potential(s.t, looks, patience)
            && (t'.w.pc.WCheck? ==> !Full(t'))
  {
    if Steps(s, e) {
      StepCosts(s, looks, patience);
    } else {
      OthersMakeRoom(s, e);
    }
  }

  lemma PotentialNonneg(t: TxSide, looks: nat, patience: nat)
    requires TxInv(t) && looks <= patience
    ensures Potential(t, looks, patience) >= 0
  {
    if t.w.pc.WCopy? { BudgetDrops(|t.w.src| - t.w.done, t.w.pc.n, patience); }
  }

  /** Throughout the run the call is in progress, its host active, and no wait has more than `patience` looks. */
  predicate Unfinished(s: Sys, es: seq<Event>, patience: nat)
    requires Shaped(s)
  {
    && (forall n :: 0 <= n <= |es| ==> Run(s, es[..n]).hostInactive == 0 && Looks(s, es[..n]) <= patience)
    && (forall n :: 0 <= n < |es| ==> Busy(Run(s, es[..n]).t.w) && !es[n].CallWrite?)
  }

  lemma UnfinishedBefore(s: Sys, es: seq<Event>, patience: nat)
    requires Shaped(s) && es != [] && Unfinished(s, es, patience)
    ensures var before := es[..|es| - 1];
            && Unfinished(s, before, patience) && Busy(Run(s, before).t.w)
            && Looks(s, es) <= patience && Run(s, es).hostInactive == 0 && !es[|es| - 1].CallWrite?
  {
    var before := es[..|es| - 1];
    forall n | 0 <= n <= |before| ensures before[..n] == es[..n] { }
    assert es[..|es|] == es && es[..|before|] == before;
  }

  /** While the call is in progress, its steps are paid for. */
  lemma {:induction false} CallCosts(s: Sys, es: seq<Event>, patience: nat)
    requires InCall(s) && Unfinished(s, es, patience)
    ensures var s' := Run(s, es);
            InCall(s') && Looks(s, es) <= patience &&
            WriterSteps(s, es) + Potential(s'.t, Looks(s, es), patience) <= Potential(s.t, 0, patience)
    decreases |es|
  {
    if es == [] {
      assert Looks(s, es[..0]) <= patience;
    } else {
      var (before, e) := (es[..|es| - 1], es[|es| - 1]);
      UnfinishedBefore(s, es, patience);
      CallCosts(s, before, patience);
      EventCosts(Run(s, before), e, Looks(s, before), patience);
      WriterKeepsItsCall(Run(s, before), e);
      ApplyKeeps(Run(s, before), e);
    }
  }

  lemma CallStarts(s: Sys, bytes: seq<Byte>, patience: nat)
    requires Inv(s) && Preemptible(s) && s.t.w.pc.WIdle? && s.hostInactive == 0
    ensures var s0 := Apply(s, CallWrite(bytes, false));
            InCall(s0) && Potential(s0.t, 0, patience) <= Budget(|bytes|, patience) + 8 + 2 * patience
  {
    ApplyKeeps(s, CallWrite(bytes, false));
  }

  /**
   A blocking write whose host stays active and which never finds the ring full more than `patience` times in
   one wait returns within 12 + 2 * patience steps a byte: as long as it has not returned, it has not taken
   more, whatever else happens.
   */
  lemma WriteReturns(s: Sys, bytes: seq<Byte>, es: seq<Event>, patience: nat)
    requires Inv(s) && Preemptible(s) && s.t.w.pc.WIdle? && s.hostInactive == 0
    requires Unfinished(Apply(s, CallWrite(bytes, false)), es, patience)
    ensures WriterSteps(Apply(s, CallWrite(bytes, false)), es) <= Budget(|bytes|, patience) + 8 + 2 * patience
  {
    var s0 := Apply(s, CallWrite(bytes, false));
    CallStarts(s, bytes, patience);
    CallCosts(s0, es, patience);
    PotentialNonneg(Run(s0, es).t, Looks(s0, es), patience);
  }

  // ---- the interrupt routine makes room ----------------------------------------------------------

  /** The interrupt routine has room in the FIFO to fill, and bytes to fill it with. */
  predicate Owes(s: Sys) {
    || ((s.isr.IRx? || s.isr.IRxMask? || s.isr.IRxMaskStore?) && s.isr.wi && s.isr.space > 0)
    || (s.isr.ITx? && s.isr.space > 0)
  }

  /** It has moved a byte since tx_out was `o`, or is going to. */
  predicate Serves(s: Sys, o: nat, i: nat)
    requires o < LEN && i < LEN
  {
    && s.t.ring.Shaped() && s.t.ring.i == i
    && (Used(s.t.ring.o, i) < Used(o, i) || (s.t.ring.o == o != i && Owes(s)))
  }

  /** Reading the control register with WI raised begins it: a waiting writer has left the interrupt enabled. */
  lemma ServiceBegins(s: Sys, ri: bool)
    requires Inv(s) && s.isr.ITop? && Spinning(s.t.w.pc)
    requires s.t.ring.o != s.t.ring.i && |s.t.fifo| < DEPTH
    ensures Serves(IsrMoves(s, ri, true), s.t.ring.o, s.t.ring.i)
  {
  }

  lemma ServiceStep(s: Sys, ri: bool, wi: bool, o: nat, i: nat)
    requires Shaped(s) && o < LEN && i < LEN && Serves(s, o, i)
    ensures Serves(IsrMoves(s, ri, wi), o, i)
  {
    IsrMakesRoom(s, ri, wi);
  }

  lemma ServiceGoesOn(s: Sys, e: Event, o: nat, i: nat)
    requires Shaped(s) && !s.isr.IOff? && o < LEN && i < LEN && Serves(s, o, i)
    ensures Serves(Apply(s, e), o, i)
  {
    if e.IsrStep? { ServiceStep(s, e.ri, e.wi, o, i); }
  }

  /**
   One activation of the interrupt routine is enough: if a writer is waiting, the host has taken a byte from
   the FIFO and the hardware raises WI, then by the time the routine returns the ring has room, whatever the
   host does meanwhile.  So a writer that looks again after each activation finds the ring full once in a wait.
   */
  lemma {:induction false} ServiceMakesRoom(s: Sys, es: seq<Event>)
    requires Inv(s) && s.isr.ITop? && Spinning(s.t.w.pc)
    requires s.t.ring.o != s.t.ring.i && |s.t.fifo| < DEPTH
    requires es != [] && es[0].IsrStep? && es[0].wi
    requires forall n :: 0 < n < |es| ==> !Run(s, es[..n]).isr.IOff?
    ensures Serves(Run(s, es), s.t.ring.o, s.t.ring.i)
    ensures Run(s, es).isr.IOff? ==> !Full(Run(s, es).t)
    decreases |es|
  {
    if |es| == 1 {
      assert es[..0] == [] && Run(s, es) == Apply(s, es[0]);
      ServiceBegins(s, es[0].ri);
    } else {
      var before := es[..|es| - 1];
      forall n | 0 < n < |before| ensures !Run(s, before[..n]).isr.IOff? {
        assert before[..n] == es[..n];
      }
      ServiceMakesRoom(s, before);
      assert !Run(s, es[..|before|]).isr.IOff?;
      ServiceGoesOn(Run(s, before), es[|es| - 1], s.t.ring.o, s.t.ring.i);
    }
  }

  // ---- a host that keeps taking bytes ------------------------------------------------------------

  /** What the interrupt routine has done since the writer last looked at the ring. */
  datatype Service = None | Begun | Done

  predicate Look(s: Sys, e: Event) {
    Steps(s, e) && s.t.w.pc.WSpinOut?
  }

  /** It reads its control register with WI raised and room in the FIFO; and when it returns it has served. */
  function NextService(s: Sys, e: Event, service: Service): Service
    requires Shaped(s)
  {
    if Look(s, e) then None
    else if s.isr.ITop? && e.IsrStep? && e.wi && |s.t.fifo| < DEPTH && service != Done then Begun
    else if service == Begun && Apply(s, e).isr.IOff? then Done
    else service
  }

  function ServiceOf(s: Sys, es: seq<Event>): Service
    requires Shaped(s)
  {
    if es == [] then None else
    var (before, e) := (es[..|es| - 1], es[|es| - 1]);
    NextService(Run(s, before), e, ServiceOf(s, before))
  }

  /** Between two looks of one wait the routine completes such an activation. */
  predicate Served(s: Sys, es: seq<Event>)
    requires Shaped(s)
  {
    forall n :: 0 <= n < |es| ==>
      (Look(Run(s, es[..n]), es[n]) && Looks(s, es[..n]) > 0 ==> ServiceOf(s, es[..n]) == Done)
  }

  /** A writer that has found the ring full and has not looked again: a service makes room, or is about to. */
  predicate BeingServed(s: Sys, service: Service)
    requires Shaped(s)
  {
    s.t.w.pc.WSpinHost? || s.t.w.pc.WSpinOut? ==>
      && (service == Begun ==> !Full(s.t) || (Owes(s) && !s.isr.IOff?))
      && (service == Done ==> !Full(s.t))
  }

  /** A step of the writer other than a look. */
  lemma WriterBeingServed(s: Sys, service: Service)
    requires InCall(s) && Busy(s.t.w) && Steps(s, WriterMoves) && !s.t.w.pc.WSpinOut? && !s.t.w.pc.WAfter?
    requires BeingServed(s, service)
    ensures BeingServed(WriterStep(s), NextService(s, WriterMoves, service))
  {
    if s.t.w.pc.WSpinHost? {
      assert WriterStep(s).t.ring == s.t.ring;
    }
  }

  lemma ServiceBeingServed(s: Sys, ri: bool, wi: bool, service: Service)
    requires InCall(s) && BeingServed(s, service)
    ensures BeingServed(IsrMoves(s, ri, wi), NextService(s, IsrStep(ri, wi), service))
  {
    IsrMakesRoom(s, ri, wi);
    if (s.t.w.pc.WSpinHost? || s.t.w.pc.WSpinOut?) && Full(s.t) {
      if s.isr.ITop? && wi && |s.t.fifo| < DEPTH {
        ServiceBegins(s, ri);
      } else if service == Begun {
        ServiceStep(s, ri, wi, s.t.ring.o, s.t.ring.i);
      }
    }
  }

  lemma OthersBeingServed(s: Sys, e: Event, service: Service)
    requires InCall(s) && BeingServed(s, service) && !e.CallWrite? && !e.WriterMoves? && !e.IsrStep?
    ensures BeingServed(Apply(s, e), NextService(s, e, service))
  {
    OthersMakeRoom(s, e);
    if service == Begun && !s.isr.IOff? {
      assert Apply(s, e).isr == s.isr;
    }
  }

  /** Counting looks and following the service, the second look of a wait never finds the ring full. */
  predicate AtMostOnce(s: Sys, looks: nat, service: Service)
    requires Shaped(s)
  {
    looks <= 1 && (looks == 1 ==> BeingServed(s, service))
  }

  lemma EventAtMostOnce(s: Sys, e: Event, looks: nat, service: Service)
    requires InCall(s) && Busy(s.t.w) && !e.CallWrite? && AtMostOnce(s, looks, service)
    requires Look(s, e) && looks > 0 ==> service == Done
    ensures AtMostOnce(Apply(s, e), NextLooks(s, e, looks), NextService(s, e, service))
  {
    if e.WriterMoves? {
      if Steps(s, e) && looks == 1 && !s.t.w.pc.WSpinOut? && !s.t.w.pc.WAfter? {
        WriterBeingServed(s, service);
      }
    } else if looks == 1 {
      if e.IsrStep? { ServiceBeingServed(s, e.ri, e.wi, service); } else { OthersBeingServed(s, e, service); }
    }
  }

  /** The call is in progress throughout, its host active. */
  predicate InProgress(s: Sys, es: seq<Event>)
    requires Shaped(s)
  {
    && (forall n :: 0 <= n <= |es| ==> Run(s, es[..n]).hostInactive == 0)
    && (forall n :: 0 <= n < |es| ==> Busy(Run(s, es[..n]).t.w) && !es[n].CallWrite?)
  }

  lemma {:induction false} OneLook(s: Sys, es: seq<Event>)
    requires InCall(s) && InProgress(s, es) && Served(s, es)
    ensures InCall(Run(s, es)) && AtMostOnce(Run(s, es), Looks(s, es), ServiceOf(s, es))
    decreases |es|
  {
    if es != [] {
      var (before, e) := (es[..|es| - 1], es[|es| - 1]);
      InProgressBefore(s, es);
      OneLook(s, before);
      var s' := Run(s, before);
      EventAtMostOnce(s', e, Looks(s, before), ServiceOf(s, before));
      EventCosts(s', e, Looks(s, before), Looks(s, before) + 1);
      WriterKeepsItsCall(s', e);
      ApplyKeeps(s', e);
    }
  }

  lemma InProgressBefore(s: Sys, es: seq<Event>)
    requires Shaped(s) && es != [] && InProgress(s, es) && Served(s, es)
    ensures var (before, e) := (es[..|es| - 1], es[|es| - 1]);
            && InProgress(s, before) && Served(s, before)
            && Run(s, es).hostInactive == 0 && Busy(Run(s, before).t.w) && !e.CallWrite?
            && (Look(Run(s, before), e) && Looks(s, before) > 0 ==> ServiceOf(s, before) == Done)
  {
    var before := es[..|es| - 1];
    PrefixInProgress(s, es, |es| - 1);
    PrefixServed(s, es, |es| - 1);
    assert es[..|es|] == es && es[..|before|] == before;
  }

  lemma PrefixInProgress(s: Sys, es: seq<Event>, m: nat)
    requires Shaped(s) && m <= |es| && InProgress(s, es)
    ensures InProgress(s, es[..m])
  {
    forall n | 0 <= n <= m ensures es[..m][..n] == es[..n] { }
  }

  lemma PrefixServed(s: Sys, es: seq<Event>, m: nat)
    requires Shaped(s) && m <= |es| && Served(s, es)
    ensures Served(s, es[..m])
  {
    forall n | 0 <= n <= m ensures es[..m][..n] == es[..n] { }
  }

  lemma ServedIsUnfinished(s: Sys, es: seq<Event>)
    requires InCall(s) && InProgress(s, es) && Served(s, es)
    ensures Unfinished(s, es, 1) && Looks(s, es) <= 1
  {
    forall n | 0 <= n <= |es| ensures Looks(s, es[..n]) <= 1 {
      PrefixInProgress(s, es, n);
      PrefixServed(s, es, n);
      OneLook(s, es[..n]);
    }
    assert es[..|es|] == es;
  }

  /**
   A blocking write returns, against a host that keeps taking bytes: if between two looks of one wait the interrupt
   routine, told of room in the FIFO, completes an activation, the writer finds the ring full at most once in a wait,
   and takes no more than 14 steps a byte and 10 besides.
   */
  lemma ServedWriteReturns(s: Sys, bytes: seq<Byte>, es: seq<Event>)
    requires Inv(s) && Preemptible(s) && s.t.w.pc.WIdle? && s.hostInactive == 0
    requires var s0 := Apply(s, CallWrite(bytes, false)); InProgress(s0, es) && Served(s0, es)
    ensures var s0 := Apply(s, CallWrite(bytes, false));
            Looks(s0, es) <= 1 && WriterSteps(s0, es) <= 14 * |bytes| + 10
  {
    CallStarts(s, bytes, 1);
    ServedCallReturns(Apply(s, CallWrite(bytes, false)), es);
    BudgetOne(|bytes|);
  }

  lemma BudgetOne(bytes: nat)
    ensures Budget(bytes, 1) == 14 * bytes
  {
  }

  lemma ServedCallReturns(s: Sys, es: seq<Event>)
    requires InCall(s) && InProgress(s, es) && Served(s, es)
    ensures Looks(s, es) <= 1 && WriterSteps(s, es) <= Potential(s.t, 0, 1)
  {
    ServedIsUnfinished(s, es);
    CallCosts(s, es, 1);
    PotentialNonneg(Run(s, es).t, Looks(s, es), 1);
  }
}
