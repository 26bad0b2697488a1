/**
 The pool of file descriptors: what each system call does to it, as functions, and what holds over any
 sequence of calls.  The code itself is in FdTable.dfy.
 */
module FdPool {
  import opened Platform

  const MAX_FD: nat := 32

  /** What a descriptor refers to.  Devices and file systems are registered in separate lists. */
  datatype DevRef = Null | Device(id: nat) | FileSystem(id: nat)

  const DEV_NULL: DevRef := Device(0)

  /**
   A 32-bit flags word, split into the bits the code masks: ALT_FD_EXCL, ALT_FD_DEV, O_APPEND and
   O_NONBLOCK, and the rest.
   */
  datatype Flags = Flags(excl: bool, dev: bool, append: bool, nonblock: bool, rest: nat)

  const NO_FLAGS: Flags := Flags(false, false, false, false, 0)

  datatype Fd = Fd(dev: DevRef, priv: int, flags: Flags)

  /** `fds` is alt_fd_list, `maxFd` the high-water mark alt_max_fd. */
  datatype Pool = Pool(fds: seq<Fd>, maxFd: int)

  /** What a driver's callback answers; `priv` is what its open stores in the descriptor. */
  datatype Driver = Driver(status: int, priv: int)

  datatype Request = TIOCEXCL | TIOCNXCL | Other

  datatype Command = F_GETFL | F_SETFL(arg: Flags) | OtherCommand

  datatype Call =
    | Open(dev: DevRef, flags: Flags, driver: Driver)         // `dev` is what the name is found as
    | Close(file: int, driver: Driver)
    | Ioctl(file: int, req: Request, driver: Driver)
    | Fcntl(file: int, cmd: Command)
    | Redirect(to: nat, dev: DevRef, flags: Flags, driver: Driver)

  /**
   The call's return value, and errno if it was set; or the flags F_GETFL reports.  In the last case the code
   follows the device pointer of a free descriptor, which is null.
   */
  datatype Reply = Reply(ret: int, errno: int) | Report(flags: Flags) | Fault

  function Initial(): Pool {
    Pool(seq(MAX_FD, i => Fd(if i <= 2 then DEV_NULL else Null, 0, NO_FLAGS)), -1)
  }

  /** flags & ~ALT_FD_FLAGS_MASK. */
  function Unprivileged(flags: Flags): Flags {
    flags.(excl := false, dev := false)
  }

  /** Callers name descriptors of the pool. */
  predicate Callable(p: Pool, c: Call) {
    && |p.fds| == MAX_FD
    && (c.Close? || c.Ioctl? || c.Fcntl? ==> c.file < MAX_FD)
    && (c.Redirect? ==> c.to <= 2)
  }

  // ---- the calls -------------------------------------------------------------------------------

  /** The first free descriptor at or after `i`, or -1. */
  function FirstFree(fds: seq<Fd>, i: nat): (k: int)
    requires i <= |fds|
    ensures k == -1 <==> forall j :: i <= j < |fds| ==> fds[j].dev != Null
    ensures k != -1 ==> i <= k < |fds| && fds[k].dev == Null
    ensures k != -1 ==> forall j :: i <= j < k ==> fds[j].dev != Null
    decreases |fds| - i
  {
    if i == |fds| then -1
    else if fds[i].dev == Null then i
    else FirstFree(fds, i + 1)
  }

  /** Some other descriptor of the same device, up to and including the high-water mark, is locked. */
  predicate FileLocked(p: Pool, fd: nat)
    requires fd < |p.fds|
  {
    exists j :: 0 <= j <= p.maxFd && j < |p.fds| && j != fd && p.fds[j].dev == p.fds[fd].dev &&
                p.fds[j].flags.excl
  }

  /** Some other descriptor of the same device, strictly below the high-water mark, exists. */
  predicate Shared(p: Pool, fd: nat)
    requires fd < |p.fds|
  {
    exists j :: 0 <= j < p.maxFd && j < |p.fds| && j != fd && p.fds[j].dev == p.fds[fd].dev
  }

  function Release(p: Pool, fd: int): Pool {
    if 2 < fd < |p.fds| then p.(fds := p.fds[fd := p.fds[fd].(flags := NO_FLAGS, dev := Null)]) else p
  }

  function DoOpen(p: Pool, dev: DevRef, flags: Flags, driver: Driver): (Pool, Reply)
    requires |p.fds| == MAX_FD
  {
    if dev == Null then (p, Reply(-1, ENODEV)) else
    var i := FirstFree(p.fds, 0);
    if i == -1 then (p, Reply(-1, EMFILE)) else
    var own := Unprivileged(flags).(dev := dev.Device?);
    var p1 := Pool(p.fds[i := Fd(dev, p.fds[i].priv, own)], if i > p.maxFd then i else p.maxFd);
    if dev.Device? && FileLocked(p1, i) then (Release(p1, i), Reply(-1, EACCES)) else
    var p2 := p1.(fds := p1.fds[i := Fd(dev, driver.priv, own)]);
    if driver.status < 0 then (Release(p2, i), Reply(-1, -driver.status))
    else (p2, Reply(i, 0))
  }

  function DoClose(p: Pool, file: int, driver: Driver): (Pool, Reply)
    requires file < |p.fds|
  {
    if file < 0 then (p, Reply(-1, EBADFD))
    else if p.fds[file].dev == Null then (p, Fault)
    else (Release(p, file), if driver.status < 0 then Reply(-1, -driver.status) else Reply(0, 0))
  }

  function DoIoctl(p: Pool, file: int, req: Request, driver: Driver): (Pool, Reply)
    requires file < |p.fds|
  {
    if file < 0 then (p, Reply(-EBADFD, EBADFD)) else
    var fd := p.fds[file];
    if fd.flags.dev && req == TIOCEXCL then
      if Shared(p, file) then (p, Reply(-EACCES, EACCES))
      else (p.(fds := p.fds[file := fd.(flags := fd.flags.(excl := true))]), Reply(0, 0))
    else if fd.flags.dev && req == TIOCNXCL then
      (p.(fds := p.fds[file := fd.(flags := fd.flags.(excl := false))]), Reply(0, 0))
    else if fd.dev == Null then
      (p, Fault)
    else
      (p, Reply(driver.status, if driver.status < 0 then -driver.status else 0))
  }

  function DoFcntl(p: Pool, file: int, cmd: Command): (Pool, Reply)
    requires file < |p.fds|
  {
    if file < 0 then (p, Reply(-1, EBADFD)) else
    var fd := p.fds[file];
    match cmd
    case F_GETFL => (p, Report(Unprivileged(fd.flags)))
    case F_SETFL(arg) =>
      var flags' := fd.flags.(append := arg.append, nonblock := arg.nonblock);
      (p.(fds := p.fds[file := fd.(flags := flags')]), Reply(0, 0))
    case OtherCommand => (p, Reply(-1, EINVAL))
  }

  /** alt_open_fd: open, copy the new descriptor over `to`, release it. */
  function DoRedirect(p: Pool, to: nat, dev: DevRef, flags: Flags, driver: Driver): (r: (Pool, Reply))
    requires |p.fds| == MAX_FD && to < MAX_FD
    ensures |r.0.fds| == MAX_FD
  {
    var (p1, reply) := DoOpen(p, dev, flags, driver);
    if 0 <= reply.ret < |p1.fds| && |p1.fds| == MAX_FD
    then (Release(p1.(fds := p1.fds[to := p1.fds[reply.ret]]), reply.ret), reply)
    else (p1, reply)
  }

  function Step(p: Pool, c: Call): (r: (Pool, Reply))
    requires Callable(p, c)
    ensures |r.0.fds| == MAX_FD
  {
    match c
    case Open(dev, flags, driver) => DoOpen(p, dev, flags, driver)
    case Close(file, driver) => DoClose(p, file, driver)
    case Ioctl(file, req, driver) => DoIoctl(p, file, req, driver)
    case Fcntl(file, cmd) => DoFcntl(p, file, cmd)
    case Redirect(to, dev, flags, driver) => DoRedirect(p, to, dev, flags, driver)
  }

  // ---- the pool invariant ----------------------------------------------------------------------

  predicate Allocated(p: Pool, i: nat)
    requires i < |p.fds|
  {
    p.fds[i].dev != Null
  }

  predicate SlotInv(fd: Fd) {
    && (fd.flags.dev ==> fd.dev.Device?)
    && (fd.flags.excl ==> fd.flags.dev)
  }

  /**
   Standard descriptors are always allocated, only devices carry the internal flags, and from the first
   allocation on the high-water mark bounds the allocated ones; until then only the standard ones are, without
   internal flags.
   */
  predicate PoolInv(p: Pool) {
    && |p.fds| == MAX_FD
    && (p.maxFd == -1 || 3 <= p.maxFd < MAX_FD)
    && (forall i :: 0 <= i <= 2 ==> Allocated(p, i))
    && (forall i :: 0 <= i < MAX_FD ==> SlotInv(p.fds[i]))
    && (forall i :: 0 <= i < MAX_FD && Allocated(p, i) ==> i <= if p.maxFd == -1 then 2 else p.maxFd)
    && (p.maxFd == -1 ==> forall i :: 0 <= i < MAX_FD ==> !p.fds[i].flags.dev)
  }

  /** Free descriptors carry no flags. */
  predicate Clean(p: Pool) {
    forall i :: 0 <= i < |p.fds| && p.fds[i].dev == Null ==> p.fds[i].flags == NO_FLAGS
  }

  /** The same device and flags, but that flags left on a free descriptor may have been cleared. */
  predicate Same(fd': Fd, fd: Fd) {
    fd'.dev == fd.dev && (fd'.flags == fd.flags || (fd.dev == Null && fd'.flags == NO_FLAGS))
  }

  // ---- open, by cases --------------------------------------------------------------------------

  /** The call reaches an unlocked device or a file system, with a descriptor to spare. */
  predicate Admitted(p: Pool, dev: DevRef)
    requires |p.fds| == MAX_FD
  {
    && dev != Null
    && FirstFree(p.fds, 0) != -1
    && (dev.Device? ==> !LockedBySomeone(p, dev))
  }

  predicate LockedBySomeone(p: Pool, dev: DevRef) {
    exists j :: 0 <= j < |p.fds| && p.fds[j].dev == dev && p.fds[j].flags.excl
  }

  /** What a descriptor looks like after a successful open. */
  function Opened(dev: DevRef, flags: Flags, driver: Driver): Fd {
    Fd(dev, driver.priv, Unprivileged(flags).(dev := dev.Device?))
  }

  /** The lock scan of open sees every lock there is: it runs up to and including the high-water mark. */
  lemma OpenSeesLocks(p: Pool, i: nat, fd: Fd)
    requires PoolInv(p) && i < MAX_FD && !Allocated(p, i) && fd.dev != Null
    ensures var p1 := Pool(p.fds[i := fd], if i > p.maxFd then i else p.maxFd);
            FileLocked(p1, i) <==> LockedBySomeone(p, fd.dev)
  {
    var p1 := Pool(p.fds[i := fd], if i > p.maxFd then i else p.maxFd);
    if LockedBySomeone(p, fd.dev) {
      var j :| 0 <= j < |p.fds| && p.fds[j].dev == fd.dev && p.fds[j].flags.excl;
      assert SlotInv(p.fds[j]) && Allocated(p, j);
      assert p1.fds[j] == p.fds[j];
      assert FileLocked(p1, i);
    }
    if FileLocked(p1, i) {
      var j :| 0 <= j <= p1.maxFd && j < |p1.fds| && j != i && p1.fds[j].dev == p1.fds[i].dev &&
               p1.fds[j].flags.excl;
      assert p.fds[j] == p1.fds[j];
    }
  }

  /**
   Open succeeds exactly when the name is known, a descriptor is free, the device is not locked by anyone
   and the driver agrees; the descriptor is then the first free one, and nothing else changes.  A failing
   open changes no descriptor's device, and no flags of a clean pool.
   */
  lemma OpenOutcome(p: Pool, dev: DevRef, flags: Flags, driver: Driver)
    requires PoolInv(p)
    ensures var (p', reply) := DoOpen(p, dev, flags, driver);
            var i := FirstFree(p.fds, 0);
            && |p'.fds| == MAX_FD
            && (reply.ret >= 0 <==> Admitted(p, dev) && driver.status >= 0)
            && (reply.ret >= 0 ==>
                  && reply.ret == i && 3 <= i
                  && p'.fds == p.fds[i := Opened(dev, flags, driver)]
                  && p'.maxFd == if i > p.maxFd then i else p.maxFd)
            && (reply.ret < 0 ==>
                  && reply.ret == -1
                  && (p'.maxFd == p.maxFd || (3 <= i < MAX_FD && p'.maxFd == i > p.maxFd))
                  && forall j :: 0 <= j < MAX_FD ==>
                       Same(p'.fds[j], p.fds[j]) && (Clean(p) ==> p'.fds[j].flags == p.fds[j].flags))
  {
    var i := FirstFree(p.fds, 0);
    if dev != Null && i != -1 {
      FreeIsHigh(p, i);
      var own := Opened(dev, flags, driver);
      OpenSeesLocks(p, i, own.(priv := p.fds[i].priv));
      assert SlotInv(p.fds[i]);
    }
  }

  lemma FreeIsHigh(p: Pool, i: nat)
    requires PoolInv(p) && i < MAX_FD && !Allocated(p, i)
    ensures 3 <= i
  {
    assert Allocated(p, 0) && Allocated(p, 1) && Allocated(p, 2);
  }

  // ---- the invariant is kept -------------------------------------------------------------------

  lemma InitialInv()
    ensures PoolInv(Initial())
  {
  }

  lemma OpenKeeps(p: Pool, dev: DevRef, flags: Flags, driver: Driver)
    requires PoolInv(p)
    ensures PoolInv(DoOpen(p, dev, flags, driver).0)
  {
    OpenOutcome(p, dev, flags, driver);
    var (p', reply) := DoOpen(p, dev, flags, driver);
    var i := FirstFree(p.fds, 0);
    if reply.ret >= 0 {
      forall j | 0 <= j < MAX_FD && j != i && Allocated(p', j) ensures Allocated(p, j) { }
    } else {
      forall j | 0 <= j < MAX_FD ensures SlotInv(p'.fds[j]) { assert SlotInv(p.fds[j]); }
      forall j | 0 <= j <= 2 ensures Allocated(p', j) { assert Allocated(p, j); }
      forall j | 0 <= j < MAX_FD && Allocated(p', j) ensures Allocated(p, j) { }
    }
  }

  /** Giving one descriptor the same device and well-formed flags keeps the invariant. */
  lemma UpdateKeeps(p: Pool, i: nat, fd: Fd)
    requires PoolInv(p) && i < MAX_FD && SlotInv(fd)
    requires fd.dev == p.fds[i].dev && fd.flags.dev == p.fds[i].flags.dev
    ensures PoolInv(p.(fds := p.fds[i := fd]))
  {
    var p' := p.(fds := p.fds[i := fd]);
    forall j | 0 <= j < MAX_FD ensures p'.fds[j].dev == p.fds[j].dev && SlotInv(p'.fds[j]) {
      assert SlotInv(p.fds[j]);
    }
    forall j | 0 <= j <= 2 ensures Allocated(p', j) { assert Allocated(p, j); }
    forall j | 0 <= j < MAX_FD && Allocated(p', j) ensures Allocated(p, j) { }
  }

  lemma ReleaseKeeps(p: Pool, fd: int)
    requires PoolInv(p)
    ensures PoolInv(Release(p, fd))
  {
    var p' := Release(p, fd);
    if 2 < fd < MAX_FD {
      forall j | 0 <= j < MAX_FD ensures SlotInv(p'.fds[j]) { assert SlotInv(p.fds[j]); }
      forall j | 0 <= j <= 2 ensures Allocated(p', j) { assert Allocated(p, j); }
      forall j | 0 <= j < MAX_FD && Allocated(p', j) ensures Allocated(p, j) { }
    }
  }

  lemma IoctlKeeps(p: Pool, file: int, req: Request, driver: Driver)
    requires PoolInv(p) && file < MAX_FD
    ensures PoolInv(DoIoctl(p, file, req, driver).0)
  {
    if file >= 0 {
      var fd := p.fds[file];
      assert SlotInv(fd);
      if fd.flags.dev {
        UpdateKeeps(p, file, fd.(flags := fd.flags.(excl := true)));
        UpdateKeeps(p, file, fd.(flags := fd.flags.(excl := false)));
      }
    }
  }

  lemma FcntlKeeps(p: Pool, file: int, cmd: Command)
    requires PoolInv(p) && file < MAX_FD
    ensures PoolInv(DoFcntl(p, file, cmd).0)
  {
    if file >= 0 && cmd.F_SETFL? {
      var fd := p.fds[file];
      assert SlotInv(fd);
      UpdateKeeps(p, file, fd.(flags := fd.flags.(append := cmd.arg.append, nonblock := cmd.arg.nonblock)));
    }
  }

  /** The call leaves no flags on a free descriptor. */
  predicate Tidy(p: Pool, c: Call)
    requires Callable(p, c)
  {
    c.Fcntl? && c.cmd.F_SETFL? && c.file >= 0 ==>
      p.fds[c.file].dev != Null || (!c.cmd.arg.append && !c.cmd.arg.nonblock)
  }

  /** F_SETFL does not look whether the descriptor is open: a clean pool stays clean exactly by the tidy calls. */
  lemma FcntlCleanExactly(p: Pool, file: int, cmd: Command)
    requires PoolInv(p) && Clean(p) && file < MAX_FD
    ensures Clean(DoFcntl(p, file, cmd).0) <==> Tidy(p, Fcntl(file, cmd))
  {
    if file >= 0 && cmd.F_SETFL? && !Tidy(p, Fcntl(file, cmd)) {
      var p' := DoFcntl(p, file, cmd).0;
      assert p'.fds[file].dev == Null && p'.fds[file].flags != NO_FLAGS;
    }
  }

  /** A free descriptor with flags on it. */
  lemma UntidyCall()
    ensures var p := DoFcntl(Initial(), 5, F_SETFL(NO_FLAGS.(nonblock := true))).0;
            p.fds[5].dev == Null && p.fds[5].flags.nonblock
  {
  }

  /** A redirection that opened its device moves the new descriptor onto the standard one. */
  lemma RedirectOutcome(p: Pool, to: nat, dev: DevRef, flags: Flags, driver: Driver)
    requires PoolInv(p) && to <= 2
    ensures var (p', reply) := DoRedirect(p, to, dev, flags, driver);
            && |p'.fds| == MAX_FD
            && (reply.ret >= 0 <==> Admitted(p, dev) && driver.status >= 0)
            && (reply.ret >= 0 ==> p'.fds[to].priv == driver.priv)
            && p'.fds[to].dev == (if reply.ret >= 0 then dev else p.fds[to].dev)
            && p'.fds[to].flags == (if reply.ret >= 0 then Opened(dev, flags, driver).flags else p.fds[to].flags)
            && (forall j :: 0 <= j < MAX_FD && j != to ==>
                  Same(p'.fds[j], p.fds[j]) && (Clean(p) ==> p'.fds[j].flags == p.fds[j].flags))
            && p'.maxFd == DoOpen(p, dev, flags, driver).0.maxFd
  {
    OpenOutcome(p, dev, flags, driver);
    var i := FirstFree(p.fds, 0);
    if i != -1 { assert SlotInv(p.fds[i]); }
  }

  lemma RedirectKeeps(p: Pool, to: nat, dev: DevRef, flags: Flags, driver: Driver)
    requires PoolInv(p) && to <= 2
    ensures PoolInv(DoRedirect(p, to, dev, flags, driver).0)
  {
    OpenKeeps(p, dev, flags, driver);
    OpenOutcome(p, dev, flags, driver);
    var (p1, reply) := DoOpen(p, dev, flags, driver);
    if reply.ret >= 0 {
      var own := p1.fds[reply.ret];
      var p2 := p1.(fds := p1.fds[to := own]);
      assert SlotInv(own);
      forall j | 0 <= j < MAX_FD ensures SlotInv(p2.fds[j]) { assert SlotInv(p1.fds[j]); }
      forall j | 0 <= j <= 2 ensures Allocated(p2, j) { assert Allocated(p1, j); }
      forall j | 0 <= j < MAX_FD && Allocated(p2, j) ensures Allocated(p1, j) { assert Allocated(p1, to); }
      ReleaseKeeps(p2, reply.ret);
    }
  }

  lemma StepKeeps(p: Pool, c: Call)
    requires PoolInv(p) && Callable(p, c)
    ensures PoolInv(Step(p, c).0)
  {
    match c
    case Open(dev, flags, driver) => OpenKeeps(p, dev, flags, driver);
    case Close(file, _) => ReleaseKeeps(p, file);
    case Ioctl(file, req, driver) => IoctlKeeps(p, file, req, driver);
    case Fcntl(file, cmd) => FcntlKeeps(p, file, cmd);
    case Redirect(to, dev, flags, driver) => RedirectKeeps(p, to, dev, flags, driver);
  }

  // ---- runs ------------------------------------------------------------------------------------

  /** Each call of the sequence is callable when its turn comes. */
  predicate Legal(p: Pool, cs: seq<Call>)
    decreases |cs|
  {
    cs == [] || (Callable(p, cs[0]) && Legal(Step(p, cs[0]).0, cs[1..]))
  }

  function Run(p: Pool, cs: seq<Call>): (p': Pool)
    requires Legal(p, cs)
    ensures |p'.fds| == |p.fds|
    decreases |cs|
  {
    if cs == [] then p else Run(Step(p, cs[0]).0, cs[1..])
  }

  lemma {:induction false} RunKeeps(p: Pool, cs: seq<Call>)
    requires PoolInv(p) && Legal(p, cs)
    ensures PoolInv(Run(p, cs))
    decreases |cs|
  {
    if cs != [] {
      StepKeeps(p, cs[0]);
      RunKeeps(Step(p, cs[0]).0, cs[1..]);
    }
  }

  // ---- exclusive locks -------------------------------------------------------------------------

  /** No other descriptor refers to what descriptor `i` refers to. */
  predicate Exclusive(p: Pool, i: nat)
    requires i < |p.fds|
  {
    forall j :: 0 <= j < |p.fds| && j != i ==> p.fds[j].dev != p.fds[i].dev
  }

  predicate Locked(p: Pool, i: nat)
    requires i < |p.fds|
  {
    p.fds[i].flags.excl
  }

  /**
   TIOCEXCL is granted exactly when no other descriptor strictly below the high-water mark shares the
   device.  The grant is exclusive exactly when the descriptor at the mark does not share it either.
   */
  lemma LockGrant(p: Pool, i: nat, driver: Driver)
    requires PoolInv(p) && i < MAX_FD && p.fds[i].flags.dev
    ensures var (p', reply) := DoIoctl(p, i, TIOCEXCL, driver);
            && (reply.ret == 0 <==> forall j :: 0 <= j < p.maxFd && j != i ==> p.fds[j].dev != p.fds[i].dev)
            && (reply.ret != 0 ==> p' == p && reply == Reply(-EACCES, EACCES))
            && (reply.ret == 0 ==>
                  && Locked(p', i) && p'.fds[i].dev == p.fds[i].dev && 3 <= p.maxFd
                  && (Exclusive(p', i) <==> p.maxFd == i || p.fds[p.maxFd].dev != p.fds[i].dev))
  {
    var (p', reply) := DoIoctl(p, i, TIOCEXCL, driver);
    assert SlotInv(p.fds[i]);
    if reply.ret == 0 {
      forall j | 0 <= j < MAX_FD ensures p'.fds[j].dev == p.fds[j].dev { }
      forall j | p.maxFd < j < MAX_FD ensures p.fds[j].dev == Null { assert !Allocated(p, j); }
    }
  }

  /** Two opens of one device, then TIOCEXCL on the first: granted, although the second shares it. */
  lemma GrantNotAlwaysExclusive(dev: DevRef, driver: Driver)
    requires dev.Device? && dev != DEV_NULL && driver.status >= 0
    ensures var open := Open(dev, NO_FLAGS, driver);
            var calls := [open, open, Ioctl(3, TIOCEXCL, driver)];
            Legal(Initial(), calls) &&
            var p := Run(Initial(), calls);
            Locked(p, 3) && p.fds[3].dev == dev && p.fds[4].dev == dev && !Exclusive(p, 3)
  {
    var open := Open(dev, NO_FLAGS, driver);
    var lock := Ioctl(3, TIOCEXCL, driver);
    InitialInv();
    var p1 := OpenFirst(Initial(), 3, dev, driver);
    var p2 := OpenFirst(p1, 4, dev, driver);
    LockGrant(p2, 3, driver);
    var p3 := Step(p2, lock).0;
    assert p3.fds[4].dev == p3.fds[3].dev == dev;
    OneCall(p2, lock);
    FirstCall(p1, open, [lock]);
    FirstCall(Initial(), open, [open, lock]);
    assert [open] + [lock] == [open, lock] && [open] + [open, lock] == [open, open, lock];
  }

  lemma OneCall(p: Pool, c: Call)
    requires Callable(p, c)
    ensures Legal(p, [c]) && Run(p, [c]) == Step(p, c).0
  {
    assert [c][1..] == [];
  }

  lemma FirstCall(p: Pool, c: Call, cs: seq<Call>)
    requires Callable(p, c) && Legal(Step(p, c).0, cs)
    ensures Legal(p, [c] + cs) && Run(p, [c] + cs) == Run(Step(p, c).0, cs)
  {
    assert ([c] + cs)[1..] == cs;
  }

  lemma OpenFirst(p: Pool, k: nat, dev: DevRef, driver: Driver) returns (p': Pool)
    requires PoolInv(p) && k < MAX_FD && dev.Device? && driver.status >= 0 && !LockedBySomeone(p, dev)
    requires p.fds[k].dev == Null && forall j :: 0 <= j < k ==> p.fds[j].dev != Null
    ensures PoolInv(p') && p' == Step(p, Open(dev, NO_FLAGS, driver)).0 && !LockedBySomeone(p', dev)
    ensures p'.fds == p.fds[k := Opened(dev, NO_FLAGS, driver)] && p'.maxFd == if k > p.maxFd then k else p.maxFd
  {
    p' := Step(p, Open(dev, NO_FLAGS, driver)).0;
    FirstFreeIs(p.fds, k);
    OpenOutcome(p, dev, NO_FLAGS, driver);
    OpenKeeps(p, dev, NO_FLAGS, driver);
  }

  lemma FirstFreeIs(fds: seq<Fd>, k: nat)
    requires k < |fds| && fds[k].dev == Null
    requires forall j :: 0 <= j < k ==> fds[j].dev != Null
    ensures FirstFree(fds, 0) == k
  {
  }

  /** The calls that end descriptor `i`'s hold on its device: unlocking, closing or overwriting it. */
  predicate Ends(c: Call, i: nat) {
    || (c.Ioctl? && c.file == i && c.req == TIOCNXCL)
    || (c.Close? && c.file == i && i > 2)
    || (c.Redirect? && c.to == i)
  }

  /** Descriptor `i` holds an exclusive lock on `dev`. */
  predicate Holds(p: Pool, i: nat, dev: DevRef)
    requires i < |p.fds|
  {
    dev.Device? && p.fds[i].dev == dev && Locked(p, i) && Exclusive(p, i)
  }

  lemma HoldsStep(p: Pool, c: Call, i: nat, dev: DevRef)
    requires PoolInv(p) && Callable(p, c) && i < MAX_FD && Holds(p, i, dev) && !Ends(c, i)
    ensures var p' := Step(p, c).0; |p'.fds| == MAX_FD && Holds(p', i, dev)
  {
    assert LockedBySomeone(p, dev);
    match c
    case Open(d, flags, driver) => OpenOutcome(p, d, flags, driver);
    case Redirect(to, d, flags, driver) => RedirectOutcome(p, to, d, flags, driver);
    case _ =>
  }

  /**
   Exclusivity: a held device stays held by its one descriptor through any calls that do not end the hold.
   In particular no other descriptor comes to refer to it.
   */
  lemma {:induction false} HoldsForever(p: Pool, cs: seq<Call>, i: nat, dev: DevRef)
    requires PoolInv(p) && Legal(p, cs) && i < MAX_FD && Holds(p, i, dev)
    requires forall n :: 0 <= n < |cs| ==> !Ends(cs[n], i)
    ensures var p' := Run(p, cs); |p'.fds| == MAX_FD && Holds(p', i, dev)
    decreases |cs|
  {
    if cs != [] {
      HoldsStep(p, cs[0], i, dev);
      StepKeeps(p, cs[0]);
      HoldsForever(Step(p, cs[0]).0, cs[1..], i, dev);
    }
  }

  /** Exclusivity from the grant on: a TIOCEXCL granted with the mark's descriptor elsewhere lasts. */
  lemma GrantLasts(p: Pool, i: nat, driver: Driver, cs: seq<Call>)
    requires PoolInv(p) && i < MAX_FD && p.fds[i].flags.dev
    requires DoIoctl(p, i, TIOCEXCL, driver).1.ret == 0
    requires p.maxFd == i || p.fds[p.maxFd].dev != p.fds[i].dev
    requires Legal(DoIoctl(p, i, TIOCEXCL, driver).0, cs)
    requires forall n :: 0 <= n < |cs| ==> !Ends(cs[n], i)
    ensures var p' := Run(DoIoctl(p, i, TIOCEXCL, driver).0, cs);
            |p'.fds| == MAX_FD && Holds(p', i, p.fds[i].dev)
  {
    LockGrant(p, i, driver);
    IoctlKeeps(p, i, TIOCEXCL, driver);
    assert SlotInv(p.fds[i]);
    HoldsForever(DoIoctl(p, i, TIOCEXCL, driver).0, cs, i, p.fds[i].dev);
  }

  /** The exclusive flag comes from a granted TIOCEXCL on that descriptor, and from nowhere else. */
  lemma OnlyLockSetsExcl(p: Pool, c: Call, j: nat)
    requires PoolInv(p) && Callable(p, c) && j < MAX_FD
    ensures var (p', reply) := Step(p, c);
            |p'.fds| == MAX_FD &&
            (Locked(p', j) && !Locked(p, j) ==>
               c.Ioctl? && c.file == j && c.req == TIOCEXCL && p.fds[j].flags.dev && reply == Reply(0, 0))
  {
    match c
    case Open(d, flags, driver) => OpenOutcome(p, d, flags, driver);
    case Redirect(to, d, flags, driver) => RedirectOutcome(p, to, d, flags, driver);
    case _ =>
  }

  /** A lock, exclusive or not, stays on its descriptor and device until a call that ends it. */
  lemma LockStep(p: Pool, c: Call, i: nat)
    requires PoolInv(p) && Callable(p, c) && i < MAX_FD && Locked(p, i) && !Ends(c, i)
    ensures var p' := Step(p, c).0;
            |p'.fds| == MAX_FD && Locked(p', i) && p'.fds[i].dev == p.fds[i].dev
  {
    assert SlotInv(p.fds[i]) && Allocated(p, i);
    match c
    case Open(d, flags, driver) => OpenOutcome(p, d, flags, driver);
    case Redirect(to, d, flags, driver) => RedirectOutcome(p, to, d, flags, driver);
    case _ =>
  }

  /** Until then nobody can open the device: with a descriptor to spare, the answer is EACCES. */
  lemma {:induction false} LockShutsOut(p: Pool, cs: seq<Call>, i: nat, flags: Flags, driver: Driver)
    requires PoolInv(p) && Legal(p, cs) && i < MAX_FD && Locked(p, i)
    requires forall n :: 0 <= n < |cs| ==> !Ends(cs[n], i)
    ensures var p' := Run(p, cs);
            |p'.fds| == MAX_FD &&
            DoOpen(p', p.fds[i].dev, flags, driver).1
              == Reply(-1, if forall j :: 0 <= j < MAX_FD ==> p'.fds[j].dev != Null then EMFILE else EACCES)
    decreases |cs|
  {
    assert SlotInv(p.fds[i]);
    if cs != [] {
      LockStep(p, cs[0], i);
      StepKeeps(p, cs[0]);
      LockShutsOut(Step(p, cs[0]).0, cs[1..], i, flags, driver);
    } else {
      LockedOpenFails(p, i, flags, driver);
    }
  }

  lemma LockedOpenFails(p: Pool, i: nat, flags: Flags, driver: Driver)
    requires PoolInv(p) && i < MAX_FD && Locked(p, i)
    ensures DoOpen(p, p.fds[i].dev, flags, driver).1
              == Reply(-1, if forall j :: 0 <= j < MAX_FD ==> p.fds[j].dev != Null then EMFILE else EACCES)
  {
    var (dev, k) := (p.fds[i].dev, FirstFree(p.fds, 0));
    assert SlotInv(p.fds[i]);
    if k != -1 {
      assert !Allocated(p, k) && LockedBySomeone(p, dev);
      OpenSeesLocks(p, k, Fd(dev, p.fds[k].priv, Unprivileged(flags).(dev := true)));
    }
  }

  // ---- what each call does ---------------------------------------------------------------------

  function OpenError(p: Pool, dev: DevRef, driver: Driver): int {
    if dev == Null then ENODEV
    else if forall j :: 0 <= j < |p.fds| ==> p.fds[j].dev != Null then EMFILE
    else if dev.Device? && exists j :: 0 <= j < |p.fds| && p.fds[j].dev == dev && p.fds[j].flags.excl then EACCES
    else -driver.status
  }

  /** What a successful open puts into the descriptor, and what a failing one answers. */
  lemma OpenReply(p: Pool, dev: DevRef, flags: Flags, driver: Driver)
    requires PoolInv(p)
    ensures var (p', reply) := DoOpen(p, dev, flags, driver);
            && |p'.fds| == MAX_FD
            && (0 <= reply.ret < MAX_FD ==>
                  && reply.errno == 0
                  && p'.fds[reply.ret]
                       == Fd(dev, driver.priv, Flags(false, dev.Device?, flags.append, flags.nonblock, flags.rest)))
            && (reply.ret < 0 ==> reply == Reply(-1, OpenError(p, dev, driver)))
  {
    OpenOutcome(p, dev, flags, driver);
    var i := FirstFree(p.fds, 0);
    if dev != Null && i != -1 {
      assert !Allocated(p, i);
      OpenSeesLocks(p, i, Fd(dev, p.fds[i].priv, Unprivileged(flags).(dev := dev.Device?)));
      assert LockedBySomeone(p, dev) <==>
        exists j :: 0 <= j < MAX_FD && p.fds[j].dev == dev && p.fds[j].flags.excl;
    }
  }

  /**
   Close tells the driver and frees the descriptor whatever it answers, locked or not; but not a standard one.  It
   touches no other.
   */
  lemma CloseOutcome(p: Pool, file: int, driver: Driver)
    requires PoolInv(p) && file < MAX_FD
    ensures var (p', reply) := DoClose(p, file, driver);
            && |p'.fds| == MAX_FD && p'.maxFd == p.maxFd
            && (forall j :: 0 <= j < MAX_FD && (j != file || j <= 2) ==> p'.fds[j] == p.fds[j])
            && (file < 0 ==> reply == Reply(-1, EBADFD))
            && (file >= 0 && p.fds[file].dev != Null ==>
                  && reply == (if driver.status < 0 then Reply(-1, -driver.status) else Reply(0, 0))
                  && (file > 2 ==>
                        p'.fds[file].dev == Null && p'.fds[file].flags == Flags(false, false, false, false, 0)))
  {
  }

  /** Closing the one descriptor that holds a lock ends it: the device can be opened again. */
  lemma CloseEndsLock(p: Pool, i: nat, closing: Driver, flags: Flags, driver: Driver)
    requires PoolInv(p) && 3 <= i < MAX_FD && Locked(p, i) && driver.status >= 0
    requires forall j :: 0 <= j < MAX_FD && j != i && p.fds[j].dev == p.fds[i].dev ==> !Locked(p, j)
    ensures var p' := DoClose(p, i, closing).0;
            |p'.fds| == MAX_FD && DoOpen(p', p.fds[i].dev, flags, driver).1.ret >= 3
  {
    assert SlotInv(p.fds[i]);
    var (dev, p') := (p.fds[i].dev, DoClose(p, i, closing).0);
    CloseOutcome(p, i, closing);
    ReleaseKeeps(p, i);
    assert p'.fds[i].dev == Null;
    if LockedBySomeone(p', dev) {
      var j :| 0 <= j < |p'.fds| && p'.fds[j].dev == dev && p'.fds[j].flags.excl;
      assert j != i && Locked(p, j);
    }
    OpenOutcome(p', dev, flags, driver);
  }

  /** TIOCNXCL clears the lock, TIOCEXCL sets it when granted; all else is the driver's, and changes nothing. */
  lemma IoctlOutcome(p: Pool, file: int, req: Request, driver: Driver)
    requires PoolInv(p) && file < MAX_FD
    ensures var (p', reply) := DoIoctl(p, file, req, driver);
            && |p'.fds| == MAX_FD && p'.maxFd == p.maxFd
            && (forall j :: 0 <= j < MAX_FD && j != file ==> p'.fds[j] == p.fds[j])
            && (file < 0 ==> p' == p && reply == Reply(-EBADFD, EBADFD))
            && (file >= 0 ==>
                  var (fd, fd') := (p.fds[file], p'.fds[file]);
                  && fd' == fd.(flags := fd.flags.(excl := fd'.flags.excl))
                  && (fd.flags.dev && req == TIOCNXCL ==> !fd'.flags.excl && reply == Reply(0, 0))
                  && (fd.flags.dev && req == TIOCEXCL ==>
                        || (reply == Reply(0, 0) && fd'.flags.excl)
                        || (reply == Reply(-EACCES, EACCES) && fd' == fd))
                  && (!fd.flags.dev || req == Other ==>
                        && fd' == fd
                        && reply == if fd.dev == Null then Fault
                                    else Reply(driver.status, if driver.status < 0 then -driver.status else 0)))
  {
    if file >= 0 { assert SlotInv(p.fds[file]); }
  }

  /** F_GETFL reports the flags without the internal ones; other commands than the two are refused. */
  lemma FcntlOutcome(p: Pool, file: int, arg: Flags)
    requires PoolInv(p) && file < MAX_FD
    ensures file < 0 ==> forall cmd :: DoFcntl(p, file, cmd) == (p, Reply(-1, EBADFD))
    ensures file >= 0 ==>
              && (var f := p.fds[file].flags;
                  DoFcntl(p, file, F_GETFL) == (p, Report(Flags(false, false, f.append, f.nonblock, f.rest))))
              && DoFcntl(p, file, F_SETFL(arg)).1 == Reply(0, 0)
              && DoFcntl(p, file, OtherCommand) == (p, Reply(-1, EINVAL))
  {
  }

  // ---- what one call undoes --------------------------------------------------------------------

  /** Closing the descriptor an open returned restores every descriptor's device, and flags if the pool was clean. */
  lemma CloseUndoesOpen(p: Pool, dev: DevRef, flags: Flags, driver: Driver, closing: Driver)
    requires PoolInv(p)
    ensures var (p1, reply) := DoOpen(p, dev, flags, driver);
            reply.ret >= 0 ==>
              && Callable(p1, Close(reply.ret, closing))
              && var p2 := DoClose(p1, reply.ret, closing).0;
                 && |p2.fds| == MAX_FD
                 && forall j :: 0 <= j < MAX_FD ==>
                      Same(p2.fds[j], p.fds[j]) && (Clean(p) ==> p2.fds[j].flags == p.fds[j].flags)
  {
    OpenOutcome(p, dev, flags, driver);
    var i := FirstFree(p.fds, 0);
    if i >= 0 { assert SlotInv(p.fds[i]); }
  }

  /** Unlocking restores the pool a lock was granted in. */
  lemma UnlockUndoesLock(p: Pool, i: nat, driver: Driver)
    requires PoolInv(p) && i < MAX_FD && p.fds[i].flags.dev && !Locked(p, i)
    ensures var p1 := DoIoctl(p, i, TIOCEXCL, driver).0;
            |p1.fds| == MAX_FD && DoIoctl(p1, i, TIOCNXCL, driver) == (p, Reply(0, 0))
  {
    var p1 := DoIoctl(p, i, TIOCEXCL, driver).0;
    assert DoIoctl(p1, i, TIOCNXCL, driver).0.fds == p.fds;
  }

  /** What F_SETFL sets F_GETFL reports; all other flags, the internal ones among them, stay. */
  lemma FlagsReadBack(p: Pool, i: nat, arg: Flags)
    requires PoolInv(p) && i < MAX_FD
    ensures var p' := DoFcntl(p, i, F_SETFL(arg)).0;
            && |p'.fds| == MAX_FD
            && (forall j :: 0 <= j < MAX_FD && j != i ==> p'.fds[j] == p.fds[j])
            && p'.fds[i].(flags := p.fds[i].flags) == p.fds[i]
            && Locked(p', i) == Locked(p, i) && p'.fds[i].flags.dev == p.fds[i].flags.dev
            && DoFcntl(p', i, F_GETFL) ==
                 (p', Report(Flags(false, false, arg.append, arg.nonblock, p.fds[i].flags.rest)))
  {
  }

  /** All the calls of a sequence are tidy. */
  predicate AllTidy(p: Pool, cs: seq<Call>)
    requires Legal(p, cs)
    decreases |cs|
  {
    cs == [] || (Tidy(p, cs[0]) && AllTidy(Step(p, cs[0]).0, cs[1..]))
  }

  lemma TidyStep(p: Pool, c: Call)
    requires PoolInv(p) && Clean(p) && Callable(p, c)
    ensures Clean(Step(p, c).0) <==> Tidy(p, c)
  {
    match c
    case Open(d, flags, driver) => OpenOutcome(p, d, flags, driver);
    case Redirect(to, d, flags, driver) => RedirectOutcome(p, to, d, flags, driver);
    case Fcntl(file, cmd) => FcntlCleanExactly(p, file, cmd);
    case Ioctl(file, _, _) => if file >= 0 { assert SlotInv(p.fds[file]); }
    case _ =>
  }

  lemma {:induction false} TidyRun(p: Pool, cs: seq<Call>)
    requires PoolInv(p) && Clean(p) && Legal(p, cs) && AllTidy(p, cs)
    ensures Clean(Run(p, cs))
    decreases |cs|
  {
    if cs != [] {
      TidyStep(p, cs[0]);
      StepKeeps(p, cs[0]);
      TidyRun(Step(p, cs[0]).0, cs[1..]);
    }
  }

  /** What every pool reachable from the initial one satisfies. */
  lemma ReachablePool(cs: seq<Call>)
    requires Legal(Initial(), cs)
    ensures var p := Run(Initial(), cs);
            && |p.fds| == MAX_FD
            && p.fds[0].dev != Null && p.fds[1].dev != Null && p.fds[2].dev != Null
            && (forall i :: 0 <= i < MAX_FD && p.fds[i].dev == Null ==> !p.fds[i].flags.excl && !p.fds[i].flags.dev)
            && (AllTidy(Initial(), cs) ==>
                  forall i :: 0 <= i < MAX_FD && p.fds[i].dev == Null ==> p.fds[i].flags == NO_FLAGS)
            && (p.maxFd != -1 ==> forall i :: 0 <= i < MAX_FD && p.fds[i].dev != Null ==> i <= p.maxFd)
            && (p.maxFd == -1 ==> forall i :: 3 <= i < MAX_FD ==> p.fds[i].dev == Null)
  {
    InitialInv();
    RunKeeps(Initial(), cs);
    var p := Run(Initial(), cs);
    if AllTidy(Initial(), cs) { TidyRun(Initial(), cs); }
    assert Allocated(p, 0) && Allocated(p, 1) && Allocated(p, 2);
    forall i | 0 <= i < MAX_FD && p.fds[i].dev == Null ensures !p.fds[i].flags.excl && !p.fds[i].flags.dev {
      assert SlotInv(p.fds[i]);
    }
    forall i | 0 <= i < MAX_FD && p.fds[i].dev != Null ensures i <= if p.maxFd == -1 then 2 else p.maxFd {
      assert Allocated(p, i);
    }
  }
}
