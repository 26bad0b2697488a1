/** The code of the descriptor pool, over the array it updates in place. */
module FdTable {
  import opened Platform
  import opened FdPool

  class Table {
    const fds: array<Fd>                     // alt_fd_list
    var maxFd: int                           // alt_max_fd

    ghost function Contents(): Pool
      reads this, fds
    {
      Pool(fds[..], maxFd)
    }

    ghost predicate Valid()
      reads this, fds
    {
      PoolInv(Contents())
    }

    constructor ()
      ensures Valid() && Contents() == Initial() && fresh(fds)
    {
      fds := new Fd[MAX_FD](i => Fd(if i <= 2 then DEV_NULL else Null, 0, NO_FLAGS));
      maxFd := -1;
      new;
      assert fds[..] == Initial().fds;
      InitialInv();
    }

    /** alt_get_fd: allocate the first free descriptor. */
    method GetFd(dev: DevRef) returns (rc: int)
      requires fds.Length == MAX_FD && dev != Null
      modifies this, fds
      ensures rc == if FirstFree(old(fds[..]), 0) == -1 then -EMFILE else FirstFree(old(fds[..]), 0)
      ensures rc < 0 ==> Contents() == old(Contents())
      ensures rc >= 0 ==>
                && rc < MAX_FD
                && fds[..] == old(fds[..])[rc := old(fds[rc]).(dev := dev)]
                && maxFd == if rc > old(maxFd) then rc else old(maxFd)
    {
      rc := -EMFILE;
      var i := 0;
      while i < MAX_FD
        invariant i <= MAX_FD && rc == -EMFILE && Contents() == old(Contents())
        invariant forall j :: 0 <= j < i ==> fds[j].dev != Null
      {
        if fds[i].dev == Null {
          FirstFreeIs(fds[..], i);
          fds[i] := fds[i].(dev := dev);
          if i > maxFd {
            maxFd := i;
          }
          rc := i;
          return;
        }
        i := i + 1;
      }
      assert forall j :: 0 <= j < MAX_FD ==> fds[..][j].dev != Null;
    }

    /** alt_release_fd: the standard descriptors are never released. */
    method ReleaseFd(fd: int)
      requires fds.Length == MAX_FD && fd < MAX_FD
      modifies fds
      ensures Contents() == Release(old(Contents()), fd)
    {
      if fd > 2 {
        fds[fd] := fds[fd].(flags := NO_FLAGS);
        fds[fd] := fds[fd].(dev := Null);
      }
    }

    /** alt_file_locked: mark the descriptor as a device's, then look for a lock on the device. */
    method CheckLocked(fd: nat) returns (status: int)
      requires fds.Length == MAX_FD && fd < MAX_FD && 0 <= maxFd < MAX_FD
      modifies fds
      ensures fds[..] == old(fds[..])[fd := old(fds[fd]).(flags := old(fds[fd]).flags.(dev := true))]
      ensures status == if FdPool.FileLocked(Contents(), fd) then -EACCES else 0
    {
      fds[fd] := fds[fd].(flags := fds[fd].flags.(dev := true));
      var i := 0;
      while i <= maxFd
        invariant i <= maxFd + 1
        invariant fds[..] == old(fds[..])[fd := old(fds[fd]).(flags := old(fds[fd]).flags.(dev := true))]
        invariant forall j :: 0 <= j < i ==> !(fds[j].dev == fds[fd].dev && fds[j].flags.excl && j != fd)
      {
        if fds[i].dev == fds[fd].dev && fds[i].flags.excl && i != fd {
          assert Contents().fds[i].flags.excl;
          return -EACCES;
        }
        i := i + 1;
      }
      return 0;
    }

    /** ALT_OPEN, for a name that is found as `dev` in the device list or the file system list. */
    method Open(dev: DevRef, flags: Flags, driver: Driver) returns (reply: Reply)
      requires Valid()
      modifies this, fds
      ensures Valid() && (Contents(), reply) == DoOpen(old(Contents()), dev, flags, driver)
    {
      OpenKeeps(Contents(), dev, flags, driver);
      ghost var p := Contents();
      var index, status := -1, -ENODEV;
      if dev != Null {
        index := GetFd(dev);
        if index < 0 {
          status := index;
        } else {
          FreeIsHigh(p, index);
          status := Admit(index, dev, flags);
          ghost var own := Fd(dev, p.fds[index].priv, Unprivileged(flags).(dev := dev.Device?));
          assert Contents() == Pool(p.fds[index := own], if index > p.maxFd then index else p.maxFd);
          if status >= 0 {
            fds[index] := fds[index].(priv := driver.priv);
            status := driver.status;
          }
        }
      }
      if status < 0 {
        ReleaseFd(index);
        return Reply(-1, -status);
      }
      return Reply(index, 0);
    }

    /** The new descriptor's flags; and for a device, whether it is locked. */
    method Admit(index: nat, dev: DevRef, flags: Flags) returns (status: int)
      requires fds.Length == MAX_FD && index <= maxFd < MAX_FD && fds[index].dev == dev
      modifies fds
      ensures fds[..] == old(fds[..])[index := Fd(dev, old(fds[index]).priv, Unprivileged(flags).(dev := dev.Device?))]
      ensures status == if dev.Device? && FdPool.FileLocked(Contents(), index) then -EACCES else 0
    {
      fds[index] := fds[index].(flags := Unprivileged(flags));
      status := 0;
      if dev.Device? {
        status := CheckLocked(index);
      }
    }

    /** alt_fd_lock: refused if a descriptor below the high-water mark shares the device. */
    method FdLock(fd: nat) returns (rc: int)
      requires fds.Length == MAX_FD && fd < MAX_FD && maxFd < MAX_FD
      modifies fds
      ensures rc == if Shared(old(Contents()), fd) then -EACCES else 0
      ensures rc != 0 ==> Contents() == old(Contents())
      ensures rc == 0 ==> fds[..] == old(fds[..])[fd := old(fds[fd]).(flags := old(fds[fd]).flags.(excl := true))]
    {
      var i := 0;
      while i < maxFd
        invariant i == 0 || i <= maxFd
        invariant Contents() == old(Contents())
        invariant forall j :: 0 <= j < i ==> !(j != fd && fds[j].dev == fds[fd].dev)
      {
        if i != fd && fds[i].dev == fds[fd].dev {
          assert Contents().fds[i].dev == Contents().fds[fd].dev;
          return -EACCES;
        }
        i := i + 1;
      }
      fds[fd] := fds[fd].(flags := fds[fd].flags.(excl := true));
      return 0;
    }

    /** alt_fd_unlock. */
    method FdUnlock(fd: nat) returns (rc: int)
      requires fds.Length == MAX_FD && fd < MAX_FD
      modifies fds
      ensures rc == 0
      ensures fds[..] == old(fds[..])[fd := old(fds[fd]).(flags := old(fds[fd]).flags.(excl := false))]
    {
      fds[fd] := fds[fd].(flags := fds[fd].flags.(excl := false));
      return 0;
    }

    /** ALT_IOCTL. */
    method Ioctl(file: int, req: Request, driver: Driver) returns (reply: Reply)
      requires Valid() && Callable(Contents(), Call.Ioctl(file, req, driver))
      modifies fds
      ensures Valid() && (Contents(), reply) == DoIoctl(old(Contents()), file, req, driver)
    {
      IoctlKeeps(Contents(), file, req, driver);
      var rc;
      if file >= 0 {
        if fds[file].flags.dev && req == TIOCEXCL {
          rc := FdLock(file);
        } else if fds[file].flags.dev && req == TIOCNXCL {
          rc := FdUnlock(file);
        } else {
          if fds[file].dev == Null {
            return Fault;
          }
          rc := driver.status;
        }
      } else {
        rc := -EBADFD;
      }
      return Reply(rc, if rc < 0 then -rc else 0);
    }

    /** ALT_FCNTL. */
    method Fcntl(file: int, cmd: Command) returns (reply: Reply)
      requires Valid() && Callable(Contents(), Call.Fcntl(file, cmd))
      modifies fds
      ensures Valid() && (Contents(), reply) == DoFcntl(old(Contents()), file, cmd)
      ensures Clean(old(Contents())) ==> (Clean(Contents()) <==> Tidy(old(Contents()), Call.Fcntl(file, cmd)))
    {
      FcntlKeeps(Contents(), file, cmd);
      if Clean(Contents()) { FcntlCleanExactly(Contents(), file, cmd); }
      if file < 0 {
        return Reply(-1, EBADFD);
      }
      match cmd
      case F_GETFL =>
        return Report(Unprivileged(fds[file].flags));
      case F_SETFL(arg) =>
        fds[file] := fds[file].(flags := fds[file].flags.(append := false, nonblock := false));
        fds[file] := fds[file].(flags := fds[file].flags.(append := arg.append, nonblock := arg.nonblock));
        assert Contents() == DoFcntl(old(Contents()), file, cmd).0;
        return Reply(0, 0);
      case OtherCommand =>
        return Reply(-1, EINVAL);
    }

    /** ALT_CLOSE. */
    method Close(file: int, driver: Driver) returns (reply: Reply)
      requires Valid() && Callable(Contents(), Call.Close(file, driver))
      modifies fds
      ensures Valid() && (Contents(), reply) == DoClose(old(Contents()), file, driver)
    {
      ReleaseKeeps(Contents(), file);
      if file < 0 {
        return Reply(-1, EBADFD);
      }
      if fds[file].dev == Null {
        return Fault;
      }
      var rval := driver.status;
      ReleaseFd(file);
      if rval < 0 {
        return Reply(-1, -rval);
      }
      return Reply(0, 0);
    }

    /** alt_open_fd: if the device can be opened, `to` takes over the new descriptor. */
    method OpenFd(to: nat, dev: DevRef, flags: Flags, driver: Driver)
      requires Valid() && to <= 2
      modifies this, fds
      ensures Valid() && Contents() == DoRedirect(old(Contents()), to, dev, flags, driver).0
    {
      RedirectKeeps(Contents(), to, dev, flags, driver);
      OpenOutcome(Contents(), dev, flags, driver);
      var reply := Open(dev, flags, driver);
      var slot := reply.ret;
      if slot >= 0 {
        fds[to] := Fd(fds[slot].dev, fds[slot].priv, fds[slot].flags);
        ReleaseFd(slot);
      }
    }

    /** alt_io_redirect: standard output, then input, then error. */
    method IoRedirect(stdout: DevRef, stdin: DevRef, stderr: DevRef,
                      read: Flags, write: Flags, drivers: seq<Driver>)
      requires Valid() && |drivers| == 3
      modifies this, fds
      ensures Valid()
      ensures var p1 := DoRedirect(old(Contents()), 1, stdout, write, drivers[0]).0;
              var p2 := DoRedirect(p1, 0, stdin, read, drivers[1]).0;
              Contents() == DoRedirect(p2, 2, stderr, write, drivers[2]).0
    {
      OpenFd(1, stdout, write, drivers[0]);
      OpenFd(0, stdin, read, drivers[1]);
      OpenFd(2, stderr, write, drivers[2]);
    }
  }
}
