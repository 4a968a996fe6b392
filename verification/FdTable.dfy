/** The descriptor calls of the HAL on the table they share, each proved to do what its function on pools does. */
module FdTable {
  import opened Machine
  import opened FdPool

  class Table {
    const list: array<Fd>
    var maxFd: int
    var errno: int

    ghost predicate Valid() { list.Length == MAX_FD }

    ghost function View(): Pool
      requires Valid()
      reads this, list
    {
      Pool(list[..], maxFd)
    }

    /** The table as the linker initialises it: the standard descriptors on the null device, the mark at -1. */
    constructor ()
      ensures Valid() && View() == InitialPool()
    {
      list := new Fd[MAX_FD](i => if 0 <= i <= 2 then Fd(DEV_NULL, 0) else Fd(NoDev, 0));
      maxFd := -1;
      errno := 0;
    }

    /** alt_get_fd */
    method GetFd(dev: Dev) returns (rc: int)
      requires Valid()
      modifies this`maxFd, list
      ensures (View(), rc) == FdPool.GetFd(old(View()), dev)
    {
      rc := -EMFILE;
      var i := 0;
      while i < MAX_FD
        invariant 0 <= i <= MAX_FD && rc == -EMFILE
        invariant View() == old(View())
        invariant FirstFree(list[..], i) == FirstFree(list[..], 0)
      {
        if list[i].dev == NoDev {
          list[i] := list[i].(dev := dev);
          if i > maxFd {
            maxFd := i;
          }
          return i;
        }
        i := i + 1;
      }
    }

    /** alt_release_fd */
    method Release(fd: int)
      requires Valid() && fd < MAX_FD
      modifies list
      ensures View() == FdPool.Release(old(View()), fd)
    {
      if fd > 2 {
        list[fd] := list[fd].(flags := 0);
        list[fd] := list[fd].(dev := NoDev);
      }
    }

    /** alt_file_locked: marks the descriptor, then looks for a lock up to and including the high-water mark. */
    method FileLocked(fd: nat) returns (rc: int)
      requires Valid() && fd < MAX_FD && 0 <= maxFd < MAX_FD
      modifies list
      ensures list[..] == old(list[..])[fd := Fd(old(list[fd]).dev, MarkDev(old(list[fd]).flags))]
      ensures rc == if LockedByOther(View(), fd) then -EACCES else 0
    {
      list[fd] := list[fd].(flags := MarkDev(list[fd].flags));
      var i := 0;
      while i <= maxFd
        invariant 0 <= i <= maxFd + 1
        invariant forall k :: 0 <= k < i ==> !(k != fd && list[k].dev == list[fd].dev && Exclusive(list[k]))
      {
        if list[i].dev == list[fd].dev && Exclusive(list[i]) && i != fd {
          assert View().fds[i] == list[i];
          return -EACCES;
        }
        i := i + 1;
      }
      return 0;
    }

    /** ALT_OPEN: found is what the name lookup yields, driver what the device's open function returns. */
    method Open(found: Dev, flags: bv32, driver: int) returns (rc: int)
      requires Valid() && -1 <= maxFd < MAX_FD
      requires forall i :: 0 <= i < 3 ==> list[i].dev != NoDev
      modifies this, list
      ensures View() == FdPool.Open(old(View()), found, flags, driver).0
      ensures var want := FdPool.Open(old(View()), found, flags, driver).1;
              if want < 0 then rc == -1 && errno == -want else rc == want && errno == old(errno)
    {
      hide LockedByOther, UserFlags, MarkDev, Exclusive;
      var index, status := -1, -ENODEV;
      if found != NoDev {
        index := GetFd(found);
        if index < 0 {
          status := index;
        } else {
          ghost var got := View();
          assert 2 < index;
          list[index] := list[index].(flags := UserFlags(flags));
          status := 0;
          if found.Device? {
            status := FileLocked(index);
          }
          assert View() == got.(fds := got.fds[index := Fd(found, OpenFlags(flags, found))]);
          if status >= 0 {
            status := driver;
          }
        }
      }
      if status < 0 {
        Release(index);
        assert list[..] == FdPool.Open(old(View()), found, flags, driver).0.fds;
        errno := -status;
        return -1;
      }
      return index;
    }

    /** ALT_CLOSE */
    method Close(file: int, driver: int) returns (rc: int)
      requires Valid() && file < MAX_FD
      modifies this`errno, list
      ensures (View(), if rc < 0 then -errno else rc) == FdPool.Close(old(View()), file, driver)
      ensures rc == -1 || (rc == 0 && errno == old(errno))
    {
      if file >= 0 {
        Release(file);
        if driver < 0 {
          errno := -driver;
          return -1;
        }
        return 0;
      }
      errno := EBADFD;
      return -1;
    }

    /** alt_fd_lock: looks for another descriptor on the device, but only below the high-water mark. */
    method FdLock(fd: nat) returns (rc: int)
      requires Valid() && fd < MAX_FD && maxFd < MAX_FD
      modifies list
      ensures rc == if SharedBelowMark(old(View()), fd) then -EACCES else 0
      ensures list[..] == if rc < 0 then old(list[..])
                          else old(list[..])[fd := Fd(old(list[fd]).dev, SetExcl(old(list[fd]).flags))]
    {
      var i := 0;
      while i < maxFd
        invariant 0 <= i && list[..] == old(list[..])
        invariant forall k :: 0 <= k < i && k < maxFd ==> !(k != fd && list[k].dev == list[fd].dev)
      {
        if i != fd && list[i].dev == list[fd].dev {
          assert View().fds[i] == list[i];
          return -EACCES;
        }
        i := i + 1;
      }
      list[fd] := list[fd].(flags := SetExcl(list[fd].flags));
      return 0;
    }

    /** alt_fd_unlock */
    method FdUnlock(fd: nat) returns (rc: int)
      requires Valid() && fd < MAX_FD
      modifies list
      ensures rc == 0
      ensures list[..] == old(list[..])[fd := Fd(old(list[fd]).dev, ClearExcl(old(list[fd]).flags))]
    {
      list[fd] := list[fd].(flags := ClearExcl(list[fd].flags));
      return 0;
    }

    /** ALT_IOCTL; driver is the result of the device's ioctl function, if it has one. */
    method Ioctl(file: int, req: Request, driver: Option<int>) returns (rc: int)
      requires Valid() && file < MAX_FD && maxFd < MAX_FD
      modifies this`errno, list
      ensures View() == FdPool.Ioctl(old(View()), file, req, driver).0
      ensures rc == FdPool.Ioctl(old(View()), file, req, driver).1
      ensures errno == if rc < 0 then -rc else old(errno)
    {
      hide SharedBelowMark, SetExcl, ClearExcl, MarkedDevice;
      ghost var p := View();
      ghost var spec := FdPool.Ioctl(p, file, req, driver);
      if file >= 0 {
        if MarkedDevice(list[file]) && req.Excl? {
          rc := FdLock(file);
          assert list[..] == spec.0.fds;
        } else if MarkedDevice(list[file]) && req.NExcl? {
          rc := FdUnlock(file);
          assert list[..] == spec.0.fds;
        } else if driver.Some? {
          rc := driver.value;
          assert spec.0 == p;
        } else {
          rc := -ENOTTY;
          assert spec.0 == p;
        }
      } else {
        rc := -EBADFD;
        assert spec.0 == p;
      }
      assert list[..] == spec.0.fds;
      if rc < 0 {
        errno := -rc;
      }
    }

    /** ALT_FCNTL. F_GETFL returns the flags without the two internal ones; other commands return rc. */
    method Fcntl(file: int, cmd: Command) returns (rc: int, flags: bv32)
      requires Valid() && file < MAX_FD
      modifies this`errno, list
      ensures View() == FdPool.Fcntl(old(View()), file, cmd)
      ensures rc == if file < 0 || cmd.Unknown? then -1 else 0
      ensures file >= 0 && cmd.GetFl? ==> flags == UserFlags(list[file].flags)
      ensures errno == if file < 0 then EBADFD else if cmd.Unknown? then EINVAL else old(errno)
    {
      hide ClearStatus, AddStatus, UserFlags;
      rc, flags := 0, 0;
      if file >= 0 {
        match cmd
        case GetFl =>
          flags := UserFlags(list[file].flags);
        case SetFl(arg) =>
          list[file] := list[file].(flags := ClearStatus(list[file].flags));
          list[file] := list[file].(flags := AddStatus(list[file].flags, arg));
          assert list[..] == old(list[..])[file := Fd(old(list[file]).dev, FcntlFlags(old(list[file]).flags, arg))];
        case Unknown =>
          errno := EINVAL;
          rc := -1;
      } else {
        errno := EBADFD;
        rc := -1;
      }
    }

    /** alt_open_fd, used at start-up to point a standard descriptor at a device. */
    method Redirect(std: nat, found: Dev, flags: bv32, driver: int)
      requires Valid() && -1 <= maxFd < MAX_FD && std <= 2
      requires forall i :: 0 <= i < 3 ==> list[i].dev != NoDev
      modifies this, list
      ensures View() == FdPool.Redirect(old(View()), std, found, flags, driver)
    {
      var old_ := Open(found, flags, driver);
      if old_ >= 0 {
        list[std] := list[old_];
        Release(old_);
      }
    }
  }
}
