/** What each call on the descriptor pool does to it, and what it returns. */
module FdEffects {
  import opened Machine
  import opened FdPool

  // ---------------------------------------------------------------- flags

  /** The bits of a flag word under a mask. */
  function Masked(flags: bv32, mask: bv32): bv32 { flags & mask }

  /** Open keeps the caller's flags but for the two internal bits: it clears the lock and sets the device mark itself. */
  lemma OpenFlagsAre(flags: bv32, dev: Dev)
    ensures Masked(OpenFlags(flags, dev), 0x3fff_ffff) == Masked(flags, 0x3fff_ffff)
    ensures Masked(OpenFlags(flags, dev), 0x8000_0000) == 0
    ensures Masked(OpenFlags(flags, dev), 0x4000_0000) == if dev.Device? then 0x4000_0000 else 0
  {
    hide Masked, UserFlags, MarkDev;
    UserBits(flags);
    MarkedBits(UserFlags(flags));
  }

  lemma UserBits(flags: bv32)
    ensures Masked(UserFlags(flags), 0x3fff_ffff) == Masked(flags, 0x3fff_ffff)
    ensures Masked(UserFlags(flags), 0x8000_0000) == 0 && Masked(UserFlags(flags), 0x4000_0000) == 0
  {
  }

  lemma MarkedBits(flags: bv32)
    ensures Masked(MarkDev(flags), 0x3fff_ffff) == Masked(flags, 0x3fff_ffff)
    ensures Masked(MarkDev(flags), 0x8000_0000) == Masked(flags, 0x8000_0000)
    ensures Masked(MarkDev(flags), 0x4000_0000) == 0x4000_0000
  {
  }

  /** F_SETFL takes O_NONBLOCK and O_APPEND from its argument and leaves all other bits. */
  lemma SetFlagsAre(flags: bv32, arg: bv32)
    ensures Masked(FcntlFlags(flags, arg), 0x4008) == Masked(arg, 0x4008)
    ensures Masked(FcntlFlags(flags, arg), 0xffff_bff7) == Masked(flags, 0xffff_bff7)
  {
  }

  /** F_GETFL shows all bits but the two internal ones. */
  lemma GetFlagsAre(flags: bv32)
    ensures UserFlags(flags) == Masked(flags, 0x3fff_ffff)
  {
  }

  /** Locking and unlocking change the top bit only. */
  lemma LockFlagsAre(flags: bv32)
    ensures Masked(SetExcl(flags), 0x7fff_ffff) == Masked(flags, 0x7fff_ffff)
    ensures Masked(SetExcl(flags), 0x8000_0000) == 0x8000_0000
    ensures Masked(ClearExcl(flags), 0x7fff_ffff) == Masked(flags, 0x7fff_ffff)
    ensures Masked(ClearExcl(flags), 0x8000_0000) == 0
  {
    hide Masked, SetExcl, ClearExcl;
    SetBit(flags);
    ClearBit(flags);
  }

  lemma SetBit(flags: bv32)
    ensures Masked(SetExcl(flags), 0x7fff_ffff) == Masked(flags, 0x7fff_ffff)
    ensures Masked(SetExcl(flags), 0x8000_0000) == 0x8000_0000
  {
  }

  lemma ClearBit(flags: bv32)
    ensures Masked(ClearExcl(flags), 0x7fff_ffff) == Masked(flags, 0x7fff_ffff)
    ensures Masked(ClearExcl(flags), 0x8000_0000) == 0
  {
  }

  lemma MarkIs(fd: Fd)
    ensures MarkedDevice(fd) <==> Masked(fd.flags, 0x4000_0000) == 0x4000_0000
  {
  }

  // ---------------------------------------------------------------- close

  /** Closing a descriptor frees it, whatever the driver's close function says, and leaves the others and the high-water
      mark alone; the standard ones stay open. */
  lemma CloseEffect(p: Pool, file: int, driver: int)
    requires |p.fds| == MAX_FD && file < MAX_FD
    ensures var (q, rc) := Close(p, file, driver);
            && q.maxFd == p.maxFd
            && (rc == if file < 0 then -EBADFD else if driver < 0 then driver else 0)
            && (file <= 2 ==> q.fds == p.fds)
            && (file > 2 ==>
                  && q.fds[file] == Fd(NoDev, 0) && |q.fds| == |p.fds|
                  && (forall k :: 0 <= k < MAX_FD && k != file ==> q.fds[k] == p.fds[k])
                  && (forall dev :: dev != NoDev ==> Users(q, dev) == Users(p, dev) - {file}))
  {
  }

  // ---------------------------------------------------------------- open

  /** What open returns: an error exactly when the device is unknown, the table full, the device locked or its driver
      unwilling, in this order, and otherwise the lowest free descriptor. */
  lemma OpenResult(p: Pool, found: Dev, flags: bv32, driver: int)
    requires Inv(p)
    ensures var rc := Open(p, found, flags, driver).1;
            if found == NoDev then rc == -ENODEV
            else if forall k :: 0 <= k < MAX_FD ==> p.fds[k].dev != NoDev then rc == -EMFILE
            else if Locked(p, found) then rc == -EACCES
            else if driver < 0 then rc == driver
            else 2 < rc < MAX_FD && p.fds[rc].dev == NoDev && forall k :: 0 <= k < rc ==> p.fds[k].dev != NoDev
    ensures var (q, rc) := Open(p, found, flags, driver); rc >= 0 ==> q.maxFd == if rc > p.maxFd then rc else p.maxFd
  {
    hide Inv, Exclusive, OpenFlags;
    FreeSlotsUnmarked(p);
    var i := FirstFree(p.fds, 0);
    assert |p.fds| == MAX_FD && -1 <= p.maxFd < MAX_FD by { PoolSizes(p); }
    if found != NoDev && i < MAX_FD {
      var (got, j) := GetFd(p, found);
      assert j == i;
      OpenLockTest(p, got, found, flags, i);
    }
  }

  lemma PoolSizes(p: Pool)
    requires Inv(p)
    ensures |p.fds| == MAX_FD && -1 <= p.maxFd < MAX_FD
  {
  }

  /** The scan in open finds a lock exactly if there is one. */
  lemma OpenLockTest(p: Pool, got: Pool, found: Dev, flags: bv32, i: nat)
    requires Inv(p) && i < MAX_FD && p.fds[i].dev == NoDev && found != NoDev
    requires got == Pool(p.fds[i := p.fds[i].(dev := found)], if i > p.maxFd then i else p.maxFd)
    ensures var q := got.(fds := got.fds[i := Fd(found, OpenFlags(flags, found))]);
            (found.Device? && LockedByOther(q, i)) <==> Locked(p, found)
  {
    hide OpenFlags;
    var q := got.(fds := got.fds[i := Fd(found, OpenFlags(flags, found))]);
    assert forall k :: 0 <= k < MAX_FD && k != i ==> q.fds[k] == p.fds[k];
    FreeSlotsUnmarked(p);
    if Locked(p, found) {
      var k :| 0 <= k < |p.fds| && p.fds[k].dev == found && Exclusive(p.fds[k]);
      MarkCoversHolders(p, k);
      assert q.fds[k] == p.fds[k];
    }
  }

  /** An open and the close of what it returned leave every descriptor as it was. */
  lemma OpenThenClose(p: Pool, found: Dev, flags: bv32, driver: int, closing: int)
    requires Inv(p)
    ensures var q := OpenClose(p, found, flags, driver, closing); SameDescriptors(p, q) && Inv(q)
  {
    hide Inv, Open;
    var (q, rc) := Open(p, found, flags, driver);
    OpenEffect(p, found, flags, driver);
    OpenKeepsInv(p, found, flags, driver);
    PoolSizes(p);
    PoolSizes(q);
    if rc >= 0 {
      ReleaseKeepsInv(q, rc);
      CloseEffect(q, rc, closing);
    }
  }

  function OpenClose(p: Pool, found: Dev, flags: bv32, driver: int, closing: int): Pool {
    var (q, rc) := Open(p, found, flags, driver);
    if rc >= 0 then Close(q, rc, closing).0 else q
  }

  /** The same pair of calls n times over. */
  function Cycled(p: Pool, found: Dev, flags: bv32, driver: int, closing: int, n: nat): Pool {
    if n == 0 then p else OpenClose(Cycled(p, found, flags, driver, closing, n - 1), found, flags, driver, closing)
  }

  /** Opening and closing never wears the table out: after any number of such pairs, in any pool a run can reach, the
      descriptors are the same and an open returns what it returned at first. */
  lemma {:induction false} CyclesChangeNothing(p: Pool, found: Dev, flags: bv32, driver: int, closing: int, n: nat)
    requires Inv(p)
    ensures var q := Cycled(p, found, flags, driver, closing, n);
            && SameDescriptors(p, q) && Inv(q)
            && Open(q, found, flags, driver).1 == Open(p, found, flags, driver).1
  {
    hide Inv, Open, OpenClose;
    var q := Cycled(p, found, flags, driver, closing, n);
    if n > 0 {
      var q1 := Cycled(p, found, flags, driver, closing, n - 1);
      CyclesChangeNothing(p, found, flags, driver, closing, n - 1);
      OpenThenClose(q1, found, flags, driver, closing);
    }
    PoolSizes(p);
    PoolSizes(q);
    OpenResult(p, found, flags, driver);
    OpenResult(q, found, flags, driver);
    if found != NoDev {
      SameLocks(p, q, found);
    }
  }

  lemma SameLocks(p: Pool, q: Pool, dev: Dev)
    requires SameDescriptors(p, q) && dev != NoDev
    ensures Locked(p, dev) <==> Locked(q, dev)
  {
  }

  // ---------------------------------------------------------------- redirection

  /** A redirection that succeeds leaves the standard descriptor open on the new device with the caller's flags, the
      intermediate descriptor free and all others alone; one that fails changes no descriptor. */
  lemma RedirectEffect(p: Pool, std: nat, found: Dev, flags: bv32, driver: int)
    requires Inv(p) && std <= 2
    ensures var q, rc := Redirect(p, std, found, flags, driver), Open(p, found, flags, driver).1;
            if rc < 0 then SameDescriptors(p, q)
            else
              && |q.fds| == MAX_FD && 2 < rc < MAX_FD && p.fds[rc].dev == NoDev
              && q.fds[std] == Fd(found, OpenFlags(flags, found)) && q.fds[rc] == Fd(NoDev, 0)
              && forall k :: 0 <= k < MAX_FD && k != std && k != rc ==> q.fds[k] == p.fds[k]
  {
    hide Open, OpenFlags;
    PoolSizes(p);
    OpenEffect(p, found, flags, driver);
  }

  // ---------------------------------------------------------------- ioctl

  /** What TIOCEXCL and TIOCNXCL return and change: only the lock bit of their own descriptor; anything else is up to the
      driver and changes nothing here. */
  lemma IoctlEffect(p: Pool, file: nat, req: Request, driver: Option<int>)
    requires |p.fds| == MAX_FD && file < MAX_FD
    ensures var (q, rc) := Ioctl(p, file, req, driver);
            var fd := p.fds[file];
            && q.maxFd == p.maxFd && |q.fds| == MAX_FD
            && (forall k :: 0 <= k < MAX_FD && k != file ==> q.fds[k] == p.fds[k])
            && q.fds[file].dev == fd.dev && Masked(q.fds[file].flags, 0x7fff_ffff) == Masked(fd.flags, 0x7fff_ffff)
            && (if Masked(fd.flags, 0x4000_0000) != 0x4000_0000 || req.Other?
                then q == p && rc == if driver.Some? then driver.value else -ENOTTY
                else if req.NExcl? then rc == 0 && Masked(q.fds[file].flags, 0x8000_0000) == 0
                else if exists k :: 0 <= k < p.maxFd && k < MAX_FD && k != file && p.fds[k].dev == fd.dev
                then q == p && rc == -EACCES
                else rc == 0 && Masked(q.fds[file].flags, 0x8000_0000) == 0x8000_0000)
  {
    hide SetExcl, ClearExcl, Masked, MarkedDevice;
    LockFlagsAre(p.fds[file].flags);
    MarkIs(p.fds[file]);
  }

  /** F_SETFL changes only its own descriptor, and there only the two status flags; nothing else changes anything. */
  lemma FcntlEffect(p: Pool, file: int, cmd: Command)
    requires |p.fds| == MAX_FD && file < MAX_FD
    ensures var q := Fcntl(p, file, cmd);
            if file < 0 || !cmd.SetFl? then q == p
            else
              && q.maxFd == p.maxFd && |q.fds| == MAX_FD
              && (forall k :: 0 <= k < MAX_FD && k != file ==> q.fds[k] == p.fds[k])
              && q.fds[file].dev == p.fds[file].dev
              && Masked(q.fds[file].flags, 0x4008) == Masked(cmd.arg, 0x4008)
              && Masked(q.fds[file].flags, 0xffff_bff7) == Masked(p.fds[file].flags, 0xffff_bff7)
  {
    hide Masked, FcntlFlags;
    if file >= 0 && cmd.SetFl? {
      SetFlagsAre(p.fds[file].flags, cmd.arg);
    }
  }
}
