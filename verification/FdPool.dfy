/** The HAL's file descriptor pool and exclusive locking of devices, as functions on the pool. */
module FdPool {
  import opened Machine

  const MAX_FD := 32

  const FD_EXCL: bv32 := 0x8000_0000
  const FD_DEV: bv32 := 0x4000_0000
  const FD_FLAGS_MASK: bv32 := FD_EXCL | FD_DEV

  const O_APPEND: bv32 := 0x0008
  const O_NONBLOCK: bv32 := 0x4000
  const FCNTL_FLAGS_MASK: bv32 := O_APPEND | O_NONBLOCK

  /** A device structure; device drivers and filesystems are registered in lists of their own. */
  datatype Dev = NoDev | Device(n: nat) | FileSystem(n: nat)

  datatype Fd = Fd(dev: Dev, flags: bv32)

  type Table = fds: seq<Fd> | |fds| == MAX_FD witness seq(MAX_FD, _ => Fd(NoDev, 0))

  datatype Pool = Pool(fds: Table, maxFd: int)

  const DEV_NULL := Device(0)

  function InitialPool(): Pool {
    Pool(seq(MAX_FD, i => if i <= 2 then Fd(DEV_NULL, 0) else Fd(NoDev, 0)), -1)
  }

  predicate Exclusive(fd: Fd) { fd.flags & FD_EXCL != 0 }
  predicate MarkedDevice(fd: Fd) { fd.flags & FD_DEV != 0 }

  function UserFlags(flags: bv32): bv32 { flags & !FD_FLAGS_MASK }
  function MarkDev(flags: bv32): bv32 { flags | FD_DEV }
  function SetExcl(flags: bv32): bv32 { flags | FD_EXCL }
  function ClearExcl(flags: bv32): bv32 { flags & !FD_EXCL }

  // ---------------------------------------------------------------- the calls

  function FirstFree(fds: seq<Fd>, from: nat): (i: nat)
    requires from <= |fds|
    ensures from <= i <= |fds|
    ensures i < |fds| ==> fds[i].dev == NoDev
    ensures forall k :: from <= k < i ==> fds[k].dev != NoDev
    decreases |fds| - from
  {
    if from == |fds| || fds[from].dev == NoDev then from else FirstFree(fds, from + 1)
  }

  /** alt_get_fd */
  function GetFd(p: Pool, dev: Dev): (Pool, int) {
    var i := FirstFree(p.fds, 0);
    if i == |p.fds| then (p, -EMFILE)
    else (Pool(p.fds[i := p.fds[i].(dev := dev)], if i > p.maxFd then i else p.maxFd), i)
  }

  /** alt_release_fd */
  function Release(p: Pool, i: int): Pool {
    if 2 < i < |p.fds| then p.(fds := p.fds[i := Fd(NoDev, 0)]) else p
  }

  /** The test in alt_file_locked: another descriptor up to the high-water mark holds the same device. */
  predicate LockedByOther(p: Pool, i: nat)
    requires i < |p.fds|
  {
    exists k :: 0 <= k < |p.fds| && k <= p.maxFd && k != i && p.fds[k].dev == p.fds[i].dev && Exclusive(p.fds[k])
  }

  function OpenFlags(flags: bv32, dev: Dev): bv32 {
    if dev.Device? then MarkDev(UserFlags(flags)) else UserFlags(flags)
  }

  /** ALT_OPEN: found is the structure the name lookup yields, driver what its open function returns. The second
      result is the descriptor, or a negated error code where the call returns -1 and sets errno. */
  function Open(p: Pool, found: Dev, flags: bv32, driver: int): (Pool, int) {
    if found == NoDev then (p, -ENODEV)
    else
      var (got, i) := GetFd(p, found);
      if !(0 <= i < |got.fds|) then (got, i)
      else
        var q := got.(fds := got.fds[i := Fd(found, OpenFlags(flags, found))]);
        if found.Device? && LockedByOther(q, i) then (Release(q, i), -EACCES)
        else if driver < 0 then (Release(q, i), driver)
        else (q, i)
  }

  /** ALT_CLOSE, with the result of the driver's close function. */
  function Close(p: Pool, file: int, driver: int): (Pool, int) {
    if file < 0 then (p, -EBADFD) else (Release(p, file), if driver < 0 then driver else 0)
  }

  /** The test in alt_fd_lock: another descriptor below the high-water mark is open on the same device. */
  predicate SharedBelowMark(p: Pool, i: nat)
    requires i < |p.fds|
  {
    exists k :: 0 <= k < |p.fds| && k < p.maxFd && k != i && p.fds[k].dev == p.fds[i].dev
  }

  datatype Request = Excl | NExcl | Other

  /** ALT_IOCTL, with the result of the driver's ioctl function if it has one. */
  function Ioctl(p: Pool, file: int, req: Request, driver: Option<int>): (Pool, int) {
    if !(0 <= file < |p.fds|) then (p, -EBADFD)
    else
      var fd := p.fds[file];
      if MarkedDevice(fd) && req.Excl? then
        if SharedBelowMark(p, file) then (p, -EACCES)
        else (p.(fds := p.fds[file := fd.(flags := SetExcl(fd.flags))]), 0)
      else if MarkedDevice(fd) && req.NExcl? then
        (p.(fds := p.fds[file := fd.(flags := ClearExcl(fd.flags))]), 0)
      else if driver.Some? then (p, driver.value) else (p, -ENOTTY)
  }

  datatype Command = GetFl | SetFl(arg: bv32) | Unknown

  function ClearStatus(flags: bv32): bv32 { flags & !FCNTL_FLAGS_MASK }
  function AddStatus(flags: bv32, arg: bv32): bv32 { flags | (arg & FCNTL_FLAGS_MASK) }
  function FcntlFlags(old_: bv32, arg: bv32): bv32 { AddStatus(ClearStatus(old_), arg) }

  /** The effect of ALT_FCNTL on the pool; its result is below. */
  function Fcntl(p: Pool, file: int, cmd: Command): Pool {
    if 0 <= file < |p.fds| && cmd.SetFl? then
      p.(fds := p.fds[file := p.fds[file].(flags := FcntlFlags(p.fds[file].flags, cmd.arg))])
    else p
  }

  /** alt_open_fd: open, copy the new descriptor over a standard one, and release it again. */
  function Redirect(p: Pool, std: nat, found: Dev, flags: bv32, driver: int): Pool {
    var (q, i) := Open(p, found, flags, driver);
    if 0 <= i < |q.fds| && std < |q.fds| then Release(q.(fds := q.fds[std := q.fds[i]]), i) else q
  }

  // ---------------------------------------------------------------- runs

  datatype Op =
    | OpOpen(found: Dev, flags: bv32, driver: int)
    | OpClose(file: int, driver: int)
    | OpIoctl(file: int, req: Request, idriver: Option<int>)
    | OpFcntl(file: int, cmd: Command)
    | OpRedirect(std: nat, found: Dev, flags: bv32, driver: int)

  /** What the calls demand: a descriptor within the table, which must be open for close and ioctl to find a device;
      redirection only happens to the three standard descriptors. */
  predicate Legal(p: Pool, op: Op) {
    match op
    case OpOpen(_, _, _) => true
    case OpClose(file, _) => file < |p.fds| && (file >= 0 ==> p.fds[file].dev != NoDev)
    case OpIoctl(file, _, _) => file < |p.fds| && (file >= 0 ==> p.fds[file].dev != NoDev)
    case OpFcntl(file, _) => file < |p.fds|
    case OpRedirect(std, _, _, _) => std <= 2
  }

  function Apply(p: Pool, op: Op): Pool {
    match op
    case OpOpen(found, flags, driver) => Open(p, found, flags, driver).0
    case OpClose(file, driver) => Close(p, file, driver).0
    case OpIoctl(file, req, driver) => Ioctl(p, file, req, driver).0
    case OpFcntl(file, cmd) => Fcntl(p, file, cmd)
    case OpRedirect(std, found, flags, driver) => Redirect(p, std, found, flags, driver)
  }

  function Run(ops: seq<Op>): Pool {
    if ops == [] then InitialPool() else Apply(Run(ops[..|ops| - 1]), ops[|ops| - 1])
  }

  ghost predicate LegalRun(ops: seq<Op>)
    decreases |ops|
  {
    ops == [] || (LegalRun(ops[..|ops| - 1]) && Legal(Run(ops[..|ops| - 1]), ops[|ops| - 1]))
  }

  // ---------------------------------------------------------------- flag bits

  lemma OpenFlagsBits(flags: bv32, dev: Dev)
    ensures var fd := Fd(dev, OpenFlags(flags, dev)); !Exclusive(fd) && (MarkedDevice(fd) <==> dev.Device?)
  {
  }

  lemma FcntlBits(dev: Dev, old_: bv32, arg: bv32)
    ensures Exclusive(Fd(dev, FcntlFlags(old_, arg))) <==> Exclusive(Fd(dev, old_))
    ensures MarkedDevice(Fd(dev, FcntlFlags(old_, arg))) <==> MarkedDevice(Fd(dev, old_))
  {
    assert FcntlFlags(old_, arg) & FD_EXCL == old_ & FD_EXCL;
    assert FcntlFlags(old_, arg) & FD_DEV == old_ & FD_DEV;
  }

  lemma LockBits(dev: Dev, flags: bv32)
    ensures Exclusive(Fd(dev, SetExcl(flags)))
    ensures MarkedDevice(Fd(dev, SetExcl(flags))) <==> MarkedDevice(Fd(dev, flags))
  {
    assert (flags | FD_EXCL) & FD_EXCL == FD_EXCL;
    assert (flags | FD_EXCL) & FD_DEV == flags & FD_DEV;
  }

  lemma UnlockBits(dev: Dev, flags: bv32)
    ensures !Exclusive(Fd(dev, ClearExcl(flags)))
    ensures MarkedDevice(Fd(dev, ClearExcl(flags))) <==> MarkedDevice(Fd(dev, flags))
  {
    assert (flags & !FD_EXCL) & FD_EXCL == 0;
    assert (flags & !FD_EXCL) & FD_DEV == flags & FD_DEV;
  }

  // ---------------------------------------------------------------- invariant

  ghost predicate FdOk(p: Pool, i: nat)
    requires i < |p.fds|
  {
    var fd := p.fds[i];
    && (i <= 2 ==> fd.dev != NoDev)
    && (i > 2 && fd.dev != NoDev ==> i <= p.maxFd)
    && (Exclusive(fd) ==> MarkedDevice(fd))
    && (MarkedDevice(fd) ==> fd.dev.Device? && p.maxFd >= 3)
  }

  /** A holder of a lock and another descriptor on its device: the other holds no lock, and the holder is below the
      high-water mark, where a later lock request will find it. */
  ghost predicate PairOk(p: Pool, i: nat, j: nat)
    requires i < |p.fds| && j < |p.fds|
  {
    i != j && Exclusive(p.fds[i]) && p.fds[j].dev == p.fds[i].dev ==> !Exclusive(p.fds[j]) && i < p.maxFd
  }

  ghost predicate Inv(p: Pool) {
    && |p.fds| == MAX_FD
    && -1 <= p.maxFd < MAX_FD
    && (forall i :: 0 <= i < MAX_FD ==> FdOk(p, i))
    && (forall i, j :: 0 <= i < MAX_FD && 0 <= j < MAX_FD ==> PairOk(p, i, j))
  }

  /** Descriptors open on a device, and those that hold it exclusively. */
  ghost function Users(p: Pool, dev: Dev): set<nat> { set i: nat | i < |p.fds| && p.fds[i].dev == dev }
  ghost function Holders(p: Pool): set<nat> { set i: nat | i < |p.fds| && Exclusive(p.fds[i]) }

  ghost predicate Locked(p: Pool, dev: Dev) {
    exists i :: 0 <= i < |p.fds| && p.fds[i].dev == dev && Exclusive(p.fds[i])
  }

  /** Open descriptors are the same in both pools; free ones are free in both. */
  ghost predicate SameDescriptors(p: Pool, q: Pool) {
    && |p.fds| == |q.fds|
    && forall i :: 0 <= i < |p.fds| ==> if p.fds[i].dev == NoDev then q.fds[i].dev == NoDev else p.fds[i] == q.fds[i]
  }

  /** A free slot carries neither of the two internal flags. */
  lemma FreeSlotsUnmarked(p: Pool)
    requires Inv(p)
    ensures forall i :: 0 <= i < MAX_FD && p.fds[i].dev == NoDev
              ==> i > 2 && !Exclusive(p.fds[i]) && !MarkedDevice(p.fds[i])
  {
    forall i | 0 <= i < MAX_FD && p.fds[i].dev == NoDev
      ensures i > 2 && !Exclusive(p.fds[i]) && !MarkedDevice(p.fds[i])
    {
      assert FdOk(p, i);
    }
  }

  /** The high-water mark covers every lock holder, so the scan in alt_file_locked cannot miss one. */
  lemma MarkCoversHolders(p: Pool, k: nat)
    requires Inv(p) && k < MAX_FD && Exclusive(p.fds[k])
    ensures k <= p.maxFd && p.fds[k].dev.Device?
  {
    assert FdOk(p, k);
  }

  /** What an open call that returns a descriptor did: the device was not locked, a free slot above the standard
      three was taken, and its flags carry the device mark but not the lock. */
  ghost predicate Opened(p: Pool, q: Pool, found: Dev, flags: bv32, rc: int)
    requires |p.fds| == MAX_FD
  {
    && 2 < rc <= q.maxFd < MAX_FD && p.maxFd <= q.maxFd
    && p.fds[rc].dev == NoDev && found != NoDev
    && q.fds == p.fds[rc := Fd(found, OpenFlags(flags, found))]
    && !Locked(p, found)
  }

  /** What a failed open call did. */
  ghost predicate Refused(p: Pool, q: Pool)
    requires |p.fds| == MAX_FD
  {
    && |q.fds| == MAX_FD && p.maxFd <= q.maxFd < MAX_FD
    && SameDescriptors(p, q)
    && forall i :: 0 <= i < MAX_FD && p.fds[i].dev == NoDev ==> !Exclusive(q.fds[i]) && !MarkedDevice(q.fds[i])
  }

  lemma OpenEffect(p: Pool, found: Dev, flags: bv32, driver: int)
    requires Inv(p)
    ensures var (q, rc) := Open(p, found, flags, driver);
            if rc < 0 then Refused(p, q) else Opened(p, q, found, flags, rc)
  {
    FreeSlotsUnmarked(p);
    OpenFlagsBits(flags, found);
    var (got, i) := GetFd(p, found);
    if found != NoDev && 0 <= i < |got.fds| {
      var fds := got.fds[i := Fd(found, OpenFlags(flags, found))];
      assert fds == p.fds[i := Fd(found, OpenFlags(flags, found))];
      if Locked(p, found) {
        var k :| 0 <= k < |p.fds| && p.fds[k].dev == found && Exclusive(p.fds[k]);
        MarkCoversHolders(p, k);
        assert fds[k] == p.fds[k];
      }
      var released := Release(got.(fds := fds), i);
      assert released.fds == p.fds[i := Fd(NoDev, 0)];
      UnlockBits(NoDev, 0);
    }
  }

  // ---------------------------------------------------------------- every call keeps it

  /** Changing one descriptor keeps the invariant if that descriptor and its pairs are fine afterwards. */
  lemma OneSlotKeepsInv(p: Pool, q: Pool, i: nat)
    requires Inv(p) && i < MAX_FD && |q.fds| == MAX_FD && p.maxFd <= q.maxFd < MAX_FD
    requires q.fds == p.fds[i := q.fds[i]]
    requires FdOk(q, i)
    requires forall j :: 0 <= j < MAX_FD ==> PairOk(q, i, j) && PairOk(q, j, i)
    ensures Inv(q)
  {
    forall k | 0 <= k < MAX_FD ensures FdOk(q, k) {
      assert FdOk(p, k);
    }
    forall k, j | 0 <= k < MAX_FD && 0 <= j < MAX_FD ensures PairOk(q, k, j) {
      assert PairOk(p, k, j);
    }
  }

  lemma RefusedKeepsInv(p: Pool, q: Pool)
    requires Inv(p) && Refused(p, q)
    ensures Inv(q) && Holders(q) == Holders(p)
    ensures forall dev :: dev != NoDev ==> Users(q, dev) == Users(p, dev)
  {
    FreeSlotsUnmarked(p);
    forall k | 0 <= k < MAX_FD ensures FdOk(q, k) {
      assert FdOk(p, k);
    }
    forall k, j | 0 <= k < MAX_FD && 0 <= j < MAX_FD ensures PairOk(q, k, j) {
      assert PairOk(p, k, j);
      if k != j && Exclusive(q.fds[k]) && q.fds[j].dev == q.fds[k].dev {
        assert p.fds[k] == q.fds[k] && p.fds[j] == q.fds[j];
      }
    }
  }

  lemma OpenedKeepsInv(p: Pool, q: Pool, found: Dev, flags: bv32, rc: int)
    requires Inv(p) && Opened(p, q, found, flags, rc)
    ensures Inv(q) && Holders(q) == Holders(p)
    ensures forall dev :: dev != NoDev ==> Users(q, dev) == Users(p, dev) + (if dev == found then {rc} else {})
  {
    OpenFlagsBits(flags, found);
    FreeSlotsUnmarked(p);
    OneSlotKeepsInv(p, q, rc);
  }

  lemma ReleaseKeepsInv(p: Pool, i: int)
    requires Inv(p) && i < MAX_FD
    ensures Inv(Release(p, i)) && Holders(Release(p, i)) == (if i > 2 then Holders(p) - {i} else Holders(p))
    ensures forall dev :: dev != NoDev ==> Users(Release(p, i), dev) <= Users(p, dev)
  {
    UnlockBits(NoDev, 0);
    if 2 < i {
      forall j | 0 <= j < MAX_FD ensures PairOk(Release(p, i), i, j) && PairOk(Release(p, i), j, i) {
        assert FdOk(p, j);
      }
      OneSlotKeepsInv(p, Release(p, i), i);
    }
  }

  /** Granting a lock is safe although the scan leaves out the descriptor at the high-water mark. */
  lemma GrantKeepsInv(p: Pool, i: nat)
    requires Inv(p) && i < MAX_FD && MarkedDevice(p.fds[i]) && !SharedBelowMark(p, i)
    ensures var q := Ioctl(p, i, Excl, None).0; Inv(q) && Holders(q) == Holders(p) + {i}
  {
    var q := Ioctl(p, i, Excl, None).0;
    LockBits(p.fds[i].dev, p.fds[i].flags);
    assert FdOk(p, i);
    forall j | 0 <= j < MAX_FD ensures PairOk(q, i, j) && PairOk(q, j, i) {
      if j != i && p.fds[j].dev == p.fds[i].dev {
        assert FdOk(p, j) && PairOk(p, j, i);
        assert j == p.maxFd;
      }
    }
    OneSlotKeepsInv(p, q, i);
  }

  lemma UnlockKeepsInv(p: Pool, i: nat)
    requires Inv(p) && i < MAX_FD && MarkedDevice(p.fds[i])
    ensures var q := Ioctl(p, i, NExcl, None).0; Inv(q) && Holders(q) == Holders(p) - {i}
  {
    var q := Ioctl(p, i, NExcl, None).0;
    UnlockBits(p.fds[i].dev, p.fds[i].flags);
    assert FdOk(p, i);
    forall j | 0 <= j < MAX_FD ensures PairOk(q, i, j) && PairOk(q, j, i) {
      assert PairOk(p, j, i);
    }
    OneSlotKeepsInv(p, q, i);
  }

  lemma FcntlKeepsInv(p: Pool, file: int, cmd: Command)
    requires Inv(p) && file < MAX_FD
    ensures Inv(Fcntl(p, file, cmd)) && Holders(Fcntl(p, file, cmd)) == Holders(p)
  {
    if file >= 0 && cmd.SetFl? {
      var q := Fcntl(p, file, cmd);
      FcntlBits(p.fds[file].dev, p.fds[file].flags, cmd.arg);
      assert FdOk(p, file);
      forall j | 0 <= j < MAX_FD ensures PairOk(q, file, j) && PairOk(q, j, file) {
        assert PairOk(p, j, file) && PairOk(p, file, j);
      }
      OneSlotKeepsInv(p, q, file);
    }
  }

  /** Copying a freshly opened descriptor over a standard one keeps the invariant. */
  lemma CopyKeepsInv(p: Pool, std: nat, i: nat)
    requires Inv(p) && std <= 2 && 2 < i < MAX_FD
    requires p.fds[i].dev != NoDev && !Exclusive(p.fds[i]) && !Locked(p, p.fds[i].dev)
    ensures var q := p.(fds := p.fds[std := p.fds[i]]); Inv(q) && Holders(q) == Holders(p) - {std}
  {
    var q := p.(fds := p.fds[std := p.fds[i]]);
    assert FdOk(p, i);
    OneSlotKeepsInv(p, q, std);
  }

  lemma RedirectKeepsInv(p: Pool, std: nat, found: Dev, flags: bv32, driver: int)
    requires Inv(p) && std <= 2
    ensures var (q, (o, rc)) := (Redirect(p, std, found, flags, driver), Open(p, found, flags, driver));
            && Inv(q)
            && Holders(q) == (if rc >= 0 then Holders(p) - {std} else Holders(p))
            && forall dev :: dev != NoDev && Locked(p, dev) ==> Users(q, dev) <= Users(p, dev)
  {
    OpenEffect(p, found, flags, driver);
    var (o, rc) := Open(p, found, flags, driver);
    if rc < 0 {
      RefusedKeepsInv(p, o);
    } else {
      OpenedKeepsInv(p, o, found, flags, rc);
      OpenFlagsBits(flags, found);
      assert forall k :: 0 <= k < MAX_FD && k != rc ==> o.fds[k] == p.fds[k];
      var copied := o.(fds := o.fds[std := o.fds[rc]]);
      CopyKeepsInv(o, std, rc);
      ReleaseKeepsInv(copied, rc);
      assert forall k :: 0 <= k < MAX_FD && k != rc && k != std ==> Release(copied, rc).fds[k] == p.fds[k];
    }
  }

  /** How each call changes the set of lock holders. */
  function HoldersAfter(p: Pool, op: Op): set<nat> {
    var held := set i: nat | i < |p.fds| && Exclusive(p.fds[i]);
    match op
    case OpOpen(_, _, _) => held
    case OpFcntl(_, _) => held
    case OpClose(file, _) => if file > 2 then held - {file} else held
    case OpRedirect(std, found, flags, driver) =>
      if Open(p, found, flags, driver).1 >= 0 then held - {std} else held
    case OpIoctl(file, req, _) =>
      if !(0 <= file < MAX_FD) || !MarkedDevice(p.fds[file]) || req.Other? then held
      else if req.NExcl? then held - {file}
      else if SharedBelowMark(p, file) then held else held + {file}
  }

  lemma OpenKeepsInv(p: Pool, found: Dev, flags: bv32, driver: int)
    requires Inv(p)
    ensures var q := Open(p, found, flags, driver).0;
            && Inv(q) && Holders(q) == Holders(p)
            && forall dev :: dev != NoDev && Locked(p, dev) ==> Users(q, dev) <= Users(p, dev)
  {
    OpenEffect(p, found, flags, driver);
    var (q, rc) := Open(p, found, flags, driver);
    if rc < 0 { RefusedKeepsInv(p, q); } else { OpenedKeepsInv(p, q, found, flags, rc); }
  }

  lemma IoctlKeepsInv(p: Pool, file: int, req: Request, driver: Option<int>)
    requires Inv(p) && file < MAX_FD
    ensures var q := Ioctl(p, file, req, driver).0;
            && Inv(q) && Holders(q) == HoldersAfter(p, OpIoctl(file, req, driver))
            && forall dev :: Users(q, dev) == Users(p, dev)
  {
    if file >= 0 && MarkedDevice(p.fds[file]) {
      if req.Excl? && !SharedBelowMark(p, file) { GrantKeepsInv(p, file); }
      if req.NExcl? { UnlockKeepsInv(p, file); }
    }
  }

  lemma CallKeepsInv(p: Pool, op: Op)
    requires Inv(p) && Legal(p, op)
    ensures Inv(Apply(p, op))
    ensures Holders(Apply(p, op)) == HoldersAfter(p, op)
    ensures forall dev :: dev != NoDev && Locked(p, dev) ==> Users(Apply(p, op), dev) <= Users(p, dev)
  {
    hide Open, Inv;
    match op
    case OpOpen(found, flags, driver) => OpenKeepsInv(p, found, flags, driver);
    case OpClose(file, _) => ReleaseKeepsInv(p, file);
    case OpFcntl(file, cmd) => FcntlKeepsInv(p, file, cmd);
    case OpRedirect(std, found, flags, driver) => RedirectKeepsInv(p, std, found, flags, driver);
    case OpIoctl(file, req, driver) => IoctlKeepsInv(p, file, req, driver);
  }

  lemma {:induction false} RunKeepsInv(ops: seq<Op>)
    requires LegalRun(ops)
    ensures Inv(Run(ops))
    decreases |ops|
  {
    if ops == [] {
      UnlockBits(DEV_NULL, 0);
      UnlockBits(NoDev, 0);
    } else {
      RunKeepsInv(ops[..|ops| - 1]);
      CallKeepsInv(Run(ops[..|ops| - 1]), ops[|ops| - 1]);
    }
  }

  // ---------------------------------------------------------------- main results

  /** In every run a device has at most one exclusive holder, despite the short scan in alt_fd_lock. */
  lemma MutualExclusion(ops: seq<Op>, i: nat, j: nat)
    requires LegalRun(ops) && i < MAX_FD && j < MAX_FD
    requires Exclusive(Run(ops).fds[i]) && Exclusive(Run(ops).fds[j]) && Run(ops).fds[i].dev == Run(ops).fds[j].dev
    ensures i == j
  {
    RunKeepsInv(ops);
    assert PairOk(Run(ops), i, j);
  }

  /** In every run, while a device is locked: opening it fails with EACCES, or with EMFILE when the table is full, and
      leaves every descriptor as it was; and no call at all adds a descriptor to the device. */
  lemma LockedDeviceIsClosed(ops: seq<Op>, dev: Dev, op: Op, flags: bv32, driver: int)
    requires LegalRun(ops) && Legal(Run(ops), op)
    requires dev != NoDev && Locked(Run(ops), dev)
    ensures Users(Apply(Run(ops), op), dev) <= Users(Run(ops), dev)
    ensures var (q, rc) := Open(Run(ops), dev, flags, driver);
            (rc == -EACCES || rc == -EMFILE) && SameDescriptors(Run(ops), q)
  {
    RunKeepsInv(ops);
    var p := Run(ops);
    CallKeepsInv(p, op);
    OpenEffect(p, dev, flags, driver);
    var k :| 0 <= k < |p.fds| && p.fds[k].dev == dev && Exclusive(p.fds[k]);
    MarkCoversHolders(p, k);
    var (got, i) := GetFd(p, dev);
    if 0 <= i < |got.fds| {
      assert got.fds[i := Fd(dev, OpenFlags(flags, dev))][k] == p.fds[k];
    }
  }

  /** In every run the lock bit of a descriptor is set only by a granted TIOCEXCL and cleared only by TIOCNXCL, close
      or redirection of that descriptor: no open flag and no F_SETFL argument forges or clears it. */
  lemma LockBitOnlyByItsCalls(ops: seq<Op>, op: Op)
    requires LegalRun(ops) && Legal(Run(ops), op)
    ensures Holders(Apply(Run(ops), op)) == HoldersAfter(Run(ops), op)
  {
    RunKeepsInv(ops);
    CallKeepsInv(Run(ops), op);
  }

  /** A granted lock makes the caller the only user of its device exactly when the descriptor at the high-water mark,
      which the scan leaves out, is not another descriptor on it. */
  lemma GrantIsSoleExactlyWhen(ops: seq<Op>, i: nat)
    requires LegalRun(ops) && i < MAX_FD
    requires MarkedDevice(Run(ops).fds[i]) && !SharedBelowMark(Run(ops), i)
    ensures var p := Run(ops);
            Users(p, p.fds[i].dev) == {i}
            <==> !(0 <= p.maxFd < MAX_FD && p.maxFd != i && p.fds[p.maxFd].dev == p.fds[i].dev)
  {
    RunKeepsInv(ops);
    var p := Run(ops);
    assert FdOk(p, i);
    forall j: nat | j in Users(p, p.fds[i].dev) ensures j == i || j == p.maxFd {
      assert FdOk(p, j);
    }
    assert i in Users(p, p.fds[i].dev);
    if p.maxFd != i && p.fds[p.maxFd].dev == p.fds[i].dev {
      assert p.maxFd in Users(p, p.fds[i].dev);
    }
  }

  /** The flaw happens: a device opened twice can be locked through its first descriptor. */
  lemma SharedDeviceCanBeLocked()
    ensures var ops := [OpOpen(Device(1), 0, 0), OpOpen(Device(1), 0, 0)];
            var p := Run(ops);
            && LegalRun(ops)
            && p.fds[3].dev == p.fds[4].dev == Device(1)
            && Ioctl(p, 3, Excl, None).1 == 0
  {
    var op := OpOpen(Device(1), 0, 0);
    var p0, ops1, ops2 := InitialPool(), [op], [op, op];
    assert ops1[..0] == [] && ops2[..1] == ops1;
    assert FirstFree(p0.fds, 0) == 3 by {
      assert p0.fds[3].dev == NoDev;
    }
    var q0 := Pool(p0.fds[3 := Fd(Device(1), 0)], 3);
    assert GetFd(p0, Device(1)) == (q0, 3);
    var p1 := Pool(p0.fds[3 := Fd(Device(1), FD_DEV)], 3);
    assert OpenFlags(0, Device(1)) == FD_DEV;
    assert Run(ops1) == p1;
    assert FirstFree(p1.fds, 0) == 4;
    var p2 := Pool(p1.fds[4 := Fd(Device(1), FD_DEV)], 4);
    assert FD_DEV & FD_EXCL == 0 && FD_DEV & FD_DEV != 0;
    assert Run(ops2) == p2;
  }
}
