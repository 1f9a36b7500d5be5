/** The pool of file descriptors: what open, close and ioctl do to it, and what every run keeps. */
module FdPool {
  import opened Errno
  import opened Wrappers

  const ALT_MAX_FD := 32
  const ALT_FD_EXCL: bv32 := 0x8000_0000
  const ALT_FD_DEV: bv32 := 0x4000_0000
  const ALT_FD_FLAGS_MASK: bv32 := ALT_FD_EXCL | ALT_FD_DEV

  const TIOCEXCL := 0x740d
  const TIOCNXCL := 0x740e

  /** An entry of the device list or of the file system list, which are different lists. */
  datatype Device = CharDevice(id: nat) | FileSystem(id: nat)

  datatype Fd = Fd(dev: Option<Device>, flags: bv32)

  datatype Pool = Pool(fds: seq<Fd>, max: int)

  const FREE := Fd(None, 0)

  predicate Excl(flags: bv32) {
    flags & ALT_FD_EXCL != 0
  }

  predicate IsDev(flags: bv32) {
    flags & ALT_FD_DEV != 0
  }

  function WithDev(f: bv32): bv32 {
    f | ALT_FD_DEV
  }

  function WithExcl(f: bv32): bv32 {
    f | ALT_FD_EXCL
  }

  function WithoutExcl(f: bv32): bv32 {
    f & !ALT_FD_EXCL
  }

  function CallersFlags(f: bv32): bv32 {
    f & !ALT_FD_FLAGS_MASK
  }

  /** The bits that belong to the caller of open: the access mode and O_NONBLOCK among them. */
  function Mode(f: bv32): bv32 {
    f & 0x3FFF_FFFF
  }

  lemma SetExcl(f: bv32)
    ensures Excl(WithExcl(f)) && IsDev(WithExcl(f)) == IsDev(f) && Mode(WithExcl(f)) == Mode(f)
  {}

  lemma ClearExcl(f: bv32)
    ensures !Excl(WithoutExcl(f)) && IsDev(WithoutExcl(f)) == IsDev(f)
  {}

  lemma ClearKeepsMode(f: bv32)
    ensures Mode(WithoutExcl(f)) == Mode(f)
  {
    assert f & !ALT_FD_EXCL & 0x3FFF_FFFF == f & (!ALT_FD_EXCL & 0x3FFF_FFFF);
  }

  lemma CallersKeepMode(f: bv32)
    ensures Mode(CallersFlags(f)) == Mode(f)
  {
    assert ALT_FD_FLAGS_MASK == 0xC000_0000;
    assert f & 0x3FFF_FFFF & 0x3FFF_FFFF == f & (0x3FFF_FFFF & 0x3FFF_FFFF);
  }

  lemma WithDevKeepsMode(f: bv32)
    ensures Mode(WithDev(f)) == Mode(f)
  {}

  lemma NoFlags()
    ensures !Excl(0) && !IsDev(0)
  {}

  // ---- The operations ----

  /** The first free descriptor at or after i. */
  function FirstFree(fds: seq<Fd>, i: nat): (r: nat)
    requires i <= |fds|
    ensures i <= r <= |fds| && forall k | i <= k < r :: fds[k].dev.Some?
    ensures r < |fds| ==> fds[r].dev.None?
    decreases |fds| - i
  {
    if i == |fds| || fds[i].dev.None? then i else FirstFree(fds, i + 1)
  }

  /** Descriptor j holds the lock of the device. */
  predicate Holds(p: Pool, j: nat, dev: Device) {
    j < |p.fds| && p.fds[j].dev == Some(dev) && Excl(p.fds[j].flags)
  }

  predicate FileLocked(p: Pool, i: nat, dev: Device) {
    exists j: nat | j <= p.max && j != i :: Holds(p, j, dev)
  }

  function Release(fds: seq<Fd>, i: int): seq<Fd> {
    if 2 < i < |fds| then fds[i := FREE] else fds
  }

  /** Descriptor i is given to a device; its flags are those of the caller but for the two that the
      pool keeps for itself. */
  function Take(p: Pool, i: nat, dev: Device, flags: bv32): Pool
    requires i < |p.fds|
  {
    var mode := CallersFlags(flags);
    var fd := Fd(Some(dev), if dev.CharDevice? then WithDev(mode) else mode);
    Pool(p.fds[i := fd], if i > p.max then i else p.max)
  }

  /** open of what was found under the name, when the driver's own open returns answer. The result
      is the descriptor, or a negative error number. */
  function Open(p: Pool, found: Option<Device>, flags: bv32, answer: int): (Pool, int) {
    var i := FirstFree(p.fds, 0);
    if found.None? then (p, -ENODEV)
    else if i == |p.fds| then (p, -EMFILE)
    else
      var dev := found.value;
      var taken := Take(p, i, dev, flags);
      var status := if dev.CharDevice? && FileLocked(taken, i, dev) then -EACCES else answer;
      if status < 0 then (taken.(fds := Release(taken.fds, i)), status) else (taken, i)
  }

  function Close(p: Pool, i: nat): Pool {
    p.(fds := Release(p.fds, i))
  }

  function Lock(p: Pool, i: nat): (Pool, int)
    requires i < |p.fds|
  {
    if exists j: nat | j < p.max && j < |p.fds| && j != i :: p.fds[j].dev == p.fds[i].dev then (p, -EACCES)
    else (p.(fds := p.fds[i := p.fds[i].(flags := WithExcl(p.fds[i].flags))]), 0)
  }

  function Unlock(p: Pool, i: nat): Pool
    requires i < |p.fds|
  {
    p.(fds := p.fds[i := p.fds[i].(flags := WithoutExcl(p.fds[i].flags))])
  }

  /** ioctl, when the driver's own ioctl would return driver. */
  function Ioctl(p: Pool, i: nat, req: int, driver: int): (Pool, int)
    requires i < |p.fds|
  {
    if IsDev(p.fds[i].flags) && req == TIOCEXCL then Lock(p, i)
    else if IsDev(p.fds[i].flags) && req == TIOCNXCL then (Unlock(p, i), 0)
    else (p, driver)
  }

  /** alt_open_fd: descriptor i becomes what a new open gave. */
  function Redirect(p: Pool, i: nat, found: Option<Device>, flags: bv32, answer: int): Pool
    requires i < |p.fds|
  {
    var (q, r) := Open(p, found, flags, answer);
    if 0 <= r < |q.fds| == |p.fds| then q.(fds := Release(q.fds[i := q.fds[r]], r)) else q
  }

  // ---- Runs ----

  datatype Op =
    | OpenFile(found: Option<Device>, flags: bv32, answer: int)
    | CloseFile(fd: nat)
    | IoctlFile(fd: nat, req: int, driver: int)
    | RedirectStd(fd: nat, found: Option<Device>, flags: bv32, answer: int)

  /** Descriptors passed to close and ioctl are open; only standard ones are redirected. */
  predicate Can(p: Pool, op: Op) {
    match op
    case OpenFile(_, _, _) => true
    case CloseFile(fd) => fd < |p.fds| && p.fds[fd].dev.Some?
    case IoctlFile(fd, _, _) => fd < |p.fds| && p.fds[fd].dev.Some?
    case RedirectStd(fd, _, _, _) => fd <= 2 < |p.fds|
  }

  function Do(p: Pool, op: Op): Pool
    requires Can(p, op)
  {
    match op
    case OpenFile(found, flags, answer) => Open(p, found, flags, answer).0
    case CloseFile(fd) => Close(p, fd)
    case IoctlFile(fd, req, driver) => Ioctl(p, fd, req, driver).0
    case RedirectStd(fd, found, flags, answer) => Redirect(p, fd, found, flags, answer)
  }

  predicate IsRun(pools: seq<Pool>, ops: seq<Op>) {
    && |pools| == |ops| + 1
    && forall k | 0 <= k < |ops| :: Can(pools[k], ops[k]) && pools[k + 1] == Do(pools[k], ops[k])
  }

  // ---- What every run keeps ----

  predicate SlotOk(p: Pool, i: nat)
    requires i < |p.fds|
  {
    var fd := p.fds[i];
    && (i <= 2 ==> fd.dev.Some?)
    && (fd.dev.None? ==> fd.flags == 0)
    && (i > 2 && fd.dev.Some? ==> i <= p.max)
    && (IsDev(fd.flags) ==> i <= p.max && fd.dev.Some? && fd.dev.value.CharDevice?)
    && (Excl(fd.flags) ==> IsDev(fd.flags))
  }

  /** Another descriptor of a locked device is above the one that holds the lock. */
  predicate SharersAbove(p: Pool, holder: nat, other: nat)
    requires holder < |p.fds| && other < |p.fds|
  {
    holder != other && Excl(p.fds[holder].flags) && p.fds[other].dev == p.fds[holder].dev ==> holder < other
  }

  predicate Inv(p: Pool) {
    && |p.fds| == ALT_MAX_FD && (p.max == -1 || 2 < p.max < ALT_MAX_FD)
    && (forall i: nat | i < ALT_MAX_FD :: SlotOk(p, i))
    && (forall i: nat, j: nat | i < ALT_MAX_FD && j < ALT_MAX_FD :: SharersAbove(p, i, j))
  }

  function Startup(devNull: Device): Pool {
    Pool(seq(ALT_MAX_FD, i => if i <= 2 then Fd(Some(devNull), 0) else FREE), -1)
  }

  lemma StartupInv(devNull: Device)
    ensures Inv(Startup(devNull))
  {}

  predicate Locked(p: Pool, dev: Device) {
    exists j: nat | j < |p.fds| :: Holds(p, j, dev)
  }

  /** A free descriptor is none of the standard ones. */
  lemma FirstFreeAbove(p: Pool)
    requires Inv(p)
    ensures FirstFree(p.fds, 0) > 2
  {
    assert SlotOk(p, 0) && SlotOk(p, 1) && SlotOk(p, 2);
  }

  lemma TakeFlags(p: Pool, i: nat, dev: Device, flags: bv32)
    requires i < |p.fds|
    ensures var q := Take(p, i, dev, flags);
            && q == Pool(p.fds[i := q.fds[i]], if i > p.max then i else p.max) && |q.fds| == |p.fds|
            && q.fds[i].dev == Some(dev) && !Excl(q.fds[i].flags) && (IsDev(q.fds[i].flags) <==> dev.CharDevice?)
            && Mode(q.fds[i].flags) == Mode(flags)
  {
    hide Mode;
    CallersKeepMode(flags);
    WithDevKeepsMode(CallersFlags(flags));
  }

  /** A new descriptor of a device that nobody has locked. */
  lemma TakeKeepsInv(p: Pool, i: nat, dev: Device, flags: bv32)
    requires Inv(p) && 2 < i < |p.fds| && p.fds[i].dev.None? && !Locked(p, dev)
    ensures Inv(Take(p, i, dev, flags))
  {
    TakeFlags(p, i, dev, flags);
    hide Excl, IsDev, WithDev, WithExcl, WithoutExcl, CallersFlags, Take;
    var q := Take(p, i, dev, flags);
    forall k: nat | k < ALT_MAX_FD
      ensures SlotOk(q, k)
    {
      assert SlotOk(p, k);
    }
    forall j: nat, k: nat | j < ALT_MAX_FD && k < ALT_MAX_FD
      ensures SharersAbove(q, j, k)
    {
      assert SharersAbove(p, j, k) && !Holds(p, j, dev);
    }
  }

  lemma ReleaseKeepsInv(p: Pool, i: int)
    requires Inv(p)
    ensures Inv(p.(fds := Release(p.fds, i)))
  {
    NoFlags();
    hide Excl, IsDev, WithDev, WithExcl, WithoutExcl, CallersFlags;
    var q := p.(fds := Release(p.fds, i));
    forall k: nat | k < ALT_MAX_FD
      ensures SlotOk(q, k)
    {
      assert SlotOk(p, k);
    }
    forall j: nat, k: nat | j < ALT_MAX_FD && k < ALT_MAX_FD
      ensures SharersAbove(q, j, k)
    {
      assert SharersAbove(p, j, k) && SlotOk(p, j);
    }
  }

  /** A holder of a lock is found by the scan of alt_file_locked. */
  lemma HoldersAreScanned(p: Pool, j: nat, dev: Device)
    requires Inv(p) && Holds(p, j, dev)
    ensures j <= p.max && dev.CharDevice?
  {
    assert SlotOk(p, j);
  }

  lemma LockKeepsInv(p: Pool, i: nat)
    requires Inv(p) && i < |p.fds| && IsDev(p.fds[i].flags)
    ensures Inv(Lock(p, i).0)
  {
    SetExcl(p.fds[i].flags);
    hide Excl, IsDev, WithDev, WithExcl, WithoutExcl, CallersFlags;
    var q := Lock(p, i).0;
    if q != p {
      assert SlotOk(p, i);
      forall k: nat | k < ALT_MAX_FD
        ensures SlotOk(q, k)
      {
        assert SlotOk(p, k);
      }
      forall j: nat, k: nat | j < ALT_MAX_FD && k < ALT_MAX_FD
        ensures SharersAbove(q, j, k)
      {
        assert SharersAbove(p, j, k) && SlotOk(p, j) && SlotOk(p, k);
      }
    }
  }

  lemma UnlockKeepsInv(p: Pool, i: nat)
    requires Inv(p) && i < |p.fds| && IsDev(p.fds[i].flags)
    ensures Inv(Unlock(p, i))
  {
    ClearExcl(p.fds[i].flags);
    hide Excl, IsDev, WithDev, WithExcl, WithoutExcl, CallersFlags;
    var q := Unlock(p, i);
    forall k: nat | k < ALT_MAX_FD
      ensures SlotOk(q, k)
    {
      assert SlotOk(p, k) && SlotOk(p, i);
    }
    forall j: nat, k: nat | j < ALT_MAX_FD && k < ALT_MAX_FD
      ensures SharersAbove(q, j, k)
    {
      assert SharersAbove(p, j, k);
    }
  }

  // ---- open ----

  /** The scan of alt_file_locked finds the lock of a device whoever holds it. */
  lemma ScanFindsHolder(p: Pool, i: nat, dev: Device, flags: bv32)
    requires Inv(p) && i < |p.fds| && p.fds[i].dev.None?
    ensures FileLocked(Take(p, i, dev, flags), i, dev) <==> Locked(p, dev)
    ensures Locked(p, dev) ==> dev.CharDevice?
  {
    var taken := Take(p, i, dev, flags);
    TakeFlags(p, i, dev, flags);
    hide Take;
    forall j: nat | j < |p.fds| && j != i
      ensures Holds(taken, j, dev) <==> Holds(p, j, dev)
      ensures Holds(p, j, dev) ==> j <= p.max && dev.CharDevice?
    {
      if Holds(p, j, dev) {
        HoldersAreScanned(p, j, dev);
      }
    }
  }

  /** A failed open gives its descriptor back: the pool is as it was, but that the high-water mark stays
      where the descriptor raised it. */
  lemma FailedOpen(p: Pool, found: Option<Device>, flags: bv32, answer: int)
    requires Inv(p) && Open(p, found, flags, answer).1 < 0
    ensures var q, i := Open(p, found, flags, answer).0, FirstFree(p.fds, 0);
            && q.fds == p.fds && Inv(q)
            && q.max == if found.Some? && p.max < i < |p.fds| then i else p.max
  {
    FirstFreeAbove(p);
    var i := FirstFree(p.fds, 0);
    if found.Some? && i < |p.fds| {
      var taken := Take(p, i, found.value, flags);
      TakeFlags(p, i, found.value, flags);
      assert SlotOk(p, i);
      assert Release(taken.fds, i) == p.fds;
      MaxRaised(p, taken.max);
    }
  }

  /** A successful open takes the lowest free descriptor, gives it the device and the caller's mode,
      changes no other, and proves that nobody has the device locked. */
  lemma SuccessfulOpen(p: Pool, found: Option<Device>, flags: bv32, answer: int)
    requires Inv(p) && Open(p, found, flags, answer).1 >= 0
    ensures var (q, r) := Open(p, found, flags, answer);
            && found.Some? && !Locked(p, found.value)
            && 2 < r < |p.fds| && p.fds[r] == FREE && (forall k | 0 <= k < r :: p.fds[k].dev.Some?)
            && r < |q.fds| && q.fds == p.fds[r := q.fds[r]] && q.fds[r].dev == found && !Excl(q.fds[r].flags)
            && Mode(q.fds[r].flags) == Mode(flags)
            && q.max == (if r > p.max then r else p.max) && (IsDev(q.fds[r].flags) <==> found.value.CharDevice?)
            && Inv(q) && !Locked(q, found.value)
  {
    FirstFreeAbove(p);
    var i := FirstFree(p.fds, 0);
    assert SlotOk(p, i);
    TakeFlags(p, i, found.value, flags);
    ScanFindsHolder(p, i, found.value, flags);
    hide Take, Excl, IsDev, Mode;
    TakeKeepsInv(p, i, found.value, flags);
    forall j: nat | j < |p.fds|
      ensures !Holds(Open(p, found, flags, answer).0, j, found.value)
    {
      assert !Holds(p, j, found.value);
    }
  }

  /** open succeeds exactly when the name is known, nobody has the device locked, a descriptor is free
      and the driver agrees; otherwise the error says which is missing first. */
  lemma OpenSucceedsIff(p: Pool, found: Option<Device>, flags: bv32, answer: int)
    requires Inv(p)
    ensures Open(p, found, flags, answer).1 >= 0 <==>
            found.Some? && !Locked(p, found.value) && answer >= 0 && exists k | 0 <= k < |p.fds| :: p.fds[k].dev.None?
    ensures Open(p, found, flags, answer).1 < 0 ==>
            Open(p, found, flags, answer).1 ==
            if found.None? then -ENODEV else if forall k | 0 <= k < |p.fds| :: p.fds[k].dev.Some? then -EMFILE
            else if Locked(p, found.value) then -EACCES else answer
  {
    var i := FirstFree(p.fds, 0);
    if found.Some? && i < |p.fds| {
      ScanFindsHolder(p, i, found.value, flags);
    }
  }

  lemma MaxRaised(p: Pool, max: int)
    requires Inv(p) && p.max <= max && 2 < max < ALT_MAX_FD
    ensures Inv(p.(max := max))
  {
    forall k: nat | k < ALT_MAX_FD
      ensures SlotOk(p.(max := max), k)
    {
      assert SlotOk(p, k);
    }
    forall j: nat, k: nat | j < ALT_MAX_FD && k < ALT_MAX_FD
      ensures SharersAbove(p.(max := max), j, k)
    {
      assert SharersAbove(p, j, k);
    }
  }

  lemma RedirectKeepsInv(p: Pool, i: nat, found: Option<Device>, flags: bv32, answer: int)
    requires Inv(p) && i <= 2
    ensures Inv(Redirect(p, i, found, flags, answer))
  {
    hide Excl, IsDev, WithDev, WithExcl, WithoutExcl, CallersFlags, Open;
    var (q, r) := Open(p, found, flags, answer);
    if r < 0 {
      FailedOpen(p, found, flags, answer);
    } else {
      SuccessfulOpen(p, found, flags, answer);
      CopyKeepsInv(q, i, r);
      ReleaseKeepsInv(q.(fds := q.fds[i := q.fds[r]]), r);
    }
  }

  /** A standard descriptor may become a copy of one whose device nobody has locked. */
  lemma CopyKeepsInv(p: Pool, i: nat, r: nat)
    requires Inv(p) && i <= 2 < r < |p.fds| && p.fds[r].dev.Some? && !Locked(p, p.fds[r].dev.value)
    ensures Inv(p.(fds := p.fds[i := p.fds[r]]))
  {
    hide Excl, IsDev, WithDev, WithExcl, WithoutExcl, CallersFlags;
    var q := p.(fds := p.fds[i := p.fds[r]]);
    forall k: nat | k < ALT_MAX_FD
      ensures SlotOk(q, k)
    {
      assert SlotOk(p, k) && SlotOk(p, r);
    }
    forall j: nat, k: nat | j < ALT_MAX_FD && k < ALT_MAX_FD
      ensures SharersAbove(q, j, k)
    {
      assert SharersAbove(p, j, k) && !Holds(p, j, p.fds[r].dev.value) && !Holds(p, r, p.fds[r].dev.value);
    }
  }

  lemma DoKeepsInv(p: Pool, op: Op)
    requires Inv(p) && Can(p, op)
    ensures Inv(Do(p, op))
  {
    hide Inv, Open, Lock, Unlock, Redirect, Release;
    assert |p.fds| == ALT_MAX_FD by { FdCount(p); }
    match op
    case OpenFile(found, flags, answer) =>
      if Open(p, found, flags, answer).1 < 0 {
        FailedOpen(p, found, flags, answer);
      } else {
        SuccessfulOpen(p, found, flags, answer);
      }
    case CloseFile(fd) => ReleaseKeepsInv(p, fd);
    case IoctlFile(fd, req, driver) =>
      if IsDev(p.fds[fd].flags) {
        LockKeepsInv(p, fd);
        UnlockKeepsInv(p, fd);
      }
    case RedirectStd(fd, found, flags, answer) => RedirectKeepsInv(p, fd, found, flags, answer);
  }

  lemma FdCount(p: Pool)
    requires Inv(p)
    ensures |p.fds| == ALT_MAX_FD
  {}

  /** Every pool of every run from start-up keeps the invariant. */
  lemma {:induction false} InvAlways(pools: seq<Pool>, ops: seq<Op>, devNull: Device, k: nat)
    requires IsRun(pools, ops) && pools[0] == Startup(devNull) && k <= |ops|
    ensures Inv(pools[k])
  {
    hide Inv, Do, Can, Startup;
    if k == 0 {
      StartupInv(devNull);
    } else {
      InvAlways(pools, ops, devNull, k - 1);
      DoKeepsInv(pools[k - 1], ops[k - 1]);
    }
  }

  /** What any operation does to any descriptor: close frees one above 2, lock and unlock change one bit
      of their own, a successful open or redirection gives one the device and the caller's mode, and all
      else stays as it was. */
  lemma EveryDescriptor(p: Pool, op: Op, k: nat)
    requires Inv(p) && Can(p, op) && k < |p.fds|
    ensures |Do(p, op).fds| == |p.fds|
    ensures var fd, fd' := p.fds[k], Do(p, op).fds[k];
            match op
            case OpenFile(found, flags, answer) =>
              if k == Open(p, found, flags, answer).1 then NewFd(fd', found, flags) else fd' == fd
            case RedirectStd(i, found, flags, answer) =>
              if k == i && Open(p, found, flags, answer).1 >= 0 then NewFd(fd', found, flags) else fd' == fd
            case CloseFile(i) => fd' == if k == i > 2 then FREE else fd
            case IoctlFile(i, req, driver) =>
              && fd'.dev == fd.dev && Mode(fd'.flags) == Mode(fd.flags) && IsDev(fd'.flags) == IsDev(fd.flags)
              && (fd' == fd || (k == i && IsDev(fd.flags) && req == TIOCNXCL) ||
                  (k == i && IsDev(fd.flags) && req == TIOCEXCL && Ioctl(p, i, req, driver).1 == 0))
  {
    hide Inv, Excl, IsDev, Mode, WithDev, WithExcl, WithoutExcl, CallersFlags, Open, Locked;
    assert |p.fds| == ALT_MAX_FD by { FdCount(p); }
    match op
    case OpenFile(found, flags, answer) => OpenDescriptor(p, found, flags, answer, k);
    case RedirectStd(i, found, flags, answer) =>
      OpenDescriptor(p, found, flags, answer, k);
      RedirectDescriptor(p, i, found, flags, answer, k);
    case CloseFile(_) =>
    case IoctlFile(i, _, _) =>
      SetExcl(p.fds[i].flags);
      ClearExcl(p.fds[i].flags);
      ClearKeepsMode(p.fds[i].flags);
  }

  /** A descriptor as open makes it. */
  predicate NewFd(fd: Fd, found: Option<Device>, flags: bv32) {
    && found.Some? && fd.dev == found && Mode(fd.flags) == Mode(flags)
    && !Excl(fd.flags) && (IsDev(fd.flags) <==> found.value.CharDevice?)
  }

  lemma OpenDescriptor(p: Pool, found: Option<Device>, flags: bv32, answer: int, k: nat)
    requires Inv(p) && k < |p.fds|
    ensures var (q, r) := Open(p, found, flags, answer);
            && |q.fds| == |p.fds| && (if k == r then NewFd(q.fds[k], found, flags) else q.fds[k] == p.fds[k])
            && (r >= 0 ==> 2 < r < |p.fds| && p.fds[r] == FREE && NewFd(q.fds[r], found, flags))
  {
    hide Inv, Excl, IsDev, Mode, Open, Locked;
    if Open(p, found, flags, answer).1 < 0 {
      FailedOpen(p, found, flags, answer);
    } else {
      SuccessfulOpen(p, found, flags, answer);
    }
  }

  lemma RedirectDescriptor(p: Pool, i: nat, found: Option<Device>, flags: bv32, answer: int, k: nat)
    requires Inv(p) && i <= 2 < |p.fds| && k < |p.fds|
    ensures var q := Redirect(p, i, found, flags, answer);
            && |q.fds| == |p.fds|
            && if k == i && Open(p, found, flags, answer).1 >= 0 then NewFd(q.fds[k], found, flags)
               else q.fds[k] == p.fds[k]
  {
    hide Inv, Open, NewFd;
    OpenDescriptor(p, found, flags, answer, k);
    var r := Open(p, found, flags, answer).1;
    if r >= 0 {
      OpenDescriptor(p, found, flags, answer, r);
    }
  }

  /** Unlocking a device succeeds and leaves no lock; every request that is not one of the two, or is not
      made of a device, is the driver's, and the pool stays as it was. */
  lemma IoctlAnswers(p: Pool, i: nat, req: int, driver: int)
    requires i < |p.fds|
    ensures var (q, rc), dev := Ioctl(p, i, req, driver), IsDev(p.fds[i].flags);
            && (dev && req == TIOCNXCL ==> rc == 0 && i < |q.fds| && !Excl(q.fds[i].flags))
            && (!dev || (req != TIOCEXCL && req != TIOCNXCL) ==> q == p && rc == driver)
            && q.max == p.max
  {
    ClearExcl(p.fds[i].flags);
    hide Excl, IsDev, WithoutExcl, WithExcl;
  }

  // ---- Locks ----

  /** Does the operation give up the lock that descriptor i holds? Closing a standard descriptor does
      not, because those are never released. */
  predicate LetsGo(p: Pool, op: Op, i: nat) {
    match op
    case OpenFile(_, _, _) => false
    case CloseFile(fd) => fd == i && i > 2
    case IoctlFile(fd, req, _) => fd == i && req == TIOCNXCL
    case RedirectStd(fd, found, flags, answer) => fd == i && Open(p, found, flags, answer).1 >= 0
  }

  lemma HolderKeepsLock(p: Pool, op: Op, i: nat, dev: Device)
    requires Inv(p) && Can(p, op) && Holds(p, i, dev)
    ensures Holds(Do(p, op), i, dev) <==> !LetsGo(p, op, i)
  {
    hide Excl, IsDev, WithDev, WithExcl, WithoutExcl, CallersFlags, Open, Ioctl;
    match op
    case OpenFile(found, flags, answer) => OpenKeepsOthers(p, found, flags, answer);
    case CloseFile(fd) =>
      NoFlags();
    case IoctlFile(fd, req, driver) => IoctlKeepsLock(p, fd, req, driver, i, dev);
    case RedirectStd(fd, found, flags, answer) => OpenKeepsOthers(p, found, flags, answer);
  }

  lemma IoctlKeepsLock(p: Pool, fd: nat, req: int, driver: int, i: nat, dev: Device)
    requires Inv(p) && fd < |p.fds| && Holds(p, i, dev)
    ensures Holds(Ioctl(p, fd, req, driver).0, i, dev) <==> !(fd == i && req == TIOCNXCL)
  {
    SetExcl(p.fds[fd].flags);
    ClearExcl(p.fds[fd].flags);
    hide Excl, IsDev, WithDev, WithExcl, WithoutExcl, CallersFlags;
    assert SlotOk(p, i);
  }

  lemma OpenKeepsOthers(p: Pool, found: Option<Device>, flags: bv32, answer: int)
    requires Inv(p)
    ensures var (q, r) := Open(p, found, flags, answer);
            && |q.fds| == |p.fds| && (forall k: nat | k < |p.fds| && p.fds[k].dev.Some? :: q.fds[k] == p.fds[k])
            && (r >= 0 ==> 2 < r < |p.fds| && p.fds[r].dev.None? && !Excl(q.fds[r].flags))
  {
    hide Open, Inv, Excl, IsDev;
    if Open(p, found, flags, answer).1 < 0 {
      FailedOpen(p, found, flags, answer);
    } else {
      SuccessfulOpen(p, found, flags, answer);
    }
  }

  /** An operation that opens the device found, itself or to redirect a standard descriptor. */
  predicate Opens(op: Op, dev: Device) {
    match op
    case OpenFile(found, _, _) => found == Some(dev)
    case RedirectStd(_, found, _, _) => found == Some(dev)
    case _ => false
  }

  /** While a descriptor holds the lock of a device and does not let it go, over any run, it keeps the
      lock, and every open of that device fails and leaves the descriptors as they were, whether the
      caller opens it or a standard descriptor is redirected to it. */
  lemma {:induction false} LockedOut(pools: seq<Pool>, ops: seq<Op>, i: nat, dev: Device, k: nat)
    requires IsRun(pools, ops) && Inv(pools[0]) && Holds(pools[0], i, dev) && k <= |ops|
    requires forall j | 0 <= j < |ops| :: !LetsGo(pools[j], ops[j], i)
    ensures Inv(pools[k]) && Holds(pools[k], i, dev)
    ensures k < |ops| && Opens(ops[k], dev) ==>
            Open(pools[k], Some(dev), ops[k].flags, ops[k].answer).1 < 0 && pools[k + 1].fds == pools[k].fds
  {
    hide Inv, LetsGo, Open, Holds;
    if k > 0 {
      LockedOut(pools, ops, i, dev, k - 1);
      DoKeepsInv(pools[k - 1], ops[k - 1]);
      HolderKeepsLock(pools[k - 1], ops[k - 1], i, dev);
    }
    if k < |ops| && Opens(ops[k], dev) {
      HolderLocks(pools[k], i, dev);
      OpenSucceedsIff(pools[k], Some(dev), ops[k].flags, ops[k].answer);
      FailedOpen(pools[k], Some(dev), ops[k].flags, ops[k].answer);
    }
  }

  lemma HolderLocks(p: Pool, i: nat, dev: Device)
    requires Holds(p, i, dev)
    ensures Locked(p, dev)
  {}

  /** Never two descriptors hold the lock of one device. */
  lemma AtMostOneHolder(p: Pool, i: nat, j: nat, dev: Device)
    requires Inv(p) && Holds(p, i, dev) && Holds(p, j, dev)
    ensures i == j
  {
    hide Excl;
    assert SharersAbove(p, i, j) && SharersAbove(p, j, i);
  }

  predicate Shares(p: Pool, i: nat, j: nat)
    requires i < |p.fds|
  {
    j < |p.fds| && j != i && p.fds[j].dev == p.fds[i].dev
  }

  /** A lock is granted when no descriptor below the high-water mark shares the device, so it is
      exclusive exactly when the descriptor at the mark does not share it either. */
  lemma LockIsExclusiveIff(p: Pool, i: nat, driver: int)
    requires Inv(p) && i < |p.fds| && IsDev(p.fds[i].flags)
    ensures var (q, r) := Ioctl(p, i, TIOCEXCL, driver);
            && p.max > 2 && p.fds[i].dev.Some? && (r == 0 || r == -EACCES)
            && (r == 0 <==> forall j: nat | Shares(p, i, j) :: j == p.max)
            && (r == 0 ==> Holds(q, i, p.fds[i].dev.value) &&
                           ((forall j: nat :: !Shares(q, i, j)) <==> !Shares(p, i, p.max)))
  {
    SetExcl(p.fds[i].flags);
    hide Excl, IsDev, WithDev, WithExcl, WithoutExcl, CallersFlags;
    assert SlotOk(p, i);
    forall j: nat | Shares(p, i, j)
      ensures j <= p.max
    {
      assert SlotOk(p, j);
    }
    var (q, r) := Ioctl(p, i, TIOCEXCL, driver);
    assert forall j: nat :: Shares(q, i, j) <==> Shares(p, i, j);
    if r == 0 {
      forall j: nat | Shares(p, i, j)
        ensures j == p.max
      {
        assert p.fds[j].dev == p.fds[i].dev;
      }
    } else {
      var j: nat :| j < p.max && j < |p.fds| && j != i && p.fds[j].dev == p.fds[i].dev;
      assert Shares(p, i, j);
    }
  }

  /** From start-up: open a device twice, lock the first descriptor, and both still have it. */
  lemma SharerMissed(devNull: Device, dev: Device)
    requires dev != devNull && dev.CharDevice?
    ensures var p1 := Open(Startup(devNull), Some(dev), 0, 0).0;
            var p2 := Open(p1, Some(dev), 0, 0).0;
            var (p3, r) := Ioctl(p2, 3, TIOCEXCL, 0);
            r == 0 && Holds(p3, 3, dev) && Shares(p3, 3, 4)
  {
    NoFlags();
    StartupInv(devNull);
    var p0 := Startup(devNull);
    assert p0.fds[3] == FREE && p0.fds[4] == FREE && forall k | 0 <= k < 3 :: p0.fds[k].dev == Some(devNull);
    OpenSucceedsIff(p0, Some(dev), 0, 0);
    SuccessfulOpen(p0, Some(dev), 0, 0);
    var p1 := Open(p0, Some(dev), 0, 0).0;
    hide Open, Excl, IsDev, Startup;
    assert Open(p0, Some(dev), 0, 0).1 == 3 && p1.fds[4].dev.None?;
    OpenSucceedsIff(p1, Some(dev), 0, 0);
    SuccessfulOpen(p1, Some(dev), 0, 0);
    var p2 := Open(p1, Some(dev), 0, 0).0;
    assert Open(p1, Some(dev), 0, 0).1 == 4;
    LockIsExclusiveIff(p2, 3, 0);
  }

  lemma RedirectFromStartup(devNull: Device, dev: Device)
    requires dev != devNull && dev.CharDevice?
    ensures var p := Redirect(Startup(devNull), 0, Some(dev), 0, 0);
            && Inv(p) && |p.fds| == ALT_MAX_FD && p.fds[0].dev == Some(dev) && IsDev(p.fds[0].flags)
            && p.fds[3] == FREE && forall j: nat :: !Shares(p, 0, j)
  {
    NoFlags();
    StartupInv(devNull);
    var p0 := Startup(devNull);
    assert p0.fds[3] == FREE && |p0.fds| == ALT_MAX_FD && forall k | 0 <= k < ALT_MAX_FD :: p0.fds[k].dev != Some(dev);
    hide Inv, Excl, IsDev, Startup, Redirect, Open, Mode;
    RedirectKeepsInv(p0, 0, Some(dev), 0, 0);
    OpenSucceedsIff(p0, Some(dev), 0, 0);
    var p := Redirect(p0, 0, Some(dev), 0, 0);
    forall k: nat | k < ALT_MAX_FD
      ensures |p.fds| == ALT_MAX_FD && if k == 0 then NewFd(p.fds[k], Some(dev), 0) else p.fds[k] == p0.fds[k]
    {
      RedirectDescriptor(p0, 0, Some(dev), 0, 0, k);
    }
  }

  /** From start-up: redirect standard input to a device, lock it, and close it. The lock stays, and
      the device can no longer be opened. */
  lemma ClosedStandardKeepsLock(devNull: Device, dev: Device, flags: bv32, answer: int) returns (pools: seq<Pool>)
    requires dev != devNull && dev.CharDevice?
    ensures IsRun(pools, [RedirectStd(0, Some(dev), 0, 0), IoctlFile(0, TIOCEXCL, 0), CloseFile(0)])
    ensures pools[0] == Startup(devNull) && Ioctl(pools[1], 0, TIOCEXCL, 0).1 == 0
    ensures Holds(pools[3], 0, dev) && Open(pools[3], Some(dev), flags, answer).1 == -EACCES
  {
    var p0 := Startup(devNull);
    var p1 := Redirect(p0, 0, Some(dev), 0, 0);
    var p2 := Ioctl(p1, 0, TIOCEXCL, 0).0;
    RedirectFromStartup(devNull, dev);
    hide Inv, Excl, IsDev, Redirect, Startup, Lock, Open;
    LockIsExclusiveIff(p1, 0, 0);
    LockKeepsInv(p1, 0);
    EveryDescriptor(p1, IoctlFile(0, TIOCEXCL, 0), 3);
    HolderLocks(p2, 0, dev);
    OpenSucceedsIff(p2, Some(dev), flags, answer);
    pools := [p0, p1, p2, p2];
  }
}
