/** The code that works on the descriptor pool in place. */
module FdTable {
  import opened Errno
  import opened FdPool
  import opened Wrappers

  class Table {
    const list: array<Fd>
    var maxFd: int
    var errno: int

    ghost function View(): Pool
      reads this, list
    {
      Pool(list[..], maxFd)
    }

    constructor (devNull: Device)
      ensures fresh(list) && View() == Startup(devNull) && list.Length == 32 && maxFd == -1
      ensures forall i | 0 <= i < list.Length :: list[i] == if i <= 2 then Fd(Some(devNull), 0) else Fd(None, 0)
    {
      list := new Fd[ALT_MAX_FD](i => if i <= 2 then Fd(Some(devNull), 0) else FREE);
      maxFd, errno := -1, 0;
      new;
      assert list[..] == Startup(devNull).fds;
    }

    /** alt_get_fd: takes the first free descriptor for the device and raises the high-water mark. */
    method GetFd(dev: Device) returns (rc: int)
      modifies this`maxFd, list
      ensures var p, i := old(View()), FirstFree(old(list[..]), 0);
              if i == list.Length then rc == -EMFILE && View() == p
              else rc == i && View() == Pool(p.fds[i := p.fds[i].(dev := Some(dev))], if i > p.max then i else p.max)
    {
      rc := -EMFILE;
      var i := 0;
      while i < list.Length
        invariant i <= list.Length && View() == old(View()) && rc == -EMFILE
        invariant FirstFree(list[..], 0) == FirstFree(list[..], i)
      {
        if list[i].dev.None? {
          list[i] := list[i].(dev := Some(dev));
          if i > maxFd {
            maxFd := i;
          }
          rc := i;
          break;
        }
        i := i + 1;
      }
    }

    method ReleaseFd(fd: int)
      requires fd < list.Length
      modifies list
      ensures list[..] == Release(old(list[..]), fd)
    {
      if fd > 2 {
        list[fd] := FREE;
      }
    }

    /** alt_file_locked: marks descriptor fd as one of a device, and looks for a lock. */
    method FileLocked(fd: nat) returns (rc: int)
      requires fd < list.Length && list[fd].dev.Some? && 0 <= maxFd < list.Length
      modifies list
      ensures list[..] == old(list[..])[fd := old(list[fd]).(flags := WithDev(old(list[fd].flags)))]
      ensures rc == if FdPool.FileLocked(View(), fd, list[fd].dev.value) then -EACCES else 0
    {
      list[fd] := list[fd].(flags := WithDev(list[fd].flags));
      var i := 0;
      while i <= maxFd
        invariant 0 <= i <= maxFd + 1
        invariant list[..] == old(list[..])[fd := old(list[fd]).(flags := WithDev(old(list[fd].flags)))]
        invariant forall j: nat | j < i && j != fd :: !Holds(View(), j, list[fd].dev.value)
      {
        if list[i].dev == list[fd].dev && Excl(list[i].flags) && i != fd {
          assert Holds(View(), i, list[fd].dev.value);
          return -EACCES;
        }
        i := i + 1;
      }
      return 0;
    }

    /** open of what alt_find_dev or alt_find_file found; answer is what the driver's open returns,
        zero when it has none. */
    method Open(found: Option<Device>, flags: bv32, answer: int) returns (r: int)
      requires Inv(View())
      modifies this`maxFd, this`errno, list
      ensures View() == FdPool.Open(old(View()), found, flags, answer).0
      ensures var status := FdPool.Open(old(View()), found, flags, answer).1;
              if status < 0 then r == -1 && errno == -status else r == status && errno == old(errno)
    {
      var index, status := -1, -ENODEV;
      if found.Some? {
        index := GetFd(found.value);
        if index < 0 {
          status := index;
        } else {
          list[index] := list[index].(flags := CallersFlags(flags));
          if found.value.CharDevice? {
            status := FileLocked(index);
          }
          assert View() == Take(old(View()), index, found.value, flags);
          if found.value.FileSystem? || status >= 0 {
            status := answer;
          }
        }
      }
      if status < 0 {
        ReleaseFd(index);
        errno := -status;
        return -1;
      }
      return index;
    }

    /** close; answer is what the driver's close returns, zero when it has none. */
    method Close(fildes: int, answer: int) returns (r: int)
      requires fildes < list.Length && (fildes >= 0 ==> list[fildes].dev.Some?)
      modifies this`errno, list
      ensures View() == if fildes < 0 then old(View()) else FdPool.Close(old(View()), fildes)
      ensures r == if fildes < 0 || answer < 0 then -1 else 0
      ensures errno == if fildes < 0 then EBADFD else if answer < 0 then -answer else old(errno)
    {
      if fildes >= 0 {
        var rval := answer;
        ReleaseFd(fildes);
        if rval < 0 {
          errno := -rval;
          return -1;
        }
        return 0;
      } else {
        errno := EBADFD;
        return -1;
      }
    }

    method FdLock(fd: nat) returns (rc: int)
      requires fd < list.Length && maxFd <= list.Length
      modifies list
      ensures (View(), rc) == Lock(old(View()), fd)
    {
      var i := 0;
      while i < maxFd
        invariant 0 <= i && View() == old(View())
        invariant forall j: nat | j < i && j < maxFd && j != fd :: list[j].dev != list[fd].dev
      {
        if i != fd && list[i].dev == list[fd].dev {
          return -EACCES;
        }
        i := i + 1;
      }
      list[fd] := list[fd].(flags := WithExcl(list[fd].flags));
      return 0;
    }

    method FdUnlock(fd: nat) returns (rc: int)
      requires fd < list.Length
      modifies list
      ensures rc == 0 && View() == Unlock(old(View()), fd)
    {
      list[fd] := list[fd].(flags := WithoutExcl(list[fd].flags));
      return 0;
    }

    /** ioctl; driver is what the driver's ioctl returns, or nothing when it has none. */
    method Ioctl(file: int, req: int, driver: Option<int>) returns (rc: int)
      requires Inv(View()) && file < list.Length && (file >= 0 ==> list[file].dev.Some?)
      modifies this`errno, list
      ensures if file < 0 then rc == -EBADFD && View() == old(View())
              else (View(), rc) == FdPool.Ioctl(old(View()), file, req, if driver.Some? then driver.value else -ENOTTY)
      ensures errno == if rc < 0 then -rc else old(errno)
    {
      if file >= 0 {
        if IsDev(list[file].flags) && req == TIOCEXCL {
          rc := FdLock(file);
        } else if IsDev(list[file].flags) && req == TIOCNXCL {
          rc := FdUnlock(file);
        } else if driver.Some? {
          rc := driver.value;
        } else {
          rc := -ENOTTY;
        }
      } else {
        rc := -EBADFD;
      }
      if rc < 0 {
        errno := -rc;
      }
    }

    /** alt_open_fd: makes descriptor fd what a new open gives; on failure it stays as it was. */
    method OpenFd(fd: nat, found: Option<Device>, flags: bv32, answer: int)
      requires Inv(View()) && fd <= 2
      modifies this`maxFd, this`errno, list
      ensures View() == Redirect(old(View()), fd, found, flags, answer)
    {
      var was := Open(found, flags, answer);
      if was >= 0 {
        list[fd] := list[was];
        ReleaseFd(was);
      }
    }
  }
}
