/** The file descriptor pool in place: the array that the calls search, fill and clear. */
module Descriptors {
  import opened Common
  import opened FdTable

  class Pool {
    const list: array<Fd>
    var maxFd: int
    ghost const boot: Table
    ghost var calls: seq<Op>

    ghost function View(): Table
      reads this, list
    {
      Table(list[..], maxFd)
    }

    /** The pool is what its calls have made of the boot table. */
    ghost predicate Valid()
      reads this, list
    {
      Boot(boot) && View() == Run(boot, calls)
    }

    constructor (size: nat)
      requires size >= 3
      ensures Valid() && calls == [] && list.Length == size && fresh(list)
      ensures maxFd == -1 && forall i :: 0 <= i < size ==> list[i] == Fd(if i < 3 then Some(DEV_NULL) else None, 0, {})
    {
      list := new Fd[size](i => Fd(if i < 3 then Some(DEV_NULL) else None, 0, {}));
      maxFd := -1;
      calls := [];
      boot := Table(seq(size, i => Fd(if 0 <= i < 3 then Some(DEV_NULL) else None, 0, {})), -1);
      new;
      assert list[..] == boot.list;
    }

    ghost method Called(op: Op)
      requires Boot(boot) && View() == Apply(Run(boot, calls), op).0
      modifies this`calls
      ensures Valid() && calls == old(calls) + [op]
    {
      assert (calls + [op])[..|calls + [op]| - 1] == calls;
      calls := calls + [op];
    }

    /** What the theorem about runs says of the pool itself. */
    lemma HolderIsUnique()
      requires Valid()
      ensures forall f, g | 0 <= f < list.Length && 0 <= g < list.Length ::
        list[f].dev == list[g].dev && Excl in list[f].flags && Excl in list[g].flags ==> f == g
    {
      forall f, g | 0 <= f < list.Length && 0 <= g < list.Length && list[f].dev == list[g].dev
          && Excl in list[f].flags && Excl in list[g].flags
        ensures f == g
      {
        UniqueHolder(boot, calls, f, g);
      }
    }

    // ---- The pool's own routines ----

    method GetFd(dev: Device) returns (rc: int)
      modifies this`maxFd, list
      ensures (View(), rc) == FdTable.GetFd(old(View()), dev)
    {
      rc := -1;
      var i := 0;
      while i < list.Length
        invariant 0 <= i <= list.Length && View() == old(View()) && rc == -1
        invariant LowestFree(list[..], 0) == LowestFree(list[..], i)
      {
        if list[i].dev == None {
          list[i] := list[i].(dev := Some(dev));
          if i > maxFd {
            maxFd := i;
          }
          return i;
        }
        i := i + 1;
      }
    }

    method ReleaseFd(fd: int)
      requires fd < list.Length
      modifies list
      ensures View() == FdTable.ReleaseFd(old(View()), fd)
    {
      if fd > 2 {
        list[fd] := list[fd].(flags := {});
        list[fd] := list[fd].(dev := None);
      }
    }

    /** Marks the descriptor as a device's, then scans every descriptor in use for a holder. The index
        is unsigned, so a mark of -1 would send the scan beyond the pool: it must not be. */
    method FileLocked(fd: nat) returns (rc: int)
      requires fd < list.Length && 0 <= maxFd < list.Length
      modifies list
      ensures View() == SetFd(old(View()), fd, old(list[fd]).(flags := old(list[fd]).flags + {Dev}))
      ensures rc == if LockedByOther(list[..], list[fd].dev, fd, maxFd) then -1 else 0
    {
      list[fd] := list[fd].(flags := list[fd].flags + {Dev});
      var i := 0;
      while i <= maxFd
        invariant 0 <= i
        invariant forall j :: 0 <= j < i && j <= maxFd && j != fd ==> !(list[j].dev == list[fd].dev && Excl in list[j].flags)
        decreases maxFd - i
      {
        if list[i].dev == list[fd].dev && Excl in list[i].flags && i != fd {
          assert list[..][i] == list[i];
          return -1;
        }
        i := i + 1;
      }
      rc := 0;
    }

    method FdLock(fd: nat) returns (rc: int)
      requires fd < list.Length && maxFd < list.Length
      modifies list
      ensures View() == FdTable.FdLock(old(View()), fd).0
      ensures rc == if FdTable.FdLock(old(View()), fd).1.Fail? then -1 else 0
    {
      rc := 0;
      var i := 0;
      while i < maxFd
        invariant 0 <= i
        invariant forall j :: 0 <= j < i && j < maxFd && j != fd ==> list[j].dev != list[fd].dev
      {
        if i != fd && list[i].dev == list[fd].dev {
          assert list[..][i] == list[i];
          return -1;
        }
        i := i + 1;
      }
      list[fd] := list[fd].(flags := list[fd].flags + {Excl});
    }

    method FdUnlock(fd: nat) returns (rc: int)
      requires fd < list.Length
      modifies list
      ensures View() == FdTable.FdUnlock(old(View()), fd).0 && rc == 0
    {
      list[fd] := list[fd].(flags := list[fd].flags - {Excl});
      rc := 0;
    }

    // ---- System calls ----

    method OpenNamed(found: Lookup, flags: set<Flag>, driver: int) returns (r: Ret)
      requires maxFd < list.Length
      modifies this`maxFd, list
      ensures (View(), r) == DoOpen(old(View()), found, flags, driver)
    {
      if found == NoMatch {
        return Fail(ENODEV);
      }
      var index := GetFd(found.dev);
      if index < 0 {
        return Fail(EMFILE);
      }
      list[index] := list[index].(flags := flags - PRIVATE);
      ghost var u := FdTable.GetFd(old(View()), found.dev).0;
      ghost var fd := u.list[index].(flags := (flags - PRIVATE) + if found.AsFile? then {} else {Dev});
      assert (flags - PRIVATE) + {} == flags - PRIVATE;
      var status := 0;
      var locked := false;
      if found.AsDevice? {
        status := FileLocked(index);
        locked := status < 0;
      }
      assert View() == SetFd(u, index, fd);
      if !locked {
        status := driver;
      }
      if status < 0 {
        ReleaseFd(index);
        return if locked then Fail(EACCES) else Fail(FromDriver(-status));
      }
      r := Value(index);
    }

    method Open(found: Lookup, flags: set<Flag>, driver: int) returns (r: Ret)
      requires Valid()
      modifies this, list
      ensures Valid() && calls == old(calls) + [Op.Open(found, flags, driver)]
      ensures (View(), r) == Apply(old(View()), Op.Open(found, flags, driver))
    {
      RunKeepsInv(boot, calls);
      r := OpenNamed(found, flags, driver);
      Called(Op.Open(found, flags, driver));
    }

    method Close(fd: int, driver: int) returns (r: Ret)
      requires Valid() && Legal(View(), Op.Close(fd, driver))
      modifies this, list
      ensures Valid() && calls == old(calls) + [Op.Close(fd, driver)]
      ensures (View(), r) == Apply(old(View()), Op.Close(fd, driver))
      ensures forall j :: 0 <= j < list.Length && (j != fd || j <= 2) ==> list[j] == old(list[j])
      ensures fd > 2 ==> list[fd].dev == None && list[fd].flags == {}
    {
      if fd >= 0 {
        var rval := driver;
        ReleaseFd(fd);
        r := if rval < 0 then Fail(FromDriver(-rval)) else Value(0);
      } else {
        r := Fail(EBADFD);
      }
      Called(Op.Close(fd, driver));
    }

    method Ioctl(fd: int, request: Request, handler: Option<int>) returns (r: Ret)
      requires Valid() && Legal(View(), Op.Ioctl(fd, request, handler))
      modifies this, list
      ensures Valid() && calls == old(calls) + [Op.Ioctl(fd, request, handler)]
      ensures (View(), r) == Apply(old(View()), Op.Ioctl(fd, request, handler))
    {
      RunKeepsInv(boot, calls);
      if fd < 0 {
        r := Fail(EBADFD);
      } else if Dev in list[fd].flags && request == TIOCEXCL {
        var rc := FdLock(fd);
        r := if rc < 0 then Fail(EACCES) else Value(0);
      } else if Dev in list[fd].flags && request == TIOCNXCL {
        var rc := FdUnlock(fd);
        r := Value(rc);
      } else if handler == None {
        r := Fail(ENOTTY);
      } else {
        r := if handler.value < 0 then Fail(FromDriver(-handler.value)) else Value(handler.value);
      }
      Called(Op.Ioctl(fd, request, handler));
    }

    method Fcntl(fd: int, command: Command) returns (r: Ret)
      requires Valid() && Legal(View(), Op.Fcntl(fd, command))
      modifies this, list
      ensures Valid() && calls == old(calls) + [Op.Fcntl(fd, command)]
      ensures (View(), r) == Apply(old(View()), Op.Fcntl(fd, command))
    {
      if fd < 0 {
        r := Fail(EBADFD);
      } else {
        match command
        case GetFl => r := FlagSet(list[fd].flags - PRIVATE);
        case SetFl(arg) =>
          list[fd] := list[fd].(flags := list[fd].flags - SETTABLE);
          list[fd] := list[fd].(flags := list[fd].flags + (arg * SETTABLE));
          r := Value(0);
        case OtherCommand => r := Fail(EINVAL);
      }
      Called(Op.Fcntl(fd, command));
    }

    method OpenFd(slot: nat, found: Lookup, flags: set<Flag>, driver: int)
      requires Valid() && slot <= 2 < list.Length
      modifies this, list
      ensures Valid() && calls == old(calls) + [Op.Redirect(slot, found, flags, driver)]
      ensures View() == Apply(old(View()), Op.Redirect(slot, found, flags, driver)).0
    {
      RunKeepsInv(boot, calls);
      var r := OpenNamed(found, flags, driver);
      if r.Value? {
        OpenSucceeded(old(View()), found, flags, driver);
        MoveFd(slot, r.n);
      }
      Called(Op.Redirect(slot, found, flags, driver));
    }

    method MoveFd(slot: nat, from: nat)
      requires slot <= 2 < from < list.Length
      modifies list
      ensures View() == FdTable.ReleaseFd(SetFd(old(View()), slot, old(list[from])), from)
    {
      list[slot] := list[slot].(dev := list[from].dev);
      list[slot] := list[slot].(priv := list[from].priv);
      list[slot] := list[slot].(flags := list[from].flags);
      ReleaseFd(from);
    }

    /** Redirects standard output, input and error, in that order. */
    method IoRedirect(output: Lookup, input: Lookup, error: Lookup,
                      outputDriver: int, inputDriver: int, errorDriver: int)
      requires Valid()
      modifies this, list
      ensures Valid()
      ensures calls == old(calls) + [Op.Redirect(1, output, {WriteOnly}, outputDriver), Op.Redirect(0, input, {}, inputDriver),
                                     Op.Redirect(2, error, {WriteOnly}, errorDriver)]
    {
      RunKeepsInv(boot, calls);
      ghost var before := calls;
      OpenFd(1, output, {WriteOnly}, outputDriver);
      OpenFd(0, input, {}, inputDriver);
      OpenFd(2, error, {WriteOnly}, errorDriver);
      Three(before, Op.Redirect(1, output, {WriteOnly}, outputDriver), Op.Redirect(0, input, {}, inputDriver),
            Op.Redirect(2, error, {WriteOnly}, errorDriver));
    }

    static lemma Three(calls: seq<Op>, a: Op, b: Op, c: Op)
      ensures calls + [a] + [b] + [c] == calls + [a, b, c]
    {
    }
  }
}
