/** The file descriptor table as a value: what open, close, ioctl, fcntl and redirection do to it. */
module FdTable {
  import opened Common

  /** Identifies one registered device or filesystem object. */
  type Device = nat

  const DEV_NULL: Device := 0

  /** The bits of a descriptor's flag word, by name. */
  datatype Flag = Excl | Dev | Append | NonBlock | WriteOnly | Other(bit: nat)

  const PRIVATE: set<Flag> := {Excl, Dev}
  const SETTABLE: set<Flag> := {Append, NonBlock}

  datatype Fd = Fd(dev: Option<Device>, priv: int, flags: set<Flag>)

  datatype Table = Table(list: seq<Fd>, maxFd: int)

  /** What searching the device list, then the filesystem list, finds for a name. */
  datatype Lookup = AsDevice(dev: Device) | AsFile(dev: Device) | NoMatch

  datatype Error = EMFILE | ENODEV | EACCES | EBADFD | ENOTTY | EINVAL | FromDriver(code: int)

  datatype Ret = Fail(error: Error) | Value(n: int) | FlagSet(flags: set<Flag>)

  datatype Request = TIOCEXCL | TIOCNXCL | OtherRequest

  datatype Command = GetFl | SetFl(arg: set<Flag>) | OtherCommand

  /** A system call. `driver` is what the device's own callback returns, 0 when it has none, and
      `handler` what its ioctl callback returns, if it has one. */
  datatype Op =
    | Open(found: Lookup, flags: set<Flag>, driver: int)
    | Close(fd: int, driver: int)
    | Ioctl(fd: int, request: Request, handler: Option<int>)
    | Fcntl(fd: int, command: Command)
    | Redirect(slot: int, found: Lookup, flags: set<Flag>, driver: int)

  function SetFd(t: Table, i: nat, fd: Fd): Table
    requires i < |t.list|
  {
    t.(list := t.list[i := fd])
  }

  /** The least index of a free slot from `i` on, or the length of the table. */
  function LowestFree(list: seq<Fd>, i: nat): (k: nat)
    requires i <= |list|
    ensures i <= k <= |list|
    ensures k < |list| ==> list[k].dev == None
    ensures forall j :: i <= j < k ==> list[j].dev != None
    decreases |list| - i
  {
    if i == |list| || list[i].dev == None then i else LowestFree(list, i + 1)
  }

  function GetFd(t: Table, dev: Device): (Table, int) {
    var i: int := LowestFree(t.list, 0);
    if i == |t.list| then (t, -1)
    else
      (Table(t.list[i := t.list[i].(dev := Some(dev))], if i > t.maxFd then i else t.maxFd), i)
  }

  function ReleaseFd(t: Table, fd: int): Table
    requires fd < |t.list|
  {
    if fd > 2 then SetFd(t, fd, t.list[fd].(flags := {}, dev := None)) else t
  }

  /** Some descriptor among 0..`last` other than `self` holds `dev` for exclusive use. */
  predicate LockedByOther(list: seq<Fd>, dev: Option<Device>, self: int, last: int) {
    exists i :: 0 <= i < |list| && i <= last && i != self && list[i].dev == dev && Excl in list[i].flags
  }

  /** Some descriptor below `bound` other than `self` is on `dev`. */
  predicate SharedBelow(list: seq<Fd>, dev: Option<Device>, self: int, bound: int) {
    exists i :: 0 <= i < |list| && i < bound && i != self && list[i].dev == dev
  }

  function OpenFound(t: Table, dev: Device, isafs: bool, flags: set<Flag>, driver: int): (o: (Table, Ret))
    ensures |o.0.list| == |t.list| && !o.1.FlagSet?
    ensures o.1.Value? ==> 0 <= o.1.n < |t.list|
  {
    var (u, i) := GetFd(t, dev);
    if i < 0 then (t, Fail(EMFILE))
    else
      var fd := u.list[i].(flags := (flags - PRIVATE) + if isafs then {} else {Dev});
      var v := SetFd(u, i, fd);
      if !isafs && LockedByOther(v.list, fd.dev, i, v.maxFd) then (ReleaseFd(v, i), Fail(EACCES))
      else if driver < 0 then (ReleaseFd(v, i), Fail(FromDriver(-driver)))
      else (v, Value(i))
  }

  function DoOpen(t: Table, found: Lookup, flags: set<Flag>, driver: int): (o: (Table, Ret))
    ensures |o.0.list| == |t.list| && !o.1.FlagSet?
    ensures o.1.Value? ==> 0 <= o.1.n < |t.list|
  {
    match found
    case AsDevice(dev) => OpenFound(t, dev, false, flags, driver)
    case AsFile(dev) => OpenFound(t, dev, true, flags, driver)
    case NoMatch => (t, Fail(ENODEV))
  }

  function DoClose(t: Table, fd: int, driver: int): (Table, Ret)
    requires fd < |t.list|
  {
    if fd < 0 then (t, Fail(EBADFD))
    else (ReleaseFd(t, fd), if driver < 0 then Fail(FromDriver(-driver)) else Value(0))
  }

  /** The scan stops one short of maxFd. */
  function FdLock(t: Table, fd: nat): (Table, Ret)
    requires fd < |t.list|
  {
    var d := t.list[fd];
    if SharedBelow(t.list, d.dev, fd, t.maxFd) then (t, Fail(EACCES))
    else (SetFd(t, fd, d.(flags := d.flags + {Excl})), Value(0))
  }

  function FdUnlock(t: Table, fd: nat): (Table, Ret)
    requires fd < |t.list|
  {
    (SetFd(t, fd, t.list[fd].(flags := t.list[fd].flags - {Excl})), Value(0))
  }

  function DoIoctl(t: Table, fd: int, request: Request, handler: Option<int>): (Table, Ret)
    requires fd < |t.list|
  {
    if fd < 0 then (t, Fail(EBADFD))
    else if Dev in t.list[fd].flags && request == TIOCEXCL then FdLock(t, fd)
    else if Dev in t.list[fd].flags && request == TIOCNXCL then FdUnlock(t, fd)
    else if handler == None then (t, Fail(ENOTTY))
    else if handler.value < 0 then (t, Fail(FromDriver(-handler.value)))
    else (t, Value(handler.value))
  }

  function DoFcntl(t: Table, fd: int, command: Command): (Table, Ret)
    requires fd < |t.list|
  {
    if fd < 0 then (t, Fail(EBADFD))
    else
      match command
      case GetFl => (t, FlagSet(t.list[fd].flags - PRIVATE))
      case SetFl(arg) => (SetFd(t, fd, t.list[fd].(flags := (t.list[fd].flags - SETTABLE) + (arg * SETTABLE))), Value(0))
      case OtherCommand => (t, Fail(EINVAL))
  }

  /** One channel of the redirection: open, copy the descriptor over the slot, free the original. */
  function DoRedirect(t: Table, slot: nat, found: Lookup, flags: set<Flag>, driver: int): (Table, Ret)
    requires slot < |t.list|
  {
    var (u, r) := DoOpen(t, found, flags, driver);
    if r.Fail? then (u, r)
    else (ReleaseFd(SetFd(u, slot, u.list[r.n]), r.n), r)
  }

  /** What each call demands: a descriptor inside the table, and an open one wherever the call
      follows the device pointer. Redirection is only ever of the three standard channels. */
  predicate Legal(t: Table, op: Op) {
    match op
    case Open(_, _, _) => true
    case Close(fd, _) => fd < |t.list| && (fd >= 0 ==> t.list[fd].dev != None)
    case Ioctl(fd, _, _) => fd < |t.list| && (fd >= 0 ==> t.list[fd].dev != None)
    case Fcntl(fd, _) => fd < |t.list|
    case Redirect(slot, _, _, _) => 0 <= slot <= 2 < |t.list|
  }

  /** One call; a call that is not legal is never made. */
  function Apply(t: Table, op: Op): (Table, Ret) {
    if !Legal(t, op) then (t, Fail(EBADFD))
    else
      match op
      case Open(found, flags, driver) => DoOpen(t, found, flags, driver)
      case Close(fd, driver) => DoClose(t, fd, driver)
      case Ioctl(fd, request, handler) => DoIoctl(t, fd, request, handler)
      case Fcntl(fd, command) => DoFcntl(t, fd, command)
      case Redirect(slot, found, flags, driver) => DoRedirect(t, slot, found, flags, driver)
  }

  function Run(t: Table, ops: seq<Op>): Table {
    if ops == [] then t else Apply(Run(t, ops[..|ops| - 1]), ops[|ops| - 1]).0
  }

  predicate Boot(t: Table) {
    && |t.list| >= 3
    && t.maxFd == -1
    && forall i :: 0 <= i < |t.list| ==> t.list[i] == Fd(if i < 3 then Some(DEV_NULL) else None, 0, {})
  }

  // ---- Invariants ----

  /** Occupied slots: the standard channels, and otherwise nothing above the high-water mark. Only
      devices are locked, and only open slots are devices; a standard channel is one only after a
      redirection, which has used a slot above 2. */
  predicate MarkInv(t: Table) {
    && 3 <= |t.list|
    && -1 <= t.maxFd < |t.list|
    && (forall i :: 0 <= i < |t.list| ==>
          && (i <= 2 ==> t.list[i].dev != None)
          && (t.list[i].dev != None ==> i <= 2 || i <= t.maxFd)
          && (Dev in t.list[i].flags ==> t.list[i].dev != None && 3 <= t.maxFd)
          && (Excl in t.list[i].flags ==> Dev in t.list[i].flags))
  }

  /** Descriptor `g` holds its device for exclusive use, and `f` is another device descriptor on
      the same device. */
  predicate HoldsAgainst(list: seq<Fd>, g: int, f: int) {
    && 0 <= g < |list| && 0 <= f < |list| && g != f
    && list[g].dev == list[f].dev
    && Excl in list[g].flags && Dev in list[f].flags
  }

  /** A lock holder is the lowest device descriptor on its device. */
  predicate LockInv(list: seq<Fd>) {
    forall g, f | 0 <= g < |list| && 0 <= f < |list| :: HoldsAgainst(list, g, f) ==> g < f
  }

  predicate Inv(t: Table) {
    MarkInv(t) && LockInv(t.list)
  }

  lemma ReleaseKeepsInv(t: Table, fd: int)
    requires Inv(t) && fd < |t.list|
    ensures Inv(ReleaseFd(t, fd))
  {
    var u := ReleaseFd(t, fd);
    forall g, f | HoldsAgainst(u.list, g, f) ensures g < f {
      assert HoldsAgainst(t.list, g, f);
    }
  }

  /** Writing into slot `i` a descriptor without EXCL, on a device nobody else holds. */
  lemma FillKeepsInv(t: Table, i: nat, fd: Fd, mark: int)
    requires Inv(t) && i < |t.list| && t.maxFd <= mark < |t.list| && (i <= 2 || i <= mark)
    requires fd.dev != None && Excl !in fd.flags
    requires Dev in fd.flags ==> 3 <= mark && !LockedByOther(t.list, fd.dev, i, mark)
    ensures Inv(Table(t.list[i := fd], mark))
  {
    var u := t.list[i := fd];
    forall g, f | HoldsAgainst(u, g, f) ensures g < f {
      if f != i {
        assert HoldsAgainst(t.list, g, f);
      }
    }
  }

  lemma OpenFoundKeepsInv(t: Table, dev: Device, isafs: bool, flags: set<Flag>, driver: int)
    requires Inv(t)
    ensures Inv(OpenFound(t, dev, isafs, flags, driver).0)
  {
    var (u, i) := GetFd(t, dev);
    if i >= 0 {
      var fd := u.list[i].(flags := (flags - PRIVATE) + if isafs then {} else {Dev});
      var v := SetFd(u, i, fd);
      assert v.list == t.list[i := fd];
      if isafs || !LockedByOther(v.list, fd.dev, i, v.maxFd) {
        if LockedByOther(t.list, fd.dev, i, v.maxFd) {
          var j :| 0 <= j < |t.list| && j <= v.maxFd && j != i && t.list[j].dev == fd.dev && Excl in t.list[j].flags;
          assert v.list[j] == t.list[j];
        }
        FillKeepsInv(t, i, fd, v.maxFd);
        ReleaseKeepsInv(v, i);
      } else {
        FillKeepsInv(t, i, fd.(flags := fd.flags - {Dev}), v.maxFd);
        ReleaseKeepsInv(Table(t.list[i := fd.(flags := fd.flags - {Dev})], v.maxFd), i);
        assert ReleaseFd(v, i).list == ReleaseFd(Table(t.list[i := fd.(flags := fd.flags - {Dev})], v.maxFd), i).list;
      }
    }
  }

  /** The scan that stops at maxFd - 1 still protects a holder: the holder is below every device
      descriptor it shares with, so it is below maxFd and the scan meets it. */
  lemma FdLockKeepsInv(t: Table, fd: nat)
    requires Inv(t) && fd < |t.list| && Dev in t.list[fd].flags
    ensures Inv(FdLock(t, fd).0)
  {
    if !SharedBelow(t.list, t.list[fd].dev, fd, t.maxFd) {
      var u := FdLock(t, fd).0;
      forall g, f | HoldsAgainst(u.list, g, f) ensures g < f {
        if g == fd {
          assert t.list[f].dev == t.list[fd].dev;
          assert f >= t.maxFd;
        } else {
          assert HoldsAgainst(t.list, g, f);
        }
      }
    }
  }

  lemma FlagsKeepInv(t: Table, fd: nat, flags: set<Flag>)
    requires Inv(t) && fd < |t.list|
    requires Dev in flags <==> Dev in t.list[fd].flags
    requires Excl in flags ==> Excl in t.list[fd].flags
    ensures Inv(SetFd(t, fd, t.list[fd].(flags := flags)))
  {
    var u := SetFd(t, fd, t.list[fd].(flags := flags));
    forall g, f | HoldsAgainst(u.list, g, f) ensures g < f {
      assert HoldsAgainst(t.list, g, f);
    }
  }

  /** A successful open: the lowest free slot, on the device asked for, and on a device that no
      other descriptor holds. */
  lemma OpenSucceeded(t: Table, found: Lookup, flags: set<Flag>, driver: int)
    requires Inv(t) && DoOpen(t, found, flags, driver).1.Value?
    ensures var (u, r) := DoOpen(t, found, flags, driver);
      && found != NoMatch
      && r.n == LowestFree(t.list, 0) < |t.list| == |u.list|
      && 2 < r.n <= u.maxFd
      && (forall j :: 0 <= j < |t.list| && j != r.n ==> u.list[j] == t.list[j])
      && u.maxFd == (if r.n > t.maxFd then r.n else t.maxFd)
      && u.list[r.n].dev == Some(found.dev) && u.list[r.n].priv == t.list[r.n].priv
      && u.list[r.n].flags == (flags - PRIVATE) + (if found.AsDevice? then {Dev} else {})
      && (found.AsDevice? ==> forall j :: 0 <= j < |t.list| && t.list[j].dev == Some(found.dev) ==> Excl !in t.list[j].flags)
  {
    var (u, r) := DoOpen(t, found, flags, driver);
    if found.AsDevice? {
      forall j | 0 <= j < |t.list| && t.list[j].dev == Some(found.dev) ensures Excl !in t.list[j].flags {
        assert u.list[j] == t.list[j];
        assert j <= u.maxFd;
      }
    }
  }

  lemma RedirectKeepsInv(t: Table, slot: nat, found: Lookup, flags: set<Flag>, driver: int)
    requires Inv(t) && slot <= 2
    ensures Inv(DoRedirect(t, slot, found, flags, driver).0)
  {
    var (u, r) := DoOpen(t, found, flags, driver);
    if found != NoMatch {
      OpenFoundKeepsInv(t, found.dev, found.AsFile?, flags, driver);
    }
    if r.Value? {
      OpenSucceeded(t, found, flags, driver);
      var fd := u.list[r.n];
      var v := ReleaseFd(u, r.n);
      ReleaseKeepsInv(u, r.n);
      FillKeepsInv(v, slot, fd, v.maxFd);
      assert ReleaseFd(SetFd(u, slot, fd), r.n) == Table(v.list[slot := fd], v.maxFd);
    }
  }

  lemma ApplyKeepsInv(t: Table, op: Op)
    requires Inv(t)
    ensures Inv(Apply(t, op).0)
  {
    if Legal(t, op) {
      match op
      case Open(found, flags, driver) =>
        if found != NoMatch {
          OpenFoundKeepsInv(t, found.dev, found.AsFile?, flags, driver);
        }
      case Close(fd, driver) => ReleaseKeepsInv(t, fd);
      case Ioctl(fd, request, handler) =>
        if fd >= 0 && Dev in t.list[fd].flags {
          FdLockKeepsInv(t, fd);
          FlagsKeepInv(t, fd, t.list[fd].flags - {Excl});
        }
      case Fcntl(fd, command) =>
        if fd >= 0 && command.SetFl? {
          FlagsKeepInv(t, fd, (t.list[fd].flags - SETTABLE) + (command.arg * SETTABLE));
        }
      case Redirect(slot, found, flags, driver) => RedirectKeepsInv(t, slot, found, flags, driver);
    }
  }

  lemma {:induction false} RunKeepsInv(t: Table, ops: seq<Op>)
    requires Inv(t)
    ensures Inv(Run(t, ops))
  {
    if ops != [] {
      RunKeepsInv(t, ops[..|ops| - 1]);
      ApplyKeepsInv(Run(t, ops[..|ops| - 1]), ops[|ops| - 1]);
    }
  }

  /** At most one holder per device, over every run of the calls from the boot table. */
  lemma UniqueHolder(boot: Table, ops: seq<Op>, f: int, g: int)
    requires Boot(boot)
    requires var t := Run(boot, ops);
      && 0 <= f < |t.list| && 0 <= g < |t.list|
      && t.list[f].dev == t.list[g].dev
      && Excl in t.list[f].flags && Excl in t.list[g].flags
    ensures f == g
  {
    RunKeepsInv(boot, ops);
    if f != g {
      var t := Run(boot, ops);
      assert HoldsAgainst(t.list, f, g) && HoldsAgainst(t.list, g, f);
    }
  }

  // ---- What a lock means ----

  /** Every other descriptor on the device of `fd` is number maxFd. */
  predicate SharedOnlyWithMark(t: Table, fd: nat)
    requires fd < |t.list|
  {
    forall i :: 0 <= i < |t.list| && i != fd && t.list[i].dev == t.list[fd].dev ==> i == t.maxFd
  }

  predicate SoleDescriptor(t: Table, fd: nat)
    requires fd < |t.list|
  {
    forall i :: 0 <= i < |t.list| && i != fd ==> t.list[i].dev != t.list[fd].dev
  }

  /** When a lock is granted, exactly. It is granted as documented, to the only descriptor on the
      device, except when the one other descriptor is number maxFd: then it is granted too. */
  lemma LockGrantedIff(t: Table, fd: nat)
    requires Inv(t) && fd < |t.list| && Dev in t.list[fd].flags
    ensures DoIoctl(t, fd, TIOCEXCL, None).1 == Value(0) <==> SharedOnlyWithMark(t, fd)
    ensures (DoIoctl(t, fd, TIOCEXCL, None).1 == Value(0) <==> SoleDescriptor(t, fd)) <==>
            !(SharedOnlyWithMark(t, fd) && fd != t.maxFd && t.list[t.maxFd].dev == t.list[fd].dev)
  {
    if SharedBelow(t.list, t.list[fd].dev, fd, t.maxFd) {
      var i :| 0 <= i < |t.list| && i < t.maxFd && i != fd && t.list[i].dev == t.list[fd].dev;
      assert !SharedOnlyWithMark(t, fd);
    }
  }

  /** The exception is reachable: two opens of a device, then a lock of the first descriptor. */
  lemma LockWhileSharedIsReachable(boot: Table, dev: Device)
    requires Boot(boot) && |boot.list| >= 5 && dev != DEV_NULL
    ensures var t := Run(boot, [Open(AsDevice(dev), {}, 0), Open(AsDevice(dev), {}, 0)]);
      && |t.list| == |boot.list|
      && t.list[3].dev == t.list[4].dev == Some(dev)
      && Apply(t, Ioctl(3, TIOCEXCL, None)).1 == Value(0)
  {
    var o := Open(AsDevice(dev), {}, 0);
    RunTwo(boot, o, o);
    OpenOfUnlocked(boot, dev, 3);
    var a := Apply(boot, o).0;
    OpenOfUnlocked(a, dev, 4);
    var t := Apply(a, o).0;
    assert t.list[3] == Fd(Some(dev), 0, {Dev});
  }

  lemma OpenOfUnlocked(t: Table, dev: Device, k: nat)
    requires k < |t.list| && t.list[k] == Fd(None, 0, {}) && t.maxFd < k
    requires forall j :: 0 <= j < k ==> t.list[j].dev != None
    requires forall j :: 0 <= j < |t.list| ==> Excl !in t.list[j].flags
    ensures Apply(t, Open(AsDevice(dev), {}, 0)) == (Table(t.list[k := Fd(Some(dev), 0, {Dev})], k), Value(k))
  {
    LowestFreeSteps(t.list, k);
    var (u, i) := GetFd(t, dev);
    var flags: set<Flag> := {};
    var fd := u.list[i].(flags := (flags - PRIVATE) + {Dev});
    assert fd == Fd(Some(dev), 0, {Dev});
    assert !LockedByOther(SetFd(u, i, fd).list, fd.dev, i, u.maxFd);
    assert SetFd(u, i, fd).list == t.list[k := fd];
  }

  lemma RunTwo(t: Table, x: Op, y: Op)
    ensures Run(t, [x, y]) == Apply(Apply(t, x).0, y).0
  {
    assert [x, y][..1] == [x] && [x][..0] == [];
    assert Run(t, [x]) == Apply(t, x).0;
  }

  lemma LowestFreeSteps(list: seq<Fd>, k: nat)
    requires k < |list| && list[k].dev == None
    requires forall j :: 0 <= j < k ==> list[j].dev != None
    ensures LowestFree(list, 0) == k
  {
  }

  /** The descriptors on a device. */
  function DescriptorsOn(t: Table, dev: Device): set<int> {
    set i | 0 <= i < |t.list| && t.list[i].dev == Some(dev)
  }

  predicate Locked(t: Table, dev: Device) {
    exists g :: 0 <= g < |t.list| && t.list[g].dev == Some(dev) && Excl in t.list[g].flags
  }

  /** The name lookup of this call does not produce `dev` as a filesystem. */
  predicate NotAsFile(op: Op, dev: Device) {
    (op.Open? || op.Redirect?) ==> op.found != AsFile(dev)
  }

  /** While a device is locked no open of it succeeds, and no call of any kind adds a descriptor
      to it, provided it is not also registered as a filesystem. */
  lemma LockFreezesDevice(t: Table, dev: Device, op: Op)
    requires Inv(t) && Locked(t, dev) && NotAsFile(op, dev)
    ensures op.Open? && op.found == AsDevice(dev) ==> Apply(t, op).1.Fail?
    ensures DescriptorsOn(Apply(t, op).0, dev) <= DescriptorsOn(t, dev)
  {
    var u := Apply(t, op).0;
    if (op.Open? || op.Redirect?) && DoOpen(t, op.found, op.flags, op.driver).1.Value? {
      OpenSucceeded(t, op.found, op.flags, op.driver);
      assert op.found.dev != dev;
    }
  }

  predicate LockedThroughout(t: Table, dev: Device, ops: seq<Op>) {
    Locked(Run(t, ops), dev) &&
    (ops != [] ==> LockedThroughout(t, dev, ops[..|ops| - 1]) && NotAsFile(ops[|ops| - 1], dev))
  }

  /** Over a whole run during which the device stays locked, its descriptors can only go away. */
  lemma {:induction false} LockFreezesRun(t: Table, dev: Device, ops: seq<Op>)
    requires Inv(t) && LockedThroughout(t, dev, ops)
    ensures DescriptorsOn(Run(t, ops), dev) <= DescriptorsOn(t, dev)
  {
    if ops != [] {
      LockFreezesRun(t, dev, ops[..|ops| - 1]);
      RunKeepsInv(t, ops[..|ops| - 1]);
      LockFreezesDevice(Run(t, ops[..|ops| - 1]), dev, ops[|ops| - 1]);
    }
  }

  // ---- What a failed open leaves behind ----

  /** A failed open changes no descriptor but the free slot it tried; that slot is as it was if and
      only if no slot was tried or its flag word was already clear. The high-water mark may rise. */
  lemma FailedOpenRestoresIff(t: Table, found: Lookup, flags: set<Flag>, driver: int)
    requires Inv(t) && DoOpen(t, found, flags, driver).1.Fail?
    ensures var u := DoOpen(t, found, flags, driver).0; var k := LowestFree(t.list, 0);
      && |u.list| == |t.list| && t.maxFd <= u.maxFd
      && (forall j :: 0 <= j < |t.list| && j != k ==> u.list[j] == t.list[j])
      && (u.list == t.list <==> found == NoMatch || k == |t.list| || t.list[k].flags == {})
      && (k < |t.list| && found != NoMatch ==> u.list[k] == t.list[k].(flags := {}))
  {
    var u := DoOpen(t, found, flags, driver).0;
    var k := LowestFree(t.list, 0);
    if found != NoMatch && k < |t.list| {
      assert u.list[k] == t.list[k].(flags := {});
    }
  }

  /** The exception is reachable: fcntl() on a closed descriptor, then an open that the driver refuses. */
  lemma FailedOpenLosesFlags(boot: Table, dev: Device)
    requires Boot(boot) && |boot.list| >= 4
    ensures var t := Run(boot, [Fcntl(3, SetFl({Append}))]);
      && |t.list| == |boot.list| && t.list[3] == Fd(None, 0, {Append})
      && Apply(t, Open(AsDevice(dev), {}, -1)).1 == Fail(FromDriver(1))
      && Apply(t, Open(AsDevice(dev), {}, -1)).0.list == t.list[3 := Fd(None, 0, {})] != t.list
  {
    var op := Fcntl(3, SetFl({Append}));
    assert [op][..0] == [];
    assert Run(boot, []) == boot;
    var t := Run(boot, [op]);
    var none: set<Flag> := {};
    assert (none - SETTABLE) + ({Append} * SETTABLE) == {Append};
    assert t == SetFd(boot, 3, Fd(None, 0, {Append}));
    LowestFreeSteps(t.list, 3);
    RefusedOpen(t, dev);
    assert t.list[3 := Fd(None, 0, {})][3] != t.list[3];
  }

  lemma RefusedOpen(t: Table, dev: Device)
    requires LowestFree(t.list, 0) == 3 < |t.list| && t.list[3].priv == 0
    requires forall j :: 0 <= j < |t.list| ==> Excl !in t.list[j].flags
    ensures Apply(t, Open(AsDevice(dev), {}, -1)) ==
      (Table(t.list[3 := Fd(None, 0, {})], if 3 > t.maxFd then 3 else t.maxFd), Fail(FromDriver(1)))
  {
    var (u, i) := GetFd(t, dev);
    var none: set<Flag> := {};
    var fd := u.list[i].(flags := (none - PRIVATE) + {Dev});
    var v := SetFd(u, i, fd);
    assert !LockedByOther(v.list, fd.dev, i, v.maxFd);
    assert ReleaseFd(v, i).list == t.list[3 := Fd(None, 0, {})];
  }

  /** A free slot has flags only because fcntl() was called on a closed descriptor. */
  predicate FreeSlotsClear(t: Table) {
    forall i :: 0 <= i < |t.list| && t.list[i].dev == None ==> t.list[i].flags == {}
  }

  lemma FreeSlotsStayClear(t: Table, op: Op)
    requires Inv(t) && FreeSlotsClear(t)
    requires op.Fcntl? && 0 <= op.fd < |t.list| ==> t.list[op.fd].dev != None
    ensures FreeSlotsClear(Apply(t, op).0)
  {
    if op.Open? || op.Redirect? {
      if DoOpen(t, op.found, op.flags, op.driver).1.Value? {
        OpenSucceeded(t, op.found, op.flags, op.driver);
      } else {
        FailedOpenRestoresIff(t, op.found, op.flags, op.driver);
      }
    }
  }

  /** fcntl() moves only the two settable bits, so it can neither take nor release a lock. */
  lemma FcntlMovesOnlySettable(t: Table, fd: int, command: Command)
    requires 0 <= fd < |t.list|
    ensures var u := DoFcntl(t, fd, command).0;
      && |u.list| == |t.list| && u.maxFd == t.maxFd
      && (forall j :: 0 <= j < |t.list| ==>
            && u.list[j].dev == t.list[j].dev && u.list[j].priv == t.list[j].priv
            && u.list[j].flags - SETTABLE == t.list[j].flags - SETTABLE
            && (j != fd ==> u.list[j] == t.list[j]))
      && (command.SetFl? ==> u.list[fd].flags * SETTABLE == command.arg * SETTABLE)
  {
  }
}
