/** What each call on the descriptor table answers and leaves behind, and what one call undoes of another. */
module FdCalls {
  import opened Common
  import opened FdTable

  /** Every descriptor but `fd` is as it was, and so is the high-water mark. */
  predicate OnlyAt(t: Table, u: Table, fd: int) {
    && |u.list| == |t.list| && u.maxFd == t.maxFd
    && forall j :: 0 <= j < |t.list| && j != fd ==> u.list[j] == t.list[j]
  }

  /** A call on a negative descriptor number fails and changes nothing. */
  lemma NegativeIsRefused(t: Table, op: Op)
    requires (op.Close? || op.Ioctl? || op.Fcntl?) && op.fd < 0
    ensures Apply(t, op) == (t, Fail(EBADFD))
  {
  }

  // ---- close ----

  /** close() frees a descriptor above 2 whatever the driver says, and passes on what it says; it touches no
      other, and none of the three standard channels. */
  lemma CloseFrees(t: Table, fd: int, driver: int)
    requires fd >= 0 && Legal(t, Close(fd, driver))
    ensures var (u, r) := Apply(t, Close(fd, driver));
      && r == (if driver < 0 then Fail(FromDriver(-driver)) else Value(0))
      && OnlyAt(t, u, fd)
      && u.list[fd] == if fd > 2 then t.list[fd].(dev := None, flags := {}) else t.list[fd]
  {
  }

  lemma {:induction false} LowestIsLow(list: seq<Fd>, i: nat, k: nat)
    requires i <= k < |list| && list[k].dev == None
    ensures LowestFree(list, i) <= k
    decreases k - i
  {
    if i < k && list[i].dev != None {
      LowestIsLow(list, i + 1, k);
    }
  }

  /** So the next open that succeeds gets that descriptor or a lower one. */
  lemma CloseMakesRoom(t: Table, fd: int, driver: int, found: Lookup, flags: set<Flag>, answer: int)
    requires Inv(t) && fd > 2 && Legal(t, Close(fd, driver))
    ensures var u := Apply(t, Close(fd, driver)).0; var r := Apply(u, Open(found, flags, answer)).1;
      r != Fail(EMFILE) && (r.Value? ==> r.n <= fd)
  {
    var u := Apply(t, Close(fd, driver)).0;
    ApplyKeepsInv(t, Close(fd, driver));
    LowestIsLow(u.list, 0, fd);
    OpenAnswers(u, found, flags, answer);
  }

  // ---- open ----

  predicate Full(t: Table) {
    forall j :: 0 <= j < |t.list| ==> t.list[j].dev != None
  }

  /** What open() answers, by the first test that fails. A lock keeps out devices, not filesystems. */
  lemma OpenAnswers(t: Table, found: Lookup, flags: set<Flag>, driver: int)
    requires Inv(t)
    ensures Apply(t, Open(found, flags, driver)).1 ==
      if found == NoMatch then Fail(ENODEV)
      else if Full(t) then Fail(EMFILE)
      else if found.AsDevice? && Locked(t, found.dev) then Fail(EACCES)
      else if driver < 0 then Fail(FromDriver(-driver))
      else Value(LowestFree(t.list, 0))
    ensures LowestFree(t.list, 0) < |t.list| <==> !Full(t)
  {
    var k := LowestFree(t.list, 0);
    if !Full(t) {
      var j :| 0 <= j < |t.list| && t.list[j].dev == None;
      LowestIsLow(t.list, 0, j);
      if found.AsDevice? {
        LockIsSeen(t, found.dev, flags, k);
      }
    }
  }

  /** The scan of an open meets a holder exactly if there is one. */
  lemma LockIsSeen(t: Table, dev: Device, flags: set<Flag>, k: nat)
    requires Inv(t) && k < |t.list| && t.list[k].dev == None && k == LowestFree(t.list, 0)
    ensures var u := GetFd(t, dev).0; var v := SetFd(u, k, u.list[k].(flags := (flags - PRIVATE) + {Dev}));
      LockedByOther(v.list, Some(dev), k, v.maxFd) <==> Locked(t, dev)
  {
    var u := GetFd(t, dev).0;
    var v := SetFd(u, k, u.list[k].(flags := (flags - PRIVATE) + {Dev}));
    assert forall j :: 0 <= j < |t.list| && j != k ==> v.list[j] == t.list[j];
    if Locked(t, dev) {
      var g :| 0 <= g < |t.list| && t.list[g].dev == Some(dev) && Excl in t.list[g].flags;
      assert v.list[g] == t.list[g] && g <= v.maxFd;
    }
  }

  // ---- ioctl ----

  /** A lock that is granted sets the lock bit of that descriptor and nothing else; one that is refused
      changes nothing. */
  lemma LockSetsOneBit(t: Table, fd: nat, handler: Option<int>)
    requires Legal(t, Ioctl(fd, TIOCEXCL, handler)) && Dev in t.list[fd].flags
    ensures var (u, r) := Apply(t, Ioctl(fd, TIOCEXCL, handler));
      && (r == Value(0) || r == Fail(EACCES))
      && (r == Value(0) ==> OnlyAt(t, u, fd) && u.list[fd] == t.list[fd].(flags := t.list[fd].flags + {Excl}))
      && (r == Fail(EACCES) ==> u == t)
  {
  }

  /** TIOCNXCL on a device always succeeds, drops the lock bit of that descriptor and nothing else, and leaves
      the device unlocked unless another descriptor holds it. */
  lemma UnlockReleases(t: Table, fd: nat, handler: Option<int>)
    requires Legal(t, Ioctl(fd, TIOCNXCL, handler)) && Dev in t.list[fd].flags
    ensures var (u, r) := Apply(t, Ioctl(fd, TIOCNXCL, handler));
      && r == Value(0) && OnlyAt(t, u, fd)
      && u.list[fd] == t.list[fd].(flags := t.list[fd].flags - {Excl})
      && (Locked(u, t.list[fd].dev.value) <==>
            exists g :: 0 <= g < |t.list| && g != fd && t.list[g].dev == t.list[fd].dev && Excl in t.list[g].flags)
  {
    var u := Apply(t, Ioctl(fd, TIOCNXCL, handler)).0;
    if exists g :: 0 <= g < |t.list| && g != fd && t.list[g].dev == t.list[fd].dev && Excl in t.list[g].flags {
      var g :| 0 <= g < |t.list| && g != fd && t.list[g].dev == t.list[fd].dev && Excl in t.list[g].flags;
      assert u.list[g] == t.list[g];
    }
  }

  /** Releasing undoes locking, and the holder can lock again and again. */
  lemma LockRoundTrip(t: Table, fd: nat, handler: Option<int>)
    requires Legal(t, Ioctl(fd, TIOCEXCL, handler)) && Dev in t.list[fd].flags && Excl !in t.list[fd].flags
    requires Apply(t, Ioctl(fd, TIOCEXCL, handler)).1 == Value(0)
    ensures var u := Apply(t, Ioctl(fd, TIOCEXCL, handler)).0;
      && Apply(u, Ioctl(fd, TIOCNXCL, handler)) == (t, Value(0))
      && Apply(u, Ioctl(fd, TIOCEXCL, handler)) == (u, Value(0))
  {
    var u := Apply(t, Ioctl(fd, TIOCEXCL, handler)).0;
    var v := Apply(u, Ioctl(fd, TIOCNXCL, handler)).0;
    assert v.list[fd] == t.list[fd];
    assert v.list == t.list;
    var again := Apply(u, Ioctl(fd, TIOCEXCL, handler)).0;
    assert u.list[fd].flags + {Excl} == u.list[fd].flags;
    SharersStay(t, u, fd);
    assert again.list == u.list;
  }

  lemma SharersStay(t: Table, u: Table, fd: nat)
    requires fd < |t.list| && OnlyAt(t, u, fd) && u.list[fd].dev == t.list[fd].dev
    ensures SharedBelow(u.list, u.list[fd].dev, fd, u.maxFd) <==> SharedBelow(t.list, t.list[fd].dev, fd, t.maxFd)
  {
    forall i | 0 <= i < |t.list| && i != fd ensures u.list[i].dev == t.list[i].dev {
    }
  }

  /** Every other request goes to the driver, and so do the two on a filesystem: the table stays as it is. */
  lemma OtherRequestsPass(t: Table, fd: nat, request: Request, handler: Option<int>)
    requires Legal(t, Ioctl(fd, request, handler)) && (request == OtherRequest || Dev !in t.list[fd].flags)
    ensures Apply(t, Ioctl(fd, request, handler)) ==
      (t, match handler
          case None => Fail(ENOTTY)
          case Some(n) => if n < 0 then Fail(FromDriver(-n)) else Value(n))
  {
  }

  // ---- fcntl ----

  /** Reading the flags shows all but the two private ones; setting them answers 0, and then reading them shows
      the two settable ones as set and the others as before. Any other command is refused. */
  lemma FcntlAnswers(t: Table, fd: nat, arg: set<Flag>)
    requires fd < |t.list|
    ensures var was := t.list[fd].flags - {Excl, Dev};
      var (u, r) := Apply(t, Fcntl(fd, SetFl(arg)));
      && Apply(t, Fcntl(fd, GetFl)) == (t, FlagSet(was))
      && r == Value(0)
      && Apply(u, Fcntl(fd, GetFl)) == (u, FlagSet((was - {Append, NonBlock}) + (arg * {Append, NonBlock})))
      && Apply(t, Fcntl(fd, OtherCommand)) == (t, Fail(EINVAL))
  {
    var u := Apply(t, Fcntl(fd, SetFl(arg))).0;
    assert u.list[fd].flags - {Excl, Dev} ==
      ((t.list[fd].flags - {Excl, Dev}) - {Append, NonBlock}) + (arg * {Append, NonBlock});
  }

  /** What was given to open() can be read back, but for the private flags. */
  lemma OpenFlagsReadBack(t: Table, found: Lookup, flags: set<Flag>, driver: int)
    requires Inv(t) && Apply(t, Open(found, flags, driver)).1.Value?
    ensures var (u, r) := Apply(t, Open(found, flags, driver));
      Apply(u, Fcntl(r.n, GetFl)) == (u, FlagSet(flags - {Excl, Dev}))
  {
    OpenSucceeded(t, found, flags, driver);
    var (u, r) := Apply(t, Open(found, flags, driver));
    FcntlAnswers(u, r.n, {});
    assert u.list[r.n].flags - {Excl, Dev} == flags - {Excl, Dev};
  }

  // ---- Redirection ----

  /** A redirection that succeeds puts the file or device on the standard channel, with the flags it was opened
      with, and leaves every other descriptor as it was, the one it opened free; one that fails leaves the
      standard channels as they were. */
  lemma RedirectMoves(t: Table, slot: nat, found: Lookup, flags: set<Flag>, driver: int)
    requires Inv(t) && slot <= 2
    ensures var (u, r) := Apply(t, Redirect(slot, found, flags, driver));
      && r == Apply(t, Open(found, flags, driver)).1 && |u.list| == |t.list|
      && (r.Value? ==>
            && found != NoMatch && u.list[slot].dev == Some(found.dev)
            && u.list[slot].flags == (flags - {Excl, Dev}) + (if found.AsDevice? then {Dev} else {})
            && u.list[slot].priv == t.list[r.n].priv
            && r.n > 2 && u.list[r.n].dev == None && u.list[r.n].flags == {}
            && (forall j :: 0 <= j < |t.list| && j != slot && j != r.n ==> u.list[j] == t.list[j]))
      && (r.Fail? ==> forall j :: 0 <= j <= 2 ==> u.list[j] == t.list[j])
  {
    if Apply(t, Open(found, flags, driver)).1.Value? {
      OpenSucceeded(t, found, flags, driver);
    } else {
      FailedOpenRestoresIff(t, found, flags, driver);
    }
  }
}
