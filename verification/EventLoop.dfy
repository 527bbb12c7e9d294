/** The file-event part of aeEventLoop, changed in place, proved to do what
    FileTable and FileLaws say. */
module EventLoop {
  import opened Text
  import opened FileTable
  import opened FileLaws

  class EventLoop {
    const callbacks: Callbacks
    var events: array<FileEvent>
    var fired: array<Fired>
    var setsize: nat
    var maxfd: int
    /** The interest set behind `epfd`. */
    var kernel: Kernel
    /** The callbacks called so far. */
    var log: seq<FileCall>

    ghost predicate Valid()
      reads this
    {
      events.Length == setsize && fired.Length == setsize && -1 <= maxfd < setsize
    }

    ghost function View(): Table
      reads this, events
    {
      Table(events[..], maxfd, kernel)
    }

    /** aeCreateEventLoop; `junk` is what fresh memory holds. */
    constructor (setsize: nat, junk: FileEvent, callbacks: Callbacks)
      ensures Valid() && Consistent(View()) && fresh(events) && fresh(fired)
      ensures this.setsize == setsize && this.callbacks == callbacks && maxfd == -1 && log == []
    {
      this.callbacks := callbacks;
      this.setsize := setsize;
      maxfd, kernel, log := -1, map[], [];
      events := new FileEvent[setsize](_ => junk);
      fired := new Fired[setsize](_ => Fired(0, NONE));
      new;
      EmptyFrom(0);
      GreatestIsGreatest(events[..], -1);
    }

    /** The array as `zrealloc` leaves it. */
    method Reallocate(setsize: nat, junk: FileEvent)
      modifies this`events, this`fired, this`setsize
      ensures fresh(events) && fresh(fired) && this.setsize == events.Length == fired.Length == setsize
      ensures forall k | 0 <= k < setsize :: events[k] == if k < old(events).Length then old(events[k]) else junk
    {
      var was, n := events, events.Length;
      events := new FileEvent[setsize](i reads was => if 0 <= i < n then was[i] else junk);
      fired := new Fired[setsize](_ => Fired(0, NONE));
      this.setsize := setsize;
    }

    /** The loop that empties the slots no descriptor uses. */
    method EmptyFrom(from: nat)
      requires Valid() && from <= setsize
      modifies events
      ensures forall k | 0 <= k < setsize ::
        events[k] == if k < from then old(events[k]) else old(events[k]).(mask := NONE)
    {
      for i := from to setsize
        invariant forall k | 0 <= k < setsize ::
          events[k] == if from <= k < i then old(events[k]).(mask := NONE) else old(events[k])
      {
        events[i] := events[i].(mask := NONE);
      }
    }

    /** aeResizeSetSize. */
    method ResizeSetSize(setsize: int, junk: FileEvent) returns (ok: bool)
      requires Valid()
      modifies this
      ensures Valid() && log == old(log)
      ensures ok <==> Resize(old(View()), setsize, junk).Some?
      ensures View() == Resize(old(View()), setsize, junk).UnwrapOr(old(View()))
    {
      ghost var t := View();
      if setsize == this.setsize {
        return true;
      }
      if maxfd >= setsize {
        return false;
      }
      Reallocate(setsize, junk);
      EmptyFrom(maxfd + 1);
      assert events[..] == Resize(t, setsize, junk).value.events;
      return true;
    }

    method EpollCtl(op: CtlOp, fd: nat, interest: Interest, refuses: bool) returns (ok: bool)
      modifies this`kernel
      ensures ok <==> Ctl(old(kernel), op, fd, interest, refuses).Some?
      ensures kernel == Ctl(old(kernel), op, fd, interest, refuses).UnwrapOr(old(kernel))
    {
      match Ctl(kernel, op, fd, interest, refuses) {
        case None =>
          ok := false;
        case Some(changed) =>
          kernel := changed;
          ok := true;
      }
    }

    /** aeCreateFileEvent, with aeApiAddEvent. */
    method CreateFileEvent(fd: nat, mask: Mask, proc: int, data: int, refuses: bool) returns (ok: bool)
      requires Valid()
      modifies this`kernel, this`maxfd, events
      ensures Valid()
      ensures ok <==> Create(old(View()), fd, mask, proc, data, refuses).Some?
      ensures View() == Create(old(View()), fd, mask, proc, data, refuses).UnwrapOr(old(View()))
    {
      if fd >= setsize {
        return false;
      }
      var fe := events[fd];
      var op := if fe.mask == NONE then Add else Mod;
      ok := EpollCtl(op, fd, InterestOf(Plus(mask, fe.mask)), refuses);
      if !ok {
        return;
      }
      fe := fe.(mask := Plus(mask, fe.mask), clientData := data);
      if Has(mask, READABLE) {
        fe := fe.(rfileProc := proc);
      }
      if Has(mask, WRITABLE) {
        fe := fe.(wfileProc := proc);
      }
      events[fd] := fe;
      if fd > maxfd {
        maxfd := fd;
      }
    }

    /** aeDeleteFileEvent, with aeApiDelEvent. */
    method DeleteFileEvent(fd: nat, mask: Mask, refuses: bool)
      requires Valid()
      modifies this`kernel, this`maxfd, events
      ensures Valid() && View() == Delete(old(View()), fd, mask, refuses)
    {
      if fd >= setsize || events[fd].mask == NONE {
        return;
      }
      var left := Minus(events[fd].mask, mask);
      var _ := EpollCtl(if left != NONE then Mod else Del, fd, InterestOf(left), refuses);
      events[fd] := events[fd].(mask := left);
      if fd == maxfd && left == NONE {
        var j := maxfd - 1;
        while j >= 0 && events[j].mask == NONE
          invariant -1 <= j < maxfd
          invariant Greatest(events[..j + 1]) == Greatest(events[..maxfd])
        {
          assert events[..j + 1][..j] == events[..j];
          j := j - 1;
        }
        maxfd := j;
      }
    }

    method GetFileEvents(fd: nat) returns (mask: Mask)
      requires Valid()
      ensures mask == MaskOf(View(), fd)
    {
      mask := if fd >= setsize then NONE else events[fd].mask;
    }

    method RunOps(ops: seq<CallbackOp>)
      requires Valid()
      modifies this`kernel, this`maxfd, events
      ensures Valid() && View() == Run(old(View()), ops)
      decreases |ops|
    {
      if ops != [] {
        match ops[0] {
          case CreateEvent(fd, mask, proc, data, refuses) =>
            var _ := CreateFileEvent(fd, mask, proc, data, refuses);
          case DeleteEvent(fd, mask, refuses) =>
            DeleteFileEvent(fd, mask, refuses);
        }
        RunOps(ops[1..]);
      }
    }

    method CallBack(f: Fired, bit: Mask, proc: int, data: int)
      requires Valid()
      modifies this`kernel, this`maxfd, this`log, events
      ensures Valid() && Dispatch(View(), log) == Invoke(callbacks, old(Dispatch(View(), log)), f, bit, proc, data)
    {
      var n, watched := |log|, if f.fd in kernel then Some(kernel[f.fd]) else Option.None;
      RunOps(callbacks(n));
      log := log + [FileCall(f, bit, proc, data, watched)];
    }

    /** The part of aeApiPoll that hands over what epoll_wait reported. */
    method TakeReports(reports: seq<(nat, Ready)>)
      requires Valid() && |reports| <= setsize
      modifies fired
      ensures forall j | 0 <= j < |reports| :: fired[j] == Fired(reports[j].0, ReadyMask(reports[j].1))
    {
      for j := 0 to |reports|
        invariant forall k | 0 <= k < j :: fired[k] == Fired(reports[k].0, ReadyMask(reports[k].1))
      {
        fired[j] := Fired(reports[j].0, ReadyMask(reports[j].1));
      }
    }

    /** The loop of aeProcessEvents over what fired. */
    method ProcessFired(numevents: nat) returns (processed: nat)
      requires Valid() && numevents <= setsize
      requires forall j | 0 <= j < numevents :: fired[j].fd < setsize
      modifies this`kernel, this`maxfd, this`log, events
      ensures Valid() && processed == numevents
      ensures Dispatch(View(), log) == FireAll(callbacks, old(Dispatch(View(), log)), fired[..numevents])
    {
      processed := 0;
      for j := 0 to numevents
        invariant Valid() && processed == j
        invariant Dispatch(View(), log) == FireAll(callbacks, old(Dispatch(View(), log)), fired[..j])
      {
        assert fired[..j + 1][..j] == fired[..j];
        var f := fired[j];
        var rfired := false;
        if Shared(events[f.fd].mask, f.mask, READABLE) {
          rfired := true;
          CallBack(f, READABLE, events[f.fd].rfileProc, events[f.fd].clientData);
        }
        var fe := events[f.fd];
        if Shared(fe.mask, f.mask, WRITABLE) && (!rfired || fe.wfileProc != fe.rfileProc) {
          CallBack(f, WRITABLE, fe.wfileProc, fe.clientData);
        }
        processed := processed + 1;
      }
    }
  }
}
