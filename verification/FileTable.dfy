/** The file-event table of ae.c, its cached greatest descriptor, and the epoll
    interest set of ae_epoll.c that has to follow it. */
module FileTable {
  import opened Text

  type Mask = bv32

  const NONE: Mask := 0
  const READABLE: Mask := 1
  const WRITABLE: Mask := 2

  datatype FileEvent = FileEvent(mask: Mask, rfileProc: int, wfileProc: int, clientData: int)

  /** What epoll watches a descriptor for. */
  datatype Interest = Interest(input: bool, output: bool)

  type Kernel = map<nat, Interest>

  datatype Table = Table(events: seq<FileEvent>, maxfd: int, kernel: Kernel)

  predicate Formed(t: Table) {
    -1 <= t.maxfd < |t.events|
  }

  function Has(mask: Mask, bit: Mask): bool {
    mask & bit != 0
  }

  function Plus(mask: Mask, more: Mask): (r: Mask)
    ensures r == NONE <==> mask == NONE && more == NONE
  {
    mask | more
  }

  function Minus(mask: Mask, less: Mask): (r: Mask)
    ensures mask == NONE ==> r == NONE
  {
    mask & !less
  }

  function InterestOf(mask: Mask): Interest {
    Interest(Has(mask, READABLE), Has(mask, WRITABLE))
  }

  function MaskOf(t: Table, fd: nat): Mask {
    if fd < |t.events| then t.events[fd].mask else NONE
  }

  // ----- epoll_ctl -----

  datatype CtlOp = Add | Mod | Del

  /** The kernel refuses to add what is there and to change or remove what is not;
      it may also refuse for reasons of its own. */
  function Ctl(kernel: Kernel, op: CtlOp, fd: nat, interest: Interest, refuses: bool): Option<Kernel> {
    if refuses || (op.Add? <==> fd in kernel) then None
    else if op.Del? then Some(kernel - {fd})
    else Some(kernel[fd := interest])
  }

  // ----- the operations -----

  /** aeCreateFileEvent with aeApiAddEvent; `None` is AE_ERR, and then nothing changed. */
  function Create(t: Table, fd: nat, mask: Mask, proc: int, data: int, refuses: bool): Option<Table> {
    if fd >= |t.events| then None
    else
      var fe := t.events[fd];
      match Ctl(t.kernel, if fe.mask == NONE then Add else Mod, fd, InterestOf(Plus(mask, fe.mask)), refuses)
      case None => None
      case Some(kernel) =>
        var fe' := FileEvent(
          Plus(mask, fe.mask),
          if Has(mask, READABLE) then proc else fe.rfileProc,
          if Has(mask, WRITABLE) then proc else fe.wfileProc,
          data);
        Some(Table(t.events[fd := fe'], if fd > t.maxfd then fd else t.maxfd, kernel))
  }

  /** The greatest index with a mask, -1 if there is none. */
  function Greatest(events: seq<FileEvent>): (g: int)
    ensures -1 <= g < |events|
  {
    if events == [] then -1
    else if events[|events| - 1].mask != NONE then |events| - 1
    else Greatest(events[..|events| - 1])
  }

  /** aeDeleteFileEvent with aeApiDelEvent, which ignores a refusal. */
  function Delete(t: Table, fd: nat, mask: Mask, refuses: bool): Table
    requires Formed(t)
  {
    if fd >= |t.events| || t.events[fd].mask == NONE then t
    else
      var left := Minus(t.events[fd].mask, mask);
      var events := t.events[fd := t.events[fd].(mask := left)];
      var maxfd := if fd == t.maxfd && left == NONE then Greatest(events[..t.maxfd]) else t.maxfd;
      match Ctl(t.kernel, if left != NONE then Mod else Del, fd, InterestOf(left), refuses)
      case None => Table(events, maxfd, t.kernel)
      case Some(kernel) => Table(events, maxfd, kernel)
  }

  /** aeResizeSetSize; `junk` is what fresh memory holds. */
  function Resize(t: Table, setsize: int, junk: FileEvent): Option<Table>
    requires Formed(t)
  {
    if setsize == |t.events| then Some(t)
    else if t.maxfd >= setsize then None
    else Some(t.(events := t.events[..t.maxfd + 1] + Emptied(t.events, t.maxfd + 1, setsize, junk)))
  }

  function Emptied(events: seq<FileEvent>, from: nat, to: nat, junk: FileEvent): (slots: seq<FileEvent>)
    requires from <= to
    ensures |slots| == to - from
    ensures forall i | 0 <= i < |slots| :: slots[i].mask == NONE
  {
    seq(to - from, i requires 0 <= i < to - from =>
      (if from + i < |events| then events[from + i] else junk).(mask := NONE))
  }

  // ----- what the table has to keep -----

  /** epoll watches exactly the descriptors with a mask, for what the mask says. */
  ghost predicate Mirrors(kernel: Kernel, events: seq<FileEvent>) {
    && (forall fd: nat :: fd in kernel <==> fd < |events| && events[fd].mask != NONE)
    && (forall fd: nat | fd in kernel :: kernel[fd] == InterestOf(events[fd].mask))
  }

  ghost predicate Consistent(t: Table) {
    t.maxfd == Greatest(t.events) && Mirrors(t.kernel, t.events)
  }

  /** `Greatest` is what its name says. */
  lemma {:induction false} GreatestIsGreatest(events: seq<FileEvent>, g: int)
    requires -1 <= g < |events|
    ensures g == Greatest(events) <==>
      (g >= 0 ==> events[g].mask != NONE) && forall i | g < i < |events| :: events[i].mask == NONE
  {
    if events != [] {
      var n := |events| - 1;
      if g < n {
        GreatestIsGreatest(events[..n], g);
        assert forall i | 0 <= i < n :: events[..n][i] == events[i];
      }
    }
  }

  lemma CreateMaxfd(t: Table, fd: nat, fe: FileEvent)
    requires t.maxfd == Greatest(t.events) && fd < |t.events| && fe.mask != NONE
    ensures Greatest(t.events[fd := fe]) == if fd > t.maxfd then fd else t.maxfd
  {
    GreatestIsGreatest(t.events, t.maxfd);
    GreatestIsGreatest(t.events[fd := fe], if fd > t.maxfd then fd else t.maxfd);
  }

  /** From a consistent table the call fails exactly if the descriptor is out of
      range or the kernel refuses: ADD and MOD are always chosen right.  It keeps
      the table consistent exactly if the descriptor ends up with some mask. */
  lemma CreateKeeps(t: Table, fd: nat, mask: Mask, proc: int, data: int, refuses: bool)
    requires Consistent(t)
    ensures Create(t, fd, mask, proc, data, refuses).Some? <==> fd < |t.events| && !refuses
    ensures fd < |t.events| && !refuses ==>
      var t' := Create(t, fd, mask, proc, data, refuses).value;
      && (Consistent(t') <==> Plus(mask, MaskOf(t, fd)) != NONE)
      && MaskOf(t', fd) == Plus(mask, MaskOf(t, fd))
      && (forall other: nat | other != fd :: MaskOf(t', other) == MaskOf(t, other))
  {
    hide Has, Plus, Minus, InterestOf;
    if fd < |t.events| && !refuses {
      var t' := Create(t, fd, mask, proc, data, refuses).value;
      assert t'.events[fd].mask == Plus(mask, MaskOf(t, fd));
      if t'.events[fd].mask == NONE {
        assert fd in t'.kernel;
      } else {
        CreateMaxfd(t, fd, t'.events[fd]);
        assert Mirrors(t'.kernel, t'.events);
      }
    }
  }

  /** Registering adds bits and removing takes them away, each by itself. */
  lemma BitsOfMasks(mask: Mask, other: Mask, bit: Mask)
    requires bit == READABLE || bit == WRITABLE
    ensures Has(Plus(other, mask), bit) <==> Has(mask, bit) || Has(other, bit)
    ensures Has(Minus(mask, other), bit) <==> Has(mask, bit) && !Has(other, bit)
    ensures !Has(NONE, bit)
  {
  }

  /** What a registration stores: the callback under every direction it is for, the
      data, and nothing anywhere else. */
  lemma CreateStores(t: Table, fd: nat, mask: Mask, proc: int, data: int, refuses: bool)
    requires Create(t, fd, mask, proc, data, refuses).Some?
    ensures var t' := Create(t, fd, mask, proc, data, refuses).value;
      && fd < |t.events| == |t'.events|
      && (Has(mask, READABLE) ==> t'.events[fd].rfileProc == proc)
      && (!Has(mask, READABLE) ==> t'.events[fd].rfileProc == t.events[fd].rfileProc)
      && (Has(mask, WRITABLE) ==> t'.events[fd].wfileProc == proc)
      && (!Has(mask, WRITABLE) ==> t'.events[fd].wfileProc == t.events[fd].wfileProc)
      && t'.events[fd].clientData == data
      && forall i | 0 <= i < |t.events| && i != fd :: t'.events[i] == t.events[i]
  {
    hide Has, Plus, InterestOf;
  }

  /** A removal changes nothing but the mask of its descriptor. */
  lemma DeleteStores(t: Table, fd: nat, mask: Mask, refuses: bool)
    requires Formed(t)
    ensures var t' := Delete(t, fd, mask, refuses);
      && |t'.events| == |t.events|
      && (fd < |t.events| ==> t'.events[fd] == t.events[fd].(mask := t'.events[fd].mask))
      && forall i | 0 <= i < |t.events| && i != fd :: t'.events[i] == t.events[i]
  {
    hide Has, Minus, InterestOf;
  }

  /** The condition under which a removal is harmless: MOD and DEL are always
      chosen right, but a refusal is ignored. */
  predicate DeleteIsSafe(t: Table, fd: nat, mask: Mask, refuses: bool) {
    var left := Minus(MaskOf(t, fd), mask);
    MaskOf(t, fd) == NONE || !refuses || (left != NONE && InterestOf(left) == InterestOf(MaskOf(t, fd)))
  }

  lemma DeleteKeeps(t: Table, fd: nat, mask: Mask, refuses: bool)
    requires Formed(t) && Consistent(t)
    ensures var t' := Delete(t, fd, mask, refuses);
      && (Consistent(t') <==> DeleteIsSafe(t, fd, mask, refuses))
      && t'.maxfd == Greatest(t'.events)
      && MaskOf(t', fd) == Minus(MaskOf(t, fd), mask)
      && (forall other: nat | other != fd :: MaskOf(t', other) == MaskOf(t, other))
  {
    hide Has, Plus, Minus, InterestOf;
    var t' := Delete(t, fd, mask, refuses);
    if MaskOf(t, fd) == NONE {
    } else {
      var left := Minus(MaskOf(t, fd), mask);
      DeleteMaxfd(t, fd, mask, refuses);
      if refuses {
        assert t'.kernel == t.kernel && t.kernel[fd] == InterestOf(MaskOf(t, fd));
      }
      if DeleteIsSafe(t, fd, mask, refuses) {
        assert Mirrors(t'.kernel, t'.events);
      }
    }
  }

  lemma DeleteMaxfd(t: Table, fd: nat, mask: Mask, refuses: bool)
    requires Formed(t) && Consistent(t) && MaskOf(t, fd) != NONE
    ensures var t' := Delete(t, fd, mask, refuses); t'.maxfd == Greatest(t'.events)
  {
    hide Has, Plus, Minus, InterestOf;
    var t' := Delete(t, fd, mask, refuses);
    GreatestIsGreatest(t.events, t.maxfd);
    if fd == t.maxfd && Minus(MaskOf(t, fd), mask) == NONE {
      var below := t'.events[..t.maxfd];
      GreatestIsGreatest(below, Greatest(below));
      assert forall i | 0 <= i < t.maxfd :: below[i] == t'.events[i];
    }
    GreatestIsGreatest(t'.events, t'.maxfd);
  }

  lemma ResizedMasks(t: Table, setsize: int, junk: FileEvent, t': Table)
    requires Formed(t) && t.maxfd == Greatest(t.events) && t.maxfd < setsize
    requires Resize(t, setsize, junk) == Some(t')
    ensures t'.maxfd == Greatest(t'.events)
    ensures forall fd: nat :: MaskOf(t', fd) == MaskOf(t, fd)
    ensures forall fd: nat | MaskOf(t, fd) != NONE :: fd < |t'.events| && t'.events[fd] == t.events[fd]
  {
    GreatestIsGreatest(t.events, t.maxfd);
    if setsize != |t.events| {
      assert forall i | 0 <= i <= t.maxfd :: t'.events[i] == t.events[i];
      assert forall i | t.maxfd < i < setsize :: t'.events[i].mask == NONE;
      GreatestIsGreatest(t'.events, t'.maxfd);
    }
  }

  lemma MirrorsByMasks(kernel: Kernel, events: seq<FileEvent>, events': seq<FileEvent>)
    requires Mirrors(kernel, events)
    requires forall fd: nat | fd < |events| && events[fd].mask != NONE :: fd < |events'| && events'[fd] == events[fd]
    requires forall fd: nat | fd < |events'| && events'[fd].mask != NONE :: fd < |events| && events[fd].mask != NONE
    ensures Mirrors(kernel, events')
  {
  }

  /** A resize is refused exactly if a registered descriptor would not fit; else
      it loses no registration. */
  lemma ResizeKeeps(t: Table, setsize: int, junk: FileEvent)
    requires Formed(t) && Consistent(t)
    ensures Resize(t, setsize, junk).Some? <==> setsize >= 0 && forall fd: nat | MaskOf(t, fd) != NONE :: fd < setsize
    ensures Resize(t, setsize, junk).Some? ==>
      var t' := Resize(t, setsize, junk).value;
      && Formed(t') && Consistent(t') && |t'.events| == setsize
      && (forall fd: nat :: MaskOf(t', fd) == MaskOf(t, fd))
      && (forall fd: nat | MaskOf(t, fd) != NONE :: t'.events[fd] == t.events[fd])
  {
    GreatestIsGreatest(t.events, t.maxfd);
    assert t.maxfd >= 0 ==> MaskOf(t, t.maxfd) != NONE;
    if Resize(t, setsize, junk).Some? {
      var t' := Resize(t, setsize, junk).value;
      ResizedMasks(t, setsize, junk, t');
      assert forall fd: nat | fd < |t'.events| && t'.events[fd].mask != NONE :: MaskOf(t', fd) != NONE && MaskOf(t, fd) != NONE;
      MirrorsByMasks(t.kernel, t.events, t'.events);
    }
  }
}
