/** Whole runs of the file-event operations, and the loop that dispatches what
    epoll reported while callbacks change the table. */
module FileLaws {
  import opened Text
  import opened FileTable

  datatype FileOp =
    | CreateEvent(fd: nat, mask: Mask, proc: int, data: int, refuses: bool)
    | DeleteEvent(fd: nat, mask: Mask, refuses: bool)
    | ResizeSet(setsize: int, junk: FileEvent)

  type CallbackOp = op: FileOp | !op.ResizeSet? witness DeleteEvent(0, NONE, false)

  function Apply(t: Table, op: FileOp): (t': Table)
    requires Formed(t)
    ensures Formed(t')
    ensures !op.ResizeSet? ==> |t'.events| == |t.events|
  {
    match op
    case CreateEvent(fd, mask, proc, data, refuses) => Create(t, fd, mask, proc, data, refuses).UnwrapOr(t)
    case DeleteEvent(fd, mask, refuses) => Delete(t, fd, mask, refuses)
    case ResizeSet(setsize, junk) => Resize(t, setsize, junk).UnwrapOr(t)
  }

  /** Everything but registering a descriptor for nothing, and a refused removal
      of something epoll watches. */
  predicate Safe(t: Table, op: FileOp) {
    match op
    case CreateEvent(fd, mask, _, _, refuses) =>
      fd >= |t.events| || refuses || mask != NONE || MaskOf(t, fd) != NONE
    case DeleteEvent(fd, mask, refuses) => DeleteIsSafe(t, fd, mask, refuses)
    case ResizeSet(_, _) => true
  }

  lemma ApplyKeeps(t: Table, op: FileOp)
    requires Formed(t) && Consistent(t)
    ensures Consistent(Apply(t, op)) <==> Safe(t, op)
  {
    hide Consistent, Formed, Create, Delete, Resize;
    match op
    case CreateEvent(fd, mask, proc, data, refuses) => CreateKeeps(t, fd, mask, proc, data, refuses);
    case DeleteEvent(fd, mask, refuses) => DeleteKeeps(t, fd, mask, refuses);
    case ResizeSet(setsize, junk) => ResizeKeeps(t, setsize, junk);
  }

  function Run(t: Table, ops: seq<FileOp>): (t': Table)
    requires Formed(t)
    ensures Formed(t')
    ensures (forall i | 0 <= i < |ops| :: !ops[i].ResizeSet?) ==> |t'.events| == |t.events|
    decreases |ops|
  {
    if ops == [] then t else Run(Apply(t, ops[0]), ops[1..])
  }

  ghost predicate ConsistentThroughout(t: Table, ops: seq<FileOp>)
    requires Formed(t)
    decreases |ops|
  {
    Consistent(t) && (ops != [] ==> ConsistentThroughout(Apply(t, ops[0]), ops[1..]))
  }

  predicate SafeThroughout(t: Table, ops: seq<FileOp>)
    requires Formed(t)
    decreases |ops|
  {
    ops != [] ==> Safe(t, ops[0]) && SafeThroughout(Apply(t, ops[0]), ops[1..])
  }

  /** Over every run, refused calls included: epoll and `maxfd` follow the table at
      every point exactly if every operation is safe where it is made. */
  lemma {:induction false} RunKeeps(t: Table, ops: seq<FileOp>)
    requires Formed(t) && Consistent(t)
    ensures ConsistentThroughout(t, ops) <==> SafeThroughout(t, ops)
    ensures SafeThroughout(t, ops) ==> Consistent(Run(t, ops))
    decreases |ops|
  {
    hide Consistent, Formed, Apply, Safe;
    if ops != [] {
      ApplyKeeps(t, ops[0]);
      if Safe(t, ops[0]) {
        RunKeeps(Apply(t, ops[0]), ops[1..]);
      } else {
        NotConsistent(Apply(t, ops[0]), ops[1..]);
      }
    }
  }

  lemma NotConsistent(t: Table, ops: seq<FileOp>)
    requires Formed(t) && !Consistent(t)
    ensures !ConsistentThroughout(t, ops)
  {
  }

  /** The size of the table at each call of a run. */
  function Sizes(t: Table, ops: seq<FileOp>): (sizes: seq<nat>)
    requires Formed(t)
    ensures |sizes| == |ops|
    decreases |ops|
  {
    if ops == [] then [] else [|t.events|] + Sizes(Apply(t, ops[0]), ops[1..])
  }

  /** The mask of one descriptor after a run, from the calls about it and the size of
      the table alone. */
  function MaskAfter(mask: Mask, ops: seq<FileOp>, sizes: seq<nat>, fd: nat): Mask
    requires |sizes| == |ops|
    decreases |ops|
  {
    if ops == [] then mask
    else
      match ops[0]
      case CreateEvent(f, more, _, _, refuses) =>
        var taken := f == fd && fd < sizes[0] && !refuses;
        MaskAfter(if taken then Plus(more, mask) else mask, ops[1..], sizes[1..], fd)
      case DeleteEvent(f, less, _) =>
        MaskAfter(if f == fd then Minus(mask, less) else mask, ops[1..], sizes[1..], fd)
      case ResizeSet(_, _) =>
        MaskAfter(mask, ops[1..], sizes[1..], fd)
  }

  lemma MaskStep(t: Table, op: FileOp, fd: nat)
    requires Formed(t) && Consistent(t)
    ensures MaskOf(Apply(t, op), fd) ==
      match op
      case CreateEvent(f, more, _, _, refuses) =>
        if f == fd && fd < |t.events| && !refuses then Plus(more, MaskOf(t, fd)) else MaskOf(t, fd)
      case DeleteEvent(f, less, _) => if f == fd then Minus(MaskOf(t, fd), less) else MaskOf(t, fd)
      case ResizeSet(_, _) => MaskOf(t, fd)
  {
    hide Consistent, Create, Delete, Resize, Has, Plus, Minus, InterestOf, DeleteIsSafe;
    match op
    case CreateEvent(f, mask, proc, data, refuses) => CreateKeeps(t, f, mask, proc, data, refuses);
    case DeleteEvent(f, mask, refuses) => DeleteKeeps(t, f, mask, refuses);
    case ResizeSet(setsize, junk) => ResizeKeeps(t, setsize, junk);
  }

  lemma WatchedNow(t: Table, fd: nat)
    requires Consistent(t)
    ensures fd in t.kernel <==> MaskOf(t, fd) != NONE
    ensures fd in t.kernel ==> t.kernel[fd] == InterestOf(MaskOf(t, fd))
  {
  }

  /** Descriptors do not disturb one another: what epoll watches one for is what
      its own successful registrations, less its removals, add up to, whatever
      resizes there are. */
  lemma {:induction false} WatchedAfterRun(t: Table, ops: seq<FileOp>, fd: nat)
    requires Formed(t) && Consistent(t) && SafeThroughout(t, ops)
    ensures var t', mask := Run(t, ops), MaskAfter(MaskOf(t, fd), ops, Sizes(t, ops), fd);
      && MaskOf(t', fd) == mask && (fd in t'.kernel <==> mask != NONE)
      && (mask != NONE ==> t'.kernel[fd] == InterestOf(mask))
    decreases |ops|
  {
    hide Consistent, Formed, Apply, Safe, Plus, Minus, InterestOf, MaskOf;
    if ops == [] {
      WatchedNow(t, fd);
    } else {
      MaskStep(t, ops[0], fd);
      ApplyKeeps(t, ops[0]);
      WatchedAfterRun(Apply(t, ops[0]), ops[1..], fd);
      assert Sizes(t, ops)[1..] == Sizes(Apply(t, ops[0]), ops[1..]);
    }
  }

  /** A registration of the descriptor that succeeds. */
  predicate Registers(op: FileOp, size: nat, fd: nat) {
    op.CreateEvent? && op.fd == fd && fd < size && !op.refuses
  }

  /** Whether a bit is set after a run: by the last call about it. */
  function BitAfter(set_: bool, ops: seq<FileOp>, sizes: seq<nat>, fd: nat, bit: Mask): bool
    requires |sizes| == |ops|
    decreases |ops|
  {
    if ops == [] then set_
    else
      var now :=
        if Registers(ops[0], sizes[0], fd) && Has(ops[0].mask, bit) then true
        else if ops[0].DeleteEvent? && ops[0].fd == fd && Has(ops[0].mask, bit) then false
        else set_;
      BitAfter(now, ops[1..], sizes[1..], fd, bit)
  }

  lemma {:induction false} BitOfMaskAfter(mask: Mask, ops: seq<FileOp>, sizes: seq<nat>, fd: nat, bit: Mask)
    requires |sizes| == |ops| && (bit == READABLE || bit == WRITABLE)
    ensures Has(MaskAfter(mask, ops, sizes, fd), bit) <==> BitAfter(Has(mask, bit), ops, sizes, fd, bit)
    decreases |ops|
  {
    hide Has, Plus, Minus;
    if ops != [] {
      var next := mask;
      if !ops[0].ResizeSet? {
        BitsOfMasks(mask, ops[0].mask, bit);
        if ops[0].DeleteEvent? && ops[0].fd == fd {
          next := Minus(mask, ops[0].mask);
        } else if Registers(ops[0], sizes[0], fd) {
          next := Plus(ops[0].mask, mask);
        }
      }
      BitOfMaskAfter(next, ops[1..], sizes[1..], fd, bit);
    }
  }

  /** After every safe run epoll watches a descriptor for input, or output, exactly if
      the last of its calls about that bit was a successful registration. */
  lemma WatchedBitAfterRun(t: Table, ops: seq<FileOp>, fd: nat, bit: Mask)
    requires Formed(t) && Consistent(t) && SafeThroughout(t, ops) && (bit == READABLE || bit == WRITABLE)
    ensures Watches(WatchedFor(Run(t, ops), fd), bit)
      <==> BitAfter(Has(MaskOf(t, fd), bit), ops, Sizes(t, ops), fd, bit)
  {
    WatchedAfterRun(t, ops, fd);
    BitOfMaskAfter(MaskOf(t, fd), ops, Sizes(t, ops), fd, bit);
    BitsOfMasks(NONE, NONE, bit);
    hide Consistent, Run, MaskAfter, SafeThroughout, BitAfter;
  }

  /** The callback last registered for a bit of a descriptor. */
  function ProcAfter(proc: int, ops: seq<FileOp>, sizes: seq<nat>, fd: nat, bit: Mask): int
    requires |sizes| == |ops|
    decreases |ops|
  {
    if ops == [] then proc
    else
      var last := if Registers(ops[0], sizes[0], fd) && Has(ops[0].mask, bit) then ops[0].proc else proc;
      ProcAfter(last, ops[1..], sizes[1..], fd, bit)
  }

  /** The client data last registered for a descriptor. */
  function DataAfter(data: int, ops: seq<FileOp>, sizes: seq<nat>, fd: nat): int
    requires |sizes| == |ops|
    decreases |ops|
  {
    if ops == [] then data
    else
      var last := if Registers(ops[0], sizes[0], fd) then ops[0].data else data;
      DataAfter(last, ops[1..], sizes[1..], fd)
  }

  /** The table holds these for the descriptor, wherever its mask makes them count. */
  ghost predicate Stores(t: Table, fd: nat, rproc: int, wproc: int, data: int) {
    MaskOf(t, fd) != NONE ==>
      && fd < |t.events| && t.events[fd].clientData == data
      && (Has(t.events[fd].mask, READABLE) ==> t.events[fd].rfileProc == rproc)
      && (Has(t.events[fd].mask, WRITABLE) ==> t.events[fd].wfileProc == wproc)
  }

  lemma StoresStep(t: Table, op: FileOp, fd: nat, rproc: int, wproc: int, data: int)
    requires Formed(t) && Consistent(t) && Stores(t, fd, rproc, wproc, data)
    ensures var taken := Registers(op, |t.events|, fd);
      Stores(Apply(t, op), fd,
        if taken && Has(op.mask, READABLE) then op.proc else rproc,
        if taken && Has(op.mask, WRITABLE) then op.proc else wproc,
        if taken then op.data else data)
  {
    hide Consistent, Create, Delete, Resize, Has, Plus, Minus, InterestOf, DeleteIsSafe;
    match op
    case CreateEvent(f, mask, proc, more, refuses) =>
      CreateKeeps(t, f, mask, proc, more, refuses);
      if f < |t.events| && !refuses {
        CreateStores(t, f, mask, proc, more, refuses);
        BitsOfMasks(MaskOf(t, f), mask, READABLE);
        BitsOfMasks(MaskOf(t, f), mask, WRITABLE);
      }
    case DeleteEvent(f, mask, refuses) =>
      DeleteKeeps(t, f, mask, refuses);
      DeleteStores(t, f, mask, refuses);
      BitsOfMasks(MaskOf(t, f), mask, READABLE);
      BitsOfMasks(MaskOf(t, f), mask, WRITABLE);
    case ResizeSet(setsize, junk) =>
      ResizeKeeps(t, setsize, junk);
  }

  /** After every safe run, resizes and removals included, a descriptor with a mask has
      the client data of its last successful registration, and for each bit of the mask
      the callback of its last successful registration for that bit. */
  lemma {:induction false} StoredAfterRun(t: Table, ops: seq<FileOp>, fd: nat, rproc: int, wproc: int, data: int)
    requires Formed(t) && Consistent(t) && SafeThroughout(t, ops) && Stores(t, fd, rproc, wproc, data)
    ensures var sizes := Sizes(t, ops);
      Stores(Run(t, ops), fd, ProcAfter(rproc, ops, sizes, fd, READABLE), ProcAfter(wproc, ops, sizes, fd, WRITABLE),
             DataAfter(data, ops, sizes, fd))
    decreases |ops|
  {
    hide Consistent, Formed, Apply, Safe, Stores, Has;
    if ops != [] {
      var op := ops[0];
      var taken := Registers(op, |t.events|, fd);
      StoresStep(t, op, fd, rproc, wproc, data);
      ApplyKeeps(t, op);
      assert Sizes(t, ops)[1..] == Sizes(Apply(t, op), ops[1..]);
      StoredAfterRun(Apply(t, op), ops[1..], fd,
                     if taken && Has(op.mask, READABLE) then op.proc else rproc,
                     if taken && Has(op.mask, WRITABLE) then op.proc else wproc,
                     if taken then op.data else data);
    }
  }

  // ----- dispatching -----

  /** What epoll_wait reports of a descriptor, and the mask aeApiPoll makes of it. */
  datatype Ready = Ready(input: bool, output: bool, error: bool, hangup: bool)

  function ReadyMask(r: Ready): (mask: Mask)
    ensures Has(mask, READABLE) <==> r.input
    ensures Has(mask, WRITABLE) <==> r.output || r.error || r.hangup
    ensures mask == NONE || mask == READABLE || mask == WRITABLE || mask == READABLE | WRITABLE
  {
    (if r.input then READABLE else NONE) | (if r.output || r.error || r.hangup then WRITABLE else NONE)
  }

  datatype Fired = Fired(fd: nat, mask: Mask)

  /** A call of a callback: the report and the bit of it that is served, the
      callback, and what epoll watched the descriptor for just then. */
  datatype FileCall = FileCall(fired: Fired, bit: Mask, proc: int, data: int, watched: Option<Interest>)

  function Shared(mask: Mask, ready: Mask, bit: Mask): bool {
    mask & ready & bit != 0
  }

  /** What the n-th callback does to the table; it must not resize the array that
      the loop points into. */
  type Callbacks = nat -> seq<CallbackOp>

  datatype Dispatch = Dispatch(table: Table, log: seq<FileCall>)

  function WatchedFor(t: Table, fd: nat): Option<Interest> {
    if fd in t.kernel then Some(t.kernel[fd]) else Option.None
  }

  function Invoke(w: Callbacks, d: Dispatch, f: Fired, bit: Mask, proc: int, data: int): (d': Dispatch)
    requires Formed(d.table)
    ensures Formed(d'.table) && |d'.table.events| == |d.table.events|
  {
    Dispatch(Run(d.table, w(|d.log|)), d.log + [FileCall(f, bit, proc, data, WatchedFor(d.table, f.fd))])
  }

  function FireRead(w: Callbacks, d: Dispatch, f: Fired): (d': Dispatch)
    requires Formed(d.table) && f.fd < |d.table.events|
    ensures Formed(d'.table) && |d'.table.events| == |d.table.events|
  {
    var fe := d.table.events[f.fd];
    if Shared(fe.mask, f.mask, READABLE) then Invoke(w, d, f, READABLE, fe.rfileProc, fe.clientData) else d
  }

  /** The writable half looks at the table again, and skips a callback that the
      readable half has just called. */
  function FireWrite(w: Callbacks, d: Dispatch, f: Fired, rfired: bool): (d': Dispatch)
    requires Formed(d.table) && f.fd < |d.table.events|
    ensures Formed(d'.table) && |d'.table.events| == |d.table.events|
  {
    var fe := d.table.events[f.fd];
    if Shared(fe.mask, f.mask, WRITABLE) && (!rfired || fe.wfileProc != fe.rfileProc) then
      Invoke(w, d, f, WRITABLE, fe.wfileProc, fe.clientData)
    else d
  }

  function Fire(w: Callbacks, d: Dispatch, f: Fired): (d': Dispatch)
    requires Formed(d.table) && f.fd < |d.table.events|
    ensures Formed(d'.table) && |d'.table.events| == |d.table.events|
  {
    FireWrite(w, FireRead(w, d, f), f, Shared(d.table.events[f.fd].mask, f.mask, READABLE))
  }

  function FireAll(w: Callbacks, d: Dispatch, fired: seq<Fired>): (d': Dispatch)
    requires Formed(d.table)
    requires forall i | 0 <= i < |fired| :: fired[i].fd < |d.table.events|
    ensures Formed(d'.table) && |d'.table.events| == |d.table.events|
  {
    if fired == [] then d
    else Fire(w, FireAll(w, d, fired[..|fired| - 1]), fired[|fired| - 1])
  }

  predicate Watches(watched: Option<Interest>, bit: Mask) {
    watched.Some? && ((bit == READABLE && watched.value.input) || (bit == WRITABLE && watched.value.output))
  }

  /** The call serves a bit that was reported and is still being watched. */
  predicate Current(c: FileCall) {
    Has(c.fired.mask, c.bit) && Watches(c.watched, c.bit)
  }

  ghost predicate DispatchSound(d: Dispatch) {
    Formed(d.table) && Consistent(d.table) && forall i | 0 <= i < |d.log| :: Current(d.log[i])
  }

  /** The callbacks of this report do nothing unsafe where they run. */
  predicate FiresSafely(w: Callbacks, d: Dispatch, f: Fired)
    requires Formed(d.table) && f.fd < |d.table.events|
  {
    && (Shared(d.table.events[f.fd].mask, f.mask, READABLE) ==> SafeThroughout(d.table, w(|d.log|)))
    && var d1 := FireRead(w, d, f);
       var fe, fe1 := d.table.events[f.fd], d1.table.events[f.fd];
       var again := Shared(fe.mask, f.mask, READABLE) && fe1.wfileProc == fe1.rfileProc;
       Shared(fe1.mask, f.mask, WRITABLE) && !again ==> SafeThroughout(d1.table, w(|d1.log|))
  }

  predicate AllSafe(w: Callbacks, d: Dispatch, fired: seq<Fired>)
    requires Formed(d.table)
    requires forall i | 0 <= i < |fired| :: fired[i].fd < |d.table.events|
  {
    fired != [] ==>
      var front := fired[..|fired| - 1];
      AllSafe(w, d, front) && FiresSafely(w, FireAll(w, d, front), fired[|fired| - 1])
  }

  lemma SharedIsBoth(mask: Mask, ready: Mask, bit: Mask)
    requires bit == READABLE || bit == WRITABLE
    ensures Shared(mask, ready, bit) <==> Has(mask, bit) && Has(ready, bit)
  {
  }

  lemma InvokeSound(w: Callbacks, d: Dispatch, f: Fired, bit: Mask, proc: int, data: int)
    requires DispatchSound(d) && f.fd < |d.table.events| && SafeThroughout(d.table, w(|d.log|))
    requires bit == READABLE || bit == WRITABLE
    requires Shared(d.table.events[f.fd].mask, f.mask, bit)
    ensures DispatchSound(Invoke(w, d, f, bit, proc, data))
  {
    SharedIsBoth(d.table.events[f.fd].mask, f.mask, bit);
    RunKeeps(d.table, w(|d.log|));
  }

  lemma FireSound(w: Callbacks, d: Dispatch, f: Fired)
    requires DispatchSound(d) && f.fd < |d.table.events| && FiresSafely(w, d, f)
    ensures DispatchSound(FireRead(w, d, f)) && DispatchSound(Fire(w, d, f))
  {
    hide Has, Shared, Invoke, Current, Consistent, SafeThroughout;
    var fe := d.table.events[f.fd];
    if Shared(fe.mask, f.mask, READABLE) {
      InvokeSound(w, d, f, READABLE, fe.rfileProc, fe.clientData);
    }
    var d1 := FireRead(w, d, f);
    var fe1 := d1.table.events[f.fd];
    if Shared(fe1.mask, f.mask, WRITABLE)
      && (!Shared(fe.mask, f.mask, READABLE) || fe1.wfileProc != fe1.rfileProc)
    {
      InvokeSound(w, d1, f, WRITABLE, fe1.wfileProc, fe1.clientData);
    }
  }

  /** In every batch, whatever its callbacks register and remove, as long as they do
      nothing unsafe: a callback is called only for a bit that was reported and that
      epoll is then watching its descriptor for, so never for a registration removed
      earlier in the batch. */
  lemma {:induction false} OnlyCurrentEvents(w: Callbacks, d: Dispatch, fired: seq<Fired>)
    requires DispatchSound(d)
    requires forall i | 0 <= i < |fired| :: fired[i].fd < |d.table.events|
    requires AllSafe(w, d, fired)
    ensures DispatchSound(FireAll(w, d, fired))
  {
    hide Consistent, Current, FiresSafely, Fire;
    if fired != [] {
      OnlyCurrentEvents(w, d, fired[..|fired| - 1]);
      FireSound(w, FireAll(w, d, fired[..|fired| - 1]), fired[|fired| - 1]);
    }
  }

  /** Where a report is reached, exactly the bits epoll is then watching for are
      served: the readable one first; the writable one after a new look, unless the
      same callback has just been called for the readable one.  Every call is of the
      callback and with the client data the table holds when it is made. */
  lemma ServedWhenReached(w: Callbacks, d: Dispatch, f: Fired)
    requires DispatchSound(d) && f.fd < |d.table.events| && FiresSafely(w, d, f)
    ensures var d1, d2 := FireRead(w, d, f), Fire(w, d, f);
      var fe, fe1 := d.table.events[f.fd], d1.table.events[f.fd];
      var watched, watched1 := WatchedFor(d.table, f.fd), WatchedFor(d1.table, f.fd);
      var reading := Has(f.mask, READABLE) && Watches(watched, READABLE);
      var writing := Has(f.mask, WRITABLE) && Watches(watched1, WRITABLE) && !(reading && fe1.wfileProc == fe1.rfileProc);
      && d1.log == d.log + (if reading then [FileCall(f, READABLE, fe.rfileProc, fe.clientData, watched)] else [])
      && d2.log == d1.log + (if writing then [FileCall(f, WRITABLE, fe1.wfileProc, fe1.clientData, watched1)] else [])
      && d1.table == (if reading then Run(d.table, w(|d.log|)) else d.table)
      && d2.table == (if writing then Run(d1.table, w(|d1.log|)) else d1.table)
  {
    var fe, d1 := d.table.events[f.fd], FireRead(w, d, f);
    var fe1 := d1.table.events[f.fd];
    FireSound(w, d, f);
    SharedIsBoth(fe.mask, f.mask, READABLE);
    SharedIsBoth(fe1.mask, f.mask, WRITABLE);
    WatchedIsMask(d.table, f.fd);
    WatchedIsMask(d1.table, f.fd);
    hide Has, Shared, DispatchSound, Consistent, Watches, FiresSafely, WatchedFor, Run;
  }

  /** The calls about a report, of the callbacks and with the data that the runs so far
      registered last: here for the readable half, and for the writable half alike. */
  lemma CallsWhatWasRegistered(t: Table, ops: seq<FileOp>, fd: nat, rproc: int, wproc: int, data: int)
    requires Formed(t) && Consistent(t) && SafeThroughout(t, ops) && Stores(t, fd, rproc, wproc, data)
    requires fd < |Run(t, ops).events|
    ensures var t', sizes := Run(t, ops), Sizes(t, ops);
      && (Watches(WatchedFor(t', fd), READABLE) ==>
            t'.events[fd].rfileProc == ProcAfter(rproc, ops, sizes, fd, READABLE)
            && t'.events[fd].clientData == DataAfter(data, ops, sizes, fd))
      && (Watches(WatchedFor(t', fd), WRITABLE) ==>
            t'.events[fd].wfileProc == ProcAfter(wproc, ops, sizes, fd, WRITABLE)
            && t'.events[fd].clientData == DataAfter(data, ops, sizes, fd))
  {
    StoredAfterRun(t, ops, fd, rproc, wproc, data);
    RunKeeps(t, ops);
    WatchedIsMask(Run(t, ops), fd);
    BitsOfMasks(NONE, NONE, READABLE);
    BitsOfMasks(NONE, NONE, WRITABLE);
    hide Has, Watches, WatchedFor, Run, Consistent, ProcAfter, DataAfter, SafeThroughout;
  }

  lemma WatchedIsMask(t: Table, fd: nat)
    requires Consistent(t) && fd < |t.events|
    ensures Watches(WatchedFor(t, fd), READABLE) <==> Has(t.events[fd].mask, READABLE)
    ensures Watches(WatchedFor(t, fd), WRITABLE) <==> Has(t.events[fd].mask, WRITABLE)
  {
  }

  /** What the callbacks from number `first` on and before number `end` do to the
      table, one after the other. */
  function Scripts(w: Callbacks, first: nat, end: nat): seq<CallbackOp> {
    if end <= first then [] else Scripts(w, first, end - 1) + w(end - 1)
  }

  lemma {:induction false} RunAppend(t: Table, a: seq<FileOp>, b: seq<FileOp>)
    requires Formed(t)
    ensures Run(t, a + b) == Run(Run(t, a), b)
    decreases |a|
  {
    hide Apply;
    if a == [] {
      assert a + b == b;
    } else {
      assert (a + b)[0] == a[0] && (a + b)[1..] == a[1..] + b;
      RunAppend(Apply(t, a[0]), a[1..], b);
    }
  }

  /** A batch runs exactly the scripts of the callbacks it calls, in the order of the
      calls, and changes the table in no other way.  So what is said of runs holds
      of the table whenever a report is reached. */
  lemma {:induction false} TableAfterBatch(w: Callbacks, d: Dispatch, fired: seq<Fired>)
    requires Formed(d.table)
    requires forall i | 0 <= i < |fired| :: fired[i].fd < |d.table.events|
    ensures var d' := FireAll(w, d, fired);
      d.log <= d'.log && d'.table == Run(d.table, Scripts(w, |d.log|, |d'.log|))
  {
    hide Run, Shared, WatchedFor, FireRead, FireWrite;
    if fired == [] {
      EmptyRun(d.table);
    } else {
      var d0, f := FireAll(w, d, fired[..|fired| - 1]), fired[|fired| - 1];
      TableAfterBatch(w, d, fired[..|fired| - 1]);
      var d1 := FireRead(w, d0, f);
      ReadTable(w, d0, f);
      ScriptStep(w, d.table, |d.log|, d0, d1);
      WriteTable(w, d1, f, Shared(d0.table.events[f.fd].mask, f.mask, READABLE));
      ScriptStep(w, d.table, |d.log|, d1, Fire(w, d0, f));
    }
  }

  lemma EmptyRun(t: Table)
    requires Formed(t)
    ensures Run(t, []) == t
  {
  }

  /** At most one call, and its script. */
  ghost predicate OneCall(w: Callbacks, d: Dispatch, d': Dispatch)
    requires Formed(d.table)
  {
    d' == d || (d.log <= d'.log && |d'.log| == |d.log| + 1 && d'.table == Run(d.table, w(|d.log|)))
  }

  lemma ReadTable(w: Callbacks, d: Dispatch, f: Fired)
    requires Formed(d.table) && f.fd < |d.table.events|
    ensures OneCall(w, d, FireRead(w, d, f))
  {
    hide Shared, Run;
  }

  lemma WriteTable(w: Callbacks, d: Dispatch, f: Fired, rfired: bool)
    requires Formed(d.table) && f.fd < |d.table.events|
    ensures OneCall(w, d, FireWrite(w, d, f, rfired))
  {
    hide Shared, Run;
  }

  lemma ScriptStep(w: Callbacks, t: Table, from: nat, d: Dispatch, d': Dispatch)
    requires Formed(t) && Formed(d.table) && from <= |d.log| && OneCall(w, d, d')
    requires d.table == Run(t, Scripts(w, from, |d.log|))
    ensures from <= |d'.log| && d.log <= d'.log && d'.table == Run(t, Scripts(w, from, |d'.log|))
  {
    hide Run;
    RunAppend(t, Scripts(w, from, |d.log|), w(|d.log|));
  }

  /** The log from some point on contains a call. */
  ghost predicate Called(log: seq<FileCall>, from: nat, c: FileCall) {
    exists i | from <= i < |log| :: log[i] == c
  }

  lemma CalledLater(log: seq<FileCall>, more: seq<FileCall>, from: nat, c: FileCall)
    requires Called(log, from, c) && log <= more
    ensures Called(more, from, c)
  {
    var i :| from <= i < |log| && log[i] == c;
    assert more[i] == c;
  }

  lemma CalledNow(log: seq<FileCall>, c: FileCall, more: seq<FileCall>, from: nat)
    requires from <= |log|
    ensures Called(log + [c] + more, from, c)
  {
    assert (log + [c] + more)[|log|] == c;
  }

  lemma FireLogGrows(w: Callbacks, d: Dispatch, f: Fired)
    requires Formed(d.table) && f.fd < |d.table.events|
    ensures d.log <= FireRead(w, d, f).log <= Fire(w, d, f).log
  {
    hide Shared, Run, WatchedFor;
  }

  /** So no report is passed over: one that epoll is watching for when it is reached
      has been served once the batch is done. */
  lemma {:induction false} WantedIsServed(w: Callbacks, d: Dispatch, fired: seq<Fired>, k: nat)
    requires DispatchSound(d) && k < |fired|
    requires forall i | 0 <= i < |fired| :: fired[i].fd < |d.table.events|
    requires AllSafe(w, d, fired)
    ensures var d0, f := FireAll(w, d, fired[..k]), fired[k];
      var d1 := FireRead(w, d0, f);
      var fe, fe1 := d0.table.events[f.fd], d1.table.events[f.fd];
      var watched, watched1 := WatchedFor(d0.table, f.fd), WatchedFor(d1.table, f.fd);
      var reading := Has(f.mask, READABLE) && Watches(watched, READABLE);
      var writing := Has(f.mask, WRITABLE) && Watches(watched1, WRITABLE) && !(reading && fe1.wfileProc == fe1.rfileProc);
      var log := FireAll(w, d, fired).log;
      && d0.log <= log
      && (reading ==> Called(log, |d0.log|, FileCall(f, READABLE, fe.rfileProc, fe.clientData, watched)))
      && (writing ==> Called(log, |d0.log|, FileCall(f, WRITABLE, fe1.wfileProc, fe1.clientData, watched1)))
    decreases |fired|
  {
    hide Watches, Has, FireRead, Fire, WatchedFor, FiresSafely, DispatchSound, Called;
    var n := |fired| - 1;
    var front := fired[..n];
    DispatchFormed(d);
    OnlyCurrentEvents(w, d, front);
    var d0 := FireAll(w, d, front);
    FireLogGrows(w, d0, fired[n]);
    if k < n {
      WantedIsServed(w, d, front, k);
      assert front[..k] == fired[..k] && front[k] == fired[k];
      LaterCalls(d0.log, FireAll(w, d, fired).log, |FireAll(w, d, fired[..k]).log|);
    } else {
      ServedNow(w, d0, fired[n]);
    }
  }

  lemma LaterCalls(log: seq<FileCall>, more: seq<FileCall>, from: nat)
    requires log <= more
    ensures forall c :: Called(log, from, c) ==> Called(more, from, c)
  {
    forall c | Called(log, from, c) ensures Called(more, from, c) {
      CalledLater(log, more, from, c);
    }
  }

  lemma ServedNow(w: Callbacks, d: Dispatch, f: Fired)
    requires DispatchSound(d) && f.fd < |d.table.events| && FiresSafely(w, d, f)
    ensures var d1, log := FireRead(w, d, f), Fire(w, d, f).log;
      var fe, fe1 := d.table.events[f.fd], d1.table.events[f.fd];
      var watched, watched1 := WatchedFor(d.table, f.fd), WatchedFor(d1.table, f.fd);
      var reading := Has(f.mask, READABLE) && Watches(watched, READABLE);
      var writing := Has(f.mask, WRITABLE) && Watches(watched1, WRITABLE) && !(reading && fe1.wfileProc == fe1.rfileProc);
      && (reading ==> Called(log, |d.log|, FileCall(f, READABLE, fe.rfileProc, fe.clientData, watched)))
      && (writing ==> Called(log, |d.log|, FileCall(f, WRITABLE, fe1.wfileProc, fe1.clientData, watched1)))
  {
    ServedWhenReached(w, d, f);
    hide DispatchSound, FiresSafely, Watches, Has, FireRead, Fire, WatchedFor, Called, Run;
    var d1, d2 := FireRead(w, d, f), Fire(w, d, f);
    if |d1.log| > |d.log| {
      CalledNow(d.log, d1.log[|d.log|], [], |d.log|);
      assert d.log + [d1.log[|d.log|]] + [] == d1.log;
      CalledLater(d1.log, d2.log, |d.log|, d1.log[|d.log|]);
    }
    if |d2.log| > |d1.log| {
      CalledNow(d1.log, d2.log[|d1.log|], [], |d.log|);
      assert d1.log + [d2.log[|d1.log|]] + [] == d2.log;
    }
  }

  lemma DispatchFormed(d: Dispatch)
    requires DispatchSound(d)
    ensures Formed(d.table)
  {
  }

  /** A report calls nothing exactly if it and the mask share neither bit.  So an
      error or a hang-up alone, which counts as writable, is never delivered to a
      descriptor registered for reading only. */
  lemma Undelivered(w: Callbacks, d: Dispatch, fd: nat, r: Ready)
    requires Formed(d.table) && fd < |d.table.events|
    ensures var mask := d.table.events[fd].mask;
      Fire(w, d, Fired(fd, ReadyMask(r))).log == d.log <==>
        !(Has(mask, READABLE) && r.input) && !(Has(mask, WRITABLE) && (r.output || r.error || r.hangup))
  {
    var mask, ready := d.table.events[fd].mask, ReadyMask(r);
    SharedIsBoth(mask, ready, READABLE);
    SharedIsBoth(mask, ready, WRITABLE);
    assert |Fire(w, d, Fired(fd, ready)).log| == |d.log| <==> Fire(w, d, Fired(fd, ready)).log == d.log;
  }
}
