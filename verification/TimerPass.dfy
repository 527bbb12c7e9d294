/** The timer list of ae.c as a sequence, and one pass of processTimeEvents over
    it, with callbacks that may create and delete timers while it runs. */
module TimerPass {
  import opened Clock

  /** A timer; `key` is the id it was created with, `id` becomes -1 when it is
      marked for deletion. */
  datatype Timer = Timer(key: nat, id: int, when: Time, finalizer: bool)

  function Deadlines(timers: seq<Timer>): (whens: seq<Time>)
    ensures |whens| == |timers| && forall i | 0 <= i < |whens| :: whens[i] == timers[i].when
  {
    seq(|timers|, i requires 0 <= i < |timers| => timers[i].when)
  }

  const DELETED := -1
  const NOMORE := -1

  datatype TimerOp = Create(milliseconds: int, finalizer: bool) | Delete(id: int)

  /** What a callback does to the loop, and the value it returns. */
  datatype Script = Script(ops: seq<TimerOp>, ret: int)

  /** The n-th reading of the clock and the n-th callback, both arbitrary. */
  datatype World = World(clock: nat -> Time, script: nat -> Script)

  /** Newest timer first. */
  datatype Loop = Loop(timers: seq<Timer>, nextId: nat, ticks: nat, calls: nat)

  /** aeCreateTimeEvent. */
  function CreateTimer(w: World, l: Loop, milliseconds: int, finalizer: bool): Loop {
    var t := Timer(l.nextId, l.nextId, AddMilliseconds(w.clock(l.ticks), milliseconds), finalizer);
    l.(timers := [t] + l.timers, nextId := l.nextId + 1, ticks := l.ticks + 1)
  }

  /** aeDeleteTimeEvent: the first timer with this id is marked. */
  function Mark(timers: seq<Timer>, id: int): (r: seq<Timer>)
    ensures |r| == |timers|
  {
    if timers == [] then []
    else if timers[0].id == id then [timers[0].(id := DELETED)] + timers[1..]
    else [timers[0]] + Mark(timers[1..], id)
  }

  function ApplyOp(w: World, l: Loop, op: TimerOp): Loop {
    match op
    case Create(milliseconds, finalizer) => CreateTimer(w, l, milliseconds, finalizer)
    case Delete(id) => l.(timers := Mark(l.timers, id))
  }

  function ApplyOps(w: World, l: Loop, ops: seq<TimerOp>): (l': Loop)
    ensures l'.nextId >= l.nextId && |l'.timers| == |l.timers| + (l'.nextId - l.nextId)
    ensures l'.calls == l.calls
    decreases |ops|
  {
    if ops == [] then l else ApplyOps(w, ApplyOp(w, l, ops[0]), ops[1..])
  }

  /** The next callback runs. */
  function Call(w: World, l: Loop): (l': Loop)
    ensures l'.nextId >= l.nextId && |l'.timers| == |l.timers| + (l'.nextId - l.nextId)
  {
    ApplyOps(w, l, w.script(l.calls).ops).(calls := l.calls + 1)
  }

  datatype Outcome = Removed | Waiting | Fired(ret: int)

  /** Where the counters of the loop stand. */
  datatype Counters = Counters(calls: nat, ticks: nat, nextId: nat)

  function CountersOf(l: Loop): Counters {
    Counters(l.calls, l.ticks, l.nextId)
  }

  /** One timer reached by the pass: its key and deadline, where the counters
      stood, and what became of it. */
  datatype Visit = Visit(key: nat, when: Time, at: Counters, outcome: Outcome)

  /** A pass in progress: the first `added` timers were prepended by it, those
      from there up to `at` were kept by it, and the timer at `at` is next. */
  datatype Pass = Pass(loop: Loop, added: nat, at: nat, trace: seq<Visit>)

  predicate InRange(s: Pass) {
    s.added <= s.at <= |s.loop.timers|
  }

  /** A timer marked for deletion is unlinked.  As long as the pass has kept none,
      the head of the list becomes its successor, whatever was prepended. */
  function Unlink(s: Pass): Pass
    requires InRange(s) && s.at < |s.loop.timers|
  {
    var timers := s.loop.timers;
    if s.added == s.at then
      s.(loop := s.loop.(timers := timers[s.at + 1..]), added := 0, at := 0)
    else
      s.(loop := s.loop.(timers := timers[..s.at] + timers[s.at + 1..]))
  }

  /** The next callback runs in the middle of the pass: what it creates is
      prepended, and everything else moves back. */
  function Called(w: World, s: Pass): (s': Pass)
    requires InRange(s)
    ensures InRange(s') && |s'.loop.timers| - s'.at == |s.loop.timers| - s.at && s'.at >= s.at
  {
    var l := Call(w, s.loop);
    var created := l.nextId - s.loop.nextId;
    Pass(l, s.added + created, s.at + created, s.trace)
  }

  /** The visit of the timer at `at`, were it to end in this outcome. */
  function VisitNow(s: Pass, outcome: Outcome): Visit
    requires InRange(s) && s.at < |s.loop.timers|
  {
    var t := s.loop.timers[s.at];
    Visit(t.key, t.when, CountersOf(s.loop), outcome)
  }

  function Step(w: World, s: Pass): (s': Pass)
    requires InRange(s) && s.at < |s.loop.timers|
    ensures InRange(s') && |s'.loop.timers| - s'.at == |s.loop.timers| - s.at - 1
    ensures |s'.trace| == |s.trace| + 1
  {
    var t := s.loop.timers[s.at];
    if t.id == DELETED then
      var s1 := if t.finalizer then Called(w, Unlink(s)) else Unlink(s);
      s1.(trace := s.trace + [VisitNow(s, Removed)])
    else if !Due(w.clock(s.loop.ticks), t.when) then
      Pass(s.loop.(ticks := s.loop.ticks + 1), s.added, s.at + 1, s.trace + [VisitNow(s, Waiting)])
    else
      var ret, s1 := w.script(s.loop.calls).ret, Called(w, s.(loop := s.loop.(ticks := s.loop.ticks + 1)));
      Pass(Rearm(w, s1.loop, s1.at, ret), s1.added, s1.at + 1, s.trace + [VisitNow(s, Fired(ret))])
  }

  /** After its callback a timer gets a new deadline, or is marked. */
  function Rearm(w: World, l: Loop, at: nat, ret: int): (l': Loop)
    requires at < |l.timers|
    ensures |l'.timers| == |l.timers| && l'.nextId == l.nextId
  {
    var t := l.timers[at];
    if ret != NOMORE then
      l.(timers := l.timers[at := t.(when := AddMilliseconds(w.clock(l.ticks), ret))], ticks := l.ticks + 1)
    else
      l.(timers := l.timers[at := t.(id := DELETED)])
  }

  function Finish(w: World, s: Pass): (s': Pass)
    requires InRange(s)
    ensures InRange(s') && s'.at == |s'.loop.timers|
    decreases |s.loop.timers| - s.at
  {
    if s.at == |s.loop.timers| then s else Finish(w, Step(w, s))
  }

  /** A clock that has gone back makes every timer due. */
  function ForceAll(timers: seq<Timer>): (r: seq<Timer>)
    ensures |r| == |timers|
    ensures forall i | 0 <= i < |r| :: r[i] == timers[i].(when := Time(0, timers[i].when.ms))
  {
    if timers == [] then []
    else [timers[0].(when := Time(0, timers[0].when.ms))] + ForceAll(timers[1..])
  }

  /** Where a pass begins; `back` if the clock has gone back since the last one. */
  function Forced(l: Loop, back: bool): Loop {
    if back then l.(timers := ForceAll(l.timers)) else l
  }

  function Begin(l: Loop): Pass {
    Pass(l, 0, 0, [])
  }
}
