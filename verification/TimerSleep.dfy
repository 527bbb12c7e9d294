/** How long the event loop sleeps, over whole runs of timers. */
module TimerSleep {
  import opened Clock
  import opened TimerPass
  import opened TimerLaws

  /** The clock shows normal times, counted from the epoch, and does not go back. */
  ghost predicate Steady(w: World) {
    && (forall n: nat :: Normal(w.clock(n)) && w.clock(n).sec >= 0)
    && (forall n: nat, m: nat | n <= m :: w.clock(n).sec <= w.clock(m).sec)
  }

  ghost predicate AllSettled(w: World, timers: seq<Timer>, tick: nat) {
    forall i | 0 <= i < |timers| :: Settled(timers[i].when, w.clock(tick))
  }

  lemma SettledLater(w: World, timers: seq<Timer>, tick: nat, tick': nat)
    requires Steady(w) && AllSettled(w, timers, tick) && tick <= tick'
    ensures AllSettled(w, timers, tick')
  {
    assert w.clock(tick).sec <= w.clock(tick').sec;
  }

  lemma NewIsSettled(w: World, tick: nat, milliseconds: int)
    requires Steady(w)
    ensures Settled(AddMilliseconds(w.clock(tick), milliseconds), w.clock(tick + 1))
  {
    AddMillisecondsExact(w.clock(tick), milliseconds, w.clock(tick + 1));
  }

  lemma {:induction false} MarkSettled(w: World, timers: seq<Timer>, id: int, tick: nat)
    requires AllSettled(w, timers, tick)
    ensures AllSettled(w, Mark(timers, id), tick)
  {
    if timers != [] && timers[0].id != id {
      MarkSettled(w, timers[1..], id, tick);
    }
  }

  lemma OpSettled(w: World, l: Loop, op: TimerOp)
    requires Steady(w) && AllSettled(w, l.timers, l.ticks)
    ensures var l' := ApplyOp(w, l, op); AllSettled(w, l'.timers, l'.ticks)
  {
    hide Steady, Settled, AddMilliseconds, Mark;
    match op
    case Create(milliseconds, _) =>
      NewIsSettled(w, l.ticks, milliseconds);
      SettledLater(w, l.timers, l.ticks, l.ticks + 1);
    case Delete(id) =>
      MarkSettled(w, l.timers, id, l.ticks);
  }

  lemma {:induction false} OpsSettled(w: World, l: Loop, ops: seq<TimerOp>)
    requires Steady(w) && AllSettled(w, l.timers, l.ticks)
    ensures var l' := ApplyOps(w, l, ops); AllSettled(w, l'.timers, l'.ticks)
    decreases |ops|
  {
    hide Steady, AllSettled, ApplyOp;
    if ops != [] {
      OpSettled(w, l, ops[0]);
      OpsSettled(w, ApplyOp(w, l, ops[0]), ops[1..]);
    }
  }

  lemma CallSettled(w: World, l: Loop)
    requires Steady(w) && AllSettled(w, l.timers, l.ticks)
    ensures var l' := Call(w, l); AllSettled(w, l'.timers, l'.ticks)
  {
    OpsSettled(w, l, w.script(l.calls).ops);
  }

  lemma RearmSettled(w: World, l: Loop, at: nat, ret: int)
    requires Steady(w) && AllSettled(w, l.timers, l.ticks) && at < |l.timers|
    ensures var l' := Rearm(w, l, at, ret); AllSettled(w, l'.timers, l'.ticks)
  {
    hide Steady, Settled, AddMilliseconds;
    NewIsSettled(w, l.ticks, ret);
    SettledLater(w, l.timers, l.ticks, l.ticks + 1);
  }

  lemma UnlinkSettled(w: World, s: Pass)
    requires InRange(s) && s.at < |s.loop.timers| && AllSettled(w, s.loop.timers, s.loop.ticks)
    ensures AllSettled(w, Unlink(s).loop.timers, s.loop.ticks)
  {
    hide Settled;
  }

  lemma StepSettled(w: World, s: Pass)
    requires Steady(w) && InRange(s) && s.at < |s.loop.timers| && AllSettled(w, s.loop.timers, s.loop.ticks)
    ensures var l' := Step(w, s).loop; AllSettled(w, l'.timers, l'.ticks)
  {
    hide Steady, AllSettled, Call, Rearm, Unlink;
    if s.loop.timers[s.at].id == DELETED {
      UnlinkSettled(w, s);
      UnlinkedLoop(s);
      CallSettled(w, Unlink(s).loop);
    } else {
      var l := s.loop.(ticks := s.loop.ticks + 1);
      SettledLater(w, s.loop.timers, s.loop.ticks, l.ticks);
      CallSettled(w, l);
      if Due(w.clock(s.loop.ticks), s.loop.timers[s.at].when) {
        var s1 := Called(w, s.(loop := l));
        RearmSettled(w, s1.loop, s1.at, w.script(l.calls).ret);
      }
    }
  }

  lemma UnlinkedLoop(s: Pass)
    requires InRange(s) && s.at < |s.loop.timers|
    ensures Unlink(s).loop == s.loop.(timers := Unlink(s).loop.timers)
  {
  }

  lemma {:induction false} FinishSettled(w: World, s: Pass)
    requires Steady(w) && InRange(s) && AllSettled(w, s.loop.timers, s.loop.ticks)
    ensures var l' := Finish(w, s).loop; AllSettled(w, l'.timers, l'.ticks)
    decreases |s.loop.timers| - s.at
  {
    hide Steady, AllSettled, Step;
    if s.at < |s.loop.timers| {
      StepSettled(w, s);
      FinishSettled(w, Step(w, s));
    }
  }

  lemma ForcedSettled(w: World, l: Loop, back: bool)
    requires Steady(w) && AllSettled(w, l.timers, l.ticks)
    ensures var l' := Forced(l, back); AllSettled(w, l'.timers, l'.ticks)
  {
    assert w.clock(l.ticks).sec >= 0;
  }

  lemma {:induction false} LoopSettled(w: World, l: Loop, events: seq<LoopEvent>)
    requires Steady(w) && AllSettled(w, l.timers, l.ticks)
    ensures var l' := LoopAfter(w, l, events); AllSettled(w, l'.timers, l'.ticks)
    decreases |events|
  {
    hide Steady, AllSettled, ApplyOp, Finish;
    if events != [] {
      match events[0] {
        case Outside(op) =>
          OpSettled(w, l, op);
          LoopSettled(w, ApplyOp(w, l, op), events[1..]);
        case Process(back) =>
          ForcedSettled(w, l, back);
          FinishSettled(w, Begin(Forced(l, back)));
          LoopSettled(w, Finish(w, Begin(Forced(l, back))).loop, events[1..]);
      }
    }
  }

  lemma SettledSleep(timers: seq<Timer>, now: Time, nearest: Time)
    requires Normal(now) && (forall i | 0 <= i < |timers| :: Settled(timers[i].when, now))
    requires IsNearest(Deadlines(timers), nearest)
    ensures var s := SleepFrom(now, nearest);
      && (SleepsExactly(Deadlines(timers), now, s) <==> Ahead(now, nearest) < INT_LIMIT)
      && ((forall i | 0 <= i < |timers| :: !SleepsPast(s, now, timers[i].when))
          <==> Ahead(now, nearest) % INT_SPAN < INT_LIMIT)
  {
    hide Settled, Normal, IsNearest, SleepsPast, SleepsExactly, SleepFrom;
    NeverOversleeps(Deadlines(timers), now, nearest);
    assert forall i | 0 <= i < |timers| :: Deadlines(timers)[i] == timers[i].when;
  }

  /** In every state a run of the event loop can reach on a steady clock, with
      timers of any delay, negative ones included: the sleep is exact if and only if
      the wait for the nearest timer is below 2^31 ms, and it passes no deadline if
      and only if the low 32 bits of that wait are not negative. */
  lemma EveryRunSleepsExactly(w: World, events: seq<LoopEvent>, ticks: nat, calls: nat, nearest: Time)
    requires Steady(w)
    requires IsNearest(Deadlines(LoopAfter(w, Loop([], 0, ticks, calls), events).timers), nearest)
    ensures var l := LoopAfter(w, Loop([], 0, ticks, calls), events);
      var now := w.clock(l.ticks); var s := SleepFrom(now, nearest);
      && (SleepsExactly(Deadlines(l.timers), now, s) <==> Ahead(now, nearest) < INT_LIMIT)
      && ((forall i | 0 <= i < |l.timers| :: !SleepsPast(s, now, l.timers[i].when))
          <==> Ahead(now, nearest) % INT_SPAN < INT_LIMIT)
  {
    hide SleepsExactly, SleepsPast, SleepFrom, IsNearest, Settled, LoopAfter;
    var l := LoopAfter(w, Loop([], 0, ticks, calls), events);
    LoopSettled(w, Loop([], 0, ticks, calls), events);
    SettledSleep(l.timers, w.clock(l.ticks), nearest);
  }

  lemma FirstTimer(w: World, ticks: nat, delay: int)
    ensures var l := ApplyOp(w, Loop([], 0, ticks, 0), Create(delay, false));
      |l.timers| == 1 && l.ticks == ticks + 1 && l.timers[0].when == AddMilliseconds(w.clock(ticks), delay)
  {
    hide AddMilliseconds;
  }

  /** A single timer with a delay whose low 32 bits are negative, such as 2^31 ms or
      about 25 days: the loop sleeps for ever. */
  lemma SleepsForEver(w: World, ticks: nat, delay: nat)
    requires Normal(w.clock(ticks)) && w.clock(ticks + 1) == w.clock(ticks)
    requires delay % INT_SPAN >= INT_LIMIT
    ensures var l := ApplyOp(w, Loop([], 0, ticks, 0), Create(delay, false));
      |l.timers| == 1 && SleepFrom(w.clock(l.ticks), l.timers[0].when) == Forever
  {
    hide SleepFrom, AddMilliseconds, ApplyOp;
    LongDelay(w.clock(ticks), delay);
    FirstTimer(w, ticks, delay);
  }

  lemma LongDelay(now: Time, delay: nat)
    requires Normal(now) && delay % INT_SPAN >= INT_LIMIT
    ensures SleepFrom(now, AddMilliseconds(now, delay)) == Forever
  {
    AddMillisecondsExact(now, delay, now);
    var when := AddMilliseconds(now, delay);
    SleepIs(now, when);
    hide SleepFrom, AddMilliseconds, Millis;
    assert Ahead(now, when) == delay;
  }
}
