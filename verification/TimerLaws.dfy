/** What a pass over the timers does, whatever the callbacks do. */
module TimerLaws {
  import opened Text
  import opened Clock
  import opened TimerPass

  // ----- numbering -----

  /** Ids come from a counter and new timers go to the head: keys decrease along
      the list, and an id is the key or marks a deletion. */
  predicate Numbered(timers: seq<Timer>, nextId: nat) {
    && (forall i | 0 <= i < |timers| :: timers[i].key < nextId && (timers[i].id == timers[i].key || timers[i].id == DELETED))
    && (forall i, j | 0 <= i < j < |timers| :: timers[i].key > timers[j].key)
  }

  /** Deleting marks exactly the timer with that id. */
  lemma {:induction false} MarkIsExact(timers: seq<Timer>, nextId: nat, id: int)
    requires Numbered(timers, nextId)
    ensures forall i | 0 <= i < |timers| ::
      Mark(timers, id)[i] == if timers[i].id == id then timers[i].(id := DELETED) else timers[i]
  {
    if timers != [] && timers[0].id != id {
      MarkIsExact(timers[1..], nextId, id);
    }
  }

  lemma MarkNumbered(timers: seq<Timer>, nextId: nat, id: int)
    requires Numbered(timers, nextId)
    ensures Numbered(Mark(timers, id), nextId)
  {
    MarkIsExact(timers, nextId, id);
  }

  lemma CreateNumbered(timers: seq<Timer>, n: nat, t: Timer)
    requires Numbered(timers, n) && t.key == n && t.id == n
    ensures Numbered([t] + timers, n + 1)
  {
  }

  // ----- one callback -----

  predicate Deletes(ops: seq<TimerOp>, key: nat) {
    ops != [] && (ops[0] == Delete(key) || Deletes(ops[1..], key))
  }

  function Creates(ops: seq<TimerOp>): nat {
    if ops == [] then 0 else (if ops[0].Create? then 1 else 0) + Creates(ops[1..])
  }

  /** A timer after a callback that was there before it. */
  function Hit(t: Timer, ops: seq<TimerOp>): Timer {
    if Deletes(ops, t.key) then t.(id := DELETED) else t
  }

  function HitAll(timers: seq<Timer>, ops: seq<TimerOp>): (r: seq<Timer>)
    ensures |r| == |timers| && forall i | 0 <= i < |r| :: r[i] == Hit(timers[i], ops)
  {
    seq(|timers|, i requires 0 <= i < |timers| => Hit(timers[i], ops))
  }

  /** The timers a callback creates, newest first, as it leaves them. */
  function Births(w: World, ops: seq<TimerOp>, nextId: nat, tick: nat): (born: seq<Timer>)
    ensures |born| == Creates(ops)
    decreases |ops|
  {
    if ops == [] then []
    else
      match ops[0]
      case Create(milliseconds, finalizer) =>
        var t := Timer(nextId, nextId, AddMilliseconds(w.clock(tick), milliseconds), finalizer);
        Births(w, ops[1..], nextId + 1, tick + 1) + [Hit(t, ops[1..])]
      case Delete(_) =>
        Births(w, ops[1..], nextId, tick)
  }

  lemma CreateHits(timers: seq<Timer>, t: Timer, ops: seq<TimerOp>)
    requires ops != [] && ops[0].Create?
    ensures HitAll([t] + timers, ops[1..]) == [Hit(t, ops[1..])] + HitAll(timers, ops)
  {
  }

  lemma DeleteHits(timers: seq<Timer>, nextId: nat, ops: seq<TimerOp>)
    requires Numbered(timers, nextId) && ops != [] && ops[0].Delete?
    ensures HitAll(Mark(timers, ops[0].id), ops[1..]) == HitAll(timers, ops)
  {
    MarkIsExact(timers, nextId, ops[0].id);
  }

  /** What calls in a row do: the old timers stay in order behind the new ones, each
      marked exactly if it is deleted, and every creation takes one id and one
      reading of the clock. */
  ghost predicate Effect(w: World, l: Loop, ops: seq<TimerOp>, l': Loop) {
    && l'.timers == Births(w, ops, l.nextId, l.ticks) + HitAll(l.timers, ops)
    && l'.nextId == l.nextId + Creates(ops) && l'.ticks == l.ticks + Creates(ops) && l'.calls == l.calls
    && Numbered(l'.timers, l'.nextId)
  }

  lemma CreateEffect(w: World, l: Loop, ops: seq<TimerOp>, l': Loop)
    requires ops != [] && ops[0].Create? && Effect(w, ApplyOp(w, l, ops[0]), ops[1..], l')
    ensures Effect(w, l, ops, l')
  {
    var t := ApplyOp(w, l, ops[0]).timers[0];
    CreateHits(l.timers, t, ops);
    hide HitAll, Hit, Numbered;
    Assoc(Births(w, ops[1..], l.nextId + 1, l.ticks + 1), [Hit(t, ops[1..])], HitAll(l.timers, ops));
  }

  lemma DeleteEffect(w: World, l: Loop, ops: seq<TimerOp>, l': Loop)
    requires Numbered(l.timers, l.nextId)
    requires ops != [] && ops[0].Delete? && Effect(w, ApplyOp(w, l, ops[0]), ops[1..], l')
    ensures Effect(w, l, ops, l')
  {
    DeleteHits(l.timers, l.nextId, ops);
    hide HitAll, Numbered, Mark;
  }

  lemma OpNumbered(w: World, l: Loop, op: TimerOp)
    requires Numbered(l.timers, l.nextId)
    ensures Numbered(ApplyOp(w, l, op).timers, ApplyOp(w, l, op).nextId)
  {
    match op
    case Create(_, _) => CreateNumbered(l.timers, l.nextId, ApplyOp(w, l, op).timers[0]);
    case Delete(id) => MarkNumbered(l.timers, l.nextId, id);
  }

  lemma {:induction false} OpsEffect(w: World, l: Loop, ops: seq<TimerOp>)
    requires Numbered(l.timers, l.nextId)
    ensures Effect(w, l, ops, ApplyOps(w, l, ops))
    decreases |ops|
  {
    if ops == [] {
      assert HitAll(l.timers, []) == l.timers;
    } else {
      hide Numbered, Effect, ApplyOp;
      OpNumbered(w, l, ops[0]);
      OpsEffect(w, ApplyOp(w, l, ops[0]), ops[1..]);
      if ops[0].Create? {
        CreateEffect(w, l, ops, ApplyOps(w, l, ops));
      } else {
        DeleteEffect(w, l, ops, ApplyOps(w, l, ops));
      }
    }
  }

  // ----- where a timer comes from -----

  /** A timer as it was after `since` callbacks. */
  datatype Origin = Origin(timer: Timer, since: nat)

  /** Some callback from number `from` on and before number `to` deleted the timer. */
  predicate DeletedBy(w: World, key: nat, from: nat, to: nat) {
    from < to && (Deletes(w.script(to - 1).ops, key) || DeletedBy(w, key, from, to - 1))
  }

  /** What it has become by callback number `to`: only marks can have changed. */
  function Now(w: World, o: Origin, to: nat): Timer {
    if DeletedBy(w, o.timer.key, o.since, to) then o.timer.(id := DELETED) else o.timer
  }

  function ListNow(w: World, origins: seq<Origin>, to: nat): (timers: seq<Timer>)
    ensures |timers| == |origins| && forall i | 0 <= i < |timers| :: timers[i] == Now(w, origins[i], to)
  {
    seq(|origins|, i requires 0 <= i < |origins| => Now(w, origins[i], to))
  }

  function Since(timers: seq<Timer>, since: nat): (origins: seq<Origin>)
    ensures |origins| == |timers| && forall i | 0 <= i < |origins| :: origins[i] == Origin(timers[i], since)
  {
    seq(|timers|, i requires 0 <= i < |timers| => Origin(timers[i], since))
  }

  /** The list consists of what has become of these timers. */
  ghost predicate Tracks(w: World, origins: seq<Origin>, l: Loop) {
    l.timers == ListNow(w, origins, l.calls) && Numbered(l.timers, l.nextId) && Older(origins, l.calls)
  }

  ghost predicate Older(origins: seq<Origin>, calls: nat) {
    forall i | 0 <= i < |origins| :: origins[i].since <= calls
  }

  /** The timers the next callback would create. */
  function NextBorn(w: World, l: Loop): seq<Origin> {
    Since(Births(w, w.script(l.calls).ops, l.nextId, l.ticks), l.calls + 1)
  }

  lemma AgeOnce(w: World, o: Origin, calls: nat)
    requires o.since <= calls
    ensures Hit(Now(w, o, calls), w.script(calls).ops) == Now(w, o, calls + 1)
  {
  }

  lemma AgeAll(w: World, origins: seq<Origin>, calls: nat)
    requires Older(origins, calls)
    ensures HitAll(ListNow(w, origins, calls), w.script(calls).ops) == ListNow(w, origins, calls + 1)
  {
    forall i | 0 <= i < |origins|
      ensures Hit(Now(w, origins[i], calls), w.script(calls).ops) == Now(w, origins[i], calls + 1)
    {
      AgeOnce(w, origins[i], calls);
    }
  }

  lemma BornNow(w: World, timers: seq<Timer>, calls: nat)
    ensures ListNow(w, Since(timers, calls), calls) == timers
  {
  }

  lemma OlderBorn(born: seq<Origin>, origins: seq<Origin>, calls: nat)
    requires Older(origins, calls) && forall i | 0 <= i < |born| :: born[i].since == calls + 1
    ensures Older(born + origins, calls + 1)
  {
  }

  lemma TrackCall(w: World, origins: seq<Origin>, l: Loop)
    requires Tracks(w, origins, l)
    ensures Tracks(w, NextBorn(w, l) + origins, Call(w, l))
    ensures var n := |NextBorn(w, l)|;
      CountersOf(Call(w, l)) == Counters(l.calls + 1, l.ticks + n, l.nextId + n)
  {
    hide Numbered, HitAll, ListNow, Older, ApplyOps;
    var ops, born := w.script(l.calls).ops, NextBorn(w, l);
    OpsEffect(w, l, ops);
    AgeAll(w, origins, l.calls);
    BornNow(w, Births(w, ops, l.nextId, l.ticks), l.calls + 1);
    ListNowAppend(w, born, origins, l.calls + 1);
    OlderBorn(born, origins, l.calls);
    hide Births, Creates;
  }

  lemma TrackTick(w: World, origins: seq<Origin>, l: Loop)
    requires Tracks(w, origins, l)
    ensures Tracks(w, origins, l.(ticks := l.ticks + 1))
  {
  }

  lemma DropNumbered(timers: seq<Timer>, n: nat, at: nat)
    requires Numbered(timers, n) && at < |timers|
    ensures Numbered(timers[..at] + timers[at + 1..], n) && Numbered(timers[at + 1..], n)
  {
  }

  lemma ListNowCut(w: World, origins: seq<Origin>, k: nat, to: nat)
    requires k <= |origins|
    ensures ListNow(w, origins[..k], to) == ListNow(w, origins, to)[..k]
    ensures ListNow(w, origins[k..], to) == ListNow(w, origins, to)[k..]
  {
  }

  lemma ListNowAppend(w: World, a: seq<Origin>, b: seq<Origin>, to: nat)
    ensures ListNow(w, a + b, to) == ListNow(w, a, to) + ListNow(w, b, to)
  {
  }

  lemma TrackSuffix(w: World, origins: seq<Origin>, l: Loop, at: nat, l': Loop)
    requires Tracks(w, origins, l) && at < |l.timers| && l' == l.(timers := l.timers[at + 1..])
    ensures Tracks(w, origins[at + 1..], l')
  {
    DropNumbered(l.timers, l.nextId, at);
    ListNowCut(w, origins, at + 1, l.calls);
  }

  lemma TrackWithout(w: World, origins: seq<Origin>, l: Loop, at: nat, l': Loop)
    requires Tracks(w, origins, l) && at < |l.timers|
    requires l' == l.(timers := l.timers[..at] + l.timers[at + 1..])
    ensures Tracks(w, origins[..at] + origins[at + 1..], l')
  {
    DropNumbered(l.timers, l.nextId, at);
    ListNowCut(w, origins, at, l.calls);
    ListNowCut(w, origins, at + 1, l.calls);
    ListNowAppend(w, origins[..at], origins[at + 1..], l.calls);
    hide Numbered, ListNow;
  }

  lemma UpdateNumbered(timers: seq<Timer>, n: nat, at: nat, t: Timer)
    requires Numbered(timers, n) && at < |timers| && t.key == timers[at].key && (t.id == t.key || t.id == DELETED)
    ensures Numbered(timers[at := t], n)
  {
  }

  lemma TrackRearm(w: World, origins: seq<Origin>, l: Loop, at: nat, ret: int)
    requires Tracks(w, origins, l) && at < |l.timers|
    ensures var l' := Rearm(w, l, at, ret); Tracks(w, origins[at := Origin(l'.timers[at], l.calls)], l')
  {
    var l' := Rearm(w, l, at, ret);
    var t := l'.timers[at];
    assert l'.timers == l.timers[at := t];
    UpdateNumbered(l.timers, l.nextId, at, t);
    hide Numbered;
    assert Now(w, Origin(t, l.calls), l.calls) == t;
  }

  // ----- what a pass has to do -----

  /** Whether a visit runs a callback: the timer's own, or its finalizer. */
  predicate Runs(t: Timer, v: Visit) {
    v.outcome.Fired? || (v.outcome.Removed? && t.finalizer)
  }

  /** The clock is read first, unless the timer is marked. */
  function FirstTick(v: Visit): nat {
    if v.outcome.Removed? then v.at.ticks else v.at.ticks + 1
  }

  /** The timers created during a visit, newest first. */
  function BornIn(w: World, t: Timer, v: Visit): seq<Origin> {
    if Runs(t, v) then Since(Births(w, w.script(v.at.calls).ops, v.at.nextId, FirstTick(v)), v.at.calls + 1) else []
  }

  /** Where the counters stand after a visit. */
  function CountersAfter(w: World, t: Timer, v: Visit): Counters {
    var n := |BornIn(w, t, v)|;
    Counters(
      v.at.calls + if Runs(t, v) then 1 else 0,
      FirstTick(v) + n + if v.outcome.Fired? && v.outcome.ret != NOMORE then 1 else 0,
      v.at.nextId + n)
  }

  /** What a visit makes of a timer it keeps: nothing if the timer is not due; else,
      after the callback, which may delete it, a deadline computed from the next
      reading of the clock, or a mark. */
  function KeptAs(w: World, t: Timer, from: nat, v: Visit): Origin {
    if v.outcome.Fired? then
      var hit := Hit(t, w.script(v.at.calls).ops);
      Origin(
        if v.outcome.ret == NOMORE then hit.(id := DELETED)
        else hit.(when := AddMilliseconds(w.clock(FirstTick(v) + |BornIn(w, t, v)|), v.outcome.ret)),
        v.at.calls + 1)
    else
      Origin(t, from)
  }

  /** The visit of `t` is what the pass promises: `t` is removed exactly if it was
      marked at the start or deleted by an earlier callback of the pass; otherwise it
      fires exactly if it is due at the reading of the clock made for it. */
  predicate Visited(w: World, t: Timer, from: nat, v: Visit) {
    && v.key == t.key && v.when == t.when
    && (v.outcome.Removed? <==> Now(w, Origin(t, from), v.at.calls).id == DELETED)
    && (!v.outcome.Removed? ==> (v.outcome.Fired? <==> Due(w.clock(v.at.ticks), t.when)))
    && (v.outcome.Fired? ==> v.outcome.ret == w.script(v.at.calls).ret)
  }

  /** Every visit is as promised, and each begins where the one before ended. */
  ghost predicate Walk(w: World, l0: Loop, trace: seq<Visit>, now: Counters)
    requires |trace| <= |l0.timers|
  {
    if trace == [] then now == CountersOf(l0)
    else
      var t, v := l0.timers[|trace| - 1], trace[|trace| - 1];
      && Visited(w, t, l0.calls, v) && now == CountersAfter(w, t, v)
      && Walk(w, l0, trace[..|trace| - 1], v.at)
  }

  /** All timers created on the walk, newest first. */
  function Newborns(w: World, l0: Loop, trace: seq<Visit>): seq<Origin>
    requires |trace| <= |l0.timers|
  {
    if trace == [] then []
    else BornIn(w, l0.timers[|trace| - 1], trace[|trace| - 1]) + Newborns(w, l0, trace[..|trace| - 1])
  }

  /** The timers kept on the walk, in order. */
  function Survivors(w: World, l0: Loop, trace: seq<Visit>): seq<Origin>
    requires |trace| <= |l0.timers|
  {
    if trace == [] then []
    else
      var front, v := Survivors(w, l0, trace[..|trace| - 1]), trace[|trace| - 1];
      if v.outcome.Removed? then front else front + [KeptAs(w, l0.timers[|trace| - 1], l0.calls, v)]
  }

  /** The timers not reached yet. */
  function Unreached(l0: Loop, n: nat): (origins: seq<Origin>)
    requires n <= |l0.timers|
    ensures |origins| == |l0.timers| - n
  {
    Since(l0.timers[n..], l0.calls)
  }

  lemma OneMore(w: World, l0: Loop, trace: seq<Visit>, v: Visit, now: Counters)
    requires |trace| < |l0.timers|
    ensures var t := l0.timers[|trace|];
      && Newborns(w, l0, trace + [v]) == BornIn(w, t, v) + Newborns(w, l0, trace)
      && Survivors(w, l0, trace + [v]) ==
           Survivors(w, l0, trace) + (if v.outcome.Removed? then [] else [KeptAs(w, t, l0.calls, v)])
      && (Walk(w, l0, trace + [v], now) <==>
            Visited(w, t, l0.calls, v) && now == CountersAfter(w, t, v) && Walk(w, l0, trace, v.at))
  {
    assert (trace + [v])[..|trace|] == trace;
  }

  // ----- what a pass in progress keeps -----

  /** The timers the list consists of: of those born on the walk all but the first
      to come are there, then the kept ones, then those not reached. */
  function Parts(w: World, l0: Loop, trace: seq<Visit>, added: nat): seq<Origin>
    requires |trace| <= |l0.timers| && added <= |Newborns(w, l0, trace)|
  {
    Newborns(w, l0, trace)[..added] + Survivors(w, l0, trace) + Unreached(l0, |trace|)
  }

  ghost predicate PassHolds(w: World, l0: Loop, s: Pass) {
    && |s.trace| <= |l0.timers| && s.added <= |Newborns(w, l0, s.trace)|
    && s.at == s.added + |Survivors(w, l0, s.trace)|
    && Walk(w, l0, s.trace, CountersOf(s.loop))
    && Tracks(w, Parts(w, l0, s.trace, s.added), s.loop)
  }

  lemma BeginHolds(w: World, l0: Loop)
    requires Numbered(l0.timers, l0.nextId)
    ensures PassHolds(w, l0, Begin(l0))
  {
    assert l0.timers[0..] == l0.timers;
    BornNow(w, l0.timers, l0.calls);
    assert Parts(w, l0, [], 0) == Unreached(l0, 0);
  }

  // pieces of the list

  lemma DropMiddle<T>(a: seq<T>, b: seq<T>, c: seq<T>)
    requires c != []
    ensures var all, at := a + b + c, |a| + |b|;
      && all[at] == c[0] && all[..at] + all[at + 1..] == a + b + c[1..] && all[at + 1..] == c[1..]
      && a + b + c == a + (b + [c[0]]) + c[1..]
  {
    var all, at := a + b + c, |a| + |b|;
    assert all[..at] == a + b && all[at + 1..] == c[1..];
  }

  lemma UpdateMiddle<T>(d: seq<T>, a: seq<T>, b: seq<T>, c: seq<T>, x: T)
    requires c != []
    ensures (d + (a + b + c))[|d| + |a| + |b| := x] == d + (a + (b + [x]) + c[1..])
  {
  }

  lemma TakeMore<T>(a: seq<T>, b: seq<T>, c: seq<T>, d: seq<T>, k: nat)
    requires k <= |b|
    ensures (a + b)[..|a| + k] + c + d == a + (b[..k] + c + d)
  {
    assert (a + b)[..|a| + k] == a + b[..k];
    Assoc(a, b[..k], c);
    Assoc(a, b[..k] + c, d);
  }

  lemma UnreachedStep(l0: Loop, n: nat)
    requires n < |l0.timers|
    ensures Unreached(l0, n) != [] && Unreached(l0, n)[0] == Origin(l0.timers[n], l0.calls)
    ensures Unreached(l0, n)[1..] == Unreached(l0, n + 1)
  {
  }

  /** The next timer, and where it is in the list. */
  lemma NextTimer(w: World, l0: Loop, s: Pass)
    requires PassHolds(w, l0, s) && s.at < |s.loop.timers|
    ensures |s.trace| < |l0.timers| && s.added <= s.at
    ensures s.loop.timers[s.at] == Now(w, Origin(l0.timers[|s.trace|], l0.calls), s.loop.calls)
    ensures |s.loop.timers| - s.at == |l0.timers| - |s.trace|
  {
    var n := |s.trace|;
    var a, b, c := Newborns(w, l0, s.trace)[..s.added], Survivors(w, l0, s.trace), Unreached(l0, n);
    assert |s.loop.timers| == |a + b + c|;
    UnreachedStep(l0, n);
    DropMiddle(a, b, c);
  }

  lemma NextVisited(w: World, l0: Loop, s: Pass, outcome: Outcome)
    requires PassHolds(w, l0, s) && s.at < |s.loop.timers|
    requires outcome.Removed? <==> s.loop.timers[s.at].id == DELETED
    requires !outcome.Removed? ==> (outcome.Fired? <==> Due(w.clock(s.loop.ticks), s.loop.timers[s.at].when))
    requires outcome.Fired? ==> outcome.ret == w.script(s.loop.calls).ret
    ensures |s.trace| < |l0.timers| && InRange(s) && Visited(w, l0.timers[|s.trace|], l0.calls, VisitNow(s, outcome))
  {
    NextTimer(w, l0, s);
    hide PassHolds, Due;
  }

  /** After a visit: the born ones come first, `k` of the earlier ones are left. */
  lemma Conclude(w: World, l0: Loop, s: Pass, v: Visit, k: nat, s': Pass)
    requires PassHolds(w, l0, s) && |s.trace| < |l0.timers| && k <= |Newborns(w, l0, s.trace)|
    requires v.at == CountersOf(s.loop) && Visited(w, l0.timers[|s.trace|], l0.calls, v) && s'.trace == s.trace + [v]
    requires CountersOf(s'.loop) == CountersAfter(w, l0.timers[|s.trace|], v)
    requires s'.added == |BornIn(w, l0.timers[|s.trace|], v)| + k
    requires s'.at == s'.added + |Survivors(w, l0, s'.trace)|
    requires Tracks(w, BornIn(w, l0.timers[|s.trace|], v) +
      (Newborns(w, l0, s.trace)[..k] + Survivors(w, l0, s'.trace) + Unreached(l0, |s.trace| + 1)), s'.loop)
    ensures PassHolds(w, l0, s')
  {
    hide Tracks, BornIn, Newborns, Survivors, Unreached, Visited, CountersAfter, Walk, Parts;
    OneMore(w, l0, s.trace, v, CountersOf(s'.loop));
    PartsAfter(w, l0, s.trace, v, k);
  }

  lemma PartsAfter(w: World, l0: Loop, trace: seq<Visit>, v: Visit, k: nat)
    requires |trace| < |l0.timers| && k <= |Newborns(w, l0, trace)|
    ensures var born := BornIn(w, l0.timers[|trace|], v);
      && |born| + k <= |Newborns(w, l0, trace + [v])|
      && Parts(w, l0, trace + [v], |born| + k) ==
           born + (Newborns(w, l0, trace)[..k] + Survivors(w, l0, trace + [v]) + Unreached(l0, |trace| + 1))
  {
    var born, earlier, kept := BornIn(w, l0.timers[|trace|], v), Newborns(w, l0, trace), Survivors(w, l0, trace + [v]);
    OneMore(w, l0, trace, v, v.at);
    hide BornIn, Newborns, Survivors, Unreached;
    TakeMore(born, earlier, kept, Unreached(l0, |trace| + 1), k);
  }

  /** Unlinking the next timer; if none was kept yet, the newborns go with it. */
  lemma UnlinkParts(w: World, l0: Loop, s: Pass)
    requires PassHolds(w, l0, s) && s.at < |s.loop.timers|
    ensures |s.trace| < |l0.timers| && InRange(s)
    ensures var u := Unlink(s);
      && u.added <= |Newborns(w, l0, s.trace)| && u.at == u.added + |Survivors(w, l0, s.trace)|
      && CountersOf(u.loop) == CountersOf(s.loop)
      && Tracks(w, Newborns(w, l0, s.trace)[..u.added] + Survivors(w, l0, s.trace) + Unreached(l0, |s.trace| + 1), u.loop)
  {
    hide Tracks, Survivors, Newborns, Walk;
    var u, n := Unlink(s), |s.trace|;
    var a, b, c := Newborns(w, l0, s.trace)[..s.added], Survivors(w, l0, s.trace), Unreached(l0, n);
    NextTimer(w, l0, s);
    UnreachedStep(l0, n);
    DropMiddle(a, b, c);
    hide Unreached;
    if s.added == s.at {
      TrackSuffix(w, a + b + c, s.loop, s.at, u.loop);
      assert [] + b + c[1..] == c[1..];
    } else {
      TrackWithout(w, a + b + c, s.loop, s.at, u.loop);
    }
  }

  lemma RemovedParts(w: World, l0: Loop, s: Pass, v: Visit, u: Pass, s': Pass)
    requires PassHolds(w, l0, s) && s.at < |s.loop.timers| && |s.trace| < |l0.timers| && InRange(s)
    requires s.loop.timers[s.at].id == DELETED && v == VisitNow(s, Removed) && u == Unlink(s)
    requires s' == if s.loop.timers[s.at].finalizer then Called(w, u) else u
    ensures var t := l0.timers[|s.trace|]; var b := Survivors(w, l0, s.trace);
      && CountersOf(s'.loop) == CountersAfter(w, t, v) && s'.added == |BornIn(w, t, v)| + u.added
      && u.added <= |Newborns(w, l0, s.trace)| && s'.at == s'.added + |b|
      && Tracks(w, BornIn(w, t, v) + (Newborns(w, l0, s.trace)[..u.added] + b + Unreached(l0, |s.trace| + 1)), s'.loop)
  {
    hide PassHolds, Tracks, Survivors, Newborns, Unreached, Unlink, Births, Walk;
    var t := l0.timers[|s.trace|];
    NextTimer(w, l0, s);
    UnlinkParts(w, l0, s);
    var origins := Newborns(w, l0, s.trace)[..u.added] + Survivors(w, l0, s.trace) + Unreached(l0, |s.trace| + 1);
    if t.finalizer {
      TrackCall(w, origins, u.loop);
      assert NextBorn(w, u.loop) == BornIn(w, t, v);
    } else {
      assert BornIn(w, t, v) + origins == origins;
    }
  }

  lemma RemovedStep(w: World, l0: Loop, s: Pass)
    requires PassHolds(w, l0, s) && s.at < |s.loop.timers| && s.loop.timers[s.at].id == DELETED
    ensures PassHolds(w, l0, Step(w, s))
  {
    NextVisited(w, l0, s, Removed);
    var v, u := VisitNow(s, Removed), Unlink(s);
    RemovedParts(w, l0, s, v, u, if s.loop.timers[s.at].finalizer then Called(w, u) else u);
    OneMore(w, l0, s.trace, v, v.at);
    hide PassHolds, Tracks, Newborns, Unreached, Survivors, BornIn, KeptAs, Unlink, Called, CountersAfter, Visited, Walk;
    assert Survivors(w, l0, s.trace + [v]) == Survivors(w, l0, s.trace);
    Conclude(w, l0, s, v, u.added, Step(w, s));
  }

  lemma KeepFirst(w: World, a: seq<Origin>, b: seq<Origin>, c: seq<Origin>, l: Loop)
    requires c != [] && Tracks(w, a + b + c, l)
    ensures Tracks(w, [] + (a + (b + [c[0]]) + c[1..]), l)
  {
    hide Tracks;
    DropMiddle(a, b, c);
    var origins := a + (b + [c[0]]) + c[1..];
    assert [] + origins == origins;
  }

  lemma WaitingParts(w: World, l0: Loop, s: Pass, v: Visit)
    requires PassHolds(w, l0, s) && s.at < |s.loop.timers| && |s.trace| < |l0.timers| && s.added <= s.at
    requires v == VisitNow(s, Waiting)
    ensures var t, b := l0.timers[|s.trace|], Survivors(w, l0, s.trace);
      Tracks(w, BornIn(w, t, v) + (Newborns(w, l0, s.trace)[..s.added] + (b + [KeptAs(w, t, l0.calls, v)])
             + Unreached(l0, |s.trace| + 1)), s.loop.(ticks := s.loop.ticks + 1))
  {
    hide Tracks, Newborns, Survivors, Walk, BornIn, KeptAs;
    var n := |s.trace|;
    var a, b, c := Newborns(w, l0, s.trace)[..s.added], Survivors(w, l0, s.trace), Unreached(l0, n);
    UnreachedStep(l0, n);
    hide Unreached;
    TrackTick(w, a + b + c, s.loop);
    WaitingKept(w, l0.timers[n], l0.calls, v);
    KeepFirst(w, a, b, c, s.loop.(ticks := s.loop.ticks + 1));
  }

  lemma WaitingKept(w: World, t: Timer, from: nat, v: Visit)
    requires v.outcome.Waiting?
    ensures BornIn(w, t, v) == [] && KeptAs(w, t, from, v) == Origin(t, from)
  {
  }

  lemma WaitingStep(w: World, l0: Loop, s: Pass)
    requires PassHolds(w, l0, s) && s.at < |s.loop.timers| && s.loop.timers[s.at].id != DELETED
    requires !Due(w.clock(s.loop.ticks), s.loop.timers[s.at].when)
    ensures PassHolds(w, l0, Step(w, s))
  {
    var v := VisitNow(s, Waiting);
    NextVisited(w, l0, s, Waiting);
    WaitingParts(w, l0, s, v);
    OneMore(w, l0, s.trace, v, v.at);
    hide Tracks, Newborns, Unreached, Survivors, Visited, Walk, KeptAs;
    Conclude(w, l0, s, v, s.added, Step(w, s));
  }

  /** The callback of the next timer, after the reading of the clock. */
  lemma CalledParts(w: World, l0: Loop, s: Pass, v: Visit, called: Pass, all: seq<Origin>)
    requires InRange(s) && s.at < |s.loop.timers| && |s.trace| < |l0.timers|
    requires v == VisitNow(s, Fired(w.script(s.loop.calls).ret)) && Tracks(w, all, s.loop)
    requires called == Called(w, s.(loop := s.loop.(ticks := s.loop.ticks + 1)))
    ensures var born := BornIn(w, l0.timers[|s.trace|], v);
      && Tracks(w, born + all, called.loop)
      && called.at == |born| + s.at && called.added == |born| + s.added
      && CountersOf(called.loop) == Counters(s.loop.calls + 1, s.loop.ticks + 1 + |born|, s.loop.nextId + |born|)
  {
    var ticked := s.loop.(ticks := s.loop.ticks + 1);
    TrackTick(w, all, s.loop);
    TrackCall(w, all, ticked);
    hide Tracks, Births;
    assert NextBorn(w, ticked) == BornIn(w, l0.timers[|s.trace|], v);
  }

  lemma FiredOrigins(w: World, l0: Loop, s: Pass, v: Visit, called: Pass, s': Pass, all: seq<Origin>)
    requires InRange(s) && s.at < |s.loop.timers| && |s.trace| < |l0.timers|
    requires s.loop.timers[s.at].id != DELETED && v == VisitNow(s, Fired(w.script(s.loop.calls).ret))
    requires called == Called(w, s.(loop := s.loop.(ticks := s.loop.ticks + 1)))
    requires s' == called.(loop := Rearm(w, called.loop, called.at, v.outcome.ret))
    requires Tracks(w, all, s.loop) && s.at < |all| && all[s.at] == Origin(l0.timers[|s.trace|], l0.calls)
    ensures var t := l0.timers[|s.trace|]; var born := BornIn(w, t, v);
      && CountersOf(s'.loop) == CountersAfter(w, t, v) && s'.added == |born| + s.added
      && Tracks(w, (born + all)[|born| + s.at := KeptAs(w, t, l0.calls, v)], s'.loop)
  {
    hide Tracks, KeptAs, BornIn, Called, CountersAfter, Rearm;
    var t := l0.timers[|s.trace|];
    CalledParts(w, l0, s, v, called, all);
    FiredCounters(w, t, v, called.loop, called.at);
    FiredTimer(w, l0, s, v, called, s', all);
    TrackRearm(w, BornIn(w, t, v) + all, called.loop, called.at, v.outcome.ret);
  }

  lemma FiredParts(w: World, l0: Loop, s: Pass, v: Visit, called: Pass, s': Pass)
    requires PassHolds(w, l0, s) && s.at < |s.loop.timers| && |s.trace| < |l0.timers| && InRange(s)
    requires s.loop.timers[s.at].id != DELETED && v == VisitNow(s, Fired(w.script(s.loop.calls).ret))
    requires called == Called(w, s.(loop := s.loop.(ticks := s.loop.ticks + 1)))
    requires s' == called.(loop := Rearm(w, called.loop, called.at, v.outcome.ret))
    ensures var t := l0.timers[|s.trace|]; var b := Survivors(w, l0, s.trace);
      && CountersOf(s'.loop) == CountersAfter(w, t, v) && s'.added == |BornIn(w, t, v)| + s.added
      && Tracks(w, BornIn(w, t, v) + (Newborns(w, l0, s.trace)[..s.added] + (b + [KeptAs(w, t, l0.calls, v)])
                 + Unreached(l0, |s.trace| + 1)), s'.loop)
  {
    hide Newborns, Survivors, Walk, Tracks, KeptAs, BornIn, Called, CountersAfter, Rearm;
    var t, n := l0.timers[|s.trace|], |s.trace|;
    var a, b, c := Newborns(w, l0, s.trace)[..s.added], Survivors(w, l0, s.trace), Unreached(l0, n);
    UnreachedStep(l0, n);
    hide Unreached;
    DropMiddle(a, b, c);
    FiredOrigins(w, l0, s, v, called, s', a + b + c);
    UpdateMiddle(BornIn(w, t, v), a, b, c, KeptAs(w, t, l0.calls, v));
  }

  lemma FiredCounters(w: World, t: Timer, v: Visit, l: Loop, at: nat)
    requires at < |l.timers| && v.outcome.Fired?
    requires var n := |BornIn(w, t, v)|; CountersOf(l) == Counters(v.at.calls + 1, v.at.ticks + 1 + n, v.at.nextId + n)
    ensures CountersOf(Rearm(w, l, at, v.outcome.ret)) == CountersAfter(w, t, v)
    ensures Rearm(w, l, at, v.outcome.ret).calls == l.calls
  {
  }

  lemma FiredTimer(w: World, l0: Loop, s: Pass, v: Visit, called: Pass, s': Pass, all: seq<Origin>)
    requires InRange(s) && s.at < |s.loop.timers| && |s.trace| < |l0.timers|
    requires s.loop.timers[s.at].id != DELETED && v == VisitNow(s, Fired(w.script(s.loop.calls).ret))
    requires called == Called(w, s.(loop := s.loop.(ticks := s.loop.ticks + 1)))
    requires s' == called.(loop := Rearm(w, called.loop, called.at, v.outcome.ret))
    requires Tracks(w, all, s.loop) && s.at < |all| && all[s.at] == Origin(l0.timers[|s.trace|], l0.calls)
    requires var born := BornIn(w, l0.timers[|s.trace|], v);
      Tracks(w, born + all, called.loop) && called.at == |born| + s.at
      && called.loop.calls == s.loop.calls + 1 && called.loop.ticks == s.loop.ticks + 1 + |born|
    ensures Origin(s'.loop.timers[called.at], called.loop.calls) == KeptAs(w, l0.timers[|s.trace|], l0.calls, v)
  {
    var t, born := l0.timers[|s.trace|], BornIn(w, l0.timers[|s.trace|], v);
    assert (born + all)[called.at] == all[s.at];
    AgeOnce(w, all[s.at], s.loop.calls);
    assert Now(w, all[s.at], s.loop.calls) == t;
    assert called.loop.timers[called.at] == Hit(t, w.script(s.loop.calls).ops);
  }

  lemma FiredStep(w: World, l0: Loop, s: Pass)
    requires PassHolds(w, l0, s) && s.at < |s.loop.timers| && s.loop.timers[s.at].id != DELETED
    requires Due(w.clock(s.loop.ticks), s.loop.timers[s.at].when)
    ensures PassHolds(w, l0, Step(w, s))
  {
    var ret := w.script(s.loop.calls).ret;
    var called := Called(w, s.(loop := s.loop.(ticks := s.loop.ticks + 1)));
    var v := VisitNow(s, Fired(ret));
    NextVisited(w, l0, s, Fired(ret));
    FiredParts(w, l0, s, v, called, called.(loop := Rearm(w, called.loop, called.at, ret)));
    OneMore(w, l0, s.trace, v, v.at);
    hide Tracks, Newborns, Unreached, Survivors, BornIn, KeptAs, Rearm, Called, CountersAfter, Walk, Visited;
    Conclude(w, l0, s, v, s.added, Step(w, s));
  }

  lemma StepHolds(w: World, l0: Loop, s: Pass)
    requires PassHolds(w, l0, s) && s.at < |s.loop.timers|
    ensures InRange(s) && PassHolds(w, l0, Step(w, s))
  {
    NextTimer(w, l0, s);
    hide PassHolds, Step;
    if s.loop.timers[s.at].id == DELETED {
      RemovedStep(w, l0, s);
    } else if Due(w.clock(s.loop.ticks), s.loop.timers[s.at].when) {
      FiredStep(w, l0, s);
    } else {
      WaitingStep(w, l0, s);
    }
  }

  lemma {:induction false} FinishHolds(w: World, l0: Loop, s: Pass)
    requires PassHolds(w, l0, s)
    ensures InRange(s) && PassHolds(w, l0, Finish(w, s))
    decreases |s.loop.timers| - s.at
  {
    PassInRange(w, l0, s);
    hide PassHolds, Step;
    if s.at < |s.loop.timers| {
      StepHolds(w, l0, s);
      FinishHolds(w, l0, Step(w, s));
    }
  }

  lemma PassInRange(w: World, l0: Loop, s: Pass)
    requires PassHolds(w, l0, s)
    ensures InRange(s) && |s.loop.timers| - s.at == |l0.timers| - |s.trace|
    ensures Numbered(s.loop.timers, s.loop.nextId)
  {
    hide Numbered;
    assert |s.loop.timers| == |Parts(w, l0, s.trace, s.added)|;
  }

  // ----- timers that are lost -----

  /** The first of these timers is removed, if no timer before it was kept: it was
      marked at the start, or one of the finalizers run since deleted it. */
  predicate Leads(w: World, timers: seq<Timer>, from: nat, calls: nat) {
    timers != [] && Now(w, Origin(timers[0], from), calls).id == DELETED
  }

  /** How many callbacks ran once the first of these timers is removed. */
  function AfterFinalizer(timers: seq<Timer>, calls: nat): nat
    requires timers != []
  {
    calls + if timers[0].finalizer then 1 else 0
  }

  /** How many timers the finalizers of the timers removed at the head of the list
      create, except the last of these finalizers. */
  function Lost(w: World, timers: seq<Timer>, from: nat, calls: nat): nat {
    if !Leads(w, timers, from, calls) || !Leads(w, timers[1..], from, AfterFinalizer(timers, calls)) then 0
    else
      (if timers[0].finalizer then Creates(w.script(calls).ops) else 0)
      + Lost(w, timers[1..], from, AfterFinalizer(timers, calls))
  }

  /** None of these finalizers creates a timer. */
  predicate Harmless(w: World, timers: seq<Timer>, from: nat, calls: nat) {
    Leads(w, timers, from, calls) && Leads(w, timers[1..], from, AfterFinalizer(timers, calls)) ==>
      && (timers[0].finalizer ==> Creates(w.script(calls).ops) == 0)
      && Harmless(w, timers[1..], from, AfterFinalizer(timers, calls))
  }

  lemma {:induction false} HarmlessLosesNothing(w: World, timers: seq<Timer>, from: nat, calls: nat)
    ensures Lost(w, timers, from, calls) == 0 <==> Harmless(w, timers, from, calls)
  {
    if timers != [] {
      HarmlessLosesNothing(w, timers[1..], from, AfterFinalizer(timers, calls));
    }
  }

  /** What is still to be lost: as long as no timer was kept, the newborns that are
      there, if one more timer is removed. */
  function StillLost(w: World, l0: Loop, n: nat, calls: nat, added: nat, kept: bool): nat
    requires n <= |l0.timers|
  {
    if kept || !Leads(w, l0.timers[n..], l0.calls, calls) then 0
    else added + Lost(w, l0.timers[n..], l0.calls, calls)
  }

  ghost predicate LossHolds(w: World, l0: Loop, s: Pass) {
    && |s.trace| <= |l0.timers| && s.added <= |Newborns(w, l0, s.trace)| && s.added <= s.at
    && Lost(w, l0.timers, l0.calls, l0.calls) ==
         |Newborns(w, l0, s.trace)| - s.added + StillLost(w, l0, |s.trace|, s.loop.calls, s.added, s.at > s.added)
  }

  lemma BeginLoses(w: World, l0: Loop)
    ensures LossHolds(w, l0, Begin(l0))
  {
    assert l0.timers[0..] == l0.timers;
  }

  lemma NextLeads(w: World, l0: Loop, s: Pass)
    requires PassHolds(w, l0, s) && s.at < |s.loop.timers|
    ensures |s.trace| < |l0.timers|
    ensures var rest := l0.timers[|s.trace|..];
      rest != [] && rest[0] == l0.timers[|s.trace|] && rest[1..] == l0.timers[|s.trace| + 1..]
      && (Leads(w, rest, l0.calls, s.loop.calls) <==> s.loop.timers[s.at].id == DELETED)
      && rest[0].finalizer == s.loop.timers[s.at].finalizer
  {
    NextTimer(w, l0, s);
    hide PassHolds, DeletedBy;
  }

  /** A timer is removed before any is kept: the newborns that are there are lost,
      and its own may follow. */
  lemma StillLostStep(w: World, l0: Loop, n: nat, calls: nat, added: nat)
    requires n < |l0.timers| && Leads(w, l0.timers[n..], l0.calls, calls)
    ensures var born := if l0.timers[n].finalizer then Creates(w.script(calls).ops) else 0;
      StillLost(w, l0, n, calls, added, false) ==
        added + StillLost(w, l0, n + 1, calls + (if l0.timers[n].finalizer then 1 else 0), born, false)
  {
    hide Leads;
    assert l0.timers[n..][1..] == l0.timers[n + 1..];
  }

  lemma RemovedLoses(w: World, l0: Loop, s: Pass)
    requires PassHolds(w, l0, s) && LossHolds(w, l0, s) && s.at < |s.loop.timers| && InRange(s)
    requires s.loop.timers[s.at].id == DELETED
    ensures LossHolds(w, l0, Step(w, s))
  {
    hide PassHolds, Newborns, Step, Leads, BornIn, StillLost, Lost, Survivors, Walk;
    NextLeads(w, l0, s);
    OneMore(w, l0, s.trace, VisitNow(s, Removed), CountersOf(s.loop));
    RemovedCounts(w, l0, s);
    if s.at == s.added {
      StillLostStep(w, l0, |s.trace|, s.loop.calls, s.added);
    } else {
      KeptLosesNothing(w, l0, |s.trace|, s.loop.calls, s.added);
      KeptLosesNothing(w, l0, |s.trace| + 1, Step(w, s).loop.calls, Step(w, s).added);
    }
  }

  lemma KeptLosesNothing(w: World, l0: Loop, n: nat, calls: nat, added: nat)
    requires n <= |l0.timers|
    ensures StillLost(w, l0, n, calls, added, true) == 0
  {
  }

  /** The counts of a removal. */
  lemma RemovedCounts(w: World, l0: Loop, s: Pass)
    requires PassHolds(w, l0, s) && s.at < |s.loop.timers| && InRange(s) && s.loop.timers[s.at].id == DELETED
    ensures var s', v := Step(w, s), VisitNow(s, Removed);
      && |s.trace| < |l0.timers| && s'.trace == s.trace + [v]
      && var t := l0.timers[|s.trace|]; var n := |BornIn(w, t, v)|;
         && n == (if t.finalizer then Creates(w.script(s.loop.calls).ops) else 0)
         && s'.loop.calls == s.loop.calls + (if t.finalizer then 1 else 0)
         && s'.added == n + (if s.added == s.at then 0 else s.added)
         && s'.at - s'.added == s.at - s.added
  {
    var v, u := VisitNow(s, Removed), Unlink(s);
    NextTimer(w, l0, s);
    RemovedParts(w, l0, s, v, u, if s.loop.timers[s.at].finalizer then Called(w, u) else u);
    UnlinkParts(w, l0, s);
    hide PassHolds, Tracks, Walk, Survivors, Newborns, Unreached;
  }

  lemma KeptLoses(w: World, l0: Loop, s: Pass)
    requires PassHolds(w, l0, s) && LossHolds(w, l0, s) && s.at < |s.loop.timers| && InRange(s)
    requires s.loop.timers[s.at].id != DELETED && PassHolds(w, l0, Step(w, s))
    ensures LossHolds(w, l0, Step(w, s))
  {
    NextLeads(w, l0, s);
    var s' := Step(w, s);
    var v := s'.trace[|s.trace|];
    OneMore(w, l0, s.trace, v, v.at);
    KeptCounts(w, l0, s);
    hide PassHolds, Newborns, Step, Leads, Lost, Survivors;
  }

  lemma KeptCounts(w: World, l0: Loop, s: Pass)
    requires PassHolds(w, l0, s) && s.at < |s.loop.timers| && InRange(s) && s.loop.timers[s.at].id != DELETED
    requires |s.trace| < |l0.timers|
    ensures var s' := Step(w, s); var v := s'.trace[|s.trace|];
      && s'.trace == s.trace + [v] && s'.at > s'.added
      && s'.added - s.added == |BornIn(w, l0.timers[|s.trace|], v)|
  {
    hide PassHolds, Tracks, Survivors, Newborns, Unreached, Births, CountersAfter, Rearm;
    if Due(w.clock(s.loop.ticks), s.loop.timers[s.at].when) {
      var ret := w.script(s.loop.calls).ret;
      var called := Called(w, s.(loop := s.loop.(ticks := s.loop.ticks + 1)));
      FiredParts(w, l0, s, VisitNow(s, Fired(ret)), called, called.(loop := Rearm(w, called.loop, called.at, ret)));
    }
  }

  lemma {:induction false} FinishLoses(w: World, l0: Loop, s: Pass)
    requires PassHolds(w, l0, s) && LossHolds(w, l0, s)
    ensures InRange(s) && LossHolds(w, l0, Finish(w, s))
    decreases |s.loop.timers| - s.at
  {
    PassInRange(w, l0, s);
    hide PassHolds, Step, LossHolds;
    if s.at < |s.loop.timers| {
      StepHolds(w, l0, s);
      if s.loop.timers[s.at].id == DELETED {
        RemovedLoses(w, l0, s);
      } else {
        KeptLoses(w, l0, s);
      }
      FinishLoses(w, l0, Step(w, s));
    }
  }

  // ----- the whole pass -----

  /** What the pass promises.  Every timer that was there is reached once, in order,
      and removed, fired or left as `Visited` says, every visit beginning where the
      counters stood after the one before.  Then the list consists of the timers
      born meanwhile, newest first and save those lost at the head, and behind them,
      in the old order, the ones not removed; and each is as it was born or kept, but
      for a mark exactly if a later callback deleted it. */
  ghost predicate Exact(w: World, l0: Loop, s: Pass) {
    && |s.trace| == |l0.timers| && Walk(w, l0, s.trace, CountersOf(s.loop))
    && var born, lost := Newborns(w, l0, s.trace), Lost(w, l0.timers, l0.calls, l0.calls);
       && lost <= |born| && s.added == |born| - lost && s.at == |s.loop.timers|
       && s.loop.timers == ListNow(w, born[..s.added] + Survivors(w, l0, s.trace), s.loop.calls)
  }

  lemma FinishedIsExact(w: World, l0: Loop, s: Pass)
    requires PassHolds(w, l0, s) && LossHolds(w, l0, s) && s.at == |s.loop.timers|
    ensures Exact(w, l0, s) && Numbered(s.loop.timers, s.loop.nextId)
  {
    PassInRange(w, l0, s);
    assert Unreached(l0, |s.trace|) == [];
    assert !Leads(w, l0.timers[|s.trace|..], l0.calls, s.loop.calls);
    hide Walk, Newborns, Survivors, Leads, Lost, Numbered;
    var parts := Newborns(w, l0, s.trace)[..s.added] + Survivors(w, l0, s.trace);
    assert parts + [] == parts;
  }

  lemma SameVisit(w: World, t: Timer, from: nat, v: Visit, v': Visit)
    requires Visited(w, t, from, v) && Visited(w, t, from, v') && v.at == v'.at
    ensures v == v'
  {
    hide Now, Due;
  }

  /** There is only one such walk. */
  lemma {:induction false} OneWalk(w: World, l0: Loop, a: seq<Visit>, now: Counters, b: seq<Visit>, now': Counters)
    requires |a| == |b| <= |l0.timers| && Walk(w, l0, a, now) && Walk(w, l0, b, now')
    ensures a == b && now == now'
  {
    if a != [] {
      var n := |a| - 1;
      OneWalk(w, l0, a[..n], a[n].at, b[..n], b[n].at);
      SameVisit(w, l0.timers[n], l0.calls, a[n], b[n]);
      hide Visited, CountersAfter, Walk;
      Split(a, n);
      Split(b, n);
      assert a[..n + 1] == a && b[..n + 1] == b;
    }
  }

  lemma OnePass(w: World, l0: Loop, s: Pass, s': Pass)
    requires Exact(w, l0, s) && Exact(w, l0, s')
    ensures s == s'
  {
    OneWalk(w, l0, s.trace, CountersOf(s.loop), s'.trace, CountersOf(s'.loop));
    hide Walk, Newborns, Survivors, Lost, ListNow;
  }

  /** Whatever callbacks and finalizers do, the pass keeps the promise; and nothing
      else does: the promise fixes the list, the counters and every visit. */
  lemma PassIsExact(w: World, l0: Loop, s: Pass)
    requires Numbered(l0.timers, l0.nextId)
    ensures Exact(w, l0, s) <==> s == Finish(w, Begin(l0))
    ensures Exact(w, l0, Finish(w, Begin(l0)))
    ensures var l := Finish(w, Begin(l0)).loop; Numbered(l.timers, l.nextId)
  {
    BeginHolds(w, l0);
    BeginLoses(w, l0);
    FinishHolds(w, l0, Begin(l0));
    FinishLoses(w, l0, Begin(l0));
    FinishedIsExact(w, l0, Finish(w, Begin(l0)));
    hide Exact, PassHolds, LossHolds, Finish, Numbered;
    if Exact(w, l0, s) {
      OnePass(w, l0, s, Finish(w, Begin(l0)));
    }
  }

  // ----- the keys of the pass -----

  lemma {:induction false} BirthKeys(w: World, ops: seq<TimerOp>, nextId: nat, tick: nat)
    ensures forall i | 0 <= i < Creates(ops) :: Births(w, ops, nextId, tick)[i].key == nextId + Creates(ops) - 1 - i
    decreases |ops|
  {
    if ops != [] {
      BirthKeys(w, ops[1..], if ops[0].Create? then nextId + 1 else nextId, if ops[0].Create? then tick + 1 else tick);
    }
  }

  /** The newborns are numbered downwards to where the pass began. */
  lemma {:induction false} NewbornKeys(w: World, l0: Loop, trace: seq<Visit>, now: Counters)
    requires |trace| <= |l0.timers| && Walk(w, l0, trace, now)
    ensures var born := Newborns(w, l0, trace);
      && now.nextId == l0.nextId + |born|
      && forall i | 0 <= i < |born| :: born[i].timer.key == now.nextId - 1 - i
  {
    if trace != [] {
      var t, v, front := l0.timers[|trace| - 1], trace[|trace| - 1], trace[..|trace| - 1];
      NewbornKeys(w, l0, front, v.at);
      if Runs(t, v) {
        BirthKeys(w, w.script(v.at.calls).ops, v.at.nextId, FirstTick(v));
      }
      hide Visited, Births;
    }
  }

  lemma {:induction false} SurvivorKeys(w: World, l0: Loop, trace: seq<Visit>)
    requires |trace| <= |l0.timers| && Numbered(l0.timers, l0.nextId)
    ensures forall i | 0 <= i < |Survivors(w, l0, trace)| :: Survivors(w, l0, trace)[i].timer.key < l0.nextId
  {
    if trace != [] {
      SurvivorKeys(w, l0, trace[..|trace| - 1]);
    }
  }

  /** There is a timer that was created with this key. */
  ghost predicate Present(timers: seq<Timer>, key: nat) {
    exists i | 0 <= i < |timers| :: timers[i].key == key
  }

  /** Which timers a pass loses, from the list and the scripts: of those it creates
      exactly the first `Lost` ones, made by finalizers at the head of the list
      before the last timer removed there; all others are in the list.  Nothing is
      lost if and only if these finalizers create nothing. */
  lemma LostExactly(w: World, l0: Loop)
    requires Numbered(l0.timers, l0.nextId)
    ensures var l, lost := Finish(w, Begin(l0)).loop, Lost(w, l0.timers, l0.calls, l0.calls);
      && l0.nextId + lost <= l.nextId
      && (forall key | l0.nextId <= key < l.nextId :: Present(l.timers, key) <==> key >= l0.nextId + lost)
      && ((forall key | l0.nextId <= key < l.nextId :: Present(l.timers, key))
          <==> Harmless(w, l0.timers, l0.calls, l0.calls))
  {
    var s := Finish(w, Begin(l0));
    PassIsExact(w, l0, s);
    HarmlessLosesNothing(w, l0.timers, l0.calls, l0.calls);
    LostKeys(w, l0, s);
    hide Finish, Lost, Harmless, Exact, Numbered, Present;
    var l, lost := s.loop, Lost(w, l0.timers, l0.calls, l0.calls);
    assert lost > 0 ==> !Present(l.timers, l0.nextId);
  }

  lemma LostKeys(w: World, l0: Loop, s: Pass)
    requires Numbered(l0.timers, l0.nextId) && Exact(w, l0, s)
    ensures var lost := Lost(w, l0.timers, l0.calls, l0.calls);
      && l0.nextId + lost <= s.loop.nextId
      && forall key | l0.nextId <= key < s.loop.nextId :: Present(s.loop.timers, key) <==> key >= l0.nextId + lost
  {
    NewbornKeys(w, l0, s.trace, CountersOf(s.loop));
    SurvivorKeys(w, l0, s.trace);
    hide Walk, Lost, Survivors, Newborns, Numbered;
    var lost := Lost(w, l0.timers, l0.calls, l0.calls);
    forall key | l0.nextId <= key < s.loop.nextId
      ensures Present(s.loop.timers, key) <==> key >= l0.nextId + lost
    {
      var i := s.loop.nextId - 1 - key;
      assert key >= l0.nextId + lost ==> i < s.added && s.loop.timers[i].key == key;
    }
  }

  // ----- runs of the event loop -----

  /** What happens to the timers: a call from outside a pass, or a pass. */
  datatype LoopEvent = Outside(op: TimerOp) | Process(back: bool)

  function LoopAfter(w: World, l: Loop, events: seq<LoopEvent>): Loop
    decreases |events|
  {
    if events == [] then l
    else
      var l' :=
        match events[0]
        case Outside(op) => ApplyOp(w, l, op)
        case Process(back) => Finish(w, Begin(Forced(l, back))).loop;
      LoopAfter(w, l', events[1..])
  }

  lemma ForcedNumbered(l: Loop, back: bool)
    requires Numbered(l.timers, l.nextId)
    ensures Numbered(Forced(l, back).timers, Forced(l, back).nextId)
  {
  }

  lemma {:induction false} LoopNumbered(w: World, l: Loop, events: seq<LoopEvent>)
    requires Numbered(l.timers, l.nextId)
    ensures var l' := LoopAfter(w, l, events); Numbered(l'.timers, l'.nextId)
    decreases |events|
  {
    hide Numbered, Finish, ApplyOp, Forced, Exact;
    if events != [] {
      match events[0] {
        case Outside(op) =>
          OpNumbered(w, l, op);
          LoopNumbered(w, ApplyOp(w, l, op), events[1..]);
        case Process(back) =>
          ForcedNumbered(l, back);
          PassIsExact(w, Forced(l, back), Finish(w, Begin(Forced(l, back))));
          LoopNumbered(w, Finish(w, Begin(Forced(l, back))).loop, events[1..]);
      }
    }
  }

  /** Every deadline has moved to the first second after the epoch, and nothing else
      has changed. */
  ghost predicate AtFirstSecond(before: Loop, after: Loop) {
    && after == before.(timers := after.timers) && |after.timers| == |before.timers|
    && forall i | 0 <= i < |after.timers| :: after.timers[i] == Timer(
         before.timers[i].key, before.timers[i].id, Time(0, before.timers[i].when.ms), before.timers[i].finalizer)
  }

  lemma ForcedExactly(l: Loop, l': Loop, back: bool)
    ensures !back ==> Forced(l, back) == l
    ensures back ==> (AtFirstSecond(l, l') <==> l' == Forced(l, back))
  {
    assert AtFirstSecond(l, l') ==> l'.timers == ForceAll(l.timers);
  }

  /** What a pass over the loop `l` comes to: on a clock that has not gone back it
      keeps its promise on the timers as they are; on one that has, on the timers
      with every deadline at the first second. */
  ghost predicate PassOver(w: World, l: Loop, back: bool, s: Pass) {
    && (!back ==> Exact(w, l, s))
    && (back ==> forall l0 | AtFirstSecond(l, l0) :: Exact(w, l0, s))
  }

  lemma ForcedPass(w: World, l: Loop, back: bool)
    requires Numbered(l.timers, l.nextId)
    ensures PassOver(w, l, back, Finish(w, Begin(Forced(l, back))))
  {
    hide Exact, Numbered, Finish, Forced;
    ForcedNumbered(l, back);
    PassIsExact(w, Forced(l, back), Finish(w, Begin(Forced(l, back))));
    ForcedExactly(l, l, back);
    forall l0 | back && AtFirstSecond(l, l0) ensures l0 == Forced(l, back) {
      ForcedExactly(l, l0, back);
    }
  }

  lemma {:induction false} LoopAfterAppend(w: World, l: Loop, events: seq<LoopEvent>, e: LoopEvent)
    ensures LoopAfter(w, l, events + [e]) == LoopAfter(w, LoopAfter(w, l, events), [e])
    decreases |events|
  {
    if events == [] {
      assert events + [e] == [e];
    } else {
      assert (events + [e])[0] == events[0] && (events + [e])[1..] == events[1..] + [e];
      LoopAfterAppend(w, LoopAfter(w, l, [events[0]]), events[1..], e);
      OneEvent(w, l, events);
      OneEvent(w, l, events + [e]);
    }
  }

  lemma OneEvent(w: World, l: Loop, events: seq<LoopEvent>)
    requires events != []
    ensures LoopAfter(w, l, events) == LoopAfter(w, LoopAfter(w, l, [events[0]]), events[1..])
  {
    assert [events[0]][1..] == [];
  }

  /** However the loop got where it is, the pass that comes next keeps its promise, on
      the timers as they are, or at the first second if the clock has gone back. */
  lemma EveryPassIsExact(w: World, events: seq<LoopEvent>, ticks: nat, calls: nat, back: bool) returns (s: Pass)
    ensures var l0 := Loop([], 0, ticks, calls);
      && s.loop == LoopAfter(w, l0, events + [Process(back)])
      && PassOver(w, LoopAfter(w, l0, events), back, s)
  {
    var l0 := Loop([], 0, ticks, calls);
    var l := LoopAfter(w, l0, events);
    LoopNumbered(w, l0, events);
    ForcedPass(w, l, back);
    LoopAfterAppend(w, l0, events, Process(back));
    s := Finish(w, Begin(Forced(l, back)));
    assert [Process(back)][1..] == [];
  }

  lemma CountersGrow(w: World, t: Timer, v: Visit)
    ensures var after := CountersAfter(w, t, v);
      && v.at.calls <= after.calls && v.at.ticks <= after.ticks
      && (!v.outcome.Removed? ==> v.at.ticks < after.ticks)
  {
    hide BornIn;
  }

  /** Where the clock stands when a timer is reached. */
  lemma {:induction false} WalkVisits(w: World, l0: Loop, trace: seq<Visit>, now: Counters, k: nat)
    requires k < |trace| <= |l0.timers| && Walk(w, l0, trace, now)
    ensures Visited(w, l0.timers[k], l0.calls, trace[k])
    ensures l0.ticks <= trace[k].at.ticks <= now.ticks
    ensures !trace[k].outcome.Removed? ==> trace[k].at.ticks < now.ticks
    ensures l0.calls <= trace[k].at.calls <= now.calls
  {
    var n := |trace| - 1;
    WalkGrows(w, l0, trace[..n], trace[n].at);
    CountersGrow(w, l0.timers[n], trace[n]);
    hide Visited, BornIn, CountersAfter;
    if k < n {
      WalkVisits(w, l0, trace[..n], trace[n].at, k);
    }
  }

  lemma {:induction false} WalkGrows(w: World, l0: Loop, trace: seq<Visit>, now: Counters)
    requires |trace| <= |l0.timers| && Walk(w, l0, trace, now)
    ensures l0.ticks <= now.ticks && l0.calls <= now.calls
  {
    hide Visited, BornIn, CountersAfter;
    if trace != [] {
      CountersGrow(w, l0.timers[|trace| - 1], trace[|trace| - 1]);
      WalkGrows(w, l0, trace[..|trace| - 1], trace[|trace| - 1].at);
    }
  }

  /** On a clock that has not gone back, a timer that is not due at any reading of the
      pass does not fire, and one that is due at all of them fires, unless it was
      deleted before it was reached. */
  lemma DueTimersFire(w: World, l: Loop, s: Pass, k: nat)
    requires PassOver(w, l, false, s) && k < |l.timers|
    ensures |s.trace| == |l.timers|
    ensures (forall n | l.ticks <= n < s.loop.ticks :: !Due(w.clock(n), l.timers[k].when))
      ==> !s.trace[k].outcome.Fired?
    ensures (forall n | l.ticks <= n < s.loop.ticks :: Due(w.clock(n), l.timers[k].when))
      ==> s.trace[k].outcome.Fired? || s.trace[k].outcome.Removed?
  {
    WalkVisits(w, l, s.trace, CountersOf(s.loop), k);
    hide Walk, Now;
  }

  /** Two deleted timers at the head, the first one's finalizer creating a timer:
      the new timer is gone after the pass. */
  lemma LostTimer(w: World)
    requires w.script(0).ops == [Create(10, false)]
    ensures var l0 := Loop([Timer(1, DELETED, Time(0, 0), true), Timer(0, DELETED, Time(0, 0), false)], 2, 0, 0);
      !Present(Finish(w, Begin(l0)).loop.timers, 2) && Finish(w, Begin(l0)).loop.nextId > 2
  {
    var t1, t0 := Timer(1, DELETED, Time(0, 0), true), Timer(0, DELETED, Time(0, 0), false);
    var l0 := Loop([t1, t0], 2, 0, 0);
    assert l0.timers[1..] == [t0];
    assert Creates(w.script(0).ops) == 1;
    assert Leads(w, l0.timers, 0, 0) && Leads(w, [t0], 0, 1);
    assert Lost(w, l0.timers, 0, 0) >= 1;
    LostExactly(w, l0);
  }
}
