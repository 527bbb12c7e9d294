/** The timer part of aeEventLoop: a singly linked list changed in place, proved
    to do what TimerPass says. */
module TimerList {
  import opened Text
  import opened Clock
  import opened TimerPass
  import opened TimerLaws

  class TimeEvent {
    /** The id given at creation, which a deletion mark overwrites. */
    ghost const key: nat
    const finalizer: bool
    var id: int
    var when: Time
    var next: TimeEvent?

    ghost function View(): Timer
      reads this
    {
      Timer(key, id, when, finalizer)
    }

    constructor (id: nat, when: Time, finalizer: bool, next: TimeEvent?)
      ensures View() == Timer(id, id, when, finalizer) && this.next == next
    {
      key, this.id, this.when, this.finalizer, this.next := id, id, when, finalizer, next;
    }
  }

  ghost function Views(nodes: seq<TimeEvent>): (timers: seq<Timer>)
    reads nodes
    ensures |timers| == |nodes| && forall i | 0 <= i < |nodes| :: timers[i] == nodes[i].View()
  {
    seq(|nodes|, i requires 0 <= i < |nodes| reads nodes => nodes[i].View())
  }

  ghost function NodeAt(nodes: seq<TimeEvent>, i: nat): TimeEvent? {
    if i < |nodes| then nodes[i] else null
  }

  /** Following `next` from `head` visits exactly these nodes, all different. */
  ghost predicate Linked(head: TimeEvent?, nodes: seq<TimeEvent>)
    reads nodes
  {
    && head == NodeAt(nodes, 0)
    && (forall i {:trigger nodes[i].next} | 0 <= i < |nodes| :: nodes[i].next == NodeAt(nodes, i + 1))
    && Distinct(nodes)
  }

  ghost predicate Distinct(nodes: seq<TimeEvent>) {
    nodes != [] ==> nodes[0] !in nodes[1..] && Distinct(nodes[1..])
  }

  lemma {:induction false} DistinctAt(nodes: seq<TimeEvent>, i: nat)
    requires Distinct(nodes) && i < |nodes|
    ensures forall j | 0 <= j < |nodes| && j != i :: nodes[j] != nodes[i]
  {
    if i == 0 {
      assert forall j | 0 < j < |nodes| :: nodes[j] == nodes[1..][j - 1];
    } else {
      var rest := nodes[1..];
      DistinctAt(rest, i - 1);
      assert nodes[i] == rest[i - 1] && forall j | 0 < j < |nodes| :: nodes[j] == rest[j - 1];
    }
  }

  lemma {:induction false} DistinctSuffix(nodes: seq<TimeEvent>, k: nat)
    requires Distinct(nodes) && k <= |nodes|
    ensures Distinct(nodes[k..])
  {
    if k > 0 {
      DistinctSuffix(nodes[1..], k - 1);
      assert nodes[1..][k - 1..] == nodes[k..];
    }
  }

  lemma {:induction false} DistinctWithout(nodes: seq<TimeEvent>, at: nat)
    requires Distinct(nodes) && at < |nodes|
    ensures Distinct(nodes[..at] + nodes[at + 1..])
  {
    if at == 0 {
      assert nodes[..0] + nodes[1..] == nodes[1..];
    } else {
      var rest, less := nodes[1..], nodes[..at] + nodes[at + 1..];
      DistinctWithout(rest, at - 1);
      assert less[1..] == rest[..at - 1] + rest[at..];
    }
  }

  lemma LinkCons(te: TimeEvent, nodes: seq<TimeEvent>)
    requires Linked(te.next, nodes) && te !in nodes
    ensures Linked(te, [te] + nodes)
  {
    var all := [te] + nodes;
    assert all[1..] == nodes;
    forall i | 0 <= i < |all| ensures all[i].next == NodeAt(all, i + 1) {
      assert i > 0 ==> nodes[i - 1].next == NodeAt(nodes, i);
    }
  }

  lemma ViewsCons(te: TimeEvent, nodes: seq<TimeEvent>)
    ensures Views([te] + nodes) == [te.View()] + Views(nodes)
  {
  }

  lemma ViewsWithout(nodes: seq<TimeEvent>, at: nat)
    requires at < |nodes|
    ensures Views(nodes[..at] + nodes[at + 1..]) == Views(nodes)[..at] + Views(nodes)[at + 1..]
  {
  }

  lemma LinkSuffix(head: TimeEvent?, nodes: seq<TimeEvent>, k: nat)
    requires Linked(head, nodes) && k <= |nodes|
    ensures Linked(NodeAt(nodes, k), nodes[k..])
  {
    var rest := nodes[k..];
    DistinctSuffix(nodes, k);
    forall i | 0 <= i < |rest| ensures rest[i].next == NodeAt(rest, i + 1) {
      assert nodes[k + i].next == NodeAt(nodes, k + i + 1);
    }
  }

  /** The list is linked but for the node at `at`, which its predecessor skips. */
  lemma LinkWithout(head: TimeEvent?, all: seq<TimeEvent>, at: nat)
    requires 0 < at < |all| && head == all[0]
    requires forall i {:trigger all[i].next} | 0 <= i < |all| ::
      all[i].next == NodeAt(all, if i == at - 1 then at + 1 else i + 1)
    requires Distinct(all)
    ensures Linked(head, all[..at] + all[at + 1..])
  {
    var rest := all[..at] + all[at + 1..];
    DistinctWithout(all, at);
    hide Distinct;
    forall i | 0 <= i < |rest| ensures rest[i].next == NodeAt(rest, i + 1) {
      if i < at {
        assert rest[i] == all[i];
        assert i < at - 1 ==> rest[i + 1] == all[i + 1];
      } else {
        assert rest[i] == all[i + 1];
      }
    }
  }

  class TimerList {
    const world: World
    var timeEventHead: TimeEvent?
    var timeEventNextId: nat
    var lastTime: int
    /** How often the clock was read and a callback ran: the positions in `world`. */
    var ticks: nat
    var calls: nat
    /** The nodes from the head on, and all nodes ever made. */
    ghost var nodes: seq<TimeEvent>
    ghost var Repr: set<TimeEvent>

    ghost predicate Valid()
      reads this, Repr
    {
      (forall i | 0 <= i < |nodes| :: nodes[i] in Repr) && Linked(timeEventHead, nodes)
    }

    ghost function View(): Loop
      reads this, Repr
      requires Valid()
    {
      Loop(Views(nodes), timeEventNextId, ticks, calls)
    }

    method GetTime() returns (now: Time)
      modifies this`ticks
      ensures now == world.clock(old(ticks)) && ticks == old(ticks) + 1
    {
      now := world.clock(ticks);
      ticks := ticks + 1;
    }

    /** The new node becomes the head. */
    method Prepend(te: TimeEvent)
      requires Valid() && te !in Repr && te.next == timeEventHead
      modifies this`timeEventHead, this`nodes, this`Repr
      ensures Valid() && nodes == [te] + old(nodes) && Repr == old(Repr) + {te}
    {
      LinkCons(te, nodes);
      timeEventHead := te;
      nodes := [te] + nodes;
      Repr := Repr + {te};
    }

    method CreateTimeEvent(milliseconds: int, finalizer: bool) returns (id: nat)
      requires Valid()
      modifies this
      ensures Valid() && View() == CreateTimer(world, old(View()), milliseconds, finalizer)
      ensures id == old(timeEventNextId) && lastTime == old(lastTime)
      ensures Extends(old(nodes), nodes) && fresh(Repr - old(Repr)) && old(Repr) <= Repr
    {
      ghost var before, timers := nodes, View().timers;
      id := timeEventNextId;
      timeEventNextId := timeEventNextId + 1;
      var now := GetTime();
      var te := new TimeEvent(id, AddMilliseconds(now, milliseconds), finalizer, timeEventHead);
      Prepend(te);
      ViewsCons(te, before);
      assert Views(before) == timers;
    }

    method DeleteTimeEvent(id: int) returns (found: bool)
      requires Valid()
      modifies Repr
      ensures Valid()
      ensures View() == old(View()).(timers := Mark(old(View().timers), id))
      ensures found <==> exists i | 0 <= i < |nodes| :: old(nodes[i].id) == id
    {
      var te := timeEventHead;
      ghost var i := 0;
      ghost var timers := View().timers;
      while te != null
        invariant i <= |nodes| && te == NodeAt(nodes, i)
        invariant forall j | 0 <= j < i :: timers[j].id != id
        decreases |nodes| - i
      {
        if te.id == id {
          DistinctAt(nodes, i);
          te.id := DELETED;
          MarkFirst(timers, id, i);
          assert Views(nodes) == timers[i := timers[i].(id := DELETED)];
          return true;
        }
        te := te.next;
        i := i + 1;
      }
      MarkNone(timers, id);
      return false;
    }

    /** aeSearchNearestTimer. */
    method SearchNearestTimer() returns (nearest: TimeEvent?)
      requires Valid()
      ensures nearest == null <==> View().timers == []
      ensures nearest != null ==> IsNearest(Deadlines(View().timers), nearest.when)
      ensures nearest != null ==>
        exists at: nat | at < |nodes| :: nodes[at] == nearest && FirstNearest(Deadlines(View().timers), at)
    {
      var te := timeEventHead;
      nearest := null;
      ghost var i, at, whens := 0, 0, Deadlines(View().timers);
      while te != null
        invariant i <= |nodes| && te == NodeAt(nodes, i)
        invariant nearest == null <==> i == 0
        invariant nearest != null ==> at < i && nearest == nodes[at] && FirstNearest(whens[..i], at)
        decreases |nodes| - i
      {
        NextNearest(whens, i, at);
        if nearest == null || Before(te.when, nearest.when) {
          nearest := te;
          at := i;
        }
        te := te.next;
        i := i + 1;
      }
      assert whens[..i] == whens;
    }

    /** The timeout part of aeProcessEvents, through to the milliseconds aeApiPoll
        passes to the kernel; a negative one means to wait for ever. */
    method PollTimeout(timeEvents: bool, dontWait: bool) returns (timeout: int)
      requires Valid()
      modifies this`ticks
      ensures Valid() && View().timers == old(View().timers)
      ensures timeEvents && !dontWait && View().timers != [] ==>
        exists nearest: Time ::
          && IsNearest(Deadlines(View().timers), nearest)
          && timeout == ToInt(Ahead(world.clock(old(ticks)), nearest))
      ensures !(timeEvents && !dontWait && View().timers != []) ==> timeout == if dontWait then 0 else -1
    {
      hide IsNearest, WaitFor, PollMillis, ToInt, Ahead;
      var nearest: TimeEvent? := null;
      if timeEvents && !dontWait {
        nearest := SearchNearestTimer();
      }
      if nearest != null {
        var now := GetTime();
        WaitIsExact(now, nearest.when);
        assert Views(nodes) == old(View()).timers;
        timeout := PollMillis(WaitFor(now, nearest.when));
      } else {
        timeout := if dontWait then 0 else -1;
      }
    }

    method RunOp(op: TimerOp)
      requires Valid()
      modifies this, Repr
      ensures Valid() && View() == ApplyOp(world, old(View()), op) && lastTime == old(lastTime)
      ensures Extends(old(nodes), nodes) && fresh(Repr - old(Repr)) && old(Repr) <= Repr
    {
      hide CreateTimer, Mark;
      match op {
        case Create(milliseconds, finalizer) =>
          var _ := CreateTimeEvent(milliseconds, finalizer);
        case Delete(id) =>
          var _ := DeleteTimeEvent(id);
      }
    }

    method RunOps(ops: seq<TimerOp>)
      requires Valid()
      modifies this, Repr
      ensures Valid() && View() == ApplyOps(world, old(View()), ops) && lastTime == old(lastTime)
      ensures Extends(old(nodes), nodes) && fresh(Repr - old(Repr)) && old(Repr) <= Repr
      decreases |ops|
    {
      if ops != [] {
        RunOp(ops[0]);
        ghost var between := nodes;
        RunOps(ops[1..]);
        ExtendsTransitive(old(nodes), between, nodes);
      }
    }

    /** A callback: what it does to the loop, and what it returns, are `world`'s. */
    method RunCallback() returns (ret: int)
      requires Valid()
      modifies this, Repr
      ensures Valid() && View() == Call(world, old(View())) && ret == world.script(old(calls)).ret
      ensures Extends(old(nodes), nodes) && fresh(Repr - old(Repr)) && old(Repr) <= Repr
      ensures lastTime == old(lastTime)
    {
      var script := world.script(calls);
      RunOps(script.ops);
      calls := calls + 1;
      return script.ret;
    }

    method DropHead(te: TimeEvent, ghost at: nat)
      requires Valid() && at < |nodes| && te == nodes[at]
      modifies this`timeEventHead, this`nodes
      ensures Valid() && nodes == old(nodes)[at + 1..]
      ensures View() == old(View()).(timers := old(View()).timers[at + 1..])
    {
      LinkSuffix(timeEventHead, nodes, at + 1);
      assert te.next == NodeAt(nodes, at + 1);
      timeEventHead := te.next;
      nodes := nodes[at + 1..];
    }

    method DropNext(prev: TimeEvent, te: TimeEvent, ghost at: nat)
      requires Valid() && 0 < at < |nodes| && prev == nodes[at - 1] && te == nodes[at]
      modifies this`nodes, prev`next
      ensures Valid() && nodes == old(nodes)[..at] + old(nodes)[at + 1..]
      ensures View() == old(View()).(timers := old(View()).timers[..at] + old(View()).timers[at + 1..])
    {
      ghost var all := nodes;
      assert te.next == NodeAt(all, at + 1);
      DistinctAt(all, at - 1);
      hide Distinct;
      SetNext(prev, te.next, all, at);
      LinkWithout(timeEventHead, all, at);
      ViewsWithout(all, at);
      hide Views, NodeAt, Linked;
      nodes := all[..at] + all[at + 1..];
    }

    method SetNext(prev: TimeEvent, next: TimeEvent?, ghost all: seq<TimeEvent>, ghost at: nat)
      requires Linked(timeEventHead, all) && 0 < at < |all| && prev == all[at - 1] && next == NodeAt(all, at + 1)
      requires forall i | 0 <= i < |all| && i != at - 1 :: all[i] != prev
      modifies prev`next
      ensures Views(all) == old(Views(all))
      ensures forall i {:trigger all[i].next} | 0 <= i < |all| ::
        all[i].next == NodeAt(all, if i == at - 1 then at + 1 else i + 1)
    {
      hide Distinct;
      assert forall i {:trigger all[i].next} | 0 <= i < |all| :: all[i].next == NodeAt(all, i + 1);
      prev.next := next;
    }

    /** The block of processTimeEvents that takes a node out of the list. */
    method UnlinkNode(prev: TimeEvent?, te: TimeEvent, ghost s: Pass)
      requires Valid() && s.loop == View() && InRange(s) && s.at < |nodes| && te == nodes[s.at]
      requires prev == if s.at == s.added then null else nodes[s.at - 1]
      modifies this`timeEventHead, this`nodes, prev
      ensures Valid() && View() == Unlink(s).loop && Repr == old(Repr)
      ensures nodes == Without(old(nodes), s)
    {
      if prev == null {
        DropHead(te, s.at);
      } else {
        DropNext(prev, te, s.at);
      }
    }

    /** The block that unlinks a deleted timer and runs its finalizer. */
    method RemoveNode(prev: TimeEvent?, te: TimeEvent, ghost s: Pass)
      requires Valid() && s.loop == View() && InRange(s) && s.at < |nodes| && te == nodes[s.at]
      requires prev == if s.at == s.added then null else nodes[s.at - 1]
      modifies this, Repr
      ensures Valid() && View() == Removal(world, s).loop && lastTime == old(lastTime)
      ensures fresh(Repr - old(Repr)) && old(Repr) <= Repr
      ensures Extends(Without(old(nodes), s), nodes)
    {
      UnlinkNode(prev, te, s);
      if te.finalizer {
        var _ := RunCallback();
      }
    }

    /** The block that gives a timer that fired its next deadline, or a mark. */
    method RearmNode(te: TimeEvent, ret: int, ghost at: nat)
      requires Valid() && at < |nodes| && te == nodes[at]
      modifies this`ticks, te
      ensures Valid() && View() == Rearm(world, old(View()), at, ret)
    {
      ghost var timers := View().timers;
      DistinctAt(nodes, at);
      if ret != NOMORE {
        var now := GetTime();
        te.when := AddMilliseconds(now, ret);
      } else {
        te.id := DELETED;
      }
      assert Views(nodes) == timers[at := te.View()];
    }

    /** The block that runs the callback of a timer that is due. */
    method FireNode(te: TimeEvent, ghost s: Pass)
      requires Valid() && s.loop == View() && InRange(s) && s.at < |nodes| && te == nodes[s.at]
      modifies this, Repr
      ensures Valid() && View() == Firing(world, s).loop && lastTime == old(lastTime)
      ensures fresh(Repr - old(Repr)) && old(Repr) <= Repr
      ensures Extends(old(nodes), nodes)
    {
      FiringIs(world, s);
      hide Rearm, Call, Called, Firing;
      ghost var before := nodes;
      var ret := RunCallback();
      ExtendsAt(before, nodes, s.at, Called(world, s).at);
      RearmNode(te, ret, Called(world, s).at);
    }

    /** A clock that went back: every deadline is moved to the first second. */
    method ForceTimers()
      requires Valid()
      modifies Repr
      ensures Valid() && View() == old(View()).(timers := ForceAll(old(View().timers)))
    {
      var te := timeEventHead;
      ghost var i, timers := 0, View().timers;
      while te != null
        invariant i <= |nodes| && te == NodeAt(nodes, i) && Valid()
        invariant forall j | 0 <= j < i :: nodes[j].View() == timers[j].(when := Time(0, timers[j].when.ms))
        invariant forall j | i <= j < |nodes| :: nodes[j].View() == timers[j]
        decreases |nodes| - i
      {
        DistinctAt(nodes, i);
        te.when := te.when.(sec := 0);
        te := te.next;
        i := i + 1;
      }
    }

    /** The body of the loop of processTimeEvents. */
    method VisitNode(prev: TimeEvent?, te: TimeEvent, maxId: int, ghost s: Pass)
      returns (prev': TimeEvent?, te': TimeEvent?, fired: bool)
      requires Valid() && s.loop == View() && InRange(s) && s.at < |nodes| && te == nodes[s.at]
      requires prev == Previous(nodes, s)
      requires te.id <= maxId
      modifies this, Repr
      ensures Valid() && View() == Step(world, s).loop && lastTime == old(lastTime)
      ensures fresh(Repr - old(Repr)) && old(Repr) <= Repr
      ensures te' == NodeAt(nodes, Step(world, s).at) && prev' == Previous(nodes, Step(world, s))
      ensures Firings(Step(world, s).trace) == Firings(s.trace) + if fired then 1 else 0
    {
      hide Step, Removal, Without, Distinct;
      ghost var before := nodes;
      fired := false;
      if te.id == DELETED {
        assert te.next == NodeAt(nodes, s.at + 1);
        prev', te' := prev, te.next;
        RemoveNode(prev, te, s);
        RemovedAt(world, s, before, nodes);
      } else if te.id > maxId {
        assert false;
      } else {
        fired := FireIfDue(te, s);
        KeptAt(world, s, before, nodes);
        prev', te' := te, te.next;
      }
    }

    method FireIfDue(te: TimeEvent, ghost s: Pass) returns (fired: bool)
      requires Valid() && s.loop == View() && InRange(s) && s.at < |nodes| && te == nodes[s.at]
      requires te.id != DELETED
      modifies this, Repr
      ensures Valid() && View() == Step(world, s).loop && lastTime == old(lastTime)
      ensures fresh(Repr - old(Repr)) && old(Repr) <= Repr
      ensures Extends(old(nodes), nodes)
      ensures fired <==> Due(world.clock(s.loop.ticks), s.loop.timers[s.at].when)
    {
      StepIs(world, s);
      hide Step, Firing, Due;
      var now := GetTime();
      assert Views(nodes) == s.loop.timers;
      fired := Due(now, te.when);
      if fired {
        FireNode(te, Ticked(s));
      }
    }

    /** `s` is the pass: what became of each timer.  The deadlines are moved exactly if
        the clock shows less than when the last pass began. */
    method ProcessTimeEvents(now: int) returns (processed: nat, ghost s: Pass)
      requires Valid() && Numbered(View().timers, View().nextId)
      modifies this, Repr
      ensures Valid() && lastTime == now && View() == s.loop
      ensures PassOver(world, old(View()), now < old(lastTime), s)
      ensures processed == |set k | 0 <= k < |s.trace| && s.trace[k].outcome.Fired?|
    {
      hide Finish, NothingNewer, Numbered, ForceAll, Firings, PassOver;
      ForcedPass(world, View(), now < lastTime);
      ForcedNumbered(View(), now < lastTime);
      if now < lastTime {
        ForceTimers();
      }
      lastTime := now;
      NothingIsNewer(world, View());
      s := Finish(world, Begin(View()));
      processed := RunTimers();
      FiringsCount(s.trace);
    }

    /** The main loop of processTimeEvents. */
    method RunTimers() returns (processed: nat)
      requires Valid() && NothingNewer(world, View())
      modifies this, Repr
      ensures Valid() && lastTime == old(lastTime)
      ensures var s := Finish(world, Begin(old(View()))); View() == s.loop && processed == Firings(s.trace)
    {
      hide Step;
      ghost var l0 := View();
      ghost var s := Begin(l0);
      ghost var n := 0;
      var prev: TimeEvent? := null;
      var te := timeEventHead;
      var maxId := timeEventNextId - 1;
      processed := 0;
      while te != null
        invariant Valid() && lastTime == old(lastTime) && fresh(Repr - old(Repr))
        invariant s.loop == View() && n <= |l0.timers| && s == Steps(world, l0, n)
        invariant te == NodeAt(nodes, s.at) && prev == Previous(nodes, s)
        invariant processed == Firings(s.trace)
        decreases |l0.timers| - n
      {
        StepsNext(world, l0, n);
        var fired;
        prev, te, fired := VisitNode(prev, te, maxId, s);
        processed := processed + if fired then 1 else 0;
        s, n := Steps(world, l0, n + 1), n + 1;
      }
      StepsFinish(world, l0, n);
    }
  }

  ghost function Without(nodes: seq<TimeEvent>, s: Pass): seq<TimeEvent>
    requires s.at < |nodes|
  {
    if s.at == s.added then nodes[s.at + 1..] else nodes[..s.at] + nodes[s.at + 1..]
  }

  function Removal(w: World, s: Pass): Pass
    requires InRange(s) && s.at < |s.loop.timers|
  {
    if s.loop.timers[s.at].finalizer then Called(w, Unlink(s)) else Unlink(s)
  }

  /** No deadline comes before this one, and those in front of it all come later. */
  ghost predicate FirstNearest(whens: seq<Time>, at: nat) {
    && at < |whens| && (forall i | 0 <= i < |whens| :: !Before(whens[i], whens[at]))
    && forall i | 0 <= i < at :: Before(whens[at], whens[i])
  }

  lemma NextNearest(whens: seq<Time>, i: nat, at: nat)
    requires i < |whens| && (i == 0 || FirstNearest(whens[..i], at))
    ensures FirstNearest(whens[..i + 1], if i == 0 || Before(whens[i], whens[at]) then i else at)
  {
    Split(whens, i);
    var before, all := whens[..i], whens[..i + 1];
    if i > 0 {
      assert before[at] == whens[at] && all[at] == whens[at] && all[i] == whens[i];
      forall j | 0 <= j < |all|
        ensures !Before(all[j], if Before(whens[i], whens[at]) then whens[i] else whens[at])
      {
        assert j < i ==> all[j] == before[j];
      }
    }
  }

  /** New nodes were prepended. */
  ghost predicate Extends(before: seq<TimeEvent>, after: seq<TimeEvent>) {
    |after| >= |before| && after[|after| - |before|..] == before
  }

  lemma ExtendsTransitive(a: seq<TimeEvent>, b: seq<TimeEvent>, c: seq<TimeEvent>)
    requires Extends(a, b) && Extends(b, c)
    ensures Extends(a, c)
  {
  }

  lemma {:induction false} MarkFirst(timers: seq<Timer>, id: int, i: nat)
    requires i < |timers| && timers[i].id == id && forall j | 0 <= j < i :: timers[j].id != id
    ensures Mark(timers, id) == timers[i := timers[i].(id := DELETED)]
  {
    if i > 0 {
      MarkFirst(timers[1..], id, i - 1);
    }
  }

  lemma {:induction false} MarkNone(timers: seq<Timer>, id: int)
    requires forall j | 0 <= j < |timers| :: timers[j].id != id
    ensures Mark(timers, id) == timers
  {
    if timers != [] {
      MarkNone(timers[1..], id);
    }
  }

  // ----- the steps of TimerPass, for a loop over nodes -----

  ghost function Previous(nodes: seq<TimeEvent>, s: Pass): TimeEvent?
    requires s.added <= s.at <= |nodes|
  {
    if s.at == s.added then null else nodes[s.at - 1]
  }

  function Ticked(s: Pass): Pass {
    s.(loop := s.loop.(ticks := s.loop.ticks + 1))
  }

  /** The pass after the callback of the timer at `at` and its rearming. */
  function Firing(w: World, s: Pass): (s': Pass)
    requires InRange(s) && s.at < |s.loop.timers|
    ensures InRange(s')
  {
    var s1 := Called(w, s);
    s1.(loop := Rearm(w, s1.loop, s1.at, w.script(s.loop.calls).ret))
  }

  function Firings(trace: seq<Visit>): nat {
    if trace == [] then 0
    else Firings(trace[..|trace| - 1]) + if trace[|trace| - 1].outcome.Fired? then 1 else 0
  }

  lemma FiringIs(w: World, s: Pass)
    requires InRange(s) && s.at < |s.loop.timers|
    ensures var c := Called(w, s);
      && c.loop == Call(w, s.loop) && c.at - s.at == |c.loop.timers| - |s.loop.timers|
      && Firing(w, s).loop == Rearm(w, c.loop, c.at, w.script(s.loop.calls).ret)
  {
  }

  /** How many of the visits ended in a firing. */
  lemma {:induction false} FiringsCount(trace: seq<Visit>)
    ensures Firings(trace) == |set k | 0 <= k < |trace| && trace[k].outcome.Fired?|
  {
    if trace != [] {
      var n := |trace| - 1;
      var front := trace[..n];
      FiringsCount(front);
      var before := set k | 0 <= k < |front| && front[k].outcome.Fired?;
      var all := set k | 0 <= k < |trace| && trace[k].outcome.Fired?;
      assert all == before + if trace[n].outcome.Fired? then {n} else {};
    }
  }

  lemma ExtendsAt(before: seq<TimeEvent>, after: seq<TimeEvent>, at: nat, at': nat)
    requires Extends(before, after) && at' - at == |after| - |before|
    ensures NodeAt(after, at') == NodeAt(before, at)
  {
  }

  lemma RemovedAt(w: World, s: Pass, before: seq<TimeEvent>, after: seq<TimeEvent>)
    requires InRange(s) && |before| == |s.loop.timers| && s.at < |before| && s.loop.timers[s.at].id == DELETED
    requires Extends(Without(before, s), after) && |after| == |Removal(w, s).loop.timers|
    ensures Step(w, s).loop == Removal(w, s).loop
    ensures NodeAt(after, Step(w, s).at) == NodeAt(before, s.at + 1)
    ensures Previous(after, Step(w, s)) == Previous(before, s)
    ensures Firings(Step(w, s).trace) == Firings(s.trace)
  {
    assert Step(w, s).trace[..|s.trace|] == s.trace;
    var s', rest := Removal(w, s), Without(before, s);
    ExtendsAt(rest, after, Unlink(s).at, s'.at);
    if s.at > s.added {
      ExtendsAt(rest, after, s.at - 1, s'.at - 1);
    }
  }

  lemma StepIs(w: World, s: Pass)
    requires InRange(s) && s.at < |s.loop.timers| && s.loop.timers[s.at].id != DELETED
    ensures Step(w, s).loop ==
      if Due(w.clock(s.loop.ticks), s.loop.timers[s.at].when) then Firing(w, Ticked(s)).loop else Ticked(s).loop
  {
  }

  lemma KeptAt(w: World, s: Pass, before: seq<TimeEvent>, after: seq<TimeEvent>)
    requires InRange(s) && |before| == |s.loop.timers| && s.at < |before| && s.loop.timers[s.at].id != DELETED
    requires Extends(before, after) && |after| == |Step(w, s).loop.timers|
    ensures Step(w, s).at > Step(w, s).added && after[Step(w, s).at - 1] == before[s.at]
    ensures Firings(Step(w, s).trace) == Firings(s.trace) +
      if Due(w.clock(s.loop.ticks), s.loop.timers[s.at].when) then 1 else 0
  {
    assert Step(w, s).trace[..|s.trace|] == s.trace;
    ExtendsAt(before, after, s.at, Step(w, s).at - 1);
  }

  /** The pass over `l` after n visits. */
  function Steps(w: World, l: Loop, n: nat): (s: Pass)
    requires n <= |l.timers|
    ensures InRange(s) && |s.loop.timers| - s.at == |l.timers| - n && |s.trace| == n
  {
    if n == 0 then Begin(l) else Step(w, Steps(w, l, n - 1))
  }

  lemma StepsNext(w: World, l: Loop, n: nat)
    requires n < |l.timers|
    ensures Steps(w, l, n + 1) == Step(w, Steps(w, l, n))
  {
  }

  lemma {:induction false} StepsFinish(w: World, l: Loop, n: nat)
    requires n <= |l.timers|
    ensures Finish(w, Steps(w, l, n)) == Finish(w, Begin(l))
  {
    hide Step;
    if n > 0 {
      StepsFinish(w, l, n - 1);
    }
  }

  lemma {:induction false} StepsHold(w: World, l: Loop, n: nat)
    requires n <= |l.timers| && Numbered(l.timers, l.nextId)
    ensures PassHolds(w, l, Steps(w, l, n))
  {
    hide Step, PassHolds;
    if n == 0 {
      BeginHolds(w, l);
    } else {
      StepsHold(w, l, n - 1);
      StepHolds(w, l, Steps(w, l, n - 1));
    }
  }

  /** The pass reaches only timers that were there when it began, so the source's
      test for newer ones never succeeds. */
  ghost predicate NothingNewer(w: World, l: Loop) {
    forall n | 0 <= n < |l.timers| :: NotNewer(l, Steps(w, l, n))
  }

  predicate NotNewer(l: Loop, s: Pass) {
    s.at < |s.loop.timers| && s.loop.timers[s.at].id < l.nextId
  }

  lemma NothingIsNewer(w: World, l: Loop)
    requires Numbered(l.timers, l.nextId)
    ensures NothingNewer(w, l)
  {
    forall n | 0 <= n < |l.timers| ensures NotNewer(l, Steps(w, l, n)) {
      StepsHold(w, l, n);
      NextTimer(w, l, Steps(w, l, n));
      hide PassHolds, Steps;
    }
  }
}
