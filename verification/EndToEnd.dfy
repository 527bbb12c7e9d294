/** What the proxy promises over whole runs. */
module EndToEnd {
  import opened Text
  import opened Decoder
  import opened DecoderLaws
  import opened EncodedRequests
  import opened Session
  import opened SessionLaws
  import opened ProxySystem
  import RoundTrip
  import Replies

  function Reached(env: Env, start: int, events: seq<Event>): System {
    After(env, Start(start), events)
  }

  lemma ReachedIsSound(env: Env, start: int, events: seq<Event>)
    ensures Inv(env, start, Reached(env, start, events))
  {
    StartIsSound(env, start);
    AfterKeeps(env, start, Start(start), events);
  }

  // ----- conservation -----

  /** Nothing is lost or duplicated: in every reachable state every request is in
      at most one place, and in exactly one while its session is undisturbed. */
  lemma Conservation(env: Env, start: int, events: seq<Event>, session: int, id: nat)
    requires var s := Reached(env, start, events); session in s.ctxs && id < |Log(s.conns, session)|
    ensures var s := Reached(env, start, events);
      && Places(env, s, session, id) <= 1
      && (!s.ctxs[session].eof ==> Places(env, s, session, id) == 1)
  {
    ReachedIsSound(env, start, events);
    assert ConservedAt(env, Reached(env, start, events), session, id);
  }

  // ----- order -----

  /** No task of the session is queued or in the hands of a thread. */
  ghost predicate Idle(s: System, session: int) {
    && (forall t | t in s.workers :: t.session != session)
    && (forall r | r in s.senders :: r.session != session)
    && (forall r | r in s.replying :: r.session != session)
  }

  function ResponsesTo(env: Env, s: System, session: int): Answers {
    AnswersOf(env, session, Log(s.conns, session))
  }

  /** While the session is open and no `reply` of it was non-positive, the responses
      handed to `reply` are those to its first requests, in request order and once
      each; once its tasks have drained they are all of them, and nothing waits. */
  lemma RepliesInOrder(env: Env, start: int, events: seq<Event>, session: int)
    requires var s := Reached(env, start, events); session in s.ctxs && !s.ctxs[session].eof
    ensures var s := Reached(env, start, events); var ctx, n := s.ctxs[session], |Log(s.conns, session)|;
      && 0 <= ctx.toSend <= n && ctx.wire == InOrder(ctx.toSend, ResponsesTo(env, s, session), OracleOf(env, session))
      && (Idle(s, session) ==> ctx.toSend == n && ctx.buffered == map[])
  {
    ReachedIsSound(env, start, events);
    var s := Reached(env, start, events);
    var ctx, n := s.ctxs[session], |Log(s.conns, session)|;
    assert CtxSound(env, session, ctx, Log(s.conns, session));
    assert ctx.toSend > 0 ==> Arrived(ctx, ctx.toSend - 1);
    if Idle(s, session) {
      if ctx.toSend < n {
        IdleHasArrived(env, start, s, session, ctx.toSend);
      }
      forall id ensures id !in ctx.buffered {
        assert id in ctx.buffered ==> Arrived(ctx, id);
      }
    }
  }

  lemma IdleHasArrived(env: Env, start: int, s: System, session: int, id: nat)
    requires Inv(env, start, s) && session in s.ctxs && !s.ctxs[session].eof
    requires Idle(s, session) && id < |Log(s.conns, session)|
    ensures Arrived(s.ctxs[session], id)
  {
    assert ConservedAt(env, s, session, id);
    assert Job(s.conns, session, id) !in s.workers;
    assert Answer(env, s.conns, session, id) !in s.senders && Answer(env, s.conns, session, id) !in s.replying;
  }

  /** Whatever the writes do and whenever sessions are closed: the successful
      replies of a session leave in increasing order of their requests, each
      request has at most one, and each is the response to that very request, which
      was decoded on that very session. */
  lemma RepliesNeverMixed(env: Env, start: int, events: seq<Event>, session: int)
    requires session in Reached(env, start, events).ctxs
    ensures var s := Reached(env, start, events); var wire, log := s.ctxs[session].wire, Log(s.conns, session);
      && (forall i | 0 <= i < |wire| && wire[i].Positive() ::
            0 <= wire[i].id < |log|
            && wire[i].response == env.answer(Task(session, wire[i].id, log[wire[i].id].request)))
      && (forall i, j | 0 <= i < j < |wire| && wire[i].Positive() && wire[j].Positive() :: wire[i].id < wire[j].id)
  {
    ReachedIsSound(env, start, events);
    var s := Reached(env, start, events);
    var ctx, log := s.ctxs[session], Log(s.conns, session);
    assert CtxSound(env, session, ctx, log);
    forall i | 0 <= i < |ctx.wire| && ctx.wire[i].Positive()
      ensures 0 <= ctx.wire[i].id < |log|
      ensures ctx.wire[i].response == env.answer(Task(session, ctx.wire[i].id, log[ctx.wire[i].id].request))
    {
      assert Arrived(ctx, ctx.wire[i].id);
    }
  }

  // ----- gaps -----

  /** The context of a session, also before it is made. */
  function CtxOf(s: System, session: int): Session {
    if session in s.ctxs then s.ctxs[session] else Opened
  }

  /** The event hands the session a response that is given up. */
  predicate GivesUpAt(env: Env, s: System, e: Event, session: int) {
    && e.Deliver? && e.response.session == session && Enabled(s, e)
    && GivesUp(CtxOf(s, session), e.response.id, e.response.content, OracleOf(env, session))
  }

  /** The ids of a session that are given up in a run. */
  function GivenUpIn(env: Env, s: System, events: seq<Event>, session: int): set<int>
    decreases |events|
  {
    if events == [] then {}
    else
      (if GivesUpAt(env, s, events[0], session) then {events[0].response.id} else {})
      + GivenUpIn(env, if Enabled(s, events[0]) then Apply(env, s, events[0]) else s, events[1..], session)
  }

  /** One event: deliveries to the session send what the cursor passes, everything
      else leaves its replies alone. */
  lemma EventSends(env: Env, start: int, s: System, e: Event, session: int, id: int)
    requires SystemStructure(start, s) && Enabled(s, e)
    ensures var ctx, ctx' := CtxOf(s, session), CtxOf(Apply(env, s, e), session);
      var given := GivesUpAt(env, s, e, session);
      && ctx.toSend <= ctx'.toSend && (given ==> ctx.toSend <= e.response.id < ctx'.toSend)
      && (Sent(ctx', id) <==> Sent(ctx, id) || (ctx.toSend <= id < ctx'.toSend && !(given && id == e.response.id)))
  {
    hide Sent, Insert, Feed, NewTasks, GivesUp;
    var ctx, ctx' := CtxOf(s, session), CtxOf(Apply(env, s, e), session);
    if e.Deliver? && e.response.session == session {
      var r := e.response;
      InsertSends(ctx, r.id, r.content, OracleOf(env, session), id);
      InsertGrows(ctx, r.id, r.content, OracleOf(env, session));
      InsertPasses(ctx, r.id, r.content, OracleOf(env, session));
      GivesUpAtCursor(ctx, r.id, r.content, OracleOf(env, session));
    } else {
      assert ctx'.wire == ctx.wire && ctx'.toSend == ctx.toSend;
      SameWire(ctx, ctx', id);
    }
  }

  lemma GivesUpAtCursor(s: Session, id: int, response: Bytes, oracle: Oracle)
    ensures GivesUp(s, id, response, oracle) ==> id == s.toSend
  {
  }

  lemma SameWire(s: Session, s': Session, id: int)
    requires s'.wire == s.wire
    ensures Sent(s', id) <==> Sent(s, id)
  {
  }

  lemma {:induction false} RunSends(env: Env, start: int, s: System, events: seq<Event>, session: int, id: int)
    requires Inv(env, start, s)
    ensures var ctx, ctx' := CtxOf(s, session), CtxOf(After(env, s, events), session);
      var given := GivenUpIn(env, s, events, session);
      && ctx.toSend <= ctx'.toSend && (id in given ==> ctx.toSend <= id < ctx'.toSend)
      && (Sent(ctx', id) <==> Sent(ctx, id) || (ctx.toSend <= id < ctx'.toSend && id !in given))
    decreases |events|
  {
    hide Inv, Apply, Sent, Enabled, GivesUpAt;
    if events != [] {
      NotEnabledGivesNothing(env, s, events[0], session);
      if Enabled(s, events[0]) {
        InvStructure(env, start, s);
        EventSends(env, start, s, events[0], session, id);
        StepKeeps(env, start, s, events[0]);
        RunSends(env, start, Apply(env, s, events[0]), events[1..], session, id);
      } else {
        RunSends(env, start, s, events[1..], session, id);
      }
    }
  }

  lemma InvStructure(env: Env, start: int, s: System)
    requires Inv(env, start, s)
    ensures SystemStructure(start, s)
  {
  }

  lemma NotEnabledGivesNothing(env: Env, s: System, e: Event, session: int)
    ensures GivesUpAt(env, s, e, session) ==> Enabled(s, e) && e.Deliver?
  {
  }

  /** In every reachable state, closed sessions and failed writes included: the replies
      of a session with a positive `reply` are those below its cursor that no delivery
      of the run gave up; so there is no gap among them if and only if none did. */
  lemma SessionGapFree(env: Env, start: int, events: seq<Event>, session: int)
    ensures var ctx := CtxOf(Reached(env, start, events), session);
      var given := GivenUpIn(env, Start(start), events, session);
      && (forall id :: Sent(ctx, id) <==> 0 <= id < ctx.toSend && id !in given)
      && ((forall id | 0 <= id < ctx.toSend :: Sent(ctx, id)) <==> given == {})
  {
    hide Sent, After, GivenUpIn, Inv;
    StartIsSound(env, start);
    var ctx, given := CtxOf(Reached(env, start, events), session), GivenUpIn(env, Start(start), events, session);
    forall id ensures Sent(ctx, id) <==> 0 <= id < ctx.toSend && id !in given {
      RunSends(env, start, Start(start), events, session, id);
      NothingSent(id);
    }
    forall id | id in given ensures 0 <= id < ctx.toSend {
      RunSends(env, start, Start(start), events, session, id);
    }
    assert given != {} ==> exists id :: id in given;
  }

  // ----- from request bytes to reply bytes -----

  lemma {:induction false} PrefixDispatches(unset: nat, received: Bytes, requests: seq<seq<Bytes>>) returns (k: nat)
    requires received <= EncodeAll(requests)
    requires forall i | 0 <= i < |requests| :: Transmissible(requests[i])
    ensures k <= |requests| && LogOf(Run(Fresh(unset), received, 0)) == ArgCalls(requests)[..k]
    ensures received == EncodeAll(requests) ==> k == |requests|
  {
    var all := AllElements(requests);
    EncodedPipelineWire(requests);
    AllTransmissible(requests);
    RoundTrip.PrefixExactness(Fresh(unset), all, received);
    k := RoundTrip.WholeRequests(all, |received|);
    CallsOfArgs(requests);
    CallsPrefix(all, k);
    if received == EncodeAll(requests) && k < |requests| {
      RoundTrip.PipelineWireAppend(all[..k + 1], all[k + 1..]);
      Split(all, k + 1);
    }
  }

  lemma {:induction false} ConnDispatches(env: Env, session: int, conn: Conn, requests: seq<seq<Bytes>>) returns (k: nat)
    requires ConnSound(env, session, conn) && conn.received <= EncodeAll(requests)
    requires forall i | 0 <= i < |requests| :: Transmissible(requests[i])
    ensures k <= |requests| && LogOf(conn.stream) == ArgCalls(requests)[..k] && |LogOf(conn.stream)| == k
    ensures conn.received == EncodeAll(requests) ==> k == |requests|
  {
    assert [] + conn.received == conn.received;
    k := PrefixDispatches(env.unset(session), conn.received, requests);
  }

  /** If the bytes of a session are a prefix of encoded requests, in whatever
      chunks they came, then exactly the requests wholly received have been
      dispatched, numbered from 0. */
  lemma {:induction false} DispatchedRequests(env: Env, start: int, events: seq<Event>, session: int, requests: seq<seq<Bytes>>)
    requires session in Reached(env, start, events).conns
    requires Reached(env, start, events).conns[session].received <= EncodeAll(requests)
    requires forall i | 0 <= i < |requests| :: Transmissible(requests[i])
    ensures var conn := Reached(env, start, events).conns[session]; var log := LogOf(conn.stream);
      && |log| <= |requests| && log == ArgCalls(requests)[..|log|]
      && (conn.received == EncodeAll(requests) ==> |log| == |requests|)
  {
    ReachedIsSound(env, start, events);
    var conn := Reached(env, start, events).conns[session];
    assert ConnSound(env, session, conn);
    var k := ConnDispatches(env, session, conn, requests);
  }

  lemma CallsPrefix(all: seq<seq<RoundTrip.Element>>, k: nat)
    requires k <= |all|
    ensures [] + RoundTrip.Calls(0, all[..k]) == RoundTrip.Calls(0, all)[..k]
  {
  }

  /** The bytes the kernel took from these attempts. */
  function WireBytes(wire: seq<Attempt>): Bytes
    requires forall i | 0 <= i < |wire| :: wire[i].count <= |wire[i].response|
  {
    if wire == [] then [] else wire[0].Sent() + WireBytes(wire[1..])
  }

  /** The attempts are to write these replies, in this order. */
  ghost predicate Writes(wire: seq<Attempt>, replies: seq<Replies.Reply>) {
    |wire| == |replies| && forall i | 0 <= i < |wire| ::
      && wire[i].response == Replies.ReplyWire(replies[i]) && wire[i].count <= |wire[i].response|
      && Replies.ReadableReply(replies[i])
  }

  ghost predicate AllComplete(wire: seq<Attempt>) {
    forall i | 0 <= i < |wire| :: wire[i].Complete()
  }

  /** The bytes are those of the replies exactly if every write was complete, and
      fewer if not. */
  lemma {:induction false} CompleteBytes(wire: seq<Attempt>, replies: seq<Replies.Reply>)
    requires Writes(wire, replies)
    ensures AllComplete(wire) ==> WireBytes(wire) == Replies.RepliesWire(replies)
    ensures !AllComplete(wire) ==> |WireBytes(wire)| < |Replies.RepliesWire(replies)|
  {
    if wire != [] {
      CompleteBytes(wire[1..], replies[1..]);
      assert AllComplete(wire) <==> wire[0].Complete() && AllComplete(wire[1..]);
      assert AllComplete(wire) ==> wire[0].Sent() == wire[0].response;
    }
  }

  /** A client reads exactly these replies if and only if every one of the writes
      was complete. */
  lemma ReadIfComplete(wire: seq<Attempt>, replies: seq<Replies.Reply>)
    requires Writes(wire, replies)
    ensures Replies.ReadAll(WireBytes(wire)) == Some(Replies.RepliesView(replies)) <==> AllComplete(wire)
  {
    CompleteBytes(wire, replies);
    Replies.ReadsExactly(WireBytes(wire), replies);
  }

  /** The workers answer each request with its reply. */
  ghost predicate AnsweredWith(env: Env, session: int, requests: seq<seq<Bytes>>, replies: seq<Replies.Reply>) {
    |replies| == |requests| && forall i | 0 <= i < |requests| ::
      && Replies.ReadableReply(replies[i])
      && env.answer(Task(session, i, requests[i])) == Replies.ReplyWire(replies[i])
  }

  lemma HandedOver(env: Env, s: System, session: int, requests: seq<seq<Bytes>>, replies: seq<Replies.Reply>, n: nat)
    requires var log := Log(s.conns, session); |log| <= |requests| && log == ArgCalls(requests)[..|log|] && n <= |log|
    requires AnsweredWith(env, session, requests, replies)
    ensures Writes(InOrder(n, ResponsesTo(env, s, session), OracleOf(env, session)), replies[..n])
  {
  }

  /** End to end: a client sends encoded requests, in any chunks.  Under every
      schedule, as long as the session is open and no `reply` was non-positive, the
      replies handed over are those to its first requests, in order; when all is
      sent and idle, to all of them.  The client reads exactly these replies if and
      only if the kernel took each of these writes completely. */
  lemma {:induction false} ClientSeesRepliesInOrder(
    env: Env, start: int, events: seq<Event>, session: int,
    requests: seq<seq<Bytes>>, replies: seq<Replies.Reply>)
    requires var s := Reached(env, start, events);
      && session in s.ctxs && !s.ctxs[session].eof
      && session in s.conns && s.conns[session].received <= EncodeAll(requests)
    requires forall i | 0 <= i < |requests| :: Transmissible(requests[i])
    requires AnsweredWith(env, session, requests, replies)
    ensures var s := Reached(env, start, events); var ctx := s.ctxs[session]; var k := ctx.toSend;
      && 0 <= k <= |replies| && Writes(ctx.wire, replies[..k])
      && (Replies.ReadAll(WireBytes(ctx.wire)) == Some(Replies.RepliesView(replies[..k])) <==> AllComplete(ctx.wire))
      && (s.conns[session].received == EncodeAll(requests) && Idle(s, session) ==> k == |replies|)
  {
    var s := Reached(env, start, events);
    var k := s.ctxs[session].toSend;
    RepliesInOrder(env, start, events, session);
    DispatchedRequests(env, start, events, session, requests);
    HandedOver(env, s, session, requests, replies, k);
    ReadIfComplete(s.ctxs[session].wire, replies[..k]);
  }

  /** So a write that fails, or takes only a part, costs the client a reply without
      ending the session: a first response that is not taken whole is not read. */
  lemma IncompleteWriteIsLost(answers: Answers, oracle: Oracle, reply: Replies.Reply)
    requires Replies.ReadableReply(reply) && answers(0) == Replies.ReplyWire(reply)
    requires oracle(0) < 0 || 0 < oracle(0) < |answers(0)|
    ensures var s := InsertAll(Opened, [0], answers, oracle);
      && !s.eof && s.toSend == 1 && Writes(s.wire, [reply])
      && Replies.ReadAll(WireBytes(s.wire)) != Some(Replies.RepliesView([reply]))
  {
    var a := Attempt(0, answers(0), Count(oracle(0), answers(0)));
    var s1 := Attempted(Opened, a).(toSend := 1);
    assert Replies.ReplyWire(reply) != [];
    assert Insert(Opened, 0, answers(0), oracle) == Drain(s1, oracle) == s1;
    assert s1.wire == [a] && s1.wire[0] == a && [0][1..] == [];
    ReadIfComplete(s1.wire, [reply]);
  }

  // ----- runs with failing writes -----

  lemma AfterOne(env: Env, s: System, e: Event, events: seq<Event>)
    requires Enabled(s, e)
    ensures After(env, s, [e] + events) == After(env, Apply(env, s, e), events)
  {
    assert ([e] + events)[1..] == events;
  }

  /** A client connects and sends these requests in one chunk. */
  function Sending(start: int, requests: seq<seq<Bytes>>, events: seq<Event>): seq<Event> {
    [Accept(true)] + ([Read(start + 1, EncodeAll(requests))] + events)
  }

  function FirstTask(start: int, requests: seq<seq<Bytes>>, id: nat): Task
    requires id < |requests|
  {
    Task(start + 1, id, requests[id])
  }

  function FirstResponse(env: Env, start: int, requests: seq<seq<Bytes>>, id: nat): Response
    requires id < |requests|
  {
    Response(start + 1, id, env.answer(FirstTask(start, requests, id)))
  }

  /** The state in which exactly these tasks are queued. */
  ghost predicate Queued(env: Env, start: int, s: System, requests: seq<seq<Bytes>>) {
    var session := start + 1;
    && session in s.ctxs && s.ctxs[session] == Opened && session in s.live && !s.crashed
    && s.workers == NewTasks(session, ArgCalls(requests), 0) && s.senders == multiset{} && s.replying == multiset{}
  }

  lemma ReadQueues(env: Env, s: System, session: int, unset: nat, chunk: Bytes, core: Core)
    requires Enabled(s, Read(session, chunk)) && s.conns[session].stream == Live(Fresh(unset), [])
    requires Run(Fresh(unset), chunk, 0) == Live(core, [])
    ensures var s' := Apply(env, s, Read(session, chunk));
      && s'.workers == s.workers + NewTasks(session, core.log, 0)
      && s'.ctxs == s.ctxs && s'.live == s.live && s'.senders == s.senders && s'.replying == s.replying
      && !s'.crashed
  {
    hide Run, NewTasks;
    assert [] + chunk == chunk;
  }

  ghost predicate Connected(env: Env, start: int, s: System) {
    var session := start + 1;
    && s.ctxs == map[session := Opened] && s.live == {session} && s.readable == {session} && !s.crashed
    && s.conns == map[session := Conn(Live(Fresh(env.unset(session)), []), [])]
    && s.workers == multiset{} && s.senders == multiset{} && s.replying == multiset{}
  }

  lemma FirstAccepted(env: Env, start: int)
    ensures Enabled(Start(start), Accept(true)) && Connected(env, start, Apply(env, Start(start), Accept(true)))
  {
  }

  lemma FirstRead(env: Env, start: int, s: System, requests: seq<seq<Bytes>>)
    requires Connected(env, start, s)
    requires requests != [] && forall i | 0 <= i < |requests| :: Transmissible(requests[i])
    ensures Enabled(s, Read(start + 1, EncodeAll(requests)))
    ensures Queued(env, start, Apply(env, s, Read(start + 1, EncodeAll(requests))), requests)
  {
    hide Run, Fresh, EncodeAll, Transmissible, NewTasks, ArgCalls, Feed, Apply;
    var session, chunk := start + 1, EncodeAll(requests);
    SomeBytes(requests);
    assert Enabled(s, Read(session, chunk));
    DecodedAtOnce(env.unset(session), requests);
    ReadQueues(env, s, session, env.unset(session), chunk, Core(Init, |requests|, 0, 0, [], ArgCalls(requests)));
  }

  lemma DecodedAtOnce(unset: nat, requests: seq<seq<Bytes>>)
    requires requests != [] && forall i | 0 <= i < |requests| :: Transmissible(requests[i])
    ensures Run(Fresh(unset), EncodeAll(requests), 0)
      == Live(Core(Init, |requests|, 0, 0, [], ArgCalls(requests)), [])
  {
    hide Run, Fresh, EncodeAll, Transmissible, ArgCalls;
    EncodeDecode(unset, requests);
  }

  lemma SendingQueues(env: Env, start: int, requests: seq<seq<Bytes>>, events: seq<Event>) returns (s: System)
    requires requests != [] && forall i | 0 <= i < |requests| :: Transmissible(requests[i])
    ensures After(env, Start(start), Sending(start, requests, events)) == After(env, s, events)
    ensures Queued(env, start, s, requests)
  {
    hide After, Apply, Enabled, Connected, Queued, EncodeAll, Start, Transmissible;
    var read := Read(start + 1, EncodeAll(requests));
    FirstAccepted(env, start);
    var s1 := Apply(env, Start(start), Accept(true));
    FirstRead(env, start, s1, requests);
    AfterOne(env, Start(start), Accept(true), [read] + events);
    AfterOne(env, s1, read, events);
    s := Apply(env, s1, read);
  }

  lemma SomeBytes(requests: seq<seq<Bytes>>)
    requires requests != []
    ensures EncodeAll(requests) != []
  {
  }

  /** A single request whose response is not taken whole: the session is still open,
      and the client does not get its reply. */
  lemma ReplyLostInRun(env: Env, start: int, request: seq<Bytes>, reply: Replies.Reply)
    requires Transmissible(request) && Replies.ReadableReply(reply)
    requires env.answer(Task(start + 1, 0, request)) == Replies.ReplyWire(reply)
    requires env.written(start + 1, 0) < 0 || 0 < env.written(start + 1, 0) < |Replies.ReplyWire(reply)|
    ensures var r := FirstResponse(env, start, [request], 0);
      var events := Sending(start, [request], [Work(FirstTask(start, [request], 0))] + ([Check(r)] + ([Deliver(r)] + [])));
      var s := Reached(env, start, events);
      && start + 1 in s.ctxs
      && var ctx := s.ctxs[start + 1];
         && !ctx.eof && ctx.toSend == 1 && Writes(ctx.wire, [reply])
         && Replies.ReadAll(WireBytes(ctx.wire)) != Some(Replies.RepliesView([reply]))
  {
    var r := FirstResponse(env, start, [request], 0);
    var answers := (id: int) => r.content;
    OneRequestRun(env, start, request);
    OneArrival(answers, OracleOf(env, start + 1));
    IncompleteWriteIsLost(answers, OracleOf(env, start + 1), reply);
    hide After, Insert, InsertAll, Writes, Sending, Transmissible, Replies.ReadAll, Replies.ReadableReply;
  }

  lemma OneArrival(answers: Answers, oracle: Oracle)
    ensures InsertAll(Opened, [0], answers, oracle) == Insert(Opened, 0, answers(0), oracle)
  {
    hide Insert;
    assert [0][1..] == [];
  }

  lemma OneRequestRun(env: Env, start: int, request: seq<Bytes>)
    requires Transmissible(request)
    ensures var r := FirstResponse(env, start, [request], 0);
      var events := Sending(start, [request], [Work(FirstTask(start, [request], 0))] + ([Check(r)] + ([Deliver(r)] + [])));
      var s := Reached(env, start, events);
      start + 1 in s.ctxs && s.ctxs[start + 1] == Insert(Opened, 0, r.content, OracleOf(env, start + 1))
  {
    var t, r := FirstTask(start, [request], 0), FirstResponse(env, start, [request], 0);
    var s := SendingQueues(env, start, [request], [Work(t)] + ([Check(r)] + ([Deliver(r)] + [])));
    OneNewTask(start + 1, request);
    hide After, NewTasks, Transmissible, Insert, Sending;
    OneTaskRun(env, start, s, t, r);
  }

  lemma OneNewTask(session: int, request: seq<Bytes>)
    ensures NewTasks(session, ArgCalls([request]), 0) == multiset{Task(session, 0, request)}
  {
    assert NewTasks(session, ArgCalls([request]), 1) == multiset{};
  }

  lemma OneTaskRun(env: Env, start: int, s: System, t: Task, r: Response)
    requires var session := start + 1;
      && session in s.ctxs && s.ctxs[session] == Opened && session in s.live && !s.crashed
      && s.workers == multiset{t} && s.senders == multiset{} && s.replying == multiset{}
    requires t.session == start + 1 && r == Response(t.session, t.id, env.answer(t))
    ensures var s' := After(env, s, [Work(t)] + ([Check(r)] + ([Deliver(r)] + [])));
      start + 1 in s'.ctxs && s'.ctxs[start + 1] == Insert(Opened, r.id, r.content, OracleOf(env, start + 1))
  {
    hide Insert;
    WorkStep(env, s, t);
    var s1 := Apply(env, s, Work(t));
    CheckStep(env, s1, r);
    var s2 := Apply(env, s1, Check(r));
    assert r in s2.replying;
    AfterOne(env, s, Work(t), [Check(r)] + ([Deliver(r)] + []));
    AfterOne(env, s1, Check(r), [Deliver(r)] + []);
    AfterOne(env, s2, Deliver(r), []);
  }

  /** The schedule that answers the second of two requests before the first. */
  function Swapped(t: Task, t': Task, r: Response, r': Response): seq<Event> {
    [Work(t)] + ([Work(t')] + ([Check(r')] + ([Check(r)] + ([Deliver(r')] + ([Deliver(r)] + [])))))
  }

  lemma WorkStep(env: Env, s: System, t: Task)
    requires !s.crashed && t in s.workers
    ensures Enabled(s, Work(t))
    ensures var s' := Apply(env, s, Work(t));
      && s'.ctxs == s.ctxs && s'.live == s.live && !s'.crashed && s'.replying == s.replying
      && s'.workers == s.workers - multiset{t}
      && s'.senders == s.senders + multiset{Response(t.session, t.id, env.answer(t))}
  {
  }

  lemma WorkedBoth(env: Env, s: System, t: Task, t': Task, r: Response, r': Response, events: seq<Event>) returns (s': System)
    requires !s.crashed && s.workers == multiset{t, t'} && s.senders == multiset{}
    requires r == Response(t.session, t.id, env.answer(t)) && r' == Response(t'.session, t'.id, env.answer(t'))
    ensures After(env, s, [Work(t)] + ([Work(t')] + events)) == After(env, s', events)
    ensures s'.ctxs == s.ctxs && s'.live == s.live && !s'.crashed && s'.replying == s.replying
    ensures s'.senders == multiset{r, r'}
  {
    hide After, Apply, Enabled;
    WorkStep(env, s, t);
    var s1 := Apply(env, s, Work(t));
    assert s1.workers == multiset{t'} && s1.senders == multiset{r};
    AfterOne(env, s, Work(t), [Work(t')] + events);
    WorkStep(env, s1, t');
    AfterOne(env, s1, Work(t'), events);
    s' := Apply(env, s1, Work(t'));
  }

  lemma CheckStep(env: Env, s: System, r: Response)
    requires !s.crashed && r in s.senders && r.session in s.live && r.session in s.ctxs && !s.ctxs[r.session].eof
    ensures Enabled(s, Check(r))
    ensures var s' := Apply(env, s, Check(r));
      && s'.ctxs == s.ctxs && s'.live == s.live && !s'.crashed
      && s'.senders == s.senders - multiset{r} && s'.replying == s.replying + multiset{r}
  {
  }

  lemma CheckedBoth(env: Env, s: System, r: Response, r': Response, events: seq<Event>) returns (s': System)
    requires !s.crashed && s.senders == multiset{r, r'} && s.replying == multiset{} && r.session == r'.session
    requires r.session in s.live && r.session in s.ctxs && !s.ctxs[r.session].eof
    ensures After(env, s, [Check(r')] + ([Check(r)] + events)) == After(env, s', events)
    ensures s'.ctxs == s.ctxs && !s'.crashed && s'.replying == multiset{r, r'}
  {
    hide After, Apply, Enabled;
    CheckStep(env, s, r');
    var s1 := Apply(env, s, Check(r'));
    assert s1.senders == multiset{r};
    AfterOne(env, s, Check(r'), [Check(r)] + events);
    CheckStep(env, s1, r);
    AfterOne(env, s1, Check(r), events);
    s' := Apply(env, s1, Check(r));
  }

  lemma DeliveredBoth(env: Env, s: System, r: Response, r': Response)
    requires !s.crashed && s.replying == multiset{r, r'} && r.session == r'.session && r.session in s.ctxs
    ensures var s' := After(env, s, [Deliver(r')] + ([Deliver(r)] + [])); var oracle := OracleOf(env, r.session);
      && r.session in s'.ctxs
      && s'.ctxs[r.session] == Insert(Insert(s.ctxs[r.session], r'.id, r'.content, oracle), r.id, r.content, oracle)
  {
    hide Insert;
    var s1 := Apply(env, s, Deliver(r'));
    assert s1.replying == multiset{r};
    AfterOne(env, s, Deliver(r'), [Deliver(r)] + []);
    AfterOne(env, s1, Deliver(r), []);
  }

  /** Two requests, the second one answered first, and a write that takes nothing: the
      first reply is given up, and the second one goes out. */
  lemma GapInRun(env: Env, start: int, requests: seq<seq<Bytes>>)
    requires |requests| == 2 && forall i | 0 <= i < |requests| :: Transmissible(requests[i])
    requires env.written(start + 1, 0) == 0 && env.written(start + 1, 1) != 0
    requires env.answer(FirstTask(start, requests, 0)) != []
    ensures var t, t' := FirstTask(start, requests, 0), FirstTask(start, requests, 1);
      var r, r' := FirstResponse(env, start, requests, 0), FirstResponse(env, start, requests, 1);
      var ctx := CtxOf(Reached(env, start, Sending(start, requests, Swapped(t, t', r, r'))), start + 1);
      ctx.toSend == 2 && !Sent(ctx, 0) && Sent(ctx, 1)
  {
    var t, t' := FirstTask(start, requests, 0), FirstTask(start, requests, 1);
    var r, r' := FirstResponse(env, start, requests, 0), FirstResponse(env, start, requests, 1);
    var answers := (id: int) => if id == 0 then r.content else r'.content;
    var s := SendingQueues(env, start, requests, Swapped(t, t', r, r'));
    TwoNewTasks(start + 1, requests);
    hide After, NewTasks, Transmissible, Insert, Sending, Sent;
    var deliveries := [Deliver(r')] + ([Deliver(r)] + []);
    var s1 := WorkedBoth(env, s, t, t', r, r', [Check(r')] + ([Check(r)] + deliveries));
    var s2 := CheckedBoth(env, s1, r, r', deliveries);
    DeliveredBoth(env, s2, r, r');
    TwoArrivals(answers, OracleOf(env, start + 1));
    GapAfterFailedWrite(answers, OracleOf(env, start + 1));
  }

  lemma TwoArrivals(answers: Answers, oracle: Oracle)
    ensures InsertAll(Opened, [1, 0], answers, oracle) ==
      Insert(Insert(Opened, 1, answers(1), oracle), 0, answers(0), oracle)
  {
    hide Insert;
    var s := Insert(Opened, 1, answers(1), oracle);
    assert [1, 0][1..] == [0] && [0][1..] == [];
    assert InsertAll(s, [0], answers, oracle) == Insert(s, 0, answers(0), oracle);
  }

  lemma TwoNewTasks(session: int, requests: seq<seq<Bytes>>)
    requires |requests| == 2
    ensures NewTasks(session, ArgCalls(requests), 0) == multiset{Task(session, 0, requests[0]), Task(session, 1, requests[1])}
  {
    assert NewTasks(session, ArgCalls(requests), 2) == multiset{};
    assert NewTasks(session, ArgCalls(requests), 1) == multiset{Task(session, 1, requests[1])};
  }

  // ----- draining -----

  predicate IsPoolEvent(e: Event) {
    e.Work? || e.Check? || e.Deliver?
  }

  /** Work left in the pools. */
  function Measure(s: System): nat {
    3 * |s.workers| + 2 * |s.senders| + |s.replying|
  }

  lemma TakeOne<T>(m: multiset<T>, x: T)
    requires x in m
    ensures |m - multiset{x}| == |m| - 1 && forall y :: |m + multiset{y}| == |m| + 1
  {
  }

  lemma PoolStepDecreases(env: Env, s: System, e: Event)
    requires Enabled(s, e) && IsPoolEvent(e)
    ensures Measure(Apply(env, s, e)) < Measure(s)
  {
    hide Insert;
    match e
    case Work(task) => TakeOne(s.workers, task);
    case Check(response) => TakeOne(s.senders, response);
    case Deliver(response) => TakeOne(s.replying, response);
  }

  ghost predicate AllEnabled(env: Env, s: System, events: seq<Event>)
    decreases |events|
  {
    events == [] || (Enabled(s, events[0]) && AllEnabled(env, Apply(env, s, events[0]), events[1..]))
  }

  /** However the threads are scheduled, the pools do at most `Measure` steps. */
  lemma {:induction false} PoolsStop(env: Env, s: System, events: seq<Event>)
    requires AllEnabled(env, s, events) && forall i | 0 <= i < |events| :: IsPoolEvent(events[i])
    ensures |events| + Measure(After(env, s, events)) <= Measure(s)
    decreases |events|
  {
    if events != [] {
      PoolStepDecreases(env, s, events[0]);
      PoolsStop(env, Apply(env, s, events[0]), events[1..]);
    }
  }

  /** No pool can take a step. */
  ghost predicate Stopped(s: System) {
    !s.crashed && forall e | IsPoolEvent(e) :: !Enabled(s, e)
  }

  lemma StoppedIsIdle(env: Env, s: System, session: int)
    requires Stopped(s) && PoolsSound(env, s) && s.ctxs.Keys == s.conns.Keys
    ensures Idle(s, session)
  {
    forall t ensures t !in s.workers {
      assert IsPoolEvent(Work(t)) && !Enabled(s, Work(t));
    }
    forall r ensures r !in s.senders {
      assert IsPoolEvent(Check(r)) && !Enabled(s, Check(r));
    }
    forall r ensures r !in s.replying {
      assert IsPoolEvent(Deliver(r)) && !Enabled(s, Deliver(r));
      assert r in s.replying ==> ResponseSound(env, s.conns, r);
    }
  }

  /** And where they stop, every undisturbed session has handed over all its
      replies in order: no schedule deadlocks with a response waiting. */
  lemma StoppedMeansReplied(env: Env, start: int, events: seq<Event>, session: int)
    requires var s := Reached(env, start, events);
      Stopped(s) && session in s.ctxs && !s.ctxs[session].eof
    ensures var s := Reached(env, start, events); var ctx, n := s.ctxs[session], |Log(s.conns, session)|;
      ctx.wire == InOrder(n, ResponsesTo(env, s, session), OracleOf(env, session)) && ctx.toSend == n && ctx.buffered == map[]
  {
    ReachedIsSound(env, start, events);
    StoppedIsIdle(env, Reached(env, start, events), session);
    RepliesInOrder(env, start, events, session);
  }

  // ----- isolation -----

  /** Session ids are never used again. */
  lemma FreshSession(env: Env, start: int, events: seq<Event>)
    ensures var s := Reached(env, start, events); s.counter + 1 !in s.ctxs && s.counter + 1 !in s.conns
  {
    ReachedIsSound(env, start, events);
  }

  /** The session is out of the table and no sender thread is past its check. */
  ghost predicate Erased(s: System, session: int) {
    && session in s.ctxs && session !in s.live
    && forall r | r in s.replying :: r.session != session
  }

  lemma ErasedStep(env: Env, start: int, s: System, session: int, e: Event)
    requires SystemStructure(start, s) && Erased(s, session) && Enabled(s, e)
    ensures var s' := Apply(env, s, e); Erased(s', session) && s'.ctxs[session] == s.ctxs[session]
  {
  }

  /** From then on nothing that happens changes its context. */
  lemma {:induction false} ErasedIsFrozen(env: Env, start: int, s: System, session: int, events: seq<Event>)
    requires Inv(env, start, s) && Erased(s, session)
    ensures var s' := After(env, s, events); Erased(s', session) && s'.ctxs[session] == s.ctxs[session]
    decreases |events|
  {
    if events != [] {
      if Enabled(s, events[0]) {
        StepKeeps(env, start, s, events[0]);
        ErasedStep(env, start, s, session, events[0]);
        ErasedIsFrozen(env, start, Apply(env, s, events[0]), session, events[1..]);
      } else {
        ErasedIsFrozen(env, start, s, session, events[1..]);
      }
    }
  }
}
