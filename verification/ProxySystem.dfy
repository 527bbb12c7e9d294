/** The running proxy of src/proxy/main.cc as a state machine: the event loop
    thread reads and closes connections, worker threads compute responses, and
    sender threads hand them to the session contexts, in any interleaving. */
module ProxySystem {
  import opened Text
  import opened Decoder
  import opened DecoderLaws
  import opened Session
  import opened SessionLaws

  /** An element of `pThreadPool`'s queue. */
  datatype Task = Task(session: int, id: nat, request: seq<Bytes>)

  /** An element of `pSenderThreadPool`'s queue. */
  datatype Response = Response(session: int, id: nat, content: Bytes)

  /** What the model does not determine: the response a worker computes for a
      task, what the kernel makes of each write on a session, and the bytes of an
      uninitialised field. */
  datatype Env = Env(answer: Task -> Bytes, written: (int, nat) -> int, unset: int -> nat)

  /** The responses to the requests a session has decoded. */
  function AnswersOf(env: Env, session: int, log: seq<Dispatch>): Answers {
    (id: int) => if 0 <= id < |log| then env.answer(Task(session, id, log[id].request)) else []
  }

  function OracleOf(env: Env, session: int): Oracle {
    (n: nat) => env.written(session, n)
  }

  /** A decode context and the bytes it has been given. */
  datatype Conn = Conn(stream: Stream, received: Bytes)

  datatype System = System(
    /** The session counter, and the sessions ever made: their contexts and
        their decode contexts. */
    counter: int,
    ctxs: map<int, Session>,
    conns: map<int, Conn>,
    /** The sessions in `ctx_map`, and those with a read event. */
    live: set<int>,
    readable: set<int>,
    /** The two queues, and the sender tasks that passed their check and are
        about to call `insert_new_response`. */
    workers: multiset<Task>,
    senders: multiset<Response>,
    replying: multiset<Response>,
    /** An exception left the event loop. */
    crashed: bool)

  function Start(counter: int): System {
    System(counter, map[], map[], {}, {}, multiset{}, multiset{}, multiset{}, false)
  }

  type Ctxs = map<int, Session>
  type Conns = map<int, Conn>

  /** The handler calls made for a session. */
  function Log(conns: Conns, session: int): seq<Dispatch> {
    if session in conns then LogOf(conns[session].stream) else []
  }

  datatype Event =
    | Accept(registered: bool)
    | Read(session: int, chunk: Bytes)
    | Close(session: int)
    | Work(task: Task)
    | Check(response: Response)
    | Deliver(response: Response)

  predicate Enabled(s: System, e: Event) {
    !s.crashed &&
    match e
    case Accept(_) => true
    case Read(session, chunk) =>
      session in s.readable && session in s.conns && session in s.ctxs && chunk != []
    case Close(session) => session in s.readable && session in s.ctxs
    case Work(task) => task in s.workers
    case Check(response) => response in s.senders
    case Deliver(response) => response in s.replying && response.session in s.ctxs
  }

  /** The tasks for the handler calls from number `first` on. */
  function NewTasks(session: int, log: seq<Dispatch>, first: nat): multiset<Task>
    decreases |log| - first
  {
    if first >= |log| then multiset{}
    else multiset{Task(session, log[first].id, log[first].request)} + NewTasks(session, log, first + 1)
  }

  function Apply(env: Env, s: System, e: Event): System
    requires Enabled(s, e)
  {
    match e
    case Accept(registered) =>
      var session := s.counter + 1;
      s.(counter := session,
         ctxs := s.ctxs[session := Opened],
         conns := s.conns[session := Conn(Live(Fresh(env.unset(session)), []), [])],
         live := s.live + {session},
         readable := if registered then s.readable + {session} else s.readable)
    case Read(session, chunk) =>
      var conn := s.conns[session];
      var stream := Feed(conn.stream, chunk);
      s.(conns := s.conns[session := Conn(stream, conn.received + chunk)],
         workers := s.workers + NewTasks(session, LogOf(stream), |LogOf(conn.stream)|),
         crashed := stream.Threw?)
    case Close(session) =>
      s.(readable := s.readable - {session},
         live := s.live - {session},
         ctxs := if session in s.live then s.ctxs[session := s.ctxs[session].(eof := true)] else s.ctxs)
    case Work(task) =>
      s.(workers := s.workers - multiset{task},
         senders := s.senders + multiset{Response(task.session, task.id, env.answer(task))})
    case Check(response) =>
      var session := response.session;
      s.(senders := s.senders - multiset{response},
         replying := if session in s.live && session in s.ctxs && !s.ctxs[session].eof
                     then s.replying + multiset{response} else s.replying)
    case Deliver(response) =>
      var session := response.session;
      s.(replying := s.replying - multiset{response},
         ctxs := s.ctxs[session :=
           Insert(s.ctxs[session], response.id, response.content, OracleOf(env, session))])
  }

  /** A run; events that are not enabled when their turn comes do not happen. */
  function After(env: Env, s: System, events: seq<Event>): System
    decreases |events|
  {
    if events == [] then s
    else After(env, if Enabled(s, events[0]) then Apply(env, s, events[0]) else s, events[1..])
  }

  // ----- the invariant -----

  function Job(conns: Conns, session: int, id: nat): Task
    requires id < |Log(conns, session)|
  {
    Task(session, id, Log(conns, session)[id].request)
  }

  function Answer(env: Env, conns: Conns, session: int, id: nat): Response
    requires id < |Log(conns, session)|
  {
    Response(session, id, env.answer(Job(conns, session, id)))
  }

  /** In how many places the `id`-th request of a session is: the worker queue,
      the sender queue, a sender thread, or the session context, which holds it
      as sent or waiting. */
  function Places(env: Env, s: System, session: int, id: nat): nat
    requires session in s.ctxs && id < |Log(s.conns, session)|
  {
    s.workers[Job(s.conns, session, id)]
    + s.senders[Answer(env, s.conns, session, id)] + s.replying[Answer(env, s.conns, session, id)]
    + if Arrived(s.ctxs[session], id) then 1 else 0
  }

  ghost predicate Structure(start: int, counter: int, ctxs: Ctxs, conns: Conns, live: set<int>, readable: set<int>) {
    && start <= counter && ctxs.Keys == conns.Keys && live <= ctxs.Keys && readable <= live
    && (forall session | session in ctxs :: start < session <= counter)
    && (forall session | session in ctxs && !ctxs[session].eof :: session in live)
  }

  /** Each decoder is where all its bytes, fed at once, would have led it. */
  ghost predicate ConnSound(env: Env, session: int, conn: Conn) {
    && conn.stream == Feed(Live(Fresh(env.unset(session)), []), conn.received)
    && GoodStream(conn.stream)
  }

  ghost predicate ConnsSound(env: Env, conns: Conns) {
    forall session | session in conns :: ConnSound(env, session, conns[session])
  }

  /** A context only knows responses to the requests of its own session. */
  ghost predicate CtxSound(env: Env, session: int, ctx: Session, log: seq<Dispatch>) {
    && Sound(ctx, AnswersOf(env, session, log), OracleOf(env, session))
    && forall id | Arrived(ctx, id) :: 0 <= id < |log|
  }

  ghost predicate CtxsSound(env: Env, ctxs: Ctxs, conns: Conns) {
    forall session | session in ctxs :: CtxSound(env, session, ctxs[session], Log(conns, session))
  }

  ghost predicate TaskSound(conns: Conns, t: Task) {
    t.id < |Log(conns, t.session)| && t == Job(conns, t.session, t.id)
  }

  ghost predicate ResponseSound(env: Env, conns: Conns, r: Response) {
    r.id < |Log(conns, r.session)| && r == Answer(env, conns, r.session, r.id)
  }

  ghost predicate TasksSound(conns: Conns, tasks: multiset<Task>) {
    forall t | t in tasks :: TaskSound(conns, t)
  }

  ghost predicate ResponsesSound(env: Env, conns: Conns, responses: multiset<Response>) {
    forall r | r in responses :: ResponseSound(env, conns, r)
  }

  /** The request is in at most one place, and in exactly one as long as its
      session has seen no failed write and no close. */
  ghost predicate ConservedAt(env: Env, s: System, session: int, id: nat) {
    session in s.ctxs && id < |Log(s.conns, session)| ==>
      && Places(env, s, session, id) <= 1
      && (!s.ctxs[session].eof ==> Places(env, s, session, id) == 1)
  }

  ghost predicate Conserved(env: Env, s: System) {
    forall session, id: nat :: ConservedAt(env, s, session, id)
  }

  ghost predicate SystemStructure(start: int, s: System) {
    Structure(start, s.counter, s.ctxs, s.conns, s.live, s.readable)
  }

  ghost predicate PoolsSound(env: Env, s: System) {
    && TasksSound(s.conns, s.workers)
    && ResponsesSound(env, s.conns, s.senders) && ResponsesSound(env, s.conns, s.replying)
  }

  ghost predicate Inv(env: Env, start: int, s: System) {
    && SystemStructure(start, s) && ConnsSound(env, s.conns) && CtxsSound(env, s.ctxs, s.conns)
    && PoolsSound(env, s) && Conserved(env, s)
  }

  // ----- each step keeps it -----

  /** Decoding more bytes extends the logs. */
  ghost predicate Grows(conns: Conns, conns': Conns) {
    forall session :: Log(conns, session) <= Log(conns', session)
  }

  lemma TasksGrow(conns: Conns, conns': Conns, tasks: multiset<Task>)
    requires Grows(conns, conns') && TasksSound(conns, tasks)
    ensures TasksSound(conns', tasks)
  {
    forall t | t in tasks ensures TaskSound(conns', t) {
      assert TaskSound(conns, t) && Log(conns, t.session) <= Log(conns', t.session);
    }
  }

  lemma ResponsesGrow(env: Env, conns: Conns, conns': Conns, responses: multiset<Response>)
    requires Grows(conns, conns') && ResponsesSound(env, conns, responses)
    ensures ResponsesSound(env, conns', responses)
  {
    forall r | r in responses ensures ResponseSound(env, conns', r) {
      assert ResponseSound(env, conns, r) && Log(conns, r.session) <= Log(conns', r.session);
    }
  }

  lemma CtxGrows(env: Env, session: int, ctx: Session, log: seq<Dispatch>, log': seq<Dispatch>)
    requires CtxSound(env, session, ctx, log) && log <= log'
    ensures CtxSound(env, session, ctx, log')
  {
    SoundAgrees(ctx, AnswersOf(env, session, log), AnswersOf(env, session, log'), OracleOf(env, session));
  }

  lemma CtxsGrow(env: Env, ctxs: Ctxs, conns: Conns, conns': Conns)
    requires CtxsSound(env, ctxs, conns) && Grows(conns, conns')
    ensures CtxsSound(env, ctxs, conns')
  {
    forall other | other in ctxs ensures CtxSound(env, other, ctxs[other], Log(conns', other)) {
      assert CtxSound(env, other, ctxs[other], Log(conns, other));
      CtxGrows(env, other, ctxs[other], Log(conns, other), Log(conns', other));
    }
  }

  lemma CtxUpdate(env: Env, ctxs: Ctxs, conns: Conns, session: int, ctx: Session, conns': Conns)
    requires CtxsSound(env, ctxs, conns) && Grows(conns, conns')
    requires CtxSound(env, session, ctx, Log(conns', session))
    ensures CtxsSound(env, ctxs[session := ctx], conns')
  {
    forall other | other in ctxs && other != session
      ensures CtxSound(env, other, ctxs[other], Log(conns', other))
    {
      assert CtxSound(env, other, ctxs[other], Log(conns, other));
      CtxGrows(env, other, ctxs[other], Log(conns, other), Log(conns', other));
    }
  }

  lemma AcceptConserves(env: Env, s: System, registered: bool, session: int, id: nat)
    requires !s.crashed && (forall other | other in s.conns :: other <= s.counter)
    requires ConservedAt(env, s, session, id)
    ensures ConservedAt(env, Apply(env, s, Accept(registered)), session, id)
  {
  }

  lemma AcceptConserved(env: Env, start: int, s: System, registered: bool)
    requires SystemStructure(start, s) && Conserved(env, s) && !s.crashed
    ensures Conserved(env, Apply(env, s, Accept(registered)))
    ensures SystemStructure(start, Apply(env, s, Accept(registered)))
  {
    forall other, id: nat ensures ConservedAt(env, Apply(env, s, Accept(registered)), other, id) {
      assert ConservedAt(env, s, other, id);
      AcceptConserves(env, s, registered, other, id);
    }
  }

  lemma OpenedIsSound(env: Env, session: int)
    ensures CtxSound(env, session, Opened, [])
  {
  }

  lemma AcceptPools(env: Env, start: int, s: System, registered: bool)
    requires SystemStructure(start, s) && PoolsSound(env, s) && !s.crashed
    ensures var s' := Apply(env, s, Accept(registered));
      PoolsSound(env, s') && Grows(s.conns, s'.conns) && Log(s'.conns, s.counter + 1) == []
  {
    var s' := Apply(env, s, Accept(registered));
    assert s.counter + 1 !in s.conns;
    TasksGrow(s.conns, s'.conns, s.workers);
    ResponsesGrow(env, s.conns, s'.conns, s.senders);
    ResponsesGrow(env, s.conns, s'.conns, s.replying);
  }

  lemma AcceptKeeps(env: Env, start: int, s: System, registered: bool)
    requires Inv(env, start, s) && !s.crashed
    ensures Inv(env, start, Apply(env, s, Accept(registered)))
  {
    hide CtxSound, PoolsSound, Conserved;
    AcceptConserved(env, start, s, registered);
    AcceptPools(env, start, s, registered);
    OpenedIsSound(env, s.counter + 1);
    CtxUpdate(env, s.ctxs, s.conns, s.counter + 1, Opened, Apply(env, s, Accept(registered)).conns);
  }

  // reading

  lemma {:induction false} NewTasksAre(session: int, log: seq<Dispatch>, first: nat, t: Task)
    requires GoodLog(log)
    ensures NewTasks(session, log, first)[t] ==
      if t.session == session && first <= t.id < |log| && t.request == log[t.id].request then 1 else 0
    decreases |log| - first
  {
    if first < |log| {
      NewTasksAre(session, log, first + 1, t);
    }
  }

  lemma ReadConserves(env: Env, s: System, session: int, chunk: Bytes, other: int, id: nat)
    requires Enabled(s, Read(session, chunk)) && GoodStream(s.conns[session].stream)
    requires PoolsSound(env, s)
    requires other in s.ctxs ==> CtxSound(env, other, s.ctxs[other], Log(s.conns, other))
    requires ConservedAt(env, s, other, id)
    ensures ConservedAt(env, Apply(env, s, Read(session, chunk)), other, id)
  {
    var s' := Apply(env, s, Read(session, chunk));
    var before, after := Log(s.conns, session), Log(s'.conns, session);
    FeedKeepsGood(s.conns[session].stream, chunk);
    if other in s.ctxs && id < |Log(s'.conns, other)| {
      var job := Job(s'.conns, other, id);
      NewTasksAre(session, after, |before|, job);
      if id >= |Log(s.conns, other)| {
        assert job !in s.workers && Answer(env, s'.conns, other, id) !in s.senders
            && Answer(env, s'.conns, other, id) !in s.replying;
      }
    }
  }

  lemma ReadTasks(conns: Conns, session: int, log: seq<Dispatch>, tasks: multiset<Task>, first: nat)
    requires GoodLog(log) && log == Log(conns, session) && TasksSound(conns, tasks)
    ensures TasksSound(conns, tasks + NewTasks(session, log, first))
  {
    forall t | t in NewTasks(session, log, first) ensures TaskSound(conns, t) {
      NewTasksAre(session, log, first, t);
    }
  }

  lemma ReadConserved(env: Env, s: System, session: int, chunk: Bytes)
    requires Enabled(s, Read(session, chunk)) && GoodStream(s.conns[session].stream)
    requires CtxsSound(env, s.ctxs, s.conns) && PoolsSound(env, s) && Conserved(env, s)
    ensures Conserved(env, Apply(env, s, Read(session, chunk)))
  {
    forall other, id: nat ensures ConservedAt(env, Apply(env, s, Read(session, chunk)), other, id) {
      assert ConservedAt(env, s, other, id);
      ReadConserves(env, s, session, chunk, other, id);
    }
  }

  lemma ReadConn(env: Env, s: System, session: int, chunk: Bytes)
    requires ConnsSound(env, s.conns) && Enabled(s, Read(session, chunk))
    ensures var s' := Apply(env, s, Read(session, chunk));
      ConnsSound(env, s'.conns) && Grows(s.conns, s'.conns) && GoodLog(Log(s'.conns, session))
  {
    var conn := s.conns[session];
    assert ConnSound(env, session, conn);
    FeedKeepsGood(conn.stream, chunk);
    ChunkingInvariance(Live(Fresh(env.unset(session)), []), conn.received, chunk);
  }

  lemma ReadPools(env: Env, s: System, session: int, chunk: Bytes)
    requires Enabled(s, Read(session, chunk)) && ConnsSound(env, s.conns) && PoolsSound(env, s)
    ensures PoolsSound(env, Apply(env, s, Read(session, chunk)))
  {
    var s' := Apply(env, s, Read(session, chunk));
    ReadConn(env, s, session, chunk);
    TasksGrow(s.conns, s'.conns, s.workers);
    ResponsesGrow(env, s.conns, s'.conns, s.senders);
    ResponsesGrow(env, s.conns, s'.conns, s.replying);
    ReadTasks(s'.conns, session, Log(s'.conns, session), s.workers, |Log(s.conns, session)|);
  }

  lemma ReadStructure(env: Env, start: int, s: System, session: int, chunk: Bytes)
    requires SystemStructure(start, s) && Enabled(s, Read(session, chunk))
    ensures SystemStructure(start, Apply(env, s, Read(session, chunk)))
  {
    hide Feed, NewTasks;
  }

  lemma GoodConn(env: Env, conns: Conns, session: int)
    requires ConnsSound(env, conns) && session in conns
    ensures GoodStream(conns[session].stream)
  {
    assert ConnSound(env, session, conns[session]);
  }

  lemma ReadKeeps(env: Env, start: int, s: System, session: int, chunk: Bytes)
    requires Inv(env, start, s) && Enabled(s, Read(session, chunk))
    ensures Inv(env, start, Apply(env, s, Read(session, chunk)))
  {
    hide SystemStructure, ConnsSound, CtxsSound, PoolsSound, Conserved, GoodStream, Feed, NewTasks;
    ReadConn(env, s, session, chunk);
    ReadPools(env, s, session, chunk);
    CtxsGrow(env, s.ctxs, s.conns, Apply(env, s, Read(session, chunk)).conns);
    GoodConn(env, s.conns, session);
    ReadConserved(env, s, session, chunk);
    ReadStructure(env, start, s, session, chunk);
  }

  // closing

  lemma CloseCtx(env: Env, session: int, ctx: Session, log: seq<Dispatch>)
    requires CtxSound(env, session, ctx, log)
    ensures CtxSound(env, session, ctx.(eof := true), log)
  {
    assert forall id :: Arrived(ctx.(eof := true), id) == Arrived(ctx, id);
  }

  lemma CloseConserves(env: Env, s: System, session: int, other: int, id: nat)
    requires Enabled(s, Close(session)) && ConservedAt(env, s, other, id)
    ensures ConservedAt(env, Apply(env, s, Close(session)), other, id)
  {
  }

  lemma CloseConserved(env: Env, s: System, session: int)
    requires Enabled(s, Close(session)) && Conserved(env, s)
    ensures Conserved(env, Apply(env, s, Close(session)))
  {
    forall other, id: nat ensures ConservedAt(env, Apply(env, s, Close(session)), other, id) {
      assert ConservedAt(env, s, other, id);
      CloseConserves(env, s, session, other, id);
    }
  }

  lemma CloseCtxs(env: Env, s: System, session: int)
    requires Enabled(s, Close(session)) && CtxsSound(env, s.ctxs, s.conns)
    ensures CtxsSound(env, Apply(env, s, Close(session)).ctxs, s.conns)
  {
    assert CtxSound(env, session, s.ctxs[session], Log(s.conns, session));
    CloseCtx(env, session, s.ctxs[session], Log(s.conns, session));
    CtxUpdate(env, s.ctxs, s.conns, session, s.ctxs[session].(eof := true), s.conns);
  }

  lemma CloseStructure(env: Env, start: int, s: System, session: int)
    requires SystemStructure(start, s) && Enabled(s, Close(session))
    ensures SystemStructure(start, Apply(env, s, Close(session)))
  {
  }

  lemma CloseKeeps(env: Env, start: int, s: System, session: int)
    requires Inv(env, start, s) && Enabled(s, Close(session))
    ensures Inv(env, start, Apply(env, s, Close(session)))
  {
    CloseStructure(env, start, s, session);
    CloseCtxs(env, s, session);
    CloseConserved(env, s, session);
  }

  // the two pools

  lemma WorkConserves(env: Env, s: System, t: Task, other: int, id: nat)
    requires Enabled(s, Work(t)) && TaskSound(s.conns, t) && ConservedAt(env, s, other, id)
    ensures ConservedAt(env, Apply(env, s, Work(t)), other, id)
  {
  }

  lemma WorkKeeps(env: Env, start: int, s: System, t: Task)
    requires Inv(env, start, s) && Enabled(s, Work(t))
    ensures Inv(env, start, Apply(env, s, Work(t)))
  {
    assert TaskSound(s.conns, t);
    assert ResponseSound(env, s.conns, Answer(env, s.conns, t.session, t.id));
    forall other, id: nat ensures ConservedAt(env, Apply(env, s, Work(t)), other, id) {
      assert ConservedAt(env, s, other, id);
      WorkConserves(env, s, t, other, id);
    }
  }

  lemma CheckConserves(env: Env, s: System, r: Response, other: int, id: nat)
    requires Enabled(s, Check(r)) && ConservedAt(env, s, other, id)
    requires other in s.ctxs && !s.ctxs[other].eof ==> other in s.live
    ensures ConservedAt(env, Apply(env, s, Check(r)), other, id)
  {
  }

  lemma CheckConserved(env: Env, start: int, s: System, r: Response)
    requires SystemStructure(start, s) && Conserved(env, s) && Enabled(s, Check(r))
    ensures Conserved(env, Apply(env, s, Check(r)))
  {
    hide ConservedAt;
    forall other, id: nat ensures ConservedAt(env, Apply(env, s, Check(r)), other, id) {
      assert ConservedAt(env, s, other, id);
      CheckConserves(env, s, r, other, id);
    }
  }

  lemma CheckPools(env: Env, s: System, r: Response)
    requires PoolsSound(env, s) && Enabled(s, Check(r))
    ensures PoolsSound(env, Apply(env, s, Check(r)))
  {
    assert ResponseSound(env, s.conns, r);
    hide ResponseSound;
  }

  lemma CheckKeeps(env: Env, start: int, s: System, r: Response)
    requires Inv(env, start, s) && Enabled(s, Check(r))
    ensures Inv(env, start, Apply(env, s, Check(r)))
  {
    hide ConnsSound, CtxsSound, PoolsSound, Conserved, Structure;
    CheckConserved(env, start, s, r);
    CheckPools(env, s, r);
  }

  lemma DeliverConserves(env: Env, s: System, r: Response, other: int, id: nat)
    requires Enabled(s, Deliver(r)) && ResponseSound(env, s.conns, r) && ConservedAt(env, s, other, id)
    requires var ctx := Insert(s.ctxs[r.session], r.id, r.content, OracleOf(env, r.session));
      && (s.ctxs[r.session].eof ==> ctx.eof)
      && forall i :: Arrived(ctx, i) <==> Arrived(s.ctxs[r.session], i) || i == r.id
    requires !Arrived(s.ctxs[r.session], r.id)
    ensures ConservedAt(env, Apply(env, s, Deliver(r)), other, id)
  {
  }

  lemma DeliverCtx(env: Env, s: System, r: Response)
    requires Enabled(s, Deliver(r)) && ResponseSound(env, s.conns, r) && ConservedAt(env, s, r.session, r.id)
    requires CtxSound(env, r.session, s.ctxs[r.session], Log(s.conns, r.session))
    ensures var ctx, ctx' := s.ctxs[r.session], Apply(env, s, Deliver(r)).ctxs[r.session];
      && CtxSound(env, r.session, ctx', Log(s.conns, r.session))
      && (ctx.eof ==> ctx'.eof) && !Arrived(ctx, r.id)
      && forall i :: Arrived(ctx', i) <==> Arrived(ctx, i) || i == r.id
  {
    var session, ctx := r.session, s.ctxs[r.session];
    assert Places(env, s, session, r.id) <= 1;
    InsertSound(ctx, r.id, AnswersOf(env, session, Log(s.conns, session)), OracleOf(env, session));
    InsertGrows(ctx, r.id, r.content, OracleOf(env, session));
  }

  lemma DeliverConserved(env: Env, s: System, r: Response)
    requires Enabled(s, Deliver(r)) && ResponseSound(env, s.conns, r) && Conserved(env, s)
    requires CtxSound(env, r.session, s.ctxs[r.session], Log(s.conns, r.session))
    ensures Conserved(env, Apply(env, s, Deliver(r)))
  {
    assert ConservedAt(env, s, r.session, r.id);
    DeliverCtx(env, s, r);
    forall other, id: nat ensures ConservedAt(env, Apply(env, s, Deliver(r)), other, id) {
      assert ConservedAt(env, s, other, id);
      DeliverConserves(env, s, r, other, id);
    }
  }

  lemma DeliverStructure(env: Env, start: int, s: System, r: Response)
    requires SystemStructure(start, s) && PoolsSound(env, s) && Enabled(s, Deliver(r))
    ensures SystemStructure(start, Apply(env, s, Deliver(r)))
    ensures PoolsSound(env, Apply(env, s, Deliver(r)))
  {
    InsertGrows(s.ctxs[r.session], r.id, r.content, OracleOf(env, r.session));
  }

  lemma DeliverKeeps(env: Env, start: int, s: System, r: Response)
    requires Inv(env, start, s) && Enabled(s, Deliver(r))
    ensures Inv(env, start, Apply(env, s, Deliver(r)))
  {
    assert ResponseSound(env, s.conns, r);
    assert ConservedAt(env, s, r.session, r.id);
    assert CtxSound(env, r.session, s.ctxs[r.session], Log(s.conns, r.session));
    DeliverCtx(env, s, r);
    DeliverConserved(env, s, r);
    DeliverStructure(env, start, s, r);
    CtxUpdate(env, s.ctxs, s.conns, r.session, Apply(env, s, Deliver(r)).ctxs[r.session], s.conns);
  }

  // ----- runs -----

  lemma StepKeeps(env: Env, start: int, s: System, e: Event)
    requires Inv(env, start, s) && Enabled(s, e)
    ensures Inv(env, start, Apply(env, s, e))
  {
    match e
    case Accept(registered) => AcceptKeeps(env, start, s, registered);
    case Read(session, chunk) => ReadKeeps(env, start, s, session, chunk);
    case Close(session) => CloseKeeps(env, start, s, session);
    case Work(t) => WorkKeeps(env, start, s, t);
    case Check(r) => CheckKeeps(env, start, s, r);
    case Deliver(r) => DeliverKeeps(env, start, s, r);
  }

  /** The invariant holds in every state of every run. */
  lemma {:induction false} AfterKeeps(env: Env, start: int, s: System, events: seq<Event>)
    requires Inv(env, start, s)
    ensures Inv(env, start, After(env, s, events))
    decreases |events|
  {
    if events != [] {
      if Enabled(s, events[0]) {
        StepKeeps(env, start, s, events[0]);
        AfterKeeps(env, start, Apply(env, s, events[0]), events[1..]);
      } else {
        AfterKeeps(env, start, s, events[1..]);
      }
    }
  }

  lemma StartIsSound(env: Env, start: int)
    ensures Inv(env, start, Start(start))
  {
  }
}
