/** SessionManager and the handlers of main.cc as objects, each method proved to
    take the step of the state machine in ProxySystem. */
module Proxy {
  import opened Text
  import opened Decoder
  import opened DecoderLaws
  import opened Session
  import opened SessionLaws
  import opened ProxySystem

  class SessionManager {
    const env: Env
    var sessionCounter: int
    var ctxMap: map<int, SessionCtx>
    /** The contexts of all sessions ever made. */
    ghost var made: map<int, SessionCtx>
    ghost var Repr: set<SessionCtx>

    ghost predicate Valid()
      reads this
    {
      && (forall s | s in ctxMap :: s in made && made[s] == ctxMap[s])
      && (forall s | s in made :: s <= sessionCounter && made[s].session == s && made[s].oracle == OracleOf(env, s))
      && Owned()
    }

    ghost predicate Owned()
      reads this`made, this`Repr
    {
      forall s | s in made :: made[s] in Repr
    }

    ghost function Ctxs(): (ctxs: Ctxs)
      requires Owned()
      reads this`made, this`Repr, Repr
      ensures ctxs.Keys == made.Keys
    {
      map s | s in made :: made[s].View()
    }

    lemma OracleAt(session: int)
      requires Valid()
      ensures session in made ==> made[session].oracle == OracleOf(env, session)
    {
    }

    lemma CtxAt(session: int)
      requires Owned()
      ensures session in made ==> Ctxs()[session] == made[session].View()
    {
    }

    /** The counter is never initialised by the source: it starts anywhere. */
    constructor (env: Env, counter: int)
      ensures Valid() && this.env == env && sessionCounter == counter && ctxMap == map[] && made == map[]
    {
      this.env, sessionCounter, ctxMap, made, Repr := env, counter, map[], map[], {};
    }

    method GetNextSessionCounterNumber() returns (number: int)
      requires Valid()
      modifies this`sessionCounter
      ensures Valid() && number == sessionCounter == old(sessionCounter) + 1
    {
      sessionCounter := sessionCounter + 1;
      return sessionCounter;
    }

    method InsertNewStatus(fd: int) returns (sessionId: int)
      requires Valid()
      modifies this
      ensures Valid() && sessionId == sessionCounter == old(sessionCounter) + 1
      ensures ctxMap.Keys == old(ctxMap).Keys + {sessionId} && ctxMap[sessionId].fd == fd
      ensures Ctxs() == old(Ctxs())[sessionId := Opened]
    {
      sessionId := GetNextSessionCounterNumber();
      var ctx := new SessionCtx(sessionId, fd, OracleOf(env, sessionId));
      ctxMap := ctxMap[sessionId := ctx];
      made, Repr := made[sessionId := ctx], Repr + {ctx};
    }

    twostate lemma OnlyChanged(session: int)
      requires Owned() && old(Owned()) && made == old(made) && session in made
      requires forall s | s in made && s != session :: made[s].View() == old(made[s].View())
      ensures Ctxs() == old(Ctxs())[session := made[session].View()]
    {
    }

    method SessionGetEof(sessionId: int)
      requires Valid()
      modifies Repr
      ensures Valid()
      ensures Ctxs() == if sessionId in ctxMap then old(Ctxs())[sessionId := old(Ctxs())[sessionId].(eof := true)] else old(Ctxs())
    {
      if sessionId in ctxMap {
        ctxMap[sessionId].isEofReach := true;
        OnlyChanged(sessionId);
      }
    }

    method EraseSession(sessionId: int)
      requires Valid()
      modifies this`ctxMap, Repr
      ensures Valid() && ctxMap.Keys == old(ctxMap).Keys - {sessionId}
      ensures Ctxs() ==
        if sessionId in old(ctxMap) then old(Ctxs())[sessionId := old(Ctxs())[sessionId].(eof := true)] else old(Ctxs())
    {
      if sessionId in ctxMap {
        ctxMap[sessionId].isEofReach := true;
        OnlyChanged(sessionId);
        ctxMap := ctxMap - {sessionId};
      }
    }

    method GetCtx(sessionId: int) returns (ctx: SessionCtx?)
      requires Valid()
      ensures ctx == null <==> sessionId !in ctxMap
      ensures ctx != null ==> ctx == ctxMap[sessionId]
    {
      return if sessionId in ctxMap then ctxMap[sessionId] else null;
    }
  }

  /** `decode` is called when the bytes are already in the buffer. */
  lemma FeedAppended(c: Core, residue: Bytes, bytes: Bytes)
    ensures Feed(Live(c, residue + bytes), []) == Feed(Live(c, residue), bytes)
  {
    assert residue + bytes + [] == residue + bytes;
  }

  // the state after each event, field by field

  lemma Decoded(env: Env, s: System, session: int, chunk: Bytes, stream: Stream)
    requires Enabled(s, Read(session, chunk)) && stream == Feed(s.conns[session].stream, chunk)
    ensures Apply(env, s, Read(session, chunk)) == System(
      s.counter, s.ctxs, s.conns[session := Conn(stream, s.conns[session].received + chunk)], s.live, s.readable,
      s.workers + NewTasks(session, LogOf(stream), |LogOf(s.conns[session].stream)|),
      s.senders, s.replying, stream.Threw?)
  {
  }

  lemma Worked(env: Env, s: System, task: Task)
    requires Enabled(s, Work(task))
    ensures Apply(env, s, Work(task)) == System(
      s.counter, s.ctxs, s.conns, s.live, s.readable, s.workers - multiset{task},
      s.senders + multiset{Response(task.session, task.id, env.answer(task))}, s.replying, s.crashed)
  {
  }

  lemma Checked(env: Env, s: System, r: Response, answered: bool)
    requires Enabled(s, Check(r))
    requires answered <==> r.session in s.live && r.session in s.ctxs && !s.ctxs[r.session].eof
    ensures Apply(env, s, Check(r)) ==
      s.(senders := s.senders - multiset{r}, replying := if answered then s.replying + multiset{r} else s.replying)
  {
  }

  lemma Delivered(env: Env, s: System, r: Response, ctx: Session)
    requires Enabled(s, Deliver(r))
    requires ctx == Insert(s.ctxs[r.session], r.id, r.content, OracleOf(env, r.session))
    ensures Apply(env, s, Deliver(r)) == System(
      s.counter, s.ctxs[r.session := ctx], s.conns, s.live, s.readable,
      s.workers, s.senders, s.replying - multiset{r}, s.crashed)
  {
  }

  class Proxy {
    const env: Env
    const sessions: SessionManager
    /** The decode contexts the event loop holds as client data, by session. */
    var contexts: map<int, DecodeContext>
    var readable: set<int>
    var workers: multiset<Task>
    var senders: multiset<Response>
    /** Sender tasks between their check and their insertion. */
    ghost var replying: multiset<Response>
    ghost var received: map<int, Bytes>
    /** Sessions whose decoder threw, which ends the event loop. */
    ghost var failed: set<int>
    ghost var Repr: set<DecodeContext>

    ghost predicate Valid()
      reads this, sessions
    {
      && sessions.Valid() && sessions.env == env && Owned()
      && forall s | s in contexts :: s <= sessions.sessionCounter && contexts[s].sessionId == s
    }

    ghost predicate Owned()
      reads this`contexts, this`received, this`Repr
    {
      received.Keys == contexts.Keys && forall s | s in contexts :: contexts[s] in Repr
    }

    ghost function ConnOf(s: int): Conn
      requires s in contexts && s in received
      reads this`contexts, this`received, this`failed, contexts[s]
    {
      var ctx := contexts[s];
      Conn(if s in failed then Threw(ctx.calls) else Live(ctx.View(), ctx.bufferedInput), received[s])
    }

    ghost function ConnsView(): (conns: Conns)
      requires Owned()
      reads this`contexts, this`received, this`failed, this`Repr, Repr
      ensures conns.Keys == contexts.Keys
    {
      map s | s in contexts :: ConnOf(s)
    }

    lemma ConnAt(session: int)
      requires Owned()
      ensures session in contexts ==> ConnsView()[session] == ConnOf(session)
    {
    }

    ghost function View(): System
      requires Valid()
      reads this, sessions, sessions.Repr, Repr
    {
      System(sessions.sessionCounter, sessions.Ctxs(), ConnsView(), sessions.ctxMap.Keys, readable,
             workers, senders, replying, failed != {})
    }

    constructor (env: Env, counter: int)
      ensures Valid() && View() == Start(counter) && this.env == env
    {
      this.env := env;
      sessions := new SessionManager(env, counter);
      contexts, readable, workers, senders := map[], {}, multiset{}, multiset{};
      replying, received, failed, Repr := multiset{}, map[], {}, {};
    }

    method OpenSession(fd: int) returns (session: int)
      requires Valid()
      modifies sessions
      ensures Valid() && session == old(View()).counter + 1 && session !in View().conns
      ensures session in sessions.ctxMap && sessions.ctxMap[session].fd == fd
      ensures View() == old(View()).(
        counter := session, ctxs := old(View()).ctxs[session := Opened], live := old(View()).live + {session})
    {
      hide SessionManager.Ctxs, ConnsView;
      session := sessions.InsertNewStatus(fd);
      assert ConnsView() == old(ConnsView());
    }

    method AddContext(session: int)
      requires Valid() && session == View().counter && session !in View().conns && !View().crashed
      modifies this`contexts, this`received, this`Repr
      ensures Valid()
      ensures View() == old(View()).(
        conns := old(View()).conns[session := Conn(Live(Fresh(env.unset(session)), []), [])])
    {
      hide Fresh, SessionManager.Ctxs, ConnsView;
      var _ := NewContext(session);
      assert sessions.Ctxs() == old(sessions.Ctxs());
    }

    method NewContext(session: int) returns (ctx: DecodeContext)
      requires Owned() && session !in contexts && session !in failed
      modifies this`contexts, this`received, this`Repr
      ensures Owned()
      ensures contexts == old(contexts)[session := ctx] && ctx.sessionId == session
      ensures ConnsView() == old(ConnsView())[session := Conn(Live(Fresh(env.unset(session)), []), [])]
    {
      ctx := new DecodeContext(session, env.unset(session));
      contexts, received, Repr := contexts[session := ctx], received[session := []], Repr + {ctx};
    }

    method SetReadable(sessions: set<int>)
      requires Valid()
      modifies this`readable
      ensures Valid() && View() == old(View()).(readable := sessions)
    {
      hide SessionManager.Ctxs, ConnsView;
      readable := sessions;
      assert this.sessions.Ctxs() == old(this.sessions.Ctxs());
      assert ConnsView() == old(ConnsView());
    }

    method AcceptTcpHandler(clientFd: int, registered: bool)
      requires Valid() && Enabled(View(), Accept(registered))
      modifies this, sessions
      ensures Valid() && View() == Apply(env, old(View()), Accept(registered))
      ensures View().counter in sessions.ctxMap && sessions.ctxMap[View().counter].fd == clientFd
    {
      FieldsAre();
      hide Valid, View, Fresh, Insert, Feed, NewTasks;
      var session := OpenSession(clientFd);
      AddContext(session);
      if registered {
        SetReadable(readable + {session});
      }
    }

    lemma FieldsAre()
      requires Valid()
      ensures View().readable == readable && View().senders == senders && View().replying == replying
    {
    }

    twostate lemma OnlyConnChanged(session: int)
      requires contexts == old(contexts) && Owned() && old(Owned())
      requires session in contexts
      requires forall s | s in contexts && s != session :: ConnOf(s) == old(ConnOf(s))
      ensures ConnsView() == old(ConnsView())[session := ConnOf(session)]
    {
    }

    /** The bytes go into the decode context, and the requests they complete to
        the worker pool. */
    method DecodeChunk(session: int, bytes: Bytes) returns (threw: bool)
      requires Owned() && session in contexts && failed == {}
      requires forall s | s in contexts :: contexts[s].sessionId == s
      modifies this`received, this`failed, this`workers, contexts[session]
      ensures Owned() && failed == if threw then {session} else {}
      ensures var conn := old(ConnOf(session)); var stream := Feed(conn.stream, bytes);
        && ConnsView() == old(ConnsView())[session := Conn(stream, conn.received + bytes)]
        && workers == old(workers) + NewTasks(session, LogOf(stream), |LogOf(conn.stream)|)
        && threw == stream.Threw?
    {
      hide Feed, Run;
      var ctx := contexts[session];
      var calls := |ctx.calls|;
      FeedAppended(ctx.View(), ctx.bufferedInput, bytes);
      ctx.AppendNewBuffer(bytes);
      threw := ctx.Decode();
      workers := workers + NewTasks(session, ctx.calls, calls);
      received := received[session := received[session] + bytes];
      if threw {
        failed := {session};
      }
      OnlyConnChanged(session);
    }

    /** A failed or empty read ends the session; anything else is decoded. */
    method ReadFromClient(session: int, bytes: Option<Bytes>) returns (threw: bool)
      requires Valid()
      requires Enabled(View(), if bytes.UnwrapOr([]) == [] then Close(session) else Read(session, bytes.value))
      modifies this, sessions, sessions.Repr, Repr
      ensures Valid()
      ensures View() ==
        Apply(env, old(View()), if bytes.UnwrapOr([]) == [] then Close(session) else Read(session, bytes.value))
      ensures threw <==> View().crashed
    {
      hide Apply, Enabled, View, Valid;
      if bytes.None? || bytes.value == [] {
        EndSession(session);
        return false;
      }
      threw := DecodeRead(session, bytes.value);
    }

    method EndSession(session: int)
      requires Valid() && Enabled(View(), Close(session))
      modifies this`readable, sessions`ctxMap, sessions.Repr
      ensures Valid() && View() == Apply(env, old(View()), Close(session)) && !View().crashed
    {
      SetReadable(readable - {session});
      Forget(session);
    }

    method Forget(session: int)
      requires Valid()
      modifies sessions`ctxMap, sessions.Repr
      ensures Valid()
      ensures View() == old(View()).(
        live := old(View()).live - {session},
        ctxs := if session in old(View()).live
          then old(View()).ctxs[session := old(View()).ctxs[session].(eof := true)]
          else old(View()).ctxs)
    {
      hide SessionManager.Ctxs, ConnsView;
      sessions.EraseSession(session);
      assert ConnsView() == old(ConnsView());
    }

    method DecodeRead(session: int, bytes: Bytes) returns (threw: bool)
      requires Valid() && Enabled(View(), Read(session, bytes))
      modifies this`received, this`failed, this`workers, Repr
      ensures Valid() && View() == Apply(env, old(View()), Read(session, bytes))
      ensures threw <==> View().crashed
    {
      hide Apply, Feed, NewTasks, SessionManager.Ctxs, ConnsView, ConnOf;
      ConnAt(session);
      Decoded(env, View(), session, bytes, Feed(ConnsView()[session].stream, bytes));
      threw := DecodeChunk(session, bytes);
    }

    method ProcesserWorker(task: Task)
      requires Valid() && Enabled(View(), Work(task))
      modifies this`workers, this`senders
      ensures Valid() && View() == Apply(env, old(View()), Work(task))
    {
      hide Apply, SessionManager.Ctxs, ConnsView;
      Worked(env, View(), task);
      workers := workers - multiset{task};
      SendReply(task.id, task.session, env.answer(task));
    }

    method SendReply(commandId: nat, session: int, response: Bytes)
      modifies this`senders
      ensures senders == old(senders) + multiset{Response(session, commandId, response)}
    {
      senders := senders + multiset{Response(session, commandId, response)};
    }

    method SetSenders(queue: multiset<Response>)
      requires Valid()
      modifies this`senders
      ensures Valid() && View() == old(View()).(senders := queue)
    {
      hide SessionManager.Ctxs, ConnsView;
      senders := queue;
      assert sessions.Ctxs() == old(sessions.Ctxs());
      assert ConnsView() == old(ConnsView());
    }

    ghost method SetReplying(responses: multiset<Response>)
      requires Valid()
      modifies this`replying
      ensures Valid() && View() == old(View()).(replying := responses)
    {
      hide SessionManager.Ctxs, ConnsView;
      replying := responses;
      assert sessions.Ctxs() == old(sessions.Ctxs());
      assert ConnsView() == old(ConnsView());
    }

    /** The first half of sender_worker, up to the call of insert_new_response. */
    method SenderCheck(response: Response) returns (ctx: SessionCtx?)
      requires Valid() && Enabled(View(), Check(response))
      modifies this`senders, this`replying
      ensures Valid() && View() == Apply(env, old(View()), Check(response))
      ensures ctx != null ==> response.session in sessions.made && ctx == sessions.made[response.session]
    {
      ctx := OpenCtx(response.session);
      FieldsAre();
      ghost var before := View();
      Checked(env, before, response, ctx != null);
      hide View, Valid, Apply, Enabled;
      SetSenders(senders - multiset{response});
      if ctx != null {
        SetReplying(replying + multiset{response});
        assert View() == before.(
          senders := before.senders - multiset{response}, replying := before.replying + multiset{response});
      }
    }

    method OpenCtx(session: int) returns (ctx: SessionCtx?)
      requires Valid()
      ensures ctx != null <==> session in View().live && session in View().ctxs && !View().ctxs[session].eof
      ensures ctx != null ==> session in sessions.made && ctx == sessions.made[session]
    {
      hide SessionManager.Ctxs, ConnsView;
      sessions.CtxAt(session);
      ctx := sessions.GetCtx(session);
      if ctx != null && ctx.isEofReach {
        ctx := null;
      }
    }

    /** The second half, possibly much later: the thread still holds its context,
        which may have left the session table. */
    method SenderDeliver(ctx: SessionCtx, response: Response)
      requires Valid() && Enabled(View(), Deliver(response))
      requires ctx == sessions.made[response.session]
      modifies this`replying, ctx
      ensures Valid() && View() == Apply(env, old(View()), Deliver(response))
    {
      hide Apply, Insert, SessionManager.Ctxs, ConnsView;
      sessions.CtxAt(response.session);
      sessions.OracleAt(response.session);
      Delivered(env, View(), response, Insert(ctx.View(), response.id, response.content, ctx.oracle));
      replying := replying - multiset{response};
      Respond(ctx, response);
    }

    method Respond(ctx: SessionCtx, response: Response)
      requires Valid() && response.session in sessions.made && ctx == sessions.made[response.session]
      modifies ctx
      ensures Valid()
      ensures View() == old(View()).(ctxs := old(sessions.Ctxs())[
        response.session := Insert(old(ctx.View()), response.id, response.content, ctx.oracle)])
    {
      hide Insert, SessionManager.Ctxs, ConnsView;
      ctx.InsertNewResponse(response.id, response.content);
      sessions.OnlyChanged(response.session);
    }
  }
}
