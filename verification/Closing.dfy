/** How sessions begin and end: what accepting, closing, the check of a sender and an
    exception do, and what follows for the rest of every run. */
module Closing {
  import opened Text
  import opened Decoder
  import opened DecoderLaws
  import opened Session
  import opened SessionLaws
  import opened ProxySystem
  import opened EndToEnd

  /** Nothing but this session has changed. */
  ghost predicate OthersKept(s: System, s': System, session: int) {
    forall other | other != session ::
      && (other in s'.ctxs <==> other in s.ctxs) && (other in s.ctxs ==> s'.ctxs[other] == s.ctxs[other])
      && (other in s'.conns <==> other in s.conns) && (other in s.conns ==> s'.conns[other] == s.conns[other])
      && (other in s'.live <==> other in s.live) && (other in s'.readable <==> other in s.readable)
  }

  ghost predicate QueuesKept(s: System, s': System) {
    s'.workers == s.workers && s'.senders == s.senders && s'.replying == s.replying
  }

  // ----- accepting -----

  /** A new session, never used before, is in the table with an open context and a new
      decode context; it has a read event exactly if the registration succeeded. */
  lemma AcceptOpens(env: Env, start: int, s: System, registered: bool)
    requires Inv(env, start, s) && !s.crashed
    ensures var s', session := Apply(env, s, Accept(registered)), s.counter + 1;
      && session !in s.ctxs && session !in s.conns
      && session in s'.ctxs && s'.ctxs[session] == Opened && session in s'.live
      && session in s'.conns && s'.conns[session] == Conn(Live(Fresh(env.unset(session)), []), [])
      && (session in s'.readable <==> registered) && s'.counter == session && !s'.crashed
      && OthersKept(s, s', session) && QueuesKept(s, s')
  {
    hide Fresh, CtxSound, ConnSound, PoolsSound, Conserved;
  }

  /** A session without a read event never gets one again, so nothing is read from it;
      in particular one whose registration failed. */
  lemma {:induction false} NeverReadable(env: Env, s: System, events: seq<Event>, session: int)
    requires session in s.conns && session <= s.counter && session !in s.readable
    ensures var s' := After(env, s, events);
      && session in s'.conns && session <= s'.counter && session !in s'.readable
      && s'.conns[session] == s.conns[session]
    decreases |events|
  {
    if events != [] {
      if Enabled(s, events[0]) {
        UnreadableStep(env, s, events[0], session);
        NeverReadable(env, Apply(env, s, events[0]), events[1..], session);
      } else {
        NeverReadable(env, s, events[1..], session);
      }
    }
  }

  lemma UnreadableStep(env: Env, s: System, e: Event, session: int)
    requires session in s.conns && session <= s.counter && session !in s.readable && Enabled(s, e)
    ensures var s' := Apply(env, s, e);
      && session in s'.conns && session <= s'.counter && session !in s'.readable
      && s'.conns[session] == s.conns[session]
  {
    hide Insert, Feed, NewTasks;
  }

  // ----- closing -----

  /** Closing takes the session out of the table and of the read events, and its
      context sees end of file; what it has decoded, sent and buffered stays, and so
      does everything of the other sessions and in the queues. */
  lemma CloseEnds(env: Env, start: int, s: System, session: int)
    requires Inv(env, start, s) && Enabled(s, Close(session))
    ensures var s' := Apply(env, s, Close(session));
      && session !in s'.live && session !in s'.readable
      && session in s'.ctxs && s'.ctxs[session] == s.ctxs[session].(eof := true)
      && session in s.conns && s'.conns == s.conns && s'.counter == s.counter && !s'.crashed
      && OthersKept(s, s', session) && QueuesKept(s, s')
  {
    hide CtxSound, ConnSound, PoolsSound, Conserved;
  }

  ghost predicate Closed(s: System, session: int) {
    && session in s.ctxs && session in s.conns && session <= s.counter
    && session !in s.live && session !in s.readable && s.ctxs[session].eof
  }

  /** No further response of the session has come past its check. */
  ghost predicate NoMorePastCheck(s: System, s': System, session: int) {
    forall r: Response | r.session == session :: s'.replying[r] <= s.replying[r]
  }

  /** One event after the closing: nothing is read from the session, it is not closed
      again, no response of it comes past its check, and its context changes only by
      a delivery that was past its check already. */
  lemma ClosedStep(env: Env, s: System, e: Event, session: int)
    requires Closed(s, session) && Enabled(s, e)
    ensures var s' := Apply(env, s, e);
      && Closed(s', session) && s'.conns[session] == s.conns[session] && NoMorePastCheck(s, s', session)
      && !(e.Read? && e.session == session) && !(e.Close? && e.session == session)
      && (s'.ctxs[session] != s.ctxs[session] ==>
            e.Deliver? && e.response.session == session && s'.replying[e.response] == s.replying[e.response] - 1)
  {
    if e.Deliver? {
      ClosedDeliver(env, s, e.response, session);
    } else {
      hide Feed, NewTasks;
    }
  }

  lemma ClosedDeliver(env: Env, s: System, r: Response, session: int)
    requires Closed(s, session) && Enabled(s, Deliver(r))
    ensures var s' := Apply(env, s, Deliver(r));
      && Closed(s', session) && s'.conns[session] == s.conns[session] && NoMorePastCheck(s, s', session)
      && (s'.ctxs[session] != s.ctxs[session] ==> r.session == session && s'.replying[r] == s.replying[r] - 1)
  {
    hide Insert;
    InsertGrows(s.ctxs[r.session], r.id, r.content, OracleOf(env, r.session));
  }

  lemma {:induction false} ClosedForever(env: Env, s: System, events: seq<Event>, session: int)
    requires Closed(s, session)
    ensures var s' := After(env, s, events);
      Closed(s', session) && s'.conns[session] == s.conns[session] && NoMorePastCheck(s, s', session)
    decreases |events|
  {
    hide Apply, Enabled, Closed;
    if events != [] {
      if Enabled(s, events[0]) {
        ClosedStep(env, s, events[0], session);
        StaysKnown(s, session);
        StaysKnown(Apply(env, s, events[0]), session);
        ClosedForever(env, Apply(env, s, events[0]), events[1..], session);
      } else {
        ClosedForever(env, s, events[1..], session);
      }
    }
  }

  lemma StaysKnown(s: System, session: int)
    requires Closed(s, session)
    ensures session in s.conns
  {
  }

  /** So after a close, however the run goes on: the session stays out of the table,
      nothing more is read from it, at most the responses then past their check still
      reach its context, and once these are delivered nothing changes it any more. */
  lemma AfterClose(env: Env, start: int, s: System, session: int, events: seq<Event>, more: seq<Event>)
    requires Inv(env, start, s) && Enabled(s, Close(session))
    ensures var s1 := Apply(env, s, Close(session)); var s2 := After(env, s1, events); var s3 := After(env, s2, more);
      && Closed(s2, session) && session in s.conns && s2.conns[session] == s.conns[session]
      && NoMorePastCheck(s, s2, session)
      && ((forall r: Response | r.session == session :: r !in s2.replying) ==>
            Erased(s2, session) && Closed(s3, session) && s3.ctxs[session] == s2.ctxs[session])
  {
    hide Inv, Apply, After;
    var s1 := Apply(env, s, Close(session));
    CloseEnds(env, start, s, session);
    CloseIsClosed(env, start, s, session);
    StepKeeps(env, start, s, Close(session));
    var s2 := After(env, s1, events);
    ClosedForever(env, s1, events, session);
    AfterKeeps(env, start, s1, events);
    ClosedForever(env, s2, more, session);
    if forall r: Response | r.session == session :: r !in s2.replying {
      ErasedIsFrozen(env, start, s2, session, more);
    }
  }

  lemma CloseIsClosed(env: Env, start: int, s: System, session: int)
    requires Inv(env, start, s) && Enabled(s, Close(session))
    ensures Closed(Apply(env, s, Close(session)), session)
  {
    hide CtxSound, ConnSound, PoolsSound, Conserved;
  }

  // ----- the check of a sender -----

  /** A response comes past its check exactly if its session is in the table and its
      context has not seen end of file; otherwise it is dropped. */
  lemma CheckDecides(env: Env, s: System, r: Response)
    requires Enabled(s, Check(r))
    ensures var s', session := Apply(env, s, Check(r)), r.session;
      && s'.senders == s.senders - multiset{r}
      && (session in s.live && session in s.ctxs && !s.ctxs[session].eof ==> s'.replying == s.replying + multiset{r})
      && (!(session in s.live && session in s.ctxs && !s.ctxs[session].eof) ==> s'.replying == s.replying)
      && s'.ctxs == s.ctxs && s'.conns == s.conns && s'.live == s.live && s'.readable == s.readable
      && s'.workers == s.workers && s'.counter == s.counter && s'.crashed == s.crashed
  {
  }

  lemma EofStep(env: Env, s: System, e: Event, session: int)
    requires session in s.ctxs && session <= s.counter && s.ctxs[session].eof && Enabled(s, e)
    ensures var s' := Apply(env, s, e);
      && session in s'.ctxs && session <= s'.counter && s'.ctxs[session].eof && NoMorePastCheck(s, s', session)
  {
    hide Feed, NewTasks, Insert;
    if e.Deliver? {
      var r := e.response;
      InsertGrows(s.ctxs[r.session], r.id, r.content, OracleOf(env, r.session));
    }
  }

  /** Once the context of a session has seen end of file, by a close or by a write that
      took nothing, it stays so, and no response comes past its check any more. */
  lemma {:induction false} EofForever(env: Env, s: System, events: seq<Event>, session: int)
    requires session in s.ctxs && session <= s.counter && s.ctxs[session].eof
    ensures var s' := After(env, s, events);
      session in s'.ctxs && session <= s'.counter && s'.ctxs[session].eof && NoMorePastCheck(s, s', session)
    decreases |events|
  {
    hide Apply, Enabled;
    if events != [] {
      if Enabled(s, events[0]) {
        EofStep(env, s, events[0], session);
        EofForever(env, Apply(env, s, events[0]), events[1..], session);
      } else {
        EofForever(env, s, events[1..], session);
      }
    }
  }

  // ----- exceptions -----

  /** Reading ends the event loop exactly if the decoder throws on these bytes; the
      requests before the exception are queued all the same. */
  lemma ReadThrows(env: Env, s: System, session: int, chunk: Bytes)
    requires Enabled(s, Read(session, chunk))
    ensures var s', stream := Apply(env, s, Read(session, chunk)), Feed(s.conns[session].stream, chunk);
      && (s'.crashed <==> stream.Threw?) && session in s'.conns && s'.conns[session].stream == stream
      && s'.conns[session].received == s.conns[session].received + chunk
      && s'.workers == s.workers + NewTasks(session, LogOf(stream), |LogOf(s.conns[session].stream)|)
      && s'.ctxs == s.ctxs && s'.live == s.live && s'.readable == s.readable
      && forall other | other in s.conns && other != session :: other in s'.conns && s'.conns[other] == s.conns[other]
  {
    hide Feed, NewTasks;
  }

  /** And then nothing happens any more. */
  lemma {:induction false} CrashedForever(env: Env, s: System, events: seq<Event>)
    requires s.crashed
    ensures After(env, s, events) == s
    decreases |events|
  {
    if events != [] {
      CrashedForever(env, s, events[1..]);
    }
  }
}
