/** SessionCtx: replies computed in any order leave in request order. */
module Session {
  import opened Text

  /** One call of `reply`: the command id, the response, and the result of its
      `write`: -1 for an error, or how many of its first bytes were taken.  There
      is no `write` for an empty response; its count is 0. */
  datatype Attempt = Attempt(id: int, response: Bytes, count: int) {
    /** Whether `reply` is positive: an error counts as success. */
    predicate Positive() {
      response == [] || count != 0
    }

    predicate Complete() {
      count == |response|
    }

    /** What the client gets of it. */
    function Sent(): Bytes
      requires count <= |response|
    {
      if count > 0 then response[..count] else []
    }
  }

  datatype Session = Session(
    toSend: int,
    buffered: map<int, Bytes>,
    eof: bool,
    wire: seq<Attempt>)

  const Opened := Session(0, map[], false, [])

  /** What the kernel makes of the n-th `write` of a session, arbitrary. */
  type Oracle = nat -> int

  /** The results `write` can have: -1, or at most the bytes it was given. */
  function Count(raw: int, content: Bytes): (count: int)
    ensures -1 <= count <= |content|
  {
    if content == [] then 0
    else if raw < 0 then -1
    else if raw > |content| then |content|
    else raw
  }

  /** `id` is the first key of the sorted map. */
  predicate IsFirst(id: int, buffered: map<int, Bytes>) {
    id in buffered && forall k | k in buffered :: id <= k
  }

  /** The next call of `reply`. */
  function Try(s: Session, id: int, response: Bytes, oracle: Oracle): Attempt {
    Attempt(id, response, Count(oracle(|s.wire|), response))
  }

  function Attempted(s: Session, a: Attempt): Session {
    s.(wire := s.wire + [a], eof := s.eof || !a.Positive())
  }

  /** send_first_response. */
  function Drain(s: Session, oracle: Oracle): Session
    decreases |s.buffered|
  {
    if IsFirst(s.toSend, s.buffered) then
      var a := Try(s, s.toSend, s.buffered[s.toSend], oracle);
      var s' := Attempted(s, a);
      if a.Positive() then
        Drain(s'.(toSend := s.toSend + 1, buffered := s.buffered - {s.toSend}), oracle)
      else s'
    else s
  }

  /** insert_new_response; `std::map::insert` keeps an entry that is there. */
  function Insert(s: Session, id: int, response: Bytes, oracle: Oracle): Session {
    if id == s.toSend then
      Drain(Attempted(s, Try(s, id, response, oracle)).(toSend := s.toSend + 1), oracle)
    else if id in s.buffered then Drain(s, oracle)
    else Drain(s.(buffered := s.buffered[id := response]), oracle)
  }

  class SessionCtx {
    /** The session this context was made for. */
    ghost const session: int
    const fd: int
    const oracle: Oracle
    var toSendCommandId: int
    var bufferedResponses: map<int, Bytes>
    var isEofReach: bool
    /** The calls of `reply` made on this session. */
    var wire: seq<Attempt>

    function View(): Session
      reads this
    {
      Session(toSendCommandId, bufferedResponses, isEofReach, wire)
    }

    constructor (ghost session: int, fd: int, oracle: Oracle)
      ensures View() == Opened && this.session == session && this.fd == fd && this.oracle == oracle
    {
      this.session, this.fd, this.oracle := session, fd, oracle;
      toSendCommandId, bufferedResponses, isEofReach, wire := 0, map[], false, [];
    }

    /** One `write` to the socket. */
    method Write(content: Bytes) returns (result: int)
      requires content != []
      ensures result == Count(oracle(|wire|), content)
    {
      result := Count(oracle(|wire|), content);
    }

    /** The loop returns after the first `write` that is not an error.  After an
        error the offset is -1, which the comparison with the unsigned length
        takes for a huge number, so the loop ends there too. */
    method Reply(id: int, content: Bytes) returns (result: int)
      modifies this`wire
      ensures var a := Try(old(View()), id, content, oracle);
        wire == old(wire) + [a] && result == (if content != [] && a.count >= 0 then a.count else 1)
    {
      var sentSize := 0;
      while 0 <= sentSize < |content|
        invariant sentSize == 0 || (sentSize == -1 == Count(oracle(|wire|), content) && content != [])
        invariant wire == old(wire)
        decreases if sentSize < 0 then 0 else 1
      {
        var oneSendSize := Write(content[sentSize..]);
        if 0 <= oneSendSize {
          wire := wire + [Attempt(id, content, oneSendSize)];
          return oneSendSize;
        }
        sentSize := sentSize + oneSendSize;
      }
      wire := wire + [Attempt(id, content, sentSize)];
      return 1;
    }

    method InsertNewResponse(commandId: int, response: Bytes)
      modifies this
      ensures View() == Insert(old(View()), commandId, response, oracle)
    {
      if commandId == toSendCommandId {
        var result := Reply(commandId, response);
        if result <= 0 {
          isEofReach := true;
        }
        toSendCommandId := toSendCommandId + 1;
      } else {
        if commandId !in bufferedResponses {
          bufferedResponses := bufferedResponses[commandId := response];
        }
      }
      SendFirstResponse();
    }

    method SendFirstResponse()
      modifies this
      ensures View() == Drain(old(View()), oracle)
    {
      var result := 1;
      while IsFirst(toSendCommandId, bufferedResponses)
        invariant result > 0
        invariant Drain(View(), oracle) == Drain(old(View()), oracle)
        decreases |bufferedResponses|
      {
        result := Reply(toSendCommandId, bufferedResponses[toSendCommandId]);
        if result <= 0 {
          break;
        }
        toSendCommandId := toSendCommandId + 1;
        bufferedResponses := bufferedResponses - {toSendCommandId - 1};
      }
      if result <= 0 {
        isEofReach := true;
      }
    }
  }
}
