/** The request decoder of deps/simple_resp: an incremental CRLF scanner.
    The functions give the meaning of one scan; class `DecodeContext` is the
    code, field by field and loop by loop, proved against them. */
module Decoder {
  import opened Text

  datatype ParseState = Init | ParseElements | ParseBulkStrings

  /** One call of the request handler. */
  datatype Dispatch = Dispatch(id: nat, request: seq<Bytes>)

  /** What a decode context knows apart from its buffered bytes.  `log` is the
      list of handler calls made so far. */
  datatype Core = Core(
    state: ParseState,
    nextId: nat,
    listSize: nat,
    strSize: nat,
    partial: seq<Bytes>,
    log: seq<Dispatch>)

  /** A new context; the source leaves `reading_str_size` unset. */
  function Fresh(unset: nat): Core {
    Core(Init, 0, 0, unset, [], [])
  }

  function Push(c: Core, element: Bytes): Core {
    var list := c.partial + [element];
    if |list| == c.listSize
    then Core(Init, c.nextId + 1, 0, 0, [], c.log + [Dispatch(c.nextId, list)])
    else c.(state := ParseElements, strSize := 0, partial := list)
  }

  /** What the decoder makes of the bytes before a CRLF: an exception, "the
      CRLF belongs to a payload, keep scanning", or a consumed token. */
  datatype Verdict = Throw | Keep | Done(core: Core)

  function OnToken(c: Core, token: Bytes): Verdict {
    match c.state
    case Init =>
      if token == [] then Throw else
      (match Stoi(token[1..])
       case None => Throw
       case Some(v) => Done(c.(state := ParseElements, listSize := ToSize(v))))
    case ParseElements =>
      if token != [] && token[0] == ':' then
        Done(c.(partial := c.partial + [token]))
      else if token != [] && token[0] == '$' then
        (match Stoi(token[1..])
         case None => Throw
         case Some(v) =>
           if ToSize(v) == 0 then Done(Push(c.(strSize := 0), []))
           else Done(c.(state := ParseBulkStrings, strSize := ToSize(v))))
      else
        Done(c)
    case ParseBulkStrings =>
      if |token| < c.strSize then Keep
      else if |token| > c.strSize then Done(c)
      else Done(Push(c, token))
  }

  /** A decode either leaves a core and the unconsumed bytes, or throws, and
      then only the handler calls already made remain. */
  datatype Stream = Live(core: Core, residue: Bytes) | Threw(calls: seq<Dispatch>)

  function LogOf(s: Stream): seq<Dispatch> {
    if s.Live? then s.core.log else s.calls
  }

  /** One scan of `buf`, whose current token starts at 0, from offset `from`. */
  function Run(c: Core, buf: Bytes, from: nat): Stream
    requires from <= |buf|
    decreases |buf| - from
  {
    if from + 1 >= |buf| then Live(c, buf)
    else if CrlfAt(buf, from) then
      match OnToken(c, buf[..from])
      case Throw => Threw(c.log)
      case Keep => Run(c, buf, from + 1)
      case Done(c') => Run(c', buf[from + 2..], 0)
    else Run(c, buf, from + 1)
  }

  /** Append a chunk and decode; nothing happens after an exception. */
  function Feed(s: Stream, chunk: Bytes): Stream {
    match s
    case Live(c, residue) => Run(c, residue + chunk, 0)
    case Threw(_) => s
  }

  function FeedAll(s: Stream, chunks: seq<Bytes>): Stream
    decreases |chunks|
  {
    if chunks == [] then s else FeedAll(Feed(s, chunks[0]), chunks[1..])
  }

  /** simple_resp::decode_context together with the two methods of
      simple_resp::decoder, which has no state of its own.  An exception that
      leaves `parse` is the result `threw`. */
  class DecodeContext {
    const sessionId: int
    var state: ParseState
    var lastCommandId: nat
    var readingListSize: nat
    var readingStrSize: nat
    var bufferedInput: Bytes
    var reqList: seq<Bytes>
    /** The calls made to the handler. */
    var calls: seq<Dispatch>

    function View(): Core
      reads this
    {
      Core(state, lastCommandId, readingListSize, readingStrSize, reqList, calls)
    }

    constructor (sessionId: int, unset: nat)
      ensures View() == Fresh(unset) && bufferedInput == [] && this.sessionId == sessionId
    {
      this.sessionId := sessionId;
      state, lastCommandId, bufferedInput := Init, 0, [];
      readingListSize, readingStrSize, reqList, calls := 0, unset, [], [];
    }

    method AppendNewBuffer(buffer: Bytes)
      modifies this`bufferedInput
      ensures bufferedInput == old(bufferedInput) + buffer
    {
      bufferedInput := bufferedInput + buffer;
    }

    method PopBuffer(start: nat)
      requires start <= |bufferedInput|
      modifies this`bufferedInput
      ensures old(bufferedInput) == old(bufferedInput)[..start] + bufferedInput
    {
      bufferedInput := bufferedInput[start..];
    }

    method PushElement(element: Bytes)
      modifies this
      ensures View() == Push(old(View()), element)
      ensures bufferedInput == old(bufferedInput)
    {
      readingStrSize := 0;
      reqList := reqList + [element];
      if |reqList| == readingListSize {
        calls := calls + [Dispatch(lastCommandId, reqList)];
        lastCommandId := lastCommandId + 1;
        reqList := [];
        readingListSize := 0;
        state := Init;
      } else {
        state := ParseElements;
      }
    }

    method Decode() returns (threw: bool)
      modifies this
      ensures threw == Feed(Live(old(View()), old(bufferedInput)), []).Threw?
      ensures !threw ==> Live(View(), bufferedInput) == Feed(Live(old(View()), old(bufferedInput)), [])
      ensures calls == LogOf(Feed(Live(old(View()), old(bufferedInput)), []))
    {
      assert bufferedInput + [] == bufferedInput;
      if |bufferedInput| <= 0 {
        return false;
      }
      threw := Parse();
    }

    method Parse() returns (threw: bool)
      modifies this
      ensures threw == Run(old(View()), old(bufferedInput), 0).Threw?
      ensures !threw ==> Live(View(), bufferedInput) == Run(old(View()), old(bufferedInput), 0)
      ensures calls == LogOf(Run(old(View()), old(bufferedInput), 0))
    {
      hide OnToken;
      ghost var goal := Run(View(), bufferedInput, 0);
      var tokenStart, i := 0, 0;
      while i < |bufferedInput|
        invariant tokenStart <= i <= |bufferedInput| && bufferedInput == old(bufferedInput)
        invariant goal == Run(View(), bufferedInput[tokenStart..], i - tokenStart)
      {
        if bufferedInput[i] == '\r' && i + 1 != |bufferedInput| && bufferedInput[i + 1] == '\n' {
          var token := bufferedInput[tokenStart..i];
          ghost var rest := bufferedInput[tokenStart..];
          assert CrlfAt(rest, i - tokenStart) && rest[..i - tokenStart] == token;
          assert rest[i - tokenStart + 2..] == bufferedInput[i + 2..];
          var tokenThrew, tokenDone := HandleToken(token);
          if tokenThrew {
            return true;
          }
          if tokenDone {
            i := i + 1;
            tokenStart := i + 1;
          }
        }
        i := i + 1;
      }
      PopBuffer(tokenStart);
      return false;
    }

    /** The switch of `parse` over the state; `done` is its `is_token_done`. */
    method HandleToken(token: Bytes) returns (threw: bool, done: bool)
      modifies this
      ensures bufferedInput == old(bufferedInput)
      ensures match OnToken(old(View()), token)
        case Throw => threw && View() == old(View())
        case Keep => !threw && !done && View() == old(View())
        case Done(core) => !threw && done && View() == core
    {
      threw, done := false, true;
      match state {
        case Init =>
          if token == [] { return true, true; }
          var size := Stoi(token[1..]);
          if size.None? { return true, true; }
          readingListSize := ToSize(size.value);
          state := ParseElements;
        case ParseElements =>
          if token != [] && token[0] == ':' {
            reqList := reqList + [token];
          } else if token != [] && token[0] == '$' {
            var size := Stoi(token[1..]);
            if size.None? { return true, true; }
            readingStrSize := ToSize(size.value);
            if readingStrSize == 0 {
              PushElement([]);
            } else {
              // the source compares the buffer with the announced size
              // here, and leaves the switch either way
              state := ParseBulkStrings;
            }
          }
        case ParseBulkStrings =>
          if |token| < readingStrSize {
            done := false;
          } else if |token| > readingStrSize {
          } else {
            PushElement(token);
          }
      }
    }
  }
}
