/** Laws of the decoder that hold for every byte string, malformed ones included. */
module DecoderLaws {
  import opened Text
  import opened Decoder

  // ----- chunking -----

  /** Every CRLF of `buf` before `upTo` belongs to the current token. */
  ghost predicate Quiet(c: Core, buf: Bytes, upTo: nat)
    requires upTo <= |buf|
  {
    forall j | 0 <= j < upTo :: CrlfAt(buf, j) ==> OnToken(c, buf[..j]) == Keep
  }

  lemma {:induction false} SkipQuiet(c: Core, buf: Bytes, from: nat, upTo: nat)
    requires from <= upTo <= |buf| && Quiet(c, buf, upTo)
    ensures Run(c, buf, from) == Run(c, buf, upTo)
    decreases upTo - from
  {
    if from < upTo {
      SkipQuiet(c, buf, from + 1, upTo);
    }
  }

  /** A scan that stopped at the end of `buf` can be taken up again from the
      start of its residue once more bytes are there. */
  lemma {:induction false} RunThenMore(c: Core, buf: Bytes, from: nat, more: Bytes)
    requires from < |buf| || from == 0
    requires from <= |buf| && Quiet(c, buf, from)
    ensures Run(c, buf + more, from) == Feed(Run(c, buf, from), more)
    decreases |buf| - from
  {
    if from + 1 >= |buf| {
      forall j | 0 <= j < from && CrlfAt(buf + more, j)
        ensures OnToken(c, (buf + more)[..j]) == Keep
      {
        assert CrlfAt(buf, j) && (buf + more)[..j] == buf[..j];
      }
      SkipQuiet(c, buf + more, 0, from);
    } else {
      assert (buf + more)[..from] == buf[..from];
      assert CrlfAt(buf + more, from) == CrlfAt(buf, from);
      if CrlfAt(buf, from) && OnToken(c, buf[..from]).Done? {
        assert (buf + more)[from + 2..] == buf[from + 2..] + more;
        RunThenMore(OnToken(c, buf[..from]).core, buf[from + 2..], 0, more);
      } else if CrlfAt(buf, from) && OnToken(c, buf[..from]).Throw? {
      } else {
        RunThenMore(c, buf, from + 1, more);
      }
    }
  }

  /** Feeding `a` and then `b` is feeding `a + b`: same handler calls, same
      state and leftover bytes, or the same exception. */
  lemma ChunkingInvariance(s: Stream, a: Bytes, b: Bytes)
    ensures Feed(Feed(s, a), b) == Feed(s, a + b)
  {
    if s.Live? {
      assert s.residue + (a + b) == (s.residue + a) + b;
      RunThenMore(s.core, s.residue + a, 0, b);
    }
  }

  function Flatten(chunks: seq<Bytes>): Bytes {
    if chunks == [] then [] else chunks[0] + Flatten(chunks[1..])
  }

  /** ... and so any way of cutting the input into chunks is immaterial. */
  lemma {:induction false} AnyChunking(c: Core, chunks: seq<Bytes>)
    ensures FeedAll(Live(c, []), chunks) == Feed(Live(c, []), Flatten(chunks))
  {
    assert Feed(Live(c, []), []) == Live(c, []);
    assert [] + Flatten(chunks) == Flatten(chunks);
    ChunkingFrom(Live(c, []), [], chunks);
  }

  lemma {:induction false} ChunkingFrom(s: Stream, fed: Bytes, chunks: seq<Bytes>)
    ensures FeedAll(Feed(s, fed), chunks) == Feed(s, fed + Flatten(chunks))
    decreases |chunks|
  {
    if chunks == [] {
      assert fed + [] == fed;
    } else {
      ChunkingInvariance(s, fed, chunks[0]);
      ChunkingFrom(s, fed + chunks[0], chunks[1..]);
      Assoc(fed, chunks[0], Flatten(chunks[1..]));
    }
  }

  // ----- residue -----

  /** The leftover bytes are a suffix of the input, and hold no CRLF except,
      while a payload is being read, at offsets below its announced size. */
  lemma {:induction false} ResidueNormalForm(c: Core, buf: Bytes, from: nat)
    requires (from < |buf| || from == 0) && from <= |buf| && Quiet(c, buf, from)
    ensures var s := Run(c, buf, from); s.Live? ==>
      && |s.residue| <= |buf| && s.residue == buf[|buf| - |s.residue|..]
      && forall j | CrlfAt(s.residue, j) :: s.core.state == ParseBulkStrings && j < s.core.strSize
    decreases |buf| - from
  {
    if from + 1 >= |buf| {
      forall j | CrlfAt(buf, j) ensures c.state == ParseBulkStrings && j < c.strSize {
        assert OnToken(c, buf[..j]) == Keep;
      }
    } else if CrlfAt(buf, from) && OnToken(c, buf[..from]).Done? {
      ResidueNormalForm(OnToken(c, buf[..from]).core, buf[from + 2..], 0);
    } else if CrlfAt(buf, from) && OnToken(c, buf[..from]).Throw? {
    } else {
      ResidueNormalForm(c, buf, from + 1);
    }
  }

  /** Decoding again without new bytes changes nothing. */
  lemma DecodeAgain(s: Stream, chunk: Bytes)
    ensures Feed(Feed(s, chunk), []) == Feed(s, chunk)
  {
    ChunkingInvariance(s, chunk, []);
    assert chunk + [] == chunk;
  }

  // ----- the handler calls of any stream -----

  /** Ids count from 0 without gaps, no request is empty, and between requests
      there is no partial list. */
  ghost predicate GoodLog(log: seq<Dispatch>) {
    forall i | 0 <= i < |log| :: log[i].id == i && log[i].request != []
  }

  ghost predicate GoodCore(c: Core) {
    && GoodLog(c.log) && c.nextId == |c.log|
    && (c.state == Init ==> c.partial == [])
  }

  lemma {:induction false} RunKeepsGood(c: Core, buf: Bytes, from: nat)
    requires from <= |buf| && GoodCore(c)
    ensures var s := Run(c, buf, from); (s.Live? ==> GoodCore(s.core)) && GoodLog(LogOf(s))
    ensures c.log <= LogOf(Run(c, buf, from))
    decreases |buf| - from
  {
    if from + 1 >= |buf| {
    } else if CrlfAt(buf, from) && OnToken(c, buf[..from]).Done? {
      RunKeepsGood(OnToken(c, buf[..from]).core, buf[from + 2..], 0);
    } else if CrlfAt(buf, from) && OnToken(c, buf[..from]).Throw? {
    } else {
      RunKeepsGood(c, buf, from + 1);
    }
  }

  ghost predicate GoodStream(s: Stream) {
    (s.Live? ==> GoodCore(s.core)) && GoodLog(LogOf(s))
  }

  lemma FeedKeepsGood(s: Stream, chunk: Bytes)
    requires GoodStream(s)
    ensures GoodStream(Feed(s, chunk)) && LogOf(s) <= LogOf(Feed(s, chunk))
  {
    if s.Live? {
      RunKeepsGood(s.core, s.residue + chunk, 0);
    }
  }

  /** Outside `Init`, the next request to be dispatched has exactly the
      declared number of elements, and extends the partial list. */
  lemma {:induction false} NextDispatchHasDeclaredSize(c: Core, buf: Bytes, from: nat)
    requires from <= |buf| && c.state != Init
    requires |c.log| < |LogOf(Run(c, buf, from))|
    ensures var request := LogOf(Run(c, buf, from))[|c.log|].request;
      |request| == c.listSize && c.partial <= request
    ensures c.log <= LogOf(Run(c, buf, from))
    decreases |buf| - from
  {
    if CrlfAt(buf, from) && OnToken(c, buf[..from]).Done? {
      var c' := OnToken(c, buf[..from]).core;
      if c'.state == Init {
        LogGrows(c', buf[from + 2..], 0);
      } else {
        NextDispatchHasDeclaredSize(c', buf[from + 2..], 0);
      }
    } else {
      NextDispatchHasDeclaredSize(c, buf, from + 1);
    }
  }

  lemma {:induction false} LogGrows(c: Core, buf: Bytes, from: nat)
    requires from <= |buf|
    ensures c.log <= LogOf(Run(c, buf, from))
    decreases |buf| - from
  {
    if from + 1 >= |buf| {
    } else if CrlfAt(buf, from) && OnToken(c, buf[..from]).Done? {
      LogGrows(OnToken(c, buf[..from]).core, buf[from + 2..], 0);
    } else if CrlfAt(buf, from) && OnToken(c, buf[..from]).Throw? {
    } else {
      LogGrows(c, buf, from + 1);
    }
  }

  /** Whatever bytes arrive between two requests: the first line read, less
      its first character, is the element count of the next request. */
  lemma {:induction false} HeaderGovernsDispatch(c: Core, buf: Bytes, header: nat)
    requires c.state == Init && CrlfAt(buf, header) && NoCrlf(buf[..header + 1])
    requires |c.log| < |LogOf(Run(c, buf, 0))|
    ensures header > 0 && Stoi(buf[1..header]).Some?
    ensures |LogOf(Run(c, buf, 0))[|c.log|].request| == ToSize(Stoi(buf[1..header]).value)
  {
    forall j | 0 <= j < header && CrlfAt(buf, j) ensures false {
      assert CrlfAt(buf[..header + 1], j);
    }
    SkipQuiet(c, buf, 0, header);
    var token := buf[..header];
    assert OnToken(c, token).Done?;
    assert token[1..] == buf[1..header];
    NextDispatchHasDeclaredSize(OnToken(c, token).core, buf[header + 2..], 0);
  }

  /** The bytes before `offset` end a scan in `mid`, between two requests, after
      exactly the first `i` handler calls, and the rest is scanned from there. */
  ghost predicate Between(c: Core, buf: Bytes, i: nat, offset: nat, mid: Core) {
    && offset <= |buf| && mid.state == Init && |mid.log| == i && GoodCore(mid)
    && Run(c, buf[..offset], 0) == Live(mid, [])
    && Run(c, buf, 0) == Run(mid, buf[offset..], 0)
  }

  lemma BetweenStep(c: Core, buf: Bytes, from: nat, c': Core, i: nat, offset: nat, mid: Core)
    requires from + 2 <= |buf| && Quiet(c, buf, from) && CrlfAt(buf, from)
    requires OnToken(c, buf[..from]) == Done(c') && Between(c', buf[from + 2..], i, offset, mid)
    ensures Between(c, buf, i, from + 2 + offset, mid)
  {
    var start := buf[..from + 2 + offset];
    SkipQuiet(c, buf, 0, from);
    forall j | 0 <= j < from && CrlfAt(start, j) ensures OnToken(c, start[..j]) == Keep {
      assert CrlfAt(buf, j) && start[..j] == buf[..j];
    }
    SkipQuiet(c, start, 0, from);
    assert CrlfAt(start, from) && start[..from] == buf[..from];
    assert start[from + 2..] == buf[from + 2..][..offset];
    assert buf[from + 2 + offset..] == buf[from + 2..][offset..];
  }

  /** Every run can be cut where a request begins. */
  lemma {:induction false} CutAtRequest(c: Core, buf: Bytes, from: nat, i: nat) returns (offset: nat, mid: Core)
    requires (from < |buf| || from == 0) && from <= |buf| && Quiet(c, buf, from) && GoodCore(c)
    requires |c.log| < i < |LogOf(Run(c, buf, from))|
    ensures Between(c, buf, i, offset, mid)
    decreases |buf| - from
  {
    if CrlfAt(buf, from) && OnToken(c, buf[..from]).Done? {
      var c', rest := OnToken(c, buf[..from]).core, buf[from + 2..];
      if |c'.log| == i {
        offset, mid := 0, c';
        assert rest[0..] == rest;
      } else {
        offset, mid := CutAtRequest(c', rest, 0, i);
      }
      hide Run, Quiet, GoodCore, Between;
      BetweenStep(c, buf, from, c', i, offset, mid);
      offset := from + 2 + offset;
    } else {
      offset, mid := CutAtRequest(c, buf, from + 1, i);
    }
  }

  lemma {:induction false} FirstLine(c: Core, buf: Bytes, from: nat) returns (header: nat)
    requires from <= |buf| && |c.log| < |LogOf(Run(c, buf, from))|
    requires forall j | 0 <= j < from :: !CrlfAt(buf, j)
    ensures CrlfAt(buf, header) && forall j | 0 <= j < header :: !CrlfAt(buf, j)
    decreases |buf| - from
  {
    if CrlfAt(buf, from) {
      header := from;
    } else {
      header := FirstLine(c, buf, from + 1);
    }
  }

  /** Every request of every byte stream, malformed ones included, has the size its
      own header declared: the stream can be cut before it, between two requests
      and after exactly the calls before it, and the first line from there, less its
      first character, is its size. */
  lemma EveryRequestHasDeclaredSize(c: Core, buf: Bytes, i: nat) returns (offset: nat, mid: Core, header: nat)
    requires c.state == Init && GoodCore(c) && |c.log| <= i < |LogOf(Run(c, buf, 0))|
    ensures Between(c, buf, i, offset, mid)
    ensures var rest := buf[offset..];
      && 0 < header && CrlfAt(rest, header) && NoCrlf(rest[..header + 1])
      && Stoi(rest[1..header]).Some?
      && |LogOf(Run(c, buf, 0))[i].request| == ToSize(Stoi(rest[1..header]).value)
  {
    if i == |c.log| {
      offset, mid := 0, c;
      assert buf[0..] == buf;
    } else {
      offset, mid := CutAtRequest(c, buf, 0, i);
    }
    var rest := buf[offset..];
    header := FirstLine(mid, rest, 0);
    var line := rest[..header + 1];
    forall j | 0 <= j < |line| ensures !CrlfAt(line, j) {
      assert CrlfAt(line, j) ==> CrlfAt(rest, j);
    }
    HeaderGovernsDispatch(mid, rest, header);
  }

  /** The same for a new connection, however its bytes were cut into chunks. */
  lemma EveryRequestOfConnection(unset: nat, chunks: seq<Bytes>, i: nat) returns (offset: nat, mid: Core, header: nat)
    requires i < |LogOf(FeedAll(Live(Fresh(unset), []), chunks))|
    ensures var buf := Flatten(chunks);
      && Between(Fresh(unset), buf, i, offset, mid)
      && var rest := buf[offset..];
         && 0 < header && CrlfAt(rest, header) && NoCrlf(rest[..header + 1])
         && Stoi(rest[1..header]).Some?
         && |LogOf(FeedAll(Live(Fresh(unset), []), chunks))[i].request| == ToSize(Stoi(rest[1..header]).value)
  {
    AnyChunking(Fresh(unset), chunks);
    assert [] + Flatten(chunks) == Flatten(chunks);
    offset, mid, header := EveryRequestHasDeclaredSize(Fresh(unset), Flatten(chunks), i);
  }

  // ----- returning to Init -----

  /** The decoder is back in `Init` without a new handler call only if it never
      left it and consumed nothing. */
  lemma {:induction false} NoFreeReturn(c: Core, buf: Bytes, from: nat)
    requires from <= |buf|
    requires var s := Run(c, buf, from); s.Live? && s.core.state == Init && |s.core.log| == |c.log|
    ensures Run(c, buf, from) == Live(c, buf)
    decreases |buf| - from
  {
    if from + 1 >= |buf| {
    } else if CrlfAt(buf, from) && OnToken(c, buf[..from]).Done? {
      var c' := OnToken(c, buf[..from]).core;
      LogGrows(c', buf[from + 2..], 0);
      NoFreeReturn(c', buf[from + 2..], 0);
    } else {
      NoFreeReturn(c, buf, from + 1);
    }
  }

  // ----- what each line does -----

  /** A line without a CRLF of its own is one token, whatever follows. */
  lemma OneLine(c: Core, line: Bytes, rest: Bytes)
    requires c.state != ParseBulkStrings && NoCrlf(line)
    ensures Run(c, line + CRLF + rest, 0) ==
      if OnToken(c, line).Done? then Run(OnToken(c, line).core, rest, 0) else Threw(c.log)
  {
    var buf := line + CRLF + rest;
    forall j | 0 <= j < |line| ensures !CrlfAt(buf, j) {
      assert buf[|line|] == '\r' && !CrlfAt(line, j);
    }
    SkipQuiet(c, buf, 0, |line|);
    assert CrlfAt(buf, |line|) && buf[..|line|] == line && buf[|line| + 2..] == rest;
  }

  /** Between requests every line is a header: its first character is not looked at,
      and the rest has to be a number. */
  lemma InitLine(c: Core, line: Bytes, rest: Bytes)
    requires c.state == Init && NoCrlf(line)
    ensures Run(c, line + CRLF + rest, 0) ==
      if line == [] || Stoi(line[1..]).None? then Threw(c.log)
      else Run(Core(ParseElements, c.nextId, ToSize(Stoi(line[1..]).value), c.strSize, c.partial, c.log), rest, 0)
  {
    OneLine(c, line, rest);
  }

  /** The core after one more element of the request: the request is handed over if
      it has the declared size now, and otherwise the next element is awaited. */
  function Taken(c: Core, element: Bytes): Core {
    if |c.partial| + 1 == c.listSize
    then Core(Init, c.nextId + 1, 0, 0, [], c.log + [Dispatch(c.nextId, c.partial + [element])])
    else Core(ParseElements, c.nextId, c.listSize, 0, c.partial + [element], c.log)
  }

  /** Inside a request a `:` line is kept whole and completes nothing; a `$` line
      announces a payload, or is the empty one; any other line changes nothing. */
  lemma ElementLine(c: Core, line: Bytes, rest: Bytes)
    requires c.state == ParseElements && NoCrlf(line)
    ensures var s := Run(c, line + CRLF + rest, 0);
      if line != [] && line[0] == ':' then
        s == Run(Core(ParseElements, c.nextId, c.listSize, c.strSize, c.partial + [line], c.log), rest, 0)
      else if line != [] && line[0] == '$' then
        if Stoi(line[1..]).None? then s == Threw(c.log)
        else if Stoi(line[1..]).value == 0 then s == Run(Taken(c, []), rest, 0)
        else s == Run(Core(ParseBulkStrings, c.nextId, c.listSize, ToSize(Stoi(line[1..]).value), c.partial, c.log), rest, 0)
      else s == Run(c, rest, 0)
  {
    OneLine(c, line, rest);
  }

  /** In a payload the first CRLF at or behind the announced size counts.  Right at
      it, the payload is taken; behind it, the line is dropped, and the scan goes on
      after it still waiting for a payload of that size. */
  lemma PayloadLine(c: Core, buf: Bytes, at: nat)
    requires c.state == ParseBulkStrings && c.strSize <= at && CrlfAt(buf, at)
    requires forall j | c.strSize <= j < at :: !CrlfAt(buf, j)
    ensures Run(c, buf, 0) == Run(if at == c.strSize then Taken(c, buf[..at]) else c, buf[at + 2..], 0)
  {
    SkipQuiet(c, buf, 0, at);
  }

  /** Without such a CRLF nothing happens yet. */
  lemma PayloadWaits(c: Core, buf: Bytes)
    requires c.state == ParseBulkStrings && forall j | c.strSize <= j :: !CrlfAt(buf, j)
    ensures Run(c, buf, 0) == Live(c, buf)
  {
    SkipQuiet(c, buf, 0, |buf|);
  }

  /** The element awaited as a payload of `strSize` bytes has exactly that many in the
      request it is dispatched with, whatever bytes come. */
  lemma {:induction false} NextElementHasDeclaredSize(c: Core, buf: Bytes, from: nat)
    requires from <= |buf| && c.state == ParseBulkStrings
    requires |c.log| < |LogOf(Run(c, buf, from))|
    ensures var request := LogOf(Run(c, buf, from))[|c.log|].request;
      |c.partial| < |request| && |request[|c.partial|]| == c.strSize
    decreases |buf| - from
  {
    if CrlfAt(buf, from) && OnToken(c, buf[..from]).Done? {
      var c' := OnToken(c, buf[..from]).core;
      if c'.state == Init {
        LogGrows(c', buf[from + 2..], 0);
      } else if c'.state == ParseElements {
        NextDispatchHasDeclaredSize(c', buf[from + 2..], 0);
      } else {
        NextElementHasDeclaredSize(c', buf[from + 2..], 0);
      }
    } else {
      NextElementHasDeclaredSize(c, buf, from + 1);
    }
  }

  /** So a `$` header is kept: the next element of the request has exactly the size
      it announced. */
  lemma HeaderGovernsElement(c: Core, line: Bytes, rest: Bytes)
    requires c.state == ParseElements && NoCrlf(line) && line != [] && line[0] == '$'
    requires |c.log| < |LogOf(Run(c, line + CRLF + rest, 0))|
    ensures Stoi(line[1..]).Some?
    ensures var request := LogOf(Run(c, line + CRLF + rest, 0))[|c.log|].request;
      |c.partial| < |request| && |request[|c.partial|]| == ToSize(Stoi(line[1..]).value)
  {
    ElementLine(c, line, rest);
    var size := Stoi(line[1..]).value;
    if size == 0 {
      var c' := Taken(c, []);
      if c'.state == Init {
        LogGrows(c', rest, 0);
      } else {
        NextDispatchHasDeclaredSize(c', rest, 0);
      }
    } else {
      NextElementHasDeclaredSize(
        Core(ParseBulkStrings, c.nextId, c.listSize, ToSize(size), c.partial, c.log), rest, 0);
    }
  }

  // ----- liveness boundary -----

  /** At least as many elements read as declared, and still waiting. */
  predicate Stuck(c: Core) {
    c.state != Init && |c.partial| >= c.listSize
  }

  /** From there no input ever dispatches again. */
  lemma {:induction false} StuckForever(c: Core, buf: Bytes, from: nat)
    requires from <= |buf| && Stuck(c)
    ensures LogOf(Run(c, buf, from)) == c.log
    ensures Run(c, buf, from).Live? ==> Stuck(Run(c, buf, from).core)
    decreases |buf| - from
  {
    if from + 1 >= |buf| {
    } else if CrlfAt(buf, from) && OnToken(c, buf[..from]).Done? {
      StuckForever(OnToken(c, buf[..from]).core, buf[from + 2..], 0);
    } else if CrlfAt(buf, from) && OnToken(c, buf[..from]).Throw? {
    } else {
      StuckForever(c, buf, from + 1);
    }
  }

  // ----- sizes no string or list can have -----

  /** No `std::string` is this long, and no list of strings has this many elements. */
  const MAX_LENGTH := 0x8000_0000_0000_0000

  /** A value of `stoi` cast to an unsigned size: small, or negative before. */
  predicate IsSize(n: nat) {
    n <= INT_MAX || SIZE_MODULUS - INT_MAX - 1 <= n < SIZE_MODULUS
  }

  predicate Sized(c: Core) {
    IsSize(c.listSize) && (c.state == ParseBulkStrings ==> IsSize(c.strSize))
  }

  /** No list can become as long as declared, or no payload: the elements are too
      many already, or a size was negative. */
  predicate Dead(c: Core) {
    Stuck(c) || (c.state != Init && c.listSize > INT_MAX) || (c.state == ParseBulkStrings && c.strSize > INT_MAX)
  }

  /** Sizes stay what `stoi` can give, and each element takes two bytes at least. */
  lemma {:induction false} RunKeepsSized(c: Core, buf: Bytes, from: nat)
    requires from <= |buf| && Sized(c)
    ensures var s := Run(c, buf, from);
      s.Live? ==> Sized(s.core) && 2 * |s.core.partial| + |s.residue| <= 2 * |c.partial| + |buf|
    decreases |buf| - from
  {
    if from + 1 >= |buf| {
    } else if CrlfAt(buf, from) && OnToken(c, buf[..from]).Done? {
      RunKeepsSized(OnToken(c, buf[..from]).core, buf[from + 2..], 0);
    } else if CrlfAt(buf, from) && OnToken(c, buf[..from]).Throw? {
    } else {
      RunKeepsSized(c, buf, from + 1);
    }
  }

  lemma {:induction false} TooFewElements(c: Core, buf: Bytes, from: nat)
    requires from <= |buf| && c.state != Init && 2 * |c.partial| + |buf| < 2 * c.listSize
    ensures LogOf(Run(c, buf, from)) == c.log
    decreases |buf| - from
  {
    if from + 1 >= |buf| {
    } else if CrlfAt(buf, from) && OnToken(c, buf[..from]).Done? {
      TooFewElements(OnToken(c, buf[..from]).core, buf[from + 2..], 0);
    } else if CrlfAt(buf, from) && OnToken(c, buf[..from]).Throw? {
    } else {
      TooFewElements(c, buf, from + 1);
    }
  }

  lemma {:induction false} TooShort(c: Core, buf: Bytes, from: nat)
    requires from <= |buf| <= c.strSize && c.state == ParseBulkStrings
    ensures Run(c, buf, from) == Live(c, buf)
    decreases |buf| - from
  {
    if from + 1 < |buf| {
      TooShort(c, buf, from + 1);
    }
  }

  /** A dead decoder dispatches nothing on any string there can be. */
  lemma DeadForever(c: Core, buf: Bytes)
    requires Dead(c) && Sized(c) && |c.partial| < MAX_LENGTH && |buf| < MAX_LENGTH
    ensures LogOf(Run(c, buf, 0)) == c.log
  {
    if Stuck(c) {
      StuckForever(c, buf, 0);
    } else if c.listSize > INT_MAX {
      TooFewElements(c, buf, 0);
    } else {
      TooShort(c, buf, 0);
    }
  }

  /** Whatever a connection was sent, its decoder is within these bounds. */
  lemma ConnectionIsSized(unset: nat, chunks: seq<Bytes>)
    requires |Flatten(chunks)| < MAX_LENGTH
    ensures var s := FeedAll(Live(Fresh(unset), []), chunks);
      s.Live? ==> Sized(s.core) && |s.core.partial| < MAX_LENGTH && |s.residue| < MAX_LENGTH
  {
    AnyChunking(Fresh(unset), chunks);
    assert [] + Flatten(chunks) == Flatten(chunks);
    RunKeepsSized(Fresh(unset), Flatten(chunks), 0);
  }
}
