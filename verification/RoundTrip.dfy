/** Requests on the wire (RESP2, "Arrays" and "Sending commands to a Redis
    server"), and what the decoder makes of a pipeline of them. */
module RoundTrip {
  import opened Text
  import opened Decoder
  import opened DecoderLaws

  /** A bulk string, or an integer line `:text`, which the decoder keeps whole. */
  datatype Element = Bulk(payload: Bytes) | Colon(text: Bytes)

  function ElementWire(e: Element): Bytes {
    match e
    case Bulk(p) => ['$'] + Decimal(|p|) + CRLF + p + CRLF
    case Colon(t) => [':'] + t + CRLF
  }

  function ElementsWire(es: seq<Element>): Bytes {
    if es == [] then [] else ElementWire(es[0]) + ElementsWire(es[1..])
  }

  function RequestWire(es: seq<Element>): Bytes {
    ['*'] + Decimal(|es|) + CRLF + ElementsWire(es)
  }

  function PipelineWire(requests: seq<seq<Element>>): Bytes {
    if requests == [] then [] else RequestWire(requests[0]) + PipelineWire(requests[1..])
  }

  function ElementValue(e: Element): Bytes {
    match e
    case Bulk(p) => p
    case Colon(t) => [':'] + t
  }

  function Values(es: seq<Element>): (vs: seq<Bytes>)
    ensures |vs| == |es|
  {
    if es == [] then [] else [ElementValue(es[0])] + Values(es[1..])
  }

  /** The handler calls a pipeline should cause. */
  function Calls(first: nat, requests: seq<seq<Element>>): (calls: seq<Dispatch>)
    ensures |calls| == |requests|
    ensures forall i | 0 <= i < |calls| ::
      calls[i] == Dispatch(first + i, Values(requests[i]))
    decreases |requests|
  {
    if requests == [] then []
    else [Dispatch(first, Values(requests[0]))] + Calls(first + 1, requests[1..])
  }

  /** An integer line must not contain its own terminator; payloads are arbitrary. */
  predicate Writable(e: Element) {
    e.Colon? ==> NoCrlf(e.text)
  }

  predicate Fits(e: Element) {
    Writable(e) && (e.Bulk? ==> |e.payload| <= INT_MAX)
  }

  /** The requests the decoder delivers: every size fits an int, there is a last
      element, and it is a non-empty bulk string. */
  predicate Deliverable(es: seq<Element>) {
    && 0 < |es| <= INT_MAX
    && (forall e | e in es :: Fits(e))
    && es[|es| - 1].Bulk? && es[|es| - 1].payload != []
  }

  // ----- one token -----

  /** A payload is taken by its length, whatever CRLFs it holds. */
  lemma PayloadStep(c: Core, payload: Bytes, rest: Bytes)
    requires c.state == ParseBulkStrings && c.strSize == |payload|
    ensures Run(c, payload + CRLF + rest, 0) == Run(Push(c, payload), rest, 0)
  {
    var buf := payload + CRLF + rest;
    assert Quiet(c, buf, |payload|);
    SkipQuiet(c, buf, 0, |payload|);
    assert CrlfAt(buf, |payload|) && buf[..|payload|] == payload && buf[|payload| + 2..] == rest;
  }

  lemma BulkHeaderStep(c: Core, n: nat, rest: Bytes)
    requires c.state == ParseElements
    ensures Run(c, ['$'] + Decimal(n) + CRLF + rest, 0) ==
      if n > INT_MAX then Threw(c.log)
      else if n == 0 then Run(Push(c, []), rest, 0)
      else Run(c.(state := ParseBulkStrings, strSize := n), rest, 0)
  {
    var line := ['$'] + Decimal(n);
    HeaderHasNoCrlf('$', n);
    StoiDecimal(n);
    assert line[1..] == Decimal(n);
    OneLine(c, line, rest);
    assert Push(c.(strSize := 0), []) == Push(c, []);
  }

  lemma {:induction false} BulkElementWire(p: Bytes, rest: Bytes)
    ensures ElementWire(Bulk(p)) + rest == ['$'] + Decimal(|p|) + CRLF + (p + CRLF + rest)
  {
    var header := ['$'] + Decimal(|p|) + CRLF;
    Assoc(header, p, CRLF);
    Assoc(header, p + CRLF, rest);
  }

  lemma ColonStep(c: Core, text: Bytes, rest: Bytes)
    requires c.state == ParseElements && NoCrlf(text)
    ensures Run(c, ElementWire(Colon(text)) + rest, 0) == Run(AfterElement(c, Colon(text)), rest, 0)
  {
    var line := [':'] + text;
    forall j | 0 <= j < |line| ensures !CrlfAt(line, j) {
      assert j > 0 ==> !CrlfAt(text, j - 1);
    }
    OneLine(c, line, rest);
  }

  function AfterElement(c: Core, e: Element): Core {
    match e
    case Bulk(p) => Push(c, p)
    case Colon(_) => c.(partial := c.partial + [ElementValue(e)])
  }

  /** One element that leaves more to come, or is a non-empty last bulk string. */
  lemma ElementStep(c: Core, e: Element, rest: Bytes)
    requires c.state == ParseElements && Fits(e)
    requires |c.partial| + 1 == c.listSize ==> e.Bulk? && e.payload != []
    ensures Run(c, ElementWire(e) + rest, 0) == Run(AfterElement(c, e), rest, 0)
  {
    match e
    case Bulk(p) =>
      BulkHeaderStep(c, |p|, p + CRLF + rest);
      BulkElementWire(p, rest);
      if p != [] {
        var c' := c.(state := ParseBulkStrings, strSize := |p|);
        PayloadStep(c', p, rest);
        assert Push(c', p) == Push(c, p);
      } else {
        var c' := Push(c, []);
        assert p + CRLF + rest == [] + CRLF + rest;
        OneLine(c', [], rest);
      }
    case Colon(t) =>
      ColonStep(c, t, rest);
  }

  lemma HeaderStep(c: Core, n: nat, rest: Bytes)
    requires c.state == Init
    ensures Run(c, ['*'] + Decimal(n) + CRLF + rest, 0) ==
      if n > INT_MAX then Threw(c.log)
      else Run(c.(state := ParseElements, listSize := n), rest, 0)
  {
    var line := ['*'] + Decimal(n);
    HeaderHasNoCrlf('*', n);
    StoiDecimal(n);
    assert line[1..] == Decimal(n);
    OneLine(c, line, rest);
  }

  // ----- one request -----

  /** The core after the handler was called with the values of `es`. */
  function Delivered(c: Core, es: seq<Element>): Core {
    Core(Init, c.nextId + 1, 0, 0, [], c.log + [Dispatch(c.nextId, c.partial + Values(es))])
  }

  lemma {:induction false} ElementsDeliver(c: Core, es: seq<Element>, rest: Bytes)
    requires c.state == ParseElements && es != [] && |c.partial| + |es| == c.listSize
    requires forall e | e in es :: Fits(e)
    requires es[|es| - 1].Bulk? && es[|es| - 1].payload != []
    ensures Run(c, ElementsWire(es) + rest, 0) == Run(Delivered(c, es), rest, 0)
    decreases |es|
  {
    var c', tail := AfterElement(c, es[0]), ElementsWire(es[1..]) + rest;
    Assoc(ElementWire(es[0]), ElementsWire(es[1..]), rest);
    Assoc(c.partial, [ElementValue(es[0])], Values(es[1..]));
    ElementStep(c, es[0], tail);
    if |es| > 1 {
      ElementsDeliver(c', es[1..], rest);
    } else {
      assert tail == rest && Values(es) == [ElementValue(es[0])];
    }
  }

  lemma RequestStep(c: Core, es: seq<Element>, rest: Bytes)
    requires c.state == Init && c.partial == [] && Deliverable(es)
    ensures Run(c, RequestWire(es) + rest, 0) == Run(Delivered(c, es), rest, 0)
  {
    Assoc(['*'] + Decimal(|es|) + CRLF, ElementsWire(es), rest);
    HeaderStep(c, |es|, ElementsWire(es) + rest);
    ElementsDeliver(c.(state := ParseElements, listSize := |es|), es, rest);
  }

  // ----- requests that are not deliverable -----

  /** An empty last bulk string completes the request on its header line; its
      own line then reaches `Init` as an empty token, which throws. */
  lemma EmptyLastThrows(c: Core, rest: Bytes)
    requires c.state == ParseElements && |c.partial| + 1 == c.listSize
    ensures Run(c, ElementWire(Bulk([])) + rest, 0) ==
      Threw(c.log + [Dispatch(c.nextId, c.partial + [[]])])
  {
    BulkHeaderStep(c, 0, [] + CRLF + rest);
    BulkElementWire([], rest);
    OneLine(Push(c, []), [], rest);
  }

  /** One element that does not fit, or must not come last and does. */
  lemma BadElementBlocks(c: Core, e: Element, rest: Bytes)
    requires c.state == ParseElements && Writable(e)
    requires !Fits(e) || (|c.partial| + 1 == c.listSize && (e == Bulk([]) || e.Colon?))
    ensures var s := Run(c, ElementWire(e) + rest, 0); s.Live? ==> Stuck(s.core)
  {
    if !Fits(e) {
      BulkHeaderStep(c, |e.payload|, e.payload + CRLF + rest);
      BulkElementWire(e.payload, rest);
    } else if e.Bulk? {
      EmptyLastThrows(c, rest);
    } else {
      ColonStep(c, e.text, rest);
      StuckForever(AfterElement(c, e), rest, 0);
    }
  }

  lemma {:induction false} BadElementsBlock(c: Core, es: seq<Element>, rest: Bytes)
    requires c.state == ParseElements && es != [] && |c.partial| + |es| == c.listSize
    requires forall e | e in es :: Writable(e)
    requires (exists e | e in es :: !Fits(e)) || es[|es| - 1] == Bulk([]) || es[|es| - 1].Colon?
    ensures var s := Run(c, ElementsWire(es) + rest, 0); s.Live? ==> Stuck(s.core)
    decreases |es|
  {
    var tail := ElementsWire(es[1..]) + rest;
    Assoc(ElementWire(es[0]), ElementsWire(es[1..]), rest);
    if |es| == 1 || !Fits(es[0]) {
      BadElementBlocks(c, es[0], tail);
    } else {
      ElementStep(c, es[0], tail);
      BadElementsBlock(AfterElement(c, es[0]), es[1..], rest);
    }
  }

  /** A request that is not deliverable throws, or leaves the decoder where
      nothing is ever dispatched again. */
  lemma UndeliverableBlocks(c: Core, es: seq<Element>, rest: Bytes)
    requires c.state == Init && c.partial == [] && !Deliverable(es)
    requires forall e | e in es :: Writable(e)
    ensures var s := Run(c, RequestWire(es) + rest, 0); s.Live? ==> Stuck(s.core)
  {
    var body := ElementsWire(es) + rest;
    var c1 := c.(state := ParseElements, listSize := |es|);
    Assoc(['*'] + Decimal(|es|) + CRLF, ElementsWire(es), rest);
    HeaderStep(c, |es|, body);
    if es == [] {
      StuckForever(c1, body, 0);
    } else if |es| <= INT_MAX {
      BadElementsBlock(c1, es, rest);
    }
  }

  // ----- pipelines -----

  /** The core after the handler was called once for each request. */
  function DeliveredAll(c: Core, requests: seq<seq<Element>>): Core
    decreases |requests|
  {
    if requests == [] then c else DeliveredAll(Delivered(c, requests[0]), requests[1..])
  }

  /** It is back in `Init`, with the calls of all requests appended. */
  lemma {:induction false} DeliveredAllFacts(c: Core, requests: seq<seq<Element>>)
    requires c.state == Init && c.partial == []
    ensures var n := |requests|; var log := c.log + Calls(c.nextId, requests);
      DeliveredAll(c, requests) == if n == 0 then c else Core(Init, c.nextId + n, 0, 0, [], log)
    ensures DeliveredAll(c, requests).log == c.log + Calls(c.nextId, requests)
    decreases |requests|
  {
    hide Values;
    if requests != [] {
      var call, tail := [Dispatch(c.nextId, Values(requests[0]))], requests[1..];
      FirstDelivered(c, requests[0]);
      var c' := Delivered(c, requests[0]);
      hide Delivered;
      DeliveredAllFacts(c', tail);
      Assoc(c.log, call, Calls(c'.nextId, tail));
      assert c'.log + Calls(c'.nextId, tail) == c.log + Calls(c.nextId, requests);
      if tail == [] {
        assert DeliveredAll(c', tail) == c' && Calls(c'.nextId, tail) == [];
      }
    }
  }

  lemma FirstDelivered(c: Core, es: seq<Element>)
    requires c.partial == []
    ensures Delivered(c, es) == Core(Init, c.nextId + 1, 0, 0, [], c.log + [Dispatch(c.nextId, Values(es))])
  {
    hide Values;
    assert [] + Values(es) == Values(es);
  }

  lemma {:induction false} PipelineStep(c: Core, requests: seq<seq<Element>>, rest: Bytes)
    requires c.state == Init && c.partial == []
    requires forall es | es in requests :: Deliverable(es)
    ensures Run(c, PipelineWire(requests) + rest, 0) == Run(DeliveredAll(c, requests), rest, 0)
    decreases |requests|
  {
    if requests == [] {
      assert PipelineWire(requests) + rest == rest;
    } else {
      Assoc(RequestWire(requests[0]), PipelineWire(requests[1..]), rest);
      RequestStep(c, requests[0], PipelineWire(requests[1..]) + rest);
      PipelineStep(Delivered(c, requests[0]), requests[1..], rest);
    }
  }

  /** The pipelined round trip holds exactly for deliverable requests. */
  lemma PipelineRoundTrip(c: Core, requests: seq<seq<Element>>)
    requires c.state == Init && c.partial == []
    requires forall es, e | es in requests && e in es :: Writable(e)
    ensures Run(c, PipelineWire(requests), 0) == Live(DeliveredAll(c, requests), [])
      <==> forall es | es in requests :: Deliverable(es)
  {
    DeliveredAllFacts(c, requests);
    if forall es | es in requests :: Deliverable(es) {
      PipelineStep(c, requests, []);
      assert PipelineWire(requests) + [] == PipelineWire(requests);
    } else {
      var k := FirstUndeliverable(requests);
      var good, bad, more := requests[..k], requests[k], PipelineWire(requests[k + 1..]);
      SplitAt(requests, k);
      PipelineStep(c, good, RequestWire(bad) + more);
      DeliveredAllFacts(c, good);
      UndeliverableBlocks(DeliveredAll(c, good), bad, more);
    }
  }

  lemma {:induction false} FirstUndeliverable(requests: seq<seq<Element>>) returns (k: nat)
    requires exists es | es in requests :: !Deliverable(es)
    ensures k < |requests| && !Deliverable(requests[k])
    ensures forall es | es in requests[..k] :: Deliverable(es)
    decreases |requests|
  {
    if Deliverable(requests[0]) {
      k := FirstUndeliverable(requests[1..]);
      assert requests[..k + 1] == [requests[0]] + requests[1..][..k];
      k := k + 1;
    } else {
      k := 0;
    }
  }

  lemma {:induction false} PipelineWireAppend(a: seq<seq<Element>>, b: seq<seq<Element>>)
    ensures PipelineWire(a + b) == PipelineWire(a) + PipelineWire(b)
    decreases |a|
  {
    if a == [] {
      assert a + b == b;
    } else {
      assert (a + b)[1..] == a[1..] + b;
      PipelineWireAppend(a[1..], b);
    }
  }

  lemma {:induction false} SplitAt(requests: seq<seq<Element>>, k: nat)
    requires k < |requests|
    ensures PipelineWire(requests) ==
      PipelineWire(requests[..k]) + (RequestWire(requests[k]) + PipelineWire(requests[k + 1..]))
  {
    PipelineWireAppend(requests[..k], requests[k..]);
    Split(requests, k);
  }

  /** The wire form determines the requests read from it. */
  lemma {:induction false} WireIsUnambiguous(a: seq<seq<Element>>, b: seq<seq<Element>>)
    requires forall es | es in a :: Deliverable(es)
    requires forall es | es in b :: Deliverable(es)
    requires PipelineWire(a) == PipelineWire(b)
    ensures Calls(0, a) == Calls(0, b)
  {
    PipelineLog(a);
    PipelineLog(b);
  }

  lemma PipelineLog(requests: seq<seq<Element>>)
    requires forall es | es in requests :: Deliverable(es)
    ensures LogOf(Run(Fresh(0), PipelineWire(requests), 0)) == Calls(0, requests)
  {
    PipelineStep(Fresh(0), requests, []);
    DeliveredAllFacts(Fresh(0), requests);
    assert PipelineWire(requests) + [] == PipelineWire(requests);
  }

  // ----- liveness boundary -----

  lemma FillerElement()
    ensures |ElementWire(Bulk(['x']))| == 7
  {
    assert Decimal(1) == [DigitChar(1)];
  }

  /** Input that completes a request still short of elements: seven bytes for each. */
  lemma {:induction false} Filler(c: Core) returns (more: Bytes)
    requires c.state == ParseElements && !Stuck(c)
    ensures LogOf(Run(c, more, 0)) != c.log
    ensures |more| == 7 * (c.listSize - |c.partial|)
    decreases c.listSize - |c.partial|
  {
    var e := Bulk(['x']);
    FillerElement();
    if |c.partial| + 1 == c.listSize {
      more := ElementWire(e) + [];
      ElementStep(c, e, []);
    } else {
      var rest := Filler(AfterElement(c, e));
      more := ElementWire(e) + rest;
      ElementStep(c, e, rest);
    }
  }

  lemma PayloadFiller(c: Core) returns (more: Bytes)
    requires c.state == ParseBulkStrings && !Stuck(c)
    ensures LogOf(Run(c, more, 0)) != c.log
    ensures |more| <= c.strSize + 2 + 7 * c.listSize
  {
    var payload := seq(c.strSize, _ => 'x');
    var rest := [];
    if Push(c, payload).state == ParseElements {
      rest := Filler(Push(c, payload));
    }
    PayloadStep(c, payload, rest);
    more := payload + CRLF + rest;
  }

  /** Some string there can be completes a request. */
  ghost predicate CanDispatch(c: Core) {
    exists more: Bytes :: |more| < MAX_LENGTH && LogOf(Run(c, more, 0)) != c.log
  }

  /** Outside `Init`, with nothing buffered and sizes as `stoi` gives them, `Dead` is
      exactly "no input can ever complete a request". */
  lemma LivenessBoundary(c: Core)
    requires c.state != Init && Sized(c) && |c.partial| < MAX_LENGTH
    ensures Dead(c) <==> !CanDispatch(c)
  {
    if Dead(c) {
      forall more: Bytes | |more| < MAX_LENGTH ensures LogOf(Run(c, more, 0)) == c.log {
        DeadForever(c, more);
      }
    } else if c.state == ParseElements {
      var more := Filler(c);
      assert |more| < MAX_LENGTH && LogOf(Run(c, more, 0)) != c.log;
    } else {
      var more := PayloadFiller(c);
      assert |more| < MAX_LENGTH && LogOf(Run(c, more, 0)) != c.log;
    }
  }

  // negative sizes

  lemma StoiNegative(n: nat)
    requires 0 < n <= INT_MAX + 1
    ensures Stoi(['-'] + Decimal(n)) == Some(0 - n)
  {
    DecimalValue(n);
    var s := ['-'] + Decimal(n);
    assert s[1..] == Decimal(n) && SkipSpace(s) == s && IsDigit(Decimal(n)[0]);
  }

  lemma NegativeLine(tag: char, n: nat)
    requires tag != '\r'
    ensures NoCrlf([tag, '-'] + Decimal(n)) && ([tag, '-'] + Decimal(n))[1..] == ['-'] + Decimal(n)
  {
    var line, plain := [tag, '-'] + Decimal(n), ['-'] + Decimal(n);
    HeaderHasNoCrlf('-', n);
    assert line == [tag] + plain;
    forall j | 0 <= j < |line| ensures !CrlfAt(line, j) {
      assert j > 0 ==> !CrlfAt(plain, j - 1);
    }
  }

  /** A negative element count, such as `*-1`: no request is ever dispatched again. */
  lemma NegativeCountIsDead(c: Core, n: nat)
    requires c.state == Init && c.partial == [] && 0 < n <= INT_MAX + 1
    ensures var s := Run(c, ['*', '-'] + Decimal(n) + CRLF, 0);
      s.Live? && s.residue == [] && Dead(s.core) && s.core.log == c.log && !CanDispatch(s.core)
  {
    var line := ['*', '-'] + Decimal(n);
    NegativeLine('*', n);
    StoiNegative(n);
    OneLine(c, line, []);
    assert line + CRLF + [] == line + CRLF;
    var c' := c.(state := ParseElements, listSize := ToSize(0 - n));
    assert Run(c, line + CRLF, 0) == Live(c', []);
    LivenessBoundary(c');
  }

  /** A negative payload size, such as `$-1`: the same. */
  lemma NegativeSizeIsDead(c: Core, n: nat)
    requires c.state == ParseElements && Sized(c) && |c.partial| < MAX_LENGTH && 0 < n <= INT_MAX + 1
    ensures var s := Run(c, ['$', '-'] + Decimal(n) + CRLF, 0);
      s.Live? && s.residue == [] && Dead(s.core) && s.core.log == c.log && !CanDispatch(s.core)
  {
    var line := ['$', '-'] + Decimal(n);
    NegativeLine('$', n);
    StoiNegative(n);
    OneLine(c, line, []);
    assert line + CRLF + [] == line + CRLF;
    var c' := c.(state := ParseBulkStrings, strSize := ToSize(0 - n));
    assert Run(c, line + CRLF, 0) == Live(c', []);
    LivenessBoundary(c');
  }

  // ----- prefixes -----

  /** A proper prefix of one request's encoding dispatches nothing. */
  lemma ProperPrefixIsSilent(c: Core, es: seq<Element>, part: Bytes)
    requires c.state == Init && c.partial == [] && Deliverable(es)
    requires part < RequestWire(es)
    ensures Run(c, part, 0).Live? && LogOf(Run(c, part, 0)) == c.log
  {
    var more := RequestWire(es)[|part|..];
    assert part + more == RequestWire(es) == RequestWire(es) + [];
    RequestStep(c, es, []);
    RunThenMore(c, part, 0, more);
    LogGrows(c, part, 0);
    var s := Run(c, part, 0);
    LogGrows(s.core, s.residue + more, 0);
    if |s.core.log| == |c.log| + 1 {
      NoFreeReturn(s.core, s.residue + more, 0);
    }
  }

  /** How many of the requests lie wholly inside the first `n` bytes. */
  function WholeRequests(requests: seq<seq<Element>>, n: nat): (k: nat)
    ensures k <= |requests| && |PipelineWire(requests[..k])| <= n
    ensures k < |requests| ==> n < |PipelineWire(requests[..k + 1])|
    decreases |requests|
  {
    if requests == [] || n < |RequestWire(requests[0])| then
      SingleWire(requests);
      0
    else
      var k := WholeRequests(requests[1..], n - |RequestWire(requests[0])|);
      TakeFromHead(requests, k);
      if k + 1 < |requests| then TakeFromHead(requests, k + 1); k + 1 else k + 1
  }

  lemma NotStuckBefore(c: Core, part: Bytes, more: Bytes)
    requires Run(c, part, 0).Live? && LogOf(Run(c, part + more, 0)) != LogOf(Run(c, part, 0))
    ensures !Stuck(Run(c, part, 0).core)
  {
    RunThenMore(c, part, 0, more);
    var s := Run(c, part, 0);
    if Stuck(s.core) {
      StuckForever(s.core, s.residue + more, 0);
    }
  }

  lemma WholeRequestLogs(c: Core, es: seq<Element>)
    requires c.state == Init && c.partial == [] && Deliverable(es)
    ensures |LogOf(Run(c, RequestWire(es), 0))| == |c.log| + 1
  {
    RequestStep(c, es, []);
    assert RequestWire(es) + [] == RequestWire(es);
  }

  /** A prefix of a request leaves the decoder able to go on. */
  lemma PrefixNotStuck(c: Core, es: seq<Element>, part: Bytes)
    requires c.state == Init && c.partial == [] && Deliverable(es)
    requires part < RequestWire(es)
    ensures Run(c, part, 0).Live? && !Stuck(Run(c, part, 0).core)
  {
    hide Run, Deliverable, Stuck, RequestWire;
    var more := RequestWire(es)[|part|..];
    assert part + more == RequestWire(es);
    ProperPrefixIsSilent(c, es, part);
    WholeRequestLogs(c, es);
    NotStuckBefore(c, part, more);
  }

  /** Nor is it dead, as long as the request is no longer than a string can be. */
  lemma PrefixNotDead(c: Core, es: seq<Element>, part: Bytes)
    requires c.state == Init && c.partial == [] && Sized(c) && Deliverable(es)
    requires part < RequestWire(es) && |RequestWire(es)| < MAX_LENGTH
    ensures Run(c, part, 0).Live? && !Dead(Run(c, part, 0).core)
  {
    hide Run, Deliverable, Dead, RequestWire, Sized;
    var more := RequestWire(es)[|part|..];
    assert part + more == RequestWire(es);
    ProperPrefixIsSilent(c, es, part);
    WholeRequestLogs(c, es);
    RunThenMore(c, part, 0, more);
    RunKeepsSized(c, part, 0);
    var s := Run(c, part, 0);
    if Dead(s.core) {
      DeadForever(s.core, s.residue + more);
    }
  }

  /** On any prefix of a pipeline, the requests dispatched are exactly those
      whose encoding the prefix contains: scanning for CRLF and comparing
      lengths delivers what a reader of exactly `n` payload bytes would.  And no
      prefix is stuck, or dead. */
  lemma {:induction false} PrefixExactness(c: Core, requests: seq<seq<Element>>, prefix: Bytes)
    requires c.state == Init && c.partial == []
    requires forall es | es in requests :: Deliverable(es)
    requires prefix <= PipelineWire(requests)
    ensures var k := WholeRequests(requests, |prefix|);
      && Run(c, prefix, 0).Live? && LogOf(Run(c, prefix, 0)) == c.log + Calls(c.nextId, requests[..k])
      && !Stuck(Run(c, prefix, 0).core)
      && (Sized(c) && |PipelineWire(requests)| < MAX_LENGTH ==> !Dead(Run(c, prefix, 0).core))
  {
    var k := WholeRequests(requests, |prefix|);
    var front := requests[..k];
    var part := LastPart(requests, prefix);
    PipelineStep(c, front, part);
    DeliveredAllFacts(c, front);
    if part != [] {
      ProperPrefixIsSilent(DeliveredAll(c, front), requests[k], part);
      PrefixNotStuck(DeliveredAll(c, front), requests[k], part);
      RequestInPipeline(requests, k);
      if Sized(c) && |PipelineWire(requests)| < MAX_LENGTH {
        PrefixNotDead(DeliveredAll(c, front), requests[k], part);
      }
    }
  }

  lemma RequestInPipeline(requests: seq<seq<Element>>, k: nat)
    requires k < |requests|
    ensures |RequestWire(requests[k])| <= |PipelineWire(requests)|
  {
    SplitAt(requests, k);
  }

  /** What a prefix holds beyond its whole requests. */
  lemma {:induction false} LastPart(requests: seq<seq<Element>>, prefix: Bytes) returns (part: Bytes)
    requires prefix <= PipelineWire(requests)
    ensures var k := WholeRequests(requests, |prefix|);
      prefix == PipelineWire(requests[..k]) + part
      && (part != [] ==> k < |requests| && part < RequestWire(requests[k]))
  {
    var k := WholeRequests(requests, |prefix|);
    PipelineWireAppend(requests[..k], requests[k..]);
    Split(requests, k);
    part := CutPrefix(prefix, PipelineWire(requests[..k]), PipelineWire(requests[k..]));
    if k < |requests| {
      PipelineWireAppend(requests[..k], [requests[k]]);
      SingleWire([requests[k]]);
      assert [requests[k]][..1] == [requests[k]];
      CutPrefix2(part, RequestWire(requests[k]), PipelineWire(requests[k + 1..]));
    }
  }

  lemma CutPrefix(prefix: Bytes, a: Bytes, b: Bytes) returns (part: Bytes)
    requires prefix <= a + b && |a| <= |prefix|
    ensures prefix == a + part && part <= b
  {
    part := prefix[|a|..];
  }

  lemma CutPrefix2(prefix: Bytes, a: Bytes, b: Bytes)
    requires prefix <= a + b && |prefix| < |a|
    ensures prefix < a
  {
    assert a == (a + b)[..|a|];
  }

  lemma SingleWire(requests: seq<seq<Element>>)
    ensures requests != [] ==> PipelineWire(requests[..1]) == RequestWire(requests[0])
  {
    assert requests != [] ==> requests[..1][1..] == [];
  }
}
