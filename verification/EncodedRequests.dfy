/** The encoder and the decoder of the same library, composed. */
module EncodedRequests {
  import opened Text
  import opened Decoder
  import opened RoundTrip
  import Encoder

  function BulkElements(args: seq<Bytes>): (es: seq<Element>)
    ensures |es| == |args|
    ensures forall i | 0 <= i < |args| :: es[i] == Bulk(args[i])
  {
    if args == [] then [] else [Bulk(args[0])] + BulkElements(args[1..])
  }

  /** `encode(ARRAYS, args)` writes the request with the bulk strings `args`,
      whose values are `args` again. */
  lemma {:induction false} EncodedRequest(args: seq<Bytes>)
    ensures Encoder.ListWire(Encoder.Bulks(args)) == RequestWire(BulkElements(args))
    ensures Values(BulkElements(args)) == args
  {
    EncodedItems(args);
  }

  lemma {:induction false} EncodedItems(args: seq<Bytes>)
    ensures Encoder.ItemsWire(Encoder.Bulks(args)) == ElementsWire(BulkElements(args))
    ensures Values(BulkElements(args)) == args
  {
    if args != [] {
      EncodedItems(args[1..]);
      assert Encoder.Bulks(args)[1..] == Encoder.Bulks(args[1..]);
      assert BulkElements(args)[1..] == BulkElements(args[1..]);
    }
  }

  /** The concatenated encodings of a pipeline of requests. */
  function EncodeAll(requests: seq<seq<Bytes>>): Bytes {
    if requests == [] then []
    else Encoder.ListWire(Encoder.Bulks(requests[0])) + EncodeAll(requests[1..])
  }

  function AllElements(requests: seq<seq<Bytes>>): (es: seq<seq<Element>>)
    ensures |es| == |requests|
    ensures forall i | 0 <= i < |es| :: es[i] == BulkElements(requests[i])
  {
    if requests == [] then [] else [BulkElements(requests[0])] + AllElements(requests[1..])
  }

  lemma {:induction false} EncodedPipelineWire(requests: seq<seq<Bytes>>)
    ensures EncodeAll(requests) == PipelineWire(AllElements(requests))
  {
    if requests != [] {
      EncodedRequest(requests[0]);
      EncodedPipelineWire(requests[1..]);
      assert AllElements(requests)[1..] == AllElements(requests[1..]);
    }
  }

  /** What a caller can check of a request before encoding it. */
  predicate Transmissible(args: seq<Bytes>) {
    && 0 < |args| <= INT_MAX
    && (forall i | 0 <= i < |args| :: |args[i]| <= INT_MAX)
    && args[|args| - 1] != []
  }

  lemma TransmissibleIsDeliverable(args: seq<Bytes>)
    ensures Transmissible(args) <==> Deliverable(BulkElements(args))
  {
    var es := BulkElements(args);
    if Deliverable(es) {
      forall i | 0 <= i < |args| ensures |args[i]| <= INT_MAX {
        assert es[i] in es;
      }
    }
  }

  lemma AllTransmissible(requests: seq<seq<Bytes>>)
    ensures (forall es | es in AllElements(requests) :: Deliverable(es))
      <==> forall i | 0 <= i < |requests| :: Transmissible(requests[i])
  {
    var all := AllElements(requests);
    forall i | 0 <= i < |requests|
      ensures all[i] in all && (Transmissible(requests[i]) <==> Deliverable(all[i]))
    {
      TransmissibleIsDeliverable(requests[i]);
    }
  }

  lemma AllWritable(requests: seq<seq<Bytes>>)
    ensures forall es, e | es in AllElements(requests) && e in es :: Writable(e)
  {
    forall es, e | es in AllElements(requests) && e in es ensures Writable(e) {
      var i :| 0 <= i < |requests| && es == BulkElements(requests[i]);
    }
  }

  /** One call per request, numbered from 0. */
  function ArgCalls(requests: seq<seq<Bytes>>): (calls: seq<Dispatch>)
    ensures |calls| == |requests|
    ensures forall i | 0 <= i < |calls| :: calls[i] == Dispatch(i, requests[i])
  {
    seq(|requests|, i requires 0 <= i < |requests| => Dispatch(i, requests[i]))
  }

  lemma CallsOfArgs(requests: seq<seq<Bytes>>)
    ensures Calls(0, AllElements(requests)) == ArgCalls(requests)
  {
    forall i | 0 <= i < |requests|
      ensures Calls(0, AllElements(requests))[i] == ArgCalls(requests)[i]
    {
      EncodedRequest(requests[i]);
    }
  }

  /** Decoding the concatenated encodings of any requests makes one handler call
      per request, with its arguments and ids 0, 1, 2, ..., and leaves nothing
      behind, exactly when every request is transmissible. */
  lemma {:induction false} EncodeDecode(unset: nat, requests: seq<seq<Bytes>>)
    requires requests != []
    ensures Run(Fresh(unset), EncodeAll(requests), 0)
      == Live(Core(Init, |requests|, 0, 0, [], ArgCalls(requests)), [])
      <==> forall i | 0 <= i < |requests| :: Transmissible(requests[i])
  {
    var all := AllElements(requests);
    EncodedPipelineWire(requests);
    CallsOfArgs(requests);
    AllTransmissible(requests);
    AllWritable(requests);
    PipelineRoundTrip(Fresh(unset), all);
    DeliveredAllFacts(Fresh(unset), all);
    assert [] + Calls(0, all) == Calls(0, all);
  }
}
