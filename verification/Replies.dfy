/** Replies as a client reads them, and why a stream of replies has one reading. */
module Replies {
  import opened Text
  import opened Encoder

  // ----- a client's reader (RESP2, "Simple strings", "Errors", "Bulk strings", "Arrays") -----

  datatype Value = Simple(text: Bytes) | Error(text: Bytes) | Bulk(payload: Bytes) | Nil
                 | List(items: seq<Value>)

  datatype Parsed<T> = Parsed(value: T, rest: Bytes)

  /** The offset of the first CRLF at or after `from`, or the length of `buf`. */
  function LineEnd(buf: Bytes, from: nat): (end: nat)
    requires from <= |buf|
    ensures from <= end <= |buf|
    ensures end < |buf| ==> CrlfAt(buf, end)
    ensures forall j | from <= j < end :: !CrlfAt(buf, j)
    decreases |buf| - from
  {
    if from == |buf| || CrlfAt(buf, from) then from else LineEnd(buf, from + 1)
  }

  /** One reply that is not an array.  The reader takes no length that is not in
      plain decimal form. */
  function ReadScalar(buf: Bytes): Option<Parsed<Value>> {
    var end := LineEnd(buf, 0);
    if end == |buf| || end == 0 then None
    else
      var line, rest := buf[1..end], buf[end + 2..];
      match buf[0]
      case '+' => Some(Parsed(Simple(line), rest))
      case '-' => Some(Parsed(Error(line), rest))
      case '$' =>
        if line == ['-', '1'] then Some(Parsed(Nil, rest))
        else if line == Decimal(DigitsValue(line, 0)) then ReadPayload(DigitsValue(line, 0), rest)
        else None
      case _ => None
  }

  /** Exactly `n` bytes and their CRLF. */
  function ReadPayload(n: nat, buf: Bytes): Option<Parsed<Value>> {
    if CrlfAt(buf, n) then Some(Parsed(Bulk(buf[..n]), buf[n + 2..])) else None
  }

  function ReadItems(n: nat, buf: Bytes): Option<Parsed<seq<Value>>> {
    if n == 0 then Some(Parsed([], buf)) else
    match ReadScalar(buf)
    case None => None
    case Some(first) =>
      match ReadItems(n - 1, first.rest)
      case None => None
      case Some(others) => Some(Parsed([first.value] + others.value, others.rest))
  }

  function ReadReply(buf: Bytes): Option<Parsed<Value>> {
    var end := LineEnd(buf, 0);
    if 0 < end < |buf| && buf[0] == '*' then
      if buf[1..end] != Decimal(DigitsValue(buf[1..end], 0)) then None else
      match ReadItems(DigitsValue(buf[1..end], 0), buf[end + 2..])
      case None => None
      case Some(items) => Some(Parsed(List(items.value), items.rest))
    else ReadScalar(buf)
  }

  /** Read replies until the bytes run out. */
  function ReadAll(buf: Bytes): Option<seq<Value>>
    decreases |buf|
  {
    if buf == [] then Some([]) else
    match ReadReply(buf)
    case None => None
    case Some(first) =>
      if |first.rest| >= |buf| then None else
      match ReadAll(first.rest)
      case None => None
      case Some(others) => Some([first.value] + others)
  }

  // ----- what the encoders write -----

  /** A reply made by either overload of `encode`. */
  datatype Reply = One(scalar: TypedValue) | Many(list: seq<TypedValue>)

  function ReplyWire(r: Reply): Bytes {
    match r
    case One(v) => ScalarWire(v)
    case Many(list) => ListWire(list)
  }

  /** Arrays do not nest, and simple strings and errors end at the first CRLF. */
  predicate Readable(v: TypedValue) {
    && v.ty != Arrays
    && (v.ty == SimpleStrings || v.ty == Errors ==> NoCrlf(v.value))
  }

  predicate AllReadable(list: seq<TypedValue>) {
    forall i | 0 <= i < |list| :: Readable(list[i])
  }

  predicate NoArrays(list: seq<TypedValue>) {
    forall i | 0 <= i < |list| :: list[i].ty != Arrays
  }

  /** No array but the reply itself. */
  predicate Flat(r: Reply) {
    match r
    case One(v) => v.ty != Arrays
    case Many(list) => NoArrays(list)
  }

  predicate ReadableReply(r: Reply) {
    && Flat(r)
    && match r
       case One(v) => Readable(v)
       case Many(list) => AllReadable(list)
  }

  function ScalarView(v: TypedValue): Value
    requires v.ty != Arrays
  {
    match v.ty
    case SimpleStrings => Simple(v.value)
    case Errors => Error(v.value)
    case Integers => Bulk(v.value)
    case BulkStrings => Bulk(v.value)
    case BulkNil => Nil
  }

  function ItemsView(list: seq<TypedValue>): (items: seq<Value>)
    requires NoArrays(list)
    ensures |items| == |list|
  {
    if list == [] then [] else [ScalarView(list[0])] + ItemsView(list[1..])
  }

  function ReplyView(r: Reply): Value
    requires Flat(r)
  {
    match r
    case One(v) => ScalarView(v)
    case Many(list) => List(ItemsView(list))
  }

  // ----- reading inverts writing -----

  lemma LineIsRead(line: Bytes, rest: Bytes)
    ensures var end := LineEnd(line + CRLF + rest, 0);
      if NoCrlf(line) then end == |line| else end < |line|
    ensures var buf := line + CRLF + rest;
      CrlfAt(buf, |line|) && buf[..|line|] == line && buf[|line| + 2..] == rest
  {
    var buf := line + CRLF + rest;
    forall j | 0 <= j < |line| ensures CrlfAt(buf, j) == CrlfAt(line, j) {
      assert buf[|line|] == '\r';
    }
    assert CrlfAt(buf, |line|);
  }

  lemma BulkIsRead(payload: Bytes, rest: Bytes)
    ensures ReadScalar(BulkWire(payload) + rest) == Some(Parsed(Bulk(payload), rest))
  {
    var digits, tail := Decimal(|payload|), payload + CRLF + rest;
    var header := ['$'] + digits;
    Assoc(header + CRLF, payload, CRLF);
    Assoc(header + CRLF, payload + CRLF, rest);
    HeaderHasNoCrlf('$', |payload|);
    DecimalValue(|payload|);
    LineIsRead(header, tail);
    LineIsRead(payload, rest);
    var buf := header + CRLF + tail;
    assert buf[1..|header|] == digits;
    assert IsDigit(digits[0]) && digits != ['-', '1'];
  }

  /** A scalar is read back from in front of any bytes exactly when its text
      holds no CRLF; otherwise another one is read. */
  lemma ScalarRoundTrip(v: TypedValue, rest: Bytes)
    requires v.ty != Arrays
    ensures var read := ReadScalar(ScalarWire(v) + rest);
      && (Readable(v) ==> read == Some(Parsed(ScalarView(v), rest)))
      && (!Readable(v) ==> read.Some? && read.value.value != ScalarView(v))
  {
    match v.ty
    case SimpleStrings => TextRoundTrip('+', v.value, rest);
    case Errors => TextRoundTrip('-', v.value, rest);
    case Integers => BulkIsRead(v.value, rest);
    case BulkStrings => BulkIsRead(v.value, rest);
    case BulkNil =>
      var line: Bytes := ['$', '-', '1'];
      LineIsRead(line, rest);
      assert (line + CRLF + rest)[1..3] == ['-', '1'];
  }

  /** A text is read up to its first CRLF. */
  lemma TextRoundTrip(tag: char, text: Bytes, rest: Bytes)
    requires tag == '+' || tag == '-'
    ensures var value := if tag == '+' then Simple(text) else Error(text);
      var read := ReadScalar([tag] + text + CRLF + rest);
      && (NoCrlf(text) ==> read == Some(Parsed(value, rest)))
      && (!NoCrlf(text) ==> read.Some? && read.value.value != value)
  {
    var line := [tag] + text;
    var buf := line + CRLF + rest;
    LineIsRead(line, rest);
    forall j | 0 <= j < |line| ensures CrlfAt(line, j) == CrlfAt(text, j - 1) {
    }
    if NoCrlf(text) {
      assert buf[1..|line|] == text;
    } else {
      var j :| 0 <= j < |text| && CrlfAt(text, j);
      assert CrlfAt(line, j + 1);
      assert LineEnd(buf, 0) > 0 && |buf[1..LineEnd(buf, 0)]| < |text|;
    }
  }

  /** The items of a list without arrays: those read are the ones written exactly
      when each is readable. */
  lemma {:induction false} ItemsRoundTrip(list: seq<TypedValue>, rest: Bytes)
    requires NoArrays(list)
    ensures var read := ReadItems(|list|, ItemsWire(list) + rest);
      && (AllReadable(list) ==> read == Some(Parsed(ItemsView(list), rest)))
      && (!AllReadable(list) ==> read.None? || read.value.value != ItemsView(list))
  {
    hide ReadScalar, ScalarWire, ScalarView, Readable;
    if list == [] {
      assert ItemsWire(list) + rest == rest;
    } else {
      Assoc(ScalarWire(list[0]), ItemsWire(list[1..]), rest);
      ScalarRoundTrip(list[0], ItemsWire(list[1..]) + rest);
      ItemsRoundTrip(list[1..], rest);
      assert AllReadable(list) <==> Readable(list[0]) && AllReadable(list[1..]);
      var view, read := ItemsView(list), ReadItems(|list|, ItemsWire(list) + rest);
      assert view[0] == ScalarView(list[0]) && view[1..] == ItemsView(list[1..]);
      if read.Some? {
        var first := ReadScalar(ItemsWire(list) + rest).value;
        assert read.value.value[0] == first.value;
        assert read.value.value[1..] == ReadItems(|list| - 1, first.rest).value.value;
      }
    }
  }

  /** The header of a list, then as many items as it says. */
  lemma ListHeader(list: seq<TypedValue>, rest: Bytes)
    ensures ReadReply(ListWire(list) + rest) ==
      match ReadItems(|list|, ItemsWire(list) + rest)
      case None => None
      case Some(items) => Some(Parsed(List(items.value), items.rest))
  {
    var digits, tail := Decimal(|list|), ItemsWire(list) + rest;
    var header := ['*'] + digits;
    Assoc(header + CRLF, ItemsWire(list), rest);
    HeaderHasNoCrlf('*', |list|);
    DecimalValue(|list|);
    LineIsRead(header, tail);
    assert (header + CRLF + tail)[1..|header|] == digits;
  }

  /** A list without arrays is read back exactly when its items are readable. */
  lemma ListRoundTrip(list: seq<TypedValue>, rest: Bytes)
    requires NoArrays(list)
    ensures ReadReply(ListWire(list) + rest) == Some(Parsed(List(ItemsView(list)), rest)) <==> AllReadable(list)
  {
    ListHeader(list, rest);
    ItemsRoundTrip(list, rest);
  }

  /** A client reads a flat reply back, and stops exactly at its end, if and only
      if no simple string or error in it holds a CRLF. */
  lemma ReplyRoundTrip(r: Reply, rest: Bytes)
    requires Flat(r)
    ensures ReadReply(ReplyWire(r) + rest) == Some(Parsed(ReplyView(r), rest)) <==> ReadableReply(r)
  {
    match r
    case One(v) =>
      ScalarRoundTrip(v, rest);
      assert ScalarWire(v)[0] == (ScalarWire(v) + rest)[0] != '*';
    case Many(list) =>
      ListRoundTrip(list, rest);
  }

  /** Replies form a prefix code. */
  lemma {:induction false} PrefixCode(a: Reply, b: Reply)
    requires ReadableReply(a) && ReadableReply(b)
    requires ReplyWire(a) <= ReplyWire(b)
    ensures ReplyWire(a) == ReplyWire(b) && ReplyView(a) == ReplyView(b)
  {
    hide ReadReply, ReplyWire, ReplyView;
    var rest := ReplyWire(b)[|ReplyWire(a)|..];
    assert ReplyWire(b) == ReplyWire(a) + rest && ReplyWire(b) + [] == ReplyWire(b);
    ReplyRoundTrip(a, rest);
    ReplyRoundTrip(b, []);
    assert rest == [];
  }

  function RepliesWire(replies: seq<Reply>): Bytes {
    if replies == [] then [] else ReplyWire(replies[0]) + RepliesWire(replies[1..])
  }

  function RepliesView(replies: seq<Reply>): seq<Value>
    requires forall i | 0 <= i < |replies| :: ReadableReply(replies[i])
  {
    if replies == [] then []
    else assert ReadableReply(replies[0]); [ReplyView(replies[0])] + RepliesView(replies[1..])
  }

  /** A stream of replies is read back as these replies, in this order. */
  lemma {:induction false} StreamRoundTrip(replies: seq<Reply>)
    requires forall i | 0 <= i < |replies| :: ReadableReply(replies[i])
    ensures ReadAll(RepliesWire(replies)) == Some(RepliesView(replies))
  {
    if replies != [] {
      var first, others := ReplyWire(replies[0]), RepliesWire(replies[1..]);
      ReplyRoundTrip(replies[0], others);
      StreamRoundTrip(replies[1..]);
      assert first != [] && |first + others| > |others|;
    }
  }

  // ----- arrays inside lists -----

  /** The items of a list that are written at all. */
  function Scalars(list: seq<TypedValue>): (scalars: seq<TypedValue>)
    ensures NoArrays(scalars) && |scalars| <= |list|
    ensures |scalars| == |list| <==> NoArrays(list)
  {
    if list == [] then []
    else
      var others := Scalars(list[1..]);
      assert NoArrays(list) <==> list[0].ty != Arrays && NoArrays(list[1..]);
      if list[0].ty == Arrays then others else [list[0]] + others
  }

  lemma {:induction false} ReadMore(a: nat, b: nat, buf: Bytes)
    ensures ReadItems(a + b, buf) ==
      match ReadItems(a, buf)
      case None => None
      case Some(first) =>
        match ReadItems(b, first.rest)
        case None => None
        case Some(others) => Some(Parsed(first.value + others.value, others.rest))
  {
    if a > 0 && ReadScalar(buf).Some? {
      var first := ReadScalar(buf).value;
      ReadMore(a - 1, b, first.rest);
      if ReadItems(a - 1, first.rest).Some? {
        var items := ReadItems(a - 1, first.rest).value;
        if ReadItems(b, items.rest).Some? {
          Assoc([first.value], items.value, ReadItems(b, items.rest).value.value);
        }
      }
    } else if a == 0 && ReadItems(b, buf).Some? {
      assert [] + ReadItems(b, buf).value.value == ReadItems(b, buf).value.value;
    }
  }

  lemma ArrayIsNotWritten(v: TypedValue)
    ensures v.ty == Arrays ==> ScalarWire(v) == []
  {
  }

  lemma {:induction false} ScalarsWire(list: seq<TypedValue>)
    ensures ItemsWire(list) == ItemsWire(Scalars(list))
  {
    hide NoArrays, ScalarWire;
    if list != [] {
      ScalarsWire(list[1..]);
      var others := Scalars(list[1..]);
      if list[0].ty == Arrays {
        ArrayIsNotWritten(list[0]);
        assert [] + ItemsWire(others) == ItemsWire(others);
      } else {
        assert ([list[0]] + others)[1..] == others;
      }
    }
  }

  lemma {:induction false} ItemsShrink(n: nat, buf: Bytes)
    ensures var read := ReadItems(n, buf);
      read.Some? ==> |read.value.value| == n && (if n == 0 then read.value.rest == buf else |read.value.rest| < |buf|)
  {
    if n > 0 && ReadScalar(buf).Some? {
      ItemsShrink(n - 1, ReadScalar(buf).value.rest);
    }
  }

  /** Arrays inside a list are counted but not written.  So the client takes the
      other items and then, for the m arrays, exactly m scalars of whatever comes
      after the list; and the list ends at its own bytes if and only if m is 0. */
  lemma NestedArraysSwallow(list: seq<TypedValue>, rest: Bytes)
    requires AllReadable(Scalars(list))
    ensures var m := |list| - |Scalars(list)|; var read := ReadReply(ListWire(list) + rest);
      && read == (match ReadItems(m, rest)
                  case None => None
                  case Some(more) => Some(Parsed(List(ItemsView(Scalars(list)) + more.value), more.rest)))
      && (read.Some? && read.value.rest == rest <==> NoArrays(list))
  {
    hide ReadReply, ReadItems, AllReadable, NoArrays;
    var scalars := Scalars(list);
    var m := |list| - |scalars|;
    ListHeader(list, rest);
    ScalarsWire(list);
    ItemsRoundTrip(scalars, rest);
    ReadMore(|scalars|, m, ItemsWire(list) + rest);
    ItemsShrink(m, rest);
  }

  // ----- the reader accepts nothing else -----

  function ScalarValueWire(v: Value): Bytes {
    match v
    case Simple(text) => ['+'] + text + CRLF
    case Error(text) => ['-'] + text + CRLF
    case Bulk(payload) => BulkWire(payload)
    case Nil => ['$', '-', '1'] + CRLF
    case List(_) => []
  }

  function ItemValuesWire(items: seq<Value>): Bytes {
    if items == [] then [] else ScalarValueWire(items[0]) + ItemValuesWire(items[1..])
  }

  function ValueWire(v: Value): Bytes {
    if v.List? then ['*'] + Decimal(|v.items|) + CRLF + ItemValuesWire(v.items) else ScalarValueWire(v)
  }

  function ValuesWire(values: seq<Value>): Bytes {
    if values == [] then [] else ValueWire(values[0]) + ValuesWire(values[1..])
  }

  lemma CutAtCrlf(buf: Bytes, end: nat)
    requires 0 < end && CrlfAt(buf, end)
    ensures buf == [buf[0]] + buf[1..end] + CRLF + buf[end + 2..]
  {
    Split(buf, end);
    assert buf[..end] == [buf[0]] + buf[1..end];
    assert buf[end..] == CRLF + buf[end + 2..];
    Assoc(buf[..end], CRLF, buf[end + 2..]);
  }

  lemma ReadScalarIsExact(buf: Bytes)
    ensures var read := ReadScalar(buf);
      read.Some? ==> !read.value.value.List? && buf == ScalarValueWire(read.value.value) + read.value.rest
  {
    var read, end := ReadScalar(buf), LineEnd(buf, 0);
    if read.Some? {
      CutAtCrlf(buf, end);
      var line, rest := buf[1..end], buf[end + 2..];
      if buf[0] == '$' && line != ['-', '1'] {
        var n := DigitsValue(line, 0);
        assert rest == rest[..n] + CRLF + rest[n + 2..];
        Assoc(['$'] + Decimal(n) + CRLF, rest[..n] + CRLF, rest[n + 2..]);
        Assoc(['$'] + Decimal(n) + CRLF, rest[..n], CRLF);
      }
    }
  }

  lemma {:induction false} ReadItemsIsExact(n: nat, buf: Bytes)
    ensures var read := ReadItems(n, buf);
      read.Some? ==> |read.value.value| == n && buf == ItemValuesWire(read.value.value) + read.value.rest
  {
    ReadScalarIsExact(buf);
    hide ReadScalar, ScalarValueWire;
    if n > 0 && ReadItems(n, buf).Some? {
      var first := ReadScalar(buf).value;
      ReadItemsIsExact(n - 1, first.rest);
      var others := ReadItems(n - 1, first.rest).value;
      Assoc(ScalarValueWire(first.value), ItemValuesWire(others.value), others.rest);
    }
  }

  lemma {:induction false} ReadReplyIsExact(buf: Bytes)
    ensures var read := ReadReply(buf); read.Some? ==> buf == ValueWire(read.value.value) + read.value.rest
  {
    var read, end := ReadReply(buf), LineEnd(buf, 0);
    if read.Some? && 0 < end < |buf| && buf[0] == '*' {
      CutAtCrlf(buf, end);
      var n := DigitsValue(buf[1..end], 0);
      ReadItemsIsExact(n, buf[end + 2..]);
      var items := ReadItems(n, buf[end + 2..]).value;
      Assoc(['*'] + Decimal(n) + CRLF, ItemValuesWire(items.value), items.rest);
    } else {
      ReadScalarIsExact(buf);
    }
  }

  lemma {:induction false} ReadAllIsExact(buf: Bytes)
    ensures ReadAll(buf).Some? ==> buf == ValuesWire(ReadAll(buf).value)
    decreases |buf|
  {
    if buf != [] && ReadAll(buf).Some? {
      ReadReplyIsExact(buf);
      ReadAllIsExact(ReadReply(buf).value.rest);
    }
  }

  lemma {:induction false} ItemsViewWire(list: seq<TypedValue>)
    requires AllReadable(list)
    ensures ItemValuesWire(ItemsView(list)) == ItemsWire(list)
  {
    if list != [] {
      ItemsViewWire(list[1..]);
    }
  }

  lemma {:induction false} RepliesViewWire(replies: seq<Reply>)
    requires forall i | 0 <= i < |replies| :: ReadableReply(replies[i])
    ensures ValuesWire(RepliesView(replies)) == RepliesWire(replies)
  {
    if replies != [] {
      RepliesViewWire(replies[1..]);
      if replies[0].Many? {
        ItemsViewWire(replies[0].list);
      }
    }
  }

  /** A client reads exactly these replies exactly from the bytes of these. */
  lemma {:induction false} ReadsExactly(buf: Bytes, replies: seq<Reply>)
    requires forall i | 0 <= i < |replies| :: ReadableReply(replies[i])
    ensures ReadAll(buf) == Some(RepliesView(replies)) <==> buf == RepliesWire(replies)
  {
    StreamRoundTrip(replies);
    RepliesViewWire(replies);
    ReadAllIsExact(buf);
  }
}
