/** The receiving half of an unordered-unreliable channel: a FIFO queue of
    decoded messages, filled from count-prefixed runs on the wire and drained
    whole by the application. */
module UnorderedUnreliableReceiver {
  import opened Wire

  /** What the message factory answers for a kind tag and the tokens after
      it: the rebuilt message and how many tokens its payload used. */
  datatype Replica<P> = Replica(message: P, consumed: nat)

  /** The protocol's message registry. Kind tags below `kindCount` decode;
      `createReplica` rebuilds a message of a given kind from the stream. */
  datatype Manifest<P> = Manifest(kindCount: nat, createReplica: (nat, seq<Token>) -> Replica<P>)

  /** The receiver keeps one queue of messages not yet collected. */
  datatype Receiver<P> = Receiver(incoming: seq<P>)

  /** A message and the tokens still unread after it. */
  datatype Decoded<P> = Decoded(message: P, rest: seq<Token>)

  /** A run of decoded messages and the tokens still unread after them. */
  datatype DecodedRun<P> = DecodedRun(messages: seq<P>, rest: seq<Token>)

  predicate IsSuffix(rest: seq<Token>, input: seq<Token>)
  {
    |rest| <= |input| && rest == input[|input| - |rest|..]
  }

  function New<P>(): (r: Receiver<P>)
    ensures |r.incoming| == 0
  {
    Receiver([])
  }

  /** The next token is a kind tag the protocol knows: decoding it cannot fail. */
  predicate KindDecodes<P>(m: Manifest<P>, input: seq<Token>)
  {
    |input| > 0 && input[0].KindTag? && input[0].kind < m.kindCount
  }

  /** Tokens the factory used for a payload, never more than remain. */
  function PayloadLength<P>(m: Manifest<P>, kind: nat, payload: seq<Token>): (n: nat)
    ensures n <= |payload|
  {
    var claimed := m.createReplica(kind, payload).consumed;
    if claimed <= |payload| then claimed else |payload|
  }

  /** Reads one message: its kind tag first, then the payload for that kind. */
  function ReadMessage<P>(m: Manifest<P>, input: seq<Token>): (d: Decoded<P>)
    requires KindDecodes(m, input)
    ensures d.message == m.createReplica(input[0].kind, input[1..]).message
    ensures d.rest == input[1 + PayloadLength(m, input[0].kind, input[1..])..]
    ensures |d.rest| < |input|
  {
    var kind := input[0].kind;
    var payload := input[1..];
    var replica := m.createReplica(kind, payload);
    Decoded(replica.message, payload[PayloadLength(m, kind, payload)..])
  }

  function RecvMessage<P>(r: Receiver<P>, message: P): (r': Receiver<P>)
    ensures r'.incoming == r.incoming + [message]
  {
    Receiver(r.incoming + [message])
  }

  /** `n` messages can be read one after another from `input`. */
  predicate RunDecodes<P>(m: Manifest<P>, input: seq<Token>, n: nat)
    decreases n
  {
    n == 0 || (KindDecodes(m, input) && RunDecodes(m, ReadMessage(m, input).rest, n - 1))
  }

  /** Reference decoding of `n` consecutive messages. */
  function DecodeRun<P>(m: Manifest<P>, input: seq<Token>, n: nat): (d: DecodedRun<P>)
    requires RunDecodes(m, input, n)
    ensures |d.messages| == n
    ensures |d.rest| <= |input|
    ensures n == 0 ==> d.rest == input
    decreases n
  {
    if n == 0 then DecodedRun([], input)
    else
      var first := ReadMessage(m, input);
      var tail := DecodeRun(m, first.rest, n - 1);
      DecodedRun([first.message] + tail.messages, tail.rest)
  }

  /** Decoding only ever consumes a prefix of the stream. */
  lemma {:induction false} DecodeRunLeavesSuffix<P>(m: Manifest<P>, input: seq<Token>, n: nat)
    requires RunDecodes(m, input, n)
    ensures IsSuffix(DecodeRun(m, input, n).rest, input)
    decreases n
  {
    if n > 0 {
      var first := ReadMessage(m, input);
      DecodeRunLeavesSuffix(m, first.rest, n - 1);
      var rest := DecodeRun(m, input, n).rest;
      assert rest == first.rest[|first.rest| - |rest|..];
      assert first.rest == input[|input| - |first.rest|..];
    }
  }

  /** A run is its first message followed by the run after it. */
  lemma DecodeRunPrepend<P>(m: Manifest<P>, input: seq<Token>, messages: seq<P>, after: seq<Token>, tail: seq<Token>)
    requires |messages| > 0
    requires KindDecodes(m, input) && ReadMessage(m, input) == Decoded(messages[0], after)
    requires RunDecodes(m, after, |messages[1..]|) && DecodeRun(m, after, |messages[1..]|) == DecodedRun(messages[1..], tail)
    ensures RunDecodes(m, input, |messages|)
    ensures DecodeRun(m, input, |messages|) == DecodedRun(messages, tail)
  {
    assert [messages[0]] + messages[1..] == messages;
  }


  /** Loop state of `ReadMessages`: the queue holds `r0`'s messages and
      some of `whole`; the `left` messages still in `rest` are the others. */
  ghost predicate Pending<P>(m: Manifest<P>, r0: Receiver<P>, whole: DecodedRun<P>, r: Receiver<P>, rest: seq<Token>, left: nat)
  {
    && RunDecodes(m, rest, left)
    && r.incoming + DecodeRun(m, rest, left).messages == r0.incoming + whole.messages
    && DecodeRun(m, rest, left).rest == whole.rest
  }

  lemma PendingStep<P>(m: Manifest<P>, r0: Receiver<P>, whole: DecodedRun<P>, r: Receiver<P>, rest: seq<Token>, left: nat)
    requires left > 0 && Pending(m, r0, whole, r, rest, left)
    ensures KindDecodes(m, rest)
    ensures var d := ReadMessage(m, rest);
            Pending(m, r0, whole, RecvMessage(r, d.message), d.rest, left - 1)
  {
    var d := ReadMessage(m, rest);
    var later := DecodeRun(m, d.rest, left - 1).messages;
    assert DecodeRun(m, rest, left).messages == [d.message] + later;
    assert r.incoming + ([d.message] + later) == (r.incoming + [d.message]) + later;
  }

  lemma PendingDone<P>(m: Manifest<P>, r0: Receiver<P>, whole: DecodedRun<P>, r: Receiver<P>, rest: seq<Token>)
    requires Pending(m, r0, whole, r, rest, 0)
    ensures r.incoming == r0.incoming + whole.messages && rest == whole.rest
  {
  }

  /** What follows the header of a list that ends in `rest`. */
  lemma SuffixAfterHeader(input: seq<Token>, rest: seq<Token>)
    requires |input| > 0 && IsSuffix(rest, input[1..])
    ensures IsSuffix(rest, input) && |rest| < |input|
  {
    assert input[1..][|input| - 1 - |rest|..] == input[|input| - |rest|..];
  }

  /** A count header followed by that many readable messages. */
  predicate ListDecodes<P>(m: Manifest<P>, input: seq<Token>)
  {
    |input| > 0 && input[0].ListHeader? && RunDecodes(m, input[1..], input[0].count)
  }

  /** Reads a count header, then exactly that many messages, queueing each
      one in read order behind what the receiver already held. */
  method ReadMessages<P>(m: Manifest<P>, r: Receiver<P>, input: seq<Token>) returns (r': Receiver<P>, rest: seq<Token>)
    requires ListDecodes(m, input)
    ensures |r'.incoming| == |r.incoming| + input[0].count
    ensures r'.incoming == r.incoming + DecodeRun(m, input[1..], input[0].count).messages
    ensures rest == DecodeRun(m, input[1..], input[0].count).rest
    ensures IsSuffix(rest, input) && |rest| < |input|
  {
    var count := input[0].count;
    ghost var whole := DecodeRun(m, input[1..], count);
    DecodeRunLeavesSuffix(m, input[1..], count);
    SuffixAfterHeader(input, whole.rest);
    rest := input[1..];
    r' := r;
    var i := 0;
    while i < count
      invariant 0 <= i <= count
      invariant Pending(m, r, whole, r', rest, count - i)
      invariant |r'.incoming| == |r.incoming| + i
    {
      PendingStep(m, r, whole, r', rest, count - i);
      var d := ReadMessage(m, rest);
      r' := RecvMessage(r', d.message);
      rest := d.rest;
      i := i + 1;
    }
    PendingDone(m, r, whole, r', rest);
  }

  /** Hands over every queued message, oldest first, and empties the queue. */
  function CollectIncoming<P>(r: Receiver<P>): (res: (Receiver<P>, seq<P>))
    ensures res.1 == r.incoming
    ensures res.0.incoming == []
  {
    (Receiver([]), r.incoming)
  }

  /** Receiving several messages one by one. */
  function RecvAll<P>(r: Receiver<P>, messages: seq<P>): Receiver<P>
    decreases |messages|
  {
    if |messages| == 0 then r else RecvAll(RecvMessage(r, messages[0]), messages[1..])
  }

  /** The queue is FIFO: whatever is received after a collection comes back,
      in arrival order, from the next collection. */
  lemma {:induction false} RecvAllAppends<P>(r: Receiver<P>, messages: seq<P>)
    ensures RecvAll(r, messages).incoming == r.incoming + messages
    decreases |messages|
  {
    if |messages| > 0 {
      RecvAllAppends(RecvMessage(r, messages[0]), messages[1..]);
      assert [messages[0]] + messages[1..] == messages;
    }
  }

  lemma CollectReturnsArrivalOrder<P>(messages: seq<P>)
    ensures CollectIncoming(RecvAll(New<P>(), messages)).1 == messages
  {
    RecvAllAppends(New<P>(), messages);
  }

  /** A second collection straight after the first finds nothing. */
  lemma CollectTwiceIsEmpty<P>(r: Receiver<P>)
    ensures CollectIncoming(CollectIncoming(r).0).1 == []
    ensures CollectIncoming(CollectIncoming(r).0).0 == CollectIncoming(r).0
  {
  }

  /** A count of zero consumes only the header and queues nothing. */
  lemma ZeroCountReadsNothing<P>(m: Manifest<P>, input: seq<Token>)
    requires |input| > 0 && input[0] == ListHeader(0)
    ensures ListDecodes(m, input)
    ensures DecodeRun(m, input[1..], input[0].count).messages == []
    ensures DecodeRun(m, input[1..], input[0].count).rest == input[1..]
  {
  }

  // ---- The writing side, as the matching sender lays messages out ----

  /** How a message is written: its kind tag and its payload fields. */
  datatype Encoded = Encoded(kind: nat, payload: seq<Token>)

  function WriteMessage<P>(encode: P -> Encoded, message: P): seq<Token>
  {
    [KindTag(encode(message).kind)] + encode(message).payload
  }

  function WriteRun<P>(encode: P -> Encoded, messages: seq<P>): seq<Token>
    decreases |messages|
  {
    if |messages| == 0 then [] else WriteMessage(encode, messages[0]) + WriteRun(encode, messages[1..])
  }

  /** A count header followed by the messages. */
  function WriteList<P>(encode: P -> Encoded, messages: seq<P>): seq<Token>
  {
    [ListHeader(|messages|)] + WriteRun(encode, messages)
  }

  /** The factory inverts the encoder: every encoded kind is known, and the
      factory rebuilds the message from exactly its payload, whatever follows. */
  ghost predicate Inverts<P(!new)>(m: Manifest<P>, encode: P -> Encoded)
  {
    && (forall x :: encode(x).kind < m.kindCount)
    && (forall x, tail :: m.createReplica(encode(x).kind, encode(x).payload + tail) == Replica(x, |encode(x).payload|))
  }

  /** The factory reads a written message back from the front of the stream. */
  lemma ReadWritten<P(!new)>(m: Manifest<P>, encode: P -> Encoded, x: P, after: seq<Token>)
    requires Inverts(m, encode)
    ensures KindDecodes(m, WriteMessage(encode, x) + after)
    ensures ReadMessage(m, WriteMessage(encode, x) + after) == Decoded(x, after)
  {
    var input := WriteMessage(encode, x) + after;
    var e := encode(x);
    assert input[0] == KindTag(e.kind);
    assert input[1..] == e.payload + after;
    assert m.createReplica(e.kind, e.payload + after) == Replica(x, |e.payload|);
    assert input[1..][|e.payload|..] == after;
  }

  lemma WriteRunCons<P>(encode: P -> Encoded, messages: seq<P>, tail: seq<Token>)
    requires |messages| > 0
    ensures WriteRun(encode, messages) + tail == WriteMessage(encode, messages[0]) + (WriteRun(encode, messages[1..]) + tail)
  {
  }

  /** `x` written in front of `after` reads back as `x`, leaving `after`. */
  ghost predicate ReadsBackAt<P>(m: Manifest<P>, encode: P -> Encoded, x: P, after: seq<Token>)
  {
    KindDecodes(m, WriteMessage(encode, x) + after)
    && ReadMessage(m, WriteMessage(encode, x) + after) == Decoded(x, after)
  }

  /** Every message reads back from wherever it is written. */
  ghost predicate ReadsBack<P(!new)>(m: Manifest<P>, encode: P -> Encoded)
  {
    forall x, after :: ReadsBackAt(m, encode, x, after)
  }

  lemma InvertsReadsBack<P(!new)>(m: Manifest<P>, encode: P -> Encoded)
    requires Inverts(m, encode)
    ensures ReadsBack(m, encode)
  {
    forall x, after
      ensures ReadsBackAt(m, encode, x, after)
    {
      ReadWritten(m, encode, x, after);
    }
  }

  lemma {:induction false} RunRoundTrip<P(!new)>(m: Manifest<P>, encode: P -> Encoded, messages: seq<P>, tail: seq<Token>)
    requires ReadsBack(m, encode)
    ensures RunDecodes(m, WriteRun(encode, messages) + tail, |messages|)
    ensures DecodeRun(m, WriteRun(encode, messages) + tail, |messages|) == DecodedRun(messages, tail)
    decreases |messages|
  {
    if |messages| > 0 {
      var input := WriteRun(encode, messages) + tail;
      var after := WriteRun(encode, messages[1..]) + tail;
      WriteRunCons(encode, messages, tail);
      assert ReadsBackAt(m, encode, messages[0], after);
      RunRoundTrip(m, encode, messages[1..], tail);
      DecodeRunPrepend(m, input, messages, after, tail);
    }
  }

  /** Reading back a written list yields exactly the written messages, in
      order, and stops right after them. */
  lemma ListRoundTrip<P(!new)>(m: Manifest<P>, encode: P -> Encoded, messages: seq<P>, tail: seq<Token>)
    requires Inverts(m, encode)
    ensures ListDecodes(m, WriteList(encode, messages) + tail)
    ensures var input := WriteList(encode, messages) + tail;
            DecodeRun(m, input[1..], input[0].count) == DecodedRun(messages, tail)
  {
    var input := WriteList(encode, messages) + tail;
    assert input[1..] == WriteRun(encode, messages) + tail;
    InvertsReadsBack(m, encode);
    RunRoundTrip(m, encode, messages, tail);
  }
}
