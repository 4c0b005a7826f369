/** Delivery bookkeeping as the manager's own documentation describes it:
    every (channel, id) pair a packet carried is remembered against the
    packet, a delivery notice acknowledges all of them, and a delivered or
    dropped packet stops being tracked. The channel fan-out is the manager's
    own; only the packet map differs. */
module DeliveryTracking {
  import opened Wire
  import opened Channels
  import opened MessageManager

  type Pair = (ChannelIndex, MessageId)

  /** Channels in iteration order, and for each packet still awaiting a
      notice, the pairs it carried in the order they were written. */
  datatype Tracker<M> = Tracker(channels: seq<Channel<M>>, sent: map<PacketIndex, seq<Pair>>)

  /** Every id a write step returned, tagged with its channel. */
  function StepPairs(step: WriteStep): (r: seq<Pair>)
    ensures |r| == if step.result.ids.Some? then |step.result.ids.value| else 0
    ensures forall k :: 0 <= k < |r| ==> r[k] == (step.channel, step.result.ids.value[k])
  {
    match step.result.ids
    case None => []
    case Some(ids) => seq(|ids|, k requires 0 <= k < |ids| => (step.channel, ids[k]))
  }

  /** Every pair a write's channels returned, in iteration order. */
  function Reported(trace: seq<WriteStep>): seq<Pair>
  {
    if |trace| == 0 then [] else Reported(trace[..|trace| - 1]) + StepPairs(Last(trace))
  }

  /** A pair was reported exactly when some step returned that id for that
      channel. */
  lemma {:induction false} ReportedPairs(trace: seq<WriteStep>, c: ChannelIndex, id: MessageId)
    ensures (c, id) in Reported(trace) <==>
              exists i :: 0 <= i < |trace| && trace[i].channel == c && trace[i].result.ids.Some? && id in trace[i].result.ids.value
    decreases |trace|
  {
    if |trace| > 0 {
      var front := trace[..|trace| - 1];
      ReportedPairs(front, c, id);
      var step := Last(trace);
      if (c, id) in StepPairs(step) {
        var k :| 0 <= k < |StepPairs(step)| && StepPairs(step)[k] == (c, id);
        assert trace[|trace| - 1] == step;
      } else if step.channel == c && step.result.ids.Some? && id in step.result.ids.value {
        var k :| 0 <= k < |step.result.ids.value| && step.result.ids.value[k] == id;
        assert StepPairs(step)[k] == (c, id);
      }
      if exists i :: 0 <= i < |front| && front[i].channel == c && front[i].result.ids.Some? && id in front[i].result.ids.value {
        var i :| 0 <= i < |front| && front[i].channel == c && front[i].result.ids.Some? && id in front[i].result.ids.value;
        assert trace[i] == front[i];
      }
      if exists i :: 0 <= i < |trace| && trace[i].channel == c && trace[i].result.ids.Some? && id in trace[i].result.ids.value {
        var i :| 0 <= i < |trace| && trace[i].channel == c && trace[i].result.ids.Some? && id in trace[i].result.ids.value;
        if i < |front| {
          assert front[i] == trace[i];
        }
      }
    }
  }

  /** What the manager keeps for a packet is the last of the pairs the
      packet carried, and it keeps nothing when the packet carried none. */
  lemma {:induction false} LastReportedIsLastPair(trace: seq<WriteStep>)
    ensures LastReported(trace) == if |Reported(trace)| == 0 then None else Some(Last(Reported(trace)))
    decreases |trace|
  {
    if |trace| > 0 {
      LastReportedIsLastPair(trace[..|trace| - 1]);
    }
  }

  /** The delivery notices a channel receives for `pairs`, in order. */
  function AcksFor<M>(pairs: seq<Pair>, index: ChannelIndex): seq<Call<M>>
  {
    if |pairs| == 0 then []
    else AcksFor(pairs[..|pairs| - 1], index) + (if Last(pairs).0 == index then [Delivered(Last(pairs).1)] else [])
  }

  /** Forwards one delivery notice per pair, each to the channel it names. */
  function ForwardAll<M>(channels: seq<Channel<M>>, pairs: seq<Pair>): seq<Channel<M>>
  {
    if |pairs| == 0 then channels
    else Dispatch(ForwardAll(channels, pairs[..|pairs| - 1]), Last(pairs).0, Delivered(Last(pairs).1))
  }

  /** Forwarding keeps every channel in place and appends to each one exactly
      the notices for the pairs that name it, in the order of the pairs. */
  lemma {:induction false} ForwardAllLogs<M>(channels: seq<Channel<M>>, pairs: seq<Pair>)
    ensures SameIndices(channels, ForwardAll(channels, pairs))
    ensures forall i :: 0 <= i < |channels| ==>
              ForwardAll(channels, pairs)[i] == channels[i].(log := channels[i].log + AcksFor(pairs, channels[i].index))
    decreases |pairs|
  {
    if |pairs| == 0 {
      forall i | 0 <= i < |channels|
        ensures ForwardAll(channels, pairs)[i] == channels[i].(log := channels[i].log + AcksFor(pairs, channels[i].index))
      {
        assert channels[i].log + [] == channels[i].log;
      }
    } else {
      var front := pairs[..|pairs| - 1];
      ForwardAllLogs(channels, front);
      var before := ForwardAll(channels, front);
      var after := ForwardAll(channels, pairs);
      SameIndicesTrans(channels, before, after);
      forall i | 0 <= i < |channels|
        ensures after[i] == channels[i].(log := channels[i].log + AcksFor(pairs, channels[i].index))
      {
        var log := channels[i].log;
        var acks: seq<Call<M>> := AcksFor(front, channels[i].index);
        var more: seq<Call<M>> := if Last(pairs).0 == channels[i].index then [Delivered(Last(pairs).1)] else [];
        assert after[i].log == log + acks + more;
        assert log + acks + more == log + (acks + more);
      }
    }
  }

  ghost predicate Valid<M>(t: Tracker<M>)
  {
    Distinct(t.channels)
  }

  /** The result of a tracked write: the tracker, the packet contents and
      what each channel answered. */
  datatype TrackedWrite<M> = TrackedWrite(tracker: Tracker<M>, writer: seq<Token>, trace: seq<WriteStep>)

  /** A write whose packet remembers every pair it carried, replacing
      anything left under a reused packet index. Channels and packet contents
      are exactly those of the manager's write. */
  function TrackWrite<M>(b: Behaviour<M>, t: Tracker<M>, writer: seq<Token>, packet: PacketIndex): (w: TrackedWrite<M>)
    requires Valid(t)
    ensures Valid(w.tracker) && SameIndices(t.channels, w.tracker.channels)
    ensures var s := WriteMessages(b, Manager(t.channels, map[]), writer, packet);
            && w.tracker.channels == s.mgr.channels && w.writer == s.writer && w.trace == s.trace
    ensures w.tracker.sent == t.sent[packet := Reported(w.trace)]
  {
    var s := WriteMessages(b, Manager(t.channels, map[]), writer, packet);
    TrackedWrite(Tracker(s.mgr.channels, t.sent[packet := Reported(s.trace)]), s.writer, s.trace)
  }

  /** A delivery notice acknowledges every pair the packet carried and stops
      tracking the packet. An untracked packet changes nothing. */
  function Deliver<M>(t: Tracker<M>, packet: PacketIndex): (r: Tracker<M>)
    requires Valid(t)
    ensures Valid(r) && SameIndices(t.channels, r.channels)
    ensures r.sent == t.sent - {packet}
    ensures packet !in t.sent ==> r == t
    ensures packet in t.sent ==>
              forall i :: 0 <= i < |t.channels| ==>
                r.channels[i] == t.channels[i].(log := t.channels[i].log + AcksFor(t.sent[packet], t.channels[i].index))
  {
    if packet in t.sent then
      ForwardAllLogs(t.channels, t.sent[packet]);
      Tracker(ForwardAll(t.channels, t.sent[packet]), t.sent - {packet})
    else
      assert t.sent - {packet} == t.sent;
      t
  }

  /** A dropped packet stops being tracked; its messages are left for the
      channels to resend. */
  function Drop<M>(t: Tracker<M>, packet: PacketIndex): (r: Tracker<M>)
    ensures r.channels == t.channels && r.sent == t.sent - {packet}
  {
    Tracker(t.channels, t.sent - {packet})
  }

  /** A repeated delivery notice acknowledges nothing more. */
  lemma DeliverTwiceIsDeliverOnce<M>(t: Tracker<M>, packet: PacketIndex)
    requires Valid(t)
    ensures Deliver(Deliver(t, packet), packet) == Deliver(t, packet)
  {
  }

  /** A delivery notice after a drop acknowledges nothing. */
  lemma DeliverAfterDrop<M>(t: Tracker<M>, packet: PacketIndex)
    requires Valid(t)
    ensures Deliver(Drop(t, packet), packet) == Drop(t, packet)
  {
  }

  /** Delivering a packet acknowledges, on each channel, exactly the ids that
      channel wrote into that packet, whatever was tracked under the same
      packet index before. */
  lemma DeliverAfterWrite<M>(b: Behaviour<M>, t: Tracker<M>, writer: seq<Token>, packet: PacketIndex)
    requires Valid(t)
    ensures var w := TrackWrite(b, t, writer, packet);
            var r := Deliver(w.tracker, packet);
            && packet !in r.sent
            && forall i :: 0 <= i < |t.channels| ==>
                 r.channels[i] == w.tracker.channels[i].(log := w.tracker.channels[i].log + AcksFor(Reported(w.trace), t.channels[i].index))
  {
  }

  /** A write in which no channel returned ids carried no pairs. */
  lemma NothingReported(trace: seq<WriteStep>)
    requires forall i :: 0 <= i < |trace| ==> trace[i].result.ids.None?
    ensures Reported(trace) == []
  {
    LastReportedNone(trace);
    LastReportedIsLastPair(trace);
  }

  /** A reused packet index is acknowledged only for what the new packet
      carried: a packet in which no channel wrote ids acknowledges nothing. */
  lemma ReusedIndexAcknowledgesNothing<M>(b: Behaviour<M>, t: Tracker<M>, writer: seq<Token>, packet: PacketIndex)
    requires Valid(t)
    requires forall ch, sink :: b.write(ch, sink).ids.None?
    ensures var w := TrackWrite(b, t, writer, packet);
            Deliver(w.tracker, packet).channels == w.tracker.channels
  {
    var w := TrackWrite(b, t, writer, packet);
    var s := WriteMessages(b, Manager(t.channels, map[]), writer, packet);
    forall i | 0 <= i < |w.trace|
      ensures w.trace[i].result.ids.None?
    {
      assert WriteStepOk(b, t.channels, writer, s.trace, i);
    }
    NothingReported(w.trace);
  }

  // ---------------------------------------------------------------------
  // A packet carrying two messages of one channel
  // ---------------------------------------------------------------------

  /** What an ordered-reliable channel writes for messages 1 and 2: the
      count, then each message's id and kind. */
  const TwoIdsTokens: seq<Token> := [ListHeader(2), MessageIdTag(1), KindTag(0), MessageIdTag(2), KindTag(0)]

  /** One ordered-reliable channel that writes messages 1 and 2 into every
      packet. */
  function TwoIds(): Behaviour<int>
  {
    Behaviour(
      ch => false,
      (ch, sink) => WriteResult(Some([1, 2]), TwoIdsTokens),
      (ch, source) => 0,
      ch => [])
  }

  const Reliable: ChannelMode := OrderedReliable(ReliableSettings(1.5))

  function OneChannel(): seq<Channel<int>>
  {
    [NewChannel(0, Reliable)]
  }

  /** The write of that packet, as the manager performs it. */
  lemma TwoIdsWrite()
    ensures var s := WriteMessages(TwoIds(), Manager(OneChannel(), map[]), [], 7);
            && s.trace == [WriteStep(0, [], WriteResult(Some([1, 2]), TwoIdsTokens))]
            && s.writer == TwoIdsTokens
            && s.mgr.channels == [Channel(0, Reliable, [Write([])])]
            && s.mgr.packetMap == map[7 := (0, 2)]
  {
    var mgr := Manager(OneChannel(), map[]);
    var s0 := WriteState(mgr, [], []);
    assert WritePrefix(TwoIds(), mgr, [], 7, 1) == WriteChannel(TwoIds(), s0, 7, 0);
  }

  lemma TwoIdsReported()
    ensures Reported([WriteStep(0, [], WriteResult(Some([1, 2]), TwoIdsTokens))]) == [(0, 1), (0, 2)]
  {
    var trace := [WriteStep(0, [], WriteResult(Some([1, 2]), TwoIdsTokens))];
    assert trace[..0] == [];
  }

  lemma TwoIdsAcks()
    ensures AcksFor<int>([(0, 1), (0, 2)], 0) == [Delivered(1), Delivered(2)]
  {
    assert [(0, 1), (0, 2)][..1] == [(0, 1)];
    assert [(0, 1)][..0] == [];
  }

  /** As written, the delivery of that packet acknowledges message 2 only:
      message 1 is never acknowledged. */
  lemma AsWrittenAcknowledgesOnlyLastId()
    ensures var s := WriteMessages(TwoIds(), Manager(OneChannel(), map[]), [], 7);
            NotifyPacketDelivered(s.mgr, 7).channels[0].log == [Write([]), Delivered(2)]
  {
    var s := WriteMessages(TwoIds(), Manager(OneChannel(), map[]), [], 7);
    TwoIdsWrite();
    assert Lookup(s.mgr.channels, 0) == Some(s.mgr.channels[0]);
  }

  /** Tracked, the same packet's delivery acknowledges both messages, in the
      order they were written. */
  lemma TrackedAcknowledgesEveryId()
    ensures var w := TrackWrite(TwoIds(), Tracker(OneChannel(), map[]), [], 7);
            Deliver(w.tracker, 7).channels[0].log == [Write([]), Delivered(1), Delivered(2)]
  {
    var t := Tracker(OneChannel(), map[]);
    var w := TrackWrite(TwoIds(), t, [], 7);
    TwoIdsWrite();
    TwoIdsReported();
    TwoIdsAcks();
    DeliverAfterWrite(TwoIds(), t, [], 7);
    var log := Deliver(w.tracker, 7).channels[0].log;
    assert log == [Write([])] + AcksFor(Reported(w.trace), 0);
  }
}
