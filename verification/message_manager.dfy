/** The message manager: owns one channel per configured index, routes sends,
    fans each per-tick call out over every channel in one fixed order, and
    remembers which (channel, message id) the last write recorded for each
    packet so that a delivery notice can be forwarded to that channel. */
module MessageManager {
  import opened Wire
  import opened Channels

  /** The channel map is keyed by index; `channels` lists its entries in the
      order the map is iterated, each channel carrying its own index. */
  datatype Manager<M> = Manager(
    channels: seq<Channel<M>>,
    packetMap: map<PacketIndex, (ChannelIndex, MessageId)>)

  // ---------------------------------------------------------------------
  // The channel map
  // ---------------------------------------------------------------------

  /** Where the channel with this index sits in iteration order, if any. */
  function Position<M>(channels: seq<Channel<M>>, index: ChannelIndex): (r: Option<nat>)
    ensures r.Some? ==> r.value < |channels| && channels[r.value].index == index
    ensures r.None? ==> forall i :: 0 <= i < |channels| ==> channels[i].index != index
    decreases |channels|
  {
    if |channels| == 0 then None
    else if Last(channels).index == index then Some(|channels| - 1)
    else Position(channels[..|channels| - 1], index)
  }

  /** The channel stored under this index, as the map's `get` finds it. */
  function Lookup<M>(channels: seq<Channel<M>>, index: ChannelIndex): (r: Option<Channel<M>>)
    ensures r.Some? ==> r.value.index == index && r.value in channels
    ensures r.None? <==> forall i :: 0 <= i < |channels| ==> channels[i].index != index
  {
    match Position(channels, index)
    case None => None
    case Some(i) => Some(channels[i])
  }

  /** No two channels share an index: the list is a map. */
  ghost predicate Distinct<M>(channels: seq<Channel<M>>)
  {
    forall i, j :: 0 <= i < j < |channels| ==> channels[i].index != channels[j].index
  }

  /** The channel list is a map and every recorded packet names a channel. */
  ghost predicate Valid<M>(mgr: Manager<M>)
  {
    && Distinct(mgr.channels)
    && forall p :: p in mgr.packetMap ==> Position(mgr.channels, mgr.packetMap[p].0).Some?
  }

  /** Two channel lists hold the same indices in the same order, whatever
      state each channel is in. */
  ghost predicate SameIndices<M>(a: seq<Channel<M>>, b: seq<Channel<M>>)
  {
    |a| == |b| && forall i :: 0 <= i < |a| ==> a[i].index == b[i].index
  }

  lemma SameIndicesTrans<M>(a: seq<Channel<M>>, b: seq<Channel<M>>, c: seq<Channel<M>>)
    requires SameIndices(a, b) && SameIndices(b, c)
    ensures SameIndices(a, c)
  {
  }

  lemma {:induction false} PositionSameIndices<M>(a: seq<Channel<M>>, b: seq<Channel<M>>, index: ChannelIndex)
    requires SameIndices(a, b)
    ensures Position(a, index) == Position(b, index)
    decreases |a|
  {
    if |a| > 0 {
      PositionSameIndices(a[..|a| - 1], b[..|b| - 1], index);
    }
  }

  /** In a map, each channel is found at its own position. */
  lemma PositionOf<M>(channels: seq<Channel<M>>, i: nat)
    requires Distinct(channels) && i < |channels|
    ensures Position(channels, channels[i].index) == Some(i)
  {
  }

  /** Changing channel states without changing indices keeps the manager
      well formed. */
  lemma ValidSameIndices<M>(mgr: Manager<M>, channels: seq<Channel<M>>)
    requires Valid(mgr) && SameIndices(mgr.channels, channels)
    ensures Valid(Manager(channels, mgr.packetMap))
  {
    forall p | p in mgr.packetMap
      ensures Position(channels, mgr.packetMap[p].0).Some?
    {
      PositionSameIndices(mgr.channels, channels, mgr.packetMap[p].0);
    }
  }

  /** The channel with this index, if present, handles `call`; every other
      channel is left alone. */
  function Dispatch<M>(channels: seq<Channel<M>>, index: ChannelIndex, call: Call<M>): (r: seq<Channel<M>>)
    ensures SameIndices(channels, r)
  {
    seq(|channels|, i requires 0 <= i < |channels| =>
      if channels[i].index == index then Handle(channels[i], call) else channels[i])
  }

  /** Dispatching is a map update: the entry under `index` handles the call,
      every other entry reads back as before, and a missing index changes
      nothing at all. */
  lemma DispatchLookup<M>(channels: seq<Channel<M>>, index: ChannelIndex, call: Call<M>)
    ensures Lookup(channels, index).None? ==> Dispatch(channels, index, call) == channels
    ensures forall c :: Lookup(Dispatch(channels, index, call), c) ==
              match Lookup(channels, c)
              case None => None
              case Some(ch) => Some(if c == index then Handle(ch, call) else ch)
  {
    var r := Dispatch(channels, index, call);
    forall c
      ensures Lookup(r, c) ==
                match Lookup(channels, c)
                case None => None
                case Some(ch) => Some(if c == index then Handle(ch, call) else ch)
    {
      PositionSameIndices(channels, r, c);
    }
  }

  // ---------------------------------------------------------------------
  // Construction
  // ---------------------------------------------------------------------

  /** Looking up in a list with one more channel at the end. */
  lemma PositionSnoc<M>(channels: seq<Channel<M>>, ch: Channel<M>, index: ChannelIndex)
    ensures Position(channels + [ch], index) ==
              if ch.index == index then Some(|channels|) else Position(channels, index)
  {
    assert (channels + [ch])[..|channels|] == channels;
  }

  /** Every channel in the list is fresh and comes from a configuration
      entry with its index and a mode that has an implementation. */
  ghost predicate FromConfig<M>(config: seq<ChannelSettings>, channels: seq<Channel<M>>)
  {
    forall i :: 0 <= i < |channels| ==>
      && ChannelSettings(channels[i].index, channels[i].mode) in config
      && Builds(channels[i].mode) && channels[i] == NewChannel(channels[i].index, channels[i].mode)
  }

  /** `mgr` is what construction yields for these configuration entries:
      a well-formed manager with nothing recorded, holding a fresh channel
      under exactly the indices whose mode has an implementation. */
  ghost predicate Built<M>(config: seq<ChannelSettings>, mgr: Manager<M>)
  {
    && Valid(mgr) && mgr.packetMap == map[]
    && FindsConfigured(config, mgr.channels)
    && FromConfig(config, mgr.channels)
  }

  /** Each configured index finds a fresh channel of its mode exactly when
      the mode has an implementation. */
  ghost predicate FindsConfigured<M>(config: seq<ChannelSettings>, channels: seq<Channel<M>>)
  {
    forall i :: 0 <= i < |config| ==>
      Lookup(channels, config[i].index) ==
        if Builds(config[i].mode) then Some(NewChannel(config[i].index, config[i].mode)) else None
  }

  /** Builds one channel for each configured index whose mode has an
      implementation, with nothing yet recorded. The map's iteration order
      is unspecified; the model lists channels in configuration order. */
  function New<M>(config: ChannelConfig): (mgr: Manager<M>)
    requires config.Valid()
    ensures Valid(mgr) && mgr.packetMap == map[]
    ensures forall i :: 0 <= i < |config.channels| ==>
              Lookup(mgr.channels, config.channels[i].index) ==
                if Builds(config.channels[i].mode)
                then Some(NewChannel(config.channels[i].index, config.channels[i].mode))
                else None
    ensures forall i :: 0 <= i < |mgr.channels| ==>
              && ChannelSettings(mgr.channels[i].index, mgr.channels[i].mode) in config.channels
              && Builds(mgr.channels[i].mode) && mgr.channels[i] == NewChannel(mgr.channels[i].index, mgr.channels[i].mode)
    decreases |config.channels|
  {
    if |config.channels| == 0 then Manager([], map[])
    else
      var mgr := New(ChannelConfig(config.channels[..|config.channels| - 1]));
      var s := Last(config.channels);
      NewStep(config.channels, mgr);
      if Builds(s.mode) then Manager(mgr.channels + [NewChannel(s.index, s.mode)], map[]) else mgr
  }

  /** The last configured entry's index is new to the channels built from
      the entries before it. */
  lemma NewFresh<M>(config: seq<ChannelSettings>, channels: seq<Channel<M>>)
    requires ChannelConfig(config).Valid() && |config| > 0
    requires FromConfig(config[..|config| - 1], channels)
    ensures forall i :: 0 <= i < |channels| ==> channels[i].index != Last(config).index
  {
    var n := |config|;
    forall i | 0 <= i < |channels|
      ensures channels[i].index != config[n - 1].index
    {
      var e := ChannelSettings(channels[i].index, channels[i].mode);
      var j :| 0 <= j < n - 1 && config[..n - 1][j] == e;
      assert config[j] == e;
    }
  }

  /** Construction handles one more configuration entry: appending its
      channel (when its mode has one) keeps a map and changes no earlier
      lookup. */
  lemma NewStep<M>(config: seq<ChannelSettings>, mgr: Manager<M>)
    requires ChannelConfig(config).Valid() && |config| > 0
    requires Built(config[..|config| - 1], mgr)
    ensures var s := Last(config);
            Built(config, if Builds(s.mode) then Manager(mgr.channels + [NewChannel(s.index, s.mode)], map[]) else mgr)
  {
    NewFresh(config, mgr.channels);
    if Builds(Last(config).mode) {
      NewAdds(config, mgr);
    } else {
      NewSkips(config, mgr);
    }
  }

  lemma NewSkips<M>(config: seq<ChannelSettings>, mgr: Manager<M>)
    requires ChannelConfig(config).Valid() && |config| > 0 && !Builds(Last(config).mode)
    requires Built(config[..|config| - 1], mgr)
    requires forall i :: 0 <= i < |mgr.channels| ==> mgr.channels[i].index != Last(config).index
    ensures Built(config, mgr)
  {
    var n := |config|;
    assert forall i :: 0 <= i < n - 1 ==> config[i] == config[..n - 1][i];
    assert forall e :: e in config[..n - 1] ==> e in config;
  }

  lemma NewAdds<M>(config: seq<ChannelSettings>, mgr: Manager<M>)
    requires ChannelConfig(config).Valid() && |config| > 0 && Builds(Last(config).mode)
    requires Built(config[..|config| - 1], mgr)
    requires forall i :: 0 <= i < |mgr.channels| ==> mgr.channels[i].index != Last(config).index
    ensures Built(config, Manager(mgr.channels + [NewChannel(Last(config).index, Last(config).mode)], map[]))
  {
    var s := Last(config);
    var ch := NewChannel<M>(s.index, s.mode);
    FindsConfiguredSnoc(config, mgr.channels);
    FromConfigSnoc(config, mgr.channels);
    DistinctSnoc(mgr.channels, ch);
  }

  /** Adding a fresh channel for the last entry keeps the earlier entries'
      lookups and makes the last entry find it. */
  lemma FindsConfiguredSnoc<M>(config: seq<ChannelSettings>, channels: seq<Channel<M>>)
    requires ChannelConfig(config).Valid() && |config| > 0 && Builds(Last(config).mode)
    requires FindsConfigured(config[..|config| - 1], channels)
    ensures FindsConfigured(config, channels + [NewChannel(Last(config).index, Last(config).mode)])
  {
    var n := |config|;
    var s := Last(config);
    var ch := NewChannel<M>(s.index, s.mode);
    forall i | 0 <= i < n
      ensures Lookup(channels + [ch], config[i].index) ==
                if Builds(config[i].mode) then Some(NewChannel(config[i].index, config[i].mode)) else None
    {
      PositionSnoc(channels, ch, config[i].index);
      if i < n - 1 {
        assert config[..n - 1][i] == config[i];
      }
    }
  }

  lemma DistinctSnoc<M>(channels: seq<Channel<M>>, ch: Channel<M>)
    requires Distinct(channels)
    requires forall i :: 0 <= i < |channels| ==> channels[i].index != ch.index
    ensures Distinct(channels + [ch])
  {
  }

  /** A fresh channel for the last entry joins the channels built from the
      entries before it. */
  lemma FromConfigSnoc<M>(config: seq<ChannelSettings>, channels: seq<Channel<M>>)
    requires |config| > 0 && Builds(Last(config).mode)
    requires FromConfig(config[..|config| - 1], channels)
    ensures FromConfig(config, channels + [NewChannel(Last(config).index, Last(config).mode)])
  {
    assert forall e :: e in config[..|config| - 1] ==> e in config;
  }

  // ---------------------------------------------------------------------
  // Sending
  // ---------------------------------------------------------------------

  /** Hands the message to the channel with that index; without such a
      channel the message is dropped and nothing changes. */
  function SendMessage<M>(mgr: Manager<M>, index: ChannelIndex, message: M): (r: Manager<M>)
    requires Valid(mgr)
    ensures Valid(r) && r.packetMap == mgr.packetMap && SameIndices(mgr.channels, r.channels)
    ensures Lookup(mgr.channels, index).None? ==> r == mgr
    ensures forall c :: Lookup(r.channels, c) ==
              match Lookup(mgr.channels, c)
              case None => None
              case Some(ch) => Some(if c == index then Handle(ch, Send(message)) else ch)
  {
    var r := mgr.(channels := Dispatch(mgr.channels, index, Send(message)));
    DispatchLookup(mgr.channels, index, Send(message));
    ValidSameIndices(mgr, r.channels);
    r
  }

  // ---------------------------------------------------------------------
  // Per-tick calls on every channel
  // ---------------------------------------------------------------------

  /** Whether any channel of the list has something to send. */
  function AnyOutgoing<M>(b: Behaviour<M>, channels: seq<Channel<M>>): (r: bool)
    ensures r <==> exists i :: 0 <= i < |channels| && b.hasOutgoing(channels[i])
    decreases |channels|
  {
    if |channels| == 0 then false
    else AnyOutgoing(b, channels[..|channels| - 1]) || b.hasOutgoing(Last(channels))
  }

  /** True exactly when some channel in the map reports outgoing messages. */
  function HasOutgoingMessages<M>(b: Behaviour<M>, mgr: Manager<M>): (r: bool)
    requires Valid(mgr)
    ensures r <==> exists c :: Lookup(mgr.channels, c).Some? && b.hasOutgoing(Lookup(mgr.channels, c).value)
  {
    var r := AnyOutgoing(b, mgr.channels);
    if r then
      var i :| 0 <= i < |mgr.channels| && b.hasOutgoing(mgr.channels[i]);
      PositionOf(mgr.channels, i);
      assert Lookup(mgr.channels, mgr.channels[i].index) == Some(mgr.channels[i]);
      r
    else
      r
  }

  /** Gives every channel its per-tick chance to queue (re)sends. Each call
      touches only its own channel, so the iteration order does not matter. */
  function CollectOutgoingMessages<M>(mgr: Manager<M>, rttMillis: real): (r: Manager<M>)
    requires Valid(mgr)
    ensures Valid(r) && r.packetMap == mgr.packetMap && SameIndices(mgr.channels, r.channels)
    ensures forall c :: Lookup(r.channels, c) ==
              match Lookup(mgr.channels, c)
              case None => None
              case Some(ch) => Some(Handle(ch, CollectOutgoing(rttMillis)))
  {
    var channels := seq(|mgr.channels|, i requires 0 <= i < |mgr.channels| =>
                          Handle(mgr.channels[i], CollectOutgoing(rttMillis)));
    assert SameIndices(mgr.channels, channels);
    CollectOutgoingLookup(mgr, rttMillis, channels);
    ValidSameIndices(mgr, channels);
    mgr.(channels := channels)
  }

  lemma CollectOutgoingLookup<M>(mgr: Manager<M>, rttMillis: real, channels: seq<Channel<M>>)
    requires |channels| == |mgr.channels|
    requires forall i :: 0 <= i < |channels| ==> channels[i] == Handle(mgr.channels[i], CollectOutgoing(rttMillis))
    ensures forall c :: Lookup(channels, c) ==
              match Lookup(mgr.channels, c)
              case None => None
              case Some(ch) => Some(Handle(ch, CollectOutgoing(rttMillis)))
  {
    assert SameIndices(mgr.channels, channels);
    forall c
      ensures Lookup(channels, c) ==
                match Lookup(mgr.channels, c)
                case None => None
                case Some(ch) => Some(Handle(ch, CollectOutgoing(rttMillis)))
    {
      PositionSameIndices(mgr.channels, channels, c);
    }
  }

  // ---------------------------------------------------------------------
  // Writing a packet
  // ---------------------------------------------------------------------

  /** One channel's turn in a write: the packet as the channel found it, and
      what the channel answered. */
  datatype WriteStep = WriteStep(channel: ChannelIndex, sink: seq<Token>, result: WriteResult)

  /** What a write leaves on the wire for one channel: the channel's own
      tokens, then one zero-count header if and only if it returned `None`. */
  function Emitted(step: WriteStep): seq<Token>
  {
    step.result.tokens + (if step.result.ids.None? then [ListHeader(0)] else [])
  }

  function EmittedAll(trace: seq<WriteStep>): seq<Token>
  {
    if |trace| == 0 then [] else EmittedAll(trace[..|trace| - 1]) + Emitted(Last(trace))
  }

  /** The channel returned at least one message id. */
  predicate Reports(step: WriteStep)
  {
    step.result.ids.Some? && |step.result.ids.value| > 0
  }

  /** The (channel, id) pair of the last id returned by the last channel that
      returned any, if one did. */
  function LastReported(trace: seq<WriteStep>): Option<(ChannelIndex, MessageId)>
  {
    if |trace| == 0 then None
    else if Reports(Last(trace)) then Some((Last(trace).channel, Last(Last(trace).result.ids.value)))
    else LastReported(trace[..|trace| - 1])
  }

  /** The packet map once the entry for `packet` holds the last pair reported. */
  function Recorded(packetMap: map<PacketIndex, (ChannelIndex, MessageId)>, packet: PacketIndex, trace: seq<WriteStep>): map<PacketIndex, (ChannelIndex, MessageId)>
  {
    match LastReported(trace)
    case None => packetMap
    case Some(entry) => packetMap[packet := entry]
  }

  /** Step `i` of `trace` is what the `i`-th channel in iteration order
      answered when handed the packet as the earlier channels left it. */
  ghost predicate WriteStepOk<M>(b: Behaviour<M>, channels: seq<Channel<M>>, writer: seq<Token>, trace: seq<WriteStep>, i: nat)
    requires i < |trace| <= |channels|
  {
    && trace[i].channel == channels[i].index
    && trace[i].sink == writer + EmittedAll(trace[..i])
    && trace[i].result == b.write(channels[i], trace[i].sink)
  }

  /** `trace` is what the first `|trace|` channels in iteration order answered. */
  ghost predicate IsWriteTrace<M>(b: Behaviour<M>, channels: seq<Channel<M>>, writer: seq<Token>, trace: seq<WriteStep>)
  {
    && |trace| <= |channels|
    && forall i :: 0 <= i < |trace| ==> WriteStepOk(b, channels, writer, trace, i)
  }

  /** The inner loop of a write: one insert per returned id, each replacing
      the previous entry for the packet, so only the last id survives. */
  function InsertEach(packetMap: map<PacketIndex, (ChannelIndex, MessageId)>, packet: PacketIndex, index: ChannelIndex, ids: seq<MessageId>): (r: map<PacketIndex, (ChannelIndex, MessageId)>)
    ensures |ids| == 0 ==> r == packetMap
    ensures |ids| > 0 ==> r == packetMap[packet := (index, Last(ids))]
    decreases |ids|
  {
    if |ids| == 0 then packetMap
    else InsertEach(packetMap[packet := (index, ids[0])], packet, index, ids[1..])
  }

  datatype WriteState<M> = WriteState(mgr: Manager<M>, writer: seq<Token>, trace: seq<WriteStep>)

  /** One iteration of the write loop, for the channel at position `k`. */
  function WriteChannel<M>(b: Behaviour<M>, s: WriteState<M>, packet: PacketIndex, k: nat): WriteState<M>
    requires k < |s.mgr.channels|
  {
    var ch := s.mgr.channels[k];
    var result := b.write(ch, s.writer);
    var packetMap :=
      match result.ids
      case Some(ids) => InsertEach(s.mgr.packetMap, packet, ch.index, ids)
      case None => s.mgr.packetMap;
    var writer := s.writer + result.tokens + (if result.ids.None? then [ListHeader(0)] else []);
    WriteState(
      Manager(s.mgr.channels[k := Handle(ch, Write(s.writer))], packetMap),
      writer,
      s.trace + [WriteStep(ch.index, s.writer, result)])
  }

  /** The write loop after the first `k` channels in iteration order. */
  function WritePrefix<M>(b: Behaviour<M>, mgr: Manager<M>, writer: seq<Token>, packet: PacketIndex, k: nat): (s: WriteState<M>)
    requires k <= |mgr.channels|
    ensures |s.mgr.channels| == |mgr.channels| && |s.trace| == k
    decreases k
  {
    if k == 0 then WriteState(mgr, writer, [])
    else WriteChannel(b, WritePrefix(b, mgr, writer, packet, k - 1), packet, k - 1)
  }

  /** After the first `k` channels, each of them received exactly one write
      and the others are untouched. */
  lemma {:induction false} WritePrefixFrame<M>(b: Behaviour<M>, mgr: Manager<M>, writer: seq<Token>, packet: PacketIndex, k: nat)
    requires k <= |mgr.channels|
    ensures var s := WritePrefix(b, mgr, writer, packet, k);
            && (forall i :: 0 <= i < k ==> s.mgr.channels[i] == Handle(mgr.channels[i], Write(s.trace[i].sink)))
            && (forall i :: k <= i < |mgr.channels| ==> s.mgr.channels[i] == mgr.channels[i])
    decreases k
  {
    if k > 0 {
      WritePrefixFrame(b, mgr, writer, packet, k - 1);
    }
  }

  /** One write iteration appends exactly the channel's own tokens and, when
      it returned `None`, one zero-count header, and records the channel's
      answer as the next step. */
  lemma WriteChannelRecords<M>(b: Behaviour<M>, mgr: Manager<M>, writer: seq<Token>, packet: PacketIndex, s: WriteState<M>, k: nat)
    requires k < |s.mgr.channels|
    requires s.writer == writer + EmittedAll(s.trace)
    requires s.mgr.packetMap == Recorded(mgr.packetMap, packet, s.trace)
    ensures var s' := WriteChannel(b, s, packet, k);
            var ch := s.mgr.channels[k];
            && s'.trace == s.trace + [WriteStep(ch.index, s.writer, b.write(ch, s.writer))]
            && s'.writer == writer + EmittedAll(s'.trace)
            && s'.mgr.packetMap == Recorded(mgr.packetMap, packet, s'.trace)
  {
    var ch := s.mgr.channels[k];
    var result := b.write(ch, s.writer);
    var step := WriteStep(ch.index, s.writer, result);
    var header: seq<Token> := if result.ids.None? then [ListHeader(0)] else [];
    EmittedAllSnoc(s.trace, step);
    assert (s.writer + result.tokens) + header == writer + (EmittedAll(s.trace) + Emitted(step));
    RecordedSnoc(mgr.packetMap, packet, s.trace, step);
  }

  lemma WriteTraceExtends<M>(b: Behaviour<M>, channels: seq<Channel<M>>, writer: seq<Token>, trace: seq<WriteStep>, step: WriteStep)
    requires IsWriteTrace(b, channels, writer, trace) && |trace| < |channels|
    requires step.channel == channels[|trace|].index
    requires step.sink == writer + EmittedAll(trace)
    requires step.result == b.write(channels[|trace|], step.sink)
    ensures IsWriteTrace(b, channels, writer, trace + [step])
  {
    var t := trace + [step];
    forall i | 0 <= i < |t|
      ensures WriteStepOk(b, channels, writer, t, i)
    {
      if i < |trace| {
        assert WriteStepOk(b, channels, writer, trace, i);
        assert t[..i] == trace[..i];
      } else {
        assert t[..i] == trace;
      }
    }
  }

  /** After the first `k` channels, the trace is what they answered, the
      packet holds what they emitted, and the map what their ids recorded. */
  lemma {:induction false} WritePrefixTrace<M>(b: Behaviour<M>, mgr: Manager<M>, writer: seq<Token>, packet: PacketIndex, k: nat)
    requires k <= |mgr.channels|
    ensures var s := WritePrefix(b, mgr, writer, packet, k);
            && IsWriteTrace(b, mgr.channels, writer, s.trace)
            && s.writer == writer + EmittedAll(s.trace)
            && s.mgr.packetMap == Recorded(mgr.packetMap, packet, s.trace)
    decreases k
  {
    if k > 0 {
      var s := WritePrefix(b, mgr, writer, packet, k - 1);
      var ch := mgr.channels[k - 1];
      WritePrefixTrace(b, mgr, writer, packet, k - 1);
      WritePrefixFrame(b, mgr, writer, packet, k - 1);
      assert s.mgr.channels[k - 1] == ch;
      WriteChannelKeeps(b, mgr, writer, packet, s, k - 1);
    }
  }

  /** One write iteration keeps the loop's account of the trace, the packet
      and the map. */
  lemma WriteChannelKeeps<M>(b: Behaviour<M>, mgr: Manager<M>, writer: seq<Token>, packet: PacketIndex, s: WriteState<M>, k: nat)
    requires k < |mgr.channels| && k < |s.mgr.channels| && |s.trace| == k
    requires s.mgr.channels[k] == mgr.channels[k]
    requires IsWriteTrace(b, mgr.channels, writer, s.trace)
    requires s.writer == writer + EmittedAll(s.trace)
    requires s.mgr.packetMap == Recorded(mgr.packetMap, packet, s.trace)
    ensures var s' := WriteChannel(b, s, packet, k);
            && IsWriteTrace(b, mgr.channels, writer, s'.trace)
            && s'.writer == writer + EmittedAll(s'.trace)
            && s'.mgr.packetMap == Recorded(mgr.packetMap, packet, s'.trace)
  {
    var ch := mgr.channels[k];
    WriteChannelRecords(b, mgr, writer, packet, s, k);
    WriteTraceExtends(b, mgr.channels, writer, s.trace, WriteStep(ch.index, s.writer, b.write(ch, s.writer)));
  }

  /** A recorded pair always names the channel of some step. */
  lemma {:induction false} LastReportedChannel(trace: seq<WriteStep>)
    ensures LastReported(trace).Some? ==>
              exists j :: 0 <= j < |trace| && trace[j].channel == LastReported(trace).value.0
    decreases |trace|
  {
    if |trace| > 0 && !Reports(Last(trace)) {
      var front := trace[..|trace| - 1];
      LastReportedChannel(front);
      if LastReported(front).Some? {
        var j :| 0 <= j < |front| && front[j].channel == LastReported(front).value.0;
        assert trace[j] == front[j];
      }
    }
  }

  /** A write leaves the manager well formed: channel indices stay put, and
      the only entry it can record names a channel that was written. */
  lemma WrittenValid<M>(b: Behaviour<M>, mgr: Manager<M>, writer: seq<Token>, packet: PacketIndex, s: WriteState<M>)
    requires Valid(mgr) && SameIndices(mgr.channels, s.mgr.channels)
    requires IsWriteTrace(b, mgr.channels, writer, s.trace)
    requires s.mgr.packetMap == Recorded(mgr.packetMap, packet, s.trace)
    ensures Valid(s.mgr)
  {
    ValidSameIndices(mgr, s.mgr.channels);
    LastReportedChannel(s.trace);
    if LastReported(s.trace).Some? {
      var index := LastReported(s.trace).value.0;
      var j :| 0 <= j < |s.trace| && s.trace[j].channel == index;
      assert WriteStepOk(b, mgr.channels, writer, s.trace, j);
      PositionSameIndices(mgr.channels, s.mgr.channels, index);
      assert Position(s.mgr.channels, index).Some?;
    }
  }

  lemma EmittedAllSnoc(trace: seq<WriteStep>, step: WriteStep)
    ensures EmittedAll(trace + [step]) == EmittedAll(trace) + Emitted(step)
  {
    assert (trace + [step])[..|trace|] == trace;
  }

  /** Recording after one more step: a reporting step overwrites the
      packet's entry, any other step leaves the map as it was. */
  lemma RecordedSnoc(packetMap: map<PacketIndex, (ChannelIndex, MessageId)>, packet: PacketIndex, trace: seq<WriteStep>, step: WriteStep)
    ensures Recorded(packetMap, packet, trace + [step]) ==
              match step.result.ids
              case Some(ids) => InsertEach(Recorded(packetMap, packet, trace), packet, step.channel, ids)
              case None => Recorded(packetMap, packet, trace)
  {
    LastReportedSnoc(trace, step);
    if Reports(step) {
      var entry := (step.channel, Last(step.result.ids.value));
      match LastReported(trace)
      case None =>
      case Some(e) =>
        assert packetMap[packet := e][packet := entry] == packetMap[packet := entry];
    }
  }

  lemma LastReportedSnoc(trace: seq<WriteStep>, step: WriteStep)
    ensures LastReported(trace + [step]) ==
              if Reports(step) then Some((step.channel, Last(step.result.ids.value))) else LastReported(trace)
  {
    assert (trace + [step])[..|trace|] == trace;
  }

  /** Asks every channel, in iteration order, to write into the packet. A
      channel answering `None` is followed by one zero-count header; for a
      channel answering ids, each id is recorded against the packet in turn. */
  function WriteMessages<M>(b: Behaviour<M>, mgr: Manager<M>, writer: seq<Token>, packet: PacketIndex): (s: WriteState<M>)
    requires Valid(mgr)
    ensures Valid(s.mgr) && SameIndices(mgr.channels, s.mgr.channels)
    ensures |s.trace| == |mgr.channels| && IsWriteTrace(b, mgr.channels, writer, s.trace)
    ensures s.writer == writer + EmittedAll(s.trace)
    ensures s.mgr.packetMap == Recorded(mgr.packetMap, packet, s.trace)
    ensures forall i :: 0 <= i < |mgr.channels| ==>
              s.mgr.channels[i] == Handle(mgr.channels[i], Write(s.trace[i].sink))
  {
    var k := |mgr.channels|;
    var s := WritePrefix(b, mgr, writer, packet, k);
    WritePrefixFrame(b, mgr, writer, packet, k);
    WritePrefixTrace(b, mgr, writer, packet, k);
    assert SameIndices(mgr.channels, s.mgr.channels);
    WrittenValid(b, mgr, writer, packet, s);
    s
  }

  /** Nothing is recorded exactly when no channel returned an id. */
  lemma {:induction false} LastReportedNone(trace: seq<WriteStep>)
    ensures LastReported(trace).None? <==> forall i :: 0 <= i < |trace| ==> !Reports(trace[i])
    decreases |trace|
  {
    if |trace| > 0 {
      var front := trace[..|trace| - 1];
      LastReportedNone(front);
      assert forall i :: 0 <= i < |front| ==> front[i] == trace[i];
    }
  }

  /** If step `j` is the last one that returned ids, its last id is what the
      write leaves recorded. */
  lemma {:induction false} LastReportedAt(trace: seq<WriteStep>, j: nat)
    requires j < |trace| && Reports(trace[j])
    requires forall i :: j < i < |trace| ==> !Reports(trace[i])
    ensures LastReported(trace) == Some((trace[j].channel, Last(trace[j].result.ids.value)))
    decreases |trace|
  {
    if j < |trace| - 1 {
      var front := trace[..|trace| - 1];
      assert forall i :: 0 <= i < |front| ==> front[i] == trace[i];
      LastReportedAt(front, j);
    }
  }

  /** What recording a trace does to the map: only the packet's entry can
      change, it changes exactly when some step returned ids, and then it
      holds the last id of the last such step. */
  lemma RecordedLastId(packetMap: map<PacketIndex, (ChannelIndex, MessageId)>, packet: PacketIndex, trace: seq<WriteStep>)
    ensures var r := Recorded(packetMap, packet, trace);
            forall p :: p != packet ==>
              (p in r <==> p in packetMap) && (p in packetMap ==> r[p] == packetMap[p])
    ensures (forall i :: 0 <= i < |trace| ==> !Reports(trace[i])) ==> Recorded(packetMap, packet, trace) == packetMap
    ensures forall j :: 0 <= j < |trace| && Reports(trace[j]) && (forall i :: j < i < |trace| ==> !Reports(trace[i])) ==>
              Recorded(packetMap, packet, trace) == packetMap[packet := (trace[j].channel, Last(trace[j].result.ids.value))]
  {
    LastReportedNone(trace);
    forall j | 0 <= j < |trace| && Reports(trace[j]) && (forall i :: j < i < |trace| ==> !Reports(trace[i]))
      ensures Recorded(packetMap, packet, trace) == packetMap[packet := (trace[j].channel, Last(trace[j].result.ids.value))]
    {
      LastReportedAt(trace, j);
    }
  }

  /** After a write, the packet's entry holds the last id of the last channel
      (in iteration order) that returned any ids; if no channel did, the map
      is unchanged. Entries for other packets are never touched. */
  lemma WriteRecordsLastId<M>(b: Behaviour<M>, mgr: Manager<M>, writer: seq<Token>, packet: PacketIndex)
    requires Valid(mgr)
    ensures var s := WriteMessages(b, mgr, writer, packet);
            forall p :: p != packet ==>
              (p in s.mgr.packetMap <==> p in mgr.packetMap) &&
              (p in mgr.packetMap ==> s.mgr.packetMap[p] == mgr.packetMap[p])
    ensures var s := WriteMessages(b, mgr, writer, packet);
            (forall i :: 0 <= i < |s.trace| ==> !Reports(s.trace[i])) ==> s.mgr.packetMap == mgr.packetMap
    ensures var s := WriteMessages(b, mgr, writer, packet);
            forall j :: 0 <= j < |s.trace| && Reports(s.trace[j]) && (forall i :: j < i < |s.trace| ==> !Reports(s.trace[i])) ==>
              s.mgr.packetMap == mgr.packetMap[packet := (s.trace[j].channel, Last(s.trace[j].result.ids.value))]
  {
    RecordedLastId(mgr.packetMap, packet, WriteMessages(b, mgr, writer, packet).trace);
  }

  /** The zero-count header appears once per channel that returned `None`:
      when no channel has anything to write, the packet gains exactly one
      empty header per channel and nothing is recorded. */
  lemma IdleWrite<M>(b: Behaviour<M>, mgr: Manager<M>, writer: seq<Token>, packet: PacketIndex)
    requires Valid(mgr)
    requires forall ch, sink :: b.write(ch, sink) == WriteResult(None, [])
    ensures var s := WriteMessages(b, mgr, writer, packet);
            s.writer == writer + seq(|mgr.channels|, _ => ListHeader(0)) && s.mgr.packetMap == mgr.packetMap
  {
    var s := WriteMessages(b, mgr, writer, packet);
    IdleEmits(b, mgr.channels, writer, s.trace);
    forall i | 0 <= i < |s.trace|
      ensures !Reports(s.trace[i])
    {
      assert WriteStepOk(b, mgr.channels, writer, s.trace, i);
    }
    RecordedLastId(mgr.packetMap, packet, s.trace);
  }

  lemma {:induction false} IdleEmits<M>(b: Behaviour<M>, channels: seq<Channel<M>>, writer: seq<Token>, trace: seq<WriteStep>)
    requires IsWriteTrace(b, channels, writer, trace)
    requires forall ch, sink :: b.write(ch, sink) == WriteResult(None, [])
    ensures EmittedAll(trace) == seq(|trace|, _ => ListHeader(0))
    decreases |trace|
  {
    if |trace| > 0 {
      var front := trace[..|trace| - 1];
      assert IsWriteTrace(b, channels, writer, front) by {
        forall i | 0 <= i < |front|
          ensures WriteStepOk(b, channels, writer, front, i)
        {
          assert WriteStepOk(b, channels, writer, trace, i);
          assert front[..i] == trace[..i];
        }
      }
      IdleEmits(b, channels, writer, front);
      assert WriteStepOk(b, channels, writer, trace, |trace| - 1);
      assert Emitted(Last(trace)) == [ListHeader(0)];
    }
  }

  // ---------------------------------------------------------------------
  // Reading a packet
  // ---------------------------------------------------------------------

  /** One channel's turn in a read: what was still unread when it started,
      and how many tokens it consumed. */
  datatype ReadStep = ReadStep(channel: ChannelIndex, source: seq<Token>, consumed: nat)

  function ConsumedAll(trace: seq<ReadStep>): nat
  {
    if |trace| == 0 then 0 else ConsumedAll(trace[..|trace| - 1]) + Last(trace).consumed
  }

  /** Tokens a channel's read takes, never more than remain. */
  function ReadLength<M>(b: Behaviour<M>, ch: Channel<M>, source: seq<Token>): (n: nat)
    ensures n <= |source|
  {
    var claimed := b.readLength(ch, source);
    if claimed <= |source| then claimed else |source|
  }

  /** Step `i` is the `i`-th channel in iteration order reading from exactly
      where the channels before it stopped. */
  ghost predicate ReadStepOk<M>(b: Behaviour<M>, channels: seq<Channel<M>>, reader: seq<Token>, trace: seq<ReadStep>, i: nat)
    requires i < |trace| <= |channels|
  {
    && trace[i].channel == channels[i].index
    && ConsumedAll(trace[..i]) <= |reader|
    && trace[i].source == reader[ConsumedAll(trace[..i])..]
    && trace[i].consumed == ReadLength(b, channels[i], trace[i].source)
  }

  ghost predicate IsReadTrace<M>(b: Behaviour<M>, channels: seq<Channel<M>>, reader: seq<Token>, trace: seq<ReadStep>)
  {
    && |trace| <= |channels|
    && forall i :: 0 <= i < |trace| ==> ReadStepOk(b, channels, reader, trace, i)
  }

  datatype ReadState<M> = ReadState(mgr: Manager<M>, rest: seq<Token>, trace: seq<ReadStep>)

  /** One iteration of the read loop, for the channel at position `k`. */
  function ReadChannel<M>(b: Behaviour<M>, s: ReadState<M>, k: nat): ReadState<M>
    requires k < |s.mgr.channels|
  {
    var ch := s.mgr.channels[k];
    var n := ReadLength(b, ch, s.rest);
    ReadState(
      s.mgr.(channels := s.mgr.channels[k := Handle(ch, Read(s.rest))]),
      s.rest[n..],
      s.trace + [ReadStep(ch.index, s.rest, n)])
  }

  function ReadPrefix<M>(b: Behaviour<M>, mgr: Manager<M>, reader: seq<Token>, k: nat): (s: ReadState<M>)
    requires k <= |mgr.channels|
    ensures |s.mgr.channels| == |mgr.channels| && |s.trace| == k && s.mgr.packetMap == mgr.packetMap
    decreases k
  {
    if k == 0 then ReadState(mgr, reader, [])
    else ReadChannel(b, ReadPrefix(b, mgr, reader, k - 1), k - 1)
  }

  lemma {:induction false} ReadPrefixFrame<M>(b: Behaviour<M>, mgr: Manager<M>, reader: seq<Token>, k: nat)
    requires k <= |mgr.channels|
    ensures var s := ReadPrefix(b, mgr, reader, k);
            && (forall i :: 0 <= i < k ==> s.mgr.channels[i] == Handle(mgr.channels[i], Read(s.trace[i].source)))
            && (forall i :: k <= i < |mgr.channels| ==> s.mgr.channels[i] == mgr.channels[i])
    decreases k
  {
    if k > 0 {
      ReadPrefixFrame(b, mgr, reader, k - 1);
    }
  }

  /** After one more channel's read, what is left is the packet minus
      everything the channels have consumed so far. */
  lemma ReadRestStep(reader: seq<Token>, trace: seq<ReadStep>, step: ReadStep)
    requires ConsumedAll(trace) <= |reader| && step.source == reader[ConsumedAll(trace)..]
    requires step.consumed <= |step.source|
    ensures ConsumedAll(trace + [step]) == ConsumedAll(trace) + step.consumed <= |reader|
    ensures step.source[step.consumed..] == reader[ConsumedAll(trace + [step])..]
  {
    assert (trace + [step])[..|trace|] == trace;
  }

  lemma ReadTraceExtends<M>(b: Behaviour<M>, channels: seq<Channel<M>>, reader: seq<Token>, trace: seq<ReadStep>, step: ReadStep)
    requires IsReadTrace(b, channels, reader, trace) && |trace| < |channels|
    requires step.channel == channels[|trace|].index
    requires ConsumedAll(trace) <= |reader| && step.source == reader[ConsumedAll(trace)..]
    requires step.consumed == ReadLength(b, channels[|trace|], step.source)
    ensures IsReadTrace(b, channels, reader, trace + [step])
  {
    var t := trace + [step];
    forall i | 0 <= i < |t|
      ensures ReadStepOk(b, channels, reader, t, i)
    {
      if i < |trace| {
        assert ReadStepOk(b, channels, reader, trace, i);
        assert t[..i] == trace[..i];
      } else {
        assert t[..i] == trace;
      }
    }
  }

  /** After the first `k` channels, each read from where the one before it
      stopped, and what is left is the packet minus all they consumed. */
  lemma {:induction false} ReadPrefixTrace<M>(b: Behaviour<M>, mgr: Manager<M>, reader: seq<Token>, k: nat)
    requires k <= |mgr.channels|
    ensures var s := ReadPrefix(b, mgr, reader, k);
            && IsReadTrace(b, mgr.channels, reader, s.trace)
            && ConsumedAll(s.trace) <= |reader| && s.rest == reader[ConsumedAll(s.trace)..]
    decreases k
  {
    if k > 0 {
      var s := ReadPrefix(b, mgr, reader, k - 1);
      var ch := mgr.channels[k - 1];
      ReadPrefixTrace(b, mgr, reader, k - 1);
      ReadPrefixFrame(b, mgr, reader, k - 1);
      assert s.mgr.channels[k - 1] == ch;
      var step := ReadStep(ch.index, s.rest, ReadLength(b, ch, s.rest));
      assert ReadPrefix(b, mgr, reader, k).trace == s.trace + [step];
      ReadRestStep(reader, s.trace, step);
      ReadTraceExtends(b, mgr.channels, reader, s.trace, step);
    }
  }

  /** Lets every channel, in this manager's iteration order, read from the
      packet. Each channel starts exactly where the one before it stopped,
      so the runs it takes are consecutive. */
  function ReadMessages<M>(b: Behaviour<M>, mgr: Manager<M>, reader: seq<Token>): (s: ReadState<M>)
    requires Valid(mgr)
    ensures Valid(s.mgr) && SameIndices(mgr.channels, s.mgr.channels) && s.mgr.packetMap == mgr.packetMap
    ensures |s.trace| == |mgr.channels| && IsReadTrace(b, mgr.channels, reader, s.trace)
    ensures ConsumedAll(s.trace) <= |reader| && s.rest == reader[ConsumedAll(s.trace)..]
    ensures forall i :: 0 <= i < |mgr.channels| ==>
              s.mgr.channels[i] == Handle(mgr.channels[i], Read(s.trace[i].source))
  {
    var k := |mgr.channels|;
    var s := ReadPrefix(b, mgr, reader, k);
    ReadPrefixFrame(b, mgr, reader, k);
    ReadPrefixTrace(b, mgr, reader, k);
    assert SameIndices(mgr.channels, s.mgr.channels);
    ValidSameIndices(mgr, s.mgr.channels);
    s
  }

  // ---------------------------------------------------------------------
  // Handing incoming messages to the application
  // ---------------------------------------------------------------------

  /** One channel's turn in a collection: what it appended to the output. */
  datatype CollectStep<M> = CollectStep(channel: ChannelIndex, collected: seq<(ChannelIndex, M)>)

  function CollectedAll<M>(trace: seq<CollectStep<M>>): seq<(ChannelIndex, M)>
  {
    if |trace| == 0 then [] else CollectedAll(trace[..|trace| - 1]) + Last(trace).collected
  }

  /** Step `i` is what the `i`-th channel in iteration order handed over. */
  ghost predicate CollectStepOk<M>(b: Behaviour<M>, channels: seq<Channel<M>>, trace: seq<CollectStep<M>>, i: nat)
    requires i < |trace| <= |channels|
  {
    trace[i].channel == channels[i].index && trace[i].collected == b.collect(channels[i])
  }

  ghost predicate IsCollectTrace<M>(b: Behaviour<M>, channels: seq<Channel<M>>, trace: seq<CollectStep<M>>)
  {
    && |trace| <= |channels|
    && forall i :: 0 <= i < |trace| ==> CollectStepOk(b, channels, trace, i)
  }

  lemma CollectTraceExtends<M>(b: Behaviour<M>, channels: seq<Channel<M>>, trace: seq<CollectStep<M>>, step: CollectStep<M>)
    requires IsCollectTrace(b, channels, trace) && |trace| < |channels|
    requires step == CollectStep(channels[|trace|].index, b.collect(channels[|trace|]))
    ensures IsCollectTrace(b, channels, trace + [step])
    ensures CollectedAll(trace + [step]) == CollectedAll(trace) + step.collected
  {
    var t := trace + [step];
    assert t[..|trace|] == trace;
    forall i | 0 <= i < |t|
      ensures CollectStepOk(b, channels, t, i)
    {
      if i < |trace| {
        assert CollectStepOk(b, channels, trace, i);
      }
    }
  }

  datatype CollectState<M> = CollectState(mgr: Manager<M>, output: seq<(ChannelIndex, M)>, trace: seq<CollectStep<M>>)

  /** One iteration of the collection loop, for the channel at position `k`. */
  function CollectChannel<M>(b: Behaviour<M>, s: CollectState<M>, k: nat): CollectState<M>
    requires k < |s.mgr.channels|
  {
    var ch := s.mgr.channels[k];
    CollectState(
      s.mgr.(channels := s.mgr.channels[k := Handle(ch, CollectIncoming)]),
      s.output + b.collect(ch),
      s.trace + [CollectStep(ch.index, b.collect(ch))])
  }

  function CollectPrefix<M>(b: Behaviour<M>, mgr: Manager<M>, k: nat): (s: CollectState<M>)
    requires k <= |mgr.channels|
    ensures |s.mgr.channels| == |mgr.channels| && |s.trace| == k && s.mgr.packetMap == mgr.packetMap
    decreases k
  {
    if k == 0 then CollectState(mgr, [], [])
    else CollectChannel(b, CollectPrefix(b, mgr, k - 1), k - 1)
  }

  lemma {:induction false} CollectPrefixFrame<M>(b: Behaviour<M>, mgr: Manager<M>, k: nat)
    requires k <= |mgr.channels|
    ensures var s := CollectPrefix(b, mgr, k);
            && (forall i :: 0 <= i < k ==> s.mgr.channels[i] == Handle(mgr.channels[i], CollectIncoming))
            && (forall i :: k <= i < |mgr.channels| ==> s.mgr.channels[i] == mgr.channels[i])
    decreases k
  {
    if k > 0 {
      CollectPrefixFrame(b, mgr, k - 1);
    }
  }

  /** After the first `k` channels, the output is what each of them handed
      over, one channel after another. */
  lemma {:induction false} CollectPrefixTrace<M>(b: Behaviour<M>, mgr: Manager<M>, k: nat)
    requires k <= |mgr.channels|
    ensures var s := CollectPrefix(b, mgr, k);
            IsCollectTrace(b, mgr.channels, s.trace) && s.output == CollectedAll(s.trace)
    decreases k
  {
    if k > 0 {
      var s := CollectPrefix(b, mgr, k - 1);
      var ch := mgr.channels[k - 1];
      CollectPrefixTrace(b, mgr, k - 1);
      CollectPrefixFrame(b, mgr, k - 1);
      assert s.mgr.channels[k - 1] == ch;
      var step := CollectStep(ch.index, b.collect(ch));
      assert CollectPrefix(b, mgr, k).trace == s.trace + [step];
      CollectTraceExtends(b, mgr.channels, s.trace, step);
    }
  }

  /** Drains every channel, in iteration order: the output is what each
      channel appended, one channel after another, and nothing else. */
  function CollectIncomingMessages<M>(b: Behaviour<M>, mgr: Manager<M>): (s: CollectState<M>)
    requires Valid(mgr)
    ensures Valid(s.mgr) && SameIndices(mgr.channels, s.mgr.channels) && s.mgr.packetMap == mgr.packetMap
    ensures |s.trace| == |mgr.channels| && IsCollectTrace(b, mgr.channels, s.trace)
    ensures s.output == CollectedAll(s.trace)
    ensures forall i :: 0 <= i < |mgr.channels| ==> s.mgr.channels[i] == Handle(mgr.channels[i], CollectIncoming)
  {
    var k := |mgr.channels|;
    var s := CollectPrefix(b, mgr, k);
    CollectPrefixFrame(b, mgr, k);
    CollectPrefixTrace(b, mgr, k);
    assert SameIndices(mgr.channels, s.mgr.channels);
    ValidSameIndices(mgr, s.mgr.channels);
    s
  }

  // ---------------------------------------------------------------------
  // Packet notifications
  // ---------------------------------------------------------------------

  /** Forwards a delivery to the channel recorded for the packet, with the
      recorded id. The entry stays in the map. */
  function NotifyPacketDelivered<M>(mgr: Manager<M>, packet: PacketIndex): (r: Manager<M>)
    requires Valid(mgr)
    ensures Valid(r) && r.packetMap == mgr.packetMap && SameIndices(mgr.channels, r.channels)
    ensures packet !in mgr.packetMap ==> r == mgr
    ensures packet in mgr.packetMap ==>
              var (index, id) := mgr.packetMap[packet];
              forall c :: Lookup(r.channels, c) ==
                match Lookup(mgr.channels, c)
                case None => None
                case Some(ch) => Some(if c == index then Handle(ch, Delivered(id)) else ch)
  {
    if packet in mgr.packetMap then
      var (index, id) := mgr.packetMap[packet];
      var r := mgr.(channels := Dispatch(mgr.channels, index, Delivered(id)));
      DispatchLookup(mgr.channels, index, Delivered(id));
      ValidSameIndices(mgr, r.channels);
      r
    else
      mgr
  }

  /** A dropped packet changes nothing. */
  function NotifyPacketDropped<M>(mgr: Manager<M>, packet: PacketIndex): (r: Manager<M>)
    ensures r == mgr
  {
    mgr
  }

  /** Because the entry is kept, a second delivery notice for the same packet
      forwards the same id to the same channel again. */
  lemma DeliveredTwiceForwardsTwice<M>(mgr: Manager<M>, packet: PacketIndex)
    requires Valid(mgr) && packet in mgr.packetMap
    ensures var (index, id) := mgr.packetMap[packet];
            var twice := NotifyPacketDelivered(NotifyPacketDelivered(mgr, packet), packet);
            && Lookup(mgr.channels, index).Some?
            && Lookup(twice.channels, index).value.log == Lookup(mgr.channels, index).value.log + [Delivered(id), Delivered(id)]
  {
    var (index, id) := mgr.packetMap[packet];
    var once := NotifyPacketDelivered(mgr, packet);
    var log := Lookup(mgr.channels, index).value.log;
    assert Lookup(once.channels, index).value.log == log + [Delivered(id)];
    assert log + [Delivered(id)] + [Delivered(id)] == log + [Delivered(id), Delivered(id)];
  }

  /** A drop neither forgets the packet nor changes what a later delivery
      notice for it forwards. */
  lemma DropKeepsTracking<M>(mgr: Manager<M>, packet: PacketIndex)
    requires Valid(mgr)
    ensures (packet in NotifyPacketDropped(mgr, packet).packetMap) == (packet in mgr.packetMap)
    ensures NotifyPacketDelivered(NotifyPacketDropped(mgr, packet), packet) == NotifyPacketDelivered(mgr, packet)
  {
  }

  /** A packet that carries no ids leaves in place whatever an earlier packet
      recorded under the same index, so its delivery notice is forwarded
      with that earlier packet's (channel, id). */
  lemma StaleEntryAcknowledged<M>(b: Behaviour<M>, mgr: Manager<M>, writer: seq<Token>, packet: PacketIndex)
    requires Valid(mgr) && packet in mgr.packetMap
    requires forall ch, sink :: b.write(ch, sink).ids.None?
    ensures var s := WriteMessages(b, mgr, writer, packet);
            var (index, id) := mgr.packetMap[packet];
            && packet in s.mgr.packetMap && s.mgr.packetMap[packet] == (index, id)
            && Lookup(s.mgr.channels, index).Some?
            && Lookup(NotifyPacketDelivered(s.mgr, packet).channels, index).value.log ==
                 Lookup(s.mgr.channels, index).value.log + [Delivered(id)]
  {
    var s := WriteMessages(b, mgr, writer, packet);
    forall i | 0 <= i < |s.trace|
      ensures !Reports(s.trace[i])
    {
      assert WriteStepOk(b, mgr.channels, writer, s.trace, i);
    }
    RecordedLastId(mgr.packetMap, packet, s.trace);
  }
}
