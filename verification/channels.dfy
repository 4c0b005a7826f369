/** Channel configuration and the abstract channel the message manager drives.

    The three channel implementations are not part of this model. A channel is
    represented by its identity, its mode and the log of every call the manager
    has made on it since construction. What a channel answers is supplied from
    outside as a `Behaviour`: the answers observed in one run, as functions of
    the channel's state and the packet. The reliable channels also read the
    clock, which is not part of the channel's value here. */
module Channels {
  import opened Wire

  /** Channel identities. The source is generic over any hashable index type;
      the model only compares indices for equality. */
  type ChannelIndex = nat

  /** Tuning for the reliable modes, passed through to the channel unread. */
  datatype ReliableSettings = ReliableSettings(rttResendFactor: real)

  /** `OtherMode` stands for every mode for which the manager builds no channel. */
  datatype ChannelMode =
    | UnorderedUnreliable
    | UnorderedReliable(settings: ReliableSettings)
    | OrderedReliable(settings: ReliableSettings)
    | OtherMode(name: string)

  datatype ChannelSettings = ChannelSettings(index: ChannelIndex, mode: ChannelMode)

  /** The configuration, in the order its entries are enumerated. It is keyed
      by channel index, so no index appears twice. */
  datatype ChannelConfig = ChannelConfig(channels: seq<ChannelSettings>)
  {
    ghost predicate Valid()
    {
      forall i, j :: 0 <= i < j < |channels| ==> channels[i].index != channels[j].index
    }
  }

  /** The modes the manager has a channel implementation for. */
  predicate Builds(mode: ChannelMode)
  {
    mode.UnorderedUnreliable? || mode.UnorderedReliable? || mode.OrderedReliable?
  }

  /** The calls the manager makes on a channel. Each records its inputs:
      `Write` the packet contents before the channel wrote, `Read` the tokens
      still unread when the channel started reading. */
  datatype Call<M> =
    | Send(message: M)
    | CollectOutgoing(rttMillis: real)
    | Write(sink: seq<Token>)
    | Read(source: seq<Token>)
    | CollectIncoming
    | Delivered(id: MessageId)

  datatype Channel<M> = Channel(index: ChannelIndex, mode: ChannelMode, log: seq<Call<M>>)

  /** A freshly constructed channel has received no calls. */
  function NewChannel<M>(index: ChannelIndex, mode: ChannelMode): (ch: Channel<M>)
    ensures ch.index == index && ch.mode == mode && |ch.log| == 0
  {
    Channel(index, mode, [])
  }

  /** The channel after it has handled one more call. */
  function Handle<M>(ch: Channel<M>, call: Call<M>): (ch': Channel<M>)
    ensures ch'.index == ch.index && ch'.mode == ch.mode
    ensures |ch'.log| == |ch.log| + 1 && ch'.log[..|ch.log|] == ch.log && Last(ch'.log) == call
  {
    ch.(log := ch.log + [call])
  }

  /** What a channel's write answers: the ids of the messages it put in the
      packet (`None` when it had nothing to write) and the tokens it wrote. */
  datatype WriteResult = WriteResult(ids: Option<seq<MessageId>>, tokens: seq<Token>)

  /** The answers of the unseen channel implementations, as functions of the
      channel's state and of the packet it works on. `readLength` is how many
      tokens a channel's read consumes; `collect` is what it appends to the
      application's incoming list. */
  datatype Behaviour<!M> = Behaviour(
    hasOutgoing: Channel<M> -> bool,
    write: (Channel<M>, seq<Token>) -> WriteResult,
    readLength: (Channel<M>, seq<Token>) -> nat,
    collect: Channel<M> -> seq<(ChannelIndex, M)>)
}
