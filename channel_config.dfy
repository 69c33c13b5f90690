/**
 * Per-channel reply settings of channelConfig.js: a constant table keyed by
 * channel id, and the lookup that falls back to a fixed default.
 */
module Channels {
  import opened Wrappers

  /**
   * One channel's settings. A field the table entry does not set is `None`;
   * the probabilities are only stored, never computed with.
   */
  datatype ChannelConfig = ChannelConfig(
    allowReplies: bool,
    replyProbability: Option<real>,
    customPrompt: Option<string>)

  /** `channelConfig`. */
  const ChannelTable: map<string, ChannelConfig> := map[
    "@channel1" := ChannelConfig(true, Some(0.5),
      Some("You are a sarcastic news commentator for this channel.")),
    "@channel2" := ChannelConfig(false, None, None)
  ]

  /** The settings of a channel that is not in the table. */
  const DefaultConfig: ChannelConfig := ChannelConfig(true, Some(1.0), None)

  /**
   * `getChannelConfig(channelId)`: the stored entry, unchanged, for a channel in
   * the table, and the default for any other id. Every stored entry is an
   * object, so the `||` fallback is taken only for a missing key.
   */
  function GetChannelConfig(channelId: string): (c: ChannelConfig)
    ensures channelId in ChannelTable ==> c == ChannelTable[channelId]
    ensures channelId !in ChannelTable ==> c == DefaultConfig
  {
    if channelId in ChannelTable then ChannelTable[channelId] else DefaultConfig
  }

  /** The result is always a stored entry or the default, and never a mixture of the two. */
  lemma ConfigIsStoredOrDefault(channelId: string)
    ensures GetChannelConfig(channelId) in ChannelTable.Values + {DefaultConfig}
  {
    if channelId in ChannelTable {
      assert ChannelTable[channelId] in ChannelTable.Values;
    }
  }

  /**
   * "@channel2" does not allow replies and has no reply probability: the default
   * is not merged into a stored entry.
   */
  lemma Channel2NotMerged()
    ensures !GetChannelConfig("@channel2").allowReplies
    ensures GetChannelConfig("@channel2").replyProbability == None
    ensures GetChannelConfig("@channel2") != DefaultConfig
  {
  }

  /** A reply probability, where one is set, lies between 0 and 1. */
  lemma ReplyProbabilityInRange(channelId: string)
    ensures var p := GetChannelConfig(channelId).replyProbability;
      p.Some? ==> 0.0 <= p.value <= 1.0
  {
  }
}
