/** The pieces of Discord state both delete-log attribution cogs read: the configured log channel and the
    guild's text channels, looked up by name. */
module Guild {
  import opened Text

  /** A guild text channel. */
  datatype Channel = Channel(id: int, name: string)

  /** The attribution both cogs send: `text` into the channel with id `channelId`. */
  datatype Attribution = Attribution(channelId: int, text: string)

  /** Whether a message in channel `channelId` is read at all: a log channel must be configured, be non-zero
      (a zero id counts as unset), and be the message's channel. */
  predicate Watched(logChannel: Option<int>, channelId: int)
  {
    logChannel.Some? && logChannel.value != 0 && channelId == logChannel.value
  }

  /** `discord.utils.get(channels, name=name)`: the first channel with that name, if any. */
  function FindChannel(channels: seq<Channel>, name: string): (r: Option<Channel>)
    ensures r.None? <==> forall c :: c in channels ==> c.name != name
    ensures r.Some? ==> r.value in channels && r.value.name == name
    ensures r.Some? ==> exists i :: 0 <= i < |channels| && channels[i] == r.value &&
                                  forall j :: 0 <= j < i ==> channels[j].name != name
  {
    if channels == [] then None
    else if channels[0].name == name then Some(channels[0])
    else
      var r := FindChannel(channels[1..], name);
      assert forall c :: c in channels[1..] ==> c in channels;
      if r.Some? then
        var i :| 0 <= i < |channels[1..]| && channels[1..][i] == r.value &&
                 forall j :: 0 <= j < i ==> channels[1..][j].name != name;
        assert channels[i + 1] == r.value;
        r
      else r
  }
}
