/** ShareAttribution/shareattribution.py: the attribution cog that reads a delete-log embed. The first embed of a
    log message must be titled "Message Deleted"; its "User:" and "Channel:" fields name who posted and where, and
    the cog credits the user in that channel. */
module ShareAttributionEmbed {
  import opened Text
  import opened Guild

  /** One embed field. */
  datatype Field = Field(name: string, value: string)

  /** An embed: its title (which may be unset) and its fields in order. */
  datatype Embed = Embed(title: Option<string>, fields: seq<Field>)

  /** A message as the listener reads it. */
  datatype EmbedMessage = EmbedMessage(channelId: int, embeds: seq<Embed>)

  /** The title a log embed must carry, compared exactly. */
  const DeletedTitle: string := "Message Deleted"

  /** The index of the first field whose lower-cased name is `key`, or `|fields|`. */
  function FieldIndex(fields: seq<Field>, key: string): (k: nat)
    ensures k <= |fields|
    ensures forall i :: 0 <= i < k ==> Lower(fields[i].name) != key
    ensures k < |fields| ==> Lower(fields[k].name) == key
  {
    if fields == [] then 0
    else if Lower(fields[0].name) == key then 0
    else 1 + FieldIndex(fields[1..], key)
  }

  /** `next((f for f in fields if f.name.lower() == key), None)`. */
  function FirstField(fields: seq<Field>, key: string): (r: Option<Field>)
    ensures r.None? <==> forall f :: f in fields ==> Lower(f.name) != key
    ensures r.Some? ==> r.value in fields && Lower(r.value.name) == key
  {
    var k := FieldIndex(fields, key);
    if k < |fields| then Some(fields[k]) else None
  }

  /** The channel name in a "Channel:" value: the text before the first '[', stripped, without its leading '#'s,
      stripped again. It never holds a '['. */
  function ChannelName(value: string): (r: string)
    ensures '[' !in r
  {
    var before := Before(value, '[');
    var stripped := Strip(before);
    StripInside(before);
    var unhashed := LStripChar(stripped, '#');
    assert forall c :: c in unhashed ==> c in stripped;
    StripInside(unhashed);
    Strip(unhashed)
  }

  /** `on_message`: the attribution to send, if any. */
  function OnMessage(logChannel: Option<int>, m: EmbedMessage, channels: seq<Channel>): (r: Option<Attribution>)
    ensures r.Some? ==> Watched(logChannel, m.channelId) && m.embeds != [] && m.embeds[0].title == Some(DeletedTitle)
    ensures r.Some? ==>
      var user := FirstField(m.embeds[0].fields, "user:");
      var name := FirstField(m.embeds[0].fields, "channel:");
      user.Some? && name.Some? &&
      r.value.text == "From " + Strip(user.value.value) &&
      FindChannel(channels, ChannelName(name.value.value)) == Some(Channel(r.value.channelId, ChannelName(name.value.value)))
    ensures Watched(logChannel, m.channelId) && m.embeds != [] && m.embeds[0].title == Some(DeletedTitle) ==>
      var user := FirstField(m.embeds[0].fields, "user:");
      var name := FirstField(m.embeds[0].fields, "channel:");
      user.Some? && name.Some? && FindChannel(channels, ChannelName(name.value.value)).Some? ==> r.Some?
  {
    if !Watched(logChannel, m.channelId) then None
    else if m.embeds == [] then None
    else
      var embed := m.embeds[0];
      if embed.title != Some(DeletedTitle) then None
      else
        var userField := FirstField(embed.fields, "user:");
        var channelField := FirstField(embed.fields, "channel:");
        if userField.None? || channelField.None? then None
        else
          var name := ChannelName(channelField.value.value);
          var target := FindChannel(channels, name);
          if target.None? then None
          else Some(Attribution(target.value.id, "From " + Strip(userField.value.value)))
  }

  /** The first matching field wins: fields appended after it, matching or not, change nothing. */
  lemma FirstFieldWins(fields: seq<Field>, more: seq<Field>, key: string)
    requires FirstField(fields, key).Some?
    ensures FirstField(fields + more, key) == FirstField(fields, key)
  {
    var k := FieldIndex(fields, key);
    var all := fields + more;
    assert forall i :: 0 <= i < k ==> all[i] == fields[i];
    assert all[k] == fields[k];
    FieldIndexAt(all, key, k);
  }

  /** A field index is determined by a match with no match before it. */
  lemma {:induction false} FieldIndexAt(fields: seq<Field>, key: string, k: nat)
    requires k < |fields| && Lower(fields[k].name) == key
    requires forall i :: 0 <= i < k ==> Lower(fields[i].name) != key
    ensures FieldIndex(fields, key) == k
  {
    if k > 0 {
      assert forall i :: 0 <= i < k - 1 ==> fields[1..][i] == fields[i + 1];
      FieldIndexAt(fields[1..], key, k - 1);
    }
  }

  /** Only the first embed is read: embeds after it change nothing. */
  lemma OnlyFirstEmbed(logChannel: Option<int>, channelId: int, e: Embed, rest: seq<Embed>, channels: seq<Channel>)
    ensures OnMessage(logChannel, EmbedMessage(channelId, [e] + rest), channels) ==
            OnMessage(logChannel, EmbedMessage(channelId, [e]), channels)
  {
  }

  /** Without a field named "User:" (in any case), nothing is sent; likewise without one named "Channel:". */
  lemma MissingFieldAborts(logChannel: Option<int>, m: EmbedMessage, channels: seq<Channel>, key: string)
    requires m.embeds != [] && (key == "user:" || key == "channel:")
    requires forall f :: f in m.embeds[0].fields ==> Lower(f.name) != key
    ensures OnMessage(logChannel, m, channels).None?
  {
  }

  /** The log's channel value `# name [#name]` gives back `name`. */
  lemma ChannelNameOfLogValue(name: string)
    requires name != [] && !IsSpace(name[0]) && !IsSpace(name[|name| - 1]) && name[0] != '#' && '[' !in name
    ensures ChannelName("# " + name + " [#" + name + "]") == name
  {
    var value := "# " + name + " [#" + name + "]";
    var spaced := " " + name;
    var hashed := ['#'] + spaced;
    var front := hashed + " ";
    assert value == front + ['['] + ("#" + name + "]");
    IndexOfAfter(front, '[', "#" + name + "]");
    assert value[..|front|] == front;
    assert hashed[|hashed| - 1] == name[|name| - 1];
    calc {
      ChannelName(value);
      { ChannelNameBefore(value); }
      Strip(LStripChar(Strip(Before(value, '[')), '#'));
      Strip(LStripChar(Strip(front), '#'));
      { StripBlankBack(hashed); }
      Strip(LStripChar(hashed, '#'));
      { LStripCharOne(spaced, '#'); }
      Strip(spaced);
      { StripBlankFront(name); }
      name;
    }
  }

  /** The channel name depends only on the text before the first '['. */
  lemma ChannelNameBefore(value: string)
    ensures ChannelName(value) == Strip(LStripChar(Strip(Before(value, '[')), '#'))
  {
  }
}
