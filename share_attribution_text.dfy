/** shareattribution/ShareAttribution.py: the attribution cog that reads a plain-text delete log. A log message
    mentioning "message deleted" names the user and the channel on lines of its own; the cog credits the user in
    that channel. */
module ShareAttributionText {
  import opened Text
  import opened Guild

  /** A message as the listener reads it. */
  datatype LogMessage = LogMessage(channelId: int, content: string)

  /** The two kinds of line the parser looks for. */
  datatype Label = UserLabel | ChannelLabel

  /** The lower-case prefix that marks a line of the given kind. */
  function Marker(tag: Label): string
  {
    match tag
    case UserLabel => "user:"
    case ChannelLabel => "channel:"
  }

  /** Whether `line` starts, case-insensitively, with the marker of `tag`. */
  predicate IsLabelled(line: string, tag: Label)
  {
    Marker(tag) <= Lower(line)
  }

  /** Whether the content reads, case-insensitively, as a deletion log entry. */
  predicate IsDeleteLog(content: string)
  {
    Contains(Lower(content), "message deleted")
  }

  /** The user on a "User:" line: what follows the first ':', stripped. */
  function UserValue(line: string): (r: string)
    ensures r == [] || (!IsSpace(r[0]) && !IsSpace(r[|r| - 1]))
  {
    Strip(After(line, ':'))
  }

  /** The channel text on a "Channel:" line before spaces are replaced: what follows the first ':', stripped,
      without its leading '#'s, stripped again. */
  function ChannelText(line: string): (r: string)
    ensures r == [] || (!IsSpace(r[0]) && !IsSpace(r[|r| - 1]))
    ensures |r| <= |line|
  {
    Strip(LStripChar(Strip(After(line, ':')), '#'))
  }

  /** The channel name on a "Channel:" line: the channel text with every space turned into '-', so that it never
      holds a space. */
  function ChannelValue(line: string): (r: string)
    ensures ' ' !in r
  {
    ReplaceChar(ChannelText(line), ' ', '-')
  }

  /** The channel name never starts or ends with whitespace and is no longer than its line. */
  lemma ChannelValueTrimmed(line: string)
    ensures var r := ChannelValue(line);
            |r| <= |line| && (r == [] || (!IsSpace(r[0]) && !IsSpace(r[|r| - 1])))
  {
    DashesKeepEnds(ChannelText(line));
  }

  /** Turning spaces into '-' keeps the length, and keeps ends that are not whitespace. */
  lemma DashesKeepEnds(t: string)
    requires t == [] || (!IsSpace(t[0]) && !IsSpace(t[|t| - 1]))
    ensures var r := ReplaceChar(t, ' ', '-');
            |r| == |t| && (r == [] || (!IsSpace(r[0]) && !IsSpace(r[|r| - 1])))
  {
  }

  /** The value a labelled line carries. */
  function ValueOf(line: string, tag: Label): string
  {
    match tag
    case UserLabel => UserValue(line)
    case ChannelLabel => ChannelValue(line)
  }

  /** The value of the last line of the given kind, if any: a later line overrides an earlier one. */
  function LastValue(lines: seq<string>, tag: Label): Option<string>
  {
    if lines == [] then None
    else if IsLabelled(lines[|lines| - 1], tag) then Some(ValueOf(lines[|lines| - 1], tag))
    else LastValue(lines[..|lines| - 1], tag)
  }

  /** One more line replaces the last value exactly when it carries the label. */
  lemma LastValueStep(lines: seq<string>, i: nat, tag: Label)
    requires i < |lines|
    ensures LastValue(lines[..i + 1], tag) ==
      if IsLabelled(lines[i], tag) then Some(ValueOf(lines[i], tag)) else LastValue(lines[..i], tag)
  {
    assert lines[..i + 1][..i] == lines[..i];
  }

  /** The loop over `content.splitlines()`: each labelled line overwrites the value found so far. */
  method ScanLines(lines: seq<string>) returns (user: Option<string>, channelName: Option<string>)
    ensures user == LastValue(lines, UserLabel)
    ensures channelName == LastValue(lines, ChannelLabel)
  {
    user, channelName := None, None;
    var i := 0;
    while i < |lines|
      invariant 0 <= i <= |lines|
      invariant user == LastValue(lines[..i], UserLabel)
      invariant channelName == LastValue(lines[..i], ChannelLabel)
    {
      var line := lines[i];
      LastValueStep(lines, i, UserLabel);
      LastValueStep(lines, i, ChannelLabel);
      if "user:" <= Lower(line) {
        user := Some(Strip(After(line, ':')));
        assert user == Some(ValueOf(line, UserLabel));
      }
      if "channel:" <= Lower(line) {
        var raw := Strip(After(line, ':'));
        raw := Strip(LStripChar(raw, '#'));
        channelName := Some(ReplaceChar(raw, ' ', '-'));
        assert channelName == Some(ValueOf(line, ChannelLabel));
      }
      i := i + 1;
    }
    assert lines[..i] == lines;
  }

  /** `on_message`: credit the last named user in the channel named last, when the message is a delete log in the
      watched channel, both names are present and non-empty, and the guild has a channel of that name. */
  method OnMessage(logChannel: Option<int>, m: LogMessage, channels: seq<Channel>) returns (r: Option<Attribution>)
    ensures var lines := SplitLines(m.content);
            var user := LastValue(lines, UserLabel);
            var name := LastValue(lines, ChannelLabel);
            r.Some? <==>
              Watched(logChannel, m.channelId) && IsDeleteLog(m.content) &&
              user.Some? && user.value != [] && name.Some? && name.value != [] &&
              FindChannel(channels, name.value).Some?
    ensures var lines := SplitLines(m.content);
            r.Some? ==>
              r.value.text == "From " + LastValue(lines, UserLabel).value &&
              Some(Channel(r.value.channelId, LastValue(lines, ChannelLabel).value)) ==
                FindChannel(channels, LastValue(lines, ChannelLabel).value)
  {
    if logChannel.None? || logChannel.value == 0 {
      return None;
    }
    if m.channelId != logChannel.value {
      return None;
    }
    var lower := Lower(m.content);
    if !Contains(lower, "message deleted") {
      return None;
    }
    var user, channelName := ScanLines(SplitLines(m.content));
    if user.None? || user.value == [] || channelName.None? || channelName.value == [] {
      return None;
    }
    var target := FindChannel(channels, channelName.value);
    if target.None? {
      return None;
    }
    return Some(Attribution(target.value.id, "From " + user.value));
  }

  /** No value is found exactly when no line carries the label. */
  lemma {:induction false} LastValueNone(lines: seq<string>, tag: Label)
    ensures LastValue(lines, tag).None? <==> forall i :: 0 <= i < |lines| ==> !IsLabelled(lines[i], tag)
  {
    if lines != [] {
      var n := |lines| - 1;
      LastValueNone(lines[..n], tag);
      assert forall i :: 0 <= i < n ==> lines[..n][i] == lines[i];
    }
  }

  /** The last-match rule: the value found is the one on the last labelled line, whatever came before it. */
  lemma {:induction false} LastValueAt(lines: seq<string>, tag: Label, i: nat)
    requires i < |lines| && IsLabelled(lines[i], tag)
    requires forall j :: i < j < |lines| ==> !IsLabelled(lines[j], tag)
    ensures LastValue(lines, tag) == Some(ValueOf(lines[i], tag))
    decreases |lines|
  {
    var n := |lines| - 1;
    if i < n {
      var init := lines[..n];
      assert !IsLabelled(lines[n], tag);
      assert LastValue(lines, tag) == LastValue(init, tag);
      assert init[i] == lines[i];
      assert forall j :: i < j < n ==> !IsLabelled(init[j], tag) by {
        forall j | i < j < n ensures !IsLabelled(init[j], tag) {
          assert init[j] == lines[j];
        }
      }
      LastValueAt(init, tag, i);
    } else {
      assert lines != [] && lines[|lines| - 1] == lines[i];
    }
  }

  /** A line such as "Channel: #classic alt" names the channel `classic-alt`: the tag is matched whatever its
      case, the '#' and the surrounding blanks go, and the inner spaces become '-'. */
  lemma ChannelLine(name: string)
    requires name != [] && !IsSpace(name[0]) && !IsSpace(name[|name| - 1]) && name[0] != '#'
    ensures IsLabelled("Channel: #" + name, ChannelLabel)
    ensures ChannelValue("Channel: #" + name) == ReplaceChar(name, ' ', '-')
  {
    var line := "Channel: #" + name;
    assert Lower(line)[..8] == "channel:";
    var hashed := "#" + name;
    assert line == "Channel" + [':'] + (" " + hashed);
    IndexOfAfter("Channel", ':', " " + hashed);
    assert After(line, ':') == " " + hashed;
    assert hashed[|hashed| - 1] == name[|name| - 1];
    StripBlankFront(hashed);
    LStripCharOne(name, '#');
    StripTrimmed(name);
  }
}
