# Quentin cogs: link triage, share attribution, docket updates and Server Wrapped

This project models, in Dafny, the logic of six cogs of the Quentin Discord bot. It proves properties of that
logic. Discord, the bot framework and the network are not modelled: what the cogs read from them (message
contents, configuration values, the result of deleting a message, fetched dockets) becomes a parameter.

- `text.dfy` (module `Text`): the Python `str` operations the cogs rely on, written out over `seq<char>`.
  They are `strip`, `lstrip`, `lower`, `split`, `join`, `replace`, `splitlines`, `split()`, `rsplit(" ", 1)[0]`
  and slicing with a possibly negative end.
- `url_query.dfy` (module `UrlQuery`): `clean_url`, which both share-triage cogs share. Each cog passes its own
  set of tracking parameter names. The module also has the `URL_RE.findall` scan that feeds it.
- `share_triage.dfy` (module `ShareTriage`): the share-triage listener in `ShareTriage/ShareTriage.py`. When
  triage is enabled and some found URL changes under cleaning, the message is deleted and reposted with the
  cleaned URLs.
- `share_traige.dfy` (module `ShareTraige`): the other copy of that cog, in `ShareTraige/ShareTriage.py`.
  It cleans only URLs that carry a share marker (`?si=`, `&si=`, `?share`), strips a smaller set of
  parameters, and credits the author in its repost.
- `guild.dfy` (module `Guild`): the watched-channel test both attribution cogs apply, and
  `discord.utils.get(channels, name=…)`.
- `share_attribution_text.dfy` (module `ShareAttributionText`): the attribution cog in
  `shareattribution/ShareAttribution.py`. It reads a plain-text delete log line by line and credits the user
  in the named channel.
- `share_attribution_embed.dfy` (module `ShareAttributionEmbed`): the attribution cog in
  `ShareAttribution/shareattribution.py`. It reads the first embed of a delete log.
- `docket.dfy` (module `Docket`): the response loop of `get_info`.
  - It checks each fetched docket against the `case id -> date of last filing` dictionary.
  - An unseen case is recorded. A known case is reported when its filing date is strictly later.
  - Dates are read the way `datetime.strptime(s, "%Y-%m-%d")` reads them.
- `counter.dfy` (module `Counters`): `collections.Counter` as an insertion-ordered sequence of entries,
  covering `c[k] += 1`, `most_common()` and `most_common(n)`.
- `server_wrapped.dfy` (module `ServerWrapped`): `_analyze_messages`, `_extract_topics`, `_choose_highlight`,
  `_is_message_valid_for_highlight` and `_shorten`. These count a member's channels, sidekicks, emojis and
  words, find frequent word pairs and triples, and pick a highlight message by score.

The source's loops are methods with loop invariants, each proved against a specification function. What each
loop promises is proved about that function in lemmas.

Behaviour of the code as written, kept in the model:

- **ShareTraige.** Any URL with a marker counts as cleaned, even when cleaning leaves it unchanged (a
  `?shared=…` parameter). A URL with a tracking parameter but no marker is never cleaned (a lone
  `?feature=…`).
- **Highlight filter.** Content that is only whitespace passes `_is_message_valid_for_highlight` without an
  attachment. The length test skips empty stripped content, and the message content is not empty.
- **Docket.** A case id seen twice in one batch is compared, the second time, with the date its first
  occurrence recorded.

## Model

| member | source | states |
|---|---|---|
| Text.Strip | shareattribution/ShareAttribution.py:43 | `str.strip()`: no whitespace (`str.isspace`) is left at either end, and the result is no longer than the input; `Text.StripMiddle` shows that it is the input's middle |
| Text.StripMiddle | shareattribution/ShareAttribution.py:43 | what `strip()` leaves is a contiguous middle of the input, and everything dropped before and after it is whitespace |
| Text.StripInside | shareattribution/ShareAttribution.py:43 | stripping only removes characters: every character left was in the input |
| Text.StripTrimmed | ShareAttribution/shareattribution.py:61 | a string without whitespace at either end strips to itself |
| Text.LStrip | wrapped/serverwrapped.py:449 | `lstrip()` keeps a suffix of the input that does not start with whitespace, and every character it drops is whitespace |
| Text.RStrip | wrapped/serverwrapped.py:449 | `rstrip()` keeps a prefix of the input that does not end with whitespace, and every character it drops is whitespace |
| Text.LStripChar | shareattribution/ShareAttribution.py:48 | `lstrip("#")` keeps a suffix that does not start with '#', and every character it drops is '#' |
| Text.LStripCharOne | shareattribution/ShareAttribution.py:48 | a single leading '#' before a name that does not start with '#' is dropped |
| Text.Lower | ShareTriage/ShareTriage.py:92 | `lower()` maps each character to its lower-case form, keeping the length |
| Text.LowerAsciiLower | ShareTriage/ShareTriage.py:92-93 | a name with no upper-case letter is its own lower-case form, so the literal keys compare as written |
| Text.IndexOf | ShareTriage/ShareTriage.py:88 | the first occurrence of a character, and no occurrence before it |
| Text.Before | ShareAttribution/shareattribution.py:61 | `split("[")[0]` is a prefix of the input that holds no '[' and stops at the first '[' (or is the whole input) |
| Text.After | shareattribution/ShareAttribution.py:43 | `split(":", 1)[1]` is the text after the first ':', so the input is the text before it, the ':' and the result; with no ':' it is empty |
| Text.Split | ShareTriage/ShareTriage.py:91 | `split("&")` always gives at least one piece |
| Text.SplitNoSeparator | ShareTriage/ShareTriage.py:91 | no piece of a split holds the separator |
| Text.JoinSplit | ShareTriage/ShareTriage.py:91-100 | joining the pieces of a split gives the string back |
| Text.SplitJoin | ShareTriage/ShareTriage.py:91-100 | splitting a join gives the pieces back when none holds the separator |
| Text.SplitTwo | ShareTriage/ShareTriage.py:91 | two pieces joined by the separator split back into those two |
| Text.ReplaceSame | ShareTriage/ShareTriage.py:63 | `s.replace(t, t)` leaves `s` unchanged, which is why skipping unchanged URLs is harmless |
| Text.ReplaceChar | shareattribution/ShareAttribution.py:50 | `replace(" ", "-")` changes exactly the spaces and keeps the length |
| Text.SplitLines | shareattribution/ShareAttribution.py:39 | `splitlines()` gives lines that hold no line break; `Text.SplitLinesBreaks` and `Text.SplitLinesUnique` say where they break |
| Text.SplitLinesText | shareattribution/ShareAttribution.py:39 | the lines, written one after another, are exactly the input with its line breaks taken out |
| Text.SplitLinesBreaks | shareattribution/ShareAttribution.py:39 | the input is each line followed by one whole line break ("\r\n" counts as one, a lone "\r" never stands before "\n"), except that a last line that is not empty may go without one |
| Text.SplitLinesUnique | shareattribution/ShareAttribution.py:39 | any cut of the input into lines ending in whole line breaks, as above, is the cut `splitlines()` makes |
| Text.SplitWordsShape | wrapped/serverwrapped.py:278 | every word of `split()` is non-empty and holds no whitespace, and the words, written one after another, are exactly the input with its whitespace taken out; `Text.SplitWordsRuns` says where they break |
| Text.SplitWordsRuns | wrapped/serverwrapped.py:278 | the input is a whitespace gap, a word, a gap, …, a word and a final gap, every gap whitespace and the gaps between words non-empty: the words of `split()` are the maximal non-whitespace runs, in order |
| Text.SplitWordsUnique | wrapped/serverwrapped.py:278 | any such cut of the input into whitespace gaps and non-empty words with non-empty gaps between them has the words of `split()` and the gaps of `Text.WordGaps` |
| Text.RSplitHead | wrapped/serverwrapped.py:452 | `rsplit(" ", 1)[0]` is a prefix ending just before the last space, or the whole text when there is none |
| Text.SlicePrefix | wrapped/serverwrapped.py:452 | `t[:n]` is a prefix of `t` holding `min(n, len(t))` characters for `n >= 0` |
| UrlQuery.CleanUrl | ShareTriage/ShareTriage.py:80-100 | the parameter loop returns the cleaned URL as specified by `Cleaned`: no '?' keeps the URL, no kept parameter leaves the base alone, otherwise the base, '?' and the kept parameters joined by '&' (the copy at ShareTraige/ShareTriage.py lines 87-107 is the same code, called with its six names) |
| UrlQuery.BaseQuery | ShareTriage/ShareTriage.py:88 | a URL with a '?' is its base, the first '?', and its query |
| UrlQuery.KeptSnoc | ShareTriage/ShareTriage.py:91-94 | filtering one more parameter appends it exactly when its key is not a tracking one |
| UrlQuery.KeptMember | ShareTriage/ShareTriage.py:91-94 | a parameter is kept if and only if it was in the query and its lower-cased key is not a tracking one |
| UrlQuery.KeptConcat | ShareTriage/ShareTriage.py:91-94 | filtering keeps the kept parameters' text and relative order |
| UrlQuery.KeptTwice | ShareTriage/ShareTriage.py:91-94 | filtering twice equals filtering once |
| UrlQuery.KeptJoinNoLonger | ShareTriage/ShareTriage.py:91-100 | the joined kept parameters are never longer than the joined query |
| UrlQuery.NoQueryUnchanged | ShareTriage/ShareTriage.py:85-86 | a URL without '?' comes back unchanged |
| UrlQuery.CleanedShape | ShareTriage/ShareTriage.py:88-100 | the base begins the result, and the kept parameters are exactly the query's parameters whose key is not a tracking one |
| UrlQuery.AllTrackingLeavesBase | ShareTriage/ShareTriage.py:96-98 | when every parameter is a tracking one, only the base is left, without '?' |
| UrlQuery.CleanedNoLonger | ShareTriage/ShareTriage.py:80-100 | cleaning never makes a URL longer |
| UrlQuery.CleanedIdempotent | ShareTriage/ShareTriage.py:80-100 | cleaning a cleaned URL changes nothing |
| UrlQuery.KeyOf | ShareTriage/ShareTriage.py:92 | the key of `name=value` is the lower-cased name |
| UrlQuery.OnlyParamDropped | ShareTriage/ShareTriage.py:96-98 | a lone tracking parameter is dropped together with the '?' |
| UrlQuery.OnlyParamKept | ShareTriage/ShareTriage.py:99-100 | a lone kept parameter comes back as it was |
| UrlQuery.FirstParamDropped | ShareTriage/ShareTriage.py:91-100 | a tracking parameter in front goes and the kept one after it stays |
| UrlQuery.KeptDropKeep | ShareTriage/ShareTriage.py:91-94 | of a tracking and a kept parameter, only the kept one remains |
| UrlQuery.SchemeLength | ShareTriage/ShareTriage.py:5 | the case-insensitive `https?://` prefix is 0, 7 or 8 characters and stays within the text |
| UrlQuery.RunEnd | ShareTriage/ShareTriage.py:5 | `[^\s]+` runs to the first whitespace character or the end |
| UrlQuery.UrlsFrom | ShareTriage/ShareTriage.py:52 | `findall` yields matches of at least eight characters |
| ShareTriage.CleanContent | ShareTriage/ShareTriage.py:56-63 | the loop reports a change if and only if some URL changes under cleaning, and its content is the rewrite of every such URL in order |
| ShareTriage.OnMessage | ShareTriage/ShareTriage.py:43-75 | a repost happens if and only if the author is not a bot, the message is in a guild, triage is on, some URL changes and the deletion succeeded; its text is the rewritten content |
| ShareTriage.UnchangedUrlsKeepContent | ShareTriage/ShareTriage.py:59-66 | when no URL changes, the content is left as it was |
| ShareTriage.RewrittenReplacesAll | ShareTriage/ShareTriage.py:59-63 | skipping unchanged URLs equals replacing every found URL by its cleaned form |
| ShareTriage.ShareTokenDropped | ShareTriage/ShareTriage.py:7-10 | `base?si=…&rest` becomes `base?rest` when `rest` is kept |
| ShareTriage.UtmDropped | ShareTriage/ShareTriage.py:7-10 | `base?utm_source=…` becomes `base` |
| ShareTraige.CleanContent | ShareTraige/ShareTriage.py:60-68 | the loop reports a change if and only if some URL carries a share marker, and its content is the rewrite of every marked URL |
| ShareTraige.OnMessage | ShareTraige/ShareTriage.py:46-82 | a repost happens if and only if the author is not a bot, the message is in a guild, triage is on, some URL is marked and the deletion succeeded; its text is the credit line followed by the rewritten content |
| ShareTraige.CreditedShape | ShareTraige/ShareTriage.py:80 | the repost starts with `**From <mention>`, is 11 characters longer than mention and content together, and ends with the content |
| ShareTraige.UnmarkedKeepContent | ShareTraige/ShareTriage.py:64-71 | when no URL is marked, the content is left as it was |
| ShareTraige.MarkedButUnchanged | ShareTraige/ShareTriage.py:65-68 | `?shared=…` is marked although cleaning leaves it unchanged |
| ShareTraige.UnmarkedTrackingKept | ShareTraige/ShareTriage.py:65-68 | `?feature=…` carries no marker although cleaning would drop it |
| Guild.FindChannel | shareattribution/ShareAttribution.py:56-59 | the lookup finds nothing if and only if no channel has the name; otherwise it finds the first channel with that name |
| ShareAttributionText.UserValue | shareattribution/ShareAttribution.py:42-43 | the user value has no whitespace at either end |
| ShareAttributionText.ChannelText | shareattribution/ShareAttribution.py:44-48 | the channel text has no whitespace at either end and is no longer than its line |
| ShareAttributionText.ChannelValue | shareattribution/ShareAttribution.py:50 | the channel name holds no space |
| ShareAttributionText.ChannelValueTrimmed | shareattribution/ShareAttribution.py:46-50 | the channel name has no whitespace at either end and is no longer than its line |
| ShareAttributionText.ScanLines | shareattribution/ShareAttribution.py:39-50 | the loop leaves the values of the last "user:" line and the last "channel:" line |
| ShareAttributionText.OnMessage | shareattribution/ShareAttribution.py:19-65 | a credit is sent if and only if the message is in the watched channel, reads "message deleted", names a non-empty user and channel, and the channel exists; it says `From <user>` in the first channel of that name |
| ShareAttributionText.LastValueNone | shareattribution/ShareAttribution.py:41-52 | no value is found if and only if no line carries the label |
| ShareAttributionText.LastValueAt | shareattribution/ShareAttribution.py:41-50 | the last labelled line decides the value, whatever came before |
| ShareAttributionText.ChannelLine | shareattribution/ShareAttribution.py:44-50 | `Channel: #classic alt` is labelled whatever its case and names `classic-alt` |
| ShareAttributionEmbed.FieldIndex | ShareAttribution/shareattribution.py:51-52 | the first field whose lower-cased name matches, with no match before it |
| ShareAttributionEmbed.FirstField | ShareAttribution/shareattribution.py:51-52 | `next(…, None)` is None if and only if no field matches; otherwise a matching field of the embed |
| ShareAttributionEmbed.ChannelName | ShareAttribution/shareattribution.py:61 | the channel name never holds '[' |
| ShareAttributionEmbed.OnMessage | ShareAttribution/shareattribution.py:31-68 | a credit is sent if and only if the channel is watched, the first embed is titled "Message Deleted", both fields exist and the named channel exists; the credit text is `From` and the stripped user value |
| ShareAttributionEmbed.FirstFieldWins | ShareAttribution/shareattribution.py:51-52 | fields after the first match change nothing |
| ShareAttributionEmbed.FieldIndexAt | ShareAttribution/shareattribution.py:51 | a match with no match before it is the field found |
| ShareAttributionEmbed.OnlyFirstEmbed | ShareAttribution/shareattribution.py:44 | embeds after the first change nothing |
| ShareAttributionEmbed.MissingFieldAborts | ShareAttribution/shareattribution.py:54-55 | without a "user:" field, or without a "channel:" field, nothing is sent |
| ShareAttributionEmbed.ChannelNameOfLogValue | ShareAttribution/shareattribution.py:60-61 | the log value `# name [#name]` gives back `name` |
| Docket.MatchMonth | Docket_Updates/Docket_Updates.py:63 | the `%m` group reads a month in 1..12 from one or two characters |
| Docket.MatchDay | Docket_Updates/Docket_Updates.py:63 | the `%d` group reads a day in 1..31 from one or two characters |
| Docket.ParseDate | Docket_Updates/Docket_Updates.py:63-64 | a date `strptime` accepts is a real calendar date |
| Docket.ParseFormat | Docket_Updates/Docket_Updates.py:63-64 | every date written `YYYY-MM-DD` reads back as itself |
| Docket.SingleDigitFields | Docket_Updates/Docket_Updates.py:63 | `2024-1-5` is accepted as 5 January 2024 |
| Docket.RefusedDates | Docket_Updates/Docket_Updates.py:63-64 | trailing text is refused as unconverted data, and 29 February 2023 as out of range |
| Docket.GetInfo | Docket_Updates/Docket_Updates.py:57-72 | the loop raises if and only if the report hits a date error; otherwise it returns None for an empty report and the report otherwise, and leaves the dictionary with every unseen case recorded |
| Docket.Snoc | Docket_Updates/Docket_Updates.py:58-68 | one more response records an unseen id and appends that response's line to the report |
| Docket.ReportErrSticks | Docket_Updates/Docket_Updates.py:63-64 | once a date is refused, the whole run fails |
| Docket.RecordedKeepsKnown | Docket_Updates/Docket_Updates.py:62-68 | stored dates never change, and the keys afterwards are the stored ones plus the response ids |
| Docket.RecordedFirst | Docket_Updates/Docket_Updates.py:67-68 | an unseen id is recorded with the date of its first response |
| Docket.DuplicateComparedToFirst | Docket_Updates/Docket_Updates.py:62-68 | a repeated id is compared with the date its first occurrence recorded |
| Docket.LaterTotal | Docket_Updates/Docket_Updates.py:65 | `>` on dates is a strict total order |
| Docket.LineEmptyUnlessLater | Docket_Updates/Docket_Updates.py:62-66 | an unseen case adds nothing; a known case adds the line `<case name> has new docket activity!` if and only if its fetched date is strictly later than the recorded one |
| Docket.QuietsAt | Docket_Updates/Docket_Updates.py:58-66 | each response is judged against the dictionary as the responses before it left it |
| Docket.NoLinesEvery | Docket_Updates/Docket_Updates.py:58-66 | no line is added if and only if every response, judged in turn, adds nothing |
| Docket.ReportEmptyIff | Docket_Updates/Docket_Updates.py:69-72 | the report is empty, so `get_info` returns None, if and only if no response adds a line |
| Counters.KeyIndex | wrapped/serverwrapped.py:256 | a key's entry is the first with that key |
| Counters.IncrementCount | wrapped/serverwrapped.py:256 | `c[k] += 1` adds one to `k`, leaves every other key's count alone, and keeps existing entries in place |
| Counters.IncrementValid | wrapped/serverwrapped.py:256 | counting keeps keys distinct and counts positive |
| Counters.AddAllConcat | wrapped/serverwrapped.py:255-288 | counting two runs of keys in turn is counting them together |
| Counters.AddAllCount | wrapped/serverwrapped.py:255-288 | after counting, each key's count has grown by its number of occurrences |
| Counters.AddAllValid | wrapped/serverwrapped.py:255-288 | counting keeps a counter valid |
| Counters.MostCommon | wrapped/serverwrapped.py:294 | `most_common()` holds exactly the counter's entries |
| Counters.MostCommonOrder | wrapped/serverwrapped.py:294 | `most_common()` is sorted by descending count, and entries with equal counts keep the counter's order |
| Counters.InsertDescending | wrapped/serverwrapped.py:294 | inserting an entry keeps the counts descending |
| Counters.InsertWithCount | wrapped/serverwrapped.py:294 | an inserted entry goes after every entry with the same count |
| Counters.Top | wrapped/serverwrapped.py:335 | `most_common(n)` has at most `n` entries, and no more than the counter; `Counters.TopIsHighest` says which |
| Counters.TopIsHighest | wrapped/serverwrapped.py:335 | `most_common(n)` is the first `n` entries of `most_common()` (all of them when fewer), drawn from the counter, each counted at least as often as every entry left out |
| ServerWrapped.ShortenFits | wrapped/serverwrapped.py:446-451 | no text gives an em dash; stripped text that fits comes back as it is |
| ServerWrapped.ShortenCut | wrapped/serverwrapped.py:452 | text that does not fit is cut to its first `limit - 1` characters, back to their last space, and ends in an ellipsis |
| ServerWrapped.ShortenLength | wrapped/serverwrapped.py:446-452 | for a positive limit, the result never exceeds the limit |
| ServerWrapped.HighlightRejects | wrapped/serverwrapped.py:419-444 | bot messages, messages without content or attachments, commands starting with `!.-~/`, and attachment-less messages with stripped length outside [10, 350] are rejected |
| ServerWrapped.HighlightAdmits | wrapped/serverwrapped.py:421-444 | a non-bot, non-command message that is not only mentions or emojis passes when it has an attachment and is not only URLs, or when its stripped content is empty |
| ServerWrapped.HighlightAdmitsText | wrapped/serverwrapped.py:421-444 | an ordinary text message (not from a bot, no attachment, 10 to 350 characters once stripped, not only URLs, mentions or emojis, not a command) passes the filter |
| ServerWrapped.ImageIndex | wrapped/serverwrapped.py:369-376 | the first image attachment, with no image before it |
| ServerWrapped.FindImage | wrapped/serverwrapped.py:368-376 | an image URL is found if and only if some attachment is an image; it is the URL of the first one |
| ServerWrapped.Words | wrapped/serverwrapped.py:400 | the contract states one word per token; that each word is its token lower-cased is the one-line definition |
| ServerWrapped.RareWordBonus | wrapped/serverwrapped.py:399-406 | the bonus is 1 if and only if some word is longer than two characters, not a stopword and not common; otherwise 0 |
| ServerWrapped.ScoreMessage | wrapped/serverwrapped.py:360-410 | the score is the sum of the weighted terms plus the freshness term, and the image is the first image attachment |
| ServerWrapped.IntScoreBounds | wrapped/serverwrapped.py:360-406 | the integer part of a score lies between -2 and 11 |
| ServerWrapped.ReactionsCapped | wrapped/serverwrapped.py:389-391 | reactions add one point each up to a total of three; beyond that, more reactions change nothing |
| ServerWrapped.ChooseHighlight | wrapped/serverwrapped.py:346-417 | the loop returns the message and image chosen by the candidate-loop specification `Choose` |
| ServerWrapped.ChooseIsMaximal | wrapped/serverwrapped.py:351-415 | no valid candidate scores above the best score, which never drops below -9999 |
| ServerWrapped.ChooseIsFirstBest | wrapped/serverwrapped.py:412-415 | the chosen message is valid, has the best score and its own image, and every earlier valid candidate scores strictly less |
| ServerWrapped.HighlightIsFirstBest | wrapped/serverwrapped.py:346-417 | the highlight passes the filter, scores highest among candidates that pass, shows its own first image, and is the earliest such message |
| ServerWrapped.ChooseFindsValid | wrapped/serverwrapped.py:351-415 | with creation times after the epoch, there is a highlight if and only if some candidate passes the filter |
| ServerWrapped.IntScoreDecides | wrapped/serverwrapped.py:408-412 | freshness never outweighs a point of score, and between equal integer parts the later message wins |
| ServerWrapped.Bigrams | wrapped/serverwrapped.py:325-327 | a word list of length `n >= 2` gives `n - 1` pairs |
| ServerWrapped.Trigrams | wrapped/serverwrapped.py:329-331 | a word list of length `n >= 3` gives `n - 2` triples |
| ServerWrapped.CountBigrams | wrapped/serverwrapped.py:325-327 | the pair loop counts every pair of the message |
| ServerWrapped.CountTrigrams | wrapped/serverwrapped.py:329-331 | the triple loop counts every triple of the message |
| ServerWrapped.ExtractTopics | wrapped/serverwrapped.py:314-344 | the topics are the frequent triples among the 12 most common, followed by the frequent pairs among the 24 most common |
| ServerWrapped.CollectFrequent | wrapped/serverwrapped.py:335-341 | the topic loops append, in order, the key of each entry counted at least three times |
| ServerWrapped.FrequentMembers | wrapped/serverwrapped.py:335-341 | a key is taken if and only if some entry has it with a count of at least three |
| ServerWrapped.TopEntries | wrapped/serverwrapped.py:335-339 | `most_common(n)` gives entries of the counter, and all of them when there are at most `n` |
| ServerWrapped.FrequentTop | wrapped/serverwrapped.py:333-341 | at most `n` topics, each occurring at least three times; complete when there are at most `n` distinct keys |
| ServerWrapped.TopicsFrequent | wrapped/serverwrapped.py:333-344 | every topic occurs at least three times, and there are at most 12 triple topics (listed first) and 24 pair topics |
| ServerWrapped.NonStopWords | wrapped/serverwrapped.py:323 | the words kept for pairs and triples are words of the message, none a stopword |
| ServerWrapped.BigramsWithinMessages | wrapped/serverwrapped.py:322-327 | every counted pair joins two neighbouring non-stopwords of one message |
| ServerWrapped.TrigramsWithinMessages | wrapped/serverwrapped.py:322-331 | every counted triple joins three neighbouring non-stopwords of one message |
| ServerWrapped.CountMentions | wrapped/serverwrapped.py:266-269 | the mention loop counts every mentioned user but the author |
| ServerWrapped.CountEach | wrapped/serverwrapped.py:273-276 | an emoji match loop counts each match once |
| ServerWrapped.CountColonEmojis | wrapped/serverwrapped.py:278-280 | the token loop counts each `:name:` token |
| ServerWrapped.CountEmojis | wrapped/serverwrapped.py:272-280 | the emoji loops count custom emojis, then Unicode emoji runs, then colon emojis |
| ServerWrapped.CountWords | wrapped/serverwrapped.py:286-288 | the word loop counts each word that is neither a stopword nor a single character |
| ServerWrapped.SidekickStep | wrapped/serverwrapped.py:261-269 | counting the replied-to author, then the mentions, counts the message's sidekicks in order |
| ServerWrapped.CountMessage | wrapped/serverwrapped.py:256-291 | one pass of the loop body extends every counter and total by one message |
| ServerWrapped.CountMessages | wrapped/serverwrapped.py:255-291 | the loop counts every message and keeps every message as a candidate |
| ServerWrapped.AnalyzeMessages | wrapped/serverwrapped.py:242-312 | the counters come back by descending count; the totals are the attachment count and the number of messages with reactions; the topics and highlight come from the word lists and the common words |
| ServerWrapped.CountedWordsOccurrences | wrapped/serverwrapped.py:286-288 | a word is kept as often as it occurs when it is counted at all, and never otherwise |
| ServerWrapped.AllCountedWordsOccurrences | wrapped/serverwrapped.py:282-288 | the same over every message |
| ServerWrapped.WordCounts | wrapped/serverwrapped.py:286-294 | a word's count is its number of occurrences, or zero for stopwords and single characters |
| ServerWrapped.MentionedOthersMembers | wrapped/serverwrapped.py:266-269 | a name is counted from the mentions if and only if someone other than the author with that name is mentioned |
| ServerWrapped.OnlySelfMentioned | wrapped/serverwrapped.py:267-268 | mentions of the author alone give no names |
| ServerWrapped.AuthorMentionsIgnored | wrapped/serverwrapped.py:261-269 | a message that replies to nobody and mentions only its author leaves the sidekick counter unchanged |
| ServerWrapped.ColonEmojisMembers | wrapped/serverwrapped.py:278-280 | a token counts as a colon emoji if and only if it has the `:name:` shape |

## Left out

- Discord, Red's `Config`, HTTP and file access: configuration values, the result of `message.delete()` (an
  exception from it ends the handler), fetched dockets and channel lists are parameters. Nothing is sent; the
  handlers return what they would send.
- `print` calls (logging only) and the commands that set or clear configuration.
- UrlQuery.UrlsFrom: the contract states only that each match is at least eight characters. How the scan
  finds matches is captured by the function's own definition, not by a lemma.
- Text.Lower: only ASCII letters are lower-cased.
  - For the comparisons this is exact. Every literal the cogs compare against (parameter names, labels, file
    extensions, stopwords) is ASCII lower-case without a 'k'. The Kelvin sign (U+212A) is the only non-ASCII
    character whose lower case is a single ASCII letter, and that letter is 'k'.
  - ServerWrapped.Words is different: it counts the lower-cased words themselves. There, a word with a non-ASCII
    capital (such as `Été`) is counted apart from its lower-case form, where Python would merge the two. Any
    length change that Python's `lower` makes (`İ` becomes two characters) is not reproduced.
- Docket.ParseDate: digits are ASCII; `strptime` also accepts other Unicode decimal digits.
- Docket.GetInfo:
  - Reading `interesting_cases.txt`, building the requests and `asyncio.gather` (Docket_Updates.py:43-56)
    are not part of this model. As written, line 56 gathers the imported `tasks` module instead of
    `all_cases`. The model takes the fetched responses as given.
  - The updated dictionary is never written back to the configuration in the source. The model returns it.
  - JSON decoding is left out. A response is its id, filing date and case name, and a missing field or null
    date is not modelled.
  - Keys are integers. A dictionary stored by `Config` would come back with string keys.
- ServerWrapped.Message: the regular expressions for custom and Unicode emojis, URLs, mentions, "only
  emoji" and words are given by their results on the content, which are fields of the message. Only the
  colon-emoji pattern and `str.split()` are modelled exactly. `_analyze_messages` applies the word and emoji
  patterns to the raw content and `_choose_highlight` to the stripped content. Stripping removes only
  whitespace, which none of those patterns matches or spans, so one set of results serves both.
- ServerWrapped.Freshness: computed with exact rationals. The source uses floating point, so the tie-breaker
  between messages created less than about a second apart may be lost to rounding.
- ServerWrapped.Sidekicks: a resolved reply is given as the display name of its author. Whether Discord
  resolved the reference is a parameter.
- ServerWrapped.TopicsFrequent: the lemma states the threshold, the order and the bounds. Which frequent
  keys reach the top 12 (24) is stated about the counter by `Counters.TopIsHighest` and
  `Counters.MostCommonOrder` (descending count, insertion order on ties), not restated for topics.
- Python's `None` content is modelled as the empty string, and `m.content or ""` reads the same.
- The Discord side of `_analyze_messages` (fetching history, 110-237) and the rendering of the summary are not
  part of this model, and neither are the `Quests`, `Name_Finder` and `color_by_click` cogs.
