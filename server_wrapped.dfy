/** wrapped/serverwrapped.py: the statistics behind a member's "Server Wrapped" summary. The messages of a year are
    counted (channels, sidekicks, emojis, words), frequent word pairs and triples become topics, and one message
    is picked as the highlight by a score. */
module ServerWrapped {
  import opened Text
  import opened Counters

  /** Words too common to say anything about a member. */
  const Stopwords: set<string> := {
    "the", "and", "to", "a", "in", "of", "is", "it", "for", "on", "that", "i", "you",
    "with", "this", "was", "are", "be", "have", "my", "we", "but", "not", "they",
    "at", "so", "if", "or", "as", "an", "by", "from", "me", "what", "just", "like",
    "do", "get", "got", "can", "will", "your", "all", "about", "no", "when", "there",
    "who", "one", "would", "which", "them", "myself", "been", "out", "up", "then",
    "how", "he", "she"
  }

  /** The stripped lengths a highlight should have. */
  const MinHighlightLen: int := 10
  const MaxHighlightLen: int := 350

  /** The weights of the highlight score. */
  const LengthWeight: int := 2
  const AttachmentWeight: int := 3
  const EmojiWeight: int := 1
  const RareWordWeight: int := 1
  const QuestionWeight: int := 1
  const ReactionWeight: int := 1
  const MentionWeight: int := -1
  const UrlWeight: int := -1

  /** The most the reactions of a message add to its score. */
  const ReactionScoreCap: int := 3

  /** The score every candidate has to beat. */
  const InitialBestScore: real := -9999.0

  /** What a shortened empty text reads as, and what marks a cut. */
  const EmDash: string := "—"
  const Ellipsis: string := "…"

  /** The default width of a shortened text. */
  const DefaultShortenLimit: int := 240

  datatype User = User(id: int, displayName: string)

  datatype Attachment = Attachment(contentType: Option<string>, filename: string, url: string)

  /** A message as the analysis reads it. `content` is "" when Discord gives none, `reactions` holds the count of
      each reaction, `replyAuthor` the display name of the author of the message it replies to when Discord
      resolved it, and `createdAt` the creation time in microseconds since the Unix epoch. The regular expressions
      that pick out emojis, URLs, mentions and words are given by their results on the content: the custom and
      the Unicode emoji matches, the word tokens of the content with its URLs removed, whether it holds a URL, and
      whether its stripped form is nothing but URLs, nothing but mentions, or nothing but emojis. */
  datatype Message = Message(
    content: string,
    authorId: int,
    authorIsBot: bool,
    channelName: string,
    createdAt: int,
    attachments: seq<Attachment>,
    reactions: seq<nat>,
    mentions: seq<User>,
    replyAuthor: Option<string>,
    customEmojis: seq<string>,
    unicodeEmojis: seq<string>,
    tokens: seq<string>,
    hasUrl: bool,
    onlyUrls: bool,
    onlyMentions: bool,
    onlyEmoji: bool)

  // ----- `_shorten` -----

  /** `_shorten(text, limit)`: an em dash for no text; the stripped text when it fits; otherwise its first
      `limit - 1` characters cut back to their last space, and an ellipsis. */
  function Shorten(text: string, limit: int := DefaultShortenLimit): string
  {
    if text == [] then EmDash
    else
      var t := Strip(text);
      if |t| <= limit then t else RSplitHead(SlicePrefix(t, limit - 1), ' ') + Ellipsis
  }

  /** Stripped text that fits is returned as it is; no text at all becomes an em dash. */
  lemma ShortenFits(text: string, limit: int)
    ensures text == [] ==> Shorten(text, limit) == EmDash
    ensures text != [] && |Strip(text)| <= limit ==> Shorten(text, limit) == Strip(text)
  {
  }

  /** Text that does not fit is cut at the last space within its first `limit - 1` characters (or kept whole
      when there is none) and ends in an ellipsis; the result is never longer than `limit`. */
  lemma ShortenCut(text: string, limit: int)
    requires text != [] && 1 <= limit < |Strip(text)|
    ensures var r := Shorten(text, limit);
            var q := Strip(text)[..limit - 1];
            var p := r[..|r| - 1];
            |r| <= limit && r == p + Ellipsis && p <= q &&
            ((p == q && ' ' !in q) || (|p| < |q| && q[|p|] == ' ' && ' ' !in q[|p| + 1..]))
  {
    var t := Strip(text);
    var q := t[..limit - 1];
    assert SlicePrefix(t, limit - 1) == q;
    var p := RSplitHead(q, ' ');
    var r := p + Ellipsis;
    assert r[..|r| - 1] == p;
    if |p| == |q| {
      assert p == q;
    } else {
      var after := q[|p| + 1..];
      forall c | c in after
        ensures c != ' '
      {
        var j :| 0 <= j < |after| && after[j] == c;
        assert after[j] == q[|p| + 1 + j];
      }
    }
  }

  /** The result of `_shorten` is at most `limit` characters long whenever `limit` is positive. */
  lemma ShortenLength(text: string, limit: int)
    requires limit >= 1
    ensures |Shorten(text, limit)| <= limit
  {
    if text != [] && |Strip(text)| > limit {
      ShortenCut(text, limit);
    }
  }

  // ----- `_is_message_valid_for_highlight` -----

  /** Content that starts like a bot command. */
  predicate IsCommand(content: string)
  {
    content != [] && content[0] in {'!', '.', '-', '~', '/'}
  }

  /** `_is_message_valid_for_highlight`: the message has content or attachments, is not from a bot, has a stripped
      length in range unless it carries attachments, is not only URLs, only mentions or only emojis, and does not
      look like a command. */
  predicate IsValidForHighlight(m: Message)
  {
    var content := Strip(m.content);
    if m.content == [] && m.attachments == [] then false
    else if m.authorIsBot then false
    else if content != [] && (|content| < MinHighlightLen || |content| > MaxHighlightLen) && m.attachments == [] then false
    else if content != [] && m.onlyUrls then false
    else if m.onlyMentions then false
    else if m.onlyEmoji then false
    else if IsCommand(content) then false
    else true
  }

  /** The filter turns away bot messages, messages with neither content nor attachments, commands, and
      attachment-less messages whose stripped content is shorter than 10 or longer than 350 characters. */
  lemma HighlightRejects(m: Message)
    ensures m.authorIsBot ==> !IsValidForHighlight(m)
    ensures m.content == [] && m.attachments == [] ==> !IsValidForHighlight(m)
    ensures IsCommand(Strip(m.content)) ==> !IsValidForHighlight(m)
    ensures var n := |Strip(m.content)|;
            m.attachments == [] && 0 < n && (n < MinHighlightLen || n > MaxHighlightLen) ==> !IsValidForHighlight(m)
  {
  }

  /** An attachment lets a message of any length through, and so does content that is nothing but whitespace:
      the length test only looks at non-empty stripped content. */
  lemma HighlightAdmits(m: Message)
    requires !m.authorIsBot && !m.onlyMentions && !m.onlyEmoji && !IsCommand(Strip(m.content))
    requires m.content != [] || m.attachments != []
    requires Strip(m.content) == [] || (m.attachments != [] && !m.onlyUrls)
    ensures IsValidForHighlight(m)
  {
  }

  /** The ordinary case: a text message from a person, with no attachment, of 10 to 350 characters once stripped,
      that is not only URLs, mentions or emojis and is not a command, is a candidate. */
  lemma HighlightAdmitsText(m: Message)
    requires !m.authorIsBot && m.attachments == []
    requires MinHighlightLen <= |Strip(m.content)| <= MaxHighlightLen
    requires !m.onlyUrls && !m.onlyMentions && !m.onlyEmoji && !IsCommand(Strip(m.content))
    ensures IsValidForHighlight(m)
  {
  }

  // ----- the score of `_choose_highlight` -----

  /** Whether `s` ends with `suffix`. */
  predicate EndsWith(s: string, suffix: string)
  {
    |suffix| <= |s| && s[|s| - |suffix|..] == suffix
  }

  /** An attachment taken for an image: its content type starts with "image", or its lower-cased file name ends
      in one of the picture extensions. */
  predicate IsImage(a: Attachment)
  {
    || (a.contentType.Some? && "image" <= a.contentType.value)
    || (var name := Lower(a.filename);
        EndsWith(name, ".gif") || EndsWith(name, ".png") || EndsWith(name, ".jpg") || EndsWith(name, ".jpeg")
        || EndsWith(name, ".webp"))
  }

  /** The position of the first image among the attachments, or their number. */
  function ImageIndex(attachments: seq<Attachment>): (k: nat)
    ensures k <= |attachments|
    ensures k < |attachments| ==> IsImage(attachments[k])
    ensures forall j :: 0 <= j < k ==> !IsImage(attachments[j])
  {
    if attachments == [] then 0 else if IsImage(attachments[0]) then 0 else 1 + ImageIndex(attachments[1..])
  }

  /** The URL of the first image attachment, if any. */
  function FirstImage(attachments: seq<Attachment>): Option<string>
  {
    var k := ImageIndex(attachments);
    if k < |attachments| then Some(attachments[k].url) else None
  }

  /** The attachment loop of `_choose_highlight`: the URL of the first attachment that is an image. */
  method FindImage(attachments: seq<Attachment>) returns (imageUrl: Option<string>)
    ensures imageUrl.Some? <==> exists a :: a in attachments && IsImage(a)
    ensures imageUrl.Some? ==>
      exists k :: 0 <= k < |attachments| && IsImage(attachments[k]) && imageUrl.value == attachments[k].url &&
        forall j :: 0 <= j < k ==> !IsImage(attachments[j])
    ensures imageUrl == FirstImage(attachments)
  {
    imageUrl := None;
    var i := 0;
    while i < |attachments|
      invariant 0 <= i <= |attachments|
      invariant forall j :: 0 <= j < i ==> !IsImage(attachments[j])
    {
      var a := attachments[i];
      if a.contentType.Some? && "image" <= a.contentType.value {
        imageUrl := Some(a.url);
        break;
      }
      var name := Lower(a.filename);
      if EndsWith(name, ".gif") || EndsWith(name, ".png") || EndsWith(name, ".jpg") || EndsWith(name, ".jpeg")
        || EndsWith(name, ".webp")
      {
        imageUrl := Some(a.url);
        break;
      }
      i := i + 1;
    }
    if imageUrl.Some? {
      assert i < |attachments| && IsImage(attachments[i]) && imageUrl.value == attachments[i].url;
      assert attachments[i] in attachments;
      var k := ImageIndex(attachments);
      assert !(k < i) && !(i < k);
    } else {
      assert i == |attachments|;
      forall a | a in attachments
        ensures !IsImage(a)
      {
        var j :| 0 <= j < |attachments| && attachments[j] == a;
      }
    }
  }

  /** The total of the reaction counts. */
  function ReactionTotal(reactions: seq<nat>): nat
  {
    if reactions == [] then 0 else ReactionTotal(reactions[..|reactions| - 1]) + reactions[|reactions| - 1]
  }

  function Min(a: int, b: int): int
  {
    if a <= b then a else b
  }

  /** What the reactions add to the score: one per reaction, capped at three. */
  function ReactionTerm(reactions: seq<nat>): int
  {
    Min(ReactionTotal(reactions) * ReactionWeight, ReactionScoreCap)
  }

  /** The lower-cased words of a message. */
  function Words(m: Message): (ws: seq<string>)
    ensures |ws| == |m.tokens|
  {
    seq(|m.tokens|, i requires 0 <= i < |m.tokens| => Lower(m.tokens[i]))
  }

  /** A word that earns the rare-word bonus: longer than two characters, not a stopword, not among the common
      words. */
  predicate IsRare(w: string, common: set<string>)
  {
    w != [] && w !in common && w !in Stopwords && |w| > 2
  }

  /** The rare-word loop of `_choose_highlight`: one when some word is rare. */
  method RareWordBonus(words: seq<string>, common: set<string>) returns (bonus: int)
    ensures bonus == if exists w :: w in words && IsRare(w, common) then 1 else 0
  {
    bonus := 0;
    var i := 0;
    while i < |words|
      invariant 0 <= i <= |words|
      invariant forall j :: 0 <= j < i ==> !IsRare(words[j], common)
    {
      var w := words[i];
      if w != [] && w !in common && w !in Stopwords && |w| > 2 {
        bonus := 1;
        assert w in words && IsRare(w, common);
        break;
      }
      i := i + 1;
    }
    if bonus == 0 {
      forall w | w in words
        ensures !IsRare(w, common)
      {
        var j :| 0 <= j < |words| && words[j] == w;
      }
    }
  }

  /** The length term: stripped content of a highlight's length. */
  function LengthTerm(content: string): int
  {
    if MinHighlightLen <= |content| <= MaxHighlightLen then LengthWeight else 0
  }

  /** The attachment term: an image with a non-empty URL. */
  function ImageTerm(image: Option<string>): int
  {
    if image.Some? && image.value != [] then AttachmentWeight else 0
  }

  /** The emoji term: one to three emoji matches. */
  function EmojiTerm(m: Message): int
  {
    var emojiCount := |m.unicodeEmojis| + |m.customEmojis|;
    if 1 <= emojiCount <= 3 then EmojiWeight else 0
  }

  /** The question term. */
  function QuestionTerm(content: string): int
  {
    if '?' in content then QuestionWeight else 0
  }

  /** The penalties for a URL and for mentions. */
  function PenaltyTerm(m: Message): int
  {
    (if m.hasUrl then UrlWeight else 0) + (if m.mentions != [] then MentionWeight else 0)
  }

  /** The rare-word term. */
  function RareTerm(words: seq<string>, common: set<string>): int
  {
    if exists w :: w in words && IsRare(w, common) then RareWordWeight else 0
  }

  /** The integer part of the highlight score. */
  function IntScore(m: Message, common: set<string>): int
  {
    var content := Strip(m.content);
    LengthTerm(content) + ImageTerm(FirstImage(m.attachments)) + EmojiTerm(m) + QuestionTerm(content)
    + ReactionTerm(m.reactions) + PenaltyTerm(m) + RareTerm(Words(m), common)
  }

  /** The tie-breaker: the creation time in seconds, divided by 10^9 and weighted by 10^-6. */
  function Freshness(m: Message): real
  {
    (m.createdAt as real / 1000000.0) / 1000000000.0 * 0.000001
  }

  /** The highlight score of a message. */
  function Score(m: Message, common: set<string>): real
  {
    IntScore(m, common) as real + Freshness(m)
  }

  /** The score of one candidate, and the image it would show. */
  method ScoreMessage(m: Message, common: set<string>) returns (score: real, imageUrl: Option<string>)
    ensures score == Score(m, common)
    ensures imageUrl == FirstImage(m.attachments)
  {
    var s := 0;
    var content := Strip(m.content);
    if MinHighlightLen <= |content| <= MaxHighlightLen {
      s := s + LengthWeight;
    }
    assert s == LengthTerm(content);
    imageUrl := FindImage(m.attachments);
    if imageUrl.Some? && imageUrl.value != [] {
      s := s + AttachmentWeight;
    }
    assert s == LengthTerm(content) + ImageTerm(imageUrl);
    var emojiCount := |m.unicodeEmojis| + |m.customEmojis|;
    if 1 <= emojiCount <= 3 {
      s := s + EmojiWeight;
    }
    if '?' in content {
      s := s + QuestionWeight;
    }
    assert s == LengthTerm(content) + ImageTerm(imageUrl) + EmojiTerm(m) + QuestionTerm(content);
    assert Min(ReactionTotal(m.reactions) * ReactionWeight, ReactionScoreCap) == ReactionTerm(m.reactions);
    s := s + Min(ReactionTotal(m.reactions) * ReactionWeight, ReactionScoreCap);
    var penalties := s;
    if m.hasUrl {
      s := s + UrlWeight;
    }
    if m.mentions != [] {
      s := s + MentionWeight;
    }
    assert s == penalties + PenaltyTerm(m);
    var bonus := RareWordBonus(Words(m), common);
    assert bonus * RareWordWeight == RareTerm(Words(m), common);
    s := s + bonus * RareWordWeight;
    assert IntScore(m, common) == LengthTerm(content) + ImageTerm(FirstImage(m.attachments)) + EmojiTerm(m)
      + QuestionTerm(content) + ReactionTerm(m.reactions) + PenaltyTerm(m) + RareTerm(Words(m), common);
    assert s == IntScore(m, common);
    score := s as real + Freshness(m);
  }

  /** The integer part lies between -2 (a URL and mentions, nothing else) and 11. */
  lemma IntScoreBounds(m: Message, common: set<string>)
    ensures -2 <= IntScore(m, common) <= 11
  {
  }

  /** Reactions count one point each until the cap: once the total reaches three, more reactions change
      nothing. */
  lemma ReactionsCapped(m: Message, common: set<string>, extra: nat)
    ensures ReactionTotal(m.reactions) >= 3 ==> IntScore(m.(reactions := m.reactions + [extra]), common) == IntScore(m, common)
    ensures ReactionTotal(m.reactions) + extra <= 3 ==>
      IntScore(m.(reactions := m.reactions + [extra]), common) == IntScore(m, common) + extra
  {
    var more := m.(reactions := m.reactions + [extra]);
    assert (m.reactions + [extra])[..|m.reactions|] == m.reactions;
    assert ReactionTotal(more.reactions) == ReactionTotal(m.reactions) + extra;
    assert Words(more) == Words(m);
  }

  // ----- `_choose_highlight` -----

  /** The words the rare-word test treats as common: the keys of the first 200 entries of `common_words`. */
  function CommonSet(commonWords: seq<Entry<string>>): set<string>
  {
    var top := if |commonWords| <= 200 then commonWords else commonWords[..200];
    set i | 0 <= i < |top| :: top[i].key
  }

  /** A candidate as the loop judges it: whether it passes the filter, its score, and its first image. */
  datatype Rated = Rated(message: Message, valid: bool, score: real, image: Option<string>)

  function Rate(m: Message, common: set<string>): Rated
  {
    Rated(m, IsValidForHighlight(m), Score(m, common), FirstImage(m.attachments))
  }

  function RateAll(candidates: seq<Message>, common: set<string>): (rated: seq<Rated>)
    ensures |rated| == |candidates|
  {
    seq(|candidates|, i requires 0 <= i < |candidates| => Rate(candidates[i], common))
  }

  /** The state of the candidate loop: the best score so far, the message that has it, and its image. */
  datatype Best = Best(score: real, message: Option<Message>, image: Option<string>)

  /** The candidate loop run over the rated candidates: a valid candidate takes over when its score is strictly
      higher than the best so far. */
  function Choose(rated: seq<Rated>): Best
  {
    if rated == [] then Best(InitialBestScore, None, None)
    else
      var prev := Choose(rated[..|rated| - 1]);
      var r := rated[|rated| - 1];
      if r.valid && r.score > prev.score then Best(r.score, Some(r.message), r.image) else prev
  }

  /** `_choose_highlight`: the highlight and its image. */
  method ChooseHighlight(candidates: seq<Message>, commonWords: seq<Entry<string>>)
    returns (best: Option<Message>, bestImage: Option<string>)
    ensures var b := Choose(RateAll(candidates, CommonSet(commonWords))); best == b.message && bestImage == b.image
  {
    var common := CommonSet(commonWords);
    ghost var rated := RateAll(candidates, common);
    var bestScore := InitialBestScore;
    best, bestImage := None, None;
    for i := 0 to |candidates|
      invariant Choose(rated[..i]) == Best(bestScore, best, bestImage)
    {
      var m := candidates[i];
      assert rated[..i + 1][..i] == rated[..i] && rated[i] == Rate(m, common);
      if !IsValidForHighlight(m) {
        continue;
      }
      var score, imageUrl := ScoreMessage(m, common);
      if score > bestScore {
        bestScore, best, bestImage := score, Some(m), imageUrl;
      }
    }
    assert rated[..|candidates|] == rated;
  }

  /** No valid candidate scores above the best score, which never drops below the starting score. */
  lemma {:induction false} ChooseIsMaximal(rated: seq<Rated>)
    ensures Choose(rated).score >= InitialBestScore
    ensures forall j :: 0 <= j < |rated| && rated[j].valid ==> rated[j].score <= Choose(rated).score
  {
    if rated != [] {
      var init := rated[..|rated| - 1];
      ChooseIsMaximal(init);
      assert forall j :: 0 <= j < |init| ==> init[j] == rated[j];
    }
  }

  /** The chosen message is a valid candidate that has the best score, shown with its own image, and every valid
      candidate before it scores strictly less: among equal scores the first one wins. Without a choice the best
      score is still the starting one. */
  lemma {:induction false} ChooseIsFirstBest(rated: seq<Rated>)
    ensures var b := Choose(rated);
            b.message.None? ==> b.score == InitialBestScore && b.image.None?
    ensures var b := Choose(rated);
            b.message.Some? ==>
              exists k :: 0 <= k < |rated| && rated[k].message == b.message.value && rated[k].valid &&
                rated[k].score == b.score && rated[k].image == b.image &&
                forall j :: 0 <= j < k && rated[j].valid ==> rated[j].score < b.score
  {
    if rated != [] {
      var n := |rated| - 1;
      var init := rated[..n];
      ChooseIsFirstBest(init);
      ChooseIsMaximal(init);
      var prev := Choose(init);
      assert forall j :: 0 <= j < n ==> init[j] == rated[j];
      if !(rated[n].valid && rated[n].score > prev.score) && prev.message.Some? {
        var k :| 0 <= k < n && init[k].message == prev.message.value && init[k].valid &&
          init[k].score == prev.score && init[k].image == prev.image &&
          forall j :: 0 <= j < k && init[j].valid ==> init[j].score < prev.score;
        assert rated[k] == init[k];
      }
    }
  }

  /** The highlight is a candidate that passes the filter and has the highest score, shown with its own first
      image; every candidate before it that passes scores strictly less, so among equal scores the earliest wins. */
  lemma HighlightIsFirstBest(candidates: seq<Message>, common: set<string>)
    ensures var b := Choose(RateAll(candidates, common));
            forall j :: 0 <= j < |candidates| && IsValidForHighlight(candidates[j]) ==>
              Score(candidates[j], common) <= b.score
    ensures var b := Choose(RateAll(candidates, common));
            b.message.Some? ==>
              exists k :: 0 <= k < |candidates| && candidates[k] == b.message.value &&
                IsValidForHighlight(candidates[k]) && Score(candidates[k], common) == b.score &&
                b.image == FirstImage(candidates[k].attachments) &&
                forall j :: 0 <= j < k && IsValidForHighlight(candidates[j]) ==> Score(candidates[j], common) < b.score
  {
    var rated := RateAll(candidates, common);
    ChooseIsMaximal(rated);
    ChooseIsFirstBest(rated);
    assert forall j :: 0 <= j < |candidates| ==> rated[j] == Rate(candidates[j], common);
  }

  /** With creation times after the epoch every score is at least -2, so there is a highlight exactly when some
      candidate passes the filter. */
  lemma ChooseFindsValid(candidates: seq<Message>, common: set<string>)
    requires forall m :: m in candidates ==> m.createdAt >= 0
    ensures Choose(RateAll(candidates, common)).message.Some? <==> exists m :: m in candidates && IsValidForHighlight(m)
  {
    var rated := RateAll(candidates, common);
    ChooseIsMaximal(rated);
    ChooseIsFirstBest(rated);
    if m :| m in candidates && IsValidForHighlight(m) {
      var j :| 0 <= j < |candidates| && candidates[j] == m;
      assert rated[j] == Rate(m, common);
      IntScoreBounds(m, common);
    }
    if Choose(rated).message.Some? {
      var k :| 0 <= k < |rated| && rated[k].message == Choose(rated).message.value && rated[k].valid;
      assert rated[k] == Rate(candidates[k], common);
    }
  }

  /** For creation times below 10^20 microseconds (some three million years) the tie-breaker stays under 0.1, so a
      higher integer part always wins, and between equal integer parts the later message wins. */
  lemma IntScoreDecides(a: Message, b: Message, common: set<string>)
    requires 0 <= a.createdAt < 100000000000000000000 && 0 <= b.createdAt < 100000000000000000000
    ensures IntScore(a, common) > IntScore(b, common) ==> Score(a, common) > Score(b, common)
    ensures IntScore(a, common) == IntScore(b, common) ==> (Score(a, common) > Score(b, common) <==> a.createdAt > b.createdAt)
  {
  }

  // ----- `_extract_topics` -----

  /** The words of one message that are not stopwords, in order. */
  function NonStop(words: seq<string>): seq<string>
  {
    if words == [] then []
    else NonStop(words[..|words| - 1]) + (if words[|words| - 1] !in Stopwords then [words[|words| - 1]] else [])
  }

  /** Adjacent pairs of `words`, joined by a space. */
  function Bigrams(words: seq<string>): (grams: seq<string>)
    ensures |grams| == if |words| >= 2 then |words| - 1 else 0
  {
    var n := if |words| >= 2 then |words| - 1 else 0;
    seq(n, i requires 0 <= i < n => words[i] + " " + words[i + 1])
  }

  /** Adjacent triples of `words`, joined by spaces. */
  function Trigrams(words: seq<string>): (grams: seq<string>)
    ensures |grams| == if |words| >= 3 then |words| - 2 else 0
  {
    var n := if |words| >= 3 then |words| - 2 else 0;
    seq(n, i requires 0 <= i < n => words[i] + " " + words[i + 1] + " " + words[i + 2])
  }

  /** Every pair counted, message by message. */
  function AllBigrams(lists: seq<seq<string>>): seq<string>
  {
    if lists == [] then [] else AllBigrams(lists[..|lists| - 1]) + Bigrams(NonStop(lists[|lists| - 1]))
  }

  /** Every triple counted, message by message. */
  function AllTrigrams(lists: seq<seq<string>>): seq<string>
  {
    if lists == [] then [] else AllTrigrams(lists[..|lists| - 1]) + Trigrams(NonStop(lists[|lists| - 1]))
  }

  /** The keys of the entries counted at least three times, in order. */
  function Frequent(entries: seq<Entry<string>>): seq<string>
  {
    if entries == [] then []
    else
      var e := entries[|entries| - 1];
      Frequent(entries[..|entries| - 1]) + (if e.count >= 3 then [e.key] else [])
  }

  /** The triple topics: those among the 12 most common triples that occur at least three times. */
  function TrigramTopics(lists: seq<seq<string>>): seq<string>
  {
    Frequent(Top(AddAll([], AllTrigrams(lists)), 12))
  }

  /** The pair topics: those among the 24 most common pairs that occur at least three times. */
  function BigramTopics(lists: seq<seq<string>>): seq<string>
  {
    Frequent(Top(AddAll([], AllBigrams(lists)), 24))
  }

  /** The pair loop of `_extract_topics` for one message. */
  method CountBigrams(bigrams: seq<Entry<string>>, cleaned: seq<string>) returns (r: seq<Entry<string>>)
    ensures r == AddAll(bigrams, Bigrams(cleaned))
  {
    r := bigrams;
    var grams := Bigrams(cleaned);
    for i := 0 to |grams|
      invariant r == AddAll(bigrams, grams[..i])
    {
      var bigr := cleaned[i] + " " + cleaned[i + 1];
      assert grams[..i + 1] == grams[..i] + [bigr];
      AddAllSnoc(bigrams, grams[..i], bigr);
      r := Increment(r, bigr);
    }
    assert grams[..|grams|] == grams;
  }

  /** The triple loop of `_extract_topics` for one message. */
  method CountTrigrams(trigrams: seq<Entry<string>>, cleaned: seq<string>) returns (r: seq<Entry<string>>)
    ensures r == AddAll(trigrams, Trigrams(cleaned))
  {
    r := trigrams;
    var grams := Trigrams(cleaned);
    for i := 0 to |grams|
      invariant r == AddAll(trigrams, grams[..i])
    {
      var trigr := cleaned[i] + " " + cleaned[i + 1] + " " + cleaned[i + 2];
      assert grams[..i + 1] == grams[..i] + [trigr];
      AddAllSnoc(trigrams, grams[..i], trigr);
      r := Increment(r, trigr);
    }
    assert grams[..|grams|] == grams;
  }

  /** `_extract_topics`: the frequent triples among the 12 most common, then the frequent pairs among the 24 most
      common. */
  method ExtractTopics(lists: seq<seq<string>>) returns (topics: seq<string>)
    ensures topics == TrigramTopics(lists) + BigramTopics(lists)
  {
    var bigrams: seq<Entry<string>> := [];
    var trigrams: seq<Entry<string>> := [];
    for k := 0 to |lists|
      invariant bigrams == AddAll([], AllBigrams(lists[..k]))
      invariant trigrams == AddAll([], AllTrigrams(lists[..k]))
    {
      var cleaned := NonStop(lists[k]);
      assert lists[..k + 1][..k] == lists[..k] && lists[..k + 1][k] == lists[k];
      AddAllConcat([], AllBigrams(lists[..k]), Bigrams(cleaned));
      AddAllConcat([], AllTrigrams(lists[..k]), Trigrams(cleaned));
      bigrams := CountBigrams(bigrams, cleaned);
      trigrams := CountTrigrams(trigrams, cleaned);
    }
    assert lists[..|lists|] == lists;
    topics := CollectFrequent([], Top(trigrams, 12));
    assert [] + TrigramTopics(lists) == TrigramTopics(lists);
    topics := CollectFrequent(topics, Top(bigrams, 24));
  }

  /** The topic loops of `_extract_topics`: append the key of each entry counted at least three times. */
  method CollectFrequent(topics: seq<string>, entries: seq<Entry<string>>) returns (r: seq<string>)
    ensures r == topics + Frequent(entries)
  {
    r := topics;
    for j := 0 to |entries|
      invariant r == topics + Frequent(entries[..j])
    {
      assert entries[..j + 1][..j] == entries[..j];
      if entries[j].count >= 3 {
        r := r + [entries[j].key];
      } else {
        assert r + [] == r;
      }
    }
    assert entries[..|entries|] == entries;
  }

  /** A key is frequent exactly when some entry with that key was counted at least three times; there are never
      more frequent keys than entries. */
  lemma {:induction false} FrequentMembers(entries: seq<Entry<string>>, k: string)
    ensures |Frequent(entries)| <= |entries|
    ensures k in Frequent(entries) <==> exists e :: e in entries && e.key == k && e.count >= 3
  {
    if entries != [] {
      var init := entries[..|entries| - 1];
      FrequentMembers(init, k);
      assert entries == init + [entries[|entries| - 1]];
    }
  }

  /** In a valid counter, an entry's count is the count of its key. */
  lemma EntryCount<K>(c: seq<Entry<K>>, e: Entry<K>)
    requires Valid(c) && e in c
    ensures Count(c, e.key) == e.count
  {
    var i :| 0 <= i < |c| && c[i] == e;
    assert KeyIndex(c, e.key) == i;
  }

  /** A key counted at least once has an entry. */
  lemma CountedHasEntry<K>(c: seq<Entry<K>>, k: K)
    requires Count(c, k) > 0
    ensures Entry(k, Count(c, k)) in c
  {
    assert c[KeyIndex(c, k)] == Entry(k, Count(c, k));
  }

  /** The entries of `most_common(n)` are entries of the counter, and all of them when it has at most `n`. */
  lemma TopEntries<K>(c: seq<Entry<K>>, n: nat)
    ensures forall e :: e in Top(c, n) ==> e in c
    ensures |c| <= n ==> forall e :: e in c ==> e in Top(c, n)
  {
    var t := Top(c, n);
    TopIsHighest(c, n);
    forall e | e in t
      ensures e in c
    {
      assert e in multiset(t);
    }
    if |c| <= n {
      assert t == MostCommon(c);
      forall e | e in c
        ensures e in t
      {
        assert e in multiset(c);
      }
    }
  }

  /** The topics from counted keys: each one occurs at least three times among the counted keys, and when there
      are no more than `n` distinct keys every key occurring three times or more is a topic. */
  lemma FrequentTop(keys: seq<string>, n: nat, t: string)
    ensures |Frequent(Top(AddAll([], keys), n))| <= n
    ensures t in Frequent(Top(AddAll([], keys), n)) ==> multiset(keys)[t] >= 3
    ensures |AddAll([], keys)| <= n ==> (t in Frequent(Top(AddAll([], keys), n)) <==> multiset(keys)[t] >= 3)
  {
    var c := AddAll([], keys);
    var top := Top(c, n);
    AddAllValid([], keys);
    AddAllCount([], keys, t);
    FrequentMembers(top, t);
    TopEntries(c, n);
    if t in Frequent(top) {
      var e :| e in top && e.key == t && e.count >= 3;
      EntryCount(c, e);
    }
    if |c| <= n && multiset(keys)[t] >= 3 {
      CountedHasEntry(c, t);
      assert Entry(t, Count(c, t)) in top;
    }
  }

  /** Every topic occurs at least three times, the triple topics come first, and there are at most 12 of them and
      24 pair topics. When there are at most 12 distinct triples (24 distinct pairs), every triple (pair) occurring
      three times or more is a topic. */
  lemma TopicsFrequent(lists: seq<seq<string>>, t: string)
    ensures |TrigramTopics(lists)| <= 12 && |BigramTopics(lists)| <= 24
    ensures t in TrigramTopics(lists) ==> multiset(AllTrigrams(lists))[t] >= 3
    ensures t in BigramTopics(lists) ==> multiset(AllBigrams(lists))[t] >= 3
    ensures |AddAll([], AllTrigrams(lists))| <= 12 ==> (t in TrigramTopics(lists) <==> multiset(AllTrigrams(lists))[t] >= 3)
    ensures |AddAll([], AllBigrams(lists))| <= 24 ==> (t in BigramTopics(lists) <==> multiset(AllBigrams(lists))[t] >= 3)
  {
    FrequentTop(AllTrigrams(lists), 12, t);
    FrequentTop(AllBigrams(lists), 24, t);
  }

  /** The words kept for pairs and triples are words of the message, none of them a stopword. */
  lemma {:induction false} NonStopWords(words: seq<string>)
    ensures forall w :: w in NonStop(words) ==> w in words && w !in Stopwords
  {
    if words != [] {
      var init := words[..|words| - 1];
      NonStopWords(init);
      assert forall w :: w in init ==> w in words;
    }
  }

  /** Every counted pair joins two neighbouring non-stopwords of one message: pairs never span two messages. */
  lemma {:induction false} BigramsWithinMessages(lists: seq<seq<string>>, g: string)
    requires g in AllBigrams(lists)
    ensures exists k, i ::
              0 <= k < |lists| && 0 <= i < |NonStop(lists[k])| - 1 &&
              g == NonStop(lists[k])[i] + " " + NonStop(lists[k])[i + 1]
  {
    var n := |lists| - 1;
    var init := lists[..n];
    if g in AllBigrams(init) {
      BigramsWithinMessages(init, g);
      var k, i :| 0 <= k < |init| && 0 <= i < |NonStop(init[k])| - 1 &&
        g == NonStop(init[k])[i] + " " + NonStop(init[k])[i + 1];
      assert lists[k] == init[k];
    } else {
      var grams := Bigrams(NonStop(lists[n]));
      assert g in grams;
      var i :| 0 <= i < |grams| && grams[i] == g;
    }
  }

  /** Every counted triple joins three neighbouring non-stopwords of one message. */
  lemma {:induction false} TrigramsWithinMessages(lists: seq<seq<string>>, g: string)
    requires g in AllTrigrams(lists)
    ensures exists k, i ::
              0 <= k < |lists| && 0 <= i < |NonStop(lists[k])| - 2 &&
              g == NonStop(lists[k])[i] + " " + NonStop(lists[k])[i + 1] + " " + NonStop(lists[k])[i + 2]
  {
    var n := |lists| - 1;
    var init := lists[..n];
    if g in AllTrigrams(init) {
      TrigramsWithinMessages(init, g);
      var k, i :| 0 <= k < |init| && 0 <= i < |NonStop(init[k])| - 2 &&
        g == NonStop(init[k])[i] + " " + NonStop(init[k])[i + 1] + " " + NonStop(init[k])[i + 2];
      assert lists[k] == init[k];
    } else {
      var grams := Trigrams(NonStop(lists[n]));
      assert g in grams;
      var i :| 0 <= i < |grams| && grams[i] == g;
    }
  }

  // ----- `_analyze_messages` -----

  /** A word the word counter takes: not a stopword and longer than one character. */
  predicate IsCountedWord(w: string)
  {
    w !in Stopwords && |w| > 1
  }

  /** The words of one message that the word counter takes, in order. */
  function CountedWords(words: seq<string>): seq<string>
  {
    if words == [] then []
    else CountedWords(words[..|words| - 1]) + (if IsCountedWord(words[|words| - 1]) then [words[|words| - 1]] else [])
  }

  /** The display names of the mentioned users other than the author, in order. */
  function MentionedOthers(mentions: seq<User>, authorId: int): seq<string>
  {
    if mentions == [] then []
    else
      var u := mentions[|mentions| - 1];
      MentionedOthers(mentions[..|mentions| - 1], authorId) + (if u.id != authorId then [u.displayName] else [])
  }

  /** The names one message adds to the sidekick counter: the author it replies to, then everyone it mentions but
      its own author. */
  function Sidekicks(m: Message): seq<string>
  {
    (if m.replyAuthor.Some? then [m.replyAuthor.value] else []) + MentionedOthers(m.mentions, m.authorId)
  }

  /** A character of an emoji name between colons. */
  predicate IsEmojiNameChar(c: char)
  {
    ('a' <= c <= 'z') || ('A' <= c <= 'Z') || ('0' <= c <= '9') || c == '_' || c == '~'
  }

  /** A token like `:grin:`: a colon, one or more name characters, a colon. */
  predicate IsColonEmoji(t: string)
  {
    |t| >= 3 && t[0] == ':' && t[|t| - 1] == ':' && forall i :: 1 <= i < |t| - 1 ==> IsEmojiNameChar(t[i])
  }

  /** The colon emojis among the tokens, in order. */
  function ColonEmojis(tokens: seq<string>): seq<string>
  {
    if tokens == [] then []
    else ColonEmojis(tokens[..|tokens| - 1]) + (if IsColonEmoji(tokens[|tokens| - 1]) then [tokens[|tokens| - 1]] else [])
  }

  /** The emojis one message adds: its custom emojis, its Unicode emoji runs, then its colon-emoji tokens. */
  function Emojis(m: Message): seq<string>
  {
    m.customEmojis + m.unicodeEmojis + ColonEmojis(SplitWords(m.content))
  }

  /** The channel of every message, in order. */
  function AllChannels(ms: seq<Message>): (names: seq<string>)
    ensures |names| == |ms|
  {
    seq(|ms|, i requires 0 <= i < |ms| => ms[i].channelName)
  }

  function AllSidekicks(ms: seq<Message>): seq<string>
  {
    if ms == [] then [] else AllSidekicks(ms[..|ms| - 1]) + Sidekicks(ms[|ms| - 1])
  }

  function AllEmojis(ms: seq<Message>): seq<string>
  {
    if ms == [] then [] else AllEmojis(ms[..|ms| - 1]) + Emojis(ms[|ms| - 1])
  }

  /** Every word of every message, in order. */
  function AllWords(ms: seq<Message>): seq<string>
  {
    if ms == [] then [] else AllWords(ms[..|ms| - 1]) + Words(ms[|ms| - 1])
  }

  function AllCountedWords(ms: seq<Message>): seq<string>
  {
    if ms == [] then [] else AllCountedWords(ms[..|ms| - 1]) + CountedWords(Words(ms[|ms| - 1]))
  }

  /** The word list of each message. */
  function WordLists(ms: seq<Message>): (lists: seq<seq<string>>)
    ensures |lists| == |ms|
  {
    seq(|ms|, i requires 0 <= i < |ms| => Words(ms[i]))
  }

  function TotalAttachments(ms: seq<Message>): nat
  {
    if ms == [] then 0 else TotalAttachments(ms[..|ms| - 1]) + |ms[|ms| - 1].attachments|
  }

  /** The number of messages with at least one reaction. */
  function ReactedMessages(ms: seq<Message>): nat
  {
    if ms == [] then 0 else ReactedMessages(ms[..|ms| - 1]) + (if ms[|ms| - 1].reactions != [] then 1 else 0)
  }

  /** What `_analyze_messages` returns. */
  datatype Analysis = Analysis(
    topics: seq<string>,
    sidekicks: seq<Entry<string>>,
    channels: seq<Entry<string>>,
    emojis: seq<Entry<string>>,
    commonWords: seq<Entry<string>>,
    attachments: nat,
    reactedMessages: nat,
    highlight: Option<Message>,
    highlightImage: Option<string>)

  /** The mention loop of `_analyze_messages`. */
  method CountMentions(sidekicks: seq<Entry<string>>, m: Message) returns (r: seq<Entry<string>>)
    ensures r == AddAll(sidekicks, MentionedOthers(m.mentions, m.authorId))
  {
    r := sidekicks;
    for i := 0 to |m.mentions|
      invariant r == AddAll(sidekicks, MentionedOthers(m.mentions[..i], m.authorId))
    {
      var u := m.mentions[i];
      var before := MentionedOthers(m.mentions[..i], m.authorId);
      assert m.mentions[..i + 1][..i] == m.mentions[..i];
      if u.id != m.authorId {
        AddAllSnoc(sidekicks, before, u.displayName);
        r := Increment(r, u.displayName);
      } else {
        assert before + [] == before;
      }
    }
    assert m.mentions[..|m.mentions|] == m.mentions;
  }

  /** A `for match in …: emoji_counter[match] += 1` loop of `_analyze_messages`: one count per found match. */
  method CountEach(counter: seq<Entry<string>>, matches: seq<string>) returns (r: seq<Entry<string>>)
    ensures r == AddAll(counter, matches)
  {
    r := counter;
    for i := 0 to |matches|
      invariant r == AddAll(counter, matches[..i])
    {
      assert matches[..i + 1] == matches[..i] + [matches[i]];
      AddAllSnoc(counter, matches[..i], matches[i]);
      r := Increment(r, matches[i]);
    }
    assert matches[..|matches|] == matches;
  }

  /** The colon-emoji loop of `_analyze_messages`: one count per whitespace-separated token shaped `:name:`. */
  method CountColonEmojis(counter: seq<Entry<string>>, tokens: seq<string>) returns (r: seq<Entry<string>>)
    ensures r == AddAll(counter, ColonEmojis(tokens))
  {
    r := counter;
    for i := 0 to |tokens|
      invariant r == AddAll(counter, ColonEmojis(tokens[..i]))
    {
      assert tokens[..i + 1][..i] == tokens[..i];
      var token := tokens[i];
      var before := ColonEmojis(tokens[..i]);
      if IsColonEmoji(token) {
        AddAllSnoc(counter, before, token);
        r := Increment(r, token);
      } else {
        assert before + [] == before;
      }
    }
    assert tokens[..|tokens|] == tokens;
  }

  /** The emoji loops of `_analyze_messages`: custom emojis, Unicode emoji runs, then colon-emoji tokens. */
  method CountEmojis(emojis: seq<Entry<string>>, m: Message) returns (r: seq<Entry<string>>)
    ensures r == AddAll(emojis, Emojis(m))
  {
    r := CountEach(emojis, m.customEmojis);
    r := CountEach(r, m.unicodeEmojis);
    var tokens := SplitWords(m.content);
    r := CountColonEmojis(r, tokens);
    AddAllConcat(emojis, m.customEmojis, m.unicodeEmojis);
    AddAllConcat(emojis, m.customEmojis + m.unicodeEmojis, ColonEmojis(tokens));
  }

  /** The word loop of `_analyze_messages`. */
  method CountWords(counter: seq<Entry<string>>, words: seq<string>) returns (r: seq<Entry<string>>)
    ensures r == AddAll(counter, CountedWords(words))
  {
    r := counter;
    for i := 0 to |words|
      invariant r == AddAll(counter, CountedWords(words[..i]))
    {
      var w := words[i];
      var before := CountedWords(words[..i]);
      assert words[..i + 1][..i] == words[..i];
      if w !in Stopwords && |w| > 1 {
        AddAllSnoc(counter, before, w);
        r := Increment(r, w);
      } else {
        assert before + [] == before;
      }
    }
    assert words[..|words|] == words;
  }

  /** The per-message sequences, one message further on. */
  lemma CountersStep(ms: seq<Message>, m: Message)
    ensures AllSidekicks(ms + [m]) == AllSidekicks(ms) + Sidekicks(m)
    ensures AllEmojis(ms + [m]) == AllEmojis(ms) + Emojis(m)
    ensures AllCountedWords(ms + [m]) == AllCountedWords(ms) + CountedWords(Words(m))
  {
    assert (ms + [m])[..|ms|] == ms;
  }

  /** The channel names and the word lists, one message further on. */
  lemma ListsStep(ms: seq<Message>, m: Message)
    ensures AllChannels(ms + [m]) == AllChannels(ms) + [m.channelName]
    ensures WordLists(ms + [m]) == WordLists(ms) + [Words(m)]
  {
  }

  /** The per-message totals, one message further on. */
  lemma TotalsStep(ms: seq<Message>, m: Message)
    ensures TotalAttachments(ms + [m]) == TotalAttachments(ms) + |m.attachments|
    ensures ReactedMessages(ms + [m]) == ReactedMessages(ms) + (if m.reactions != [] then 1 else 0)
  {
    assert (ms + [m])[..|ms|] == ms;
  }

  /** The counting of the sidekicks of one message: the author replied to first, then the mentions. */
  lemma SidekickStep(before: seq<string>, m: Message)
    ensures var counter := AddAll([], before);
            var replied := if m.replyAuthor.Some? then Increment(counter, m.replyAuthor.value) else counter;
            AddAll([], before + Sidekicks(m)) == AddAll(replied, MentionedOthers(m.mentions, m.authorId))
  {
    var reply := if m.replyAuthor.Some? then [m.replyAuthor.value] else [];
    var mentioned := MentionedOthers(m.mentions, m.authorId);
    AddAllConcat([], before, reply + mentioned);
    AddAllConcat(AddAll([], before), reply, mentioned);
    if m.replyAuthor.Some? {
      AddAllSnoc(AddAll([], before), [], m.replyAuthor.value);
      assert [] + [m.replyAuthor.value] == reply;
    }
  }

  /** The local state of the loop of `_analyze_messages`: the four counters, the word lists and the two
      totals. */
  datatype Tally = Tally(
    channels: seq<Entry<string>>,
    sidekicks: seq<Entry<string>>,
    emojis: seq<Entry<string>>,
    words: seq<Entry<string>>,
    wordLists: seq<seq<string>>,
    totalAttachments: nat,
    reactedMessages: nat)

  /** The state the loop reaches after the messages `ms`. */
  function TallyOf(ms: seq<Message>): Tally
  {
    Tally(AddAll([], AllChannels(ms)), AddAll([], AllSidekicks(ms)), AddAll([], AllEmojis(ms)),
      AddAll([], AllCountedWords(ms)), WordLists(ms), TotalAttachments(ms), ReactedMessages(ms))
  }

  /** The prefix one element longer is the prefix with that element appended. */
  lemma PrefixSnoc<T>(s: seq<T>, i: nat)
    requires i < |s|
    ensures s[..i + 1] == s[..i] + [s[i]]
  {
  }

  /** The body of the loop of `_analyze_messages`, for one message `m` after the messages `ms`. */
  method CountMessage(ghost ms: seq<Message>, t: Tally, m: Message) returns (r: Tally)
    requires t == TallyOf(ms)
    ensures r == TallyOf(ms + [m])
  {
    TotalsStep(ms, m);
    CountersStep(ms, m);
    ListsStep(ms, m);
    var totalAttachments := t.totalAttachments;
    if m.attachments != [] {
      totalAttachments := totalAttachments + |m.attachments|;
    }
    var reactedMessages := t.reactedMessages;
    if m.reactions != [] {
      reactedMessages := reactedMessages + 1;
    }
    AddAllSnoc([], AllChannels(ms), m.channelName);
    var channels := Increment(t.channels, m.channelName);
    SidekickStep(AllSidekicks(ms), m);
    var sidekicks := t.sidekicks;
    if m.replyAuthor.Some? {
      sidekicks := Increment(sidekicks, m.replyAuthor.value);
    }
    sidekicks := CountMentions(sidekicks, m);
    AddAllConcat([], AllEmojis(ms), Emojis(m));
    var emojis := CountEmojis(t.emojis, m);
    var ws := Words(m);
    AddAllConcat([], AllCountedWords(ms), CountedWords(ws));
    var words := CountWords(t.words, ws);
    r := Tally(channels, sidekicks, emojis, words, t.wordLists + [ws], totalAttachments, reactedMessages);
  }

  /** The loop of `_analyze_messages`: every message counted, and every message kept as a highlight
      candidate. */
  method CountMessages(messages: seq<Message>) returns (t: Tally, candidates: seq<Message>)
    ensures t == TallyOf(messages) && candidates == messages
  {
    t := Tally([], [], [], [], [], 0, 0);
    candidates := [];
    for i := 0 to |messages|
      invariant candidates == messages[..i]
      invariant t == TallyOf(candidates)
    {
      var m := messages[i];
      PrefixSnoc(messages, i);
      t := CountMessage(candidates, t, m);
      candidates := candidates + [m];
    }
    assert candidates == messages;
  }

  /** `_analyze_messages`: the counters in descending order, the attachment and reaction totals, the topics of the
      word lists, and the highlight judged against the most common words. */
  method AnalyzeMessages(messages: seq<Message>) returns (a: Analysis)
    ensures a.channels == MostCommon(AddAll([], AllChannels(messages)))
    ensures a.sidekicks == MostCommon(AddAll([], AllSidekicks(messages)))
    ensures a.emojis == MostCommon(AddAll([], AllEmojis(messages)))
    ensures a.commonWords == MostCommon(AddAll([], AllCountedWords(messages)))
    ensures a.attachments == TotalAttachments(messages) && a.reactedMessages == ReactedMessages(messages)
    ensures a.topics == TrigramTopics(WordLists(messages)) + BigramTopics(WordLists(messages))
    ensures var b := Choose(RateAll(messages, CommonSet(a.commonWords)));
            a.highlight == b.message && a.highlightImage == b.image
  {
    var t, candidates := CountMessages(messages);
    var commonWords := MostCommon(t.words);
    var topics := ExtractTopics(t.wordLists);
    var highlight, highlightImage := ChooseHighlight(candidates, commonWords);
    a := Analysis(topics, MostCommon(t.sidekicks), MostCommon(t.channels), MostCommon(t.emojis), commonWords,
      t.totalAttachments, t.reactedMessages, highlight, highlightImage);
  }

  /** The word counter holds every word that is neither a stopword nor a single character, with the number of
      times it occurs, and nothing else. */
  lemma {:induction false} CountedWordsOccurrences(words: seq<string>, w: string)
    ensures multiset(CountedWords(words))[w] == if IsCountedWord(w) then multiset(words)[w] else 0
  {
    if words != [] {
      var init := words[..|words| - 1];
      CountedWordsOccurrences(init, w);
      assert words == init + [words[|words| - 1]];
    }
  }

  lemma {:induction false} AllCountedWordsOccurrences(ms: seq<Message>, w: string)
    ensures multiset(AllCountedWords(ms))[w] == if IsCountedWord(w) then multiset(AllWords(ms))[w] else 0
  {
    if ms != [] {
      AllCountedWordsOccurrences(ms[..|ms| - 1], w);
      CountedWordsOccurrences(Words(ms[|ms| - 1]), w);
    }
  }

  /** The count of a word is the number of times it occurs in the messages when it is counted at all, and zero
      for stopwords and one-character words. */
  lemma WordCounts(ms: seq<Message>, w: string)
    ensures Count(AddAll([], AllCountedWords(ms)), w) == if IsCountedWord(w) then multiset(AllWords(ms))[w] else 0
  {
    AddAllCount([], AllCountedWords(ms), w);
    AllCountedWordsOccurrences(ms, w);
  }

  /** A name is counted from the mentions exactly when someone other than the author with that name is
      mentioned. */
  lemma {:induction false} MentionedOthersMembers(mentions: seq<User>, authorId: int, name: string)
    ensures name in MentionedOthers(mentions, authorId) <==>
      exists u :: u in mentions && u.id != authorId && u.displayName == name
  {
    if mentions != [] {
      var init := mentions[..|mentions| - 1];
      MentionedOthersMembers(init, authorId, name);
      assert mentions == init + [mentions[|mentions| - 1]];
    }
  }

  /** A message that replies to nobody and mentions only its own author leaves the sidekick counter as it was. */
  lemma AuthorMentionsIgnored(ms: seq<Message>, m: Message)
    requires m.replyAuthor.None?
    requires forall u :: u in m.mentions ==> u.id == m.authorId
    ensures AddAll([], AllSidekicks(ms + [m])) == AddAll([], AllSidekicks(ms))
  {
    OnlySelfMentioned(m.mentions, m.authorId);
    assert Sidekicks(m) == [];
    assert (ms + [m])[..|ms|] == ms;
    assert AllSidekicks(ms + [m]) == AllSidekicks(ms) + [];
    assert AllSidekicks(ms) + [] == AllSidekicks(ms);
  }

  /** Mentions of the author alone give no names. */
  lemma {:induction false} OnlySelfMentioned(mentions: seq<User>, authorId: int)
    requires forall u :: u in mentions ==> u.id == authorId
    ensures MentionedOthers(mentions, authorId) == []
  {
    if mentions != [] {
      var init := mentions[..|mentions| - 1];
      assert forall u :: u in init ==> u in mentions;
      OnlySelfMentioned(init, authorId);
      assert mentions[|mentions| - 1] in mentions;
    }
  }

  /** A token is counted as a colon emoji exactly when it has the `:name:` shape. */
  lemma {:induction false} ColonEmojisMembers(tokens: seq<string>, t: string)
    ensures t in ColonEmojis(tokens) <==> t in tokens && IsColonEmoji(t)
  {
    if tokens != [] {
      var init := tokens[..|tokens| - 1];
      ColonEmojisMembers(init, t);
      assert tokens == init + [tokens[|tokens| - 1]];
    }
  }
}
