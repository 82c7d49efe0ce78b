/** ShareTraige/ShareTriage.py: the other copy of the share-triage cog. It cleans only the URLs that visibly carry
    a share marker (`?si=`, `&si=` or `?share`), strips a smaller set of parameters, and credits the author in
    the repost. */
module ShareTraige {
  import opened Text
  import opened UrlQuery

  /** The parameter names this copy strips; `utm_*` parameters are not among them. */
  const TrackingParams: set<string> := {"si", "sp", "share", "feature", "fbclid", "igsh"}

  /** The parts of a Discord message the listener reads. */
  datatype Message = Message(content: string, authorIsBot: bool, inGuild: bool, authorMention: string)

  /** What the listener does: nothing, or delete the message and send `text` in its channel. */
  datatype Action = Ignore | Repost(text: string)

  /** The case-sensitive substring test that decides whether a URL is cleaned at all. */
  predicate HasShareMarker(url: string)
  {
    Contains(url, "?si=") || Contains(url, "&si=") || Contains(url, "?share")
  }

  /** Whether some URL among `urls` carries a share marker. */
  predicate AnyMarked(urls: seq<string>)
  {
    exists u :: u in urls && HasShareMarker(u)
  }

  /** The content after each marked URL has been replaced by its cleaned form, in the order found. */
  function Rewritten(content: string, urls: seq<string>): string
  {
    if urls == [] then content
    else
      var before := Rewritten(content, urls[..|urls| - 1]);
      var url := urls[|urls| - 1];
      if HasShareMarker(url) then Replace(before, url, Cleaned(url, TrackingParams)) else before
  }

  /** The repost: a bold line crediting the author, then the rewritten content. */
  function Credited(mention: string, content: string): string
  {
    "**From " + mention + ":**\n" + content
  }

  /** Whether some URL is marked, one URL further on. */
  lemma AnyMarkedSnoc(urls: seq<string>, u: string)
    ensures AnyMarked(urls + [u]) <==> AnyMarked(urls) || HasShareMarker(u)
  {
    if AnyMarked(urls) {
      var w :| w in urls && HasShareMarker(w);
      assert w in urls + [u];
    }
    assert u in urls + [u];
  }

  /** The rewrite, one URL further on. */
  lemma RewrittenSnoc(content: string, urls: seq<string>, u: string)
    ensures Rewritten(content, urls + [u]) ==
      if HasShareMarker(u) then Replace(Rewritten(content, urls), u, Cleaned(u, TrackingParams))
      else Rewritten(content, urls)
  {
    assert (urls + [u])[..|urls|] == urls;
  }

  /** The loop of `on_message`: every marked URL counts as cleaned and is replaced by its cleaned form. */
  method CleanContent(content: string, urls: seq<string>) returns (cleanedAny: bool, cleanedContent: string)
    ensures cleanedAny <==> AnyMarked(urls)
    ensures cleanedContent == Rewritten(content, urls)
  {
    cleanedAny := false;
    cleanedContent := content;
    var i := 0;
    while i < |urls|
      invariant 0 <= i <= |urls|
      invariant cleanedAny <==> AnyMarked(urls[..i])
      invariant cleanedContent == Rewritten(content, urls[..i])
    {
      var url := urls[i];
      assert urls[..i + 1] == urls[..i] + [url];
      AnyMarkedSnoc(urls[..i], url);
      RewrittenSnoc(content, urls[..i], url);
      if HasShareMarker(url) {
        cleanedAny := true;
        var cleaned := CleanUrl(url, TrackingParams);
        cleanedContent := Replace(cleanedContent, url, cleaned);
      }
      i := i + 1;
    }
    assert urls[..i] == urls;
  }

  /** `on_message`: repost, credited to the author, exactly when some found URL carries a share marker and the
      original could be deleted (`deleted` is whether `message.delete()` went through rather than being refused). */
  method OnMessage(m: Message, triageEnabled: bool, deleted: bool) returns (action: Action)
    ensures action.Repost? <==>
      !m.authorIsBot && m.inGuild && triageEnabled && deleted && AnyMarked(FindUrls(m.content))
    ensures action.Repost? ==>
      action.text == Credited(m.authorMention, Rewritten(m.content, FindUrls(m.content)))
  {
    if m.authorIsBot || !m.inGuild {
      return Ignore;
    }
    if !triageEnabled {
      return Ignore;
    }
    var urls := FindUrls(m.content);
    if urls == [] {
      assert !AnyMarked(urls);
      return Ignore;
    }
    var cleanedAny, cleanedContent := CleanContent(m.content, urls);
    if !cleanedAny {
      return Ignore;
    }
    if !deleted {
      return Ignore;
    }
    return Repost("**From " + m.authorMention + ":**\n" + cleanedContent);
  }

  /** The repost starts with the credit line naming the author and ends with the rewritten content. */
  lemma CreditedShape(mention: string, content: string)
    ensures "**From " + mention <= Credited(mention, content)
    ensures |Credited(mention, content)| == |mention| + |content| + 11
    ensures Credited(mention, content)[|mention| + 11..] == content
  {
  }

  /** When no URL is marked, the rewrite leaves the content as it was. */
  lemma {:induction false} UnmarkedKeepContent(content: string, urls: seq<string>)
    requires !AnyMarked(urls)
    ensures Rewritten(content, urls) == content
  {
    if urls != [] {
      var init := urls[..|urls| - 1];
      assert forall u :: u in init ==> u in urls;
      UnmarkedKeepContent(content, init);
    }
  }

  /** A marker is enough to repost even when cleaning changes nothing: a lone `shared` parameter is marked by
      "?share" but its name is not a tracking one, so the URL comes back as it was. */
  lemma MarkedButUnchanged(base: string, value: string)
    requires '?' !in base && '&' !in value
    ensures HasShareMarker(base + "?shared=" + value)
    ensures Cleaned(base + "?shared=" + value, TrackingParams) == base + "?shared=" + value
  {
    var p := "shared=" + value;
    var url := base + "?" + p;
    assert base + "?shared=" + value == url;
    assert OccursAt(url, "?share", |base|) by {
      assert url[|base|..|base| + 6] == "?share";
    }
    KeyOf("shared", value);
    LowerAsciiLower("shared");
    assert "shared" + "=" + value == p;
    OnlyParamKept(base, p, TrackingParams);
  }

  /** A tracking parameter without a marker is left alone: a lone `feature` parameter is in the set, so
      cleaning would drop it, yet the URL carries none of the markers and is never cleaned. */
  lemma UnmarkedTrackingKept(base: string, value: string)
    requires '?' !in base && '&' !in base && '?' !in value && '&' !in value
    ensures !HasShareMarker(base + "?feature=" + value)
    ensures Cleaned(base + "?feature=" + value, TrackingParams) == base
  {
    var q := "feature=" + value;
    var url := base + "?" + q;
    assert base + "?feature=" + value == url;
    assert '?' !in q && '&' !in q;
    assert '&' !in url;
    OnlyBetween(base, '?', q);
    assert url[|base| + 1] == 'f';
    NotContainsMismatch(url, "?si=", |base|, 1);
    NotContainsMismatch(url, "?share", |base|, 1);
    NotContainsFirst(url, "&si=");
    KeyOf("feature", value);
    LowerAsciiLower("feature");
    assert "feature" + "=" + value == q;
    OnlyParamDropped(base, q, TrackingParams);
  }
}
