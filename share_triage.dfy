/** ShareTriage/ShareTriage.py: the fallback link cleaner. When triage is on, a message whose links carry
    tracking parameters is deleted and reposted with the cleaned links, without attribution. */
module ShareTriage {
  import opened Text
  import opened UrlQuery

  /** The parameter names this cog strips, `utm_*` included. */
  const TrackingParams: set<string> :=
    {"si", "sp", "share", "feature", "fbclid", "igsh", "utm_source", "utm_medium", "utm_campaign"}

  /** The parts of a Discord message the listener reads. */
  datatype Message = Message(content: string, authorIsBot: bool, inGuild: bool)

  /** What the listener does: nothing, or delete the message and send `text` in its channel. */
  datatype Action = Ignore | Repost(text: string)

  /** Whether cleaning changes some URL among `urls`. */
  predicate AnyChanged(urls: seq<string>)
  {
    exists u :: u in urls && Cleaned(u, TrackingParams) != u
  }

  /** The content after each URL whose cleaned form differs has been replaced by that form, in the order found. */
  function Rewritten(content: string, urls: seq<string>): string
  {
    if urls == [] then content
    else
      var before := Rewritten(content, urls[..|urls| - 1]);
      var url := urls[|urls| - 1];
      var cleaned := Cleaned(url, TrackingParams);
      if cleaned != url then Replace(before, url, cleaned) else before
  }

  /** Whether some URL changes, one URL further on. */
  lemma AnyChangedSnoc(urls: seq<string>, u: string)
    ensures AnyChanged(urls + [u]) <==> AnyChanged(urls) || Cleaned(u, TrackingParams) != u
  {
    if AnyChanged(urls) {
      var w :| w in urls && Cleaned(w, TrackingParams) != w;
      assert w in urls + [u];
    }
    assert u in urls + [u];
  }

  /** The rewrite, one URL further on. */
  lemma RewrittenSnoc(content: string, urls: seq<string>, u: string)
    ensures Rewritten(content, urls + [u]) ==
      (var cleaned := Cleaned(u, TrackingParams);
       if cleaned != u then Replace(Rewritten(content, urls), u, cleaned) else Rewritten(content, urls))
  {
    assert (urls + [u])[..|urls|] == urls;
  }

  /** The reference rewrite: every found URL replaced by its cleaned form, changed or not. */
  function ReplacedAll(content: string, urls: seq<string>): string
  {
    if urls == [] then content
    else
      var url := urls[|urls| - 1];
      Replace(ReplacedAll(content, urls[..|urls| - 1]), url, Cleaned(url, TrackingParams))
  }

  /** The loop of `on_message`: clean each found URL and replace it in the content when cleaning changed it. */
  method CleanContent(content: string, urls: seq<string>) returns (cleanedAny: bool, cleanedContent: string)
    ensures cleanedAny <==> AnyChanged(urls)
    ensures cleanedContent == Rewritten(content, urls)
  {
    cleanedAny := false;
    cleanedContent := content;
    var i := 0;
    while i < |urls|
      invariant 0 <= i <= |urls|
      invariant cleanedAny <==> AnyChanged(urls[..i])
      invariant cleanedContent == Rewritten(content, urls[..i])
    {
      var url := urls[i];
      var cleaned := CleanUrl(url, TrackingParams);
      assert urls[..i + 1] == urls[..i] + [url];
      AnyChangedSnoc(urls[..i], url);
      RewrittenSnoc(content, urls[..i], url);
      if cleaned != url {
        cleanedAny := true;
        cleanedContent := Replace(cleanedContent, url, cleaned);
      }
      i := i + 1;
    }
    assert urls[..i] == urls;
  }

  /** `on_message`: repost exactly when some found URL changes under cleaning and the original could be deleted
      (`deleted` is whether `message.delete()` went through rather than being refused). */
  method OnMessage(m: Message, triageEnabled: bool, deleted: bool) returns (action: Action)
    ensures action.Repost? <==>
      !m.authorIsBot && m.inGuild && triageEnabled && deleted && AnyChanged(FindUrls(m.content))
    ensures action.Repost? ==> action.text == Rewritten(m.content, FindUrls(m.content))
  {
    if m.authorIsBot || !m.inGuild {
      return Ignore;
    }
    if !triageEnabled {
      return Ignore;
    }
    var urls := FindUrls(m.content);
    if urls == [] {
      assert !AnyChanged(urls);
      return Ignore;
    }
    var cleanedAny, cleanedContent := CleanContent(m.content, urls);
    if !cleanedAny {
      return Ignore;
    }
    if !deleted {
      return Ignore;
    }
    return Repost(cleanedContent);
  }

  /** When no URL changes, the rewrite leaves the content as it was. */
  lemma {:induction false} UnchangedUrlsKeepContent(content: string, urls: seq<string>)
    requires !AnyChanged(urls)
    ensures Rewritten(content, urls) == content
  {
    if urls != [] {
      var init := urls[..|urls| - 1];
      assert forall u :: u in init ==> u in urls;
      UnchangedUrlsKeepContent(content, init);
    }
  }

  /** Skipping unchanged URLs is the same as replacing every found URL by its cleaned form. */
  lemma {:induction false} RewrittenReplacesAll(content: string, urls: seq<string>)
    ensures Rewritten(content, urls) == ReplacedAll(content, urls)
  {
    if urls != [] {
      var init := urls[..|urls| - 1];
      var url := urls[|urls| - 1];
      RewrittenReplacesAll(content, init);
      if Cleaned(url, TrackingParams) == url {
        ReplaceSame(Rewritten(content, init), url);
      }
    }
  }

  /** A `si` share token goes while the parameter after it stays: `base?si=…&t=42` becomes `base?t=42`. */
  lemma ShareTokenDropped(base: string, token: string, rest: string)
    requires '?' !in base && '&' !in token && '&' !in rest
    requires IsKept(rest, TrackingParams)
    ensures Cleaned(base + "?si=" + token + "&" + rest, TrackingParams) == base + "?" + rest
  {
    KeyOf("si", token);
    LowerAsciiLower("si");
    var p := "si=" + token;
    assert "si" + "=" + token == p;
    assert '&' !in p;
    assert base + "?si=" + token + "&" + rest == base + "?" + p + "&" + rest;
    FirstParamDropped(base, p, rest, TrackingParams);
  }

  /** A lone `utm_source` parameter goes, and the '?' goes with it. */
  lemma UtmDropped(base: string, value: string)
    requires '?' !in base && '&' !in value
    ensures Cleaned(base + "?utm_source=" + value, TrackingParams) == base
  {
    KeyOf("utm_source", value);
    LowerAsciiLower("utm_source");
    var p := "utm_source=" + value;
    assert "utm_source" + "=" + value == p;
    assert '&' !in p;
    assert base + "?utm_source=" + value == base + "?" + p;
    OnlyParamDropped(base, p, TrackingParams);
  }
}
