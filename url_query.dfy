/** The link cleaner both share-triage cogs use (`clean_url`), and the URL scan that feeds it (`URL_RE.findall`).
    The two cogs differ only in their set of tracking parameter names, so everything here takes that set. */
module UrlQuery {
  import opened Text

  /** The name a parameter is compared by: the text before its first '=', lower-cased (`p.split("=")[0].lower()`). */
  function Key(param: string): string
  {
    Lower(Before(param, '='))
  }

  /** Whether a parameter survives cleaning. */
  predicate IsKept(param: string, tracking: set<string>)
  {
    Key(param) !in tracking
  }

  /** The parameters that are not tracking ones, filtered front to back. */
  function Kept(params: seq<string>, tracking: set<string>): (r: seq<string>)
    ensures |r| <= |params|
  {
    if params == [] then []
    else
      var last := params[|params| - 1];
      Kept(params[..|params| - 1], tracking) + (if IsKept(last, tracking) then [last] else [])
  }

  /** The part of a URL before its first '?' (all of it when there is none). */
  function Base(url: string): string
  {
    Before(url, '?')
  }

  /** The part of a URL after its first '?'. */
  function Query(url: string): string
  {
    After(url, '?')
  }

  /** A URL with a '?' is its base, that '?', and its query. */
  lemma BaseQuery(url: string)
    requires '?' in url
    ensures url == Base(url) + "?" + Query(url)
  {
    var k := IndexOf(url, '?');
    assert url == url[..k] + [url[k]] + url[k + 1..];
  }

  /** What `clean_url` returns for `url`. */
  function Cleaned(url: string, tracking: set<string>): string
  {
    if '?' !in url then url
    else
      var kept := Kept(Split(Query(url), '&'), tracking);
      if kept == [] then Base(url) else Base(url) + "?" + Join(kept, '&')
  }

  /** `clean_url`: split at the first '?', keep the non-tracking parameters in a loop, reassemble. */
  method CleanUrl(url: string, tracking: set<string>) returns (cleaned: string)
    ensures cleaned == Cleaned(url, tracking)
  {
    if '?' !in url {
      return url;
    }
    var base, query := Base(url), Query(url);
    var params := Split(query, '&');
    var newParams: seq<string> := [];
    var i := 0;
    while i < |params|
      invariant 0 <= i <= |params|
      invariant newParams == Kept(params[..i], tracking)
    {
      var p := params[i];
      if Key(p) !in tracking {
        newParams := newParams + [p];
      }
      assert params[..i + 1] == params[..i] + [p];
      KeptSnoc(params[..i], p, tracking);
      i := i + 1;
    }
    assert params[..i] == params;
    if newParams == [] {
      return base;
    }
    return base + "?" + Join(newParams, '&');
  }

  /** Filtering one more parameter appends it when it is kept. */
  lemma KeptSnoc(params: seq<string>, p: string, tracking: set<string>)
    ensures Kept(params + [p], tracking) == Kept(params, tracking) + (if IsKept(p, tracking) then [p] else [])
  {
    assert (params + [p])[..|params|] == params;
  }

  /** A parameter is kept exactly when it was among the input and its key is not a tracking one. */
  lemma {:induction false} KeptMember(params: seq<string>, tracking: set<string>, p: string)
    ensures p in Kept(params, tracking) <==> p in params && IsKept(p, tracking)
  {
    if params != [] {
      var init := params[..|params| - 1];
      KeptMember(init, tracking, p);
      assert params == init + [params[|params| - 1]];
    }
  }

  /** Filtering distributes over concatenation: kept parameters keep their text and relative order. */
  lemma {:induction false} KeptConcat(a: seq<string>, b: seq<string>, tracking: set<string>)
    ensures Kept(a + b, tracking) == Kept(a, tracking) + Kept(b, tracking)
    decreases |b|
  {
    if b != [] {
      var bInit := b[..|b| - 1];
      var last := b[|b| - 1];
      assert (a + b)[..|a + b| - 1] == a + bInit;
      KeptConcat(a, bInit, tracking);
    } else {
      assert a + b == a;
    }
  }

  /** Filtering twice is filtering once. */
  lemma {:induction false} KeptTwice(params: seq<string>, tracking: set<string>)
    ensures Kept(Kept(params, tracking), tracking) == Kept(params, tracking)
  {
    if params != [] {
      var init := params[..|params| - 1];
      var last := params[|params| - 1];
      KeptTwice(init, tracking);
      var k := Kept(init, tracking);
      if IsKept(last, tracking) {
        assert Kept(params, tracking) == k + [last];
        assert (k + [last])[..|k + [last]| - 1] == k;
        assert Kept(k + [last], tracking) == Kept(k, tracking) + [last];
      } else {
        assert Kept(params, tracking) == k + [] == k;
      }
    }
  }

  /** The joined kept parameters are never longer than the joined input. */
  lemma {:induction false} KeptJoinNoLonger(params: seq<string>, tracking: set<string>)
    ensures |Join(Kept(params, tracking), '&')| <= |Join(params, '&')|
  {
    if params != [] {
      var init := params[..|params| - 1];
      var last := params[|params| - 1];
      assert params == init + [last];
      KeptJoinNoLonger(init, tracking);
      var k := Kept(init, tracking);
      if init != [] {
        JoinSnoc(init, last, '&');
      }
      if IsKept(last, tracking) {
        assert Kept(params, tracking) == k + [last];
        if k != [] {
          JoinSnoc(k, last, '&');
        } else {
          assert k + [last] == [last];
        }
      } else {
        assert Kept(params, tracking) == k + [] == k;
      }
    }
  }

  /** A URL without '?' is returned unchanged. */
  lemma NoQueryUnchanged(url: string, tracking: set<string>)
    requires '?' !in url
    ensures Cleaned(url, tracking) == url
  {
  }

  /** The text before the first '?' always begins the result, and the result only keeps parameters whose key
      is not a tracking one, in their original text. */
  lemma {:induction false} CleanedShape(url: string, tracking: set<string>)
    requires '?' in url
    ensures Base(url) <= Cleaned(url, tracking)
    ensures var kept := Kept(Split(Query(url), '&'), tracking);
      forall p :: p in kept <==> p in Split(Query(url), '&') && Key(p) !in tracking
  {
    forall p {
      KeptMember(Split(Query(url), '&'), tracking, p);
    }
  }

  /** When every parameter is a tracking one, only the base is left, without its '?'. */
  lemma {:induction false} AllTrackingLeavesBase(url: string, tracking: set<string>)
    requires '?' in url
    requires forall p :: p in Split(Query(url), '&') ==> Key(p) in tracking
    ensures Cleaned(url, tracking) == Base(url)
    ensures '?' !in Cleaned(url, tracking)
  {
    var params := Split(Query(url), '&');
    var kept := Kept(params, tracking);
    if kept != [] {
      KeptMember(params, tracking, kept[0]);
    }
  }

  /** Cleaning never makes a URL longer. */
  lemma {:induction false} CleanedNoLonger(url: string, tracking: set<string>)
    ensures |Cleaned(url, tracking)| <= |url|
  {
    if '?' in url {
      BaseQuery(url);
      var params := Split(Query(url), '&');
      JoinSplit(Query(url), '&');
      KeptJoinNoLonger(params, tracking);
    }
  }

  /** Cleaning a cleaned URL changes nothing. */
  lemma {:induction false} CleanedIdempotent(url: string, tracking: set<string>)
    ensures Cleaned(Cleaned(url, tracking), tracking) == Cleaned(url, tracking)
  {
    if '?' in url {
      var base := Base(url);
      var params := Split(Query(url), '&');
      var kept := Kept(params, tracking);
      if kept != [] {
        var c := base + "?" + Join(kept, '&');
        assert c == base + ['?'] + Join(kept, '&');
        IndexOfAfter(base, '?', Join(kept, '&'));
        assert Base(c) == base;
        assert Query(c) == Join(kept, '&');
        SplitNoSeparator(Query(url), '&');
        forall p | p in kept ensures '&' !in p {
          KeptMember(params, tracking, p);
        }
        SplitJoin(kept, '&');
        KeptTwice(params, tracking);
      }
    }
  }

  /** The key of `name=value` is the lower-cased name. */
  lemma KeyOf(name: string, value: string)
    requires '=' !in name
    ensures Key(name + "=" + value) == Lower(name)
  {
    IndexOfAfter(name, '=', value);
    assert name + "=" + value == name + ['='] + value;
  }

  /** A URL split at its first '?' into a base without '?' and a query. */
  lemma CleanedParts(base: string, query: string)
    requires '?' !in base
    ensures Base(base + "?" + query) == base && Query(base + "?" + query) == query
  {
    IndexOfAfter(base, '?', query);
    assert base + "?" + query == base + ['?'] + query;
  }

  /** A URL whose only parameter is a tracking one loses it together with the '?'. */
  lemma OnlyParamDropped(base: string, param: string, tracking: set<string>)
    requires '?' !in base && '&' !in param
    requires !IsKept(param, tracking)
    ensures Cleaned(base + "?" + param, tracking) == base
  {
    CleanedParts(base, param);
    SplitOne(param, '&');
    KeptSnoc([], param, tracking);
  }

  /** Filtering a tracking parameter followed by a kept one leaves the kept one. */
  lemma KeptDropKeep(p: string, q: string, tracking: set<string>)
    requires !IsKept(p, tracking) && IsKept(q, tracking)
    ensures Kept([p, q], tracking) == [q]
  {
    KeptSnoc([], p, tracking);
    KeptSnoc([p], q, tracking);
    assert [p] + [q] == [p, q];
  }

  /** A URL whose only parameter is kept comes back as it was. */
  lemma OnlyParamKept(base: string, param: string, tracking: set<string>)
    requires '?' !in base && '&' !in param
    requires IsKept(param, tracking)
    ensures Cleaned(base + "?" + param, tracking) == base + "?" + param
  {
    CleanedParts(base, param);
    SplitOne(param, '&');
    KeptSnoc([], param, tracking);
    assert Join([param], '&') == param;
  }

  /** Of two parameters, a tracking one in front goes and a kept one after it stays. */
  lemma FirstParamDropped(base: string, p: string, q: string, tracking: set<string>)
    requires '?' !in base && '&' !in p && '&' !in q
    requires !IsKept(p, tracking) && IsKept(q, tracking)
    ensures Cleaned(base + "?" + p + "&" + q, tracking) == base + "?" + q
  {
    var query := p + "&" + q;
    var url := base + "?" + query;
    assert base + "?" + p + "&" + q == url;
    CleanedParts(base, query);
    assert url[|base|] == '?';
    assert query == p + ['&'] + q;
    SplitTwo(p, q, '&');
    KeptDropKeep(p, q, tracking);
    assert Join([q], '&') == q;
  }

  /** Whether `c` matches the lower-case letter `l` under `re.IGNORECASE`, which also lets 's' match 'ſ'. */
  predicate MatchesFolded(c: char, l: char)
  {
    LowerChar(c) == l || (l == 's' && c == '\U{17F}')
  }

  /** The length of the `https?://` prefix of `URL_RE` matched at index `i`, or 0. */
  function SchemeLength(s: string, i: nat): (n: nat)
    requires i <= |s|
    ensures n == 0 || n == 7 || n == 8
    ensures i + n <= |s|
  {
    if i + 7 <= |s| && MatchesFolded(s[i], 'h') && MatchesFolded(s[i + 1], 't') && MatchesFolded(s[i + 2], 't')
       && MatchesFolded(s[i + 3], 'p') && s[i + 4..i + 7] == "://"
    then 7
    else if i + 8 <= |s| && MatchesFolded(s[i], 'h') && MatchesFolded(s[i + 1], 't') && MatchesFolded(s[i + 2], 't')
       && MatchesFolded(s[i + 3], 'p') && MatchesFolded(s[i + 4], 's') && s[i + 5..i + 8] == "://"
    then 8
    else 0
  }

  /** The end of the run of non-whitespace characters that starts at `j` (the greedy `[^\s]+`). */
  function RunEnd(s: string, j: nat): (e: nat)
    requires j <= |s|
    ensures j <= e <= |s|
    ensures forall k :: j <= k < e ==> !IsSpace(s[k])
    ensures e < |s| ==> IsSpace(s[e])
    decreases |s| - j
  {
    if j == |s| || IsSpace(s[j]) then j else RunEnd(s, j + 1)
  }

  /** `URL_RE.findall(s[i..])`: non-overlapping matches of `https?://[^\s]+`, scanned from the left. */
  function UrlsFrom(s: string, i: nat): (urls: seq<string>)
    requires i <= |s|
    ensures forall u :: u in urls ==> |u| >= 8
    decreases |s| - i
  {
    if i == |s| then []
    else
      var n := SchemeLength(s, i);
      if n > 0 && i + n < |s| && !IsSpace(s[i + n]) then
        var e := RunEnd(s, i + n);
        [s[i..e]] + UrlsFrom(s, e)
      else UrlsFrom(s, i + 1)
  }

  /** The URLs found in a message. */
  function FindUrls(s: string): seq<string>
  {
    UrlsFrom(s, 0)
  }
}
