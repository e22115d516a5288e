/** The page loader of the front end (`usePageLoader`): it validates and
    normalises a URL, fetches the page through the backend, strips its
    scripts, embeds the navigation and selection scripts, embeds the
    page's resources, and keeps the `loading`, `error` and
    `processedHtml` state the views read.

    The browser's `URL` parser, the backend calls and the clock are outside
    the model: an `Env` carries them as functions, and `now` is the value of
    `Date.now()` for the call. */
module PageLoader {
  import opened Wrappers
  import opened Strings
  import opened Patterns
  import opened HtmlProcessor

  const EmptyUrlMessage := "URL не может быть пустым"
  const EmptyHtmlMessage := "Получен пустой HTML"
  const UnknownErrorMessage := "Неизвестная ошибка при загрузке страницы"

  // ---------------------------------------------------------------------
  // URL normalisation

  /** The number of `/` in `s`: `s.split('/').length` is one more. */
  function SlashCount(s: string): (r: nat)
    ensures r <= |s|
  {
    if s == [] then 0
    else SlashCount(s[..|s| - 1]) + (if s[|s| - 1] == '/' then 1 else 0)
  }

  /** The URL ends in `/` and splitting it on `/` gives more than four
      parts. */
  predicate EndsInStrippableSlash(u: string) {
    |u| > 0 && u[|u| - 1] == '/' && SlashCount(u) + 1 > 4
  }

  /** One trailing `/` dropped when the URL ends in a strippable slash. */
  function StripTrailingSlash(u: string): (r: string)
    ensures r == u || r + "/" == u
  {
    if EndsInStrippableSlash(u) then u[..|u| - 1] else u
  }

  /** A URL with at most three slashes, such as `https://host/`, keeps its
      trailing slash; one with more loses exactly one. */
  lemma StripTrailingSlashRule(u: string)
    ensures SlashCount(u) <= 3 ==> StripTrailingSlash(u) == u
    ensures |u| > 0 && u[|u| - 1] == '/' && SlashCount(u) >= 4 ==>
      StripTrailingSlash(u) + "/" == u && SlashCount(StripTrailingSlash(u)) == SlashCount(u) - 1
  {
  }

  /** Removing the last character removes its slash from the count. */
  lemma SlashCountInit(u: string)
    requires |u| > 0
    ensures SlashCount(u[..|u| - 1]) + (if u[|u| - 1] == '/' then 1 else 0) == SlashCount(u)
  {
  }

  /** A two-character suffix is `//` when both its characters are slashes. */
  lemma DoubleSlashEnd(u: string)
    requires |u| >= 2
    ensures u[|u| - 2..] == "//" <==> u[|u| - 2] == '/' && u[|u| - 1] == '/'
  {
    assert u[|u| - 2..] == [u[|u| - 2], u[|u| - 1]];
  }

  /** The URL without its last slash still ends in a strippable slash
      exactly when the URL ended in `//` with five slashes or more. */
  lemma StrippedStillStrippable(u: string)
    requires EndsInStrippableSlash(u)
    ensures EndsInStrippableSlash(u[..|u| - 1])
      <==> (|u| >= 2 && u[|u| - 2..] == "//" && SlashCount(u) >= 5)
  {
    var r := u[..|u| - 1];
    SlashCountInit(u);
    if |u| >= 2 {
      DoubleSlashEnd(u);
      assert r[|r| - 1] == u[|u| - 2];
    }
  }

  /** Stripping twice is stripping once exactly when the URL does not end in
      `//` with five slashes or more: only one slash goes per pass. */
  lemma StripTrailingSlashIdempotentIff(u: string)
    ensures StripTrailingSlash(StripTrailingSlash(u)) == StripTrailingSlash(u)
      <==> !(|u| >= 2 && u[|u| - 2..] == "//" && SlashCount(u) >= 5)
  {
    var r := StripTrailingSlash(u);
    if EndsInStrippableSlash(u) {
      assert r == u[..|u| - 1];
      StrippedStillStrippable(u);
      if EndsInStrippableSlash(r) {
        assert |StripTrailingSlash(r)| == |r| - 1;
      }
    } else {
      assert r == u;
      if |u| >= 2 && u[|u| - 2..] == "//" {
        assert u[|u| - 1] == u[|u| - 2..][1];
      }
    }
  }

  /** `https://h/a//` loses one slash per pass: normalising is not
      idempotent. */
  lemma StripTrailingSlashNotIdempotent(u: string)
    requires u == "https://h/a//"
    ensures StripTrailingSlash(u) == "https://h/a/"
    ensures StripTrailingSlash(StripTrailingSlash(u)) == "https://h/a"
  {
    var s1 := "https://h/a/";
    var s2 := "https://h/a";
    var s3 := "https://h/";
    var s4 := "https://h";
    var s5 := "https://";
    var s6 := "https:/";
    var s7 := "https:";
    assert u[..|u| - 1] == s1;
    assert s1[..|s1| - 1] == s2;
    assert s2[..|s2| - 1] == s3;
    assert s3[..|s3| - 1] == s4;
    assert s4[..|s4| - 1] == s5;
    assert s5[..|s5| - 1] == s6;
    assert s6[..|s6| - 1] == s7;
    NoSlash(s7);
    assert SlashCount(s6) == 1;
    assert SlashCount(s5) == 2;
    assert SlashCount(s4) == 2;
    assert SlashCount(s3) == 3;
    assert SlashCount(s2) == 3;
    assert SlashCount(s1) == 4;
    assert SlashCount(u) == 5;
  }

  lemma NoSlash(s: string)
    requires forall i :: 0 <= i < |s| ==> s[i] != '/'
    ensures SlashCount(s) == 0
  {
    if s != [] {
      NoSlash(s[..|s| - 1]);
    }
  }

  /** What the browser's `URL` parser reports: the canonical `href` and the
      host name. */
  datatype UrlParts = UrlParts(href: string, hostname: string)

  /** Lines 57-76: the trimmed URL, canonicalised and stripped of one
      trailing slash when `parse` accepts it, used as it is otherwise. */
  function NormalizeUrl(url: string, parse: string -> Option<UrlParts>): (r: string)
    ensures parse(TrimJs(url)).None? ==> r == TrimJs(url)
    ensures parse(TrimJs(url)).Some? ==> var href := parse(TrimJs(url)).value.href;
      r == href || r + "/" == href
  {
    var trimmed := TrimJs(url);
    match parse(trimmed)
    case None => trimmed
    case Some(p) => StripTrailingSlash(p.href)
  }

  /** Lines 57-76, step by step: the URL `Start` hands to the fetch. */
  method Normalize(url: string, parse: string -> Option<UrlParts>) returns (normalizedUrl: string)
    ensures normalizedUrl == NormalizeUrl(url, parse)
  {
    normalizedUrl := TrimJs(url);
    match parse(normalizedUrl) {
      case None =>
      case Some(p) =>
        normalizedUrl := p.href;
        if normalizedUrl != [] && normalizedUrl[|normalizedUrl| - 1] == '/' && SlashCount(normalizedUrl) + 1 > 4 {
          normalizedUrl := normalizedUrl[..|normalizedUrl| - 1];
        }
    }
  }

  // ---------------------------------------------------------------------
  // The backend and the environment

  /** The calls the loader makes to code outside the model. `parse` is
      `new URL(…)` (`None` when it throws); `fetchPage`,
      `cacheFolderForUrl` and `embedResources` are the backend commands and
      the resource embedder, failing with the message they throw. */
  datatype Env = Env(
    parse: string -> Option<UrlParts>,
    fetchPage: (string, bool, Option<int>) -> Result<string, string>,
    cacheFolderForUrl: string -> Result<Option<string>, string>,
    embedResources: (string, string, string) -> Result<string, string>,
    selectionScript: string,
    selectionStyles: string,
    navigationScript: string -> string)

  /** `siteId || null`: a site id of 0 is sent as no site. */
  function SiteArg(siteId: Option<int>): (r: Option<int>)
    ensures r.Some? ==> r == siteId && r.value != 0
    ensures siteId.Some? && siteId.value != 0 ==> r == siteId
  {
    if siteId == Some(0) then None else siteId
  }

  /** `e?.message || e?.toString() || …`: a thrown message, or the fallback
      when it is empty. */
  function ErrorMessage(thrown: string): (r: string)
    ensures r != []
    ensures thrown != [] ==> r == thrown
  {
    if thrown == [] then UnknownErrorMessage else thrown
  }

  /** `hostname.replace(/\./g, '_')`. */
  function DotsToUnderscores(s: string): (r: string)
    ensures |r| == |s| && '.' !in r
    ensures forall i :: 0 <= i < |s| && s[i] != '.' ==> r[i] == s[i]
  {
    seq(|s|, i requires 0 <= i < |s| => if s[i] == '.' then '_' else s[i])
  }

  /** A new folder for the page's resources, named after the clock and the
      host. */
  function FreshFolder(now: nat, hostname: string): (r: string)
    ensures IsPrefix("saved_pages/page_", r)
    ensures IsSuffix("_" + DotsToUnderscores(hostname), r)
    ensures r == "saved_pages/page_" + NatToString(now) + "_" + DotsToUnderscores(hostname)
  {
    var r := "saved_pages/page_" + NatToString(now) + "_" + DotsToUnderscores(hostname);
    assert r == "saved_pages/page_" + (NatToString(now) + "_" + DotsToUnderscores(hostname));
    assert r == ("saved_pages/page_" + NatToString(now)) + ("_" + DotsToUnderscores(hostname));
    r
  }

  /** Two clock readings give two different folders for one host. */
  lemma FreshFolderDistinct(now1: nat, now2: nat, hostname: string)
    requires now1 != now2
    ensures FreshFolder(now1, hostname) != FreshFolder(now2, hostname)
  {
    var p := "saved_pages/page_";
    var d := DotsToUnderscores(hostname);
    var n1, n2 := NatToString(now1), NatToString(now2);
    if FreshFolder(now1, hostname) == FreshFolder(now2, hostname) {
      assert p + n1 + "_" + d == p + n2 + "_" + d;
      assert |n1| == |n2|;
      assert n1 == (p + n1 + "_" + d)[|p|..|p| + |n1|];
      assert n2 == (p + n2 + "_" + d)[|p|..|p| + |n2|];
      NatToStringInjective(now1, now2);
    }
  }

  /** Lines 117-131: the folder resources are saved in, or `None` when one
      of the calls throws and resource embedding is skipped. */
  function PageFolder(url: string, forceRefresh: bool, env: Env, now: nat): (r: Option<string>)
    ensures r.Some? ==> r.value != []
    ensures forceRefresh ==> (r.Some? <==> env.parse(url).Some?)
    ensures !forceRefresh && env.cacheFolderForUrl(url).Err? ==> r.None?
  {
    var newFolder := if env.parse(url).Some? then Some(FreshFolder(now, env.parse(url).value.hostname)) else None;
    if forceRefresh then newFolder
    else match env.cacheFolderForUrl(url)
      case Err(_) => None
      case Ok(found) =>
        if found.Some? && found.value != [] then found else newFolder
  }

  /** Without a forced refresh the cached folder is reused; a forced refresh
      always names a fresh folder and never consults the cache. */
  lemma PageFolderChoice(url: string, forceRefresh: bool, env: Env, now: nat)
    ensures (!forceRefresh && env.cacheFolderForUrl(url).Ok? && env.cacheFolderForUrl(url).value.Some?
             && env.cacheFolderForUrl(url).value.value != []) ==>
      PageFolder(url, forceRefresh, env, now) == env.cacheFolderForUrl(url).value
    ensures forceRefresh ==>
      PageFolder(url, forceRefresh, env, now) ==
      (if env.parse(url).Some? then Some(FreshFolder(now, env.parse(url).value.hostname)) else None)
    ensures forceRefresh ==> forall other: Env :: other.parse == env.parse ==>
      PageFolder(url, forceRefresh, other, now) == PageFolder(url, forceRefresh, env, now)
  {
  }

  /** Lines 117-136: the page with its resources embedded when a folder is
      found and embedding them succeeds, otherwise the page as given. */
  function WithResources(p: string, url: string, forceRefresh: bool, env: Env, now: nat): (r: string)
    ensures r == p || (PageFolder(url, forceRefresh, env, now).Some?
                       && env.embedResources(p, url, PageFolder(url, forceRefresh, env, now).value) == Ok(r))
    ensures PageFolder(url, forceRefresh, env, now).None? ==> r == p
    ensures PageFolder(url, forceRefresh, env, now).Some? ==>
      var embedded := env.embedResources(p, url, PageFolder(url, forceRefresh, env, now).value);
      (embedded.Ok? ==> r == embedded.value) && (embedded.Err? ==> r == p)
  {
    match PageFolder(url, forceRefresh, env, now)
    case None => p
    case Some(folder) =>
      match env.embedResources(p, url, folder)
      case Err(_) => p
      case Ok(q) => q
  }

  /** Lines 100-136: scripts removed, the navigation and selection scripts
      embedded with the URL as base, then the resources embedded unless a
      step of that throws. */
  function ProcessPage(html: string, url: string, forceRefresh: bool, env: Env, now: nat): (r: string)
    ensures var p := EmbedSelectionScript(StripScripts(html), env.selectionScript,
              env.navigationScript(url), env.selectionStyles, url);
      r == p || (PageFolder(url, forceRefresh, env, now).Some?
                 && env.embedResources(p, url, PageFolder(url, forceRefresh, env, now).value) == Ok(r))
    ensures var p := EmbedSelectionScript(StripScripts(html), env.selectionScript,
              env.navigationScript(url), env.selectionStyles, url);
      var folder := PageFolder(url, forceRefresh, env, now);
      && (folder.None? ==> r == p)
      && (folder.Some? && env.embedResources(p, url, folder.value).Ok? ==> r == env.embedResources(p, url, folder.value).value)
      && (folder.Some? && env.embedResources(p, url, folder.value).Err? ==> r == p)
  {
    WithResources(EmbedSelectionScript(StripScripts(html), env.selectionScript,
      env.navigationScript(url), env.selectionStyles, url), url, forceRefresh, env, now)
  }

  /** The processing built from the corrected script removal and embedding
      of the html processor instead of the ones the loader calls. */
  function ProcessPageFixed(html: string, url: string, forceRefresh: bool, env: Env, now: nat): string {
    WithResources(EmbedSelectionScriptFixed(StripScriptsFixed(html), env.selectionScript,
      env.navigationScript(url), env.selectionStyles, url), url, forceRefresh, env, now)
  }

  /** With the corrected helpers and no resource folder, the page is the
      fetched page cleaned of every script tag, closing script tag and
      `noscript` block, with the styles and both scripts at the insertion
      point and the base URL inside the `<html>` and `<body>` tags. */
  lemma FixedPageWithoutResources(html: string, url: string, forceRefresh: bool, env: Env, now: nat)
    requires PageFolder(url, forceRefresh, env, now).None?
    ensures var clean := StripScriptsFixed(html);
      && ProcessPageFixed(html, url, forceRefresh, env, now) ==
           AddBaseUrlFixed(Placed(clean, env.selectionStyles + ScriptsTag(env.selectionScript, env.navigationScript(url))),
                           BaseUrlAttribute(url))
      && NoScriptTag(clean) && !Occurs(clean, "</script>", true) && NoNoscriptBlock(clean)
  {
    var clean := StripScriptsFixed(html);
    InsertScriptsFixedPlacesText(clean, env.selectionStyles + ScriptsTag(env.selectionScript, env.navigationScript(url)));
    StripScriptsFixedLeavesNoScript(html);
  }

  /** How a call of `loadPage` ends. */
  datatype Outcome = Rejected | Failed(message: string) | Loaded(html: string)

  /** Lines 81-157 for the normalised URL: the fetch and its processing. */
  function Fetched(url: string, forceRefresh: bool, siteId: Option<int>, env: Env, now: nat): (o: Outcome)
    ensures !o.Rejected?
    ensures o.Failed? ==> o.message != []
  {
    match env.fetchPage(url, forceRefresh, SiteArg(siteId))
    case Err(e) => Failed(ErrorMessage(e))
    case Ok(html) =>
      if html == [] then Failed(EmptyHtmlMessage)
      else Loaded(ProcessPage(html, url, forceRefresh, env, now))
  }

  /** `loadPage(url, forceRefresh)`, as a value. */
  function Load(url: string, forceRefresh: bool, siteId: Option<int>, env: Env, now: nat): (o: Outcome)
    ensures o.Rejected? <==> TrimJs(url) == []
    ensures o.Failed? ==> o.message != []
  {
    if TrimJs(url) == [] then Rejected
    else Fetched(NormalizeUrl(url, env.parse), forceRefresh, siteId, env, now)
  }

  /** Lines 100-136 step by step: scripts removed, scripts embedded, then
      the resources when a folder is found and embedding them succeeds. */
  method Process(html: string, url: string, forceRefresh: bool, env: Env, now: nat) returns (processed: string)
    ensures processed == ProcessPage(html, url, forceRefresh, env, now)
  {
    var stripped := RemoveScripts(html);
    processed := EmbedScripts(stripped, env.selectionScript,
      env.navigationScript(url), env.selectionStyles, url);
    var folder := PageFolder(url, forceRefresh, env, now);
    if folder.Some? {
      var embedded := env.embedResources(processed, url, folder.value);
      if embedded.Ok? {
        processed := embedded.value;
      }
    }
  }

  /** A URL is rejected exactly when it is empty or blank, and then the
      backend is never asked: any fetcher gives the same outcome. */
  lemma BlankUrlRejected(url: string, forceRefresh: bool, siteId: Option<int>, env: Env, now: nat)
    ensures Load(url, forceRefresh, siteId, env, now) == Rejected <==> IsBlank(url, IsJsSpace)
    ensures IsBlank(url, IsJsSpace) ==> forall other: Env ::
      Load(url, forceRefresh, siteId, other, now) == Rejected
  {
  }

  /** An empty page from the backend and a thrown error both end on the
      error path; only a non-empty page is loaded. */
  lemma FetchOutcome(url: string, forceRefresh: bool, siteId: Option<int>, env: Env, now: nat)
    requires TrimJs(url) != []
    ensures var target := NormalizeUrl(url, env.parse);
      var fetched := env.fetchPage(target, forceRefresh, SiteArg(siteId));
      && (fetched == Ok([]) ==> Load(url, forceRefresh, siteId, env, now) == Failed(EmptyHtmlMessage))
      && (fetched.Err? ==>
            Load(url, forceRefresh, siteId, env, now).Failed? && Load(url, forceRefresh, siteId, env, now).message != [])
      && (Load(url, forceRefresh, siteId, env, now).Loaded? <==> fetched.Ok? && fetched.value != [])
  {
  }

  /** When resource embedding is skipped, the loaded page is the fetched
      page without scripts, with the two scripts embedded. */
  lemma LoadedPageWithoutResources(url: string, forceRefresh: bool, siteId: Option<int>, env: Env, now: nat)
    requires TrimJs(url) != []
    requires PageFolder(NormalizeUrl(url, env.parse), forceRefresh, env, now).None?
    ensures var target := NormalizeUrl(url, env.parse);
      var fetched := env.fetchPage(target, forceRefresh, SiteArg(siteId));
      fetched.Ok? && fetched.value != [] ==>
        Load(url, forceRefresh, siteId, env, now) == Loaded(EmbedSelectionScript(
          StripScripts(fetched.value), env.selectionScript, env.navigationScript(target),
          env.selectionStyles, target))
  {
  }

  // ---------------------------------------------------------------------
  // The loader's state

  /** A call of one of the loader's callbacks. */
  datatype Notice = ErrorReported(message: string) | LoadCompleted

  /** The callbacks a finished load makes, when they are given. */
  function NoticesOf(o: Outcome, onError: bool, onLoadComplete: bool): (r: seq<Notice>)
    ensures |r| <= 1
    ensures o.Loaded? ==> (r == [LoadCompleted] <==> onLoadComplete)
    ensures !o.Loaded? ==> (r != [] <==> onError) && forall n :: n in r ==> n.ErrorReported?
  {
    match o
    case Rejected => if onError then [ErrorReported(EmptyUrlMessage)] else []
    case Failed(m) => if onError then [ErrorReported(m)] else []
    case Loaded(_) => if onLoadComplete then [LoadCompleted] else []
  }

  class PageLoader {
    var loading: bool
    var error: Option<string>
    var processedHtml: Option<string>
    /** The callbacks made so far. */
    var notices: seq<Notice>
    const onError: bool
    const onLoadComplete: bool

    constructor(onError: bool, onLoadComplete: bool)
      ensures !loading && error == None && processedHtml == None && notices == []
      ensures this.onError == onError && this.onLoadComplete == onLoadComplete
    {
      this.onError := onError;
      this.onLoadComplete := onLoadComplete;
      loading := false;
      error := None;
      processedHtml := None;
      notices := [];
    }

    /** Lines 48-79: a blank URL is refused before anything is touched but
        `error`; otherwise the URL is normalised, `loading` raised and
        `error` cleared for the fetch. */
    method Start(url: string, env: Env) returns (target: Option<string>)
      modifies this
      ensures TrimJs(url) == [] ==>
        (target == None && loading == old(loading) && error == Some(EmptyUrlMessage)
         && notices == old(notices) + NoticesOf(Rejected, onError, onLoadComplete))
      ensures TrimJs(url) != [] ==>
        (target == Some(NormalizeUrl(url, env.parse)) && loading && error == None && notices == old(notices))
      ensures processedHtml == old(processedHtml)
    {
      if TrimJs(url) == [] {
        error := Some(EmptyUrlMessage);
        if onError {
          notices := notices + [ErrorReported(EmptyUrlMessage)];
        }
        return None;
      }
      var normalizedUrl := Normalize(url, env.parse);
      loading := true;
      error := None;
      target := Some(normalizedUrl);
    }

    /** Lines 81-157: the fetch and the page processing; whatever happens,
        `loading` is lowered at the end. */
    method Finish(url: string, forceRefresh: bool, siteId: Option<int>, env: Env, now: nat)
      returns (result: Option<string>)
      modifies this
      ensures var o := Fetched(url, forceRefresh, siteId, env, now);
        && !loading
        && result == (if o.Loaded? then Some(o.html) else None)
        && error == (if o.Loaded? then old(error) else Some(o.message))
        && processedHtml == (if o.Loaded? then Some(o.html) else old(processedHtml))
        && notices == old(notices) + NoticesOf(o, onError, onLoadComplete)
    {
      var fetched := env.fetchPage(url, forceRefresh, SiteArg(siteId));
      var o: Outcome;
      if fetched.Ok? && fetched.value != [] {
        var processed := Process(fetched.value, url, forceRefresh, env, now);
        o := Loaded(processed);
      } else {
        o := Failed(if fetched.Err? then ErrorMessage(fetched.error) else EmptyHtmlMessage);
      }
      assert o == Fetched(url, forceRefresh, siteId, env, now);
      result := Settle(o);
    }

    /** Lines 137-157: the state after the fetch has ended with `o`. */
    method Settle(o: Outcome) returns (result: Option<string>)
      requires !o.Rejected?
      modifies this
      ensures !loading
      ensures result == (if o.Loaded? then Some(o.html) else None)
      ensures error == (if o.Loaded? then old(error) else Some(o.message))
      ensures processedHtml == (if o.Loaded? then Some(o.html) else old(processedHtml))
      ensures notices == old(notices) + NoticesOf(o, onError, onLoadComplete)
    {
      if o.Loaded? {
        processedHtml := Some(o.html);
        if onLoadComplete {
          notices := notices + [LoadCompleted];
        }
        result := Some(o.html);
      } else {
        error := Some(o.message);
        if onError {
          notices := notices + [ErrorReported(o.message)];
        }
        result := None;
      }
      loading := false;
    }

    /** `loadPage`: the page on success, `None` otherwise, with the state
        the outcome calls for. */
    method LoadPage(url: string, forceRefresh: bool, siteId: Option<int>, env: Env, now: nat)
      returns (result: Option<string>)
      modifies this
      ensures var o := Load(url, forceRefresh, siteId, env, now);
        && (result == if o.Loaded? then Some(o.html) else None)
        && error == (match o case Rejected => Some(EmptyUrlMessage) case Failed(m) => Some(m) case Loaded(_) => None)
        && processedHtml == (if o.Loaded? then Some(o.html) else old(processedHtml))
        && notices == old(notices) + NoticesOf(o, onError, onLoadComplete)
        && loading == (if o.Rejected? then old(loading) else false)
    {
      var target := Start(url, env);
      if target.None? {
        return None;
      }
      result := Finish(target.value, forceRefresh, siteId, env, now);
    }
  }
}
