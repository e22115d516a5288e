/** The hard-wired parser for synthira.ru (`SynthiraParser`): fixed
    selectors, the page URL itself as the base for relative links (with its
    trailing slashes removed), and an item without a title is dropped. */
module Synthira {
  import opened Wrappers
  import opened Strings
  import opened Models
  import opened Dom
  import Parser

  const ListSelector := ".mod-item, .article-item, .post-item"
  const TitleSelector := "h2, h3, .title, .post-title, a"
  const UrlSelector := "a"
  const VersionSelector := ".version, .ver"
  const AuthorSelector := ".author, .by-author"
  const ImageSelector := "img"

  /** `Selector::parse(s).ok()`. */
  function Sel(e: SelectorEngine, s: string): Option<string> {
    if e.valid(s) then Some(s) else None
  }

  /** A relative link joined to the page URL: `base_url.trim_end_matches('/')`
      followed by the link; a link starting with "http" is kept. */
  function Join(link: string, base: string): (r: string)
    ensures IsPrefix("http", link) ==> r == link
    ensures !IsPrefix("http", link) ==>
              IsSuffix(link, r) && IsPrefix(TrimEndMatches(base, '/'), r)
              && (|r| == |link| || r[|r| - |link| - 1] != '/')
              && |r| == |TrimEndMatches(base, '/')| + |link|
  {
    Parser.Resolve(link, TrimEndMatches(base, '/'))
  }

  function Href(e: SelectorEngine, item: Node): Option<string> {
    Parser.AttrField(e, Sel(e, UrlSelector), item, "href")
  }

  function Title(e: SelectorEngine, item: Node): string {
    Parser.TextField(e, Sel(e, TitleSelector), item).GetOr("Unknown")
  }

  /** `SynthiraParser::parse_mod_element`. */
  function ParseModElement(e: SelectorEngine, item: Node, baseUrl: string, now: int): Option<Mod>
  {
    var title := Title(e, item);
    var url := match Href(e, item)
      case None => ""
      case Some(h) => Join(h, baseUrl);
    if url == [] || title == "Unknown" then None
    else
      var image := match Parser.AttrField(e, Sel(e, ImageSelector), item, "src")
        case None => None
        case Some(src) => Some(Join(src, baseUrl));
      Some(Mod(0, 0, title, url,
               Parser.TextField(e, Sel(e, VersionSelector), item),
               Parser.TextField(e, Sel(e, AuthorSelector), item),
               None, image, None, now, now))
  }

  /** What `ParseModElement` keeps and what the record holds: an item is
      dropped exactly when it has no title, no `href`, or nothing at all to
      form a URL from; otherwise the record has id and site id 0, no
      description or changes, both timestamps `now`, and each field taken
      from the first match of its fixed selector inside the item. */
  lemma ParseModElementSpec(e: SelectorEngine, item: Node, baseUrl: string, now: int, r: Option<Mod>)
    requires r == ParseModElement(e, item, baseUrl, now)
    ensures r.None? <==>
      Title(e, item) == "Unknown"
      || Href(e, item).None?
      || (Href(e, item).value == [] && TrimEndMatches(baseUrl, '/') == [])
    ensures r.Some? ==>
      var m := r.value;
      && m.id == 0 && m.siteId == 0
      && m.description.None? && m.changes.None?
      && m.createdAt == now && m.updatedAt == now
      && m.title != "Unknown"
      && m.url == Join(Href(e, item).value, baseUrl)
      && m.version == Parser.TextField(e, Sel(e, VersionSelector), item)
      && m.author == Parser.TextField(e, Sel(e, AuthorSelector), item)
      && (m.imageUrl.Some? <==> Parser.AttrField(e, Sel(e, ImageSelector), item, "src").Some?)
      && (m.imageUrl.Some? ==>
            m.imageUrl.value == Join(Parser.AttrField(e, Sel(e, ImageSelector), item, "src").value, baseUrl))
  {
  }

  /** The records the item loop collects, in document order. */
  function ItemsToMods(e: SelectorEngine, items: seq<Node>, baseUrl: string, now: int): seq<Mod> {
    if items == [] then []
    else
      var rest := ItemsToMods(e, items[..|items| - 1], baseUrl, now);
      match ParseModElement(e, items[|items| - 1], baseUrl, now)
      case None => rest
      case Some(m) => rest + [m]
  }

  /** One more item adds its record, if it has one, at the end. */
  lemma ItemsToModsStep(e: SelectorEngine, items: seq<Node>, i: nat, baseUrl: string, now: int)
    requires i < |items|
    ensures ItemsToMods(e, items[..i + 1], baseUrl, now) == match ParseModElement(e, items[i], baseUrl, now)
      case None => ItemsToMods(e, items[..i], baseUrl, now)
      case Some(m) => ItemsToMods(e, items[..i], baseUrl, now) + [m]
  {
    assert items[..i + 1][..i] == items[..i];
  }

  /** `SynthiraParser::parse`: fetch `url`, select the list items, keep the
      records of the items that parse. */
  method Parse(e: SelectorEngine, fetch: Fetcher, url: string, now: int)
    returns (r: Result<seq<Mod>, Parser.ParseError>)
    ensures fetch(url).Err? ==> r == Err(Parser.FetchFailed(fetch(url).error))
    ensures fetch(url).Ok? && !e.valid(ListSelector) ==> r == Err(Parser.InvalidSelector(ListSelector))
    ensures r.Ok? ==> fetch(url).Ok? && e.valid(ListSelector)
    ensures r.Ok? ==> r.value == ItemsToMods(e, Select(e, ListSelector, fetch(url).value), url, now)
  {
    var page := fetch(url);
    if page.Err? {
      return Err(Parser.FetchFailed(page.error));
    }
    if !e.valid(ListSelector) {
      return Err(Parser.InvalidSelector(ListSelector));
    }
    var items := Select(e, ListSelector, page.value);
    var mods: seq<Mod> := [];
    for i := 0 to |items|
      invariant mods == ItemsToMods(e, items[..i], url, now)
    {
      var m := ParseModElement(e, items[i], url, now);
      ItemsToModsStep(e, items, i, url, now);
      if m.Some? {
        mods := mods + [m.value];
      }
    }
    assert items[..|items|] == items;
    return Ok(mods);
  }

  /** At most one record per item, each the record of one of the items and
      each with a non-empty URL and a real title; every item that parses is
      represented. */
  lemma {:induction false} ItemsToModsExact(e: SelectorEngine, items: seq<Node>, baseUrl: string, now: int)
    ensures |ItemsToMods(e, items, baseUrl, now)| <= |items|
    ensures forall m :: m in ItemsToMods(e, items, baseUrl, now) ==>
              m.url != [] && m.title != "Unknown" &&
              exists it :: it in items && ParseModElement(e, it, baseUrl, now) == Some(m)
    ensures forall it :: it in items && ParseModElement(e, it, baseUrl, now).Some? ==>
              ParseModElement(e, it, baseUrl, now).value in ItemsToMods(e, items, baseUrl, now)
  {
    if items != [] {
      var init := items[..|items| - 1];
      var last := items[|items| - 1];
      ItemsToModsExact(e, init, baseUrl, now);
      var rest := ItemsToMods(e, init, baseUrl, now);
      var pm := ParseModElement(e, last, baseUrl, now);
      ParseModElementSpec(e, last, baseUrl, now, pm);
      assert ItemsToMods(e, items, baseUrl, now) == if pm.Some? then rest + [pm.value] else rest;
      assert items == init + [last];
      forall it | it in items ensures it in init || it == last {
      }
    }
  }

  /** Records keep the document order of their items. */
  lemma {:induction false} ItemsToModsAppend(e: SelectorEngine, a: seq<Node>, b: seq<Node>, baseUrl: string, now: int)
    ensures ItemsToMods(e, a + b, baseUrl, now) == ItemsToMods(e, a, baseUrl, now) + ItemsToMods(e, b, baseUrl, now)
    decreases |b|
  {
    if b == [] {
      assert a + b == a;
    } else {
      var b' := b[..|b| - 1];
      assert (a + b)[..|a + b| - 1] == a + b';
      assert (a + b)[|a + b| - 1] == b[|b| - 1];
      ItemsToModsAppend(e, a, b', baseUrl, now);
    }
  }

  /** Any number of trailing slashes on the page URL give the same links. */
  lemma TrailingSlashesIrrelevant(link: string, base: string)
    ensures Join(link, base + "/") == Join(link, base)
  {
    assert (base + "/")[..|base + "/"| - 1] == base;
  }
}
