/** The configurable site parser (`ParserEngine`): a site's parser
    configuration names the page to fetch, a selector for the list items and
    one selector per field; every matched item becomes at most one `Mod`. */
module Parser {
  import opened Wrappers
  import opened Strings
  import opened Models
  import opened Dom

  datatype ParseError =
    | MissingListSelector
    | FetchFailed(msg: string)
    | InvalidSelector(selector: string)

  /** A link as written in the page made absolute: kept as it is when it
      starts with "http", otherwise appended to `base`. */
  function Resolve(link: string, base: string): (r: string)
    ensures IsSuffix(link, r)
    ensures IsPrefix("http", link) ==> r == link
    ensures !IsPrefix("http", link) ==> IsPrefix(base, r) && |r| == |base| + |link|
    ensures r == [] <==> link == [] && base == []
  {
    if IsPrefix("http", link) then link else base + link
  }

  /** The selector configured under `key`, when it is a string that parses
      (`config.get(key).and_then(as_str).and_then(|s| Selector::parse(s).ok())`). */
  function FieldSelector(e: SelectorEngine, config: Config, key: string): (r: Option<string>)
    ensures r.Some? <==> ConfigStr(config, key).Some? && e.valid(ConfigStr(config, key).value)
    ensures r.Some? ==> r == ConfigStr(config, key)
  {
    match ConfigStr(config, key)
    case None => None
    case Some(s) => if e.valid(s) then Some(s) else None
  }

  /** The first element inside `item` that the (optional) selector matches. */
  function FirstIn(e: SelectorEngine, sel: Option<string>, item: Node): Option<Node> {
    match sel
    case None => None
    case Some(s) => First(e, s, item)
  }

  /** The trimmed text of the first element inside `item` that `sel` matches. */
  function TextField(e: SelectorEngine, sel: Option<string>, item: Node): (r: Option<string>)
    ensures r.Some? <==> sel.Some? && First(e, sel.value, item).Some?
    ensures r.Some? ==> r.value == TrimRust(TextOf(First(e, sel.value, item).value))
  {
    match FirstIn(e, sel, item)
    case None => None
    case Some(x) => Some(TrimRust(TextOf(x)))
  }

  /** Attribute `name` of the first element inside `item` that `sel` matches
      (a later match that has the attribute is not consulted). */
  function AttrField(e: SelectorEngine, sel: Option<string>, item: Node, name: string): (r: Option<string>)
    ensures r.Some? <==> sel.Some? && First(e, sel.value, item).Some?
                         && name in First(e, sel.value, item).value.attrs
    ensures r.Some? ==> r.value == First(e, sel.value, item).value.attrs[name]
  {
    match FirstIn(e, sel, item)
    case None => None
    case Some(x) => Attr(x, name)
  }

  function BaseUrl(config: Config): string {
    ConfigStr(config, "base_url").GetOr("")
  }

  /** The raw `href` of an item, before resolution. */
  function Href(e: SelectorEngine, config: Config, item: Node): Option<string> {
    AttrField(e, FieldSelector(e, config, "url_selector"), item, "href")
  }

  /** The trimmed text of the title element, or "Unknown" when the title
      selector is missing, does not parse or matches nothing. */
  function Title(e: SelectorEngine, config: Config, item: Node): (r: string)
    ensures var t := ConfigStr(config, "title_selector");
      r == if t.None? || !e.valid(t.value) || First(e, t.value, item).None? then "Unknown"
           else TrimRust(TextOf(First(e, t.value, item).value))
  {
    TextField(e, FieldSelector(e, config, "title_selector"), item).GetOr("Unknown")
  }

  function Image(e: SelectorEngine, config: Config, item: Node): Option<string> {
    match AttrField(e, FieldSelector(e, config, "image_selector"), item, "src")
    case None => None
    case Some(src) => Some(Resolve(src, BaseUrl(config)))
  }

  /** `parse_mod_element`: the record for one list item, or `None` when the
      item has no usable URL. Every field selector is evaluated inside the
      item only; `now` is the clock reading used for both timestamps. */
  function ParseModElement(e: SelectorEngine, item: Node, config: Config, now: int): (r: Option<Mod>)
    ensures r.None? <==> Href(e, config, item).None? || (Href(e, config, item).value == [] && BaseUrl(config) == [])
    ensures r.Some? ==>
      var m := r.value;
      && m.id == 0 && m.siteId == 0
      && m.description.None? && m.changes.None?
      && m.createdAt == now && m.updatedAt == now
      && m.url == Resolve(Href(e, config, item).value, BaseUrl(config))
      && m.title == Title(e, config, item)
      && m.version == TextField(e, FieldSelector(e, config, "version_selector"), item)
      && m.author == TextField(e, FieldSelector(e, config, "author_selector"), item)
      && m.imageUrl == Image(e, config, item)
  {
    var href := Href(e, config, item);
    if href.None? then None
    else
      var url := Resolve(href.value, BaseUrl(config));
      if url == [] then None
      else
        Some(Mod(0, 0, Title(e, config, item), url,
                 TextField(e, FieldSelector(e, config, "version_selector"), item),
                 TextField(e, FieldSelector(e, config, "author_selector"), item),
                 None, Image(e, config, item), None, now, now))
  }

  /** The records `parse_site` collects from the given list items, in order:
      one per item that `ParseModElement` keeps, stamped with the site id. */
  function ItemsToMods(e: SelectorEngine, items: seq<Node>, config: Config, siteId: int, now: int): seq<Mod>
  {
    if items == [] then []
    else
      var rest := ItemsToMods(e, items[..|items| - 1], config, siteId, now);
      match ParseModElement(e, items[|items| - 1], config, now)
      case None => rest
      case Some(m) => rest + [m.(id := 0, siteId := siteId)]
  }

  /** The page `parse_site` downloads: `list_url` when configured, else the
      site's own URL. */
  function ListUrl(site: Site): string {
    ConfigStr(site.parserConfig, "list_url").GetOr(site.url)
  }

  /** What `parse_site` returns: the configuration is checked for a string
      `list_selector` before anything is fetched; a failed download and a list
      selector that does not parse are errors for the whole site; otherwise
      the records of the matched items, in document order. */
  function SiteResult(e: SelectorEngine, fetch: Fetcher, site: Site, now: int): (r: Result<seq<Mod>, ParseError>)
    ensures ConfigStr(site.parserConfig, "list_selector").None? ==> r == Err(MissingListSelector)
    ensures ConfigStr(site.parserConfig, "list_selector").Some? && fetch(ListUrl(site)).Err? ==>
              r == Err(FetchFailed(fetch(ListUrl(site)).error))
    ensures ConfigStr(site.parserConfig, "list_selector").Some? && fetch(ListUrl(site)).Ok?
            && !e.valid(ConfigStr(site.parserConfig, "list_selector").value) ==>
              r == Err(InvalidSelector(ConfigStr(site.parserConfig, "list_selector").value))
    ensures r.Ok? ==>
      && ConfigStr(site.parserConfig, "list_selector").Some? && fetch(ListUrl(site)).Ok?
      && r.value == ItemsToMods(e, Select(e, ConfigStr(site.parserConfig, "list_selector").value,
                                          fetch(ListUrl(site)).value),
                                site.parserConfig, site.id, now)
  {
    match ConfigStr(site.parserConfig, "list_selector")
    case None => Err(MissingListSelector)
    case Some(sel) =>
      match fetch(ListUrl(site))
      case Err(msg) => Err(FetchFailed(msg))
      case Ok(doc) =>
        if !e.valid(sel) then Err(InvalidSelector(sel))
        else Ok(ItemsToMods(e, Select(e, sel, doc), site.parserConfig, site.id, now))
  }

  /** `ParserEngine::parse_site`: the item loop pushes one record per kept
      item. */
  method ParseSite(e: SelectorEngine, fetch: Fetcher, site: Site, now: int)
    returns (r: Result<seq<Mod>, ParseError>)
    ensures r == SiteResult(e, fetch, site, now)
  {
    var config := site.parserConfig;
    var listUrl := ListUrl(site);
    var listSelector := ConfigStr(config, "list_selector");
    if listSelector.None? {
      return Err(MissingListSelector);
    }
    var page := fetch(listUrl);
    if page.Err? {
      return Err(FetchFailed(page.error));
    }
    if !e.valid(listSelector.value) {
      return Err(InvalidSelector(listSelector.value));
    }
    var items := Select(e, listSelector.value, page.value);
    var mods: seq<Mod> := [];
    var i := 0;
    while i < |items|
      invariant 0 <= i <= |items|
      invariant mods == ItemsToMods(e, items[..i], config, site.id, now)
    {
      var m := ParseModElement(e, items[i], config, now);
      ItemsToModsStep(e, items, i, config, site.id, now);
      if m.Some? {
        mods := mods + [m.value.(id := 0, siteId := site.id)];
      }
      i := i + 1;
    }
    assert items[..|items|] == items;
    return Ok(mods);
  }

  // ---------------------------------------------------------------------
  // Properties of the item loop

  /** One more item adds its record, if it has one, at the end. */
  lemma ItemsToModsStep(e: SelectorEngine, items: seq<Node>, i: nat, config: Config, siteId: int, now: int)
    requires i < |items|
    ensures ItemsToMods(e, items[..i + 1], config, siteId, now) == match ParseModElement(e, items[i], config, now)
      case None => ItemsToMods(e, items[..i], config, siteId, now)
      case Some(m) => ItemsToMods(e, items[..i], config, siteId, now) + [m.(id := 0, siteId := siteId)]
  {
    assert items[..i + 1][..i] == items[..i];
  }

  /** Items are processed independently and in order: the records for
      `a + b` are those for `a` followed by those for `b`. */
  lemma {:induction false} ItemsToModsAppend(e: SelectorEngine, a: seq<Node>, b: seq<Node>, config: Config, siteId: int, now: int)
    ensures ItemsToMods(e, a + b, config, siteId, now)
         == ItemsToMods(e, a, config, siteId, now) + ItemsToMods(e, b, config, siteId, now)
    decreases |b|
  {
    if b == [] {
      assert a + b == a;
    } else {
      var b' := b[..|b| - 1];
      assert (a + b)[..|a + b| - 1] == a + b';
      assert (a + b)[|a + b| - 1] == b[|b| - 1];
      ItemsToModsAppend(e, a, b', config, siteId, now);
    }
  }

  /** Exactly the items that `ParseModElement` keeps yield a record, each
      with id 0 and the site's id, and no item yields more than one. */
  lemma {:induction false} ItemsToModsExact(e: SelectorEngine, items: seq<Node>, config: Config, siteId: int, now: int)
    ensures |ItemsToMods(e, items, config, siteId, now)| <= |items|
    ensures forall m :: m in ItemsToMods(e, items, config, siteId, now) ==>
              m.id == 0 && m.siteId == siteId &&
              exists it :: it in items && ParseModElement(e, it, config, now) == Some(m.(siteId := 0))
    ensures forall it :: it in items && ParseModElement(e, it, config, now).Some? ==>
              ParseModElement(e, it, config, now).value.(siteId := siteId) in ItemsToMods(e, items, config, siteId, now)
  {
    if items != [] {
      var init := items[..|items| - 1];
      var last := items[|items| - 1];
      ItemsToModsExact(e, init, config, siteId, now);
      assert items == init + [last];
      forall it | it in items ensures it in init || it == last {
      }
    }
  }

  /** The optional fields never cause an item to be dropped: whatever is
      configured under `version_selector`, `author_selector` or
      `image_selector` (absent, not a string, or not a valid selector), the
      same items are kept, and an unusable selector leaves its field `None`. */
  lemma OptionalSelectorsNeverDrop(e: SelectorEngine, item: Node, config: Config, now: int, key: string, v: Json)
    requires key == "version_selector" || key == "author_selector" || key == "image_selector"
    ensures ParseModElement(e, item, config[key := v], now).Some? == ParseModElement(e, item, config, now).Some?
    ensures FieldSelector(e, config, key).None? && ParseModElement(e, item, config, now).Some? ==>
              match key
              case "version_selector" => ParseModElement(e, item, config, now).value.version.None?
              case "author_selector" => ParseModElement(e, item, config, now).value.author.None?
              case _ => ParseModElement(e, item, config, now).value.imageUrl.None?
  {
    var c' := config[key := v];
    assert ConfigStr(c', "url_selector") == ConfigStr(config, "url_selector");
    assert ConfigStr(c', "base_url") == ConfigStr(config, "base_url");
  }
}
