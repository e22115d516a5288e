/** The `check_updates` command: parse every site (or the one asked for),
    look each parsed record up by URL, insert the unseen ones silently, and
    for a stored record strictly older than the parsed one overwrite it and
    report a `ModUpdate`. Store errors are swallowed record by record and a
    site that fails to parse is skipped. */
module Updates {
  import opened Wrappers
  import opened Models
  import opened Dom
  import opened Parser
  import opened Store

  /** Which store calls fail during one run, by record URL: the lookup
      (`get_mod_by_url`) and the write (`update_mod` / `add_mod`). */
  datatype StoreFaults = StoreFaults(lookup: string -> bool, write: string -> bool)

  /** `get_site(id)` finds no row. */
  datatype CheckError = SiteNotFound(id: int)

  /** The clock readings of one run, site by site: `parseAt(s)` is the
      `Utc::now()` that `parse_site` stamps on the records of `s`, and
      `writeAt(s)` the later `Utc::now()` that `add_mod` / `update_mod` store
      when they write a record of `s`. */
  datatype Clock = Clock(parseAt: Site -> int, writeAt: Site -> int)

  /** The mod table, its id counter and the updates reported so far. */
  datatype State = State(mods: seq<Mod>, nextId: int, updates: seq<ModUpdate>)

  /** The stored record for `c`'s URL as the loop sees it: a failed lookup
      reads as "not found" (`.ok().flatten()`). */
  function Found(st: State, c: Mod, f: StoreFaults): Option<Mod> {
    if f.lookup(c.url) then None else ModByUrl(st.mods, c.url)
  }

  /** The loop body for one parsed record `c` of `site`; `now` is the clock
      reading the store takes when it writes. */
  function Step(st: State, site: Site, c: Mod, now: int, f: StoreFaults): (r: State)
    ensures IsPrefixSeq(st.updates, r.updates) && |r.updates| <= |st.updates| + 1
    ensures |r.updates| == |st.updates| + 1 <==> Found(st, c, f).Some? && Found(st, c, f).value.updatedAt < c.updatedAt
    ensures |r.updates| == |st.updates| + 1 ==>
      var ex := Found(st, c, f).value;
      r.updates[|st.updates|] == ModUpdate(ex.id, site.id, ex.version, c.version, c.changes)
    // a strictly older stored record is overwritten in place
    ensures Found(st, c, f).Some? && Found(st, c, f).value.updatedAt < c.updatedAt && !f.write(c.url) ==>
      r.mods == UpdateRows(st.mods, Found(st, c, f).value.id, c, now) && r.nextId == st.nextId
    ensures Found(st, c, f).Some? && !(Found(st, c, f).value.updatedAt < c.updatedAt) ==> r == st
    // an unseen URL is appended with the next id and both stamps at write time
    ensures Found(st, c, f).None? && !f.write(c.url) && ModByUrl(st.mods, c.url).None? ==>
      r == State(st.mods + [c.(id := st.nextId, createdAt := now, updatedAt := now)], st.nextId + 1, st.updates)
    // a failed lookup of a stored URL makes the insert hit the UNIQUE constraint
    ensures Found(st, c, f).None? && ModByUrl(st.mods, c.url).Some? ==> r == st
    ensures f.write(c.url) ==> r.mods == st.mods && r.nextId == st.nextId
  {
    match Found(st, c, f)
    case Some(ex) =>
      if ex.updatedAt < c.updatedAt then
        var mods := if f.write(c.url) then st.mods else UpdateRows(st.mods, ex.id, c, now);
        State(mods, st.nextId, st.updates + [ModUpdate(ex.id, site.id, ex.version, c.version, c.changes)])
      else st
    case None =>
      if f.write(c.url) || ModByUrl(st.mods, c.url).Some? then st
      else State(st.mods + [c.(id := st.nextId, createdAt := now, updatedAt := now)], st.nextId + 1, st.updates)
  }

  predicate IsPrefixSeq(a: seq<ModUpdate>, b: seq<ModUpdate>) {
    |a| <= |b| && b[..|a|] == a
  }

  /** The inner loop over the records of one site, written at clock `now`.
      Reported updates are only ever appended to, at most one per record. */
  function RunRecords(st: State, site: Site, cs: seq<Mod>, now: int, f: StoreFaults): (r: State)
    ensures IsPrefixSeq(st.updates, r.updates)
    ensures |r.updates| <= |st.updates| + |cs|
  {
    if cs == [] then st
    else Step(RunRecords(st, site, cs[..|cs| - 1], now, f), site, cs[|cs| - 1], now, f)
  }

  /** The outer loop over the sites: each site is parsed at its own clock
      reading and its records written at a later one. Reported updates are
      only ever appended to. */
  function RunSites(st: State, e: SelectorEngine, fetch: Fetcher, sites: seq<Site>, clock: Clock, f: StoreFaults): (r: State)
    ensures IsPrefixSeq(st.updates, r.updates)
  {
    if sites == [] then st
    else
      var before := RunSites(st, e, fetch, sites[..|sites| - 1], clock, f);
      var site := sites[|sites| - 1];
      match SiteResult(e, fetch, site, clock.parseAt(site))
      case Ok(ms) => RunRecords(before, site, ms, clock.writeAt(site), f)
      case Err(_) => before
  }

  function SiteById(sites: seq<Site>, id: int): (r: Option<Site>)
    ensures r.Some? ==> r.value in sites && r.value.id == id
    ensures r.None? ==> forall s :: s in sites ==> s.id != id
  {
    if sites == [] then None
    else if sites[0].id == id then Some(sites[0])
    else SiteById(sites[1..], id)
  }

  /** The sites a run checks: all of them (`get_sites`, given here in its
      order), or the one with the requested id, if there is one. */
  function SitesToCheck(allSites: seq<Site>, siteId: Option<int>): Option<seq<Site>> {
    match siteId
    case None => Some(allSites)
    case Some(id) =>
      match SiteById(allSites, id)
      case None => None
      case Some(s) => Some([s])
  }

  /** One pass of the inner loop: look the record up, report and overwrite
      a strictly older stored row, insert an unseen URL; store errors are
      discarded. */
  method CheckRecord(db: Database, site: Site, c: Mod, now: int, f: StoreFaults, updates: seq<ModUpdate>)
    returns (updates': seq<ModUpdate>)
    requires db.Valid()
    modifies db
    ensures db.Valid() && db.pages == old(db.pages)
    ensures State(db.mods, db.nextModId, updates') == Step(State(old(db.mods), old(db.nextModId), updates), site, c, now, f)
  {
    updates' := updates;
    var looked := db.GetModByUrl(c.url, f.lookup(c.url));
    var existing := if looked.Ok? then looked.value else None;
    if existing.Some? {
      var ex := existing.value;
      if ex.updatedAt < c.updatedAt {
        updates' := updates' + [ModUpdate(ex.id, site.id, ex.version, c.version, c.changes)];
        var ignored := db.UpdateMod(ex.id, c, now, f.write(c.url));
      }
    } else {
      var ignored := db.AddMod(c, now, f.write(c.url));
    }
  }

  /** The inner loop over the records parsed from one site. */
  method CheckRecords(db: Database, site: Site, ms: seq<Mod>, now: int, f: StoreFaults, updates: seq<ModUpdate>)
    returns (updates': seq<ModUpdate>)
    requires db.Valid()
    modifies db
    ensures db.Valid() && db.pages == old(db.pages)
    ensures State(db.mods, db.nextModId, updates') == RunRecords(State(old(db.mods), old(db.nextModId), updates), site, ms, now, f)
  {
    ghost var st0 := State(db.mods, db.nextModId, updates);
    updates' := updates;
    for j := 0 to |ms|
      invariant db.Valid() && db.pages == old(db.pages)
      invariant State(db.mods, db.nextModId, updates') == RunRecords(st0, site, ms[..j], now, f)
    {
      updates' := CheckRecord(db, site, ms[j], now, f, updates');
      assert ms[..j + 1][..j] == ms[..j];
    }
    assert ms[..|ms|] == ms;
  }

  /** `check_updates`. `allSites` is the sites table, `clock` the readings
      taken while each site is parsed and its records written. */
  method CheckUpdates(db: Database, e: SelectorEngine, fetch: Fetcher, allSites: seq<Site>,
                      siteId: Option<int>, clock: Clock, f: StoreFaults)
    returns (r: Result<seq<ModUpdate>, CheckError>)
    requires db.Valid()
    modifies db
    ensures db.Valid() && db.pages == old(db.pages)
    ensures SitesToCheck(allSites, siteId).None? ==>
      && r == Err(SiteNotFound(siteId.value))
      && db.mods == old(db.mods) && db.nextModId == old(db.nextModId)
    ensures SitesToCheck(allSites, siteId).Some? ==>
      var fin := RunSites(State(old(db.mods), old(db.nextModId), []), e, fetch,
                          SitesToCheck(allSites, siteId).value, clock, f);
      r == Ok(fin.updates) && db.mods == fin.mods && db.nextModId == fin.nextId
  {
    var sites: seq<Site>;
    if siteId.Some? {
      var s := SiteById(allSites, siteId.value);
      if s.None? {
        return Err(SiteNotFound(siteId.value));
      }
      sites := [s.value];
    } else {
      sites := allSites;
    }
    ghost var st0 := State(db.mods, db.nextModId, []);
    var updates: seq<ModUpdate> := [];
    for i := 0 to |sites|
      invariant db.Valid() && db.pages == old(db.pages)
      invariant State(db.mods, db.nextModId, updates) == RunSites(st0, e, fetch, sites[..i], clock, f)
    {
      var parsed := ParseSite(e, fetch, sites[i], clock.parseAt(sites[i]));
      RunSitesStep(st0, e, fetch, sites, i, clock, f);
      if parsed.Ok? {
        updates := CheckRecords(db, sites[i], parsed.value, clock.writeAt(sites[i]), f, updates);
      }
    }
    assert sites[..|sites|] == sites;
    return Ok(updates);
  }

  /** One more site of the outer loop. */
  lemma RunSitesStep(st: State, e: SelectorEngine, fetch: Fetcher, sites: seq<Site>, i: nat, clock: Clock, f: StoreFaults)
    requires i < |sites|
    ensures RunSites(st, e, fetch, sites[..i + 1], clock, f) ==
      match SiteResult(e, fetch, sites[i], clock.parseAt(sites[i]))
      case Ok(ms) => RunRecords(RunSites(st, e, fetch, sites[..i], clock, f), sites[i], ms, clock.writeAt(sites[i]), f)
      case Err(_) => RunSites(st, e, fetch, sites[..i], clock, f)
  {
    assert sites[..i + 1][..i] == sites[..i];
  }

  // ---------------------------------------------------------------------
  // Properties of a run

  /** Updates are reported site by site in site order: running `a + b` is
      running `a` and then `b`. */
  lemma {:induction false} RunSitesAppend(st: State, e: SelectorEngine, fetch: Fetcher, a: seq<Site>, b: seq<Site>, clock: Clock, f: StoreFaults)
    ensures RunSites(st, e, fetch, a + b, clock, f) == RunSites(RunSites(st, e, fetch, a, clock, f), e, fetch, b, clock, f)
    decreases |b|
  {
    if b == [] {
      assert a + b == a;
    } else {
      assert (a + b)[..|a + b| - 1] == a + b[..|b| - 1];
      assert (a + b)[|a + b| - 1] == b[|b| - 1];
      RunSitesAppend(st, e, fetch, a, b[..|b| - 1], clock, f);
    }
  }

  /** A site that fails to parse changes nothing, wherever it sits in the
      list: the other sites are processed as if it were absent. */
  lemma FailingSiteSkipped(st: State, e: SelectorEngine, fetch: Fetcher, a: seq<Site>, s: Site, b: seq<Site>, clock: Clock, f: StoreFaults)
    requires SiteResult(e, fetch, s, clock.parseAt(s)).Err?
    ensures RunSites(st, e, fetch, a + [s] + b, clock, f) == RunSites(st, e, fetch, a + b, clock, f)
  {
    RunSitesAppend(st, e, fetch, a + [s], b, clock, f);
    RunSitesAppend(st, e, fetch, a, b, clock, f);
    assert (a + [s])[..|a + [s]| - 1] == a;
  }

  /** Within one site, records are handled in order: the updates of `a + b`
      are those of `a` followed by those of `b`. */
  lemma {:induction false} RunRecordsAppend(st: State, site: Site, a: seq<Mod>, b: seq<Mod>, now: int, f: StoreFaults)
    ensures RunRecords(st, site, a + b, now, f) == RunRecords(RunRecords(st, site, a, now, f), site, b, now, f)
    decreases |b|
  {
    if b == [] {
      assert a + b == a;
    } else {
      assert (a + b)[..|a + b| - 1] == a + b[..|b| - 1];
      assert (a + b)[|a + b| - 1] == b[|b| - 1];
      RunRecordsAppend(st, site, a, b[..|b| - 1], now, f);
    }
  }

  lemma {:induction false} ModByUrlAppend(rows: seq<Mod>, x: Mod, url: string)
    ensures ModByUrl(rows + [x], url) ==
      if ModByUrl(rows, url).Some? then ModByUrl(rows, url)
      else if x.url == url then Some(x) else None
  {
    if rows != [] {
      assert (rows + [x])[1..] == rows[1..] + [x];
      ModByUrlAppend(rows[1..], x, url);
    }
  }

  lemma {:induction false} ModByUrlUpdate(rows: seq<Mod>, id: int, c: Mod, now: int, url: string)
    ensures ModByUrl(UpdateRows(rows, id, c, now), url) ==
      match ModByUrl(rows, url)
      case None => None
      case Some(m) => Some(if m.id == id then Overwrite(m, c, now) else m)
  {
    if rows != [] {
      assert UpdateRows(rows, id, c, now)[1..] == UpdateRows(rows[1..], id, c, now);
      ModByUrlUpdate(rows[1..], id, c, now, url);
    }
  }

  /** Within one site a URL is reported at most once: `parse_site` stamps
      all records of a site with one reading `t`, and the store writes them
      at a later reading `now`, so once the first record for a URL has been
      written the stored row is at least as new as any later record of the
      same site with that URL. The store is assumed not to fail. */
  lemma ReportedOncePerSite(st: State, site: Site, c1: Mod, c2: Mod, now: int, f: StoreFaults)
    requires c1.url == c2.url && c1.updatedAt == c2.updatedAt <= now
    requires !f.lookup(c1.url) && !f.write(c1.url)
    ensures var mid := Step(st, site, c1, now, f);
      Step(mid, site, c2, now, f).updates == mid.updates
  {
    var url := c1.url;
    match ModByUrl(st.mods, url)
    case None =>
      ModByUrlAppend(st.mods, c1.(id := st.nextId, createdAt := now, updatedAt := now), url);
    case Some(ex) =>
      if ex.updatedAt < c1.updatedAt {
        ModByUrlUpdate(st.mods, ex.id, c1, now, url);
      }
  }

  /** Across sites a URL can be reported again: when sites A and B both list
      a URL whose stored row is older than A's parse, A's pass reports it and
      stamps the row with its write reading `nowA`; B is parsed later, so its
      record is newer still and is reported a second time. */
  lemma ReportedAgainAcrossSites(st: State, a: Site, ca: Mod, b: Site, cb: Mod, nowA: int, nowB: int, f: StoreFaults)
    requires ca.url == cb.url && !f.lookup(ca.url) && !f.write(ca.url)
    requires ModByUrl(st.mods, ca.url).Some? && ModByUrl(st.mods, ca.url).value.updatedAt < ca.updatedAt
    requires nowA < cb.updatedAt
    ensures var mid := Step(st, a, ca, nowA, f);
      |mid.updates| == |st.updates| + 1 && |Step(mid, b, cb, nowB, f).updates| == |st.updates| + 2
  {
    var ex := ModByUrl(st.mods, ca.url).value;
    ModByUrlUpdate(st.mods, ex.id, ca, nowA, ca.url);
  }

  /** A record whose URL is not stored is inserted and never reported. */
  lemma NewRecordInsertedSilently(st: State, site: Site, c: Mod, now: int, f: StoreFaults)
    requires ModByUrl(st.mods, c.url).None? && !f.write(c.url)
    ensures Step(st, site, c, now, f).updates == st.updates
    ensures Step(st, site, c, now, f).mods == st.mods + [c.(id := st.nextId, createdAt := now, updatedAt := now)]
    ensures ModByUrl(Step(st, site, c, now, f).mods, c.url).Some?
  {
    ModByUrlAppend(st.mods, c.(id := st.nextId, createdAt := now, updatedAt := now), c.url);
  }
}
