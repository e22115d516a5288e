/** The SQLite store (`Database`) as far as the update check and the saved
    pages use it: the `mods` table (AUTOINCREMENT id, UNIQUE url) and the
    append-only, versioned `saved_pages` table. Each table is a sequence of
    rows in insertion order; `ORDER BY version_timestamp DESC` is a sort on
    the timestamp text. Every operation can fail with a database error,
    modelled by an `ioFailure` flag that leaves the tables as they were. */
module Store {
  import opened Wrappers
  import opened Strings
  import opened Models

  datatype DbError = IoError | UniqueViolation(column: string)

  datatype SavedPage = SavedPage(
    id: int,
    siteId: int,
    url: string,
    folderPath: string,
    versionTimestamp: string,
    createdAt: int,
    updatedAt: int)

  /** A row of `get_saved_page_versions`: `(id, folder_path, version_timestamp)`. */
  datatype PageVersion = PageVersion(id: int, folderPath: string, versionTimestamp: string)

  // ---------------------------------------------------------------------
  // Text order (SQLite's BINARY collation compares UTF-8 bytes, which is
  // code point order)

  predicate StrLe(a: string, b: string)
    decreases |a|
  {
    a == [] || (b != [] && (a[0] < b[0] || (a[0] == b[0] && StrLe(a[1..], b[1..]))))
  }

  lemma {:induction false} StrLeTotal(a: string, b: string)
    ensures StrLe(a, b) || StrLe(b, a)
    decreases |a|
  {
    if a != [] && b != [] && a[0] == b[0] {
      StrLeTotal(a[1..], b[1..]);
    }
  }

  lemma {:induction false} StrLeTrans(a: string, b: string, c: string)
    requires StrLe(a, b) && StrLe(b, c)
    ensures StrLe(a, c)
    decreases |a|
  {
    if a != [] && a[0] == b[0] && b[0] == c[0] {
      StrLeTrans(a[1..], b[1..], c[1..]);
    }
  }

  lemma {:induction false} StrLeAntisym(a: string, b: string)
    requires StrLe(a, b) && StrLe(b, a)
    ensures a == b
    decreases |a|
  {
    if a != [] {
      StrLeAntisym(a[1..], b[1..]);
      assert a == [a[0]] + a[1..] && b == [b[0]] + b[1..];
    }
  }

  // ---------------------------------------------------------------------
  // ORDER BY version_timestamp DESC (rows with equal timestamps keep their
  // insertion order)

  /** `p` is strictly newer than `q`. */
  predicate Newer(p: SavedPage, q: SavedPage) {
    StrLe(q.versionTimestamp, p.versionTimestamp) && q.versionTimestamp != p.versionTimestamp
  }

  /** Every row of `s` is at most as new as `t`. */
  predicate NoNewerThan(s: seq<SavedPage>, t: string) {
    forall i :: 0 <= i < |s| ==> StrLe(s[i].versionTimestamp, t)
  }

  predicate SortedDesc(s: seq<SavedPage>) {
    forall i, j :: 0 <= i < j < |s| ==> StrLe(s[j].versionTimestamp, s[i].versionTimestamp)
  }

  function Insert(x: SavedPage, s: seq<SavedPage>): seq<SavedPage> {
    if s == [] || Newer(x, s[0]) then [x] + s else [s[0]] + Insert(x, s[1..])
  }

  /** Insertion sort, newest first: a permutation of `s` in descending
      timestamp order. */
  function SortDesc(s: seq<SavedPage>): (r: seq<SavedPage>)
    ensures SortedDesc(r)
    ensures multiset(r) == multiset(s)
  {
    if s == [] then []
    else
      var sorted := SortDesc(s[..|s| - 1]);
      InsertSorted(s[|s| - 1], sorted);
      assert s == s[..|s| - 1] + [s[|s| - 1]];
      Insert(s[|s| - 1], sorted)
  }

  lemma {:induction false} InsertBound(x: SavedPage, s: seq<SavedPage>, t: string)
    requires NoNewerThan(s, t) && StrLe(x.versionTimestamp, t)
    ensures NoNewerThan(Insert(x, s), t)
    ensures multiset(Insert(x, s)) == multiset(s) + multiset{x}
  {
    if s != [] && !Newer(x, s[0]) {
      InsertBound(x, s[1..], t);
      assert s == [s[0]] + s[1..];
    }
  }

  lemma {:induction false} InsertSorted(x: SavedPage, s: seq<SavedPage>)
    requires SortedDesc(s)
    ensures SortedDesc(Insert(x, s))
    ensures multiset(Insert(x, s)) == multiset(s) + multiset{x}
  {
    if s == [] {
    } else if Newer(x, s[0]) {
      forall i | 0 <= i < |s| ensures StrLe(s[i].versionTimestamp, x.versionTimestamp) {
        if i > 0 { StrLeTrans(s[i].versionTimestamp, s[0].versionTimestamp, x.versionTimestamp); }
      }
      SortedCons(x, s);
    } else {
      StrLeTotal(x.versionTimestamp, s[0].versionTimestamp);
      var t := s[0].versionTimestamp;
      assert NoNewerThan(s[1..], t);
      InsertBound(x, s[1..], t);
      InsertSorted(x, s[1..]);
      SortedCons(s[0], Insert(x, s[1..]));
      assert s == [s[0]] + s[1..];
    }
  }

  /** A row no older than every row of a sorted list can go in front of it. */
  lemma SortedCons(y: SavedPage, r: seq<SavedPage>)
    requires SortedDesc(r) && NoNewerThan(r, y.versionTimestamp)
    ensures SortedDesc([y] + r)
  {
    var q := [y] + r;
    forall i, j | 0 <= i < j < |q| ensures StrLe(q[j].versionTimestamp, q[i].versionTimestamp) {
      assert q[j] == r[j - 1];
      if i > 0 { assert q[i] == r[i - 1]; }
    }
  }

  // ---------------------------------------------------------------------
  // WHERE clauses

  /** `WHERE site_id = ?` and, when a URL is given, `AND url = ?`. */
  predicate Selected(p: SavedPage, siteId: int, url: Option<string>) {
    p.siteId == siteId && (url.None? || p.url == url.value)
  }

  /** The selected rows of `s`, each as often as it occurs in `s`, in table
      order. */
  function Rows(s: seq<SavedPage>, siteId: int, url: Option<string>): (r: seq<SavedPage>)
    ensures forall p :: p in r <==> p in s && Selected(p, siteId, url)
  {
    if s == [] then []
    else if Selected(s[0], siteId, url) then [s[0]] + Rows(s[1..], siteId, url)
    else Rows(s[1..], siteId, url)
  }

  /** `Rows` keeps every selected row as often as the table holds it and
      drops every other row. */
  lemma {:induction false} RowsCount(s: seq<SavedPage>, siteId: int, url: Option<string>)
    ensures forall p :: multiset(Rows(s, siteId, url))[p] == if Selected(p, siteId, url) then multiset(s)[p] else 0
  {
    if s != [] {
      RowsCount(s[1..], siteId, url);
      assert s == [s[0]] + s[1..];
    }
  }

  /** The rows of `s` in `version_timestamp DESC` order, restricted by
      `Selected`; the same rows, newest first. */
  lemma Ordered(s: seq<SavedPage>, siteId: int, url: Option<string>)
    ensures SortedDesc(SortDesc(Rows(s, siteId, url)))
    ensures forall p :: p in SortDesc(Rows(s, siteId, url)) <==> p in s && Selected(p, siteId, url)
  {
    var rows := Rows(s, siteId, url);
    forall p ensures p in SortDesc(rows) <==> p in rows {
      assert p in SortDesc(rows) <==> p in multiset(SortDesc(rows));
    }
  }

  /** One URL is a prefix of the other (the second tier of `get_saved_page`). */
  predicate Related(url: string, saved: string) {
    IsPrefix(saved, url) || IsPrefix(url, saved)
  }

  function ModByUrl(rows: seq<Mod>, url: string): (r: Option<Mod>)
    ensures r.Some? ==> r.value in rows && r.value.url == url
    ensures r.None? ==> forall m :: m in rows ==> m.url != url
  {
    if rows == [] then None
    else if rows[0].url == url then Some(rows[0])
    else ModByUrl(rows[1..], url)
  }

  /** The columns `update_mod` writes, `updated_at` set to `now`. */
  function Overwrite(row: Mod, m: Mod, now: int): Mod {
    row.(title := m.title, version := m.version, author := m.author, description := m.description,
         imageUrl := m.imageUrl, changes := m.changes, updatedAt := now)
  }

  /** `UPDATE mods SET … WHERE id = ?`: the row with that id gets the new
      title, version, author, description, image URL, changes and `now` as
      `updated_at`; its id, site, URL and creation time stay; every other row
      is untouched. A missing id changes nothing. */
  function UpdateRows(rows: seq<Mod>, id: int, m: Mod, now: int): (r: seq<Mod>)
    ensures |r| == |rows|
    ensures forall i :: 0 <= i < |rows| ==>
      && r[i].id == rows[i].id && r[i].siteId == rows[i].siteId
      && r[i].url == rows[i].url && r[i].createdAt == rows[i].createdAt
    ensures forall i :: 0 <= i < |rows| && rows[i].id != id ==> r[i] == rows[i]
    ensures forall i :: 0 <= i < |rows| && rows[i].id == id ==>
      && r[i].title == m.title && r[i].version == m.version && r[i].author == m.author
      && r[i].description == m.description && r[i].imageUrl == m.imageUrl
      && r[i].changes == m.changes && r[i].updatedAt == now
  {
    seq(|rows|, i requires 0 <= i < |rows| => if rows[i].id == id then Overwrite(rows[i], m, now) else rows[i])
  }

  /** `DELETE FROM saved_pages WHERE id = ?`: every other row stays, in order. */
  function RemoveId(s: seq<SavedPage>, id: int): (r: seq<SavedPage>)
    ensures forall p :: p in r <==> p in s && p.id != id
    ensures |r| <= |s|
    ensures (forall p :: p in s ==> p.id != id) ==> r == s
  {
    if s == [] then []
    else if s[0].id == id then RemoveId(s[1..], id)
    else [s[0]] + RemoveId(s[1..], id)
  }

  function VersionOf(p: SavedPage): PageVersion {
    PageVersion(p.id, p.folderPath, p.versionTimestamp)
  }

  /** The `(id, folder_path, version_timestamp)` columns of each row. */
  function Versions(s: seq<SavedPage>): (r: seq<PageVersion>)
    ensures |r| == |s| && forall i :: 0 <= i < |s| ==> r[i] == VersionOf(s[i])
  {
    seq(|s|, i requires 0 <= i < |s| => VersionOf(s[i]))
  }

  lemma VersionsAppend(a: seq<SavedPage>, b: seq<SavedPage>)
    ensures Versions(a + b) == Versions(a) + Versions(b)
  {
  }

  lemma VersionsOne(x: SavedPage)
    ensures multiset(Versions([x])) == multiset{VersionOf(x)}
  {
    assert Versions([x]) == [VersionOf(x)];
  }

  lemma {:induction false} InsertVersions(x: SavedPage, s: seq<SavedPage>)
    ensures multiset(Versions(Insert(x, s))) == multiset(Versions(s)) + multiset{VersionOf(x)}
  {
    if s != [] && !Newer(x, s[0]) {
      var rest := Insert(x, s[1..]);
      InsertVersions(x, s[1..]);
      assert Insert(x, s) == [s[0]] + rest;
      VersionsAppend([s[0]], rest);
      assert s == [s[0]] + s[1..];
      VersionsAppend([s[0]], s[1..]);
      VersionsOne(s[0]);
    } else {
      assert Insert(x, s) == [x] + s;
      VersionsAppend([x], s);
      VersionsOne(x);
    }
  }

  /** Sorting the rows permutes their versions. */
  lemma {:induction false} SortDescVersions(s: seq<SavedPage>)
    ensures multiset(Versions(SortDesc(s))) == multiset(Versions(s))
  {
    if s != [] {
      var init, x := s[..|s| - 1], s[|s| - 1];
      var sorted := SortDesc(init);
      var m := multiset(Versions(init)) + multiset{VersionOf(x)};
      assert multiset(Versions(SortDesc(s))) == m by {
        assert SortDesc(s) == Insert(x, sorted);
        SortDescVersions(init);
        InsertVersions(x, sorted);
      }
      assert multiset(Versions(s)) == m by {
        assert s == init + [x];
        VersionsAppend(init, [x]);
        VersionsOne(x);
      }
    }
  }

  /** The versions of the ordered rows: exactly those of the selected rows,
      each as often as the table holds it, newest first. */
  lemma VersionsListed(pages: seq<SavedPage>, siteId: int, url: string)
    ensures var versions := Versions(SortDesc(Rows(pages, siteId, Some(url))));
      && (forall v :: v in versions <==> exists p :: p in pages && Selected(p, siteId, Some(url)) && v == VersionOf(p))
      && (forall i, j :: 0 <= i < j < |versions| ==> StrLe(versions[j].versionTimestamp, versions[i].versionTimestamp))
      && multiset(versions) == multiset(Versions(Rows(pages, siteId, Some(url))))
  {
    var rows := SortDesc(Rows(pages, siteId, Some(url)));
    Ordered(pages, siteId, Some(url));
    var versions := Versions(rows);
    SortDescVersions(Rows(pages, siteId, Some(url)));
    forall v ensures v in versions <==> exists p :: p in pages && Selected(p, siteId, Some(url)) && v == VersionOf(p) {
      if v in versions {
        var i :| 0 <= i < |rows| && versions[i] == v;
        assert rows[i] in rows;
      }
      if exists p :: p in pages && Selected(p, siteId, Some(url)) && v == VersionOf(p) {
        var p :| p in pages && Selected(p, siteId, Some(url)) && v == VersionOf(p);
        var i :| 0 <= i < |rows| && rows[i] == p;
        assert versions[i] == v;
      }
    }
  }

  class Database {
    /** `mods` rows in rowid order. */
    var mods: seq<Mod>
    var nextModId: int
    /** `saved_pages` rows in rowid order. */
    var pages: seq<SavedPage>
    var nextPageId: int

    /** AUTOINCREMENT ids are positive, below the next id and unique; `url`
        is UNIQUE in `mods`. */
    predicate Valid()
      reads this
    {
      && 1 <= nextModId && 1 <= nextPageId
      && (forall i :: 0 <= i < |mods| ==> 1 <= mods[i].id < nextModId)
      && (forall i, j :: 0 <= i < j < |mods| ==> mods[i].id != mods[j].id && mods[i].url != mods[j].url)
      && (forall i :: 0 <= i < |pages| ==> 1 <= pages[i].id < nextPageId)
      && (forall i, j :: 0 <= i < j < |pages| ==> pages[i].id != pages[j].id)
    }

    constructor ()
      ensures Valid()
      ensures mods == [] && pages == []
    {
      mods, nextModId := [], 1;
      pages, nextPageId := [], 1;
    }

    /** `get_mod_by_url`. */
    method GetModByUrl(url: string, ioFailure: bool) returns (r: Result<Option<Mod>, DbError>)
      ensures ioFailure ==> r == Err(IoError)
      ensures !ioFailure ==> r == Ok(ModByUrl(mods, url))
      ensures r.Ok? && r.value.Some? ==> r.value.value in mods && r.value.value.url == url
      ensures r.Ok? && r.value.None? ==> forall m :: m in mods ==> m.url != url
    {
      if ioFailure {
        return Err(IoError);
      }
      return Ok(ModByUrl(mods, url));
    }

    /** `add_mod`: a new row with a fresh id and both timestamps `now`; the
        caller gets its own record back with the new id. A URL already stored
        violates the UNIQUE constraint. */
    method AddMod(m: Mod, now: int, ioFailure: bool) returns (r: Result<Mod, DbError>)
      requires Valid()
      modifies this
      ensures Valid()
      ensures pages == old(pages) && nextPageId == old(nextPageId)
      ensures ioFailure ==> r == Err(IoError) && mods == old(mods) && nextModId == old(nextModId)
      ensures !ioFailure && ModByUrl(old(mods), m.url).Some? ==>
                r == Err(UniqueViolation("mods.url")) && mods == old(mods) && nextModId == old(nextModId)
      ensures !ioFailure && ModByUrl(old(mods), m.url).None? ==>
                && r == Ok(m.(id := old(nextModId)))
                && mods == old(mods) + [m.(id := old(nextModId), createdAt := now, updatedAt := now)]
                && nextModId == old(nextModId) + 1
    {
      if ioFailure {
        return Err(IoError);
      }
      if ModByUrl(mods, m.url).Some? {
        return Err(UniqueViolation("mods.url"));
      }
      var id := nextModId;
      mods := mods + [m.(id := id, createdAt := now, updatedAt := now)];
      nextModId := nextModId + 1;
      return Ok(m.(id := id));
    }

    /** `update_mod`. */
    method UpdateMod(id: int, m: Mod, now: int, ioFailure: bool) returns (r: Result<(), DbError>)
      requires Valid()
      modifies this
      ensures Valid()
      ensures pages == old(pages) && nextPageId == old(nextPageId) && nextModId == old(nextModId)
      ensures ioFailure ==> r == Err(IoError) && mods == old(mods)
      ensures !ioFailure ==> r == Ok(()) && mods == UpdateRows(old(mods), id, m, now)
    {
      if ioFailure {
        return Err(IoError);
      }
      mods := UpdateRows(mods, id, m, now);
      return Ok(());
    }

    /** `save_page_for_site`: a new version row is appended; no existing row
        (in particular no earlier version of the same page) is changed. */
    method SavePageForSite(siteId: int, url: string, folderPath: string, versionTimestamp: string,
                           now: int, ioFailure: bool) returns (r: Result<(), DbError>)
      requires Valid()
      modifies this
      ensures Valid()
      ensures mods == old(mods) && nextModId == old(nextModId)
      ensures ioFailure ==> r == Err(IoError) && pages == old(pages) && nextPageId == old(nextPageId)
      ensures !ioFailure ==>
                && r == Ok(())
                && pages == old(pages) + [SavedPage(old(nextPageId), siteId, url, folderPath, versionTimestamp, now, now)]
                && nextPageId == old(nextPageId) + 1
    {
      if ioFailure {
        return Err(IoError);
      }
      pages := pages + [SavedPage(nextPageId, siteId, url, folderPath, versionTimestamp, now, now)];
      nextPageId := nextPageId + 1;
      return Ok(());
    }

    /** `get_saved_page`: the newest version saved for exactly this site and
        URL; failing that, the newest row of the same site whose URL is a
        prefix of `url` or has `url` as a prefix; failing that, `None`. */
    method GetSavedPage(siteId: int, url: string, ioFailure: bool) returns (r: Result<Option<string>, DbError>)
      ensures ioFailure ==> r == Err(IoError)
      ensures !ioFailure ==> r.Ok?
      ensures r.Ok? && HasExact(pages, siteId, url) ==> r.value.Some? && NewestExact(pages, siteId, url, r.value.value)
      ensures r.Ok? && !HasExact(pages, siteId, url) ==> (r.value.Some? <==> HasRelated(pages, siteId, url))
      ensures r.Ok? && !HasExact(pages, siteId, url) && r.value.Some? ==> NewestRelated(pages, siteId, url, r.value.value)
    {
      if ioFailure {
        return Err(IoError);
      }
      var exact := SortDesc(Rows(pages, siteId, Some(url)));
      ExactTier(pages, siteId, url);
      if exact != [] {
        return Ok(Some(exact[0].folderPath));
      }
      var rows := SortDesc(Rows(pages, siteId, None));
      var i := 0;
      while i < |rows|
        invariant 0 <= i <= |rows|
        invariant forall j :: 0 <= j < i ==> !Related(url, rows[j].url)
      {
        if Related(url, rows[i].url) {
          RelatedTier(pages, siteId, url, i);
          return Ok(Some(rows[i].folderPath));
        }
        i := i + 1;
      }
      NoRelatedRow(pages, siteId, url);
      return Ok(None);
    }

    /** `get_saved_page_versions`: every version of this site and URL,
        newest first. */
    method GetSavedPageVersions(siteId: int, url: string, ioFailure: bool)
      returns (r: Result<seq<PageVersion>, DbError>)
      ensures ioFailure ==> r == Err(IoError)
      ensures !ioFailure ==> r.Ok?
      ensures r.Ok? ==> forall v :: v in r.value <==>
                exists p :: p in pages && Selected(p, siteId, Some(url)) && v == VersionOf(p)
      ensures r.Ok? ==> forall i, j :: 0 <= i < j < |r.value| ==>
                StrLe(r.value[j].versionTimestamp, r.value[i].versionTimestamp)
      ensures r.Ok? ==> multiset(r.value) == multiset(Versions(Rows(pages, siteId, Some(url))))
    {
      if ioFailure {
        return Err(IoError);
      }
      var versions := Versions(SortDesc(Rows(pages, siteId, Some(url))));
      VersionsListed(pages, siteId, url);
      return Ok(versions);
    }

    /** `delete_saved_page_version`. */
    method DeleteSavedPageVersion(pageId: int, ioFailure: bool) returns (r: Result<(), DbError>)
      requires Valid()
      modifies this
      ensures Valid()
      ensures mods == old(mods) && nextModId == old(nextModId) && nextPageId == old(nextPageId)
      ensures ioFailure ==> r == Err(IoError) && pages == old(pages)
      ensures !ioFailure ==> r == Ok(()) && pages == RemoveId(old(pages), pageId)
    {
      if ioFailure {
        return Err(IoError);
      }
      RemoveIdKeepsIds(pages, pageId, nextPageId);
      pages := RemoveId(pages, pageId);
      return Ok(());
    }
  }

  /** In a newest-first sequence the first row is at least as new as every
      row. */
  lemma NewestFirst(rows: seq<SavedPage>)
    requires SortedDesc(rows) && rows != []
    ensures forall q :: q in rows ==> StrLe(q.versionTimestamp, rows[0].versionTimestamp)
  {
    forall q | q in rows ensures StrLe(q.versionTimestamp, rows[0].versionTimestamp) {
      var j :| 0 <= j < |rows| && rows[j] == q;
      if j == 0 { StrLeTotal(q.versionTimestamp, q.versionTimestamp); }
    }
  }

  /** Some row is saved for exactly this site and URL. */
  predicate HasExact(pages: seq<SavedPage>, siteId: int, url: string) {
    exists p :: p in pages && Selected(p, siteId, Some(url))
  }

  /** Some row of this site has a URL that is a prefix of `url` or has
      `url` as a prefix. */
  predicate HasRelated(pages: seq<SavedPage>, siteId: int, url: string) {
    exists p :: p in pages && p.siteId == siteId && Related(url, p.url)
  }

  /** `folder` is the folder of a newest row for exactly this site and URL. */
  predicate NewestExact(pages: seq<SavedPage>, siteId: int, url: string, folder: string) {
    exists p :: p in pages && Selected(p, siteId, Some(url)) && folder == p.folderPath
      && forall q :: q in pages && Selected(q, siteId, Some(url)) ==> StrLe(q.versionTimestamp, p.versionTimestamp)
  }

  /** `folder` is the folder of a newest related row of this site. */
  predicate NewestRelated(pages: seq<SavedPage>, siteId: int, url: string, folder: string) {
    exists p :: p in pages && p.siteId == siteId && Related(url, p.url) && folder == p.folderPath
      && forall q :: q in pages && q.siteId == siteId && Related(url, q.url) ==> StrLe(q.versionTimestamp, p.versionTimestamp)
  }

  /** The first tier of `get_saved_page`: the head of the ordered exact
      rows is the newest exact row, and there is none when they are empty. */
  lemma ExactTier(pages: seq<SavedPage>, siteId: int, url: string)
    ensures var exact := SortDesc(Rows(pages, siteId, Some(url)));
      && (exact == [] <==> !HasExact(pages, siteId, url))
      && (exact != [] ==> NewestExact(pages, siteId, url, exact[0].folderPath))
  {
    var exact := SortDesc(Rows(pages, siteId, Some(url)));
    Ordered(pages, siteId, Some(url));
    if exact != [] {
      NewestFirst(exact);
      assert exact[0] in exact;
    }
  }

  /** The second tier: the first related row of the ordered site rows is
      the newest related row of the site. */
  lemma RelatedTier(pages: seq<SavedPage>, siteId: int, url: string, i: nat)
    requires i < |SortDesc(Rows(pages, siteId, None))|
    requires Related(url, SortDesc(Rows(pages, siteId, None))[i].url)
    requires forall j :: 0 <= j < i ==> !Related(url, SortDesc(Rows(pages, siteId, None))[j].url)
    ensures HasRelated(pages, siteId, url)
    ensures NewestRelated(pages, siteId, url, SortDesc(Rows(pages, siteId, None))[i].folderPath)
  {
    var rows := SortDesc(Rows(pages, siteId, None));
    Ordered(pages, siteId, None);
    FirstRelatedIsNewest(rows, url, i);
    assert rows[i] in rows;
  }

  /** A scan of the ordered site rows that finds nothing related means the
      site has no related row. */
  lemma NoRelatedRow(pages: seq<SavedPage>, siteId: int, url: string)
    requires forall j :: 0 <= j < |SortDesc(Rows(pages, siteId, None))| ==> !Related(url, SortDesc(Rows(pages, siteId, None))[j].url)
    ensures !HasRelated(pages, siteId, url)
  {
    var rows := SortDesc(Rows(pages, siteId, None));
    Ordered(pages, siteId, None);
    forall p | p in pages && p.siteId == siteId ensures !Related(url, p.url) {
      assert p in rows;
    }
  }

  /** The first related row of a newest-first scan is the newest related row. */
  lemma FirstRelatedIsNewest(rows: seq<SavedPage>, url: string, i: nat)
    requires SortedDesc(rows) && i < |rows| && Related(url, rows[i].url)
    requires forall j :: 0 <= j < i ==> !Related(url, rows[j].url)
    ensures forall q :: q in rows && Related(url, q.url) ==> StrLe(q.versionTimestamp, rows[i].versionTimestamp)
  {
    forall q | q in rows && Related(url, q.url) ensures StrLe(q.versionTimestamp, rows[i].versionTimestamp) {
      var j :| 0 <= j < |rows| && rows[j] == q;
      if j == i { StrLeTotal(q.versionTimestamp, q.versionTimestamp); }
    }
  }

  /** Deleting rows keeps the remaining ids unique and below the counter. */
  lemma RemoveIdKeepsIds(s: seq<SavedPage>, id: int, next: int)
    requires forall i :: 0 <= i < |s| ==> 1 <= s[i].id < next
    requires forall i, j :: 0 <= i < j < |s| ==> s[i].id != s[j].id
    ensures forall i :: 0 <= i < |RemoveId(s, id)| ==> 1 <= RemoveId(s, id)[i].id < next
    ensures forall i, j :: 0 <= i < j < |RemoveId(s, id)| ==> RemoveId(s, id)[i].id != RemoveId(s, id)[j].id
  {
    var r := RemoveId(s, id);
    forall i | 0 <= i < |r| ensures 1 <= r[i].id < next {
      assert r[i] in r;
      var k :| 0 <= k < |s| && s[k] == r[i];
    }
    RemoveIdUnique(s, id);
  }

  /** No two rows share an id. */
  predicate DistinctIds(s: seq<SavedPage>) {
    forall i, j :: 0 <= i < j < |s| ==> s[i].id != s[j].id
  }

  lemma {:induction false} RemoveIdUnique(s: seq<SavedPage>, id: int)
    requires forall i, j :: 0 <= i < j < |s| ==> s[i].id != s[j].id
    ensures forall i, j :: 0 <= i < j < |RemoveId(s, id)| ==> RemoveId(s, id)[i].id != RemoveId(s, id)[j].id
    decreases |s|
  {
    if s != [] {
      var t := s[1..];
      TailDistinct(s);
      RemoveIdUnique(t, id);
      var r' := RemoveId(t, id);
      if s[0].id != id {
        HeadIdAbsent(s, id);
        ConsDistinct(s[0], r');
        assert RemoveId(s, id) == [s[0]] + r';
      } else {
        assert RemoveId(s, id) == r';
      }
    }
  }

  lemma TailDistinct(s: seq<SavedPage>)
    requires s != [] && DistinctIds(s)
    ensures DistinctIds(s[1..])
  {
    var t := s[1..];
    forall i, j | 0 <= i < j < |t| ensures t[i].id != t[j].id {
      assert t[i] == s[i + 1] && t[j] == s[j + 1];
    }
  }

  /** The first row's id is on no later row, and so on none that survive. */
  lemma HeadIdAbsent(s: seq<SavedPage>, id: int)
    requires s != [] && DistinctIds(s)
    ensures forall j :: 0 <= j < |RemoveId(s[1..], id)| ==> RemoveId(s[1..], id)[j].id != s[0].id
  {
    var t := s[1..];
    var r' := RemoveId(t, id);
    forall j | 0 <= j < |r'| ensures r'[j].id != s[0].id {
      assert r'[j] in r';
      var k :| 0 <= k < |t| && t[k] == r'[j];
      assert s[k + 1] == t[k];
    }
  }

  lemma ConsDistinct(x: SavedPage, r: seq<SavedPage>)
    requires DistinctIds(r) && forall j :: 0 <= j < |r| ==> r[j].id != x.id
    ensures DistinctIds([x] + r)
  {
    var w := [x] + r;
    forall i, j | 0 <= i < j < |w| ensures w[i].id != w[j].id {
      assert w[j] == r[j - 1];
      if i > 0 { assert w[i] == r[i - 1]; }
    }
  }
}
