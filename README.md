# mod-aggregator, modelled in Dafny

mod-aggregator is a desktop application for following game mods. Its Rust
backend scrapes mod listings from sites with a CSS-selector configuration,
stores the records in SQLite, and reports the records whose timestamps have
moved on. Its Svelte front end loads pages into a sandboxed viewer: it
strips their scripts and embeds its own selection and navigation scripts.
It also keeps a list of recently opened URLs and suggests selectors for an
element the user picked.

This project models that core and proves properties of the model:

- `parser.dfy`: the configurable scraper `ParserEngine::parse_site` and
  `parse_mod_element`. It covers field extraction inside one list item,
  URL resolution, the drop rule and the item loop.
- `synthira.dfy`: the hard-wired scraper for synthira.ru.
- `store.dfy`: the `mods` and `saved_pages` tables as a class holding row
  sequences and id counters. It has the lookup, insert, update, versioned
  save, two-tier page lookup, version listing and deletion of the database
  layer.
- `updates.dfy`: `check_updates`, the site-by-site, record-by-record
  update detection.
- `page_loader.dfy`: `loadPage` of the page-loader composable, as a class
  with the `loading`, `error` and `processedHtml` fields. It covers URL
  normalisation, the fetch outcome, page processing and the callbacks.
- `html_processor.dfy` and `patterns.dfy`:
  - `removeScripts` and `embedSelectionScript`, over a model of
    JavaScript's `String.prototype.replace` (global and first-match);
  - `$` replacement templates;
  - case-insensitive literals;
  - the regular expressions the two functions use.
- `recent_urls.dfy`: the recent-URL list, as a class.
- `ai_detector.dfy`: the heuristic selector
  suggestions, the AI-response stand-in and the fall-backs.
- `strings.dfy`, `dom.dfy`, `models.dfy`, `wrappers.dfy`: shared
  definitions. They hold Rust and JavaScript `trim`, ASCII lower-casing,
  the `Mod`/`ModUpdate`/`Site` records and an abstract HTML tree.

How the outside world is represented:

- The HTML parser and CSS selector engine are abstract. A `SelectorEngine`
  supplies `valid(selector)` and `matches(selector, node)`. `Select` yields
  the matching proper descendants of a node in document order.
- Network fetches are function parameters returning `Result`.
- The clock is a parameter: `now` for `loadPage`, and per-site parse and write readings for `check_updates`.
- Store failures are boolean oracles, one per call.
- The browser's `new URL(…)` is a parameter `parse` returning the
  canonical `href` and `hostname`, or `None` when it throws.
- `localStorage` is a field `stored` of the recent-URL list.

## Model

| member | source | states |
|---|---|---|
| Strings.Trim | src-tauri/src/parser.rs:94 | `trim()` removes exactly the leading and trailing whitespace. The result is empty iff the input is all whitespace; otherwise it neither starts nor ends with whitespace. |
| Strings.TrimEndMatches | src-tauri/src/parsers/synthira.rs:57 | `trim_end_matches('/')` is a prefix of its input that no longer ends in `/`, and everything removed was `/`. |
| Strings.LowerStr | src/lib/ai-detector.ts:93 | Lower-casing keeps the length and maps each character through ASCII lower-casing. |
| Models.ConfigStr | src-tauri/src/parser.rs:35-36 | `config.get(key).and_then(as_str)` is `Some(s)` iff the key holds the JSON string `s`. |
| Dom.Matching | src-tauri/src/parser.rs:57 | A selection holds exactly the elements the selector matches, no more than were scanned. |
| Dom.MatchingAppend | src-tauri/src/parser.rs:57 | Selecting from two runs of nodes is selecting from the first, then from the second, so the selection keeps document order. |
| Dom.MatchingCount | src-tauri/src/parser.rs:57 | Each matching node is selected as often as it occurs, and no other node is. |
| Dom.First | src-tauri/src/parser.rs:93 | `select(..).next()` is a matching element below the item. It is `None` iff no element below the item matches. |
| Dom.FirstInDocumentOrder | src-tauri/src/parser.rs:93 | The element `select(..).next()` returns is the first match in document order: no earlier descendant matches. |
| Parser.Resolve | src-tauri/src/parser.rs:105-111 | A link starting with `http` is kept verbatim; otherwise the result is the base URL followed by the link. The result is empty iff both are. |
| Parser.FieldSelector | src-tauri/src/parser.rs:88-90 | A field selector exists iff the key holds a string that parses as a selector. |
| Parser.TextField | src-tauri/src/parser.rs:123-125 | The field is the trimmed text of the first match inside the item, and `None` iff there is no selector or no match. |
| Parser.AttrField | src-tauri/src/parser.rs:141-143 | The attribute of the first match only. It is `None` iff there is no selector, no match, or the first match lacks the attribute. |
| Parser.Title | src-tauri/src/parser.rs:88-95 | The title is the trimmed text of the first title match. It is `"Unknown"` when the selector is absent, not a string, invalid or unmatched. |
| Parser.ParseModElement | src-tauri/src/parser.rs:81-165 | An item is dropped iff it has no `href` or its resolved URL is empty. A kept record has id 0, site 0, no description and no changes, both timestamps `now`, and each field from its own selector. |
| Parser.SiteResult | src-tauri/src/parser.rs:31-68 | Without a string `list_selector` the result is an error before any fetch. A fetch error or an invalid list selector is an error for the whole site. Success holds the records of the matched items of `list_url` (else `site.url`), in document order. |
| Parser.ParseSite | src-tauri/src/parser.rs:31-68 | The item loop that pushes onto `mods` returns exactly `SiteResult`. |
| Parser.ItemsToModsStep | src-tauri/src/parser.rs:57-65 | One more item appends its record (id 0, the site's id) at the end, or nothing. |
| Parser.ItemsToModsAppend | src-tauri/src/parser.rs:57-65 | Items are processed independently and in document order. |
| Parser.ItemsToModsExact | src-tauri/src/parser.rs:57-65 | Every record comes from an item `parse_mod_element` keeps, with id 0 and the site's id. Every kept item yields its record, and there are no more records than items. |
| Parser.OptionalSelectorsNeverDrop | src-tauri/src/parser.rs:119-150 | Changing the version, author or image selector never changes whether an item is kept. An unusable one leaves its field `None`. |
| Synthira.Join | src-tauri/src/parsers/synthira.rs:53-59 | A link starting with `http` is kept. Otherwise the result is the page URL with all trailing `/` removed followed by the link, with nothing in between, so no `/` sits right before the link. |
| Synthira.ParseModElementSpec | src-tauri/src/parsers/synthira.rs:36-104 | An item is dropped iff its title is `"Unknown"`, it has no `href`, or the joined URL is empty. A kept record has ids 0, no description or changes, timestamps `now`, and version, author and image from their fixed selectors. |
| Synthira.ItemsToModsStep | src-tauri/src/parsers/synthira.rs:27-31 | One more item appends its record at the end, or nothing. |
| Synthira.Parse | src-tauri/src/parsers/synthira.rs:13-34 | A fetch error or an unparsable list selector is an error. Otherwise the result is the records of the matched items in document order. |
| Synthira.ItemsToModsExact | src-tauri/src/parsers/synthira.rs:25-33 | At most one record per item. Every record has a URL and a title other than `"Unknown"`, and every kept item yields its record. |
| Synthira.ItemsToModsAppend | src-tauri/src/parsers/synthira.rs:27-31 | Records keep the document order of their items. |
| Synthira.TrailingSlashesIrrelevant | src-tauri/src/parsers/synthira.rs:57 | Extra trailing slashes on the page URL give the same joined links. |
| Store.SortDesc | src-tauri/src/database.rs:554 | `ORDER BY version_timestamp DESC` yields the same rows, each as often as before, newest first. |
| Store.InsertSorted | src-tauri/src/database.rs:554 | Inserting one row into a newest-first sequence keeps it newest-first and adds exactly that row. |
| Store.Rows | src-tauri/src/database.rs:554 | The `WHERE` clause keeps exactly the rows of the site (and the URL, when one is given). |
| Store.RowsCount | src-tauri/src/database.rs:554 | The `WHERE` clause keeps each selected row as many times as the table holds it, and no other row. |
| Store.Ordered | src-tauri/src/database.rs:553-556 | A filtered and ordered query holds exactly the selected rows, newest first. |
| Store.VersionsListed | src-tauri/src/database.rs:553-566 | The listed versions are exactly those of the selected rows, each as often as the table holds it, newest first. |
| Store.ModByUrl | src-tauri/src/database.rs:318-337 | The lookup returns a row with that URL, or `None` iff there is none. |
| Store.UpdateRows | src-tauri/src/database.rs:383-399 | `UPDATE mods` overwrites title, version, author, description, image URL and changes, and sets `updated_at` to now. It keeps id, site, URL and creation time, and touches no other row. |
| Store.RemoveId | src-tauri/src/database.rs:582-588 | `DELETE … WHERE id = ?` keeps exactly the rows with other ids; a missing id changes nothing. |
| Store.Database.GetModByUrl | src-tauri/src/database.rs:318-337 | Returns the stored row with that URL, `None` when there is none, or the store error. |
| Store.Database.AddMod | src-tauri/src/database.rs:346-373 | Appends the record with the next id and `now` as both timestamps, and returns it with that id. A URL already stored fails on the UNIQUE constraint and changes nothing. |
| Store.Database.UpdateMod | src-tauri/src/database.rs:383-399 | The table becomes `UpdateRows` of the old table; on failure it is unchanged. |
| Store.Database.SavePageForSite | src-tauri/src/database.rs:476-496 | A new version row is appended with the next id. Every earlier row, including earlier versions of the same page, is unchanged. |
| Store.Database.GetSavedPage | src-tauri/src/database.rs:502-536 | With a row for the exact site and URL, the result is `Some` folder of a newest such row. Otherwise the result is `Some` iff a row of the same site has a URL that is a prefix of the requested one or the other way round, and then it is the folder of a newest such row. An I/O failure is an error. |
| Store.Database.GetSavedPageVersions | src-tauri/src/database.rs:548-571 | Exactly the versions of that site and URL, each as often as the table holds it, newest first; an I/O failure is an error. |
| Store.Database.DeleteSavedPageVersion | src-tauri/src/database.rs:582-588 | Removes only the row with that id and keeps the table's id invariant. |
| Store.NewestFirst | src-tauri/src/database.rs:505 | `LIMIT 1` of a newest-first query is a newest row. |
| Store.FirstRelatedIsNewest | src-tauri/src/database.rs:518-533 | The first prefix-related row met in a newest-first scan is a newest related row. |
| Store.RemoveIdKeepsIds | src-tauri/src/database.rs:582-588 | Deleting rows keeps the remaining ids distinct and below the autoincrement counter. |
| Updates.Step | src-tauri/src/main.rs:63-78 | One candidate adds at most one update. It adds one iff a stored row with its URL was found and is strictly older. The update carries the stored id, the site id, the old and new versions and the changes. Such a row is overwritten with `UpdateRows` at the write time and keeps the id counter. An unseen URL is appended with the next id and the write time as both stamps. An equal or newer stored row changes nothing, and a failed write leaves the table as it was. |
| Updates.SiteById | src-tauri/src/main.rs:52-53 | `get_site(id)` finds a site with that id, or reports that there is none. |
| Updates.CheckRecord | src-tauri/src/main.rs:63-78 | The loop body changes the tables and the update list exactly as `Step` says. |
| Updates.CheckRecords | src-tauri/src/main.rs:63-79 | The inner loop over one site's records is `Step` applied in record order. |
| Updates.CheckUpdates | src-tauri/src/main.rs:48-85 | An unknown site id is an error and changes nothing. Otherwise the result and the new table are those of running the sites in order, skipping those that fail to parse. Each site is parsed at its own clock reading and its records are written at a later one. |
| Updates.RunSitesAppend | src-tauri/src/main.rs:60-82 | Updates come site by site in site order. |
| Updates.FailingSiteSkipped | src-tauri/src/main.rs:61-81 | A site that fails to parse changes nothing; the others are handled as if it were absent. |
| Updates.RunRecordsAppend | src-tauri/src/main.rs:63-78 | Within a site, records are handled in order. |
| Updates.RunRecords | src-tauri/src/main.rs:63-79 | The update list is only appended to, by at most one entry per record. |
| Updates.RunSites | src-tauri/src/main.rs:60-82 | Site by site, the update list is only appended to. |
| Updates.ReportedOncePerSite | src-tauri/src/main.rs:64-65 | Within one site, whose records share one parse reading, a URL reported once is not reported again: the row was rewritten at a later reading, so the strict comparison fails. |
| Updates.ReportedAgainAcrossSites | src-tauri/src/main.rs:60-78 | A URL listed by two sites, whose stored row is older than the first site's record, is reported for both sites when the second site is parsed after the first site's write. |
| Updates.NewRecordInsertedSilently | src-tauri/src/main.rs:75-77 | An unseen URL is inserted, and is then found, without producing an update. |
| PageLoader.StripTrailingSlash | src/lib/composables/usePageLoader.svelte.ts:63-65 | At most one trailing `/` is removed. |
| PageLoader.StripTrailingSlashRule | src/lib/composables/usePageLoader.svelte.ts:63-65 | A URL with at most three slashes, such as `https://host/`, keeps its slash. A URL ending in `/` with four or more slashes loses exactly one. |
| PageLoader.StripTrailingSlashIdempotentIff | src/lib/composables/usePageLoader.svelte.ts:63-65 | Stripping twice equals stripping once exactly when the URL does not end in `//` with at least five slashes. |
| PageLoader.StripTrailingSlashNotIdempotent | src/lib/composables/usePageLoader.svelte.ts:63-65 | `https://h/a//` becomes `https://h/a/` after one pass and `https://h/a` after two. |
| PageLoader.NormalizeUrl | src/lib/composables/usePageLoader.svelte.ts:57-76 | An unparsable URL is used trimmed, as it is. A parsable one becomes its canonical `href`, with at most one trailing slash removed. |
| PageLoader.Normalize | src/lib/composables/usePageLoader.svelte.ts:57-65 | The step-by-step reassignment of `normalizedUrl` computes `NormalizeUrl`. |
| PageLoader.SiteArg | src/lib/composables/usePageLoader.svelte.ts:90 | `siteId \|\| null` passes the id only when it is present and not 0. |
| PageLoader.ErrorMessage | src/lib/composables/usePageLoader.svelte.ts:146 | The reported message is the thrown one, or the fixed fallback when that is empty. It is never empty. |
| PageLoader.DotsToUnderscores | src/lib/composables/usePageLoader.svelte.ts:126 | `replace(/\./g, '_')` leaves no `.` and changes nothing else. |
| PageLoader.FreshFolder | src/lib/composables/usePageLoader.svelte.ts:126-130 | A fresh folder is `saved_pages/page_<now>_<host with _ for .>`, with `<now>` in decimal. |
| PageLoader.FreshFolderDistinct | src/lib/composables/usePageLoader.svelte.ts:126-130 | Two different clock readings give two different folders for one host. |
| Strings.NatToStringInjective | src/lib/composables/usePageLoader.svelte.ts:126 | Different numbers print as different decimal strings. |
| PageLoader.PageFolderChoice | src/lib/composables/usePageLoader.svelte.ts:116-131 | Without a forced refresh, a non-empty cached folder is reused. A forced refresh builds a fresh folder and never consults the cache. |
| PageLoader.PageFolder | src/lib/composables/usePageLoader.svelte.ts:116-131 | A folder is never empty. With a forced refresh there is a folder iff the URL parses. Without one, a failing cache lookup means no folder. |
| PageLoader.WithResources | src/lib/composables/usePageLoader.svelte.ts:116-136 | Without a folder the page is kept. With one, the page becomes what `embedResources` returns when it succeeds, and is kept when it throws. |
| PageLoader.ProcessPage | src/lib/composables/usePageLoader.svelte.ts:100-136 | The page is `embedSelectionScript(removeScripts(html))` for the URL. With a folder and a successful `embedResources`, the result is what that returns; otherwise it is that page. |
| PageLoader.FixedPageWithoutResources | src/lib/composables/usePageLoader.svelte.ts:100-136 | With the corrected helpers and no folder, the page holds no script tag, closing script tag or `noscript` block, and gets the styles and both scripts at the insertion point and the base URL inside the tags. |
| PageLoader.Fetched | src/lib/composables/usePageLoader.svelte.ts:81-157 | A started fetch never ends as a rejection, and a failure always carries a non-empty message. |
| PageLoader.Process | src/lib/composables/usePageLoader.svelte.ts:100-136 | `removeScripts` and then `embedSelectionScript` as written, then the resources, exactly as `ProcessPage`. |
| PageLoader.BlankUrlRejected | src/lib/composables/usePageLoader.svelte.ts:48-54 | `loadPage` refuses a URL iff it is blank, whatever the backend would do. |
| PageLoader.FetchOutcome | src/lib/composables/usePageLoader.svelte.ts:87-95 | The page loads iff the fetch returns non-empty HTML. Empty HTML fails with the empty-HTML message, and a fetch error fails with a non-empty message. |
| PageLoader.Load | src/lib/composables/usePageLoader.svelte.ts:47-158 | `loadPage` is rejected iff the URL is blank, and a failure always carries a non-empty message. |
| PageLoader.LoadedPageWithoutResources | src/lib/composables/usePageLoader.svelte.ts:99-136 | Without a resource folder, the loaded page is `embedSelectionScript(removeScripts(html))` for the fetched HTML and the normalised URL, as written. |
| PageLoader.NoticesOf | src/lib/composables/usePageLoader.svelte.ts:140-152 | At most one callback fires. A success notifies iff `onLoadComplete` is set, and a failure reports an error iff `onError` is set. |
| PageLoader.PageLoader.Start | src/lib/composables/usePageLoader.svelte.ts:47-79 | A blank URL sets the empty-URL error, notifies, and leaves `loading` alone. Otherwise `loading` is raised, `error` cleared and the normalised URL handed on. |
| PageLoader.PageLoader.Finish | src/lib/composables/usePageLoader.svelte.ts:81-157 | After the fetch, `loading` is false. On success `processedHtml` and the result are the page processed by `removeScripts` and `embedSelectionScript` as written. On failure `error` holds the message and the result is `None`. |
| PageLoader.PageLoader.Settle | src/lib/composables/usePageLoader.svelte.ts:137-157 | The state after an outcome: the page stored and returned, or the error recorded, with the callback fired and `loading` lowered. |
| PageLoader.PageLoader.LoadPage | src/lib/composables/usePageLoader.svelte.ts:47-158 | The whole call: result, `error`, `processedHtml`, callbacks and `loading`, as determined by `Load`, whose processing is the source's as written. |
| RecentUrls.Without | src/lib/composables/useRecentUrls.svelte.ts:45 | `filter(u => u !== url)` removes every copy of the URL and keeps every other entry with its multiplicity. |
| RecentUrls.WithoutKeepsOrder | src/lib/composables/useRecentUrls.svelte.ts:61 | Filtering keeps the relative order of the rest. |
| RecentUrls.Saved | src/lib/composables/useRecentUrls.svelte.ts:41-48 | A blank URL leaves the list unchanged. Otherwise the URL is first, appears exactly once, and the list holds at most 10 entries. |
| RecentUrls.SavedKeepsOrder | src/lib/composables/useRecentUrls.svelte.ts:45-47 | After a save the other URLs keep their order. The oldest are dropped to keep 10. |
| RecentUrls.SavedIdempotent | src/lib/composables/useRecentUrls.svelte.ts:45-47 | Saving the same URL twice gives the list of saving it once. |
| RecentUrls.SavedMembers | src/lib/composables/useRecentUrls.svelte.ts:45-47 | Another URL survives a save iff it is among the first nine of the filtered list. |
| RecentUrls.RemovedKeepsOthers | src/lib/composables/useRecentUrls.svelte.ts:59-62 | Removing a URL drops every copy of it and keeps the rest in order. |
| RecentUrls.RecentUrlList.Load | src/lib/composables/useRecentUrls.svelte.ts:22-32 | A stored list replaces the in-memory one; without one nothing changes. |
| RecentUrls.RecentUrlList.Save | src/lib/composables/useRecentUrls.svelte.ts:41-52 | The list becomes `Saved`, and is written to storage when the URL is not blank and the write succeeds. |
| RecentUrls.RecentUrlList.Remove | src/lib/composables/useRecentUrls.svelte.ts:59-66 | The list becomes `Without`, and is written to storage when the write succeeds. |
| RecentUrls.RecentUrlList.Toggle | src/lib/composables/useRecentUrls.svelte.ts:73-79 | An argument sets the visibility; no argument flips it. Nothing else changes. |
| AiDetector.JoinSplit | src/lib/ai-detector.ts:98 | `split(' > ').join(' > ')` gives back the selector. |
| AiDetector.Split | src/lib/ai-detector.ts:98 | `split(' > ')` gives at least one part, and its last part holds no `' > '`. |
| AiDetector.ParentSelectorSplits | src/lib/ai-detector.ts:98 | The parent selector plus `' > '` plus a last step without `' > '` rebuilds the selector. With no `' > '` at all, the parent is empty. |
| AiDetector.ContainerSelector | src/lib/ai-detector.ts:98 | The container selector is the parent selector, or `ul, ol, div` when that is empty. It is never empty. |
| AiDetector.HeuristicDetection | src/lib/ai-detector.ts:91-160 | The pushes onto `suggestions` build exactly `Heuristics`. |
| AiDetector.Heuristics | src/lib/ai-detector.ts:91-160 | Between one and five suggestions. |
| AiDetector.HeuristicsShape | src/lib/ai-detector.ts:148-159 | The result is never empty and ends with text extraction of the selector at 0.7. Its captions come in the fixed order list, URL, image, title, text. |
| AiDetector.LabelsInOrder | src/lib/ai-detector.ts:95-157 | Any two suggestions appear in the fixed caption order. |
| AiDetector.HeuristicsTests | src/lib/ai-detector.ts:96-146 | Each suggestion appears iff its test passes, with its fixed attribute and confidence. The list container comes first, with the container selector at 0.8. |
| AiDetector.HeuristicsIgnoreTagCase | src/lib/ai-detector.ts:93 | Tags that agree after lower-casing give the same suggestions. |
| AiDetector.StripPositionsShortens | src/lib/ai-detector.ts:82 | Removing `:nth-of-type(n)` never lengthens the selector, and leaves one without such a step unchanged. |
| AiDetector.StripPositionsOnce | src/lib/ai-detector.ts:82 | One global replacement can leave a `:nth-of-type(1)` that it assembled from a nested one. |
| AiDetector.ParseAIResponse | src/lib/ai-detector.ts:70-89 | For an `li`/`div`/`article`/`section`-like tag, the answer is one list-container suggestion with positions stripped; otherwise it is empty. |
| AiDetector.ParsedAnswer | src/lib/ai-detector.ts:70-89 | At most one suggestion, present iff the tag names a container. It is the list container at 0.7 with a selector no longer than the element's. |
| AiDetector.DetectElementsWithAI | src/lib/ai-detector.ts:23-68 | Detection always returns at least one suggestion. |
| AiDetector.DetectWithOpenAI | src/lib/ai-detector.ts:165-222 | `detectWithOpenAI` returns the heuristics whatever the key and the answer. |
| AiDetector.DetectionFallbacks | src/lib/ai-detector.ts:165-222 | `detectWithOpenAI` always gives the heuristics. `detectElementsWithAI` gives the parsed answer when the service answers and the tag qualifies, and the heuristics otherwise. |
| Patterns.FindFrom | src/lib/utils/html-processor.ts:101 | The first match at or after a position, and no match before it; `None` iff there is no match from there on. |
| Patterns.NoMatchIdentity | src/lib/utils/html-processor.ts:16-43 | A global replace with no match returns the string unchanged. |
| Patterns.NoNewOccurrence | src/lib/utils/html-processor.ts:67-78 | A global replace whose replacement cannot form a piece of `q` introduces no `q`. |
| Patterns.ExpandPlain | src/lib/utils/html-processor.ts:101-111 | A replacement string without `$` is inserted verbatim. |
| Patterns.AppendAfterMatch | src/lib/utils/html-processor.ts:101 | `replace(/(<tag[^>]*>)/i, '$1' + x)` puts `x` right after the first matching tag and nowhere else. |
| Patterns.InsertBeforeLiteral | src/lib/utils/html-processor.ts:105 | `replace(lit, x + lit)` puts `x` right before the first `lit` and nowhere else. |
| Patterns.InsertAfterLiteral | src/lib/utils/html-processor.ts:107 | `replace(lit, lit + x)` puts `x` right after the first `lit` and nowhere else. |
| HtmlProcessor.TagLen | src/lib/utils/html-processor.ts:17 | `<script[^>]*>` matches a case-insensitive prefix followed by no `>` up to the first `>`. |
| HtmlProcessor.BlockLen | src/lib/utils/html-processor.ts:16 | A block match is an opening tag and more, ending in `>`. |
| HtmlProcessor.BlockLenNearestClose | src/lib/utils/html-processor.ts:16 | A block match ends with a case-insensitive closing tag, and no closing tag starts between the opening tag and it. An opening tag with no block match has no closing tag after it. |
| HtmlProcessor.AttrLen | src/lib/utils/html-processor.ts:33 | A handler-attribute match starts with whitespace and ends with a quote. |
| HtmlProcessor.DataAttrLen | src/lib/utils/html-processor.ts:38-40 | A `data-*` match starts with whitespace and ends with a quote. |
| HtmlProcessor.RemoveScripts | src/lib/utils/html-processor.ts:11-46 | The chain of reassignments, with the handler loop, computes `StripScripts`: the passes in the source's order. |
| HtmlProcessor.StripScripts | src/lib/utils/html-processor.ts:11-46 | The result of `removeScripts` holds no complete `<noscript…>…</noscript>` block. |
| HtmlProcessor.NoscriptBlocksGone | src/lib/utils/html-processor.ts:43 | The `noscript` pass leaves no complete block, whatever the text. |
| HtmlProcessor.StripAttributesFixed | src/lib/utils/html-processor.ts:22-40 | The corrected attribute removal leaves no `data-base-url` attribute, no listed handler and no `data-*` attribute of the three kinds, and never lengthens the page. |
| HtmlProcessor.AttributePassesShrink | src/lib/utils/html-processor.ts:22-40 | One round of the attribute passes never lengthens the page, and a round that keeps the length finds nothing to remove. |
| HtmlProcessor.StripScriptsFixed | src/lib/utils/html-processor.ts:11-46 | The corrected `removeScripts` leaves no complete `noscript` block. |
| HtmlProcessor.RemoveHandlers | src/lib/utils/html-processor.ts:32-35 | The `forEach` over the handlers removes them one at a time, in list order. |
| HtmlProcessor.StripHandlersFront | src/lib/utils/html-processor.ts:32-35 | Removing a list of handlers is removing the first, then the rest. |
| HtmlProcessor.ScriptTagsGone | src/lib/utils/html-processor.ts:16-19 | After the four script passes, no `<script` tag or `</script>` remains. |
| HtmlProcessor.StripScriptsFixedLeavesNoScript | src/lib/utils/html-processor.ts:11-46 | With the attribute passes first, no script tag, opening or closing, survives `removeScripts`. |
| HtmlProcessor.HandlerRemovalReassemblesScript | src/lib/utils/html-processor.ts:16-35 | In the source's order, `<scr onclick=''ipt>` comes out as `<script>`; the corrected order leaves no script tag. |
| HtmlProcessor.HandlerRemovalReassemblesHandler | src/lib/utils/html-processor.ts:32-35 | In the source's order, `<a on onclick=''click='x'>` comes out as `<a onclick='x'>`, which still carries an `onclick` handler; the corrected removal leaves none. |
| HtmlProcessor.EscapeScript | src/lib/utils/html-processor.ts:67-78 | An escaped script body holds no `</script>` (any case), no `<!--` and no `-->`. |
| HtmlProcessor.BaseUrlValueHasNoQuote | src/lib/utils/html-processor.ts:91 | The escaped base URL holds no `"`. |
| HtmlProcessor.BaseUrlAttribute | src/lib/utils/html-processor.ts:88-93 | The attribute is empty iff there is no base URL. |
| HtmlProcessor.InsertionPoint | src/lib/utils/html-processor.ts:100-114 | The insertion point lies inside the page; with no anchor at all, it is the front. |
| HtmlProcessor.InsertScriptsPlacesText | src/lib/utils/html-processor.ts:100-114 | The cascade as written puts a text without `$` at the first applicable anchor: after DOCTYPE, after `<html…>`, before `</head>`, after `<head>`, after `<body…>`, before `</body>`, else the front. The rest of the page is unchanged. |
| HtmlProcessor.InsertScriptsFixedPlacesText | src/lib/utils/html-processor.ts:100-114 | The corrected cascade puts any text verbatim at that point and leaves the rest unchanged. |
| HtmlProcessor.DollarPatternIsExpanded | src/lib/utils/html-processor.ts:105 | A `$&` in the inserted text is replaced by the matched `</head>`; the corrected cascade keeps it. |
| HtmlProcessor.AttachPoint | src/lib/utils/html-processor.ts:119-132 | When the attribute is attached, it goes right after the first tag the pattern matches. |
| HtmlProcessor.AttachPointConditions | src/lib/utils/html-processor.ts:119-132 | The attribute is attached iff the page includes the prefix, the tag pattern finds a tag, and that tag's text lacks `data-base-url`. |
| HtmlProcessor.AttachAfterLandsAfterTag | src/lib/utils/html-processor.ts:119-132 | As written, the attribute lands right after the tag's closing `>`, and the rest is unchanged. |
| HtmlProcessor.AttachInsideLandsInTag | src/lib/utils/html-processor.ts:119-132 | The corrected placement puts the attribute right before the tag's closing `>`, inside the tag, and leaves the rest unchanged. |
| HtmlProcessor.EmbedScripts | src/lib/utils/html-processor.ts:57-136 | The reassignments of `modifiedHtml` compute `EmbedSelectionScript`. |
| HtmlProcessor.EmbedPlacesScripts | src/lib/utils/html-processor.ts:80-114 | Without a base URL, the styles, the navigation script and the selection script appear in that order at the insertion point, and nothing else changes. |
| HtmlProcessor.EmbedAsWrittenPlacesScripts | src/lib/utils/html-processor.ts:57-114 | As written, without a base URL and with no `$` in the styles or escaped scripts, they appear in order at the insertion point and nothing else changes. |

## Left out

- HTTP fetching, the `scraper` HTML parser and the CSS selector engine are parameters: the fetch oracles and `SelectorEngine`. Selector matching itself is not modelled.
- SQLite itself, the schema and the connection are not modelled. Each table is a row sequence with an autoincrement counter. Each operation takes an oracle saying whether the I/O fails. `version_timestamp` order is lexicographic string order.
- `Database::new`, `get_sites` and `get_site` I/O errors in `check_updates` are not modelled. An id that is not in the sites list is the only error.
- Clocks (`Utc::now()`, `Date.now()`) are parameters. `Date.now()` in `loadPage` is one reading `now`. In `check_updates` each site has one parse reading, stamped on all its records, and one later write reading, stored by `add_mod` and `update_mod`.
- CheckUpdates: the separate `Utc::now()` of each record's write within one site is modelled as one write reading per site, later than the site's parse reading. A record is never compared with a row written at a different instant of the same site, so this changes no report.
- `new URL(…)` canonicalisation is the parameter `parse`. Only the trimming and the trailing-slash rule are modelled.
- The `fetch_page` and `get_cache_folder_for_url` commands and `embedResources` are oracles in `Env`. The selection script, navigation script and styles are opaque strings.
- The JavaScript error object is modelled as its message string, and `e?.message || e?.toString()` as "the message unless it is empty".
- `loadPage`'s `await` points are not interleaved with other calls. The call is split into `Start` and `Finish`, which `LoadPage` runs back to back.
- `siteId` given as a function is modelled as the value it returns.
- The Hugging Face and OpenAI requests and their prompts are not modelled. Whether the service answered is the parameter `answered`, and `parseAIResponse` ignores the answer's content, as the source does.
- Confidences are hundredths (70 for 0.7) instead of floating point.
- `JSON.parse` of the stored recent-URL list and its failure path (`recentUrls = []`) are not modelled. The stored value is either absent or a list of strings.
- `console` logging and `eprintln!` are not modelled.
- AiDetector.HeuristicsIgnoreTagCase: `toLowerCase()` is modelled as ASCII lower-casing, so non-ASCII tag names are not covered.
- Strings.LowerStr: `toLowerCase()` in `heuristicDetection` and in the container test of `parseAIResponse` is modelled as ASCII lower-casing, so non-ASCII tag names are not covered.
- Dom.Matching: `matches(selector, node)` sees only the node's own subtree, so selectors that depend on ancestors or siblings (`ul > li`, `:nth-child`) cannot be expressed, and two equal subtrees always match alike.
- HtmlProcessor.RemoveScripts: no lemma states that the source's passes leave no `data-base-url` attribute or listed handler, because they can leave one: `HtmlProcessor.HandlerRemovalReassemblesHandler` shows a handler reassembled by the handler pass. The corrected removal, `HtmlProcessor.StripAttributesFixed`, is proved to leave none.
- HtmlProcessor.StripScriptsFixed: that no removable attribute is left is proved for the attribute passes (`StripAttributesFixed`), not carried through the later script-tag and `noscript` passes of the corrected pipeline.
- HtmlProcessor.TagLen: case-insensitive matching (the `/i` flag) folds ASCII letters only. This is exact for the regular expressions here, whose letters are all ASCII.
- The JavaScript `\s` class and `trim()` are modelled by one whitespace predicate, and Rust's `trim()` by another. Each covers the Unicode White_Space code points of its language.

## Findings

| source | as written | input that shows it | evidently intended | confidence | as-written member | corrected member |
|---|---|---|---|---|---|---|
| src/lib/utils/html-processor.ts:16-35 | Script tags are removed before the handler attributes, so removing a handler can join two halves into a new tag. | `<scr onclick=''ipt>` becomes `<script>` | No `<script` tag survives `removeScripts` | high, not executed | HtmlProcessor.HandlerRemovalReassemblesScript | HtmlProcessor.StripScriptsFixedLeavesNoScript |
| src/lib/utils/html-processor.ts:32-35 | Each handler is removed by one global pass, so removing one occurrence can join the text around it into another. | `<a on onclick=''click='x'>` becomes `<a onclick='x'>` | No listed handler survives `removeScripts` | high, not executed | HtmlProcessor.HandlerRemovalReassemblesHandler | HtmlProcessor.StripAttributesFixed |
| src/lib/utils/html-processor.ts:122-130 | `$1${baseUrlAttribute}` appends the attribute after the tag's `>`, into the page text. | `<html>` becomes `<html> data-base-url="u"` | The attribute lands inside the `<html>`/`<body>` tag, where the navigation script reads it | high, not executed | HtmlProcessor.AttachAfterLandsAfterTag | HtmlProcessor.AttachInsideLandsInTag |
| src/lib/utils/html-processor.ts:101-111 | The inserted scripts are a replacement string, so `$&`, `$1`, `` $` `` and `$'` in them are expanded. | `</head>` with text `$&` becomes `</head></head>` | The styles and scripts are inserted verbatim | high, not executed | HtmlProcessor.DollarPatternIsExpanded | HtmlProcessor.InsertScriptsFixedPlacesText |

`PageLoader.ProcessPage`, and with it `Load`, `Finish` and `LoadPage`, follows the loader as written: it calls `StripScripts` and `EmbedSelectionScript`. The corrected pipeline, built from `StripScriptsFixed` and `EmbedSelectionScriptFixed`, is the separate `PageLoader.ProcessPageFixed`, and `PageLoader.FixedPageWithoutResources` states what it guarantees.

Two further behaviours are modelled as written and proved, but not corrected:

- The trailing-slash rule strips only one `/`, so normalisation is not idempotent: `https://h/a//` needs two passes. This follows the code, although the URL is meant to be normalised for consistency (`PageLoader.StripTrailingSlashIdempotentIff`).
- A single global replace of `:nth-of-type(n)` can leave one behind (`AiDetector.StripPositionsOnce`).

`check_updates` stamps each candidate with the parse time. With a clock that moves forward, every stored URL seen again in a later run is reported as updated. Within one site, a URL is reported at most once (`Updates.ReportedOncePerSite`). Across sites it can be reported again: when two sites list it, the second site is parsed after the first site's write, so its record is newer still (`Updates.ReportedAgainAcrossSites`).
