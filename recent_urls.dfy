/** The list of recently opened URLs (`useRecentUrls`): most recent first,
    mirrored to the browser's local storage, and shown or hidden on request.
    A save puts the URL first with no other copy and keeps at most ten
    entries; a list loaded from storage is taken as stored, so it has
    those properties only once a save has rewritten it.

    Local storage is modelled by its decoded content: the list last written,
    if any. Writing it can fail (a full or disabled storage); the failure is
    only logged. */
module RecentUrls {
  import opened Wrappers
  import opened Strings

  const MaxUrls: nat := 10

  // ---------------------------------------------------------------------
  // The list operations

  /** `s.filter(u => u !== x)`. */
  function Without(s: seq<string>, x: string): (r: seq<string>)
    ensures x !in r && |r| <= |s|
    ensures forall y :: y != x ==> multiset(r)[y] == multiset(s)[y]
    ensures x !in s ==> r == s
  {
    if s == [] then []
    else
      var rest := Without(s[1..], x);
      assert s == [s[0]] + s[1..];
      if s[0] == x then rest else [s[0]] + rest
  }

  /** `a` is `b` with some elements left out, the rest in their order. */
  predicate IsSubsequence(a: seq<string>, b: seq<string>)
    decreases |b|
  {
    if a == [] then true
    else if b == [] then false
    else (a[0] == b[0] && IsSubsequence(a[1..], b[1..])) || IsSubsequence(a, b[1..])
  }

  /** Filtering keeps the order of what it keeps. */
  lemma {:induction false} WithoutKeepsOrder(s: seq<string>, x: string)
    ensures IsSubsequence(Without(s, x), s)
    decreases |s|
  {
    if s != [] {
      WithoutKeepsOrder(s[1..], x);
      var rest := Without(s[1..], x);
      if s[0] != x {
        assert Without(s, x) == [s[0]] + rest;
        assert ([s[0]] + rest)[1..] == rest;
      }
    }
  }

  /** A prefix of a subsequence is a subsequence. */
  lemma {:induction false} PrefixOfSubsequence(a: seq<string>, b: seq<string>, k: nat)
    requires k <= |a| && IsSubsequence(a, b)
    ensures IsSubsequence(a[..k], b)
    decreases |b|
  {
    if k > 0 && a != [] && b != [] {
      if a[0] == b[0] && IsSubsequence(a[1..], b[1..]) {
        PrefixOfSubsequence(a[1..], b[1..], k - 1);
        assert a[..k][1..] == a[1..][..k - 1];
      } else {
        PrefixOfSubsequence(a, b[1..], k);
      }
    }
  }

  /** Lines 45-47: `url` moved to the front, its other occurrences removed,
      the list cut to `MaxUrls`; a blank `url` changes nothing (line 42). */
  function Saved(urls: seq<string>, url: string): (r: seq<string>)
    ensures IsBlank(url, IsJsSpace) ==> r == urls
    ensures !IsBlank(url, IsJsSpace) ==> 0 < |r| <= MaxUrls && r[0] == url && url !in r[1..]
  {
    if TrimJs(url) == [] then urls
    else
      var all := [url] + Without(urls, url);
      assert all[1..] == Without(urls, url);
      all[..if |all| < MaxUrls then |all| else MaxUrls]
  }

  /** After a save the other URLs follow in their old order, and only the
      oldest ones beyond the capacity are dropped. */
  lemma SavedKeepsOrder(urls: seq<string>, url: string)
    requires !IsBlank(url, IsJsSpace)
    ensures IsSubsequence(Saved(urls, url)[1..], urls)
    ensures Saved(urls, url)[1..] == Without(urls, url)[..|Saved(urls, url)| - 1]
    ensures |Saved(urls, url)| == if 1 + |Without(urls, url)| < MaxUrls then 1 + |Without(urls, url)| else MaxUrls
  {
    var w := Without(urls, url);
    var all := [url] + w;
    var r := Saved(urls, url);
    assert r[1..] == w[..|r| - 1];
    WithoutKeepsOrder(urls, url);
    PrefixOfSubsequence(w, urls, |r| - 1);
  }

  /** Saving the same URL twice gives the list saving it once gives. */
  lemma SavedIdempotent(urls: seq<string>, url: string)
    ensures Saved(Saved(urls, url), url) == Saved(urls, url)
  {
    if !IsBlank(url, IsJsSpace) {
      var r := Saved(urls, url);
      SavedKeepsOrder(urls, url);
      assert r == [url] + r[1..];
      assert Without(r, url) == r[1..] by {
        assert Without(r, url) == Without(r[1..], url);
      }
    }
  }

  /** A URL other than the saved one stays in the list exactly when it was
      among the `MaxUrls - 1` most recent others. */
  lemma SavedMembers(urls: seq<string>, url: string, other: string)
    requires !IsBlank(url, IsJsSpace) && other != url
    ensures other in Saved(urls, url) <==> other in Without(urls, url)[..|Saved(urls, url)| - 1]
  {
    var r := Saved(urls, url);
    SavedKeepsOrder(urls, url);
    assert r == [url] + r[1..];
  }

  /** `removeRecentUrl`: every occurrence goes, the others keep their order
      and their number. */
  lemma RemovedKeepsOthers(urls: seq<string>, url: string)
    ensures url !in Without(urls, url)
    ensures IsSubsequence(Without(urls, url), urls)
    ensures forall y :: y != url ==> multiset(Without(urls, url))[y] == multiset(urls)[y]
  {
    WithoutKeepsOrder(urls, url);
  }

  // ---------------------------------------------------------------------
  // The state

  class RecentUrlList {
    var recentUrls: seq<string>
    var showRecentUrls: bool
    /** What local storage holds under the list's key. */
    var stored: Option<seq<string>>

    constructor(stored: Option<seq<string>>)
      ensures recentUrls == [] && !showRecentUrls && this.stored == stored
    {
      recentUrls := [];
      showRecentUrls := false;
      this.stored := stored;
    }

    /** Lines 22-32: the stored list, when there is one. */
    method Load()
      modifies this
      ensures recentUrls == if stored.Some? then stored.value else old(recentUrls)
      ensures showRecentUrls == old(showRecentUrls) && stored == old(stored)
    {
      if stored.Some? {
        recentUrls := stored.value;
      }
    }

    /** Lines 41-52. The list is updated even when writing it back fails. */
    method Save(url: string, writeSucceeds: bool)
      modifies this
      ensures recentUrls == Saved(old(recentUrls), url)
      ensures stored == if !IsBlank(url, IsJsSpace) && writeSucceeds then Some(recentUrls) else old(stored)
      ensures showRecentUrls == old(showRecentUrls)
    {
      if TrimJs(url) == [] {
        return;
      }
      var urls := Without(recentUrls, url);
      urls := [url] + urls;
      recentUrls := urls[..if |urls| < MaxUrls then |urls| else MaxUrls];
      if writeSucceeds {
        stored := Some(recentUrls);
      }
    }

    /** Lines 59-66. */
    method Remove(urlToRemove: string, writeSucceeds: bool)
      modifies this
      ensures recentUrls == Without(old(recentUrls), urlToRemove)
      ensures stored == if writeSucceeds then Some(recentUrls) else old(stored)
      ensures showRecentUrls == old(showRecentUrls)
    {
      recentUrls := Without(recentUrls, urlToRemove);
      if writeSucceeds {
        stored := Some(recentUrls);
      }
    }

    /** Lines 73-79: set to `show` when given, flipped otherwise. */
    method Toggle(show: Option<bool>)
      modifies this
      ensures showRecentUrls == if show.Some? then show.value else !old(showRecentUrls)
      ensures recentUrls == old(recentUrls) && stored == old(stored)
    {
      if show.Some? {
        showRecentUrls := show.value;
      } else {
        showRecentUrls := !showRecentUrls;
      }
    }
  }
}
